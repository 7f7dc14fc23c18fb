/** LMOVE: an element popped from one list and pushed onto another in two separate atomic updates.
  *
  * Each step applies one closure to one key through `Cas.Apply`, the unit of effect that the
  * optimistic-locking loop guarantees; `ListMoveCas` runs the movers on that loop's own steps. Movers
  * may interleave freely, be refused between the pop and the push, or find that the destination has
  * become something other than a list.
  */
module ListMove {
  import opened Bytes
  import opened Values
  import opened Cas

  datatype Phase =
    | Checking
    | Popping
    | Pushing(element: bytes)
    | Finished(reply: Option<bytes>)
    | Aborted(lost: Option<bytes>)

  datatype Mover = Mover(src: Key, dst: Key, fromLeft: bool, toLeft: bool, phase: Phase)

  datatype System = System(contents: Contents, movers: map<nat, Mover>)

  datatype Move =
    | Start(id: nat, src: Key, dst: Key, fromLeft: bool, toLeft: bool)
    | Check(id: nat)
    | Pop(id: nat, heard: bool)
    | Push(id: nat, heard: bool)
    | Refuse(id: nat)
    | Elsewhere(key: Key, entry: Option<StoredValue>)

  // ---------------------------------------------------------------------------
  // The three closures
  // ---------------------------------------------------------------------------

  function TakeEnd(list: seq<bytes>, left: bool): (seq<bytes>, bytes)
    requires list != []
  {
    if left then (list[1..], list[0]) else (list[..|list| - 1], list[|list| - 1])
  }

  function AddEnd(list: seq<bytes>, x: bytes, left: bool): seq<bytes> {
    if left then [x] + list else list + [x]
  }

  function RotateList(list: seq<bytes>, expires: Option<int>, fromLeft: bool, toLeft: bool): CasAction<Option<bytes>> {
    if list == [] then NoOp(None)
    else
      var (rest, x) := TakeEnd(list, fromLeft);
      Write(StoredValue(List(AddEnd(rest, x, toLeft)), expires), Some(x))
  }

  function Rotate(fromLeft: bool, toLeft: bool): Update<Option<bytes>> {
    (entry: Option<StoredValue>) =>
      match entry
      case Some(StoredValue(List(list), expires)) => Ok(RotateList(list, expires, fromLeft, toLeft))
      case Some(_) => Err(WrongType)
      case None => Ok(NoOp(None))
  }

  function PopList(list: seq<bytes>, expires: Option<int>, fromLeft: bool): CasAction<Option<bytes>> {
    if list == [] then NoOp(None)
    else
      var (rest, x) := TakeEnd(list, fromLeft);
      if rest == [] then Delete(Some(x)) else Write(StoredValue(List(rest), expires), Some(x))
  }

  function PopEnd(fromLeft: bool): Update<Option<bytes>> {
    (entry: Option<StoredValue>) =>
      match entry
      case Some(StoredValue(List(list), expires)) => Ok(PopList(list, expires, fromLeft))
      case Some(_) => Err(WrongType)
      case None => Ok(NoOp(None))
  }

  function PushEnd(x: bytes, toLeft: bool): Update<Option<bytes>> {
    (entry: Option<StoredValue>) =>
      match entry
      case Some(StoredValue(List(list), expires)) =>
        Ok(Write(StoredValue(List(AddEnd(list, x, toLeft)), expires), None))
      case Some(_) => Err(WrongType)
      case None => Ok(Write(StoredValue(List([x]), None), None))
  }

  // ---------------------------------------------------------------------------
  // Steps
  // ---------------------------------------------------------------------------

  predicate HoldsList(entry: Option<StoredValue>) {
    entry.Some? && entry.value.value.List?
  }

  /** Other commands may do anything to keys that neither hold nor receive a list. */
  predicate Enabled(s: System, move: Move) {
    match move
    case Start(id, _, _, _, _) => id !in s.movers
    case Check(id) => id in s.movers && s.movers[id].phase.Checking?
    case Pop(id, _) => id in s.movers && s.movers[id].phase.Popping?
    case Push(id, _) => id in s.movers && s.movers[id].phase.Pushing?
    case Refuse(id) =>
      id in s.movers && (s.movers[id].phase.Checking? || s.movers[id].phase.Popping? || s.movers[id].phase.Pushing?)
    case Elsewhere(key, entry) => !HoldsList(Get(s.contents, key)) && !HoldsList(entry)
  }

  function SetPhase(s: System, id: nat, phase: Phase): System
    requires id in s.movers
  {
    s.(movers := s.movers[id := s.movers[id].(phase := phase)])
  }

  /** The mover's next phase. A mover that never hears the answer to a pop that landed has lost
    * the element; rotating within one key has already put it back.
    */
  function AfterPop(outcome: Outcome<Option<bytes>>, same: bool, heard: bool): Phase {
    if !outcome.Returned? then Aborted(None)
    else if !heard then Aborted(if same then None else outcome.reply)
    else if outcome.reply.None? || same then Finished(outcome.reply)
    else Pushing(outcome.reply.value)
  }

  function AfterPush(outcome: Outcome<Option<bytes>>, x: bytes, heard: bool): Phase {
    if !outcome.Returned? then Aborted(Some(x))
    else if !heard then Aborted(None)
    else Finished(Some(x))
  }

  function PopUpdate(m: Mover): Update<Option<bytes>> {
    if m.src == m.dst then Rotate(m.fromLeft, m.toLeft) else PopEnd(m.fromLeft)
  }

  function TakePop(s: System, id: nat, heard: bool): System
    requires Enabled(s, Pop(id, heard))
  {
    var m := s.movers[id];
    var (after, outcome) := Apply(PopUpdate(m), Get(s.contents, m.src));
    SetPhase(s.(contents := Overwrite(s.contents, m.src, after)), id, AfterPop(outcome, m.src == m.dst, heard))
  }

  function TakePush(s: System, id: nat, heard: bool): System
    requires Enabled(s, Push(id, heard))
  {
    var m := s.movers[id];
    var (after, outcome) := Apply(PushEnd(m.phase.element, m.toLeft), Get(s.contents, m.dst));
    SetPhase(s.(contents := Overwrite(s.contents, m.dst, after)), id,
             AfterPush(outcome, m.phase.element, heard))
  }

  function Take(s: System, move: Move): System
    requires Enabled(s, move)
  {
    match move
    case Start(id, src, dst, fromLeft, toLeft) =>
      s.(movers := s.movers[id := Mover(src, dst, fromLeft, toLeft, if src == dst then Popping else Checking)])
    case Check(id) =>
      var dst := Get(s.contents, s.movers[id].dst);
      SetPhase(s, id, if dst.None? || HoldsList(dst) then Popping else Aborted(None))
    case Pop(id, heard) => TakePop(s, id, heard)
    case Push(id, heard) => TakePush(s, id, heard)
    case Refuse(id) => SetPhase(s, id, Aborted(InHand(s.movers[id])))
    case Elsewhere(key, entry) => s.(contents := Overwrite(s.contents, key, entry))
  }

  predicate Possible(s: System, moves: seq<Move>)
    decreases |moves|
  {
    moves == [] || (Enabled(s, moves[0]) && Possible(Take(s, moves[0]), moves[1..]))
  }

  function Run(s: System, moves: seq<Move>): System
    requires Possible(s, moves)
    decreases |moves|
  {
    if moves == [] then s else Run(Take(s, moves[0]), moves[1..])
  }

  // ---------------------------------------------------------------------------
  // Counting elements
  // ---------------------------------------------------------------------------

  type Bag = multiset<bytes>

  function Elements(entry: StoredValue): Bag {
    if entry.value.List? then multiset(entry.value.items) else multiset{}
  }

  /** An element popped and not yet pushed. */
  function InHand(m: Mover): Option<bytes> {
    match m.phase
    case Pushing(x) => Some(x)
    case Aborted(lost) => lost
    case _ => None
  }

  function HandBag(m: Mover): Bag {
    if InHand(m).Some? then multiset{InHand(m).value} else multiset{}
  }

  /** The union of all bags of a map. */
  ghost function Sum<K>(bags: map<K, Bag>): Bag
    decreases |bags|
  {
    if bags == map[] then multiset{}
    else
      var k :| k in bags;
      bags[k] + Sum(bags - {k})
  }

  lemma {:induction false} SumRemove<K>(bags: map<K, Bag>, k: K)
    requires k in bags
    ensures Sum(bags) == bags[k] + Sum(bags - {k})
    decreases |bags|
  {
    var first :| first in bags && Sum(bags) == bags[first] + Sum(bags - {first});
    if first != k {
      SumRemove(bags - {first}, k);
      SumRemove(bags - {k}, first);
      assert bags - {first} - {k} == bags - {k} - {first};
    }
  }

  function At<K>(bags: map<K, Bag>, k: K): Bag {
    if k in bags then bags[k] else multiset{}
  }

  /** Two maps that differ at one key have sums that differ by that key's bags. */
  lemma SumChange<K>(bags: map<K, Bag>, bags': map<K, Bag>, k: K)
    requires bags - {k} == bags' - {k}
    ensures Sum(bags') + At(bags, k) == Sum(bags) + At(bags', k)
  {
    if k in bags {
      SumRemove(bags, k);
    } else {
      assert bags - {k} == bags;
    }
    if k in bags' {
      SumRemove(bags', k);
    } else {
      assert bags' - {k} == bags';
    }
  }

  function ListBags(contents: Contents): map<Key, Bag> {
    map k | k in contents :: Elements(contents[k])
  }

  function HandBags(movers: map<nat, Mover>): map<nat, Bag> {
    map id | id in movers :: HandBag(movers[id])
  }

  /** Everything in lists. */
  ghost function Listed(s: System): Bag {
    Sum(ListBags(s.contents))
  }

  /** Everything popped and not pushed: in flight, or lost by a mover that stopped in between. */
  ghost function Held(s: System): Bag {
    Sum(HandBags(s.movers))
  }

  function EntryBag(entry: Option<StoredValue>): Bag {
    if entry.Some? then Elements(entry.value) else multiset{}
  }

  lemma OverwriteBags(contents: Contents, key: Key, entry: Option<StoredValue>)
    ensures
      var bags, bags' := ListBags(contents), ListBags(Overwrite(contents, key, entry));
      && bags - {key} == bags' - {key}
      && At(bags, key) == EntryBag(Get(contents, key)) && At(bags', key) == EntryBag(entry)
  {
    hide Elements;
    var contents' := Overwrite(contents, key, entry);
    assert forall k :: k != key ==> (k in contents <==> k in contents') && (k in contents ==> contents[k] == contents'[k]);
    assert (if key in contents' then Some(contents'[key]) else None) == entry;
    hide Overwrite;
  }

  lemma ListedChange(s: System, key: Key, entry: Option<StoredValue>)
    ensures
      var contents := Overwrite(s.contents, key, entry);
      Sum(ListBags(contents)) + EntryBag(Get(s.contents, key)) == Listed(s) + EntryBag(entry)
  {
    var contents := Overwrite(s.contents, key, entry);
    var bags, bags' := ListBags(s.contents), ListBags(contents);
    OverwriteBags(s.contents, key, entry);
    hide Sum, ListBags, Overwrite, EntryBag, Get, Elements;
    SumChange(bags, bags', key);
  }

  lemma HeldChange(s: System, id: nat, m: Mover)
    ensures Sum(HandBags(s.movers[id := m])) + MoverBag(s.movers, id) == Held(s) + HandBag(m)
  {
    hide Sum, HandBags, HandBag, MoverBag;
    MoverBags(s.movers, id, m);
    SumChange(HandBags(s.movers), HandBags(s.movers[id := m]), id);
  }

  lemma MoverBags(movers: map<nat, Mover>, id: nat, m: Mover)
    ensures
      var bags, bags' := HandBags(movers), HandBags(movers[id := m]);
      bags - {id} == bags' - {id} && At(bags, id) == MoverBag(movers, id) && At(bags', id) == HandBag(m)
  {
    hide HandBag;
  }

  // ---------------------------------------------------------------------------
  // Conservation
  // ---------------------------------------------------------------------------

  lemma TakeEndBag(list: seq<bytes>, left: bool)
    requires list != []
    ensures multiset(list) == multiset(TakeEnd(list, left).0) + multiset{TakeEnd(list, left).1}
  {
    if left {
      assert list == [list[0]] + list[1..];
    } else {
      assert list == list[..|list| - 1] + [list[|list| - 1]];
    }
  }

  lemma AddEndBag(list: seq<bytes>, x: bytes, left: bool)
    ensures multiset(AddEnd(list, x, left)) == multiset(list) + multiset{x}
  {
  }

  /** The bag an action leaves, given what was there. */
  function ActionBag(before: Bag, action: CasAction<Option<bytes>>): Bag {
    match action
    case Write(entry, _) => Elements(entry)
    case Delete(_) => multiset{}
    case NoOp(_) => before
  }

  function ReplyBag(reply: Option<bytes>): Bag {
    if reply.Some? then multiset{reply.value} else multiset{}
  }

  lemma RotateListBag(list: seq<bytes>, expires: Option<int>, fromLeft: bool, toLeft: bool)
    ensures ActionBag(multiset(list), RotateList(list, expires, fromLeft, toLeft)) == multiset(list)
  {
    if list != [] {
      TakeEndBag(list, fromLeft);
      AddEndBag(TakeEnd(list, fromLeft).0, TakeEnd(list, fromLeft).1, toLeft);
      hide TakeEnd, AddEnd;
    }
  }

  lemma PopListBag(list: seq<bytes>, expires: Option<int>, fromLeft: bool)
    ensures
      var action := PopList(list, expires, fromLeft);
      multiset(list) == ActionBag(multiset(list), action) + ReplyBag(action.reply)
  {
    if list != [] {
      TakeEndBag(list, fromLeft);
      hide TakeEnd;
    }
  }

  lemma RotateBag(before: Option<StoredValue>, fromLeft: bool, toLeft: bool)
    ensures EntryBag(Apply(Rotate(fromLeft, toLeft), before).0) == EntryBag(before)
  {
    if HoldsList(before) {
      var items, expires := before.value.value.items, before.value.expiresAtMs;
      assert Rotate(fromLeft, toLeft)(before) == Ok(RotateList(items, expires, fromLeft, toLeft));
      assert EntryBag(before) == multiset(items);
      RotateListBag(items, expires, fromLeft, toLeft);
      hide RotateList, Rotate;
    }
  }

  lemma PopBag(before: Option<StoredValue>, fromLeft: bool)
    ensures
      var (after, outcome) := Apply(PopEnd(fromLeft), before);
      EntryBag(before) == EntryBag(after) + if outcome.Returned? then ReplyBag(outcome.reply) else multiset{}
  {
    if HoldsList(before) {
      var items, expires := before.value.value.items, before.value.expiresAtMs;
      assert PopEnd(fromLeft)(before) == Ok(PopList(items, expires, fromLeft));
      assert EntryBag(before) == multiset(items);
      PopListBag(items, expires, fromLeft);
      hide PopList, PopEnd;
    }
  }

  lemma PushBag(before: Option<StoredValue>, x: bytes, toLeft: bool)
    ensures
      var (after, outcome) := Apply(PushEnd(x, toLeft), before);
      EntryBag(after) == EntryBag(before) + if outcome.Returned? then multiset{x} else multiset{}
  {
  }

  /** Adding up two accounts: lists gained what hands lost, or the other way round. */
  lemma Balance(l: Bag, l': Bag, h: Bag, h': Bag, e: Bag, e': Bag, b: Bag, b': Bag)
    requires l' + e == l + e' && h' + b == h + b'
    requires e + b == e' + b'
    ensures l' + h' == l + h
  {
    forall x
      ensures (l' + h')[x] == (l + h)[x]
    {
      assert (l' + e)[x] == (l + e')[x] && (h' + b)[x] == (h + b')[x] && (e + b)[x] == (e' + b')[x];
    }
  }

  function MoverBag(movers: map<nat, Mover>, id: nat): Bag {
    if id in movers then HandBag(movers[id]) else multiset{}
  }

  /** A step that changes one entry and one mover conserves the total if those two balance. */
  lemma StepBalance(s: System, key: Key, entry: Option<StoredValue>, id: nat, m: Mover)
    requires EntryBag(Get(s.contents, key)) + MoverBag(s.movers, id) == EntryBag(entry) + HandBag(m)
    ensures
      var s' := System(Overwrite(s.contents, key, entry), s.movers[id := m]);
      Listed(s') + Held(s') == Listed(s) + Held(s)
  {
    var s' := System(Overwrite(s.contents, key, entry), s.movers[id := m]);
    ListedChange(s, key, entry);
    HeldChange(s, id, m);
    Balance(Listed(s), Listed(s'), Held(s), Held(s'), EntryBag(Get(s.contents, key)), EntryBag(entry),
            MoverBag(s.movers, id), HandBag(m));
  }

  /** The pop's own account: what left the source list is what the mover now holds. */
  lemma PopBalance(before: Option<StoredValue>, m: Mover, heard: bool)
    ensures
      var (after, outcome) := Apply(PopUpdate(m), before);
      EntryBag(before) == EntryBag(after) + HandBag(m.(phase := AfterPop(outcome, m.src == m.dst, heard)))
  {
    RotateBag(before, m.fromLeft, m.toLeft);
    PopBag(before, m.fromLeft);
    hide Rotate, PopEnd, Apply, EntryBag, HandBag, AfterPop, ReplyBag;
    HandAfterPop(m, Apply(PopUpdate(m), before).1, heard);
  }

  lemma HandAfterPop(m: Mover, outcome: Outcome<Option<bytes>>, heard: bool)
    ensures HandBag(m.(phase := AfterPop(outcome, m.src == m.dst, heard))) ==
            if m.src != m.dst && outcome.Returned? then ReplyBag(outcome.reply) else multiset{}
  {
  }

  lemma PopConserves(s: System, id: nat, heard: bool)
    requires Enabled(s, Pop(id, heard))
    ensures Listed(TakePop(s, id, heard)) + Held(TakePop(s, id, heard)) == Listed(s) + Held(s)
  {
    var m := s.movers[id];
    var before := Get(s.contents, m.src);
    PopBalance(before, m, heard);
    var (after, outcome) := Apply(PopUpdate(m), before);
    hide Listed, Held, Rotate, PopEnd, Apply, EntryBag, AfterPop, Overwrite, Get;
    StepBalance(s, m.src, after, id, m.(phase := AfterPop(outcome, m.src == m.dst, heard)));
  }

  lemma Shift(e: Bag, e': Bag, x: bytes, moved: bool)
    requires e' == e + if moved then multiset{x} else multiset{}
    ensures e + multiset{x} == e' + if moved then multiset{} else multiset{x}
  {
  }

  lemma HandAfterPush(m: Mover, outcome: Outcome<Option<bytes>>, x: bytes, heard: bool)
    ensures m.phase == Pushing(x) ==> HandBag(m) == multiset{x}
    ensures HandBag(m.(phase := AfterPush(outcome, x, heard))) == if outcome.Returned? then multiset{} else multiset{x}
  {
  }

  /** The push's own account: what the mover gave up is what the destination list gained. */
  lemma PushBalance(before: Option<StoredValue>, m: Mover, heard: bool)
    requires m.phase.Pushing?
    ensures
      var (after, outcome) := Apply(PushEnd(m.phase.element, m.toLeft), before);
      EntryBag(before) + HandBag(m)
      == EntryBag(after) + HandBag(m.(phase := AfterPush(outcome, m.phase.element, heard)))
  {
    var x := m.phase.element;
    PushBag(before, x, m.toLeft);
    hide PushEnd, Apply, EntryBag, HandBag, AfterPush, ReplyBag;
    var (after, outcome) := Apply(PushEnd(x, m.toLeft), before);
    HandAfterPush(m, outcome, x, heard);
    Shift(EntryBag(before), EntryBag(after), x, outcome.Returned?);
  }

  lemma PushConserves(s: System, id: nat, heard: bool)
    requires Enabled(s, Push(id, heard))
    ensures Listed(TakePush(s, id, heard)) + Held(TakePush(s, id, heard)) == Listed(s) + Held(s)
  {
    var m := s.movers[id];
    var before := Get(s.contents, m.dst);
    PushBalance(before, m, heard);
    var (after, outcome) := Apply(PushEnd(m.phase.element, m.toLeft), before);
    hide Listed, Held, PushEnd, Apply, EntryBag, AfterPush, Overwrite, Get, HandBag;
    StepBalance(s, m.dst, after, id, m.(phase := AfterPush(outcome, m.phase.element, heard)));
  }

  /** Steps that touch neither a list nor an element in hand. */
  lemma QuietStepConserves(s: System, move: Move)
    requires Enabled(s, move) && (move.Start? || move.Check? || move.Refuse?)
    ensures Listed(Take(s, move)) + Held(Take(s, move)) == Listed(s) + Held(s)
  {
    var s' := Take(s, move);
    var m := s'.movers[move.id];
    assert s'.contents == s.contents && s'.movers == s.movers[move.id := m];
    assert HandBag(m) == MoverBag(s.movers, move.id);
    hide Take, HandBag, MoverBag, Enabled;
    HeldChange(s, move.id, m);
    Balance(Listed(s), Listed(s'), Held(s), Held(s'), multiset{}, multiset{}, HandBag(m), HandBag(m));
  }

  lemma ElsewhereConserves(s: System, key: Key, entry: Option<StoredValue>)
    requires Enabled(s, Elsewhere(key, entry))
    ensures Listed(Take(s, Elsewhere(key, entry))) == Listed(s)
  {
    var s' := Take(s, Elsewhere(key, entry));
    assert EntryBag(entry) == multiset{} == EntryBag(Get(s.contents, key));
    ListedChange(s, key, entry);
    assert Listed(s') == Sum(ListBags(s'.contents));
    hide EntryBag, Sum, ListBags, Listed, Get, Overwrite;
    assert Listed(s') + multiset{} == Listed(s');
    assert Listed(s) + multiset{} == Listed(s);
  }

  lemma StepConserves(s: System, move: Move)
    requires Enabled(s, move)
    ensures Listed(Take(s, move)) + Held(Take(s, move)) == Listed(s) + Held(s)
  {
    hide TakePop, TakePush, Sum, HandBags, ListBags, Overwrite;
    match move {
      case Pop(id, heard) => PopConserves(s, id, heard);
      case Push(id, heard) => PushConserves(s, id, heard);
      case Elsewhere(key, entry) => ElsewhereConserves(s, key, entry);
      case _ => QuietStepConserves(s, move);
    }
  }

  /** In every interleaving of moves the elements in lists plus those popped and not pushed stay
    * the same bag: nothing is duplicated.
    */
  lemma {:induction false} MovesConserve(s: System, moves: seq<Move>)
    requires Possible(s, moves)
    ensures Listed(Run(s, moves)) + Held(Run(s, moves)) == Listed(s) + Held(s)
    decreases |moves|
  {
    if moves != [] {
      StepConserves(s, moves[0]);
      hide Take, Enabled, Listed, Held;
      MovesConserve(Take(s, moves[0]), moves[1..]);
    }
  }

  ghost predicate NothingInHand(s: System) {
    forall id :: id in s.movers ==> InHand(s.movers[id]).None?
  }

  lemma {:induction false} EmptyHands(movers: map<nat, Mover>)
    requires forall id :: id in movers ==> InHand(movers[id]).None?
    ensures Sum(HandBags(movers)) == multiset{}
    decreases |movers|
  {
    if movers != map[] {
      var id :| id in movers;
      SumRemove(HandBags(movers), id);
      assert HandBags(movers) - {id} == HandBags(movers - {id});
      EmptyHands(movers - {id});
    }
  }

  /** Once no mover is between its pop and its push, and none stopped there, nothing is lost. */
  lemma NothingLost(s: System, moves: seq<Move>)
    requires Possible(s, moves) && NothingInHand(s) && NothingInHand(Run(s, moves))
    ensures Listed(Run(s, moves)) == Listed(s)
  {
    MovesConserve(s, moves);
    EmptyHands(s.movers);
    EmptyHands(Run(s, moves).movers);
    assert Listed(s) + multiset{} == Listed(s);
    assert Listed(Run(s, moves)) + multiset{} == Listed(Run(s, moves));
  }

  // ---------------------------------------------------------------------------
  // Which end
  // ---------------------------------------------------------------------------

  /** A pop answers the element at its end and leaves the others in order with the expiry they had. */
  lemma PopTakesItsEnd(x: bytes, rest: seq<bytes>, expires: Option<int>)
    ensures
      var left := if rest == [] then None else Some(StoredValue(List(rest), expires));
      && Apply(PopEnd(true), Some(StoredValue(List([x] + rest), expires))) == (left, Returned(Some(x)))
      && Apply(PopEnd(false), Some(StoredValue(List(rest + [x]), expires))) == (left, Returned(Some(x)))
  {
    assert ([x] + rest)[1..] == rest && (rest + [x])[..|rest|] == rest;
  }

  /** A push puts its element at its end; a missing key becomes a list of one that never expires. */
  lemma PushAddsAtItsEnd(x: bytes, list: seq<bytes>, expires: Option<int>, toLeft: bool)
    ensures Apply(PushEnd(x, true), Some(StoredValue(List(list), expires))) ==
            (Some(StoredValue(List([x] + list), expires)), Returned(None))
    ensures Apply(PushEnd(x, false), Some(StoredValue(List(list), expires))) ==
            (Some(StoredValue(List(list + [x]), expires)), Returned(None))
    ensures Apply(PushEnd(x, toLeft), None) == (Some(StoredValue(List([x]), None)), Returned(None))
  {
  }

  /** Moving within one key turns the list by one, or changes nothing when both ends are the same. */
  lemma RotateTurns(x: bytes, rest: seq<bytes>, expires: Option<int>)
    ensures
      var first, last := Some(StoredValue(List([x] + rest), expires)), Some(StoredValue(List(rest + [x]), expires));
      && Apply(Rotate(true, false), first) == (last, Returned(Some(x)))
      && Apply(Rotate(false, true), last) == (first, Returned(Some(x)))
      && Apply(Rotate(true, true), first) == (first, Returned(Some(x)))
      && Apply(Rotate(false, false), last) == (last, Returned(Some(x)))
  {
    assert ([x] + rest)[1..] == rest && (rest + [x])[..|rest|] == rest;
  }

  /** There is nothing to take from a missing key or an empty list, and no end on another kind. */
  lemma NothingToTake(entry: Option<StoredValue>, x: bytes, fromLeft: bool, toLeft: bool)
    requires entry.Some? && entry.value.value.List? ==> entry.value.value.items == []
    ensures
      var answer := if entry.None? || entry.value.value.List? then Returned(None) else Rejected(WrongType);
      && Apply(PopEnd(fromLeft), entry) == (entry, answer)
      && Apply(Rotate(fromLeft, toLeft), entry) == (entry, answer)
      && (answer.Rejected? ==> Apply(PushEnd(x, toLeft), entry) == (entry, Rejected(WrongType)))
  {
  }

  /** A key holds a list with x at the given end and the rest behind it. */
  predicate HasAtEnd(entry: Option<StoredValue>, left: bool, x: bytes, rest: seq<bytes>) {
    HoldsList(entry) && entry.value.value.items == if left then [x] + rest else rest + [x]
  }

  /** What is left of a non-empty list without the element at an end. */
  lemma EndOfList(entry: Option<StoredValue>, left: bool) returns (x: bytes, rest: seq<bytes>)
    requires HoldsList(entry) && entry.value.value.items != []
    ensures HasAtEnd(entry, left, x, rest)
  {
    var list := entry.value.value.items;
    if left {
      x, rest := list[0], list[1..];
    } else {
      x, rest := list[|list| - 1], list[..|list| - 1];
    }
  }

  /** A mover's pop: the source loses the element at the named end, which the mover goes on with, and
    * no other key changes. Within one key the element goes to the other named end at once.
    */
  lemma PopMovesItsEnd(s: System, id: nat, heard: bool, x: bytes, rest: seq<bytes>)
    requires Enabled(s, Pop(id, heard))
    requires HasAtEnd(Get(s.contents, s.movers[id].src), s.movers[id].fromLeft, x, rest)
    ensures
      var m, s' := s.movers[id], Take(s, Pop(id, heard));
      var expires := s.contents[m.src].expiresAtMs;
      && (m.src != m.dst ==>
            && Get(s'.contents, m.src) == (if rest == [] then None else Some(StoredValue(List(rest), expires)))
            && s'.movers[id].phase == (if heard then Pushing(x) else Aborted(Some(x))))
      && (m.src == m.dst ==>
            && Get(s'.contents, m.src) == Some(StoredValue(List(if m.toLeft then [x] + rest else rest + [x]), expires))
            && s'.movers[id].phase == (if heard then Finished(Some(x)) else Aborted(None)))
      && (forall k :: k != m.src ==> Get(s'.contents, k) == Get(s.contents, k))
  {
    var m, entry := s.movers[id], Get(s.contents, s.movers[id].src);
    assert entry == Some(StoredValue(List(if m.fromLeft then [x] + rest else rest + [x]), s.contents[m.src].expiresAtMs));
    PopTakesItsEnd(x, rest, s.contents[m.src].expiresAtMs);
    RotateTurns(x, rest, s.contents[m.src].expiresAtMs);
    OverwriteOne(s.contents, m.src, Apply(PopUpdate(m), entry).0);
    hide Apply, PopEnd, Rotate, Overwrite, Get, HasAtEnd;
  }

  lemma OverwriteOne(contents: Contents, key: Key, entry: Option<StoredValue>)
    ensures Get(Overwrite(contents, key, entry), key) == entry
    ensures forall k :: k != key ==> Get(Overwrite(contents, key, entry), k) == Get(contents, k)
  {
  }

  /** A mover's push: its element arrives at the named end of the destination, and nothing else moves. */
  lemma PushMovesToItsEnd(s: System, id: nat, heard: bool)
    requires Enabled(s, Push(id, heard))
    ensures
      var m, s' := s.movers[id], Take(s, Push(id, heard));
      var x, before := m.phase.element, Get(s.contents, m.dst);
      && (before.None? ==> Get(s'.contents, m.dst) == Some(StoredValue(List([x]), None)))
      && (HoldsList(before) ==>
            var list, expires := before.value.value.items, before.value.expiresAtMs;
            Get(s'.contents, m.dst) == Some(StoredValue(List(if m.toLeft then [x] + list else list + [x]), expires)))
      && (before.Some? && !HoldsList(before) ==> Get(s'.contents, m.dst) == before)
      && s'.movers[id].phase == (
           if before.Some? && !HoldsList(before) then Aborted(Some(x))
           else if heard then Finished(Some(x))
           else Aborted(None))
      && (forall k :: k != m.dst ==> Get(s'.contents, k) == Get(s.contents, k))
  {
  }

  // ---------------------------------------------------------------------------
  // Where a mover's element came from
  // ---------------------------------------------------------------------------

  /** Nothing is popped for a destination of another kind; a move within one key needs no check. */
  lemma WrongDestinationPopsNothing(s: System, id: nat, src: Key, dst: Key, fromLeft: bool, toLeft: bool)
    requires id !in s.movers
    ensures
      var s' := Take(s, Start(id, src, dst, fromLeft, toLeft));
      s' == s.(movers := s.movers[id := Mover(src, dst, fromLeft, toLeft, s'.movers[id].phase)]) &&
      if src == dst then s'.movers[id].phase == Popping
      else
        var s'' := Take(s', Check(id));
        && s''.contents == s.contents
        && s''.movers[id].phase == if dst in s.contents && !s.contents[dst].value.List? then Aborted(None) else Popping
  {
  }

  /** Between two states a mover took x from its end of the source; within one key x went to its
    * other end at once.
    */
  ghost predicate TakesFromItsEnd(s: System, s': System, id: nat, x: bytes) {
    id in s.movers &&
    var m := s.movers[id];
    var before, after := Get(s.contents, m.src), Get(s'.contents, m.src);
    (forall k :: k != m.src ==> Get(s'.contents, k) == Get(s.contents, k)) &&
    exists rest ::
      && HasAtEnd(before, m.fromLeft, x, rest)
      && (if m.src == m.dst then HasAtEnd(after, m.toLeft, x, rest)
          else after == if rest == [] then None else Some(StoredValue(List(rest), before.value.expiresAtMs)))
  }

  /** Between two states a mover added x at its end of the destination. */
  ghost predicate PutsAtItsEnd(s: System, s': System, id: nat, x: bytes) {
    id in s.movers &&
    var m := s.movers[id];
    var before, after := Get(s.contents, m.dst), Get(s'.contents, m.dst);
    (forall k :: k != m.dst ==> Get(s'.contents, k) == Get(s.contents, k)) &&
    exists list ::
      && (if before.None? then list == [] else HoldsList(before) && before.value.value.items == list)
      && HasAtEnd(after, m.toLeft, x, list)
  }

  /** The mover holds or has answered x. */
  predicate Carries(s: System, id: nat, x: bytes) {
    id in s.movers && (s.movers[id].phase == Pushing(x) || s.movers[id].phase == Finished(Some(x)))
  }

  predicate BeforePop(s: System, id: nat) {
    id in s.movers ==> s.movers[id].phase.Checking? || s.movers[id].phase.Popping?
  }

  /** A mover comes to carry an element only by taking it from its end of the source. */
  lemma ElementComesFromItsEnd(s: System, move: Move, id: nat, x: bytes)
    requires Enabled(s, move) && BeforePop(s, id) && Carries(Take(s, move), id, x)
    ensures TakesFromItsEnd(s, Take(s, move), id, x)
    ensures Take(s, move).movers[id].phase.Pushing? <==> s.movers[id].src != s.movers[id].dst
  {
    assert move == Pop(id, true) by { hide Apply, Overwrite, PopUpdate, PushEnd; }
    var m, entry := s.movers[id], Get(s.contents, s.movers[id].src);
    if HoldsList(entry) && entry.value.value.items != [] {
      var y, rest := EndOfList(entry, m.fromLeft);
      PopMovesItsEnd(s, id, true, y, rest);
      hide Take, Enabled;
    } else {
      NothingToTake(entry, x, m.fromLeft, m.toLeft);
    }
  }

  /** A mover that holds an element keeps it, and answers it by adding it at its end of the
    * destination.
    */
  lemma ElementGoesToItsEnd(s: System, move: Move, id: nat, x: bytes)
    requires Enabled(s, move) && id in s.movers && s.movers[id].phase == Pushing(x)
    ensures Take(s, move).movers[id].phase.Aborted? || Carries(Take(s, move), id, x)
    ensures Take(s, move).movers[id].phase.Finished? ==> PutsAtItsEnd(s, Take(s, move), id, x)
  {
    if Take(s, move).movers[id].phase.Finished? {
      assert move == Push(id, true) by { hide Apply, Overwrite, PopUpdate, PushEnd; }
      PushMovesToItsEnd(s, id, true);
      var entry := Get(s.contents, s.movers[id].dst);
      var list := if HoldsList(entry) then entry.value.value.items else [];
      assert [x] + [] == [x] == [] + [x];
      assert HasAtEnd(Get(Take(s, move).contents, s.movers[id].dst), s.movers[id].toLeft, x, list);
    }
  }

  /** A mover's keys and ends never change, and its answer is final. */
  lemma JobIsKept(s: System, move: Move, id: nat)
    requires Enabled(s, move) && id in s.movers
    ensures
      var m, m' := s.movers[id], Take(s, move).movers[id];
      && m' == m.(phase := m'.phase)
      && (m.phase.Finished? || m.phase.Aborted? ==> m' == m)
      && (m'.phase.Checking? ==> m.phase.Checking?)
      && (m.phase.Pushing? ==> !m'.phase.Popping?)
  {
    hide Apply, Overwrite, PopUpdate, PushEnd;
  }

  // ---------------------------------------------------------------------------
  // From end to end
  // ---------------------------------------------------------------------------

  ghost predicate Linked(s: System, s': System) {
    s' == s || exists move :: Enabled(s, move) && s' == Take(s, move)
  }

  /** Successive states, each one move or none after the one before. */
  ghost predicate Trace(states: seq<System>) {
    states != [] && forall k :: 0 <= k < |states| - 1 ==> Linked(states[k], states[k + 1])
  }

  lemma TraceTail(states: seq<System>)
    requires Trace(states) && |states| > 1
    ensures Linked(states[0], states[1]) && Trace(states[1..])
  {
    hide Linked;
    var rest := states[1..];
    forall k | 0 <= k < |rest| - 1
      ensures Linked(rest[k], rest[k + 1])
    {
      assert Linked(states[k + 1], states[k + 2]);
    }
  }

  /** A mover's keys and ends stay, and its final phases do. */
  predicate Continues(m: Mover, m': Mover) {
    m' == m.(phase := m'.phase) && (m.phase.Finished? || m.phase.Aborted? ==> m' == m)
  }

  /** What a step of a trace does to a mover. */
  lemma LinkMoves(s: System, s': System, id: nat)
    requires Linked(s, s')
    ensures id in s.movers ==> id in s'.movers && Continues(s.movers[id], s'.movers[id])
    ensures BeforePop(s, id) ==>
      || BeforePop(s', id) || s'.movers[id].phase == Finished(None) || s'.movers[id].phase.Aborted?
      || exists x :: Carries(s', id, x) && TakesFromItsEnd(s, s', id, x) &&
           (s'.movers[id].phase.Pushing? <==> s'.movers[id].src != s'.movers[id].dst)
    ensures id in s.movers && s.movers[id].phase.Pushing? ==>
      var x := s.movers[id].phase.element;
      || s'.movers[id] == s.movers[id] || s'.movers[id].phase.Aborted?
      || (s'.movers[id].phase == Finished(Some(x)) && PutsAtItsEnd(s, s', id, x))
  {
    if s' != s {
      var move :| Enabled(s, move) && s' == Take(s, move);
      MoveMoves(s, move, id);
    }
  }

  lemma MoveMoves(s: System, move: Move, id: nat)
    requires Enabled(s, move)
    ensures
      var s' := Take(s, move);
      && (id in s.movers ==> id in s'.movers && Continues(s.movers[id], s'.movers[id]))
      && (BeforePop(s, id) ==>
            || BeforePop(s', id) || s'.movers[id].phase == Finished(None) || s'.movers[id].phase.Aborted?
            || exists x :: Carries(s', id, x) && TakesFromItsEnd(s, s', id, x) &&
                 (s'.movers[id].phase.Pushing? <==> s'.movers[id].src != s'.movers[id].dst))
      && (id in s.movers && s.movers[id].phase.Pushing? ==>
            var x := s.movers[id].phase.element;
            || s'.movers[id] == s.movers[id] || s'.movers[id].phase.Aborted?
            || (s'.movers[id].phase == Finished(Some(x)) && PutsAtItsEnd(s, s', id, x)))
  {
    var s' := Take(s, move);
    if id in s.movers {
      JobIsKept(s, move, id);
      if s.movers[id].phase.Pushing? {
        ElementGoesToItsEnd(s, move, id, s.movers[id].phase.element);
      }
    }
    hide Take, Enabled, TakesFromItsEnd, PutsAtItsEnd;
    if BeforePop(s, id) && !BeforePop(s', id) && s'.movers[id].phase != Finished(None) && !s'.movers[id].phase.Aborted? {
      var x := if s'.movers[id].phase.Pushing? then s'.movers[id].phase.element else s'.movers[id].phase.reply.value;
      ElementComesFromItsEnd(s, move, id, x);
    }
  }

  lemma {:induction false} TraceContinues(states: seq<System>, id: nat)
    requires Trace(states) && id in states[0].movers
    ensures id in states[|states| - 1].movers && Continues(states[0].movers[id], states[|states| - 1].movers[id])
  {
    if |states| > 1 {
      TraceTail(states);
      LinkMoves(states[0], states[1], id);
      hide Trace, Linked, TakesFromItsEnd, PutsAtItsEnd;
      TraceContinues(states[1..], id);
    }
  }

  /** An element in hand, if it is answered, was put at its end of the destination. */
  lemma {:induction false} HeldIsPlaced(states: seq<System>, id: nat) returns (j: nat)
    requires Trace(states) && id in states[0].movers && states[0].movers[id].phase.Pushing?
    requires
      var last := states[|states| - 1];
      id in last.movers && last.movers[id].phase.Finished?
    ensures states[|states| - 1].movers[id].phase == Finished(Some(states[0].movers[id].phase.element))
    ensures j + 1 < |states| && PutsAtItsEnd(states[j], states[j + 1], id, states[0].movers[id].phase.element)
  {
    TraceTail(states);
    LinkMoves(states[0], states[1], id);
    TraceContinues(states[1..], id);
    hide Trace, Linked, TakesFromItsEnd, PutsAtItsEnd;
    if states[1].movers[id].phase.Pushing? {
      j := HeldIsPlaced(states[1..], id);
      j := j + 1;
    } else {
      j := 0;
    }
  }

  /** In every sequence of states that moves lead through: a mover that answers an element took it from
    * the end of its source it was sent to, and later added it at the named end of its destination. On
    * one key the same step does both.
    */
  lemma {:induction false} AnswersTravel(states: seq<System>, id: nat, x: bytes) returns (i: nat, j: nat)
    requires Trace(states) && BeforePop(states[0], id)
    requires
      var last := states[|states| - 1];
      id in last.movers && last.movers[id].phase == Finished(Some(x))
    ensures i + 1 < |states| && TakesFromItsEnd(states[i], states[i + 1], id, x)
    ensures
      var m := states[|states| - 1].movers[id];
      && id in states[i].movers && states[i].movers[id].(phase := m.phase) == m
      && (m.src != m.dst ==> i < j && j + 1 < |states| && PutsAtItsEnd(states[j], states[j + 1], id, x))
  {
    TraceTail(states);
    LinkMoves(states[0], states[1], id);
    if BeforePop(states[1], id) {
      hide *;
      i, j := AnswersTravel(states[1..], id, x);
      i, j := i + 1, j + 1;
    } else {
      TraceContinues(states[1..], id);
      i, j := 0, 0;
      assert id in states[0].movers by { hide Linked, PutsAtItsEnd; }
      hide Trace, Linked, TakesFromItsEnd, PutsAtItsEnd;
      if states[1].movers[id].phase.Pushing? {
        j := HeldIsPlaced(states[1..], id);
        j := j + 1;
      }
    }
  }
}
