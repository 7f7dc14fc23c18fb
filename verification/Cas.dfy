/** The optimistic-locking protocol: any number of clients run load, modify, conditional save
  * against one versioned store, retrying up to five times. A load is one step here; `DynamoCas` has
  * the same loop over a backend whose load is two.
  *
  * A step of the system is one atomic backend call together with the local computation around
  * it. Unconditional writers (SET, DEL) and failing backend calls take part. Each state carries
  * the log of operations that took effect; the theorems say that replaying that log one
  * operation at a time explains the store and every reply (`Linearizable`, `ReplyIsExplained`,
  * `RealTimeOrder`), and that contention is reported only after five foreign commits
  * (`ContentionNeedsFiveForeignCommits`).
  */
module Cas {
  import opened Bytes
  import opened Values

  const MAX_CAS_RETRIES: nat := 5

  /** Version tokens: an S3 ETag or a DynamoDB version attribute. */
  type Token = string

  datatype CasAction<+R> = Write(entry: StoredValue, reply: R) | Delete(reply: R) | NoOp(reply: R)

  datatype Computed<+R> = Ok(action: CasAction<R>) | Err(error: Error)

  type Update<+R> = Option<StoredValue> -> Computed<R>

  /** How a call ends: a reply, the closure's own error, five lost races, or a backend failure. */
  datatype Outcome<+R> = Returned(reply: R) | Rejected(error: Error) | Contended | BackendFailed

  datatype Cell = Cell(entry: StoredValue, token: Token)

  /** One failed attempt, as positions in the log: loaded at `from`, refused at `to`, with the
    * commit at `foreign` in between.
    */
  datatype Window = Window(from: nat, foreign: nat, to: nat)

  datatype Phase<+R> =
    | Loading(attempt: nat)
    | Saving(attempt: nat, seen: Option<Cell>, at: nat)
    | Done(outcome: Outcome<R>)

  datatype Call<+R> = Call(key: Key, update: Update<R>, phase: Phase<R>, began: nat, windows: seq<Window>)

  datatype Event<+R> =
    | Applied(id: nat, key: Key, update: Update<R>, outcome: Outcome<R>, wrote: bool)
    | Put(key: Key, entry: StoredValue)
    | Drop(key: Key, existed: bool)

  /** `minted` remembers which content every token ever handed out stood for. */
  datatype State<+R> = State(
    store: map<Key, Cell>,
    minted: map<(Key, Token), StoredValue>,
    calls: map<nat, Call<R>>,
    log: seq<Event<R>>)

  datatype Step<+R> =
    | Begin(id: nat, key: Key, update: Update<R>)
    | Load(id: nat)
    | Save(id: nat, token: Token)
    | BackendError(id: nat, landed: bool, token: Token)
    | SetAny(key: Key, entry: StoredValue, token: Token)
    | DelAny(key: Key)

  // ---------------------------------------------------------------------------
  // One call in isolation
  // ---------------------------------------------------------------------------

  function Content(cell: Option<Cell>): Option<StoredValue> {
    if cell.Some? then Some(cell.value.entry) else None
  }

  function Lookup(store: map<Key, Cell>, key: Key): Option<Cell> {
    if key in store then Some(store[key]) else None
  }

  /** What a call asks the backend to do, given the entry it loaded. */
  datatype Request<+R> =
    | Answer(outcome: Outcome<R>)
    | SaveEntry(entry: StoredValue, reply: R)
    | DeleteEntry(reply: R)

  function RequestOf<R>(update: Update<R>, seen: Option<StoredValue>): Request<R> {
    match update(seen)
    case Err(e) => Answer(Rejected(e))
    case Ok(NoOp(r)) => Answer(Returned(r))
    case Ok(Delete(r)) => if seen.Some? then DeleteEntry(r) else Answer(Returned(r))
    case Ok(Write(entry, r)) => SaveEntry(entry, r)
  }

  /** The effect of `modify` run alone: the new content and the reply. */
  function Apply<R>(update: Update<R>, before: Option<StoredValue>): (Option<StoredValue>, Outcome<R>) {
    match update(before)
    case Err(e) => (before, Rejected(e))
    case Ok(NoOp(r)) => (before, Returned(r))
    case Ok(Delete(r)) => (None, Returned(r))
    case Ok(Write(entry, r)) => (Some(entry), Returned(r))
  }

  /** The backend's precondition: create-only when nothing was seen, else the token must match. */
  predicate Matches(store: map<Key, Cell>, key: Key, seen: Option<Cell>) {
    match seen
    case None => key !in store
    case Some(cell) => key in store && store[key].token == cell.token
  }

  /** Tokens identify content: fresh tokens and content hashes both satisfy this. */
  predicate CanMint<R>(s: State<R>, key: Key, token: Token, entry: StoredValue) {
    (key, token) in s.minted ==> s.minted[(key, token)] == entry
  }

  // ---------------------------------------------------------------------------
  // Steps
  // ---------------------------------------------------------------------------

  predicate Enabled<R>(s: State<R>, step: Step<R>) {
    match step
    case Begin(id, _, _) => id !in s.calls
    case Load(id) => id in s.calls && s.calls[id].phase.Loading?
    case Save(id, token) =>
      && id in s.calls && s.calls[id].phase.Saving?
      && TokenFits(s, s.calls[id], token)
    case BackendError(id, landed, token) =>
      && id in s.calls && !s.calls[id].phase.Done?
      && (landed ==>
            && s.calls[id].phase.Saving?
            && Matches(s.store, s.calls[id].key, s.calls[id].phase.seen)
            && TokenFits(s, s.calls[id], token))
    case SetAny(key, entry, token) => CanMint(s, key, token, entry)
    case DelAny(_) => true
  }

  predicate TokenFits<R>(s: State<R>, c: Call<R>, token: Token)
    requires c.phase.Saving?
  {
    var request := RequestOf(c.update, Content(c.phase.seen));
    request.SaveEntry? ==> CanMint(s, c.key, token, request.entry)
  }

  function SetCall<R>(s: State<R>, id: nat, c: Call<R>): State<R> {
    s.(calls := s.calls[id := c])
  }

  function Record<R>(s: State<R>, id: nat, c: Call<R>, outcome: Outcome<R>, wrote: bool): State<R> {
    s.(log := s.log + [Applied(id, c.key, c.update, outcome, wrote)])
  }

  function PutCell<R>(s: State<R>, key: Key, entry: StoredValue, token: Token): State<R> {
    s.(store := s.store[key := Cell(entry, token)], minted := s.minted[(key, token) := entry])
  }

  function Remove<R>(s: State<R>, key: Key): State<R> {
    s.(store := s.store - {key})
  }

  /** Load, then run `modify` locally; calls that need no write return at once. */
  function TakeLoad<R>(s: State<R>, id: nat): State<R>
    requires Enabled(s, Load(id))
  {
    var c := s.calls[id];
    var seen := Lookup(s.store, c.key);
    match RequestOf(c.update, Content(seen))
    case Answer(outcome) => SetCall(Record(s, id, c, outcome, false), id, c.(phase := Done(outcome)))
    case _ => SetCall(s, id, c.(phase := Saving(c.phase.attempt, seen, |s.log|)))
  }

  /** The conditional write landing in the store, with the outcome the caller is told. */
  function Commit<R>(s: State<R>, id: nat, token: Token, told: Outcome<R>): State<R>
    requires id in s.calls && s.calls[id].phase.Saving?
  {
    var c := s.calls[id];
    match RequestOf(c.update, Content(c.phase.seen))
    case SaveEntry(entry, r) =>
      SetCall(PutCell(Record(s, id, c, Returned(r), true), c.key, entry, token), id, c.(phase := Done(told)))
    case DeleteEntry(r) =>
      SetCall(Remove(Record(s, id, c, Returned(r), true), c.key), id, c.(phase := Done(told)))
    case Answer(_) => s
  }

  function ReplyOf<R>(c: Call<R>): Outcome<R>
    requires c.phase.Saving?
  {
    match RequestOf(c.update, Content(c.phase.seen))
    case SaveEntry(_, r) => Returned(r)
    case DeleteEntry(r) => Returned(r)
    case Answer(outcome) => outcome
  }

  function TakeSave<R>(s: State<R>, id: nat, token: Token): State<R>
    requires Enabled(s, Save(id, token))
  {
    var c := s.calls[id];
    if Matches(s.store, c.key, c.phase.seen) then
      Commit(s, id, token, ReplyOf(c))
    else
      var next := c.phase.attempt + 1;
      var window := Window(c.phase.at, LastWrite(s.log, c.key), |s.log|);
      SetCall(s, id, c.(
                windows := c.windows + [window],
                phase := if next < MAX_CAS_RETRIES then Loading(next) else Done(Contended)))
  }

  function Take<R>(s: State<R>, step: Step<R>): State<R>
    requires Enabled(s, step)
  {
    match step
    case Begin(id, key, update) => SetCall(s, id, Call(key, update, Loading(0), |s.log|, []))
    case Load(id) => TakeLoad(s, id)
    case Save(id, token) => TakeSave(s, id, token)
    case BackendError(id, landed, token) =>
      if landed then Commit(s, id, token, BackendFailed)
      else SetCall(s, id, s.calls[id].(phase := Done(BackendFailed)))
    case SetAny(key, entry, token) => PutCell(s, key, entry, token).(log := s.log + [Put(key, entry)])
    case DelAny(key) => Remove(s, key).(log := s.log + [Drop(key, key in s.store)])
  }

  predicate Possible<R>(s: State<R>, steps: seq<Step<R>>)
    decreases |steps|
  {
    steps == [] || (Enabled(s, steps[0]) && Possible(Take(s, steps[0]), steps[1..]))
  }

  function Run<R>(s: State<R>, steps: seq<Step<R>>): State<R>
    requires Possible(s, steps)
    decreases |steps|
  {
    if steps == [] then s else Run(Take(s, steps[0]), steps[1..])
  }

  // ---------------------------------------------------------------------------
  // The sequential reference
  // ---------------------------------------------------------------------------

  /** A commit: an entry written, or an existing one removed. */
  predicate WritesTo<R>(e: Event<R>, key: Key) {
    e.key == key && (e.Applied? ==> e.wrote) && (e.Drop? ==> e.existed)
  }

  predicate IsBy<R>(e: Event<R>, id: nat) {
    e.Applied? && e.id == id
  }

  /** The last position of a write to the key, or 0. */
  function LastWrite<R>(log: seq<Event<R>>, key: Key): nat {
    if log == [] then 0
    else if WritesTo(log[|log| - 1], key) then |log| - 1
    else LastWrite(log[..|log| - 1], key)
  }

  type Contents = map<Key, StoredValue>

  function Get(m: Contents, key: Key): Option<StoredValue> {
    if key in m then Some(m[key]) else None
  }

  function Overwrite(m: Contents, key: Key, v: Option<StoredValue>): Contents {
    if v.Some? then m[key := v.value] else m - {key}
  }

  function ApplyEvent<R>(m: Contents, e: Event<R>): Contents {
    match e
    case Applied(_, key, update, _, _) => Overwrite(m, key, Apply(update, Get(m, key)).0)
    case Put(key, entry) => m[key := entry]
    case Drop(key, _) => m - {key}
  }

  /** Run the logged operations one after the other, with nothing in between. */
  function Replay<R>(m: Contents, log: seq<Event<R>>): Contents {
    if log == [] then m
    else ApplyEvent(Replay(m, log[..|log| - 1]), log[|log| - 1])
  }

  /** Every reply in the log is the one the sequential execution gives. */
  ghost predicate RepliesAgree<R>(m: Contents, log: seq<Event<R>>) {
    forall i :: 0 <= i < |log| && log[i].Applied? ==>
      Apply(log[i].update, Get(Replay(m, log[..i]), log[i].key)).1 == log[i].outcome
  }

  /** Every commit in the log writes an entry or removes one that is there. */
  ghost predicate CommitsAreReal<R>(m: Contents, log: seq<Event<R>>) {
    forall i :: 0 <= i < |log| && WritesTo(log[i], log[i].key) ==>
      Get(Replay(m, log[..i]), log[i].key).Some? || Get(Replay(m, log[..i + 1]), log[i].key).Some?
  }

  function ContentsOf(store: map<Key, Cell>): Contents {
    map key | key in store :: store[key].entry
  }

  ghost predicate Initial<R>(s: State<R>) {
    && s.calls == map[]
    && s.log == []
    && TokensAreMinted(s)
  }

  predicate TokensAreMinted<R>(s: State<R>) {
    forall key :: key in s.store ==>
      && (key, s.store[key].token) in s.minted
      && s.minted[(key, s.store[key].token)] == s.store[key].entry
  }

  // ---------------------------------------------------------------------------
  // The invariant
  // ---------------------------------------------------------------------------

  ghost predicate Explained<R>(m: Contents, s: State<R>) {
    && LogInv(m, s)
    && (forall id :: id in s.calls ==> CallInv(s, id))
  }

  ghost predicate LogInv<R>(m: Contents, s: State<R>) {
    && TokensAreMinted(s)
    && ContentsOf(s.store) == Replay(m, s.log)
    && RepliesAgree(m, s.log) && CommitsAreReal(m, s.log)
    && (forall i :: 0 <= i < |s.log| && s.log[i].Applied? ==> s.log[i].id in s.calls)
  }

  ghost predicate CallInv<R>(s: State<R>, id: nat)
    requires id in s.calls
  {
    var c := s.calls[id];
    && c.began <= |s.log|
    && WindowsOk(s.log, id, c)
    && (forall i :: 0 <= i < |s.log| && IsBy(s.log[i], id) ==>
          && c.began <= i
          && s.log[i].key == c.key && s.log[i].update == c.update)
    && (forall i, j :: 0 <= i < j < |s.log| && IsBy(s.log[i], id) ==> !IsBy(s.log[j], id))
    && match c.phase
       case Loading(n) => NotLogged(s.log, id) && |c.windows| == n < MAX_CAS_RETRIES
       case Saving(n, seen, at) =>
         && NotLogged(s.log, id) && |c.windows| == n < MAX_CAS_RETRIES
         && SeenInv(s, c.key, seen, at)
         && (c.windows != [] ==> c.windows[n - 1].to <= at)
         && c.began <= at
         && !RequestOf(c.update, Content(seen)).Answer?
       case Done(Contended) => NotLogged(s.log, id) && |c.windows| == MAX_CAS_RETRIES
       case Done(BackendFailed) => true
       case Done(outcome) => LoggedWith(s.log, id, outcome)
  }

  ghost predicate NotLogged<R>(log: seq<Event<R>>, id: nat) {
    forall i :: 0 <= i < |log| ==> !IsBy(log[i], id)
  }

  ghost predicate LoggedWith<R>(log: seq<Event<R>>, id: nat, outcome: Outcome<R>) {
    exists i :: 0 <= i < |log| && IsBy(log[i], id) && log[i].outcome == outcome
  }

  /** Each window contains a commit by somebody else to the call's key; windows do not overlap. */
  ghost predicate WindowsOk<R>(log: seq<Event<R>>, id: nat, c: Call<R>) {
    && (forall w :: 0 <= w < |c.windows| ==> WindowOk(log, id, c.key, c.began, c.windows[w]))
    && (forall v, w :: 0 <= v < w < |c.windows| ==> c.windows[v].to <= c.windows[w].from)
  }

  ghost predicate WindowOk<R>(log: seq<Event<R>>, id: nat, key: Key, began: nat, w: Window) {
    && began <= w.from <= w.foreign < w.to <= |log|
    && WritesTo(log[w.foreign], key) && !IsBy(log[w.foreign], id)
  }

  /** The snapshot is current unless somebody committed to the key since it was taken. */
  ghost predicate SeenInv<R>(s: State<R>, key: Key, seen: Option<Cell>, at: nat) {
    && at <= |s.log|
    && (seen.Some? ==>
          && (key, seen.value.token) in s.minted
          && s.minted[(key, seen.value.token)] == seen.value.entry)
    && (Lookup(s.store, key) == seen || exists i :: at <= i < |s.log| && WritesTo(s.log[i], key))
  }

  // ---------------------------------------------------------------------------
  // Every step keeps the invariant
  // ---------------------------------------------------------------------------

  lemma InitiallyExplained<R>(s: State<R>)
    requires Initial(s)
    ensures Explained(ContentsOf(s.store), s)
  {
  }

  lemma ReplaySnoc<R>(m: Contents, log: seq<Event<R>>, e: Event<R>)
    ensures Replay(m, log + [e]) == ApplyEvent(Replay(m, log), e)
  {
  }

  lemma RepliesSnoc<R>(m: Contents, log: seq<Event<R>>, e: Event<R>)
    requires RepliesAgree(m, log)
    requires e.Applied? ==> Apply(e.update, Get(Replay(m, log), e.key)).1 == e.outcome
    ensures RepliesAgree(m, log + [e])
  {
    forall i | 0 <= i < |log + [e]| && (log + [e])[i].Applied?
      ensures Apply((log + [e])[i].update, Get(Replay(m, (log + [e])[..i]), (log + [e])[i].key)).1
              == (log + [e])[i].outcome
    {
      assert i < |log| ==> (log + [e])[..i] == log[..i];
      assert (log + [e])[..|log|] == log;
    }
  }

  lemma CommitsSnoc<R>(m: Contents, log: seq<Event<R>>, e: Event<R>)
    requires CommitsAreReal(m, log)
    requires WritesTo(e, e.key) ==>
      Get(Replay(m, log), e.key).Some? || Get(Replay(m, log + [e]), e.key).Some?
    ensures CommitsAreReal(m, log + [e])
  {
    hide Replay;
    var whole := log + [e];
    assert whole[..|whole|] == whole && whole[..|log|] == log;
    forall i | 0 <= i < |whole| && WritesTo(whole[i], whole[i].key)
      ensures Get(Replay(m, whole[..i]), whole[i].key).Some? || Get(Replay(m, whole[..i + 1]), whole[i].key).Some?
    {
      if i < |log| {
        assert whole[i] == log[i] && whole[..i] == log[..i] && whole[..i + 1] == log[..i + 1];
      }
    }
  }

  lemma {:induction false} LastWriteFound<R>(log: seq<Event<R>>, key: Key, i: nat)
    requires i < |log| && WritesTo(log[i], key)
    ensures i <= LastWrite(log, key) < |log|
    ensures WritesTo(log[LastWrite(log, key)], key)
    decreases |log|
  {
    var n := |log| - 1;
    if !WritesTo(log[n], key) {
      LastWriteFound(log[..n], key, i);
    }
  }

  /** What a step that is not by `id` may do without disturbing that call. */
  ghost predicate Undisturbed<R>(s: State<R>, s': State<R>, id: nat)
    requires id in s.calls
  {
    && id in s'.calls && s'.calls[id] == s.calls[id]
    && (|| s'.log == s.log
        || (&& |s'.log| == |s.log| + 1 && s'.log[..|s.log|] == s.log
            && !IsBy(s'.log[|s.log|], id)))
    && (forall p :: p in s.minted ==> p in s'.minted && s'.minted[p] == s.minted[p])
    && (|| Lookup(s'.store, s.calls[id].key) == Lookup(s.store, s.calls[id].key)
        || (|s'.log| == |s.log| + 1 && WritesTo(s'.log[|s.log|], s.calls[id].key)))
  }

  lemma OneUndisturbed<R>(s: State<R>, s': State<R>, id: nat)
    requires id in s.calls && CallInv(s, id) && Undisturbed(s, s', id)
    ensures id in s'.calls && CallInv(s', id)
  {
    var c := s.calls[id];
    LogLasts(s.log, s'.log, id, c);
    if c.phase.Saving? {
      SeenLasts(s, s', id);
    }
    hide SeenInv, RequestOf, WindowsOk, NotLogged, LoggedWith, WritesTo, Lookup;
  }

  /** What a call knows of the log stays true when somebody else adds to it. */
  lemma LogLasts<R>(log: seq<Event<R>>, log': seq<Event<R>>, id: nat, c: Call<R>)
    requires log' == log || (|log'| == |log| + 1 && log'[..|log|] == log && !IsBy(log'[|log|], id))
    ensures forall i :: 0 <= i < |log'| && IsBy(log'[i], id) ==> i < |log| && log'[i] == log[i]
    ensures WindowsOk(log, id, c) ==> WindowsOk(log', id, c)
    ensures NotLogged(log, id) ==> NotLogged(log', id)
    ensures forall outcome :: LoggedWith(log, id, outcome) ==> LoggedWith(log', id, outcome)
  {
    assert forall i :: 0 <= i < |log| ==> log'[i] == log[i];
    forall outcome | LoggedWith(log, id, outcome)
      ensures LoggedWith(log', id, outcome)
    {
      var i :| 0 <= i < |log| && IsBy(log[i], id) && log[i].outcome == outcome;
      assert IsBy(log'[i], id);
    }
    if WindowsOk(log, id, c) {
      forall w | 0 <= w < |c.windows|
        ensures WindowOk(log', id, c.key, c.began, c.windows[w])
      {
        assert WindowOk(log, id, c.key, c.began, c.windows[w]);
      }
    }
  }

  lemma SeenLasts<R>(s: State<R>, s': State<R>, id: nat)
    requires id in s.calls && s.calls[id].phase.Saving? && Undisturbed(s, s', id)
    requires SeenInv(s, s.calls[id].key, s.calls[id].phase.seen, s.calls[id].phase.at)
    ensures SeenInv(s', s.calls[id].key, s.calls[id].phase.seen, s.calls[id].phase.at)
  {
    var key, seen, at := s.calls[id].key, s.calls[id].phase.seen, s.calls[id].phase.at;
    assert forall i :: 0 <= i < |s.log| ==> s'.log[i] == s.log[i];
    hide WritesTo, Lookup;
    if i :| at <= i < |s.log| && WritesTo(s.log[i], key) {
      assert WritesTo(s'.log[i], key);
    }
  }

  lemma OthersUndisturbed<R>(s: State<R>, s': State<R>, others: set<nat>)
    requires others <= s.calls.Keys
    requires forall j :: j in others ==> CallInv(s, j)
    requires forall j :: j in others ==> Undisturbed(s, s', j)
    ensures forall j :: j in others ==> j in s'.calls && CallInv(s', j)
  {
    hide CallInv, Undisturbed;
    forall j | j in others
      ensures j in s'.calls && CallInv(s', j)
    {
      OneUndisturbed(s, s', j);
    }
  }

  lemma ContentsPut(store: map<Key, Cell>, key: Key, entry: StoredValue, token: Token)
    ensures ContentsOf(store[key := Cell(entry, token)]) == ContentsOf(store)[key := entry]
  {
  }

  lemma ContentsRemove(store: map<Key, Cell>, key: Key)
    ensures ContentsOf(store - {key}) == ContentsOf(store) - {key}
  {
  }

  lemma LogUnchangedKeeps<R>(m: Contents, s: State<R>, s': State<R>)
    requires LogInv(m, s)
    requires s'.log == s.log && s'.store == s.store && s'.minted == s.minted
    requires s.calls.Keys <= s'.calls.Keys
    ensures LogInv(m, s')
  {
  }

  /** One more event whose effect on the store is the replayed one. */
  lemma LogExtendedKeeps<R>(m: Contents, s: State<R>, s': State<R>, e: Event<R>)
    requires LogInv(m, s)
    requires s'.log == s.log + [e] && s.calls.Keys <= s'.calls.Keys
    requires e.Applied? ==> e.id in s'.calls
    requires e.Applied? ==> Apply(e.update, Get(ContentsOf(s.store), e.key)).1 == e.outcome
    requires ContentsOf(s'.store) == ApplyEvent(ContentsOf(s.store), e)
    requires WritesTo(e, e.key) ==> Get(ContentsOf(s.store), e.key).Some? || Get(ContentsOf(s'.store), e.key).Some?
    requires TokensAreMinted(s')
    ensures LogInv(m, s')
  {
    hide Replay, ApplyEvent, RepliesAgree, CommitsAreReal, TokensAreMinted, Apply, Get, WritesTo;
    ReplaySnoc(m, s.log, e);
    RepliesSnoc(m, s.log, e);
    CommitsSnoc(m, s.log, e);
  }

  lemma BeginKeeps<R>(m: Contents, s: State<R>, id: nat, key: Key, update: Update<R>)
    requires Explained(m, s) && Enabled(s, Begin(id, key, update))
    ensures Explained(m, Take(s, Begin(id, key, update)))
  {
    var s' := Take(s, Begin(id, key, update));
    LogUnchangedKeeps(m, s, s');
    OthersUndisturbed(s, s', s.calls.Keys);
  }

  /** A call that ends with its event just logged. */
  lemma EndedCallInv<R>(s: State<R>, s': State<R>, id: nat, c: Call<R>, e: Event<R>)
    requires id in s.calls && c == s.calls[id] && CallInv(s, id) && NotLogged(s.log, id)
    requires e.Applied? && e.id == id && e.key == c.key && e.update == c.update
    requires s'.log == s.log + [e]
    requires id in s'.calls
    requires s'.calls[id] == c.(phase := Done(e.outcome)) || s'.calls[id] == c.(phase := Done(BackendFailed))
    requires e.outcome.Returned? || e.outcome.Rejected?
    ensures CallInv(s', id)
  {
    assert IsBy(s'.log[|s.log|], id);
    assert forall i :: 0 <= i < |s.log| ==> s'.log[i] == s.log[i];
  }

  /** A step that changes one call only. */
  lemma CallChangeKeeps<R>(m: Contents, s: State<R>, s': State<R>, id: nat, c: Call<R>)
    requires Explained(m, s) && id in s.calls
    requires s' == s.(calls := s.calls[id := c]) && CallInv(s', id)
    ensures Explained(m, s')
  {
    hide LogInv, CallInv;
    LogUnchangedKeeps(m, s, s');
    OthersUndisturbed(s, s', s.calls.Keys - {id});
  }

  lemma LoadKeeps<R>(m: Contents, s: State<R>, id: nat)
    requires Explained(m, s) && Enabled(s, Load(id))
    ensures Explained(m, Take(s, Load(id)))
  {
    var c := s.calls[id];
    var request := RequestOf(c.update, Content(Lookup(s.store, c.key)));
    if request.Answer? {
      LoadAnswers(m, s, id, request.outcome);
    } else {
      var s' := Take(s, Load(id));
      assert s' == s.(calls := s.calls[id := s'.calls[id]]);
      assert CallInv(s, id) && LogInv(m, s);
      hide Explained;
      LoadPends(m, s, id);
      hide Take, Enabled, CallInv, LogInv, RequestOf;
      CallChangeKeeps(m, s, s', id, s'.calls[id]);
    }
  }

  /** A call that has loaded and is about to save. */
  lemma LoadPends<R>(m: Contents, s: State<R>, id: nat)
    requires LogInv(m, s) && Enabled(s, Load(id)) && CallInv(s, id)
    requires !RequestOf(s.calls[id].update, Content(Lookup(s.store, s.calls[id].key))).Answer?
    ensures CallInv(Take(s, Load(id)), id)
  {
    var c := s.calls[id];
    assert TokensAreMinted(s);
    assert SeenInv(s, c.key, Lookup(s.store, c.key), |s.log|);
    assert forall w :: 0 <= w < |c.windows| ==> WindowOk(s.log, id, c.key, c.began, c.windows[w]);
    hide LogInv, TokensAreMinted, WritesTo, RequestOf, Replay;
  }

  lemma LoadAnswers<R>(m: Contents, s: State<R>, id: nat, outcome: Outcome<R>)
    requires Explained(m, s) && Enabled(s, Load(id))
    requires RequestOf(s.calls[id].update, Content(Lookup(s.store, s.calls[id].key))) == Answer(outcome)
    ensures Explained(m, Take(s, Load(id)))
  {
    var s', c := Take(s, Load(id)), s.calls[id];
    var e := Applied(id, c.key, c.update, outcome, false);
    assert CallInv(s, id) && LogInv(m, s) && TokensAreMinted(s) && NotLogged(s.log, id);
    hide Take, CallInv, LogInv, TokensAreMinted, ApplyEvent, Apply, RequestOf, ContentsOf, NotLogged, Get, Undisturbed, Lookup, Content, Enabled;
    AnswerStep(s, id, outcome);
    EndedCallInv(s, s', id, c, e);
    AnswerUndisturbs(s, s', id, e);
    OthersUndisturbed(s, s', s.calls.Keys - {id});
    LogExtendedKeeps(m, s, s', e);
  }

  lemma AnswerUndisturbs<R>(s: State<R>, s': State<R>, id: nat, e: Event<R>)
    requires id in s.calls && IsBy(e, id) && s'.store == s.store && s'.minted == s.minted
    requires s'.log == s.log + [e] && id in s'.calls && s'.calls == s.calls[id := s'.calls[id]]
    ensures forall j :: j in s.calls && j != id ==> Undisturbed(s, s', j)
  {
  }

  /** A load that needs no write answers from the content current at that moment. */
  lemma AnswerStep<R>(s: State<R>, id: nat, outcome: Outcome<R>)
    requires Enabled(s, Load(id)) && TokensAreMinted(s)
    requires RequestOf(s.calls[id].update, Content(Lookup(s.store, s.calls[id].key))) == Answer(outcome)
    ensures
      var s', c := Take(s, Load(id)), s.calls[id];
      var e := Applied(id, c.key, c.update, outcome, false);
      && s' == s.(log := s.log + [e], calls := s.calls[id := c.(phase := Done(outcome))])
      && TokensAreMinted(s')
      && (outcome.Returned? || outcome.Rejected?)
      && Apply(c.update, Get(ContentsOf(s.store), c.key)).1 == outcome
      && ContentsOf(s'.store) == ApplyEvent(ContentsOf(s.store), e)
  {
    var c := s.calls[id];
    assert Content(Lookup(s.store, c.key)) == Get(ContentsOf(s.store), c.key);
    var e := Applied(id, c.key, c.update, outcome, false);
    assert ApplyEvent(ContentsOf(s.store), e) == ContentsOf(s.store);
  }

  /** A commit under a matching token applies the call's closure to the content current at that
    * moment, although it was computed from an earlier snapshot.
    */
  lemma SnapshotIsCurrent<R>(s: State<R>, id: nat)
    requires TokensAreMinted(s)
    requires id in s.calls && s.calls[id].phase.Saving? && CallInv(s, id)
    requires Matches(s.store, s.calls[id].key, s.calls[id].phase.seen)
    ensures Get(ContentsOf(s.store), s.calls[id].key) == Content(s.calls[id].phase.seen)
  {
  }

  lemma CommitStore<R>(s: State<R>, id: nat, token: Token, told: Outcome<R>)
    requires TokensAreMinted(s)
    requires id in s.calls && s.calls[id].phase.Saving? && CallInv(s, id)
    requires Matches(s.store, s.calls[id].key, s.calls[id].phase.seen)
    requires TokenFits(s, s.calls[id], token)
    ensures
      var s', c := Commit(s, id, token, told), s.calls[id];
      var e := Applied(id, c.key, c.update, ReplyOf(c), true);
      && s'.log == s.log + [e]
      && s'.calls == s.calls[id := c.(phase := Done(told))]
      && TokensAreMinted(s')
      && (forall p :: p in s.minted ==> p in s'.minted && s'.minted[p] == s.minted[p])
      && (forall k :: k != c.key ==> Lookup(s'.store, k) == Lookup(s.store, k))
      && ContentsOf(s'.store) == ApplyEvent(ContentsOf(s.store), e)
      && Apply(c.update, Get(ContentsOf(s.store), c.key)).1 == ReplyOf(c)
      && (Get(ContentsOf(s.store), c.key).Some? || Get(ContentsOf(s'.store), c.key).Some?)
      && ReplyOf(c).Returned?
  {
    SnapshotIsCurrent(s, id);
    assert !RequestOf(s.calls[id].update, Content(s.calls[id].phase.seen)).Answer?;
    hide CallInv;
    CommitContents(s, id, token, told);
  }

  lemma CommitContents<R>(s: State<R>, id: nat, token: Token, told: Outcome<R>)
    requires TokensAreMinted(s) && id in s.calls && s.calls[id].phase.Saving?
    requires !RequestOf(s.calls[id].update, Content(s.calls[id].phase.seen)).Answer?
    requires Get(ContentsOf(s.store), s.calls[id].key) == Content(s.calls[id].phase.seen)
    ensures
      var s', c := Commit(s, id, token, told), s.calls[id];
      var e := Applied(id, c.key, c.update, ReplyOf(c), true);
      && ContentsOf(s'.store) == ApplyEvent(ContentsOf(s.store), e)
      && Apply(c.update, Get(ContentsOf(s.store), c.key)).1 == ReplyOf(c)
      && (Get(ContentsOf(s.store), c.key).Some? || Get(ContentsOf(s'.store), c.key).Some?)
  {
  }

  lemma CommitUndisturbs<R>(s: State<R>, id: nat, token: Token, told: Outcome<R>, j: nat)
    requires TokensAreMinted(s)
    requires id in s.calls && s.calls[id].phase.Saving? && CallInv(s, id)
    requires Matches(s.store, s.calls[id].key, s.calls[id].phase.seen)
    requires TokenFits(s, s.calls[id], token)
    requires j in s.calls && j != id
    ensures Undisturbed(s, Commit(s, id, token, told), j)
  {
  }

  lemma CommitCalls<R>(s: State<R>, id: nat, token: Token, told: Outcome<R>)
    requires TokensAreMinted(s) && forall j :: j in s.calls ==> CallInv(s, j)
    requires id in s.calls && s.calls[id].phase.Saving?
    requires Matches(s.store, s.calls[id].key, s.calls[id].phase.seen)
    requires TokenFits(s, s.calls[id], token)
    requires told == ReplyOf(s.calls[id]) || told == BackendFailed
    ensures forall j :: j in s.calls ==> j in Commit(s, id, token, told).calls && CallInv(Commit(s, id, token, told), j)
  {
    var s', c := Commit(s, id, token, told), s.calls[id];
    assert CallInv(s, id) && NotLogged(s.log, id);
    hide Commit, ReplyOf, Matches, TokenFits, ApplyEvent, Apply, TokensAreMinted, Undisturbed, ContentsOf, Get, CallInv, NotLogged;
    CommitStore(s, id, token, told);
    forall j | j in s.calls && j != id
      ensures Undisturbed(s, s', j)
    {
      CommitUndisturbs(s, id, token, told, j);
    }
    EndedCallInv(s, s', id, c, Applied(id, c.key, c.update, ReplyOf(c), true));
    OthersUndisturbed(s, s', s.calls.Keys - {id});
  }

  lemma CommitKeeps<R>(m: Contents, s: State<R>, id: nat, token: Token, told: Outcome<R>)
    requires Explained(m, s)
    requires id in s.calls && s.calls[id].phase.Saving?
    requires Matches(s.store, s.calls[id].key, s.calls[id].phase.seen)
    requires TokenFits(s, s.calls[id], token)
    requires told == ReplyOf(s.calls[id]) || told == BackendFailed
    ensures Explained(m, Commit(s, id, token, told))
  {
    var s', c := Commit(s, id, token, told), s.calls[id];
    assert TokensAreMinted(s) && CallInv(s, id) && LogInv(m, s);
    hide Commit, ReplyOf, Matches, TokenFits, ApplyEvent, Apply, TokensAreMinted, LogInv, ContentsOf, Get, CallInv;
    CommitCalls(s, id, token, told);
    CommitStore(s, id, token, told);
    LogExtendedKeeps(m, s, s', Applied(id, c.key, c.update, ReplyOf(c), true));
  }

  lemma LostRaceKeeps<R>(m: Contents, s: State<R>, id: nat, token: Token)
    requires Explained(m, s) && Enabled(s, Save(id, token))
    requires !Matches(s.store, s.calls[id].key, s.calls[id].phase.seen)
    ensures Explained(m, Take(s, Save(id, token)))
  {
    var s' := Take(s, Save(id, token));
    assert s' == s.(calls := s.calls[id := s'.calls[id]]);
    assert CallInv(s, id);
    hide Explained;
    LostRaceCallInv(s, id, token);
    hide Take, Enabled, CallInv, Matches;
    CallChangeKeeps(m, s, s', id, s'.calls[id]);
  }

  /** The commit that cost a call its race lies between its load and its refused save. */
  lemma LostRaceWindow<R>(s: State<R>, id: nat)
    requires id in s.calls && s.calls[id].phase.Saving? && CallInv(s, id)
    requires !Matches(s.store, s.calls[id].key, s.calls[id].phase.seen)
    ensures
      var c := s.calls[id];
      var w := Window(c.phase.at, LastWrite(s.log, c.key), |s.log|);
      WindowsOk(s.log, id, c.(windows := c.windows + [w]))
  {
    var c := s.calls[id];
    assert SeenInv(s, c.key, c.phase.seen, c.phase.at) && WindowsOk(s.log, id, c) && NotLogged(s.log, id);
    assert c.began <= c.phase.at && (c.windows != [] ==> c.windows[|c.windows| - 1].to <= c.phase.at);
    hide CallInv, RequestOf;
    LostRaceWrite(s, c.key, c.phase.seen, c.phase.at);
    hide SeenInv, Matches, LastWrite, WritesTo;
    assert WindowOk(s.log, id, c.key, c.began, Window(c.phase.at, LastWrite(s.log, c.key), |s.log|));
  }

  /** A snapshot that no longer matches has been overwritten since. */
  lemma LostRaceWrite<R>(s: State<R>, key: Key, seen: Option<Cell>, at: nat)
    requires SeenInv(s, key, seen, at) && !Matches(s.store, key, seen)
    ensures
      var f := LastWrite(s.log, key);
      at <= f < |s.log| && WritesTo(s.log[f], key)
  {
    var i :| at <= i < |s.log| && WritesTo(s.log[i], key);
    LastWriteFound(s.log, key, i);
  }

  lemma LostRaceCallInv<R>(s: State<R>, id: nat, token: Token)
    requires Enabled(s, Save(id, token)) && CallInv(s, id)
    requires !Matches(s.store, s.calls[id].key, s.calls[id].phase.seen)
    ensures CallInv(Take(s, Save(id, token)), id)
  {
    LostRaceWindow(s, id);
    hide WindowsOk, LastWrite, Matches, SeenInv, RequestOf, NotLogged;
  }

  /** What an unconditional write does. */
  lemma UnconditionalShape<R>(s: State<R>, step: Step<R>)
    requires (step.SetAny? || step.DelAny?) && TokensAreMinted(s) && Enabled(s, step)
    ensures
      var s' := Take(s, step);
      var e := if step.SetAny? then Put(step.key, step.entry) else Drop(step.key, step.key in s.store);
      && s'.log == s.log + [e] && s'.calls == s.calls && TokensAreMinted(s')
      && ContentsOf(s'.store) == ApplyEvent(ContentsOf(s.store), e)
      && (WritesTo(e, e.key) ==> Get(ContentsOf(s.store), e.key).Some? || Get(ContentsOf(s'.store), e.key).Some?)
      && (forall p :: p in s.minted ==> p in s'.minted && s'.minted[p] == s.minted[p])
      && (forall k :: Lookup(s'.store, k) == Lookup(s.store, k) || WritesTo(e, k))
  {
    if step.SetAny? {
      ContentsPut(s.store, step.key, step.entry, step.token);
    } else {
      ContentsRemove(s.store, step.key);
    }
  }

  lemma UnconditionalKeeps<R>(m: Contents, s: State<R>, step: Step<R>)
    requires step.SetAny? || step.DelAny?
    requires Explained(m, s) && Enabled(s, step)
    ensures Explained(m, Take(s, step))
  {
    hide Take, Enabled, TokensAreMinted, ApplyEvent, ContentsOf, Get, WritesTo, LogInv, CallInv, Undisturbed, Lookup;
    var s' := Take(s, step);
    assert TokensAreMinted(s) by { TokensOf(m, s); }
    UnconditionalShape(s, step);
    forall id | id in s.calls
      ensures Undisturbed(s, s', id)
    {
      UnconditionalUndisturbs(s, step, id);
    }
    LogExtendedKeeps(m, s, s', if step.SetAny? then Put(step.key, step.entry) else Drop(step.key, step.key in s.store));
    OthersUndisturbed(s, s', s.calls.Keys);
  }

  lemma TokensOf<R>(m: Contents, s: State<R>)
    requires LogInv(m, s)
    ensures TokensAreMinted(s)
  {
  }

  lemma UnconditionalUndisturbs<R>(s: State<R>, step: Step<R>, id: nat)
    requires (step.SetAny? || step.DelAny?) && TokensAreMinted(s) && Enabled(s, step) && id in s.calls
    ensures Undisturbed(s, Take(s, step), id)
  {
    UnconditionalShape(s, step);
    hide Take, Enabled, TokensAreMinted, ApplyEvent, ContentsOf, Get, WritesTo, Lookup;
  }

  lemma FailureKeeps<R>(m: Contents, s: State<R>, id: nat, token: Token)
    requires Explained(m, s) && Enabled(s, BackendError(id, false, token))
    ensures Explained(m, Take(s, BackendError(id, false, token)))
  {
    var s' := Take(s, BackendError(id, false, token));
    assert s' == s.(calls := s.calls[id := s'.calls[id]]);
    assert CallInv(s, id);
    hide Explained;
    FailedCallInv(s, id, token);
    hide Take, Enabled, CallInv;
    CallChangeKeeps(m, s, s', id, s'.calls[id]);
  }

  lemma FailedCallInv<R>(s: State<R>, id: nat, token: Token)
    requires Enabled(s, BackendError(id, false, token)) && CallInv(s, id)
    ensures CallInv(Take(s, BackendError(id, false, token)), id)
  {
  }

  lemma StepKeeps<R>(m: Contents, s: State<R>, step: Step<R>)
    requires Explained(m, s) && Enabled(s, step)
    ensures Explained(m, Take(s, step))
  {
    hide Explained;
    match step {
      case Begin(id, key, update) => BeginKeeps(m, s, id, key, update);
      case Load(id) => LoadKeeps(m, s, id);
      case Save(id, token) =>
        if Matches(s.store, s.calls[id].key, s.calls[id].phase.seen) {
          CommitKeeps(m, s, id, token, ReplyOf(s.calls[id]));
        } else {
          LostRaceKeeps(m, s, id, token);
        }
      case BackendError(id, landed, token) =>
        if landed {
          CommitKeeps(m, s, id, token, BackendFailed);
        } else {
          FailureKeeps(m, s, id, token);
        }
      case _ => UnconditionalKeeps(m, s, step);
    }
  }

  // ---------------------------------------------------------------------------
  // Whole runs
  // ---------------------------------------------------------------------------

  lemma {:induction false} ExplainedThroughout<R>(m: Contents, s: State<R>, steps: seq<Step<R>>)
    requires Explained(m, s) && Possible(s, steps)
    ensures Explained(m, Run(s, steps))
    decreases |steps|
  {
    hide Explained;
    if steps != [] {
      StepKeeps(m, s, steps[0]);
      ExplainedThroughout(m, Take(s, steps[0]), steps[1..]);
    }
  }

  predicate Replied<R>(c: Call<R>) {
    c.phase.Done? && (c.phase.outcome.Returned? || c.phase.outcome.Rejected?)
  }

  /** Linearizability: for every interleaving, the store is what the logged operations leave when
    * run one after the other, every logged reply is the sequential one, and every call that got
    * a reply is logged exactly once with that reply.
    */
  lemma Linearizable<R>(s0: State<R>, steps: seq<Step<R>>)
    requires Initial(s0) && Possible(s0, steps)
    ensures
      var m, s := ContentsOf(s0.store), Run(s0, steps);
      && ContentsOf(s.store) == Replay(m, s.log)
      && RepliesAgree(m, s.log) && CommitsAreReal(m, s.log)
      && (forall id :: id in s.calls && Replied(s.calls[id]) ==>
            LoggedWith(s.log, id, s.calls[id].phase.outcome))
      && (forall i, j :: 0 <= i < j < |s.log| && s.log[i].Applied? ==> !IsBy(s.log[j], s.log[i].id))
      && (forall id :: id in s.calls && s.calls[id].phase == Done(Contended) ==> NotLogged(s.log, id))
  {
    var m, s := ContentsOf(s0.store), Run(s0, steps);
    ExplainedThroughout(m, s0, steps);
    forall id | id in s.calls
      ensures CallInv(s, id)
    {
    }
    forall i, j | 0 <= i < j < |s.log| && s.log[i].Applied?
      ensures !IsBy(s.log[j], s.log[i].id)
    {
      assert CallInv(s, s.log[i].id) && IsBy(s.log[i], s.log[i].id);
    }
  }

  /** At position i of the log the call's closure was applied to the content current there: the
    * entry it computed became the content, the reply is its own and nothing else changed.
    */
  ghost predicate TookEffectAt<R>(m: Contents, log: seq<Event<R>>, i: nat, id: nat, c: Call<R>) {
    && c.began <= i < |log|
    && IsBy(log[i], id)
    && (var before, after := Replay(m, log[..i]), Replay(m, log[..i + 1]);
        && Apply(c.update, Get(before, c.key)).0 == Get(after, c.key)
        && c.phase == Done(Apply(c.update, Get(before, c.key)).1)
        && forall k :: k != c.key ==> Get(after, k) == Get(before, k))
  }

  lemma LoggedTookEffect<R>(m: Contents, log: seq<Event<R>>, i: nat, id: nat, c: Call<R>)
    requires c.began <= i < |log| && IsBy(log[i], id)
    requires log[i].key == c.key && log[i].update == c.update && c.phase == Done(log[i].outcome)
    requires RepliesAgree(m, log)
    ensures TookEffectAt(m, log, i, id, c)
  {
    assert log[..i + 1] == log[..i] + [log[i]];
    ReplaySnoc(m, log[..i], log[i]);
  }

  /** No lost update: every call that got a reply took effect, exactly as replied, at one position
    * of the log at or after its start.
    */
  lemma ReplyIsExplained<R>(s0: State<R>, steps: seq<Step<R>>, id: nat)
    requires Initial(s0) && Possible(s0, steps)
    requires id in Run(s0, steps).calls && Replied(Run(s0, steps).calls[id])
    ensures
      var s := Run(s0, steps);
      exists i :: TookEffectAt(ContentsOf(s0.store), s.log, i, id, s.calls[id])
  {
    hide Run, Possible, Initial, Explained, TookEffectAt, ContentsOf;
    InitiallyExplained(s0);
    ExplainedThroughout(ContentsOf(s0.store), s0, steps);
    ExplainedReply(ContentsOf(s0.store), Run(s0, steps), id);
  }

  lemma ExplainedReply<R>(m: Contents, s: State<R>, id: nat)
    requires Explained(m, s) && id in s.calls && Replied(s.calls[id])
    ensures exists i :: TookEffectAt(m, s.log, i, id, s.calls[id])
  {
    assert CallInv(s, id) && RepliesAgree(m, s.log);
    hide Explained, RepliesAgree, WindowsOk, NotLogged, SeenInv, TookEffectAt;
    var i :| 0 <= i < |s.log| && IsBy(s.log[i], id) && s.log[i].outcome == s.calls[id].phase.outcome;
    LoggedTookEffect(m, s.log, i, id, s.calls[id]);
  }

  /** What lies between an earlier and a later state of one run. */
  ghost predicate Later<R>(s: State<R>, t: State<R>) {
    && |s.log| <= |t.log| && t.log[..|s.log|] == s.log
    && (forall id :: id in s.calls ==> id in t.calls)
    && (forall id :: id in s.calls && s.calls[id].phase.Done? ==> t.calls[id] == s.calls[id])
    && (forall id, i :: id in s.calls && s.calls[id].phase.Done? && |s.log| <= i < |t.log| ==> !IsBy(t.log[i], id))
    && (forall id :: id in t.calls && id !in s.calls ==> t.calls[id].began >= |s.log|)
  }

  /** How one step changes the log and the calls. */
  ghost predicate Advances<R>(t: State<R>, t': State<R>) {
    && (|| t'.log == t.log
        || (&& |t'.log| == |t.log| + 1 && t'.log[..|t.log|] == t.log
            && (var e := t'.log[|t.log|];
                e.Applied? ==> e.id in t.calls && !t.calls[e.id].phase.Done?)))
    && (forall id :: id in t.calls ==>
          id in t'.calls && t'.calls[id].began == t.calls[id].began &&
          (t.calls[id].phase.Done? ==> t'.calls[id] == t.calls[id]))
    && (forall id :: id in t'.calls && id !in t.calls ==> t'.calls[id].began == |t.log|)
  }

  lemma StepAdvances<R>(t: State<R>, step: Step<R>)
    requires Enabled(t, step)
    ensures Advances(t, Take(t, step))
  {
    match step {
      case Save(id, token) =>
        if Matches(t.store, t.calls[id].key, t.calls[id].phase.seen) {
          CommitAdvances(t, id, token, ReplyOf(t.calls[id]));
        }
      case BackendError(id, landed, token) =>
        if landed {
          CommitAdvances(t, id, token, BackendFailed);
        }
      case _ =>
    }
  }

  lemma CommitAdvances<R>(t: State<R>, id: nat, token: Token, told: Outcome<R>)
    requires id in t.calls && t.calls[id].phase.Saving?
    ensures Advances(t, Commit(t, id, token, told))
  {
  }

  lemma LaterStep<R>(s: State<R>, t: State<R>, t': State<R>)
    requires Later(s, t) && Advances(t, t')
    ensures Later(s, t')
  {
  }

  lemma {:induction false} LaterThroughout<R>(s: State<R>, t: State<R>, steps: seq<Step<R>>)
    requires Later(s, t) && Possible(t, steps)
    ensures Later(s, Run(t, steps))
    decreases |steps|
  {
    if steps != [] {
      StepAdvances(t, steps[0]);
      LaterStep(s, t, Take(t, steps[0]));
      hide Later, Take, Enabled, Advances;
      LaterThroughout(s, Take(t, steps[0]), steps[1..]);
    }
  }

  /** The log respects real time: a call that ended before another began comes first. */
  lemma RealTimeOrder<R>(s0: State<R>, pre: seq<Step<R>>, post: seq<Step<R>>, a: nat, b: nat, i: nat, j: nat)
    requires Initial(s0) && Possible(s0, pre) && Possible(Run(s0, pre), post)
    requires a in Run(s0, pre).calls && Run(s0, pre).calls[a].phase.Done?
    requires b !in Run(s0, pre).calls
    requires i < |Run(Run(s0, pre), post).log| && IsBy(Run(Run(s0, pre), post).log[i], a)
    requires j < |Run(Run(s0, pre), post).log| && IsBy(Run(Run(s0, pre), post).log[j], b)
    ensures i < j
  {
    var m, s := ContentsOf(s0.store), Run(s0, pre);
    var t := Run(s, post);
    InitiallyExplained(s0);
    assert Later(s, s);
    hide Run, Possible, ContentsOf, Initial, Explained, Later, Enabled, Take;
    ExplainedThroughout(m, s0, pre);
    ExplainedThroughout(m, s, post);
    LaterThroughout(s, s, post);
    EndedBeforeBegun(m, s, t, a, b, i, j);
  }

  lemma EndedBeforeBegun<R>(m: Contents, s: State<R>, t: State<R>, a: nat, b: nat, i: nat, j: nat)
    requires Explained(m, t) && Later(s, t)
    requires a in s.calls && s.calls[a].phase.Done? && b !in s.calls
    requires i < |t.log| && IsBy(t.log[i], a) && j < |t.log| && IsBy(t.log[j], b)
    ensures i < j
  {
    assert LogInv(m, t) && b in t.calls && CallInv(t, b);
    hide LogInv, WindowsOk, NotLogged, LoggedWith, SeenInv;
  }

  /** Rewriting an equal entry under a new token refuses a pending save as any other write does. */
  lemma EqualEntryRefuses<R>(s: State<R>, key: Key, entry: StoredValue, was: Token, token: Token)
    requires key in s.store && s.store[key] == Cell(entry, was) && was != token && CanMint(s, key, token, entry)
    ensures
      var s' := Take(s, SetAny(key, entry, token));
      && !Matches(s'.store, key, Some(Cell(entry, was)))
      && Get(ContentsOf(s'.store), key) == Get(ContentsOf(s.store), key) == Some(entry)
  {
  }

  function ForeignCommits<R>(log: seq<Event<R>>, id: nat, key: Key, began: nat): set<nat> {
    set i | 0 <= i < |log| && began <= i && WritesTo(log[i], key) && !IsBy(log[i], id)
  }

  /** Contention is reported only when five commits by others hit the key during the call, one
    * inside each of the five disjoint spans from a load to its refused save. Each of them wrote an
    * entry or removed an existing one; rewriting an equal entry under a new token counts.
    */
  lemma ContentionNeedsFiveForeignCommits<R>(s0: State<R>, steps: seq<Step<R>>, id: nat)
    requires Initial(s0) && Possible(s0, steps)
    requires id in Run(s0, steps).calls && Run(s0, steps).calls[id].phase == Done(Contended)
    ensures
      var s := Run(s0, steps);
      var c := s.calls[id];
      && |c.windows| == 5
      && WindowsOk(s.log, id, c) && CommitsAreReal(ContentsOf(s0.store), s.log)
      && |ForeignCommits(s.log, id, c.key, c.began)| >= 5
  {
    var s := Run(s0, steps);
    ExplainedThroughout(ContentsOf(s0.store), s0, steps);
    assert CallInv(s, id);
    assert LogInv(ContentsOf(s0.store), s);
    hide Run, Possible, CallInv, Explained, Initial;
    FiveWindows(s.log, id, s.calls[id]);
  }

  lemma FiveWindows<R>(log: seq<Event<R>>, id: nat, c: Call<R>)
    requires WindowsOk(log, id, c) && |c.windows| == 5
    ensures |ForeignCommits(log, id, c.key, c.began)| >= 5
  {
    var w := c.windows;
    var five := {w[0].foreign, w[1].foreign, w[2].foreign, w[3].foreign, w[4].foreign};
    assert forall v :: 0 <= v < 5 ==> WindowOk(log, id, c.key, c.began, w[v]);
    assert w[0].foreign < w[1].foreign < w[2].foreign < w[3].foreign < w[4].foreign;
    assert |five| == 5;
    SubsetSize(five, ForeignCommits(log, id, c.key, c.began));
  }

  lemma {:induction false} SubsetSize(a: set<nat>, b: set<nat>)
    requires a <= b
    ensures |a| <= |b|
    decreases |a|
  {
    if a != {} {
      var x :| x in a;
      SubsetSize(a - {x}, b - {x});
    }
  }
}
