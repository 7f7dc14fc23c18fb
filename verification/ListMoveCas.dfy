/** LMOVE over the optimistic-locking loop itself: each pop and push is a call that loads, saves and
  * retries, and all of its steps interleave with those of other movers and clients. What `ListMove`
  * says of atomic moves holds of these runs, because each step is one such move or none.
  */
module ListMoveCas {
  import opened Bytes
  import opened Values
  import C = Cas
  import L = ListMove

  type Reply = Option<bytes>

  /** `current` names the call that carries out a mover's pop or push. */
  datatype System = System(cas: C.State<Reply>, movers: map<nat, L.Mover>, current: map<nat, nat>)

  datatype Step =
    | Begin(id: nat, src: Key, dst: Key, fromLeft: bool, toLeft: bool)
    | Check(id: nat)
    | Send(id: nat, call: nat)
    | Advance(id: nat, step: C.Step<Reply>)
    | Foreign(step: C.Step<Reply>, key: Key)

  /** The lists and movers as `ListMove` sees them. */
  function Abs(s: System): L.System {
    L.System(C.ContentsOf(s.cas.store), s.movers)
  }

  predicate Moving(m: L.Mover) {
    m.phase.Popping? || m.phase.Pushing?
  }

  function KeyFor(m: L.Mover): Key {
    if m.phase.Popping? then m.src else m.dst
  }

  function UpdateFor(m: L.Mover): C.Update<Reply>
    requires Moving(m)
  {
    if m.phase.Popping? then L.PopUpdate(m) else L.PushEnd(m.phase.element, m.toLeft)
  }

  /** Clients that are not movers may do anything to keys that neither hold nor receive a list. */
  predicate SparesLists(before: C.Contents, after: C.Contents, key: Key) {
    && after == C.Overwrite(before, key, C.Get(after, key))
    && (C.Get(after, key) != C.Get(before, key) ==> !L.HoldsList(C.Get(before, key)) && !L.HoldsList(C.Get(after, key)))
  }

  predicate Steps(step: C.Step<Reply>, call: nat) {
    (step.Load? || step.Save? || step.BackendError?) && step.id == call
  }

  predicate Enabled(s: System, step: Step) {
    match step
    case Begin(id, src, dst, fromLeft, toLeft) => id !in s.movers
    case Check(id) => id in s.movers && s.movers[id].phase.Checking?
    case Send(id, call) => id in s.movers && Moving(s.movers[id]) && id !in s.current && call !in s.cas.calls
    case Advance(id, step) =>
      id in s.movers && Moving(s.movers[id]) && id in s.current && Steps(step, s.current[id]) && C.Enabled(s.cas, step)
    case Foreign(step, key) =>
      && C.Enabled(s.cas, step)
      && (forall id :: id in s.current ==> !Steps(step, s.current[id]))
      && SparesLists(C.ContentsOf(s.cas.store), C.ContentsOf(C.Take(s.cas, step).store), key)
  }

  /** What a mover goes on with when its call ends. A mover told of a backend failure does not know
    * whether its write landed.
    */
  function AfterCall(m: L.Mover, call: C.Call<Reply>, outcome: C.Outcome<Reply>, landed: bool): L.Phase
    requires Moving(m) && (landed ==> call.phase.Saving?)
  {
    if outcome.Contended? || (outcome.BackendFailed? && !landed) then L.Aborted(L.InHand(m))
    else
      var told := if landed then C.ReplyOf(call) else outcome;
      if m.phase.Popping? then L.AfterPop(told, m.src == m.dst, !landed)
      else L.AfterPush(told, m.phase.element, !landed)
  }

  function TakeAdvance(s: System, id: nat, step: C.Step<Reply>): System
    requires Enabled(s, Advance(id, step))
  {
    var m, call := s.movers[id], s.current[id];
    var cas := C.Take(s.cas, step);
    var phase := cas.calls[call].phase;
    if !phase.Done? then s.(cas := cas)
    else
      var landed := step.BackendError? && step.landed;
      System(cas, s.movers[id := m.(phase := AfterCall(m, s.cas.calls[call], phase.outcome, landed))], s.current - {id})
  }

  function Take(s: System, step: Step): System
    requires Enabled(s, step)
  {
    match step
    case Begin(id, src, dst, fromLeft, toLeft) =>
      s.(movers := L.Take(Abs(s), L.Start(id, src, dst, fromLeft, toLeft)).movers)
    case Check(id) => s.(movers := L.Take(Abs(s), L.Check(id)).movers)
    case Send(id, call) =>
      var m := s.movers[id];
      s.(cas := C.Take(s.cas, C.Begin(call, KeyFor(m), UpdateFor(m))), current := s.current[id := call])
    case Advance(id, step) => TakeAdvance(s, id, step)
    case Foreign(step, _) => s.(cas := C.Take(s.cas, step))
  }

  predicate Possible(s: System, steps: seq<Step>)
    decreases |steps|
  {
    steps == [] || (Enabled(s, steps[0]) && Possible(Take(s, steps[0]), steps[1..]))
  }

  function Run(s: System, steps: seq<Step>): System
    requires Possible(s, steps)
    decreases |steps|
  {
    if steps == [] then s else Run(Take(s, steps[0]), steps[1..])
  }

  // ---------------------------------------------------------------------------
  // The effect of a call's step
  // ---------------------------------------------------------------------------

  /** Whether a step makes the call's closure take effect. */
  predicate Effective(cas: C.State<Reply>, step: C.Step<Reply>, call: nat)
    requires C.Enabled(cas, step) && Steps(step, call)
  {
    (step.BackendError? && step.landed) ||
    var phase := C.Take(cas, step).calls[call].phase;
    phase.Done? && (phase.outcome.Returned? || phase.outcome.Rejected?)
  }

  /** A step of a call applies its closure to the key's current content and tells the caller so, or
    * leaves the store alone.
    */
  ghost predicate StepEffect(cas: C.State<Reply>, step: C.Step<Reply>, call: nat)
    requires C.Enabled(cas, step) && Steps(step, call)
  {
    var cas', c := C.Take(cas, step), cas.calls[call];
    var before := C.ContentsOf(cas.store);
    var (after, told) := C.Apply(c.update, C.Get(before, c.key));
    if Effective(cas, step, call) then
      && C.ContentsOf(cas'.store) == C.Overwrite(before, c.key, after)
      && (step.BackendError? ==> c.phase.Saving? && C.ReplyOf(c) == told && cas'.calls[call].phase == C.Done(C.BackendFailed))
      && (!step.BackendError? ==> cas'.calls[call].phase == C.Done(told))
    else
      && C.ContentsOf(cas'.store) == before
      && (cas'.calls[call].phase.Done? ==>
            cas'.calls[call].phase.outcome.Contended? || cas'.calls[call].phase.outcome.BackendFailed?)
  }

  lemma LoadEffect(m: C.Contents, cas: C.State<Reply>, call: nat)
    requires C.Explained(m, cas) && C.Enabled(cas, C.Load(call))
    ensures StepEffect(cas, C.Load(call), call)
  {
    var c := cas.calls[call];
    var request := C.RequestOf(c.update, C.Content(C.Lookup(cas.store, c.key)));
    assert C.TokensAreMinted(cas);
    if request.Answer? {
      C.AnswerStep(cas, call, request.outcome);
    }
    hide C.Explained, C.TokensAreMinted, C.Apply, C.RequestOf;
  }

  lemma CommitEffect(m: C.Contents, cas: C.State<Reply>, call: nat, token: C.Token, told: C.Outcome<Reply>)
    requires C.Explained(m, cas) && call in cas.calls && cas.calls[call].phase.Saving?
    requires C.Matches(cas.store, cas.calls[call].key, cas.calls[call].phase.seen)
    requires C.TokenFits(cas, cas.calls[call], token)
    ensures
      var cas', c := C.Commit(cas, call, token, told), cas.calls[call];
      var (after, reply) := C.Apply(c.update, C.Get(C.ContentsOf(cas.store), c.key));
      && C.ContentsOf(cas'.store) == C.Overwrite(C.ContentsOf(cas.store), c.key, after)
      && C.ReplyOf(c) == reply && reply.Returned?
      && cas'.calls == cas.calls[call := c.(phase := C.Done(told))]
  {
    assert C.TokensAreMinted(cas) && C.CallInv(cas, call);
    C.CommitStore(cas, call, token, told);
    hide C.Explained, C.TokensAreMinted, C.Apply, C.CallInv, C.Matches, C.TokenFits, C.Commit, C.ReplyOf, C.ContentsOf;
  }

  lemma CallStepEffect(m: C.Contents, cas: C.State<Reply>, step: C.Step<Reply>, call: nat)
    requires C.Explained(m, cas) && C.Enabled(cas, step) && Steps(step, call)
    ensures StepEffect(cas, step, call)
  {
    var c := cas.calls[call];
    hide C.Explained, C.Apply, C.ContentsOf, C.Commit, C.ReplyOf, C.Overwrite;
    match step {
      case Load(_) => LoadEffect(m, cas, call);
      case Save(_, token) =>
        if C.Matches(cas.store, c.key, c.phase.seen) {
          CommitEffect(m, cas, call, token, C.ReplyOf(c));
        }
      case BackendError(_, landed, token) =>
        if landed {
          CommitEffect(m, cas, call, token, C.BackendFailed);
        }
    }
  }

  // ---------------------------------------------------------------------------
  // The invariant
  // ---------------------------------------------------------------------------

  /** A mover's current call runs its next closure and has not ended. */
  ghost predicate CurrentInv(s: System, id: nat)
    requires id in s.current
  {
    && id in s.movers && Moving(s.movers[id]) && s.current[id] in s.cas.calls
    && s.cas.calls[s.current[id]].key == KeyFor(s.movers[id])
    && s.cas.calls[s.current[id]].update == UpdateFor(s.movers[id])
    && !s.cas.calls[s.current[id]].phase.Done?
  }

  /** No two movers share a call. */
  ghost predicate OneEach(current: map<nat, nat>) {
    forall a, b :: a in current && b in current && a != b ==> current[a] != current[b]
  }

  ghost predicate Inv(m: C.Contents, s: System) {
    && C.Explained(m, s.cas)
    && (forall id :: id in s.current ==> CurrentInv(s, id))
    && OneEach(s.current)
  }

  /** A step of the loop touches one call only. */
  lemma OtherCallsKept(cas: C.State<Reply>, step: C.Step<Reply>, call: nat)
    requires C.Enabled(cas, step) && call in cas.calls && !Steps(step, call)
    ensures call in C.Take(cas, step).calls && C.Take(cas, step).calls[call] == cas.calls[call]
  {
    hide C.Apply, C.RequestOf, C.Matches;
  }

  lemma OwnCallKept(cas: C.State<Reply>, step: C.Step<Reply>, call: nat)
    requires C.Enabled(cas, step) && Steps(step, call)
    ensures call in C.Take(cas, step).calls
    ensures
      var c, c' := cas.calls[call], C.Take(cas, step).calls[call];
      c'.key == c.key && c'.update == c.update
  {
    hide C.Apply, C.RequestOf, C.Matches;
  }

  /** Movers other than the one advancing keep their current calls. */
  lemma OtherCurrents(s: System, s': System, id: nat, step: C.Step<Reply>)
    requires forall i :: i in s.current ==> CurrentInv(s, i)
    requires OneEach(s.current)
    requires id in s.current && C.Enabled(s.cas, step) && Steps(step, s.current[id]) && s'.cas == C.Take(s.cas, step)
    requires forall i :: i in s.movers && i != id ==> i in s'.movers && s'.movers[i] == s.movers[i]
    requires forall i :: i in s'.current ==> i in s.current && s'.current[i] == s.current[i]
    ensures forall i :: i in s'.current && i != id ==> CurrentInv(s', i)
  {
    hide C.Take, C.Enabled, UpdateFor, KeyFor;
    forall i | i in s'.current && i != id
      ensures CurrentInv(s', i)
    {
      assert CurrentInv(s, i);
      OtherCallsKept(s.cas, step, s.current[i]);
    }
  }

  lemma OwnCurrent(s: System, id: nat, step: C.Step<Reply>)
    requires Enabled(s, Advance(id, step)) && CurrentInv(s, id)
    ensures id in TakeAdvance(s, id, step).current ==> CurrentInv(TakeAdvance(s, id, step), id)
  {
    hide C.Take, C.Enabled, AfterCall, UpdateFor, KeyFor;
    OwnCallKept(s.cas, step, s.current[id]);
  }

  lemma AdvanceInv(m: C.Contents, s: System, id: nat, step: C.Step<Reply>)
    requires Inv(m, s) && Enabled(s, Advance(id, step))
    ensures Inv(m, TakeAdvance(s, id, step))
  {
    hide C.Explained, C.Take, C.Enabled, AfterCall, CurrentInv;
    var s' := TakeAdvance(s, id, step);
    C.StepKeeps(m, s.cas, step);
    OtherCurrents(s, s', id, step);
    OwnCurrent(s, id, step);
  }

  lemma OthersInv(m: C.Contents, s: System, s': System, step: C.Step<Reply>)
    requires Inv(m, s) && C.Enabled(s.cas, step) && (forall id :: id in s.current ==> !Steps(step, s.current[id]))
    requires s'.cas == C.Take(s.cas, step) && s'.movers == s.movers
    ensures C.Explained(m, s'.cas)
    ensures forall id :: id in s.current && id in s'.current && s'.current[id] == s.current[id] ==> CurrentInv(s', id)
  {
    C.StepKeeps(m, s.cas, step);
    hide C.Explained, C.Take, C.Enabled, UpdateFor;
    forall id | id in s.current && id in s'.current && s'.current[id] == s.current[id]
      ensures CurrentInv(s', id)
    {
      assert CurrentInv(s, id);
      OtherCallsKept(s.cas, step, s.current[id]);
    }
  }

  lemma SendInv(m: C.Contents, s: System, id: nat, call: nat)
    requires Inv(m, s) && Enabled(s, Send(id, call))
    ensures Inv(m, Take(s, Send(id, call)))
  {
    var s', step := Take(s, Send(id, call)), C.Begin(call, KeyFor(s.movers[id]), UpdateFor(s.movers[id]));
    SendShape(s, id, call);
    SentCall(s, id, call);
    OneCallEach(s, id, call);
    hide C.Explained, C.Take, C.Enabled, UpdateFor, KeyFor, CurrentInv, Take, Enabled, Steps, OneEach;
    OthersInv(m, s, s', step);
  }

  lemma SendShape(s: System, id: nat, call: nat)
    requires Enabled(s, Send(id, call))
    ensures
      var s', step := Take(s, Send(id, call)), C.Begin(call, KeyFor(s.movers[id]), UpdateFor(s.movers[id]));
      && C.Enabled(s.cas, step) && (forall i :: i in s.current ==> !Steps(step, s.current[i]))
      && s' == System(C.Take(s.cas, step), s.movers, s.current[id := call])
  {
    hide C.Take, UpdateFor, KeyFor;
  }

  lemma OneCallEach(s: System, id: nat, call: nat)
    requires forall i :: i in s.current ==> CurrentInv(s, i)
    requires OneEach(s.current)
    requires call !in s.cas.calls
    ensures OneEach(s.current[id := call])
  {
    forall i | i in s.current
      ensures s.current[i] != call
    {
      CurrentIsCall(s, i);
    }
    hide CurrentInv;
  }

  /** Beginning a call moves nothing. */
  lemma SendAbs(s: System, id: nat, call: nat)
    requires Enabled(s, Send(id, call))
    ensures Abs(Take(s, Send(id, call))) == Abs(s)
  {
    SentCall(s, id, call);
    hide C.ContentsOf, C.Take, CurrentInv;
  }

  lemma CurrentIsCall(s: System, id: nat)
    requires id in s.current && CurrentInv(s, id)
    ensures s.current[id] in s.cas.calls
  {
  }

  lemma SentCall(s: System, id: nat, call: nat)
    requires Enabled(s, Send(id, call))
    ensures
      var s' := Take(s, Send(id, call));
      CurrentInv(s', id) && C.ContentsOf(s'.cas.store) == C.ContentsOf(s.cas.store)
  {
    hide UpdateFor, KeyFor, C.ContentsOf;
  }

  lemma MoverStepInv(m: C.Contents, s: System, step: Step)
    requires Inv(m, s) && Enabled(s, step) && (step.Begin? || step.Check?)
    ensures Inv(m, Take(s, step))
  {
    var s' := Take(s, step);
    hide C.Explained;
    forall id | id in s'.current
      ensures CurrentInv(s', id)
    {
      assert CurrentInv(s, id);
    }
  }

  lemma StepKeeps(m: C.Contents, s: System, step: Step)
    requires Inv(m, s) && Enabled(s, step)
    ensures Inv(m, Take(s, step))
  {
    match step {
      case Advance(id, inner) => AdvanceInv(m, s, id, inner);
      case Send(id, call) => SendInv(m, s, id, call);
      case Foreign(inner, _) => OthersInv(m, s, Take(s, step), inner);
      case _ => MoverStepInv(m, s, step);
    }
  }

  // ---------------------------------------------------------------------------
  // Each step is one move or none
  // ---------------------------------------------------------------------------

  /** What a step amounts to for `ListMove`. */
  datatype Amount = Nothing | One(move: L.Move)

  function MoveOf(s: System, step: Step): Amount
    requires Enabled(s, step)
  {
    match step
    case Begin(id, src, dst, fromLeft, toLeft) => One(L.Start(id, src, dst, fromLeft, toLeft))
    case Check(id) => One(L.Check(id))
    case Send(_, _) => Nothing
    case Advance(id, inner) =>
      var phase := C.Take(s.cas, inner).calls[s.current[id]].phase;
      if !phase.Done? then Nothing
      else if !Effective(s.cas, inner, s.current[id]) then One(L.Refuse(id))
      else if s.movers[id].phase.Popping? then One(L.Pop(id, !inner.BackendError?))
      else One(L.Push(id, !inner.BackendError?))
    case Foreign(inner, key) =>
      var before, after := C.ContentsOf(s.cas.store), C.ContentsOf(C.Take(s.cas, inner).store);
      if C.Get(before, key) == C.Get(after, key) then Nothing else One(L.Elsewhere(key, C.Get(after, key)))
  }

  ghost predicate Simulates(s: System, step: Step)
    requires Enabled(s, step)
  {
    match MoveOf(s, step)
    case Nothing => Abs(Take(s, step)) == Abs(s)
    case One(move) => L.Enabled(Abs(s), move) && Abs(Take(s, step)) == L.Take(Abs(s), move)
  }

  /** A call that took effect is the mover's pop or push. */
  lemma EffectSimulates(s: System, id: nat, step: C.Step<Reply>)
    requires Enabled(s, Advance(id, step)) && CurrentInv(s, id)
    requires Effective(s.cas, step, s.current[id]) && StepEffect(s.cas, step, s.current[id])
    ensures
      var m, contents := s.movers[id], Abs(s).contents;
      var (after, told) := C.Apply(UpdateFor(m), C.Get(contents, KeyFor(m)));
      var phase := if m.phase.Popping? then L.AfterPop(told, m.src == m.dst, !step.BackendError?)
                   else L.AfterPush(told, m.phase.element, !step.BackendError?);
      Abs(TakeAdvance(s, id, step)) == L.System(C.Overwrite(contents, KeyFor(m), after), s.movers[id := m.(phase := phase)])
    ensures C.Take(s.cas, step).calls[s.current[id]].phase.Done?
  {
    hide C.Take, C.Apply, C.ContentsOf, C.Overwrite, UpdateFor, C.ReplyOf, C.Get, L.AfterPop, L.AfterPush;
    assert step.BackendError? ==> step.landed;
    hide C.Enabled;
  }

  /** The pop or push that a mover is about to make, spelled out. */
  lemma MoveIs(a: L.System, id: nat, heard: bool)
    requires id in a.movers && Moving(a.movers[id])
    ensures
      var m := a.movers[id];
      var (after, told) := C.Apply(UpdateFor(m), C.Get(a.contents, KeyFor(m)));
      var phase := if m.phase.Popping? then L.AfterPop(told, m.src == m.dst, heard) else L.AfterPush(told, m.phase.element, heard);
      var move := if m.phase.Popping? then L.Pop(id, heard) else L.Push(id, heard);
      && L.Enabled(a, move)
      && L.Take(a, move) == L.System(C.Overwrite(a.contents, KeyFor(m), after), a.movers[id := m.(phase := phase)])
  {
    hide C.Apply, C.Overwrite, C.Get, L.AfterPop, L.AfterPush, L.PopUpdate, L.PushEnd;
  }

  lemma EffectiveSimulates(s: System, id: nat, step: C.Step<Reply>)
    requires Enabled(s, Advance(id, step)) && CurrentInv(s, id)
    requires Effective(s.cas, step, s.current[id]) && StepEffect(s.cas, step, s.current[id])
    ensures Simulates(s, Advance(id, step))
  {
    EffectSimulates(s, id, step);
    hide C.Take, StepEffect, CurrentInv, Effective, C.Apply, C.Overwrite, C.Get, L.AfterPop, L.AfterPush, TakeAdvance, C.Enabled, L.Take, L.Enabled, UpdateFor, C.ContentsOf;
    MoveIs(Abs(s), id, !step.BackendError?);
  }

  /** A call that took no effect leaves the lists alone, and ends the mover if it ended. */
  lemma RefusalSimulates(s: System, id: nat, step: C.Step<Reply>)
    requires Enabled(s, Advance(id, step)) && CurrentInv(s, id)
    requires !Effective(s.cas, step, s.current[id]) && StepEffect(s.cas, step, s.current[id])
    ensures Simulates(s, Advance(id, step))
  {
    hide C.Take, C.Apply, C.ContentsOf, C.Overwrite, UpdateFor, C.ReplyOf, C.Get, L.AfterPop, L.AfterPush, C.Enabled;
  }

  lemma AdvanceSimulates(m: C.Contents, s: System, id: nat, step: C.Step<Reply>)
    requires Inv(m, s) && Enabled(s, Advance(id, step))
    ensures Simulates(s, Advance(id, step))
  {
    assert CurrentInv(s, id);
    CallStepEffect(m, s.cas, step, s.current[id]);
    hide Inv, StepEffect, CurrentInv, Simulates, Effective, Enabled;
    if Effective(s.cas, step, s.current[id]) {
      EffectiveSimulates(s, id, step);
    } else {
      RefusalSimulates(s, id, step);
    }
  }

  lemma ForeignSimulates(s: System, step: C.Step<Reply>, key: Key)
    requires Enabled(s, Foreign(step, key))
    ensures Simulates(s, Foreign(step, key))
  {
    var before, after := C.ContentsOf(s.cas.store), C.ContentsOf(C.Take(s.cas, step).store);
    assert SparesLists(before, after, key);
    OverwriteSame(before, key);
    hide C.Enabled, C.Take, C.ContentsOf, L.HoldsList, C.Overwrite, C.Get, Steps;
  }

  lemma OverwriteSame(contents: C.Contents, key: Key)
    ensures C.Overwrite(contents, key, C.Get(contents, key)) == contents
  {
  }

  /** Every step of the composed system is one atomic move of `ListMove`, or none. */
  lemma StepSimulates(m: C.Contents, s: System, step: Step)
    requires Inv(m, s) && Enabled(s, step)
    ensures Simulates(s, step)
  {
    match step {
      case Advance(id, inner) => AdvanceSimulates(m, s, id, inner);
      case Send(id, call) => SendAbs(s, id, call);
      case Foreign(inner, key) => ForeignSimulates(s, inner, key);
      case _ =>
    }
  }

  lemma {:induction false} RunConserves(m: C.Contents, s: System, steps: seq<Step>)
    requires Inv(m, s) && Possible(s, steps)
    ensures L.Listed(Abs(Run(s, steps))) + L.Held(Abs(Run(s, steps))) == L.Listed(Abs(s)) + L.Held(Abs(s))
    decreases |steps|
  {
    hide Inv, Enabled, Take, L.Listed, L.Held, Abs, L.Take, L.Enabled;
    if steps != [] {
      StepKeeps(m, s, steps[0]);
      StepSimulates(m, s, steps[0]);
      if MoveOf(s, steps[0]).One? {
        L.StepConserves(Abs(s), MoveOf(s, steps[0]).move);
      }
      RunConserves(m, Take(s, steps[0]), steps[1..]);
    }
  }

  ghost predicate Initial(s: System) {
    C.Initial(s.cas) && s.movers == map[] && s.current == map[]
  }

  /** Over every interleaving of the loop's own loads, saves, retries and failures, the elements in
    * lists plus those popped and not pushed stay the same bag; with no mover holding an element, the
    * lists hold exactly what they held at the start.
    */
  lemma RetriesConserve(s: System, steps: seq<Step>)
    requires Initial(s) && Possible(s, steps)
    ensures L.Listed(Abs(Run(s, steps))) + L.Held(Abs(Run(s, steps))) == L.Listed(Abs(s))
    ensures L.NothingInHand(Abs(Run(s, steps))) ==> L.Listed(Abs(Run(s, steps))) == L.Listed(Abs(s))
  {
    var m := C.ContentsOf(s.cas.store);
    C.InitiallyExplained(s.cas);
    assert Inv(m, s);
    RunConserves(m, s, steps);
    L.EmptyHands(s.movers);
    assert L.Listed(Abs(s)) + multiset{} == L.Listed(Abs(s));
    var t := Abs(Run(s, steps));
    hide Run, Possible, L.Listed, Inv, Abs;
    if L.NothingInHand(t) {
      L.EmptyHands(t.movers);
      assert L.Listed(t) + multiset{} == L.Listed(t);
    }
  }

  // ---------------------------------------------------------------------------
  // Where an answer came from and where it went
  // ---------------------------------------------------------------------------

  /** The lists and movers before, between and after the steps of a run. */
  function States(s: System, steps: seq<Step>): (states: seq<L.System>)
    requires Possible(s, steps)
    ensures |states| == |steps| + 1
    ensures states[0] == Abs(s)
    decreases |steps|
  {
    [Abs(s)] + if steps == [] then [] else States(Take(s, steps[0]), steps[1..])
  }

  /** The k-th of them is what the first k steps lead to. */
  lemma {:induction false} StatesAreRuns(s: System, steps: seq<Step>, k: nat)
    requires Possible(s, steps) && k <= |steps|
    ensures Possible(s, steps[..k]) && States(s, steps)[k] == Abs(Run(s, steps[..k]))
    decreases |steps|
  {
    hide Take, Enabled, Abs;
    if k > 0 {
      StatesAreRuns(Take(s, steps[0]), steps[1..], k - 1);
      assert steps[..k][1..] == steps[1..][..k - 1] && steps[..k][0] == steps[0];
    }
  }

  lemma StepLinks(m: C.Contents, s: System, step: Step)
    requires Inv(m, s) && Enabled(s, step)
    ensures L.Linked(Abs(s), Abs(Take(s, step)))
  {
    StepSimulates(m, s, step);
    hide Inv, Enabled, Take, Abs, L.Take, L.Enabled;
  }

  lemma {:induction false} StatesAreTrace(m: C.Contents, s: System, steps: seq<Step>)
    requires Inv(m, s) && Possible(s, steps)
    ensures L.Trace(States(s, steps))
    decreases |steps|
  {
    if steps != [] {
      StepKeeps(m, s, steps[0]);
      StepLinks(m, s, steps[0]);
      hide Inv, Enabled, Take, Abs, L.Linked;
      StatesAreTrace(m, Take(s, steps[0]), steps[1..]);
      var states, rest := States(s, steps), States(Take(s, steps[0]), steps[1..]);
      assert forall k {:trigger states[k + 1]} :: 0 <= k < |rest| ==> states[k + 1] == rest[k];
    }
  }

  /** Over every interleaving of the loop's loads, saves, retries and failures: a mover that answers an
    * element took it, in one step of the run, from the end of its source it was sent to, and in a later
    * one added it at the named end of its destination. On one key the same step does both.
    */
  lemma MovesGoEndToEnd(s: System, steps: seq<Step>, id: nat, x: bytes) returns (i: nat, j: nat)
    requires Initial(s) && Possible(s, steps)
    requires id in Run(s, steps).movers && Run(s, steps).movers[id].phase == L.Finished(Some(x))
    ensures
      var states := States(s, steps);
      && i < |steps| && L.TakesFromItsEnd(states[i], states[i + 1], id, x)
      && id in states[i].movers
      && var m := Run(s, steps).movers[id];
         && states[i].movers[id].(phase := m.phase) == m
         && (m.src != m.dst ==> i < j < |steps| && L.PutsAtItsEnd(states[j], states[j + 1], id, x))
  {
    var m := C.ContentsOf(s.cas.store);
    C.InitiallyExplained(s.cas);
    assert Inv(m, s);
    StatesAreTrace(m, s, steps);
    StatesAreRuns(s, steps, |steps|);
    assert steps[..|steps|] == steps;
    assert L.BeforePop(Abs(s), id) && Abs(Run(s, steps)).movers == Run(s, steps).movers;
    hide *;
    i, j := L.AnswersTravel(States(s, steps), id, x);
  }
}
