/** The optimistic-locking loop over the DynamoDB tables themselves: a load is two reads, a save or
  * delete a preparation and a transaction, and everything may interleave.
  *
  * Every reply is one atomic application of the call's closure to the register current at some moment
  * of the call, unless it rests on a load that missed a live key (`EveryReplyIsAtomic`); replies that
  * wrote are never affected, and no two of them share a moment (`WritesDoNotCollide`). Loads miss
  * nothing in runs in which no load reads its row after the key's kind has moved on
  * (`NothingMissedUnlessKindMoves`).
  */
module DynamoCas {
  import opened Bytes
  import opened Values
  import C = Cas
  import D = Dynamo

  /** How a call came by its outcome: by a write that landed as operation `op`, or by an answer. */
  datatype How = ByWrite(op: nat) | ByAnswer(missed: bool) | Unknown

  datatype Phase<+R> =
    | Loading(attempt: nat, op: nat)
    | Waiting(attempt: nat, op: nat, found: D.Found, reply: R)
    | Ended(outcome: C.Outcome<R>, how: How)

  /** `began` is the position in the trace of the registers current when the call began. */
  datatype Call<+R> = Call(key: Key, update: C.Update<R>, began: nat, phase: Phase<R>)

  /** `landed` gives for every transaction that went through the position in the trace it changed. */
  datatype State<+R> = State(db: D.State, calls: map<nat, Call<R>>, landed: map<nat, nat>)

  /** Steps of calls, and steps of the backend: those of the calls' own operations, of unconditional
    * writers and of other loads.
    */
  datatype Step<+R> =
    | Begin(id: nat, key: Key, update: C.Update<R>, op: nat)
    | Decide(id: nat, op: nat)
    | Hear(id: nat, op: nat)
    | Fail(id: nat)
    | Backend(step: D.Step)

  // ---------------------------------------------------------------------------
  // Steps
  // ---------------------------------------------------------------------------

  function Content(found: D.Found): Option<StoredValue> {
    if found.Got? then Some(found.entry) else None
  }

  function ConditionFor(found: D.Found): D.WriteCondition {
    if found.Got? then D.IfMatch(found.token) else D.CreateOnly
  }

  predicate Enabled<R>(s: State<R>, step: Step<R>) {
    match step
    case Begin(id, _, _, op) => id !in s.calls && op !in s.db.ops
    case Decide(id, op) =>
      && id in s.calls && s.calls[id].phase.Loading? && op !in s.db.ops
      && s.calls[id].phase.op in s.db.ops && s.db.ops[s.calls[id].phase.op].LoadDone?
    case Hear(id, op) =>
      && id in s.calls && s.calls[id].phase.Waiting? && op !in s.db.ops
      && s.calls[id].phase.op in s.db.ops && s.db.ops[s.calls[id].phase.op].Finished?
    case Fail(id) => id in s.calls && !s.calls[id].phase.Ended?
    case Backend(step) => D.Enabled(s.db, step)
  }

  function SetPhase<R>(s: State<R>, id: nat, phase: Phase<R>): State<R>
    requires id in s.calls
  {
    s.(calls := s.calls[id := s.calls[id].(phase := phase)])
  }

  function Start<R>(s: State<R>, op: nat, what: D.Op): State<R>
    requires D.Enabled(s.db, D.Begin(op, what))
  {
    s.(db := D.Take(s.db, D.Begin(op, what)))
  }

  /** The load has answered: run the closure, then answer or send the write. */
  function TakeDecide<R>(s: State<R>, id: nat, op: nat): State<R>
    requires Enabled(s, Decide(id, op))
  {
    var c := s.calls[id];
    var load := s.db.ops[c.phase.op];
    var found := load.found;
    match C.RequestOf(c.update, Content(found))
    case Answer(outcome) =>
      SetPhase(s, id, Ended(outcome, ByAnswer(found.Missing? && D.LiveThroughout(s.db.trace, load.since, c.key))))
    case SaveEntry(entry, r) =>
      Start(SetPhase(s, id, Waiting(c.phase.attempt, op, found, r)), op, D.SaveStart(c.key, entry, ConditionFor(found)))
    case DeleteEntry(r) =>
      if found.Got? then
        Start(SetPhase(s, id, Waiting(c.phase.attempt, op, found, r)), op, D.DeleteStart(c.key, D.DeleteIfMatch(found.token)))
      else s
  }

  /** The write has answered: reply, try again or give up. */
  function TakeHear<R>(s: State<R>, id: nat, op: nat): State<R>
    requires Enabled(s, Hear(id, op))
  {
    var c := s.calls[id];
    match s.db.ops[c.phase.op].reply
    case Done => SetPhase(s, id, Ended(C.Returned(c.phase.reply), ByWrite(c.phase.op)))
    case Malformed => SetPhase(s, id, Ended(C.BackendFailed, Unknown))
    case Contended =>
      var next := c.phase.attempt + 1;
      if next < C.MAX_CAS_RETRIES then Start(SetPhase(s, id, Loading(next, op)), op, D.LoadStart(c.key))
      else SetPhase(s, id, Ended(C.Contended, Unknown))
  }

  /** A transaction that goes through is recorded with the position of the registers it changes. */
  function TakeBackend<R>(s: State<R>, step: D.Step): State<R>
    requires D.Enabled(s.db, step)
  {
    State(
      D.Take(s.db, step), s.calls,
      if step.Transact? && D.Passes(s.db.tables, s.db.ops[step.id]) && |s.db.trace| > 0
      then s.landed[step.id := |s.db.trace| - 1] else s.landed)
  }

  function Take<R>(s: State<R>, step: Step<R>): State<R>
    requires Enabled(s, step)
  {
    match step
    case Begin(id, key, update, op) =>
      var began := if |s.db.trace| > 0 then |s.db.trace| - 1 else 0;
      Start(s.(calls := s.calls[id := Call(key, update, began, Loading(0, op))]), op, D.LoadStart(key))
    case Decide(id, op) => TakeDecide(s, id, op)
    case Hear(id, op) => TakeHear(s, id, op)
    case Fail(id) => SetPhase(s, id, Ended(C.BackendFailed, Unknown))
    case Backend(step) => TakeBackend(s, step)
  }

  predicate Possible<R>(s: State<R>, steps: seq<Step<R>>)
    decreases |steps|
  {
    steps == [] || (Enabled(s, steps[0]) && Possible(Take(s, steps[0]), steps[1..]))
  }

  function Run<R>(s: State<R>, steps: seq<Step<R>>): State<R>
    requires Possible(s, steps)
    decreases |steps|
  {
    if steps == [] then s else Run(Take(s, steps[0]), steps[1..])
  }

  function Initial<R>(): State<R> {
    State(D.Empty, map[], map[])
  }

  // ---------------------------------------------------------------------------
  // Atomic effects
  // ---------------------------------------------------------------------------

  function At(r: D.Registers, key: Key): Option<StoredValue> {
    if key in r then Some(r[key].entry) else None
  }

  /** The step from position m to the next applied the closure to the key and touched nothing else. */
  ghost predicate WroteAt<R>(trace: seq<D.Registers>, m: nat, key: Key, update: C.Update<R>, outcome: C.Outcome<R>) {
    m + 1 < |trace| && Applies(trace[m], trace[m + 1], key, update, outcome)
  }

  ghost predicate Applies<R>(r: D.Registers, r': D.Registers, key: Key, update: C.Update<R>, outcome: C.Outcome<R>) {
    C.Apply(update, At(r, key)) == (At(r', key), outcome) && forall k :: k != key ==> At(r, k) == At(r', k)
  }

  /** At position m the closure, applied to the key, changes nothing and gives this outcome. */
  ghost predicate AnsweredAt<R>(trace: seq<D.Registers>, m: nat, key: Key, update: C.Update<R>, outcome: C.Outcome<R>) {
    m < |trace| && C.Apply(update, At(trace[m], key)) == (At(trace[m], key), outcome)
  }

  /** At position m the key held an entry that had expired, and the closure, applied to nothing,
    * writes nothing and gives this outcome.
    */
  ghost predicate AnsweredExpired<R>(trace: seq<D.Registers>, m: nat, key: Key, update: C.Update<R>, outcome: C.Outcome<R>) {
    m < |trace| && key in trace[m] && trace[m][key].entry.expiresAtMs.Some? && C.Apply(update, None) == (None, outcome)
  }

  ghost predicate Answered<R>(trace: seq<D.Registers>, from: nat, key: Key, update: C.Update<R>, outcome: C.Outcome<R>) {
    exists m :: from <= m && (AnsweredAt(trace, m, key, update, outcome) || AnsweredExpired(trace, m, key, update, outcome))
  }

  // ---------------------------------------------------------------------------
  // The invariant
  // ---------------------------------------------------------------------------

  /** The operation is a load of the key that read nothing before the call began. */
  predicate LoadsFor(op: D.Op, key: Key, began: nat) {
    match op
    case LoadStart(k) => k == key
    case LoadRow(k, _, since) => k == key && began <= since
    case LoadGc(k, _, _, since) => k == key && began <= since
    case LoadDone(k, _, since) => k == key && began <= since
    case _ => false
  }

  /** The operation is the save or delete that the closure asked for, in whatever stage. */
  predicate WritesFor<R>(op: D.Op, key: Key, request: C.Request<R>, found: D.Found) {
    match op
    case SaveStart(k, entry, cond) => k == key && request.SaveEntry? && entry == request.entry && cond == ConditionFor(found)
    case SaveTransact(k, entry, cond, _) =>
      k == key && request.SaveEntry? && entry == request.entry && cond == ConditionFor(found)
    case DeleteStart(k, cond) => k == key && request.DeleteEntry? && found.Got? && cond == D.DeleteIfMatch(found.token)
    case DeleteTransact(k, kind, Some(v)) =>
      k == key && request.DeleteEntry? && found.Got? && D.ParseToken(found.token) == Some((kind, v))
    case Finished(k, _) => k == key
    case _ => false
  }

  /** The operation sends what the closure asked for, given what the load found. */
  ghost predicate Sends<R>(db: D.State, op: nat, c: Call<R>, found: D.Found, reply: R) {
    var request := C.RequestOf(c.update, Content(found));
    && op in db.ops && WritesFor(db.ops[op], c.key, request, found)
    && !request.Answer? && request.reply == reply
  }

  ghost predicate FoundLive(trace: seq<D.Registers>, began: nat, key: Key, found: D.Found) {
    found.Got? ==> D.Live(trace, began, key, D.Versioned(found.entry, found.token))
  }

  ghost predicate LandedFor<R>(s: State<R>, op: nat, c: Call<R>, outcome: C.Outcome<R>) {
    && op in s.landed && c.began <= s.landed[op]
    && WroteAt(s.db.trace, s.landed[op], c.key, c.update, outcome)
  }

  ghost predicate CallInv<R>(s: State<R>, c: Call<R>) {
    c.began < |s.db.trace| &&
    match c.phase
    case Loading(_, op) => op in s.db.ops && LoadsFor(s.db.ops[op], c.key, c.began)
    case Waiting(_, op, found, reply) =>
      && Sends(s.db, op, c, found, reply) && FoundLive(s.db.trace, c.began, c.key, found)
      && (s.db.ops[op] == D.Finished(c.key, D.Done) ==> LandedFor(s, op, c, C.Returned(reply)))
    case Ended(outcome, ByWrite(op)) => LandedFor(s, op, c, outcome)
    case Ended(outcome, ByAnswer(missed)) => missed || Answered(s.db.trace, c.began, c.key, c.update, outcome)
    case Ended(outcome, Unknown) => outcome.Contended? || outcome.BackendFailed?
  }

  /** Each landed transaction changed the registers at a position of its own. */
  ghost predicate LandedInv<R>(s: State<R>) {
    && (forall op :: op in s.landed ==>
          op in s.db.ops && (s.db.ops[op].Finished? || s.db.ops[op].LoadDone?) && s.landed[op] + 1 < |s.db.trace|)
    && (forall a, b :: a in s.landed && b in s.landed && a != b ==> s.landed[a] != s.landed[b])
  }

  function OpOf<R>(c: Call<R>): Option<nat> {
    match c.phase
    case Loading(_, op) => Some(op)
    case Waiting(_, op, _, _) => Some(op)
    case Ended(_, ByWrite(op)) => Some(op)
    case _ => None
  }

  /** No two calls share an operation. */
  ghost predicate OwnOps<R>(s: State<R>) {
    && (forall id :: id in s.calls && OpOf(s.calls[id]).Some? ==> OpOf(s.calls[id]).value in s.db.ops)
    && (forall a, b :: a in s.calls && b in s.calls && a != b && OpOf(s.calls[a]).Some? ==>
          OpOf(s.calls[a]) != OpOf(s.calls[b]))
  }

  ghost predicate Inv<R>(s: State<R>) {
    && D.Inv(s.db) && LandedInv(s) && OwnOps(s)
    && (forall id :: id in s.calls ==> CallInv(s, s.calls[id]))
  }

  // ---------------------------------------------------------------------------
  // What lasts
  // ---------------------------------------------------------------------------

  lemma WroteAtLasts<R>(trace: seq<D.Registers>, r: D.Registers, m: nat, key: Key, update: C.Update<R>, outcome: C.Outcome<R>)
    requires WroteAt(trace, m, key, update, outcome)
    ensures WroteAt(trace + [r], m, key, update, outcome)
  {
    hide C.Apply;
    assert (trace + [r])[m] == trace[m] && (trace + [r])[m + 1] == trace[m + 1];
  }

  lemma AnsweredLasts<R>(trace: seq<D.Registers>, r: D.Registers, from: nat, key: Key, update: C.Update<R>, outcome: C.Outcome<R>)
    requires Answered(trace, from, key, update, outcome)
    ensures Answered(trace + [r], from, key, update, outcome)
  {
    hide C.Apply;
    var m :| from <= m && (AnsweredAt(trace, m, key, update, outcome) || AnsweredExpired(trace, m, key, update, outcome));
    assert (trace + [r])[m] == trace[m];
    assert AnsweredAt(trace + [r], m, key, update, outcome) || AnsweredExpired(trace + [r], m, key, update, outcome);
  }

  /** A later state in which a call's own operation is untouched. */
  ghost predicate Extends<R>(s: State<R>, s': State<R>) {
    && |s'.db.trace| == |s.db.trace| + 1 && s'.db.trace == s.db.trace + [s'.db.trace[|s.db.trace|]]
    && (forall op :: op in s.landed ==> op in s'.landed && s'.landed[op] == s.landed[op])
  }

  lemma FoundLasts<R>(s: State<R>, s': State<R>, began: nat, key: Key, found: D.Found)
    requires Extends(s, s') && FoundLive(s.db.trace, began, key, found)
    ensures FoundLive(s'.db.trace, began, key, found)
  {
    if found.Got? {
      D.LiveExtends(s.db.trace, began, key, D.Versioned(found.entry, found.token), s'.db.trace[|s.db.trace|]);
    }
  }

  lemma LandedLasts<R>(s: State<R>, s': State<R>, op: nat, c: Call<R>, outcome: C.Outcome<R>)
    requires Extends(s, s') && LandedFor(s, op, c, outcome)
    ensures LandedFor(s', op, c, outcome)
  {
    WroteAtLasts(s.db.trace, s'.db.trace[|s.db.trace|], s.landed[op], c.key, c.update, outcome);
  }

  lemma CallLasts<R>(s: State<R>, s': State<R>, c: Call<R>)
    requires Extends(s, s') && CallInv(s, c)
    requires OpOf(c).Some? && !c.phase.Ended? ==>
      OpOf(c).value in s'.db.ops && OpOf(c).value in s.db.ops && s'.db.ops[OpOf(c).value] == s.db.ops[OpOf(c).value]
    ensures CallInv(s', c)
  {
    hide LandedFor, FoundLive, Answered, WroteAt, C.RequestOf;
    match c.phase {
      case Loading(_, _) =>
      case Waiting(_, op, found, reply) =>
        FoundLasts(s, s', c.began, c.key, found);
        if s.db.ops[op] == D.Finished(c.key, D.Done) {
          LandedLasts(s, s', op, c, C.Returned(reply));
        }
      case Ended(outcome, ByWrite(op)) => LandedLasts(s, s', op, c, outcome);
      case Ended(outcome, ByAnswer(missed)) =>
        if !missed {
          AnsweredLasts(s.db.trace, s'.db.trace[|s.db.trace|], c.began, c.key, c.update, outcome);
        }
      case Ended(_, Unknown) =>
    }
  }

  // ---------------------------------------------------------------------------
  // Backend steps
  // ---------------------------------------------------------------------------

  lemma TakeOps(db: D.State, step: D.Step)
    requires D.Enabled(db, step)
    ensures
      var db' := D.Take(db, step);
      && db'.ops.Keys == db.ops.Keys + {step.id} && step.id in db'.ops
      && (forall op :: op in db.ops && op != step.id ==> db'.ops[op] == db.ops[op])
  {
    hide D.AfterIndex, D.AfterRow, D.AfterToken, D.AfterTransact, D.TransactTables, D.RegistersOf, D.Passes;
  }

  lemma LoadGoesOn(db: D.State, step: D.Step, key: Key, began: nat)
    requires D.Enabled(db, step) && !step.Begin? && step.id in db.ops
    requires LoadsFor(db.ops[step.id], key, began) && began < |db.trace|
    ensures step.id in D.Take(db, step).ops && LoadsFor(D.Take(db, step).ops[step.id], key, began)
  {
    hide D.TransactTables, D.RegistersOf, D.Passes, D.EncodeToken;
  }

  lemma WriteGoesOn<R>(db: D.State, step: D.Step, key: Key, request: C.Request<R>, found: D.Found)
    requires D.Enabled(db, step) && !step.Begin? && step.id in db.ops
    requires WritesFor(db.ops[step.id], key, request, found)
    ensures
      var db' := D.Take(db, step);
      && step.id in db'.ops && WritesFor(db'.ops[step.id], key, request, found)
      && (db'.ops[step.id] == D.Finished(key, D.Done) ==>
            step.Transact? && D.Passes(db.tables, db.ops[step.id]) && !db.ops[step.id].Finished?)
  {
    hide D.TransactTables, D.RegistersOf, D.Passes, D.EncodeToken, D.ParseToken;
  }

  /** A transaction that goes through applies the closure to the register of that moment. */
  lemma CommitIsEffect<R>(db: D.State, id: nat, version: D.Version, c: Call<R>, found: D.Found)
    requires D.Inv(db) && D.Enabled(db, D.Transact(id, version))
    requires id in db.ops && D.Passes(db.tables, db.ops[id])
    requires
      var request := C.RequestOf(c.update, Content(found));
      && !request.Answer? && WritesFor(db.ops[id], c.key, request, found)
    requires FoundLive(db.trace, c.began, c.key, found)
    ensures
      var trace := D.Take(db, D.Transact(id, version)).trace;
      WroteAt(trace, |db.trace| - 1, c.key, c.update, C.Returned(C.RequestOf(c.update, Content(found)).reply))
  {
    assert db.ops[id].SaveTransact? || db.ops[id].DeleteTransact?;
    hide D.Take, D.Enabled, D.RegistersOf, D.TransactTables, D.Passes, C.RequestOf, C.Apply, At, Applies, WritesFor;
    CommitTrace(db, id, version);
    if db.ops[id].SaveTransact? {
      SaveIsEffect(db, id, version, c, found);
    } else {
      DeleteIsEffect(db, id, version, c, found);
    }
  }

  lemma SaveIsEffect<R>(db: D.State, id: nat, version: D.Version, c: Call<R>, found: D.Found)
    requires D.Inv(db) && id in db.ops && db.ops[id].SaveTransact? && D.Passes(db.tables, db.ops[id])
    requires WritesFor(db.ops[id], c.key, C.RequestOf(c.update, Content(found)), found)
    requires FoundLive(db.trace, c.began, c.key, found)
    ensures
      var r' := D.RegistersOf(D.TransactTables(db.tables, db.ops[id], version));
      Applies(D.RegistersOf(db.tables), r', c.key, c.update, C.Returned(C.RequestOf(c.update, Content(found)).reply))
  {
    hide D.RegistersOf, D.TransactTables, D.Passes, C.RequestOf, C.Apply, D.Inv, FoundLive;
    SaveCommits(db, id, version);
    if found.Got? {
      FoundIsCurrent(db, c.began, c.key, found);
    }
    assert At(D.RegistersOf(db.tables), c.key) == Content(found);
    RequestIsApply(c.update, Content(found));
  }

  lemma DeleteIsEffect<R>(db: D.State, id: nat, version: D.Version, c: Call<R>, found: D.Found)
    requires D.Inv(db) && id in db.ops && db.ops[id].DeleteTransact? && D.Passes(db.tables, db.ops[id])
    requires WritesFor(db.ops[id], c.key, C.RequestOf(c.update, Content(found)), found)
    requires FoundLive(db.trace, c.began, c.key, found)
    ensures
      var r' := D.RegistersOf(D.TransactTables(db.tables, db.ops[id], version));
      Applies(D.RegistersOf(db.tables), r', c.key, c.update, C.Returned(C.RequestOf(c.update, Content(found)).reply))
  {
    hide D.RegistersOf, D.TransactTables, D.Passes, C.RequestOf, C.Apply, D.Inv, FoundLive, D.ParseToken, D.EncodeToken;
    DeleteCommits(db, id, version);
    D.TokenRoundTrip(found.token, db.ops[id].kind, db.ops[id].expected.value);
    FoundIsCurrent(db, c.began, c.key, found);
    assert At(D.RegistersOf(db.tables), c.key) == Content(found);
    RequestIsApply(c.update, Content(found));
  }

  lemma CommitTrace(db: D.State, id: nat, version: D.Version)
    requires D.Inv(db) && D.Enabled(db, D.Transact(id, version))
    ensures
      var trace := D.Take(db, D.Transact(id, version)).trace;
      && |db.trace| > 0 && trace == db.trace + [trace[|db.trace|]] && |trace| == |db.trace| + 1
      && trace[|db.trace| - 1] == D.RegistersOf(db.tables)
      && trace[|db.trace|] == D.RegistersOf(D.TransactTables(db.tables, db.ops[id], version))
  {
    hide D.RegistersOf, D.TransactTables, D.Passes, D.TablesInv, D.OpInv;
  }

  lemma SaveCommits(db: D.State, id: nat, version: D.Version)
    requires D.Inv(db) && id in db.ops && db.ops[id].SaveTransact? && db.ops[id].cond != D.Any
    requires D.Passes(db.tables, db.ops[id])
    ensures
      var op, r := db.ops[id], D.RegistersOf(db.tables);
      && D.RegistersOf(D.TransactTables(db.tables, op, version))
         == r[op.key := D.Versioned(op.entry, D.EncodeToken(KindOf(op.entry.value), version))]
      && (op.cond.CreateOnly? ==> op.key !in r)
      && (op.cond.IfMatch? ==> op.key in r && r[op.key].token == op.cond.token)
  {
    hide D.Passes, D.OpInv, D.TablesInv, D.RegistersOf, D.TransactTables, D.TraceInv, D.EncodeToken;
    var op := db.ops[id];
    assert D.OpInv(db, op);
    D.SaveRefines(db, op, version);
    hide D.Inv;
  }

  lemma DeleteCommits(db: D.State, id: nat, version: D.Version)
    requires D.Inv(db) && id in db.ops && db.ops[id].DeleteTransact? && db.ops[id].expected.Some?
    requires D.Passes(db.tables, db.ops[id])
    ensures
      var op, r := db.ops[id], D.RegistersOf(db.tables);
      && D.RegistersOf(D.TransactTables(db.tables, op, version)) == r - {op.key}
      && op.key in r && r[op.key].token == D.EncodeToken(op.kind, op.expected.value)
  {
    var op := db.ops[id];
    assert D.DeletePasses(db.tables, op.key, op.kind, op.expected);
    assert D.TransactTables(db.tables, op, version) == D.DeleteTables(db.tables, op.key, op.kind);
    hide D.Passes, D.OpInv, D.TablesInv, D.RegistersOf, D.TransactTables, D.DeleteTables, D.DeletePasses, D.TraceInv, D.EncodeToken;
    D.DeleteOutcome(db.tables, db.minted, op.key, op.kind, op.expected);
    hide D.Inv;
  }

  lemma LastTrace(db: D.State)
    requires D.Inv(db)
    ensures D.TraceInv(db) && db.trace != [] && db.trace[|db.trace| - 1] == D.RegistersOf(db.tables)
  {
    hide D.RegistersOf, D.TablesInv, D.OpInv, D.MintedRegisters;
  }

  /** A register that carries the token of a loaded entry holds that entry. */
  lemma FoundIsCurrent(db: D.State, began: nat, key: Key, found: D.Found)
    requires D.Inv(db) && found.Got? && FoundLive(db.trace, began, key, found)
    requires key in D.RegistersOf(db.tables)
    ensures D.RegistersOf(db.tables)[key].token == found.token ==> D.RegistersOf(db.tables)[key].entry == found.entry
  {
    hide D.RegistersOf, D.Inv, D.TraceInv;
    LastTrace(db);
    var v := D.Versioned(found.entry, found.token);
    var m :| began <= m < |db.trace| && key in db.trace[m] && db.trace[m][key] == v;
    if D.RegistersOf(db.tables)[key].token == found.token {
      D.TokenNamesEntry(db, m, |db.trace| - 1, key, key);
    }
  }

  /** What a closure asks for is its effect. */
  lemma RequestIsApply<R>(update: C.Update<R>, seen: Option<StoredValue>)
    ensures
      match C.RequestOf(update, seen)
      case SaveEntry(entry, r) => C.Apply(update, seen) == (Some(entry), C.Returned(r))
      case DeleteEntry(r) => seen.Some? && C.Apply(update, seen) == (None, C.Returned(r))
      case Answer(outcome) => C.Apply(update, seen) == (seen, outcome) && (outcome.Returned? || outcome.Rejected?)
  {
  }

  /** Operations that are over take no more steps. */
  lemma OverStaysOver(db: D.State, step: D.Step, op: nat)
    requires D.Enabled(db, step) && op in db.ops && (db.ops[op].Finished? || db.ops[op].LoadDone?)
    ensures op != step.id
  {
  }

  lemma TransactEnds(db: D.State, step: D.Step)
    requires D.Enabled(db, step) && step.Transact?
    ensures
      var op := D.Take(db, step).ops[step.id];
      op.Finished? || op.LoadDone?
  {
    hide D.TransactTables, D.RegistersOf, D.Passes;
  }

  lemma TraceGrows(db: D.State, step: D.Step)
    requires D.Enabled(db, step)
    ensures
      var trace := D.Take(db, step).trace;
      |trace| == |db.trace| + 1 && trace == db.trace + [trace[|db.trace|]]
  {
    hide D.AfterIndex, D.AfterRow, D.AfterToken, D.AfterTransact, D.TransactTables, D.RegistersOf, D.Passes;
  }

  lemma BackendExtends<R>(s: State<R>, step: D.Step)
    requires LandedInv(s) && D.Enabled(s.db, step)
    ensures Extends(s, TakeBackend(s, step))
  {
    hide D.Take, D.RegistersOf, D.Passes, D.Enabled;
    TraceGrows(s.db, step);
    if step.id in s.landed {
      OverStaysOver(s.db, step, step.id);
    }
  }

  lemma BackendLands<R>(s: State<R>, step: D.Step)
    requires LandedInv(s) && D.Enabled(s.db, step)
    ensures LandedInv(TakeBackend(s, step))
  {
    var s' := TakeBackend(s, step);
    hide D.Take, D.RegistersOf, D.Passes, D.Enabled;
    TakeOps(s.db, step);
    TraceGrows(s.db, step);
    forall op | op in s.landed
      ensures op != step.id && op in s'.db.ops && s'.db.ops[op] == s.db.ops[op]
    {
      OverStaysOver(s.db, step, op);
    }
    if step.Transact? {
      TransactEnds(s.db, step);
    }
    LandedShape(s, step);
    hide TakeBackend, LandedInv;
    LandedGrows(s, s', step.id);
  }

  lemma LandedGrows<R>(s: State<R>, s': State<R>, id: nat)
    requires LandedInv(s) && |s'.db.trace| == |s.db.trace| + 1
    requires forall op :: op in s.landed ==> op in s'.db.ops && s'.db.ops[op] == s.db.ops[op]
    requires s'.landed == s.landed ||
      (&& |s.db.trace| > 0 && s'.landed == s.landed[id := |s.db.trace| - 1] && id in s'.db.ops
       && (s'.db.ops[id].Finished? || s'.db.ops[id].LoadDone?))
    ensures LandedInv(s')
  {
  }

  lemma LandedShape<R>(s: State<R>, step: D.Step)
    requires D.Enabled(s.db, step)
    ensures
      var s' := TakeBackend(s, step);
      s'.landed == s.landed || (step.Transact? && |s.db.trace| > 0 && s'.landed == s.landed[step.id := |s.db.trace| - 1])
  {
    hide D.Take, D.Passes, D.Enabled;
  }

  lemma LoadingGoesOn<R>(s: State<R>, step: D.Step, c: Call<R>)
    requires LandedInv(s) && CallInv(s, c) && D.Enabled(s.db, step)
    requires c.phase.Loading? && c.phase.op == step.id
    ensures CallInv(TakeBackend(s, step), c)
  {
    assert !step.Begin?;
    hide D.Take, D.Enabled, D.Passes, LoadsFor;
    TraceGrows(s.db, step);
    LoadGoesOn(s.db, step, c.key, c.began);
  }

  lemma SendingGoesOn<R>(db: D.State, step: D.Step, c: Call<R>, found: D.Found, reply: R)
    requires D.Enabled(db, step) && Sends(db, step.id, c, found, reply)
    ensures Sends(D.Take(db, step), step.id, c, found, reply)
    ensures D.Take(db, step).ops[step.id] == D.Finished(c.key, D.Done) ==>
      step.Transact? && D.Passes(db.tables, db.ops[step.id])
  {
    assert !step.Begin?;
    hide D.Take, D.Enabled, D.Passes, WritesFor, C.RequestOf;
    WriteGoesOn(db, step, c.key, C.RequestOf(c.update, Content(found)), found);
  }

  lemma LandsNow<R>(s: State<R>, step: D.Step, c: Call<R>, found: D.Found, reply: R)
    requires D.Inv(s.db) && D.Enabled(s.db, step) && Sends(s.db, step.id, c, found, reply)
    requires step.Transact? && D.Passes(s.db.tables, s.db.ops[step.id])
    requires c.began < |s.db.trace| && FoundLive(s.db.trace, c.began, c.key, found)
    ensures LandedFor(TakeBackend(s, step), step.id, c, C.Returned(reply))
  {
    hide D.Take, D.Enabled, D.Passes, D.Inv, WritesFor, C.RequestOf, WroteAt, FoundLive;
    CommitIsEffect(s.db, step.id, step.version, c, found);
  }

  lemma WaitingGoesOn<R>(s: State<R>, step: D.Step, c: Call<R>)
    requires D.Inv(s.db) && LandedInv(s) && CallInv(s, c) && D.Enabled(s.db, step)
    requires c.phase.Waiting? && c.phase.op == step.id
    ensures CallInv(TakeBackend(s, step), c)
  {
    var s', found, reply := TakeBackend(s, step), c.phase.found, c.phase.reply;
    hide D.Take, D.Enabled, D.Passes, D.Inv, Sends, FoundLive, LandedFor, LandedInv;
    TraceGrows(s.db, step);
    SendingGoesOn(s.db, step, c, found, reply);
    BackendExtends(s, step);
    FoundLasts(s, s', c.began, c.key, found);
    if s'.db.ops[step.id] == D.Finished(c.key, D.Done) {
      LandsNow(s, step, c, found, reply);
    }
  }

  lemma OwnCallGoesOn<R>(s: State<R>, step: D.Step, c: Call<R>)
    requires D.Inv(s.db) && LandedInv(s) && CallInv(s, c) && D.Enabled(s.db, step)
    requires !c.phase.Ended? && OpOf(c) == Some(step.id)
    ensures CallInv(TakeBackend(s, step), c)
  {
    hide D.Inv, LandedInv, CallInv, D.Enabled, TakeBackend;
    if c.phase.Loading? {
      LoadingGoesOn(s, step, c);
    } else {
      WaitingGoesOn(s, step, c);
    }
  }

  lemma BackendKeeps<R>(s: State<R>, step: D.Step)
    requires Inv(s) && D.Enabled(s.db, step)
    ensures Inv(TakeBackend(s, step))
  {
    hide D.Take, D.Enabled, D.Inv, D.Passes, LandedInv, Extends, CallInv;
    var s' := TakeBackend(s, step);
    D.StepKeeps(s.db, step);
    BackendLands(s, step);
    BackendExtends(s, step);
    TakeOps(s.db, step);
    forall id | id in s.calls
      ensures CallInv(s', s.calls[id])
    {
      var c := s.calls[id];
      if OpOf(c) == Some(step.id) && !c.phase.Ended? {
        OwnCallGoesOn(s, step, c);
      } else {
        CallLasts(s, s', c);
      }
    }
  }

  // ---------------------------------------------------------------------------
  // Steps of calls
  // ---------------------------------------------------------------------------

  /** The backend did nothing, or began the operation `op`. */
  ghost predicate Quiet<R>(s: State<R>, s': State<R>, op: nat) {
    && s'.landed == s.landed && D.Inv(s'.db)
    && (s'.db == s.db ||
        (&& op !in s.db.ops && Extends(s, s') && s'.db.ops.Keys == s.db.ops.Keys + {op}
         && forall o :: o in s.db.ops ==> s'.db.ops[o] == s.db.ops[o]))
  }

  lemma StartIsQuiet<R>(s: State<R>, op: nat, what: D.Op)
    requires D.Inv(s.db) && D.Enabled(s.db, D.Begin(op, what))
    ensures Quiet(s, Start(s, op, what), op)
    ensures op in Start(s, op, what).db.ops && Start(s, op, what).db.ops[op] == what
  {
    hide D.Inv, D.RegistersOf, D.Enabled;
    var step := D.Begin(op, what);
    D.StepKeeps(s.db, step);
    TraceGrows(s.db, step);
    TakeOps(s.db, step);
    BeginsWith(s.db, op, what);
    hide D.Take;
  }

  lemma BeginsWith(db: D.State, op: nat, what: D.Op)
    requires D.Enabled(db, D.Begin(op, what))
    ensures
      var db' := D.Take(db, D.Begin(op, what));
      op in db'.ops && db'.ops[op] == what && op !in db.ops
  {
    hide D.RegistersOf;
  }

  /** Calls other than the one stepping keep their invariant. */
  lemma OthersKeep<R>(s: State<R>, s': State<R>, op: nat, id: nat, c: Call<R>)
    requires Inv(s) && Quiet(s, s', op)
    requires s'.calls == s.calls[id := c] && CallInv(s', c)
    requires id in s.calls && OpOf(c).Some? && OpOf(c) != OpOf(s.calls[id]) ==> OpOf(c) == Some(op)
    requires id !in s.calls && OpOf(c).Some? ==> OpOf(c) == Some(op)
    requires OpOf(c) == Some(op) && s'.db == s.db ==> id in s.calls && OpOf(s.calls[id]) == Some(op)
    ensures Inv(s')
  {
    hide D.Inv, CallInv;
    forall i | i in s'.calls
      ensures CallInv(s', s'.calls[i])
    {
      if i != id && s'.db != s.db {
        CallLasts(s, s', s.calls[i]);
      } else if i != id {
        CallSame(s, s', s.calls[i]);
      }
    }
    assert LandedInv(s') by { hide Quiet; LandedQuiet(s, s', op); }
    hide LandedInv, Extends;
    OwnOpsKept(s, s', op, id, c);
  }

  lemma CallSame<R>(s: State<R>, s': State<R>, c: Call<R>)
    requires s'.db == s.db && s'.landed == s.landed && CallInv(s, c)
    ensures CallInv(s', c)
  {
  }

  lemma LandedQuiet<R>(s: State<R>, s': State<R>, op: nat)
    requires LandedInv(s) && Quiet(s, s', op)
    ensures LandedInv(s')
  {
    hide D.Inv;
  }

  lemma OwnOpsKept<R>(s: State<R>, s': State<R>, op: nat, id: nat, c: Call<R>)
    requires OwnOps(s) && Quiet(s, s', op)
    requires s'.calls == s.calls[id := c]
    requires id in s.calls && OpOf(c).Some? && OpOf(c) != OpOf(s.calls[id]) ==> OpOf(c) == Some(op)
    requires id !in s.calls && OpOf(c).Some? ==> OpOf(c) == Some(op)
    requires OpOf(c) == Some(op) && s'.db == s.db ==> id in s.calls && OpOf(s.calls[id]) == Some(op)
    ensures OwnOps(s')
  {
    hide D.Inv, Extends, OpOf;
  }

  lemma BeginKeeps<R>(s: State<R>, id: nat, key: Key, update: C.Update<R>, op: nat)
    requires Inv(s) && Enabled(s, Begin(id, key, update, op))
    ensures Inv(Take(s, Begin(id, key, update, op)))
  {
    var s' := Take(s, Begin(id, key, update, op));
    LastTrace(s.db);
    hide D.Inv, D.Take, LandedInv, OwnOps, D.TraceInv;
    StartIsQuiet(s, op, D.LoadStart(key));
    TraceGrows(s.db, D.Begin(op, D.LoadStart(key)));
    hide Extends;
    assert CallInv(s', s'.calls[id]);
    assert Quiet(s, s', op) by { QuietCalls(s, Start(s, op, D.LoadStart(key)), s', op); }
    hide Quiet, CallInv;
    OthersKeep(s, s', op, id, s'.calls[id]);
  }

  lemma QuietCalls<R>(s: State<R>, t: State<R>, t': State<R>, op: nat)
    requires Quiet(s, t, op) && t'.db == t.db && t'.landed == t.landed
    ensures Quiet(s, t', op)
  {
    hide D.Inv;
  }

  /** What an answered load makes of its closure's answer. */
  lemma AnswerIsAtomic<R>(s: State<R>, c: Call<R>, load: D.Op, outcome: C.Outcome<R>)
    requires D.OpInv(s.db, load) && load.LoadDone? && load.key == c.key && c.began <= load.since
    requires C.RequestOf(c.update, Content(load.found)) == C.Answer(outcome)
    requires !(load.found.Missing? && D.LiveThroughout(s.db.trace, load.since, c.key))
    ensures Answered(s.db.trace, c.began, c.key, c.update, outcome)
  {
    RequestIsApply(c.update, Content(load.found));
    hide C.RequestOf, C.Apply;
    var trace := s.db.trace;
    match load.found {
      case Got(entry, token) =>
        var m :| load.since <= m < |trace| && c.key in trace[m] && trace[m][c.key] == D.Versioned(entry, token);
        assert AnsweredAt(trace, m, c.key, c.update, outcome);
      case Expired =>
        var m :| load.since <= m < |trace| && c.key in trace[m] && trace[m][c.key].entry.expiresAtMs.Some?;
        assert AnsweredExpired(trace, m, c.key, c.update, outcome);
      case Missing =>
        var m :| load.since <= m < |trace| && c.key !in trace[m];
        assert AnsweredAt(trace, m, c.key, c.update, outcome);
    }
  }

  /** A call's next phase after its load answered, with the operation it began, if any. */
  lemma DecideAnswers<R>(s: State<R>, id: nat, op: nat)
    requires Inv(s) && Enabled(s, Decide(id, op))
    requires C.RequestOf(s.calls[id].update, Content(s.db.ops[s.calls[id].phase.op].found)).Answer?
    ensures Inv(TakeDecide(s, id, op))
  {
    var c, s' := s.calls[id], TakeDecide(s, id, op);
    var load := s.db.ops[c.phase.op];
    var outcome := C.RequestOf(c.update, Content(load.found)).outcome;
    var missed := load.found.Missing? && D.LiveThroughout(s.db.trace, load.since, c.key);
    assert s' == SetPhase(s, id, Ended(outcome, ByAnswer(missed)));
    CallFacts(s, id);
    LoadFacts(s, id, op);
    hide Inv, D.Inv, LandedInv, OwnOps, CallInv, C.RequestOf, Answered, D.OpInv, D.LiveThroughout, TakeDecide, Enabled, FoundLive;
    if !missed {
      AnswerIsAtomic(s, c, load, outcome);
    }
    assert CallInv(s', s'.calls[id]) by { AnsweredCall(s', s'.calls[id]); }
    QuietNothing(s, s', op);
    hide Quiet;
    OthersKeep(s, s', op, id, s'.calls[id]);
  }

  lemma AnsweredCall<R>(s: State<R>, c: Call<R>)
    requires c.began < |s.db.trace| && c.phase.Ended? && c.phase.how.ByAnswer?
    requires c.phase.how.missed || Answered(s.db.trace, c.began, c.key, c.update, c.phase.outcome)
    ensures CallInv(s, c)
  {
    hide Answered;
  }

  lemma QuietNothing<R>(s: State<R>, s': State<R>, op: nat)
    requires D.Inv(s.db) && s'.db == s.db && s'.landed == s.landed
    ensures Quiet(s, s', op)
  {
    hide D.Inv;
  }

  /** The operation that carries out what the closure asked for. */
  function Sent<R>(c: Call<R>, found: D.Found): D.Op
    requires !C.RequestOf(c.update, Content(found)).Answer?
    requires C.RequestOf(c.update, Content(found)).DeleteEntry? ==> found.Got?
  {
    match C.RequestOf(c.update, Content(found))
    case SaveEntry(entry, _) => D.SaveStart(c.key, entry, ConditionFor(found))
    case DeleteEntry(_) => D.DeleteStart(c.key, D.DeleteIfMatch(found.token))
    case Answer(_) => D.LoadStart(c.key)
  }

  lemma InvHasDb<R>(s: State<R>)
    requires Inv(s)
    ensures D.Inv(s.db)
  {
    hide D.Inv, LandedInv, OwnOps, CallInv;
  }

  lemma CallFacts<R>(s: State<R>, id: nat)
    requires Inv(s) && id in s.calls
    ensures D.Inv(s.db) && CallInv(s, s.calls[id])
  {
    hide D.Inv, LandedInv, OwnOps, CallInv;
  }

  /** The answered load of a call that is about to decide. */
  lemma LoadFacts<R>(s: State<R>, id: nat, op: nat)
    requires Inv(s) && Enabled(s, Decide(id, op))
    ensures
      var c := s.calls[id];
      var load := s.db.ops[c.phase.op];
      && load.LoadDone? && load.key == c.key && c.began <= load.since && c.began < |s.db.trace| && D.OpInv(s.db, load)
      && FoundLive(s.db.trace, c.began, c.key, load.found)
  {
    CallFacts(s, id);
    hide Inv;
    var c := s.calls[id];
    var load := s.db.ops[c.phase.op];
    assert D.OpInv(s.db, load) by { hide D.OpInv, D.TablesInv, D.TraceInv; }
    assert LoadsFor(load, c.key, c.began);
    hide D.Inv, CallInv;
    SinceBegan(s.db, load, c);
    hide D.OpInv, FoundLive;
  }

  lemma DecideShape<R>(s: State<R>, id: nat, op: nat)
    requires Enabled(s, Decide(id, op))
    ensures
      var c, s' := s.calls[id], TakeDecide(s, id, op);
      var found := s.db.ops[c.phase.op].found;
      var request := C.RequestOf(c.update, Content(found));
      && (request.DeleteEntry? ==> found.Got?)
      && (!request.Answer? ==>
            && WritesFor(Sent(c, found), c.key, request, found)
            && D.Enabled(s.db, D.Begin(op, Sent(c, found)))
            && s' == Start(SetPhase(s, id, Waiting(c.phase.attempt, op, found, request.reply)), op, Sent(c, found)))
  {
    RequestIsApply(s.calls[id].update, Content(s.db.ops[s.calls[id].phase.op].found));
    hide D.Take, C.RequestOf, C.Apply;
  }

  lemma DecideSends<R>(s: State<R>, id: nat, op: nat)
    requires Inv(s) && Enabled(s, Decide(id, op))
    requires !C.RequestOf(s.calls[id].update, Content(s.db.ops[s.calls[id].phase.op].found)).Answer?
    ensures Inv(TakeDecide(s, id, op))
  {
    var c, s' := s.calls[id], TakeDecide(s, id, op);
    var found := s.db.ops[c.phase.op].found;
    var reply := C.RequestOf(c.update, Content(found)).reply;
    CallFacts(s, id);
    LoadFacts(s, id, op);
    DecideShape(s, id, op);
    hide Inv, D.OpInv;
    var what := Sent(c, found);
    var c' := c.(phase := Waiting(c.phase.attempt, op, found, reply));
    assert s'.db == D.Take(s.db, D.Begin(op, what)) && s'.landed == s.landed && s'.calls == s.calls[id := c'];
    hide D.Inv, D.Take, LandedInv, OwnOps, C.RequestOf, TakeDecide, WritesFor, FoundLive, Sent, D.Enabled;
    StartIsQuiet(s, op, what);
    QuietCalls(s, Start(s, op, what), s', op);
    SentCall(s, s', c, c', op, what);
    hide Quiet, CallInv;
    OthersKeep(s, s', op, id, c');
  }

  /** A call that has just sent its write. */
  lemma SentCall<R>(s: State<R>, s': State<R>, c: Call<R>, c': Call<R>, op: nat, what: D.Op)
    requires Quiet(s, s', op) && s'.db != s.db && op in s'.db.ops && s'.db.ops[op] == what && !what.Finished?
    requires c'.phase.Waiting? && c' == c.(phase := c'.phase) && c'.phase.op == op
    requires
      var found, request := c'.phase.found, C.RequestOf(c.update, Content(c'.phase.found));
      && !request.Answer? && request.reply == c'.phase.reply && WritesFor(what, c.key, request, found)
      && c.began < |s.db.trace| && FoundLive(s.db.trace, c.began, c.key, found)
    ensures CallInv(s', c')
  {
    hide D.Inv, WritesFor, C.RequestOf, FoundLive, LandedFor;
    FoundLasts(s, s', c.began, c.key, c'.phase.found);
  }

  lemma SinceBegan<R>(db: D.State, load: D.Op, c: Call<R>)
    requires D.OpInv(db, load) && load.LoadDone? && load.key == c.key && c.began <= load.since
    ensures FoundLive(db.trace, c.began, c.key, load.found)
  {
  }

  lemma HearShape<R>(s: State<R>, id: nat, op: nat)
    requires Enabled(s, Hear(id, op))
    ensures
      var c, s' := s.calls[id], TakeHear(s, id, op);
      && id in s'.calls
      && (s'.calls[id].phase.Loading? ==>
            && D.Enabled(s.db, D.Begin(op, D.LoadStart(c.key))) && s'.calls[id].phase.op == op
            && s' == Start(SetPhase(s, id, s'.calls[id].phase), op, D.LoadStart(c.key)))
      && (!s'.calls[id].phase.Loading? ==> s'.calls[id].phase.Ended? && s' == SetPhase(s, id, s'.calls[id].phase))
      && (s'.calls[id].phase.Ended? && OpOf(s'.calls[id]).Some? ==> OpOf(s'.calls[id]) == OpOf(c))
  {
    hide D.Take;
  }

  /** A call that goes back to loading. */
  lemma RetryKeeps<R>(s: State<R>, id: nat, op: nat, attempt: nat)
    requires Inv(s) && id in s.calls && op !in s.db.ops
    requires D.Enabled(s.db, D.Begin(op, D.LoadStart(s.calls[id].key)))
    ensures Inv(Start(SetPhase(s, id, Loading(attempt, op)), op, D.LoadStart(s.calls[id].key)))
  {
    hide D.Inv, D.Take, LandedInv, OwnOps, D.Enabled, Inv;
    var c := s.calls[id];
    var what, c' := D.LoadStart(c.key), c.(phase := Loading(attempt, op));
    var s' := Start(SetPhase(s, id, Loading(attempt, op)), op, what);
    CallFacts(s, id);
    assert c.began < |s.db.trace|;
    hide CallInv;
    InvHasDb(s);
    StartIsQuiet(s, op, what);
    QuietCalls(s, Start(s, op, what), s', op);
    LoadingCall(s, s', c, c', op);
    hide Quiet;
    OthersKeep(s, s', op, id, c');
  }

  lemma LoadingCall<R>(s: State<R>, s': State<R>, c: Call<R>, c': Call<R>, op: nat)
    requires Quiet(s, s', op) && op in s'.db.ops && s'.db.ops[op] == D.LoadStart(c.key) && c.began < |s.db.trace|
    requires c' == c.(phase := c'.phase) && c'.phase.Loading? && c'.phase.op == op
    ensures CallInv(s', c')
  {
    hide D.Inv;
  }

  lemma HearKeeps<R>(s: State<R>, id: nat, op: nat)
    requires Inv(s) && Enabled(s, Hear(id, op))
    ensures Inv(TakeHear(s, id, op))
  {
    var s' := TakeHear(s, id, op);
    HearShape(s, id, op);
    CallFacts(s, id);
    hide Inv;
    if s'.calls[id].phase.Loading? {
      RetryKeeps(s, id, op, s'.calls[id].phase.attempt);
    } else {
      HearEnds(s, id, op);
      hide D.Inv, LandedInv, OwnOps, CallInv, TakeHear, Enabled;
      QuietNothing(s, s', op);
      OthersKeep(s, s', op, id, s'.calls[id]);
    }
  }

  lemma HearEnds<R>(s: State<R>, id: nat, op: nat)
    requires Enabled(s, Hear(id, op)) && CallInv(s, s.calls[id])
    ensures
      var s' := TakeHear(s, id, op);
      s'.calls[id].phase.Ended? ==> CallInv(s', s'.calls[id])
  {
    hide WroteAt, C.RequestOf, FoundLive;
  }

  lemma FailKeeps<R>(s: State<R>, id: nat)
    requires Inv(s) && Enabled(s, Fail(id))
    ensures Inv(Take(s, Fail(id)))
  {
    var s' := Take(s, Fail(id));
    CallFacts(s, id);
    hide Inv, D.Inv, LandedInv, OwnOps;
    assert CallInv(s', s'.calls[id]);
    QuietNothing(s, s', 0);
    hide CallInv, Quiet;
    OthersKeep(s, s', 0, id, s'.calls[id]);
  }

  lemma StepKeeps<R>(s: State<R>, step: Step<R>)
    requires Inv(s) && Enabled(s, step)
    ensures Inv(Take(s, step))
  {
    hide Inv, C.RequestOf, D.Take, D.Enabled;
    match step {
      case Begin(id, key, update, op) => BeginKeeps(s, id, key, update, op);
      case Decide(id, op) =>
        if C.RequestOf(s.calls[id].update, Content(s.db.ops[s.calls[id].phase.op].found)).Answer? {
          DecideAnswers(s, id, op);
        } else {
          DecideSends(s, id, op);
        }
      case Hear(id, op) => HearKeeps(s, id, op);
      case Fail(id) => FailKeeps(s, id);
      case Backend(step) => BackendKeeps(s, step);
    }
  }

  lemma {:induction false} InvThroughout<R>(s: State<R>, steps: seq<Step<R>>)
    requires Inv(s) && Possible(s, steps)
    ensures Inv(Run(s, steps))
    decreases |steps|
  {
    hide Inv, Take, Enabled;
    if steps != [] {
      StepKeeps(s, steps[0]);
      InvThroughout(Take(s, steps[0]), steps[1..]);
    }
  }

  lemma InitialInv<R>()
    ensures Inv(Initial<R>())
  {
    D.EmptyInv();
    hide D.Inv;
  }

  // ---------------------------------------------------------------------------
  // The theorems
  // ---------------------------------------------------------------------------

  predicate Replied<R>(c: Call<R>) {
    c.phase.Ended? && (c.phase.outcome.Returned? || c.phase.outcome.Rejected?)
  }

  predicate Missed<R>(c: Call<R>) {
    c.phase.Ended? && c.phase.how == ByAnswer(true)
  }

  /** In every run over the tables, every reply that does not rest on a missed load is one atomic
    * application of the call's closure at some moment of the call: a write changes the key's register
    * from the content current there to what the closure makes of it and touches no other key, and an
    * answer without a write is what the closure makes of the content current there.
    */
  lemma EveryReplyIsAtomic<R>(steps: seq<Step<R>>, id: nat)
    requires Possible(Initial(), steps) && id in Run(Initial(), steps).calls
    requires Replied(Run(Initial(), steps).calls[id]) && !Missed(Run(Initial(), steps).calls[id])
    ensures
      Run(Initial(), steps).calls[id].phase.Ended? &&
      AtomicReply(Run(Initial(), steps), Run(Initial(), steps).calls[id])
  {
    hide Run, Possible, Inv, Initial, AtomicReply, Missed;
    InitialInv<R>();
    InvThroughout(Initial(), steps);
    ReplyIsAtomic(Run(Initial(), steps), id);
  }

  /** A call's reply is one atomic application of its closure, with or without a write. */
  ghost predicate AtomicReply<R>(s: State<R>, c: Call<R>)
    requires c.phase.Ended?
  {
    match c.phase.how
    case ByWrite(op) => LandedFor(s, op, c, c.phase.outcome)
    case ByAnswer(_) => Answered(s.db.trace, c.began, c.key, c.update, c.phase.outcome)
    case Unknown => false
  }

  lemma ReplyIsAtomic<R>(s: State<R>, id: nat)
    requires Inv(s) && id in s.calls && Replied(s.calls[id]) && !Missed(s.calls[id])
    ensures AtomicReply(s, s.calls[id])
  {
    CallFacts(s, id);
    hide Inv, D.Inv, LandedFor, Answered;
  }

  /** No two calls that wrote took effect at the same moment, so no update stands for two. */
  lemma WritesDoNotCollide<R>(steps: seq<Step<R>>, a: nat, b: nat)
    requires Possible(Initial(), steps) && a in Run(Initial(), steps).calls && b in Run(Initial(), steps).calls && a != b
    requires Run(Initial(), steps).calls[a].phase.Ended? && Run(Initial(), steps).calls[a].phase.how.ByWrite?
    requires Run(Initial(), steps).calls[b].phase.Ended? && Run(Initial(), steps).calls[b].phase.how.ByWrite?
    ensures
      var s := Run(Initial(), steps);
      var x, y := s.calls[a].phase.how.op, s.calls[b].phase.how.op;
      x in s.landed && y in s.landed && s.landed[x] != s.landed[y]
  {
    InitialInv<R>();
    InvThroughout(Initial(), steps);
    var s := Run(Initial(), steps);
    hide Run, Possible, D.Inv, WroteAt;
    assert CallInv(s, s.calls[a]) && CallInv(s, s.calls[b]);
    assert OpOf(s.calls[a]) != OpOf(s.calls[b]);
  }

  // ---------------------------------------------------------------------------
  // When nothing is missed
  // ---------------------------------------------------------------------------

  /** Loads that answered "missing" had a moment at which the key was. */
  ghost predicate Honest(db: D.State) {
    forall op :: op in db.ops ==> HonestOp(db.trace, db.ops[op])
  }

  ghost predicate HonestOp(trace: seq<D.Registers>, op: D.Op) {
    op.LoadDone? && op.found.Missing? ==> op.since < |trace| && !D.LiveThroughout(trace, op.since, op.key)
  }

  lemma HonestLasts(trace: seq<D.Registers>, r: D.Registers, op: D.Op)
    requires HonestOp(trace, op)
    ensures HonestOp(trace + [r], op)
  {
    if op.LoadDone? && op.found.Missing? {
      var m :| op.since <= m < |trace| && op.key !in trace[m];
      assert (trace + [r])[m] == trace[m];
    }
  }

  lemma OwnOpHonest(db: D.State, step: D.Step)
    requires D.Inv(db) && D.Enabled(db, step) && !D.ReadsTooLate(db, step)
    ensures step.id in D.Take(db, step).ops && HonestOp(D.Take(db, step).trace, D.Take(db, step).ops[step.id])
  {
    match step {
      case ReadIndex(id) => IndexHonest(db, id);
      case ReadRow(id, expired) =>
        if !expired {
          D.StepKeeps(db, step);
          D.RowReadMisses(db, id);
          hide D.RegistersOf, D.TablesInv, D.TraceInv;
        }
      case _ => hide D.RegistersOf, D.TransactTables, D.Passes, D.Inv;
    }
  }

  lemma IndexHonest(db: D.State, id: nat)
    requires D.Enabled(db, D.ReadIndex(id))
    ensures
      var db' := D.Take(db, D.ReadIndex(id));
      id in db'.ops && HonestOp(db'.trace, db'.ops[id])
  {
    var r := D.RegistersOf(db.tables);
    var key := db.ops[id].key;
    assert key !in db.tables.index ==> key !in r;
    assert (db.trace + [r])[|db.trace|] == r;
    hide D.RegistersOf;
  }

  lemma HonestStep(db: D.State, step: D.Step)
    requires D.Inv(db) && Honest(db) && D.Enabled(db, step) && !D.ReadsTooLate(db, step)
    ensures Honest(D.Take(db, step))
  {
    var db' := D.Take(db, step);
    OwnOpHonest(db, step);
    TakeOps(db, step);
    TraceGrows(db, step);
    hide D.Inv, D.Take, D.Enabled, D.ReadsTooLate, HonestOp;
    forall op | op in db'.ops
      ensures HonestOp(db'.trace, db'.ops[op])
    {
      if op != step.id {
        HonestLasts(db.trace, db'.trace[|db.trace|], db.ops[op]);
      }
    }
  }

  ghost predicate NothingMissed<R>(s: State<R>) {
    Honest(s.db) && forall id :: id in s.calls ==> !Missed(s.calls[id])
  }

  /** No load reads its row after the index has moved to another kind and that row has gone. */
  predicate OnTime<R>(s: State<R>, step: Step<R>) {
    step.Backend? ==> !D.ReadsTooLate(s.db, step.step)
  }

  predicate AllOnTime<R>(s: State<R>, steps: seq<Step<R>>)
    requires Possible(s, steps)
    decreases |steps|
  {
    steps == [] || (OnTime(s, steps[0]) && AllOnTime(Take(s, steps[0]), steps[1..]))
  }

  lemma StartHonest<R>(s: State<R>, op: nat, what: D.Op)
    requires D.Inv(s.db) && Honest(s.db) && D.Enabled(s.db, D.Begin(op, what))
    ensures Honest(Start(s, op, what).db)
  {
    HonestStep(s.db, D.Begin(op, what));
  }

  lemma HearMissesNothing<R>(s: State<R>, id: nat, op: nat)
    requires D.Inv(s.db) && NothingMissed(s) && Enabled(s, Hear(id, op))
    ensures NothingMissed(TakeHear(s, id, op))
  {
    HearShape(s, id, op);
    HearAnswersNothing(s, id, op);
    hide D.Inv, D.Take, Honest, TakeHear, Enabled;
    if TakeHear(s, id, op).calls[id].phase.Loading? {
      StartHonest(s, op, D.LoadStart(s.calls[id].key));
    }
  }

  lemma HearAnswersNothing<R>(s: State<R>, id: nat, op: nat)
    requires Enabled(s, Hear(id, op))
    ensures id in TakeHear(s, id, op).calls && !Missed(TakeHear(s, id, op).calls[id])
  {
    hide D.Take;
  }

  lemma BackendMissesNothing<R>(s: State<R>, step: D.Step)
    requires D.Inv(s.db) && NothingMissed(s) && D.Enabled(s.db, step) && !D.ReadsTooLate(s.db, step)
    ensures NothingMissed(TakeBackend(s, step))
  {
    hide D.Inv, D.Take, Honest, D.Passes, D.Enabled, D.ReadsTooLate, Missed;
    HonestStep(s.db, step);
  }

  lemma StepMissesNothing<R>(s: State<R>, step: Step<R>)
    requires Inv(s) && NothingMissed(s) && Enabled(s, step) && OnTime(s, step)
    ensures NothingMissed(Take(s, step))
  {
    InvHasDb(s);
    hide Inv, D.Inv, D.Take, Honest, D.ReadsTooLate, TakeDecide, TakeHear, TakeBackend, NothingMissed;
    match step {
      case Begin(id, key, update, op) => BeginMissesNothing(s, id, key, update, op);
      case Decide(id, op) => DecideMissesNothing(s, id, op);
      case Hear(id, op) => HearMissesNothing(s, id, op);
      case Fail(id) => FailMissesNothing(s, id);
      case Backend(inner) => BackendMissesNothing(s, inner);
    }
  }

  lemma BeginMissesNothing<R>(s: State<R>, id: nat, key: Key, update: C.Update<R>, op: nat)
    requires D.Inv(s.db) && NothingMissed(s) && Enabled(s, Begin(id, key, update, op))
    ensures NothingMissed(Take(s, Begin(id, key, update, op)))
  {
    hide D.Inv, D.Take, Honest;
    StartHonest(s, op, D.LoadStart(key));
  }

  lemma FailMissesNothing<R>(s: State<R>, id: nat)
    requires NothingMissed(s) && Enabled(s, Fail(id))
    ensures NothingMissed(Take(s, Fail(id)))
  {
    hide Honest, D.Take;
  }

  lemma DecideMissesNothing<R>(s: State<R>, id: nat, op: nat)
    requires Inv(s) && NothingMissed(s) && Enabled(s, Decide(id, op))
    ensures NothingMissed(TakeDecide(s, id, op))
  {
    var c := s.calls[id];
    var load := s.db.ops[c.phase.op];
    CallFacts(s, id);
    LoadFacts(s, id, op);
    hide Inv;
    assert HonestOp(s.db.trace, load);
    DecideShape(s, id, op);
    hide D.Inv, D.Take, Honest, CallInv, C.RequestOf, D.LiveThroughout, WritesFor, FoundLive, D.OpInv;
    if !C.RequestOf(c.update, Content(load.found)).Answer? {
      StartHonest(s, op, Sent(c, load.found));
    }
  }

  lemma {:induction false} RunMissesNothing<R>(s: State<R>, steps: seq<Step<R>>)
    requires Inv(s) && NothingMissed(s) && Possible(s, steps) && AllOnTime(s, steps)
    ensures NothingMissed(Run(s, steps))
    decreases |steps|
  {
    hide Inv, Take, Enabled, OnTime, NothingMissed;
    if steps != [] {
      StepKeeps(s, steps[0]);
      StepMissesNothing(s, steps[0]);
      RunMissesNothing(Take(s, steps[0]), steps[1..]);
    }
  }

  /** In every run in which no load reads its row after the key's kind has moved on, no call rests on a
    * missed load: `EveryReplyIsAtomic` then holds of every reply.
    */
  lemma NothingMissedUnlessKindMoves<R>(steps: seq<Step<R>>, id: nat)
    requires Possible(Initial(), steps) && AllOnTime(Initial(), steps) && id in Run(Initial(), steps).calls
    ensures !Missed(Run(Initial(), steps).calls[id])
  {
    InitialInv<R>();
    assert NothingMissed(Initial<R>());
    RunMissesNothing(Initial(), steps);
    hide Run, Possible, AllOnTime;
  }

  // ---------------------------------------------------------------------------
  // Contention
  // ---------------------------------------------------------------------------

  /** The step tells the call that its write was refused. */
  predicate IsRefusal<R>(s: State<R>, step: Step<R>, id: nat)
    requires Enabled(s, step)
  {
    step.Hear? && step.id == id && s.db.ops[s.calls[id].phase.op].reply.Contended?
  }

  /** How often a call is told so in the course of a run. */
  function Refusals<R>(s: State<R>, steps: seq<Step<R>>, id: nat): nat
    requires Possible(s, steps)
    decreases |steps|
  {
    if steps == [] then 0
    else (if IsRefusal(s, steps[0], id) then 1 else 0) + Refusals(Take(s, steps[0]), steps[1..], id)
  }

  /** A call with this many refusals behind it: under way after fewer than five, given up after five. */
  predicate Tried<R>(s: State<R>, id: nat, refusals: nat) {
    if id !in s.calls then refusals == 0
    else match s.calls[id].phase
      case Loading(attempt, _) => attempt == refusals < 5
      case Waiting(attempt, _, _, _) => attempt == refusals < 5
      case Ended(outcome, _) => if outcome.Contended? then refusals == 5 else refusals < 5
  }

  lemma AnswersAreNotContended<R>(update: C.Update<R>, seen: Option<StoredValue>)
    ensures C.RequestOf(update, seen).Answer? ==> !C.RequestOf(update, seen).outcome.Contended?
  {
  }

  lemma StepTries<R>(s: State<R>, step: Step<R>, id: nat, refusals: nat)
    requires Enabled(s, step) && Tried(s, id, refusals)
    ensures Tried(Take(s, step), id, refusals + if IsRefusal(s, step, id) then 1 else 0)
  {
    hide D.Take, D.Enabled, D.LiveThroughout, D.Passes, C.RequestOf;
    if step.Decide? {
      var found := s.db.ops[s.calls[step.id].phase.op].found;
      AnswersAreNotContended(s.calls[step.id].update, Content(found));
    }
  }

  lemma {:induction false} RunTries<R>(s: State<R>, steps: seq<Step<R>>, id: nat, refusals: nat)
    requires Possible(s, steps) && Tried(s, id, refusals)
    ensures Tried(Run(s, steps), id, refusals + Refusals(s, steps, id))
    decreases |steps|
  {
    hide *;
    RunUnfolds(s, steps, id);
    if steps != [] {
      StepTries(s, steps[0], id, refusals);
      var s', rest, more := Take(s, steps[0]), steps[1..], if IsRefusal(s, steps[0], id) then 1 else 0;
      RunTries(s', rest, id, refusals + more);
    }
  }

  lemma RunUnfolds<R>(s: State<R>, steps: seq<Step<R>>, id: nat)
    requires Possible(s, steps)
    ensures steps == [] ==> Run(s, steps) == s && Refusals(s, steps, id) == 0
    ensures steps != [] ==>
      && Enabled(s, steps[0]) && Possible(Take(s, steps[0]), steps[1..])
      && Run(s, steps) == Run(Take(s, steps[0]), steps[1..])
      && Refusals(s, steps, id) ==
         (if IsRefusal(s, steps[0], id) then 1 else 0) + Refusals(Take(s, steps[0]), steps[1..], id)
  {
    hide Take, Enabled, IsRefusal;
  }

  /** In every run a call gives up with contention exactly when its fifth write has been refused, and
    * none is refused more often.
    */
  lemma ContentionIsFiveRefusals<R>(steps: seq<Step<R>>, id: nat)
    requires Possible(Initial<R>(), steps) && id in Run(Initial<R>(), steps).calls
    ensures
      var phase, n := Run(Initial<R>(), steps).calls[id].phase, Refusals(Initial<R>(), steps, id);
      n <= 5 && (phase.Ended? && phase.outcome.Contended? <==> n == 5)
  {
    assert Tried(Initial<R>(), id, 0);
    RunTries(Initial<R>(), steps, id, 0);
    hide Run, Possible, Refusals;
  }
}
