/** The DynamoDB backend: an index table `key -> kind` and six data tables, one per kind.
  *
  * Any number of operations run interleaved; reads of one table and multi-table transactions are
  * the atomic steps. The theorems relate the tables to one versioned register per key: the
  * register holds the row that the index row points at (`Registers`).
  */
module Dynamo {
  import opened Bytes
  import opened Values

  type Version = string

  type Token = string

  // ---------------------------------------------------------------------------
  // Version tokens: "<kind>:<version>"
  // ---------------------------------------------------------------------------

  function KindName(k: Kind): string {
    match k
    case KString => "string"
    case KHash => "hash"
    case KList => "list"
    case KSet => "set"
    case KZSet => "zset"
    case KStream => "stream"
  }

  function ParseKind(s: string): Option<Kind> {
    if s == "string" then Some(KString)
    else if s == "hash" then Some(KHash)
    else if s == "list" then Some(KList)
    else if s == "set" then Some(KSet)
    else if s == "zset" then Some(KZSet)
    else if s == "stream" then Some(KStream)
    else None
  }

  function EncodeToken(kind: Kind, version: Version): Token {
    KindName(kind) + ":" + version
  }

  /** Position of the first colon, or the length. */
  function Colon(s: string): (i: nat)
    ensures i <= |s|
    ensures forall j :: 0 <= j < i ==> s[j] != ':'
    ensures i < |s| ==> s[i] == ':'
  {
    if s == "" || s[0] == ':' then 0 else 1 + Colon(s[1..])
  }

  function ParseToken(token: Token): Option<(Kind, Version)> {
    var i := Colon(token);
    if i == |token| then None
    else
      match ParseKind(token[..i])
      case None => None
      case Some(kind) => Some((kind, token[i + 1..]))
  }

  lemma ParseKindName(k: Kind)
    ensures ParseKind(KindName(k)) == Some(k)
    ensures forall j :: 0 <= j < |KindName(k)| ==> KindName(k)[j] != ':'
  {
  }

  /** Tokens decode to exactly what was encoded, and only encodings decode. */
  lemma TokenRoundTrip(token: Token, kind: Kind, version: Version)
    ensures ParseToken(token) == Some((kind, version)) <==> token == EncodeToken(kind, version)
  {
    ParseKindName(kind);
    if token == EncodeToken(kind, version) {
      var n := |KindName(kind)|;
      assert token[n] == ':';
      assert Colon(token) == n;
      assert token[..n] == KindName(kind);
    }
    if ParseToken(token) == Some((kind, version)) {
      var i := Colon(token);
      assert token == token[..i] + [token[i]] + token[i + 1..];
      assert token[..i] == KindName(kind);
    }
  }

  // ---------------------------------------------------------------------------
  // Tables and operations
  // ---------------------------------------------------------------------------

  datatype Row = Row(entry: StoredValue, version: Version)

  datatype Tables = Tables(index: map<Key, Kind>, data: map<(Kind, Key), Row>)

  datatype WriteCondition = Any | CreateOnly | IfMatch(token: Token)

  datatype DeleteCondition = DeleteAny | DeleteIfMatch(token: Token)

  datatype Reply = Done | Contended | Malformed

  /** What a load tells its caller; an expired entry reads as missing. */
  datatype Found = Got(entry: StoredValue, token: Token) | Missing | Expired

  /** An operation in progress: what it has read so far. `since` is a position in the trace. */
  datatype Op =
    | LoadStart(key: Key)
    | LoadRow(key: Key, kind: Kind, since: nat)
    | LoadGc(key: Key, kind: Kind, version: Version, since: nat)
    | LoadDone(key: Key, found: Found, since: nat)
    | SaveStart(key: Key, entry: StoredValue, cond: WriteCondition)
    | SaveTransact(key: Key, entry: StoredValue, cond: WriteCondition, observed: Option<Kind>)
    | DeleteStart(key: Key, dcond: DeleteCondition)
    | DeleteTransact(key: Key, kind: Kind, expected: Option<Version>)
    | Finished(key: Key, reply: Reply)

  datatype Versioned = Versioned(entry: StoredValue, token: Token)

  type Registers = map<Key, Versioned>

  /** `minted` maps every version ever written to its entry; `trace` lists the register contents
    * after every step so far.
    */
  datatype State = State(
    tables: Tables,
    minted: map<Version, StoredValue>,
    ops: map<nat, Op>,
    trace: seq<Registers>)

  datatype Step =
    | Begin(id: nat, op: Op)
    | ReadIndex(id: nat)
    | ReadRow(id: nat, expired: bool)
    | Prepare(id: nat)
    | Transact(id: nat, version: Version)

  /** The register of a key: the data row named by its index row. */
  function RegistersOf(t: Tables): Registers {
    map key | key in t.index && (t.index[key], key) in t.data ::
      var row := t.data[(t.index[key], key)];
      Versioned(row.entry, EncodeToken(t.index[key], row.version))
  }

  // ---------------------------------------------------------------------------
  // Transactions
  // ---------------------------------------------------------------------------

  function TokenVersion(cond: WriteCondition): Option<Version> {
    match cond
    case IfMatch(token) => (match ParseToken(token) case Some((_, v)) => Some(v) case None => None)
    case _ => None
  }

  /** The conditions on the data put and the index put. */
  predicate SavePasses(t: Tables, key: Key, entry: StoredValue, cond: WriteCondition, observed: Option<Kind>) {
    && (cond.IfMatch? ==>
          && (KindOf(entry.value), key) in t.data
          && Some(t.data[(KindOf(entry.value), key)].version) == TokenVersion(cond))
    && (match observed
        case None => key !in t.index
        case Some(k) => key in t.index && t.index[key] == k)
  }

  /** Data put, index put and, across kinds, deletion of the old kind's row. */
  function SaveTables(t: Tables, key: Key, entry: StoredValue, observed: Option<Kind>, version: Version): Tables {
    var kind := KindOf(entry.value);
    var data := t.data[(kind, key) := Row(entry, version)];
    Tables(
      t.index[key := kind],
      if observed.Some? && observed.value != kind then data - {(observed.value, key)} else data)
  }

  predicate DeletePasses(t: Tables, key: Key, kind: Kind, expected: Option<Version>) {
    expected.Some? ==>
      && (kind, key) in t.data && t.data[(kind, key)].version == expected.value
      && key in t.index && t.index[key] == kind
  }

  function DeleteTables(t: Tables, key: Key, kind: Kind): Tables {
    Tables(t.index - {key}, t.data - {(kind, key)})
  }

  // ---------------------------------------------------------------------------
  // Steps
  // ---------------------------------------------------------------------------

  predicate Enabled(s: State, step: Step) {
    match step
    case Begin(id, op) => id !in s.ops && (op.LoadStart? || op.SaveStart? || op.DeleteStart?)
    case ReadIndex(id) => id in s.ops && NeedsIndex(s.ops[id])
    case ReadRow(id, expired) =>
      && id in s.ops && s.ops[id].LoadRow?
      && (expired ==>
            && (s.ops[id].kind, s.ops[id].key) in s.tables.data
            && s.tables.data[(s.ops[id].kind, s.ops[id].key)].entry.expiresAtMs.Some?)
    case Prepare(id) => id in s.ops && NeedsToken(s.ops[id])
    case Transact(id, version) =>
      && id in s.ops
      && (s.ops[id].SaveTransact? || s.ops[id].DeleteTransact? || s.ops[id].LoadGc?)
      && version !in s.minted
  }

  predicate NeedsIndex(op: Op) {
    || op.LoadStart?
    || (op.SaveStart? && !op.cond.IfMatch?)
    || (op.DeleteStart? && op.dcond.DeleteAny?)
  }

  predicate NeedsToken(op: Op) {
    || (op.SaveStart? && op.cond.IfMatch?)
    || (op.DeleteStart? && op.dcond.DeleteIfMatch?)
  }

  function SetOp(s: State, id: nat, op: Op): State {
    s.(ops := s.ops[id := op], trace := s.trace + [RegistersOf(s.tables)])
  }

  function AfterIndex(s: State, op: Op): Op
    requires NeedsIndex(op)
  {
    var seen := if op.key in s.tables.index then Some(s.tables.index[op.key]) else None;
    match op
    case LoadStart(key) =>
      if seen.None? then LoadDone(key, Missing, |s.trace|) else LoadRow(key, seen.value, |s.trace|)
    case SaveStart(key, entry, cond) =>
      if cond.CreateOnly? && seen.Some? then Finished(key, Contended)
      else SaveTransact(key, entry, cond, seen)
    case DeleteStart(key, _) =>
      if seen.None? then Finished(key, Done) else DeleteTransact(key, seen.value, None)
  }

  function AfterRow(s: State, op: Op, expired: bool): Op
    requires op.LoadRow?
    requires expired ==> (op.kind, op.key) in s.tables.data
  {
    if (op.kind, op.key) !in s.tables.data then LoadDone(op.key, Missing, op.since)
    else
      var row := s.tables.data[(op.kind, op.key)];
      if expired then LoadGc(op.key, op.kind, row.version, op.since)
      else LoadDone(op.key, Got(row.entry, EncodeToken(op.kind, row.version)), op.since)
  }

  function AfterToken(op: Op): Op
    requires NeedsToken(op)
  {
    match op
    case SaveStart(key, entry, cond) =>
      (match ParseToken(cond.token)
       case None => Finished(key, Malformed)
       case Some((kind, _)) =>
         if kind != KindOf(entry.value) then Finished(key, Contended)
         else SaveTransact(key, entry, cond, Some(kind)))
    case DeleteStart(key, dcond) =>
      (match ParseToken(dcond.token)
       case None => Finished(key, Malformed)
       case Some((kind, version)) => DeleteTransact(key, kind, Some(version)))
  }

  predicate Passes(t: Tables, op: Op) {
    match op
    case SaveTransact(key, entry, cond, observed) => SavePasses(t, key, entry, cond, observed)
    case DeleteTransact(key, kind, expected) => DeletePasses(t, key, kind, expected)
    case LoadGc(key, kind, version, _) => DeletePasses(t, key, kind, Some(version))
    case _ => false
  }

  function TransactTables(t: Tables, op: Op, version: Version): Tables {
    if !Passes(t, op) then t
    else
      match op
      case SaveTransact(key, entry, _, observed) => SaveTables(t, key, entry, observed, version)
      case DeleteTransact(key, kind, _) => DeleteTables(t, key, kind)
      case LoadGc(key, kind, _, _) => DeleteTables(t, key, kind)
      case _ => t
  }

  function AfterTransact(s: State, op: Op): Op {
    if op.LoadGc? then LoadDone(op.key, Expired, op.since)
    else Finished(op.key, if Passes(s.tables, op) then Done else Contended)
  }

  function Take(s: State, step: Step): State
    requires Enabled(s, step)
  {
    match step
    case Begin(id, op) => SetOp(s, id, op)
    case ReadIndex(id) => SetOp(s, id, AfterIndex(s, s.ops[id]))
    case ReadRow(id, expired) => SetOp(s, id, AfterRow(s, s.ops[id], expired))
    case Prepare(id) => SetOp(s, id, AfterToken(s.ops[id]))
    case Transact(id, version) =>
      var op := s.ops[id];
      var minted :=
        if op.SaveTransact? && Passes(s.tables, op) then s.minted[version := op.entry] else s.minted;
      SetOp(s.(tables := TransactTables(s.tables, op, version), minted := minted), id, AfterTransact(s, op))
  }

  predicate Possible(s: State, steps: seq<Step>)
    decreases |steps|
  {
    steps == [] || (Enabled(s, steps[0]) && Possible(Take(s, steps[0]), steps[1..]))
  }

  function Run(s: State, steps: seq<Step>): State
    requires Possible(s, steps)
    decreases |steps|
  {
    if steps == [] then s else Run(Take(s, steps[0]), steps[1..])
  }

  const Empty: State := State(Tables(map[], map[]), map[], map[], [map[]])

  // ---------------------------------------------------------------------------
  // The abstract versioned register
  // ---------------------------------------------------------------------------

  /** A conditional save on registers. An `IfMatch` save may not change the kind of the entry. */
  function RegisterSave(r: Registers, key: Key, entry: StoredValue, cond: WriteCondition, token: Token): (Registers, Reply) {
    var ok :=
      match cond
      case Any => true
      case CreateOnly => key !in r
      case IfMatch(t) => key in r && r[key].token == t && KindOf(r[key].entry.value) == KindOf(entry.value);
    if ok then (r[key := Versioned(entry, token)], Done) else (r, Contended)
  }

  function RegisterDelete(r: Registers, key: Key, cond: DeleteCondition): (Registers, Reply) {
    match cond
    case DeleteAny => (r - {key}, Done)
    case DeleteIfMatch(t) => if key in r && r[key].token == t then (r - {key}, Done) else (r, Contended)
  }

  // ---------------------------------------------------------------------------
  // Invariants
  // ---------------------------------------------------------------------------

  /** An index row of kind k always has its data row in table k, holding an entry of that kind. */
  ghost predicate TablesInv(t: Tables, minted: map<Version, StoredValue>) {
    && (forall key :: key in t.index ==> (t.index[key], key) in t.data)
    && (forall p :: p in t.data ==> RowInv(p.0, t.data[p], minted))
  }

  predicate RowInv(kind: Kind, row: Row, minted: map<Version, StoredValue>) {
    KindOf(row.entry.value) == kind && row.version in minted && minted[row.version] == row.entry
  }

  ghost predicate Live(trace: seq<Registers>, since: nat, key: Key, v: Versioned) {
    exists m :: since <= m < |trace| && key in trace[m] && trace[m][key] == v
  }

  /** The register held an entry with an expiry time, which the load's clock found to have passed. */
  ghost predicate Expiring(trace: seq<Registers>, since: nat, key: Key) {
    exists m :: since <= m < |trace| && key in trace[m] && trace[m][key].entry.expiresAtMs.Some?
  }

  ghost predicate OpInv(s: State, op: Op) {
    match op
    case SaveTransact(_, entry, IfMatch(token), observed) =>
      exists v :: ParseToken(token) == Some((KindOf(entry.value), v)) && observed == Some(KindOf(entry.value))
    case SaveTransact(_, _, CreateOnly, observed) => observed == None
    case LoadRow(key, kind, since) =>
      since < |s.trace| &&
      ((kind, key) in s.tables.data ==>
        var row := s.tables.data[(kind, key)];
        Live(s.trace, since, key, Versioned(row.entry, EncodeToken(kind, row.version))))
    case LoadGc(key, _, _, since) => Expiring(s.trace, since, key)
    case LoadDone(key, Got(entry, token), since) => Live(s.trace, since, key, Versioned(entry, token))
    case LoadDone(key, Expired, since) => Expiring(s.trace, since, key)
    case LoadDone(_, Missing, since) => since < |s.trace|
    case _ => true
  }

  ghost predicate TraceInv(s: State) {
    && s.trace != [] && s.trace[|s.trace| - 1] == RegistersOf(s.tables)
    && (forall m :: 0 <= m < |s.trace| ==> MintedRegisters(s.trace[m], s.minted))
  }

  ghost predicate MintedRegisters(r: Registers, minted: map<Version, StoredValue>) {
    forall key :: key in r ==>
      exists kind, v :: r[key].token == EncodeToken(kind, v) && v in minted && minted[v] == r[key].entry
  }

  ghost predicate Inv(s: State) {
    && TablesInv(s.tables, s.minted)
    && TraceInv(s)
    && (forall id :: id in s.ops ==> OpInv(s, s.ops[id]))
  }

  /** A register exists exactly where the index has a row. */
  lemma RegisterKeys(t: Tables, minted: map<Version, StoredValue>, key: Key)
    requires TablesInv(t, minted)
    ensures key in RegistersOf(t) <==> key in t.index
  {
  }

  lemma RegistersMinted(t: Tables, minted: map<Version, StoredValue>)
    requires TablesInv(t, minted)
    ensures MintedRegisters(RegistersOf(t), minted)
  {
  }

  lemma TablesKept(s: State, op: Op, version: Version)
    requires TablesInv(s.tables, s.minted) && version !in s.minted && OpInv(s, op)
    ensures
      TablesInv(TransactTables(s.tables, op, version),
                if op.SaveTransact? && Passes(s.tables, op) then s.minted[version := op.entry] else s.minted)
  {
  }

  /** A transaction that writes a row to (kind, key) makes that row the register's value. */
  lemma RowChangeIsLive(s: State, op: Op, version: Version, kind: Kind, key: Key)
    requires TablesInv(s.tables, s.minted)
    requires
      var t' := TransactTables(s.tables, op, version);
      && (kind, key) in t'.data
      && ((kind, key) in s.tables.data ==> s.tables.data[(kind, key)] != t'.data[(kind, key)])
    ensures
      var t' := TransactTables(s.tables, op, version);
      var row := t'.data[(kind, key)];
      key in RegistersOf(t') && RegistersOf(t')[key] == Versioned(row.entry, EncodeToken(kind, row.version))
  {
  }

  lemma LiveExtends(trace: seq<Registers>, since: nat, key: Key, v: Versioned, r: Registers)
    requires Live(trace, since, key, v) || (since <= |trace| && key in r && r[key] == v)
    ensures Live(trace + [r], since, key, v)
  {
    if Live(trace, since, key, v) {
      var m :| since <= m < |trace| && key in trace[m] && trace[m][key] == v;
      assert (trace + [r])[m] == trace[m];
    } else {
      assert (trace + [r])[|trace|] == r;
    }
  }

  lemma ExpiringExtends(trace: seq<Registers>, since: nat, key: Key, r: Registers)
    requires Expiring(trace, since, key)
    ensures Expiring(trace + [r], since, key)
  {
    var m :| since <= m < |trace| && key in trace[m] && trace[m][key].entry.expiresAtMs.Some?;
    assert (trace + [r])[m] == trace[m];
  }

  lemma LiveIsExpiring(trace: seq<Registers>, since: nat, key: Key, v: Versioned)
    requires Live(trace, since, key, v) && v.entry.expiresAtMs.Some?
    ensures Expiring(trace, since, key)
  {
  }

  /** Operations other than the one stepping keep their invariant. */
  lemma OpKept(s: State, step: Step, op: Op)
    requires Inv(s) && Enabled(s, step) && OpInv(s, op)
    ensures OpInv(Take(s, step), op)
  {
    var r := RegistersOf(Take(s, step).tables);
    TakeRecords(s, step);
    match op {
      case LoadRow(key, kind, since) => WaitingLoadKept(s, step, op);
      case LoadGc(key, _, _, since) => ExpiringExtends(s.trace, since, key, r);
      case LoadDone(key, Got(entry, token), since) => LiveExtends(s.trace, since, key, Versioned(entry, token), r);
      case LoadDone(key, Expired, since) => ExpiringExtends(s.trace, since, key, r);
      case _ =>
    }
  }

  /** The row a load is about to read was the register's value at some moment since it read the index,
    * whoever wrote it.
    */
  lemma WaitingLoadKept(s: State, step: Step, op: Op)
    requires Inv(s) && Enabled(s, step) && op.LoadRow? && OpInv(s, op)
    ensures OpInv(Take(s, step), op)
  {
    var s' := Take(s, step);
    var p := (op.kind, op.key);
    TakeRecords(s, step);
    if p in s'.tables.data {
      var row := s'.tables.data[p];
      var v := Versioned(row.entry, EncodeToken(op.kind, row.version));
      if p !in s.tables.data || s.tables.data[p] != row {
        TakeTables(s, step);
        RowChangeIsLive(s, s.ops[step.id], step.version, op.kind, op.key);
      }
      hide Take, Enabled, RegistersOf, Live, TransactTables, TablesInv;
      LiveExtends(s.trace, op.since, op.key, v, RegistersOf(s'.tables));
    }
  }

  lemma TakeTables(s: State, step: Step)
    requires Enabled(s, step)
    ensures Take(s, step).tables ==
      if step.Transact? then TransactTables(s.tables, s.ops[step.id], step.version) else s.tables
  {
    hide TransactTables, Passes, RegistersOf;
  }

  lemma OwnOpKept(s: State, step: Step)
    requires Inv(s) && Enabled(s, step)
    ensures OpInv(Take(s, step), Take(s, step).ops[step.id])
  {
    hide TablesInv, TraceInv, OpInv, RegistersOf, TransactTables, Passes;
    match step {
      case Begin(_, _) => BeginKept(s, step);
      case ReadIndex(_) => IndexReadKept(s, step);
      case ReadRow(_, _) => RowReadKept(s, step);
      case Prepare(_) => PrepareKept(s, step);
      case Transact(_, _) => TransactKept(s, step);
    }
  }

  lemma BeginKept(s: State, step: Step)
    requires step.Begin? && Enabled(s, step)
    ensures OpInv(Take(s, step), Take(s, step).ops[step.id])
  {
  }

  lemma IndexReadKept(s: State, step: Step)
    requires Inv(s) && step.ReadIndex? && Enabled(s, step)
    ensures OpInv(Take(s, step), Take(s, step).ops[step.id])
  {
    var op, r := s.ops[step.id], RegistersOf(s.tables);
    assert Take(s, step).trace == s.trace + [r];
    if op.LoadStart? && op.key in s.tables.index {
      var kind := s.tables.index[op.key];
      assert (kind, op.key) in s.tables.data && op.key in r;
      LiveExtends(s.trace, |s.trace|, op.key, r[op.key], r);
    }
  }

  lemma RowReadKept(s: State, step: Step)
    requires Inv(s) && step.ReadRow? && Enabled(s, step)
    ensures OpInv(Take(s, step), Take(s, step).ops[step.id])
  {
    var op, r := s.ops[step.id], RegistersOf(s.tables);
    assert OpInv(s, op) && Take(s, step).trace == s.trace + [r];
    hide TablesInv, TraceInv, RegistersOf;
    if (op.kind, op.key) in s.tables.data {
      var row := s.tables.data[(op.kind, op.key)];
      var v := Versioned(row.entry, EncodeToken(op.kind, row.version));
      LiveExtends(s.trace, op.since, op.key, v, r);
      hide Live;
      if step.expired {
        LiveIsExpiring(s.trace + [r], op.since, op.key, v);
      }
    }
  }

  lemma PrepareKept(s: State, step: Step)
    requires step.Prepare? && Enabled(s, step)
    ensures OpInv(Take(s, step), Take(s, step).ops[step.id])
  {
    hide RegistersOf;
  }

  lemma TransactKept(s: State, step: Step)
    requires Inv(s) && step.Transact? && Enabled(s, step)
    ensures OpInv(Take(s, step), Take(s, step).ops[step.id])
  {
    var op := s.ops[step.id];
    assert OpInv(s, op) by { hide OpInv, TablesInv, TraceInv; }
    TransactOwn(s, step);
    hide Inv, Take, RegistersOf, Passes;
    if op.LoadGc? {
      hide Expiring;
      ExpiringExtends(s.trace, op.since, op.key, RegistersOf(Take(s, step).tables));
    }
  }

  lemma TransactOwn(s: State, step: Step)
    requires step.Transact? && Enabled(s, step)
    ensures
      var s' := Take(s, step);
      && step.id in s'.ops && s'.trace == s.trace + [RegistersOf(s'.tables)]
      && s'.ops[step.id] == AfterTransact(s, s.ops[step.id])
  {
    hide RegistersOf, TransactTables, Passes, AfterTransact;
  }

  lemma TraceKept(s: State, step: Step)
    requires Inv(s) && Enabled(s, step)
    requires TablesInv(Take(s, step).tables, Take(s, step).minted)
    ensures TraceInv(Take(s, step))
  {
    hide TablesInv, OpInv, RegistersOf, MintedRegisters;
    var s' := Take(s, step);
    RegistersMinted(s'.tables, s'.minted);
    TakeRecords(s, step);
    hide Take, Enabled;
    if s'.minted != s.minted {
      MintedAllGrow(s.trace, s.minted, step.version, s.ops[step.id].entry);
    }
  }

  lemma MintedAllGrow(trace: seq<Registers>, minted: map<Version, StoredValue>, version: Version, entry: StoredValue)
    requires version !in minted && forall m :: 0 <= m < |trace| ==> MintedRegisters(trace[m], minted)
    ensures forall m :: 0 <= m < |trace| ==> MintedRegisters(trace[m], minted[version := entry])
  {
  }

  /** Every step records the registers it leaves, and mints at most one new version. */
  lemma TakeRecords(s: State, step: Step)
    requires Enabled(s, step)
    ensures
      var s' := Take(s, step);
      && s'.trace == s.trace + [RegistersOf(s'.tables)]
      && (s'.minted == s.minted ||
          (&& step.Transact? && step.id in s.ops && s.ops[step.id].SaveTransact?
           && step.version !in s.minted && s'.minted == s.minted[step.version := s.ops[step.id].entry]))
  {
  }

  lemma StepKeeps(s: State, step: Step)
    requires Inv(s) && Enabled(s, step)
    ensures Inv(Take(s, step))
  {
    var s' := Take(s, step);
    if step.Transact? {
      TablesKept(s, s.ops[step.id], step.version);
    }
    TraceKept(s, step);
    forall id | id in s'.ops
      ensures OpInv(s', s'.ops[id])
    {
      if id == step.id {
        OwnOpKept(s, step);
      } else {
        OpKept(s, step, s.ops[id]);
      }
    }
  }

  lemma {:induction false} InvThroughout(s: State, steps: seq<Step>)
    requires Inv(s) && Possible(s, steps)
    ensures Inv(Run(s, steps))
    decreases |steps|
  {
    if steps != [] {
      StepKeeps(s, steps[0]);
      hide Inv, Take, Enabled;
      InvThroughout(Take(s, steps[0]), steps[1..]);
    }
  }

  lemma EmptyInv()
    ensures Inv(Empty)
  {
  }

  // ---------------------------------------------------------------------------
  // Refinement
  // ---------------------------------------------------------------------------

  /** The kind of a key's entry, as its index row shows it. */
  function KindAt(r: Registers, key: Key): Option<Kind> {
    if key in r then Some(KindOf(r[key].entry.value)) else None
  }

  /** What one step of an operation does to the registers, in terms of the abstract conditional
    * save and delete, and what the operation is told. A save meant to be unconditional is refused
    * exactly when the key's kind is no longer the one the save read from the index.
    */
  ghost predicate RefinesRegister(r: Registers, r': Registers, op: Op, op': Op, version: Version) {
    match op'
    case Finished(key, reply) =>
      (match op
       case SaveStart(_, entry, cond) =>
         r' == r && cond != Any && RegisterSave(r, key, entry, cond, "") == (r, Contended) && reply != Done
       case SaveTransact(_, entry, cond, observed) =>
         if cond == Any && KindAt(r, key) != observed then r' == r && reply == Contended
         else (r', reply) == RegisterSave(r, key, entry, cond, EncodeToken(KindOf(entry.value), version))
       case DeleteStart(_, DeleteAny) => (r', reply) == RegisterDelete(r, key, DeleteAny)
       case DeleteStart(_, DeleteIfMatch(t)) =>
         r' == r && reply == Malformed && RegisterDelete(r, key, DeleteIfMatch(t)) == (r, Contended)
       case DeleteTransact(_, _, None) => (r', reply) == RegisterDelete(r, key, DeleteAny)
       case DeleteTransact(_, kind, Some(v)) =>
         (r', reply) == RegisterDelete(r, key, DeleteIfMatch(EncodeToken(kind, v)))
       case _ => false)
    case _ =>
      if op.LoadGc? then
        r' == RegisterDelete(r, op.key, DeleteIfMatch(EncodeToken(op.kind, op.version))).0
      else r' == r
  }

  lemma SameRegister(t: Tables, t': Tables, key: Key)
    requires key in t.index <==> key in t'.index
    requires key in t.index ==> t.index[key] == t'.index[key]
    requires forall k :: (k, key) in t.data <==> (k, key) in t'.data
    requires forall k :: (k, key) in t.data ==> t.data[(k, key)] == t'.data[(k, key)]
    ensures key in RegistersOf(t) <==> key in RegistersOf(t')
    ensures key in RegistersOf(t) ==> RegistersOf(t)[key] == RegistersOf(t')[key]
  {
  }

  lemma SaveRegisters(t: Tables, key: Key, entry: StoredValue, observed: Option<Kind>, version: Version)
    ensures RegistersOf(SaveTables(t, key, entry, observed, version)) ==
            RegistersOf(t)[key := Versioned(entry, EncodeToken(KindOf(entry.value), version))]
  {
    var r, r' := RegistersOf(t), RegistersOf(SaveTables(t, key, entry, observed, version));
    SavedRegister(t, key, entry, observed, version);
    forall k | k != key
      ensures k in r <==> k in r'
      ensures k in r ==> r[k] == r'[k]
    {
      OtherRegister(t, key, entry, observed, version, k);
    }
    hide RegistersOf, SaveTables, EncodeToken;
    assert r'.Keys == r.Keys + {key};
  }

  lemma SavedRegister(t: Tables, key: Key, entry: StoredValue, observed: Option<Kind>, version: Version)
    ensures
      var r' := RegistersOf(SaveTables(t, key, entry, observed, version));
      key in r' && r'[key] == Versioned(entry, EncodeToken(KindOf(entry.value), version))
  {
    var t', kind := SaveTables(t, key, entry, observed, version), KindOf(entry.value);
    assert t'.index[key] == kind && (kind, key) in t'.data && t'.data[(kind, key)] == Row(entry, version);
    hide SaveTables, EncodeToken;
  }

  lemma OtherRegister(t: Tables, key: Key, entry: StoredValue, observed: Option<Kind>, version: Version, k: Key)
    requires k != key
    ensures
      var r, r' := RegistersOf(t), RegistersOf(SaveTables(t, key, entry, observed, version));
      (k in r <==> k in r') && (k in r ==> r[k] == r'[k])
  {
    hide RegistersOf;
    SameRegister(t, SaveTables(t, key, entry, observed, version), k);
  }

  lemma DeleteRegisters(t: Tables, key: Key, kind: Kind)
    ensures RegistersOf(DeleteTables(t, key, kind)) == RegistersOf(t) - {key}
  {
  }

  /** An `IfMatch` transaction goes through exactly when the register carries that token. */
  lemma TokenMatches(t: Tables, minted: map<Version, StoredValue>, key: Key, kind: Kind, version: Version)
    requires TablesInv(t, minted)
    ensures
      var r := RegistersOf(t);
      (&& (kind, key) in t.data && t.data[(kind, key)].version == version
       && key in t.index && t.index[key] == kind)
      <==> (key in r && r[key].token == EncodeToken(kind, version))
  {
    if key in t.index {
      var k, v := t.index[key], t.data[(t.index[key], key)].version;
      TokenRoundTrip(EncodeToken(k, v), k, v);
      TokenRoundTrip(EncodeToken(k, v), kind, version);
    }
  }

  /** Every register carries a well-formed token of its entry's kind. */
  lemma RegisterToken(t: Tables, minted: map<Version, StoredValue>, key: Key)
    requires TablesInv(t, minted) && key in RegistersOf(t)
    ensures ParseToken(RegistersOf(t)[key].token).Some?
    ensures ParseToken(RegistersOf(t)[key].token).value.0 == KindOf(RegistersOf(t)[key].entry.value)
  {
    var k := t.index[key];
    TokenRoundTrip(RegistersOf(t)[key].token, k, t.data[(k, key)].version);
  }

  lemma SaveRefines(s: State, op: Op, version: Version)
    requires Inv(s) && op.SaveTransact? && OpInv(s, op)
    ensures Passes(s.tables, op) ==> KindAt(RegistersOf(s.tables), op.key) == op.observed
    ensures RefinesRegister(RegistersOf(s.tables), RegistersOf(TransactTables(s.tables, op, version)),
                            op, AfterTransact(s, op), version)
  {
    var t := s.tables;
    var kind := KindOf(op.entry.value);
    RegisterKeys(t, s.minted, op.key);
    if Passes(t, op) {
      SaveRegisters(t, op.key, op.entry, op.observed, version);
    }
    if op.cond.IfMatch? {
      var v :| ParseToken(op.cond.token) == Some((kind, v)) && op.observed == Some(kind);
      TokenRoundTrip(op.cond.token, kind, v);
      TokenMatches(t, s.minted, op.key, kind, v);
      if op.key in RegistersOf(t) {
        RegisterToken(t, s.minted, op.key);
      }
    }
  }

  lemma DeleteRefines(s: State, op: Op, version: Version)
    requires Inv(s) && (op.DeleteTransact? || op.LoadGc?)
    ensures RefinesRegister(RegistersOf(s.tables), RegistersOf(TransactTables(s.tables, op, version)),
                            op, AfterTransact(s, op), version)
  {
    var expected := if op.LoadGc? then Some(op.version) else op.expected;
    assert TablesInv(s.tables, s.minted);
    DeleteOutcome(s.tables, s.minted, op.key, op.kind, expected);
    hide Inv, TablesInv, RegistersOf, DeleteTables, EncodeToken, DeletePasses;
    assert Passes(s.tables, op) == DeletePasses(s.tables, op.key, op.kind, expected);
  }

  /** A delete goes through, and removes the register, exactly when the abstract one does. */
  lemma DeleteOutcome(t: Tables, minted: map<Version, StoredValue>, key: Key, kind: Kind, expected: Option<Version>)
    requires TablesInv(t, minted)
    ensures
      var r := RegistersOf(t);
      var cond := if expected.Some? then DeleteIfMatch(EncodeToken(kind, expected.value)) else DeleteAny;
      if DeletePasses(t, key, kind, expected)
      then RegisterDelete(r, key, cond) == (RegistersOf(DeleteTables(t, key, kind)), Done)
      else RegisterDelete(r, key, cond) == (r, Contended)
  {
    DeleteRegisters(t, key, kind);
    if expected.Some? {
      TokenMatches(t, minted, key, kind, expected.value);
    }
    hide TablesInv, RegistersOf, DeleteTables, EncodeToken;
  }

  lemma PrepareRefines(s: State, id: nat)
    requires Inv(s) && Enabled(s, Prepare(id))
    ensures RefinesRegister(RegistersOf(s.tables), RegistersOf(s.tables), s.ops[id], AfterToken(s.ops[id]), "")
  {
    var op, r := s.ops[id], RegistersOf(s.tables);
    assert TablesInv(s.tables, s.minted);
    hide Inv, TablesInv, RegistersOf, ParseToken;
    if op.key in r {
      RegisterToken(s.tables, s.minted, op.key);
    }
  }

  lemma StepRefinesFrom(s: State, step: Step)
    requires Inv(s) && Enabled(s, step) && !step.Begin?
    ensures RefinesRegister(RegistersOf(s.tables), RegistersOf(Take(s, step).tables), s.ops[step.id],
                            Take(s, step).ops[step.id], if step.Transact? then step.version else "")
  {
    match step {
      case Transact(id, version) =>
        if s.ops[id].SaveTransact? {
          SaveRefines(s, s.ops[id], version);
        } else {
          DeleteRefines(s, s.ops[id], version);
        }
      case Prepare(id) => PrepareRefines(s, id);
      case ReadIndex(id) => ReadIndexRefines(s, id);
      case ReadRow(_, _) =>
    }
  }

  lemma ReadIndexRefines(s: State, id: nat)
    requires Inv(s) && Enabled(s, ReadIndex(id))
    ensures RefinesRegister(RegistersOf(s.tables), RegistersOf(s.tables), s.ops[id], AfterIndex(s, s.ops[id]), "")
  {
    var key := s.ops[id].key;
    assert TablesInv(s.tables, s.minted);
    hide Inv, TablesInv, RegistersOf;
    RegisterKeys(s.tables, s.minted, key);
    assert key !in s.tables.index ==> RegistersOf(s.tables) - {key} == RegistersOf(s.tables);
  }

  /** Refinement, in every run: each step of an operation is one conditional save or delete on the
    * abstract registers with the reply the operation gets, or leaves every register alone.
    */
  lemma StepRefines(steps: seq<Step>, step: Step)
    requires Possible(Empty, steps) && Enabled(Run(Empty, steps), step) && !step.Begin?
    ensures
      var s := Run(Empty, steps);
      var s' := Take(s, step);
      RefinesRegister(RegistersOf(s.tables), RegistersOf(s'.tables), s.ops[step.id], s'.ops[step.id],
                      if step.Transact? then step.version else "")
  {
    EmptyInv();
    InvThroughout(Empty, steps);
    StepRefinesFrom(Run(Empty, steps), step);
  }

  /** In every run an index row of kind k has its data row in table k. */
  lemma IndexHasRow(steps: seq<Step>, key: Key)
    requires Possible(Empty, steps) && key in Run(Empty, steps).tables.index
    ensures
      var t := Run(Empty, steps).tables;
      (t.index[key], key) in t.data && KindOf(t.data[(t.index[key], key)].entry.value) == t.index[key]
  {
    EmptyInv();
    InvThroughout(Empty, steps);
  }

  /** A load that returns an entry returns one that the register held during the load, even when
    * writers of other kinds race its two reads.
    */
  lemma LoadReturnsLiveValue(steps: seq<Step>, id: nat)
    requires Possible(Empty, steps) && id in Run(Empty, steps).ops
    requires Run(Empty, steps).ops[id].LoadDone? && Run(Empty, steps).ops[id].found.Got?
    ensures
      var s := Run(Empty, steps);
      var op := s.ops[id];
      Live(s.trace, op.since, op.key, Versioned(op.found.entry, op.found.token))
  {
    EmptyInv();
    InvThroughout(Empty, steps);
    assert OpInv(Run(Empty, steps), Run(Empty, steps).ops[id]);
  }

  /** Equal tokens stand for equal entries: the assumption the optimistic-locking loop makes. */
  lemma TokensIdentifyContent(steps: seq<Step>, m: nat, n: nat, key: Key, key': Key)
    requires Possible(Empty, steps)
    requires m < |Run(Empty, steps).trace| && n < |Run(Empty, steps).trace|
    requires key in Run(Empty, steps).trace[m] && key' in Run(Empty, steps).trace[n]
    requires Run(Empty, steps).trace[m][key].token == Run(Empty, steps).trace[n][key'].token
    ensures Run(Empty, steps).trace[m][key].entry == Run(Empty, steps).trace[n][key'].entry
  {
    EmptyInv();
    InvThroughout(Empty, steps);
    TokenNamesEntry(Run(Empty, steps), m, n, key, key');
  }

  lemma TokenNamesEntry(s: State, m: nat, n: nat, key: Key, key': Key)
    requires TraceInv(s) && m < |s.trace| && n < |s.trace| && key in s.trace[m] && key' in s.trace[n]
    requires s.trace[m][key].token == s.trace[n][key'].token
    ensures s.trace[m][key].entry == s.trace[n][key'].entry
  {
    assert MintedRegisters(s.trace[m], s.minted) && MintedRegisters(s.trace[n], s.minted);
    var token := s.trace[m][key].token;
    var k, v :| token == EncodeToken(k, v) && v in s.minted && s.minted[v] == s.trace[m][key].entry;
    var k', v' :| token == EncodeToken(k', v') && v' in s.minted && s.minted[v'] == s.trace[n][key'].entry;
    TokenRoundTrip(token, k, v);
    TokenRoundTrip(token, k', v');
  }

  // ---------------------------------------------------------------------------
  // Orphan rows
  // ---------------------------------------------------------------------------

  /** Each key has at most one data row, in the table its index row names. */
  ghost predicate NoOrphans(t: Tables) {
    forall p :: p in t.data ==> p.1 in t.index && t.index[p.1] == p.0
  }

  /** An unconditional delete that commits after the index moved to another kind. */
  predicate IsStaleDelete(s: State, step: Step) {
    step.Transact? && step.id in s.ops &&
    var op := s.ops[step.id];
    op.DeleteTransact? && op.expected.None? && op.key in s.tables.index && s.tables.index[op.key] != op.kind
  }

  lemma SaveLeavesNoOrphans(t: Tables, key: Key, entry: StoredValue, cond: WriteCondition, observed: Option<Kind>,
                            version: Version)
    requires NoOrphans(t) && SavePasses(t, key, entry, cond, observed)
    ensures NoOrphans(SaveTables(t, key, entry, observed, version))
  {
  }

  lemma DeleteLeavesNoOrphans(t: Tables, key: Key, kind: Kind)
    requires NoOrphans(t)
    requires key in t.index ==> (t.index[key], key) in t.data
    ensures NoOrphans(DeleteTables(t, key, kind)) <==> (key in t.index ==> t.index[key] == kind)
  {
  }

  /** Starting without orphans, a step leaves an orphan exactly when it is a stale delete. */
  lemma OrphansExactlyFromStaleDeletes(s: State, step: Step)
    requires Inv(s) && Enabled(s, step) && NoOrphans(s.tables)
    ensures NoOrphans(Take(s, step).tables) <==> !IsStaleDelete(s, step)
  {
    if step.Transact? {
      var op := s.ops[step.id];
      if !Passes(s.tables, op) {
      } else if op.SaveTransact? {
        SaveLeavesNoOrphans(s.tables, op.key, op.entry, op.cond, op.observed, step.version);
      } else {
        DeleteLeavesNoOrphans(s.tables, op.key, op.kind);
      }
    }
  }

  predicate NoStaleDeletes(s: State, steps: seq<Step>)
    requires Possible(s, steps)
    decreases |steps|
  {
    steps == [] || (!IsStaleDelete(s, steps[0]) && NoStaleDeletes(Take(s, steps[0]), steps[1..]))
  }

  /** Without stale deletes no run leaves an orphan, across kinds and interleavings. */
  lemma {:induction false} NoOrphansThroughout(s: State, steps: seq<Step>)
    requires Inv(s) && NoOrphans(s.tables) && Possible(s, steps) && NoStaleDeletes(s, steps)
    ensures NoOrphans(Run(s, steps).tables)
    decreases |steps|
  {
    if steps != [] {
      StepKeeps(s, steps[0]);
      OrphansExactlyFromStaleDeletes(s, steps[0]);
      hide Inv, Take, Enabled, NoOrphans, IsStaleDelete;
      NoOrphansThroughout(Take(s, steps[0]), steps[1..]);
    }
  }

  // ---------------------------------------------------------------------------
  // Two races that the layout allows
  // ---------------------------------------------------------------------------

  ghost predicate Reachable(s: State) {
    exists steps :: Possible(Empty, steps) && Run(Empty, steps) == s
  }

  lemma {:induction false} RunSnoc(s: State, steps: seq<Step>, step: Step)
    requires Possible(s, steps) && Enabled(Run(s, steps), step)
    ensures Possible(s, steps + [step]) && Run(s, steps + [step]) == Take(Run(s, steps), step)
    decreases |steps|
  {
    if steps == [] {
      assert [step][1..] == [];
    } else {
      hide Take, Enabled;
      assert (steps + [step])[0] == steps[0] && (steps + [step])[1..] == steps[1..] + [step];
      RunSnoc(Take(s, steps[0]), steps[1..], step);
    }
  }

  lemma ReachableStep(s: State, step: Step)
    requires Reachable(s) && Enabled(s, step)
    ensures Reachable(Take(s, step))
  {
    var steps :| Possible(Empty, steps) && Run(Empty, steps) == s;
    RunSnoc(Empty, steps, step);
  }

  lemma EmptyReachable()
    ensures Reachable(Empty)
  {
    assert Possible(Empty, []) && Run(Empty, []) == Empty;
  }

  /** An unconditional save of `entry`, uninterrupted, over whatever kind the key holds. */
  lemma PlainSave(s: State, id: nat, key: Key, entry: StoredValue, version: Version) returns (s': State)
    requires Reachable(s) && id !in s.ops && version !in s.minted
    ensures Reachable(s')
    ensures
      var observed := if key in s.tables.index then Some(s.tables.index[key]) else None;
      s'.tables == SaveTables(s.tables, key, entry, observed, version)
    ensures s'.minted == s.minted[version := entry]
    ensures s'.ops == s.ops[id := Finished(key, Done)]
    ensures |s.trace| <= |s'.trace|
    ensures forall m :: 0 <= m < |s.trace| ==> s'.trace[m] == s.trace[m]
    ensures forall m :: |s.trace| <= m < |s'.trace| ==>
              s'.trace[m] == RegistersOf(s.tables) || s'.trace[m] == RegistersOf(s'.tables)
  {
    hide Reachable, SaveTables, RegistersOf;
    var a := Begin(id, SaveStart(key, entry, Any));
    ReachableStep(s, a);
    var s1 := Take(s, a);
    ReachableStep(s1, ReadIndex(id));
    var s2 := Take(s1, ReadIndex(id));
    ReachableStep(s2, Transact(id, version));
    s' := Take(s2, Transact(id, version));
  }

  function Text(): StoredValue {
    StoredValue(String([]), None)
  }

  function Fields(): StoredValue {
    StoredValue(Hash(map[]), None)
  }

  /** The key holds a hash, an operation reads that kind from the index, and then a plain SET turns
    * the key into a string.
    */
  lemma KindFlipsUnderReader(key: Key, op: Op) returns (s: State)
    requires op == DeleteStart(key, DeleteAny) || op == LoadStart(key)
    ensures Reachable(s)
    ensures s.tables == Tables(map[key := KString], map[(KString, key) := Row(Text(), "b")])
    ensures s.minted == map["a" := Fields(), "b" := Text()]
    ensures 1 in s.ops
    ensures op.DeleteStart? ==> s.ops[1] == DeleteTransact(key, KHash, None)
    ensures op.LoadStart? ==> s.ops[1].LoadRow? && s.ops[1].key == key && s.ops[1].kind == KHash
    ensures op.LoadStart? ==> s.ops[1].since < |s.trace|
    ensures op.LoadStart? ==> forall m :: s.ops[1].since <= m < |s.trace| ==> key in s.trace[m]
  {
    hide Reachable;
    var t := HashSeen(key, op);
    s := PlainSave(t, 2, key, Text(), "b");
    assert s.tables.data == map[(KString, key) := Row(Text(), "b")];
  }

  /** The key holds a hash, and an operation has read that from the index. */
  lemma HashSeen(key: Key, op: Op) returns (s: State)
    requires op == DeleteStart(key, DeleteAny) || op == LoadStart(key)
    ensures Reachable(s)
    ensures s.tables == Tables(map[key := KHash], map[(KHash, key) := Row(Fields(), "a")])
    ensures s.minted == map["a" := Fields()] && s.ops.Keys == {0, 1}
    ensures op.DeleteStart? ==> s.ops[1] == DeleteTransact(key, KHash, None)
    ensures op.LoadStart? ==> |s.trace| > 0 && s.ops[1] == LoadRow(key, KHash, |s.trace| - 1) && key in s.trace[|s.trace| - 1]
  {
    hide Reachable;
    EmptyReachable();
    var s1 := PlainSave(Empty, 0, key, Fields(), "a");
    assert s1.tables == Tables(map[key := KHash], map[(KHash, key) := Row(Fields(), "a")]);
    ReachableStep(s1, Begin(1, op));
    var s2 := Take(s1, Begin(1, op));
    ReachableStep(s2, ReadIndex(1));
    s := Take(s2, ReadIndex(1));
  }

  /** A DEL racing a SET across kinds leaves a data row that no index row names. */
  lemma OrphanReachable(key: Key)
    ensures exists s :: Reachable(s) && !NoOrphans(s.tables)
  {
    var s := KindFlipsUnderReader(key, DeleteStart(key, DeleteAny));
    OrphanStep(s, key);
    hide Reachable, NoOrphans, Take, Enabled;
    ReachableStep(s, Transact(1, "c"));
  }

  lemma OrphanStep(s: State, key: Key)
    requires s.tables == Tables(map[key := KString], map[(KString, key) := Row(Text(), "b")])
    requires s.minted == map["a" := Fields(), "b" := Text()]
    requires 1 in s.ops && s.ops[1] == DeleteTransact(key, KHash, None)
    ensures Enabled(s, Transact(1, "c")) && !NoOrphans(Take(s, Transact(1, "c")).tables)
  {
    hide RegistersOf;
    var t := Take(s, Transact(1, "c")).tables;
    assert (KString, key) in t.data && key !in t.index;
  }

  /** The key is live at every position of the trace from `since` on. */
  predicate LiveThroughout(trace: seq<Registers>, since: nat, key: Key) {
    since < |trace| && forall m :: since <= m < |trace| ==> key in trace[m]
  }

  /** A load that answered "missing" although the key was live ever since it read the index. */
  predicate MissedLiveKey(s: State, op: Op, key: Key) {
    op.LoadDone? && op.key == key && op.found == Missing && LiveThroughout(s.trace, op.since, key)
  }

  /** A load reads its row when the index has moved to another kind and that row is gone. */
  predicate ReadsTooLate(s: State, step: Step) {
    step.ReadRow? && step.id in s.ops && s.ops[step.id].LoadRow? &&
    var op := s.ops[step.id];
    && op.key in s.tables.index && s.tables.index[op.key] != op.kind
    && (op.kind, op.key) !in s.tables.data
  }

  lemma RowReadMisses(s: State, id: nat)
    requires Inv(s) && Enabled(s, ReadRow(id, false))
    ensures
      var op, s' := s.ops[id], Take(s, ReadRow(id, false));
      && id in s'.ops
      && (MissedLiveKey(s', s'.ops[id], op.key) <==>
          ReadsTooLate(s, ReadRow(id, false)) && LiveThroughout(s.trace, op.since, op.key))
      && (NoOrphans(s.tables) && LiveThroughout(s.trace, op.since, op.key) ==>
          op.key in s.tables.index &&
          (s'.ops[id] == LoadDone(op.key, Missing, op.since) <==> s.tables.index[op.key] != op.kind))
  {
    var op, s' := s.ops[id], Take(s, ReadRow(id, false));
    var r := RegistersOf(s.tables);
    assert OpInv(s, op) && op.since < |s.trace| && s'.trace == s.trace + [r];
    RegisterKeys(s.tables, s.minted, op.key);
    assert s.trace[|s.trace| - 1] == r;
    assert forall m :: 0 <= m < |s.trace| ==> s'.trace[m] == s.trace[m];
    assert s'.trace[|s.trace|] == r;
    hide RegistersOf, TraceInv, Expiring, Live;
  }

  /** In every run, a load that reads its row misses a key that was live all along exactly when the
    * index moved to another kind, and the row of the old kind went, between its two reads; where no
    * orphans are left behind, exactly when the index moved.
    */
  lemma LoadMissesExactlyWhenKindMoved(steps: seq<Step>, id: nat)
    requires Possible(Empty, steps) && Enabled(Run(Empty, steps), ReadRow(id, false))
    ensures
      var s := Run(Empty, steps);
      var op, s' := s.ops[id], Take(s, ReadRow(id, false));
      && id in s'.ops
      && (MissedLiveKey(s', s'.ops[id], op.key) <==>
          ReadsTooLate(s, ReadRow(id, false)) && LiveThroughout(s.trace, op.since, op.key))
      && (NoOrphans(s.tables) && LiveThroughout(s.trace, op.since, op.key) ==>
          op.key in s.tables.index &&
          (s'.ops[id] == LoadDone(op.key, Missing, op.since) <==> s.tables.index[op.key] != op.kind))
  {
    EmptyInv();
    InvThroughout(Empty, steps);
    var s := Run(Empty, steps);
    RowReadMisses(s, id);
  }

  lemma MissedStep(s: State, key: Key)
    requires 1 in s.ops && s.ops[1].LoadRow? && s.ops[1].key == key && s.ops[1].kind == KHash
    requires s.tables == Tables(map[key := KString], map[(KString, key) := Row(Text(), "b")])
    requires s.ops[1].since < |s.trace|
    requires forall m :: s.ops[1].since <= m < |s.trace| ==> key in s.trace[m]
    ensures Enabled(s, ReadRow(1, false))
    ensures 1 in Take(s, ReadRow(1, false)).ops
    ensures MissedLiveKey(Take(s, ReadRow(1, false)), Take(s, ReadRow(1, false)).ops[1], key)
  {
    var r := RegistersOf(s.tables);
    assert key in r;
    assert Take(s, ReadRow(1, false)).trace == s.trace + [r];
    hide RegistersOf;
  }

  /** A load racing a SET across kinds can answer "missing" although the key existed all along. */
  lemma LoadCanMissLiveKey(key: Key)
    ensures exists s :: Reachable(s) && 1 in s.ops && MissedLiveKey(s, s.ops[1], key)
  {
    var s := KindFlipsUnderReader(key, LoadStart(key));
    hide Take, Enabled, RegistersOf, MissedLiveKey, Reachable;
    MissedStep(s, key);
    ReachableStep(s, ReadRow(1, false));
  }
}
