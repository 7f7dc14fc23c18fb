/** Streams: identifiers, the stream value with its consumer groups, and what each stream command
  * does to the stored value when its update runs alone.
  */
module Stream {
  import opened Bytes
  import opened Values
  import opened Ordered
  import opened StreamTypes

  function SaturatingInc(n: u64): u64 {
    if n == U64_MAX then n else n + 1
  }

  // ---------------------------------------------------------------------------
  // Identifiers
  // ---------------------------------------------------------------------------

  const MIN: StreamId := StreamId(0, 0)
  const MAX: StreamId := StreamId(U64_MAX, U64_MAX)

  predicate Before(a: StreamId, b: StreamId) {
    a.ms < b.ms || (a.ms == b.ms && a.number < b.number)
  }

  predicate AtMost(a: StreamId, b: StreamId) {
    !Before(b, a)
  }

  lemma BeforeIsStrictTotal()
    ensures StrictTotal(Before)
  {
  }

  /** The following id; the millisecond part wraps around at the top. */
  function Next(id: StreamId): StreamId {
    if id.number == U64_MAX then StreamId(if id.ms == U64_MAX then 0 else id.ms + 1, 0)
    else StreamId(id.ms, id.number + 1)
  }

  /** `Next` is the immediate successor everywhere except at the largest id. */
  lemma NextIsSuccessor(id: StreamId)
    ensures Before(id, Next(id)) <==> id != MAX
    ensures id != MAX ==> forall x :: Before(id, x) <==> AtMost(Next(id), x)
  {
  }

  datatype AddId = Auto | PartialMs(ms: u64) | Concrete(id: StreamId)

  function ResolveAddId(spec: AddId, last: StreamId, now: u64): (r: Option<StreamId>)
  {
    match spec
    case Auto => Some(if now > last.ms then StreamId(now, 0) else Next(last))
    case PartialMs(ms) =>
      if ms < last.ms then None else if ms == last.ms then Some(Next(last)) else Some(StreamId(ms, 0))
    case Concrete(id) => if AtMost(id, last) then None else Some(id)
  }

  /** A new id is above the last one exactly when the last one is not the largest; an id is refused
    * exactly when no id the caller asked for is above the last one.
    */
  lemma NewIdIsAbove(spec: AddId, last: StreamId, now: u64)
    ensures
      var r := ResolveAddId(spec, last, now);
      && (r.Some? ==> (Before(last, r.value) <==> last != MAX))
      && (r.None? <==> (spec.PartialMs? && spec.ms < last.ms) || (spec.Concrete? && AtMost(spec.id, last)))
      && (r.Some? && spec.PartialMs? && last != StreamId(spec.ms, U64_MAX) ==> r.value.ms == spec.ms)
  {
  }

  // ---------------------------------------------------------------------------
  // The stored value
  // ---------------------------------------------------------------------------

  const Empty: StreamValue := StreamValue([], MIN, MIN, 0, map[])

  function IdsOf(entries: seq<Entry>): (ids: seq<StreamId>)
    ensures |ids| == |entries|
    ensures forall i :: 0 <= i < |ids| ==> ids[i] == entries[i].id
  {
    seq(|entries|, i requires 0 <= i < |entries| => entries[i].id)
  }

  function IdSet(entries: seq<Entry>): set<StreamId> {
    set e | e in entries :: e.id
  }

  ghost predicate AscendingIds(entries: seq<Entry>) {
    forall i, j :: 0 <= i < j < |entries| ==> Before(entries[i].id, entries[j].id)
  }

  // ---------------------------------------------------------------------------
  // Adding, deleting, trimming
  // ---------------------------------------------------------------------------

  datatype Bound = MaxLen(max: nat) | MinId(min: StreamId)

  /** How many leading entries are below `min`. */
  function Below(entries: seq<Entry>, min: StreamId): (k: nat)
    ensures k <= |entries|
    ensures forall i :: 0 <= i < k ==> Before(entries[i].id, min)
    ensures k < |entries| ==> !Before(entries[k].id, min)
  {
    if entries == [] || !Before(entries[0].id, min) then 0 else 1 + Below(entries[1..], min)
  }

  function TrimCount(s: StreamValue, bound: Bound, limit: Option<nat>): (k: nat)
    ensures k <= |s.entries|
  {
    var target: nat :=
      match bound
      case MaxLen(max) => if |s.entries| > max then |s.entries| - max else 0
      case MinId(min) => Below(s.entries, min);
    Limited(target, limit)
  }

  function Limited(target: nat, limit: Option<nat>): nat {
    if limit.Some? && limit.value < target then limit.value else target
  }

  function MaxId(a: StreamId, b: StreamId): StreamId {
    if Before(a, b) then b else a
  }

  function TrimFront(s: StreamValue, k: nat): StreamValue
    requires k <= |s.entries|
  {
    if k == 0 then s
    else s.(entries := s.entries[k..], maxDeleted := MaxId(s.maxDeleted, s.entries[k - 1].id))
  }

  function Trim(s: StreamValue, bound: Bound, limit: Option<nat>): StreamValue {
    TrimFront(s, TrimCount(s, bound, limit))
  }

  /** The entries whose id is not listed. */
  function Without(entries: seq<Entry>, ids: seq<StreamId>): seq<Entry> {
    if entries == [] then []
    else
      var last := entries[|entries| - 1];
      var before := Without(entries[..|entries| - 1], ids);
      if last.id in ids then before else before + [last]
  }

  function MaxDropped(entries: seq<Entry>, ids: seq<StreamId>, max: StreamId): StreamId {
    if entries == [] then max
    else
      var last := entries[|entries| - 1];
      var before := MaxDropped(entries[..|entries| - 1], ids, max);
      if last.id in ids then MaxId(before, last.id) else before
  }

  function Drop(s: StreamValue, ids: seq<StreamId>): StreamValue {
    s.(entries := Without(s.entries, ids), maxDeleted := MaxDropped(s.entries, ids, s.maxDeleted))
  }

  function Append(s: StreamValue, id: StreamId, fields: seq<(string, bytes)>): StreamValue {
    s.(entries := s.entries + [Entry(id, fields)], lastGenerated := id, entriesAdded := SaturatingInc(s.entriesAdded))
  }

  // ---------------------------------------------------------------------------
  // Consumer groups
  // ---------------------------------------------------------------------------

  datatype StartId = At(id: StreamId) | Latest

  datatype GroupOp =
    | Create(start: StartId, mkstream: bool)
    | SetId(start: StartId)
    | Destroy
    | CreateConsumer(consumer: string)
    | DelConsumer(consumer: string)

  function StartOf(s: StreamValue, start: StartId): StreamId {
    match start
    case At(id) => id
    case Latest => s.lastGenerated
  }

  /** The ids a consumer owes an acknowledgement for. */
  function OwnedBy(pending: PendingList, consumer: string): set<StreamId> {
    set id | id in pending && pending[id].consumer == consumer
  }

  function SetGroup(s: StreamValue, name: string, g: Group): StreamValue {
    s.(groups := s.groups[name := g])
  }

  datatype Reply =
    | Failed
    | Nothing
    | Added(id: StreamId)
    | Count(n: int)
    | Entries(entries: seq<Entry>)
    | Claimed(results: seq<Claim>)
    | Swept(next: StreamId, claimed: seq<Claim>, deleted: seq<StreamId>)

  datatype Claim = Claim(id: StreamId, fields: Option<seq<(string, bytes)>>)

  function ApplyGroupOp(s: StreamValue, name: string, op: GroupOp, existed: bool): (StreamValue, Reply) {
    match op
    case Create(start, mkstream) =>
      if (!existed && !mkstream) || name in s.groups then (s, Failed)
      else (SetGroup(s, name, Group(StartOf(s, start), map[], map[])), Count(1))
    case SetId(start) =>
      if name !in s.groups then (s, Failed)
      else (SetGroup(s, name, s.groups[name].(lastDelivered := StartOf(s, start))), Count(1))
    case Destroy => (s.(groups := s.groups - {name}), Count(if name in s.groups then 1 else 0))
    case CreateConsumer(consumer) =>
      if name !in s.groups then (s, Failed)
      else if consumer in s.groups[name].consumers then (s, Count(0))
      else
        var g := s.groups[name];
        (SetGroup(s, name, g.(consumers := g.consumers[consumer := 0])), Count(1))
    case DelConsumer(consumer) =>
      if name !in s.groups then (s, Failed)
      else
        var g := s.groups[name];
        var owned := OwnedBy(g.pending, consumer);
        (SetGroup(s, name, g.(consumers := g.consumers - {consumer}, pending := g.pending - owned)), Count(|owned|))
  }

  // ---------------------------------------------------------------------------
  // Reading through a group
  // ---------------------------------------------------------------------------

  datatype ReadId = NewEntries | PendingAfter(after: StreamId)

  function Capped<T>(xs: seq<T>, count: Option<nat>): seq<T> {
    if count.Some? && count.value < |xs| then xs[..count.value] else xs
  }

  /** The entries with an id above `last`, in stream order. */
  function NewerThan(entries: seq<Entry>, last: StreamId): seq<Entry> {
    if entries == [] then []
    else
      var e := entries[|entries| - 1];
      var before := NewerThan(entries[..|entries| - 1], last);
      if Before(last, e.id) then before + [e] else before
  }

  function Furthest(last: StreamId, entries: seq<Entry>): StreamId {
    if entries == [] then last else MaxId(Furthest(last, entries[..|entries| - 1]), entries[|entries| - 1].id)
  }

  /** New pending rows for freshly delivered entries. */
  function Delivered(pending: PendingList, entries: seq<Entry>, consumer: string, now: int): PendingList {
    pending + map id | id in IdSet(entries) :: Pending(consumer, now, 1)
  }

  function ReadNew(s: StreamValue, name: string, consumer: string, count: Option<nat>, noack: bool, now: int): (StreamValue, seq<Entry>)
    requires name in s.groups
  {
    var g := s.groups[name];
    var unread := Capped(NewerThan(s.entries, g.lastDelivered), count);
    var g' := Group(
      Furthest(g.lastDelivered, unread),
      g.consumers[consumer := now],
      if noack then g.pending else Delivered(g.pending, unread, consumer, now));
    (SetGroup(s, name, g'), unread)
  }

  function OwnAfter(pending: PendingList, consumer: string, after: StreamId): set<StreamId> {
    set id | id in pending && pending[id].consumer == consumer && Before(after, id)
  }

  /** A consumer's own pending ids above `after`, in id order. */
  function OwnRows(pending: PendingList, consumer: string, after: StreamId): seq<StreamId> {
    BeforeIsStrictTotal();
    Sorted(OwnAfter(pending, consumer, after), Before)
  }

  function Redelivered(pending: PendingList, ids: set<StreamId>, now: int): PendingList {
    map id | id in pending ::
      if id in ids then pending[id].(deliveredAt := now, deliveries := SaturatingInc(pending[id].deliveries))
      else pending[id]
  }

  function Find(entries: seq<Entry>, id: StreamId): (r: Option<Entry>)
    ensures r.Some? <==> id in IdSet(entries)
    ensures r.Some? ==> r.value in entries && r.value.id == id
  {
    if entries == [] then None
    else if entries[0].id == id then Some(entries[0])
    else Find(entries[1..], id)
  }

  /** The entries of the given ids that are still in the stream. */
  function EntriesOf(entries: seq<Entry>, ids: seq<StreamId>): seq<Entry> {
    if ids == [] then []
    else
      var id := ids[|ids| - 1];
      var before := EntriesOf(entries, ids[..|ids| - 1]);
      if Find(entries, id).Some? then before + [Find(entries, id).value] else before
  }

  function ReadPending(s: StreamValue, name: string, consumer: string, after: StreamId, count: Option<nat>, now: int): (StreamValue, seq<Entry>)
    requires name in s.groups
  {
    var g := s.groups[name];
    var rows := Capped(OwnRows(g.pending, consumer, after), count);
    var pending := Redelivered(g.pending, ToSet(rows), now);
    (SetGroup(s, name, g.(pending := pending)), EntriesOf(s.entries, rows))
  }

  function InsertById(e: Entry, entries: seq<Entry>): seq<Entry> {
    if entries == [] || !Before(entries[0].id, e.id) then [e] + entries
    else [entries[0]] + InsertById(e, entries[1..])
  }

  /** The stable sort by id. */
  function SortById(entries: seq<Entry>): seq<Entry> {
    if entries == [] then [] else InsertById(entries[0], SortById(entries[1..]))
  }

  lemma {:induction false} SortedAlready(entries: seq<Entry>)
    requires AscendingIds(entries)
    ensures SortById(entries) == entries
  {
    if entries != [] {
      SortedAlready(entries[1..]);
      assert |entries| > 1 ==> Before(entries[0].id, entries[1].id);
    }
  }

  // ---------------------------------------------------------------------------
  // Acknowledging and claiming
  // ---------------------------------------------------------------------------

  function ToSet(ids: seq<StreamId>): set<StreamId> {
    set id | id in ids
  }

  predicate IdleFor(p: Pending, now: int, minIdle: int) {
    (if now > p.deliveredAt then now - p.deliveredAt else 0) >= minIdle
  }

  datatype ClaimOptions = ClaimOptions(
    idleMs: Option<int>,
    timeMs: Option<int>,
    retryCount: Option<u64>,
    force: bool,
    justId: bool,
    now: int)

  function DeliveryTime(opts: ClaimOptions): int {
    if opts.timeMs.Some? then opts.timeMs.value
    else opts.now - (if opts.idleMs.Some? then opts.idleMs.value else 0)
  }

  /** Whether XCLAIM takes an id: pending and idle, or not pending and forced. */
  predicate Claims(pending: PendingList, id: StreamId, minIdle: int, opts: ClaimOptions) {
    if id in pending then IdleFor(pending[id], opts.now, minIdle) else opts.force
  }

  function ClaimedRow(pending: PendingList, id: StreamId, consumer: string, opts: ClaimOptions): Pending {
    Pending(consumer, DeliveryTime(opts),
            if opts.retryCount.Some? then opts.retryCount.value
            else if id in pending then SaturatingInc(pending[id].deliveries)
            else 1)
  }

  /** XCLAIM takes ids in the order given; a repeated id sees the row its first occurrence wrote. */
  function ClaimAll(g: Group, ids: seq<StreamId>, consumer: string, minIdle: int, opts: ClaimOptions): (Group, seq<StreamId>) {
    if ids == [] then (g, [])
    else
      var (g', taken) := ClaimAll(g, ids[..|ids| - 1], consumer, minIdle, opts);
      var id := ids[|ids| - 1];
      if !Claims(g'.pending, id, minIdle, opts) then (g', taken)
      else
        var row := ClaimedRow(g'.pending, id, consumer, opts);
        (g'.(pending := g'.pending[id := row], consumers := g'.consumers[consumer := opts.now]), taken + [id])
  }

  function Body(entries: seq<Entry>, id: StreamId, justId: bool): Claim {
    if justId || Find(entries, id).None? then Claim(id, None) else Claim(id, Some(Find(entries, id).value.fields))
  }

  function Bodies(entries: seq<Entry>, ids: seq<StreamId>, justId: bool): (claims: seq<Claim>)
    ensures |claims| == |ids|
    ensures forall i :: 0 <= i < |ids| ==> claims[i].id == ids[i]
  {
    seq(|ids|, i requires 0 <= i < |ids| => Body(entries, ids[i], justId))
  }

  function IdleFrom(pending: PendingList, start: StreamId, minIdle: int, now: int): set<StreamId> {
    set id | id in pending && AtMost(start, id) && IdleFor(pending[id], now, minIdle)
  }

  /** Pending ids from `start` on that have been idle long enough, in id order. */
  function Candidates(pending: PendingList, start: StreamId, minIdle: int, now: int): seq<StreamId> {
    BeforeIsStrictTotal();
    Sorted(IdleFrom(pending, start, minIdle, now), Before)
  }

  /** How many candidates one XAUTOCLAIM handles: it stops in front of the one after the last it may
    * claim.
    */
  function PageEnd(candidates: seq<StreamId>, live: set<StreamId>, count: nat): (k: nat)
    ensures k <= |candidates|
    ensures count > 0 && candidates != [] ==> k > 0
  {
    if candidates == [] || count == 0 then 0
    else 1 + PageEnd(candidates[1..], live, if candidates[0] in live then count - 1 else count)
  }

  /** The ids of a list that are (or are not) in a set, in order. */
  function Select(ids: seq<StreamId>, live: set<StreamId>, wanted: bool): seq<StreamId> {
    if ids == [] then []
    else
      var id := ids[|ids| - 1];
      var before := Select(ids[..|ids| - 1], live, wanted);
      if (id in live) == wanted then before + [id] else before
  }

  function TakenOver(pending: PendingList, ids: set<StreamId>, consumer: string, now: int): PendingList {
    map id | id in pending ::
      if id in ids then Pending(consumer, now, SaturatingInc(pending[id].deliveries)) else pending[id]
  }

  datatype Page = Page(group: Group, next: StreamId, claimed: seq<StreamId>, deleted: seq<StreamId>)

  function AutoClaimPage(g: Group, live: set<StreamId>, consumer: string, minIdle: int, start: StreamId, count: nat, now: int): Page {
    var candidates := Candidates(g.pending, start, minIdle, now);
    var k := PageEnd(candidates, live, count);
    var claimed, deleted := Select(candidates[..k], live, true), Select(candidates[..k], live, false);
    var pending := TakenOver(g.pending - ToSet(deleted), ToSet(claimed), consumer, now);
    Page(
      g.(pending := pending, consumers := g.consumers[consumer := now]),
      if k < |candidates| then candidates[k] else MIN,
      claimed,
      deleted)
  }

  // ---------------------------------------------------------------------------
  // Commands
  // ---------------------------------------------------------------------------

  datatype Command =
    | XAdd(spec: AddId, fields: seq<(string, bytes)>, nomkstream: bool, trim: Option<(Bound, Option<nat>)>, clock: u64)
    | XDel(ids: seq<StreamId>)
    | XTrim(bound: Bound, limit: Option<nat>)
    | XGroup(group: string, op: GroupOp)
    | XReadGroup(group: string, consumer: string, id: ReadId, count: Option<nat>, noack: bool, now: int)
    | XAck(group: string, ids: seq<StreamId>)
    | XClaim(group: string, consumer: string, minIdle: int, ids: seq<StreamId>, opts: ClaimOptions)
    | XAutoClaim(group: string, consumer: string, minIdle: int, start: StreamId, page: nat, justId: bool, now: int)

  type Stored = Option<StreamValue>

  function OrEmpty(stored: Stored): StreamValue {
    if stored.Some? then stored.value else Empty
  }

  function ExecuteAdd(stored: Stored, c: Command): (Stored, Reply)
    requires c.XAdd?
  {
    if stored.None? && c.nomkstream then (None, Nothing)
    else
      var s := OrEmpty(stored);
      match ResolveAddId(c.spec, s.lastGenerated, c.clock)
      case None => (stored, Failed)
      case Some(id) =>
        var longer := Append(s, id, c.fields);
        (Some(if c.trim.Some? then Trim(longer, c.trim.value.0, c.trim.value.1) else longer), Added(id))
  }

  function ExecuteGroup(stored: Stored, c: Command): (Stored, Reply)
    requires c.XGroup?
  {
    var (s, reply) := ApplyGroupOp(OrEmpty(stored), c.group, c.op, stored.Some?);
    if reply.Failed? then (stored, Failed) else (Some(s), reply)
  }

  function ExecuteRead(stored: Stored, c: Command): (Stored, Reply)
    requires c.XReadGroup?
  {
    if stored.None? || c.group !in stored.value.groups then (stored, Failed)
    else
      var (s, entries) :=
        match c.id
        case NewEntries => ReadNew(stored.value, c.group, c.consumer, c.count, c.noack, c.now)
        case PendingAfter(after) => ReadPending(stored.value, c.group, c.consumer, after, c.count, c.now);
      (Some(s), Entries(SortById(entries)))
  }

  function ExecuteAck(stored: Stored, c: Command): (Stored, Reply)
    requires c.XAck?
  {
    if stored.None? || c.group !in stored.value.groups then (stored, Count(0))
    else
      var g := stored.value.groups[c.group];
      var pending := g.pending - ToSet(c.ids);
      (Some(SetGroup(stored.value, c.group, g.(pending := pending))), Count(|g.pending| - |pending|))
  }

  function ExecuteClaim(stored: Stored, c: Command): (Stored, Reply)
    requires c.XClaim?
  {
    if stored.None? || c.group !in stored.value.groups then (stored, Failed)
    else
      var s := stored.value;
      var (g, taken) := ClaimAll(s.groups[c.group], c.ids, c.consumer, c.minIdle, c.opts);
      (Some(SetGroup(s, c.group, g)), Claimed(Bodies(s.entries, taken, c.opts.justId)))
  }

  function ExecuteAutoClaim(stored: Stored, c: Command): (Stored, Reply)
    requires c.XAutoClaim?
  {
    if stored.None? || c.group !in stored.value.groups then (stored, Failed)
    else
      var s := stored.value;
      var page := AutoClaimPage(s.groups[c.group], IdSet(s.entries), c.consumer, c.minIdle, c.start, c.page, c.now);
      (Some(SetGroup(s, c.group, page.group)), Swept(page.next, Bodies(s.entries, page.claimed, c.justId), page.deleted))
  }

  /** The stored value and the reply after a command's update has been applied to what was stored. */
  function Execute(stored: Stored, c: Command): (Stored, Reply) {
    match c
    case XAdd(_, _, _, _, _) => ExecuteAdd(stored, c)
    case XDel(ids) =>
      if stored.None? then (None, Count(0))
      else
        var s := Drop(stored.value, ids);
        (Some(s), Count(|stored.value.entries| - |s.entries|))
    case XTrim(bound, limit) =>
      if stored.None? then (None, Count(0))
      else (Some(Trim(stored.value, bound, limit)), Count(TrimCount(stored.value, bound, limit)))
    case XGroup(_, _) => ExecuteGroup(stored, c)
    case XReadGroup(_, _, _, _, _, _) => ExecuteRead(stored, c)
    case XAck(_, _) => ExecuteAck(stored, c)
    case XClaim(_, _, _, _, _) => ExecuteClaim(stored, c)
    case XAutoClaim(_, _, _, _, _, _, _) => ExecuteAutoClaim(stored, c)
  }
}
