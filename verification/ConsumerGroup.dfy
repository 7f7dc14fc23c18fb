/** One consumer group over a whole run: ids are delivered in order with none skipped, and every
  * delivered id is pending, acknowledged, dropped with its consumer, or reported as deleted.
  */
module ConsumerGroup {
  import opened Bytes
  import opened Ordered
  import opened StreamTypes
  import opened Stream
  import opened StreamLog
  import AutoClaim

  /** A group's life since its creation: what it handed out and where each id went. */
  datatype Tracked = Tracked(
    history: History,
    name: string,
    start: StreamId,
    delivered: seq<StreamId>,
    acked: set<StreamId>,
    dropped: set<StreamId>,
    purged: set<StreamId>,
    acks: int,
    drops: int)

  ghost predicate Exists(t: Tracked) {
    t.history.stored.Some? && t.name in t.history.stored.value.groups
  }

  function GroupOf(t: Tracked): Group {
    var groups := OrEmpty(t.history.stored).groups;
    if t.name in groups then groups[t.name] else Group(MIN, map[], map[])
  }

  predicate Targets(c: Command, name: string) {
    match c
    case XAdd(_, _, _, _, _) => false
    case XDel(_) => false
    case XTrim(_, _) => false
    case _ => c.group == name
  }

  predicate ReadsNew(c: Command, name: string) {
    c.XReadGroup? && c.group == name && c.id.NewEntries?
  }

  predicate Deletes(c: Command, name: string) {
    c.XGroup? && c.group == name && c.op.DelConsumer?
  }

  /** Neither moves the group's cursor by hand nor destroys the group. */
  predicate KeepsGroup(c: Command, name: string) {
    !(c.XGroup? && c.group == name && (c.op.SetId? || c.op.Destroy?))
  }

  /** Deliveries enter the pending list and nothing else does. */
  predicate Regular(c: Command, name: string) {
    && KeepsGroup(c, name)
    && !(c.XReadGroup? && c.group == name && c.noack)
    && !(c.XClaim? && c.group == name && c.opts.force)
  }

  /** The pending ids a command settles, by what the command names or reports. */
  function Settled(pending: PendingList, c: Command, name: string, reply: Reply): set<StreamId> {
    if !Targets(c, name) then {}
    else match c
      case XAck(_, ids) => ToSet(ids) * pending.Keys
      case XGroup(_, DelConsumer(consumer)) => OwnedBy(pending, consumer)
      case XAutoClaim(_, _, _, _, _, _, _) => if reply.Swept? then ToSet(reply.deleted) else {}
      case _ => {}
  }

  function ReplyCount(reply: Reply): int {
    if reply.Count? then reply.n else 0
  }

  function Observe(t: Tracked, c: Command): Tracked {
    var reply := Execute(t.history.stored, c).1;
    var settled := Settled(GroupOf(t).pending, c, t.name, reply);
    t.(
      history := After(t.history, c),
      delivered := if ReadsNew(c, t.name) && reply.Entries? then t.delivered + IdsOf(reply.entries) else t.delivered,
      acked := if c.XAck? then t.acked + settled else t.acked,
      acks := if c.XAck? && c.group == t.name then t.acks + ReplyCount(reply) else t.acks,
      dropped := if c.XGroup? then t.dropped + settled else t.dropped,
      drops := if Deletes(c, t.name) then t.drops + ReplyCount(reply) else t.drops,
      purged := if c.XAutoClaim? then t.purged + settled else t.purged)
  }

  function Track(t: Tracked, commands: seq<Command>): Tracked
    decreases |commands|
  {
    if commands == [] then t else Track(Observe(t, commands[0]), commands[1..])
  }

  // ---------------------------------------------------------------------------
  // The invariants
  // ---------------------------------------------------------------------------

  /** Handed-out ids ascend from the start id, and nothing up to the cursor was passed over. */
  ghost predicate InOrder(t: Tracked) {
    && Exists(t) && Sound(t.history)
    && OrderedDeliveries(t.delivered, t.start, GroupOf(t).lastDelivered)
    && CursorInLog(t.start, GroupOf(t).lastDelivered, OrEmpty(t.history.stored).lastGenerated)
    && NoneSkipped(OrEmpty(t.history.stored).entries, t.start, GroupOf(t).lastDelivered, t.delivered)
  }

  ghost predicate OrderedDeliveries(delivered: seq<StreamId>, start: StreamId, last: StreamId) {
    && Ascending(delivered, Before)
    && (forall id :: id in delivered ==> Before(start, id))
    && last == (if delivered == [] then start else delivered[|delivered| - 1])
  }

  /** A cursor that has moved points at an id the stream has generated. */
  predicate CursorInLog(start: StreamId, last: StreamId, generated: StreamId) {
    last == start || AtMost(last, generated)
  }

  ghost predicate NoneSkipped(entries: seq<Entry>, start: StreamId, last: StreamId, delivered: seq<StreamId>) {
    forall e :: e in entries && Before(start, e.id) && AtMost(e.id, last) ==> e.id in delivered
  }

  /** Every delivered id is in exactly one place, and the replies counted right. */
  ghost predicate Conserved(t: Tracked) {
    && Partitioned(ToSet(t.delivered), GroupOf(t).pending.Keys, t.acked, t.dropped, t.purged)
    && t.acks == |t.acked| && t.drops == |t.dropped|
  }

  ghost predicate Partitioned(whole: set<StreamId>, a: set<StreamId>, b: set<StreamId>, c: set<StreamId>, d: set<StreamId>) {
    whole == a + b + c + d && a !! b && a !! c && a !! d && b !! c && b !! d && c !! d
  }

  // ---------------------------------------------------------------------------
  // Commands that do not hand out new entries
  // ---------------------------------------------------------------------------

  function GroupIn(stored: Stored, name: string): Option<Group> {
    if stored.Some? && name in stored.value.groups then Some(stored.value.groups[name]) else None
  }

  lemma OthersLeaveGroup(stored: Stored, c: Command, name: string)
    requires !Targets(c, name) && GroupIn(stored, name).Some?
    ensures GroupIn(Execute(stored, c).0, name) == GroupIn(stored, name)
  {
  }

  lemma {:induction false} ClaimKeeps(g: Group, ids: seq<StreamId>, consumer: string, minIdle: int, opts: ClaimOptions)
    ensures
      var g' := ClaimAll(g, ids, consumer, minIdle, opts).0;
      && g'.lastDelivered == g.lastDelivered
      && g.pending.Keys <= g'.pending.Keys
      && (!opts.force ==> g'.pending.Keys == g.pending.Keys)
  {
    if ids != [] {
      ClaimKeeps(g, ids[..|ids| - 1], consumer, minIdle, opts);
    }
  }

  /** XCLAIM takes exactly the listed ids that are pending and idle long enough (or, when forced, not
    * pending at all); each then belongs to the caller with the requested delivery time, and every
    * other row is as it was. An id listed once gains one delivery unless a count was given.
    */
  lemma {:induction false} ClaimTakesIdleIds(g: Group, ids: seq<StreamId>, consumer: string, minIdle: int, opts: ClaimOptions)
    ensures ClaimedExactly(g, ids, consumer, minIdle, opts)
  {
    if ids != [] {
      var front, last := ids[..|ids| - 1], ids[|ids| - 1];
      ClaimTakesIdleIds(g, front, consumer, minIdle, opts);
      ClaimStep(g, front, last, consumer, minIdle, opts);
      assert ids == front + [last];
    }
  }

  /** Pending for at least `minIdle` milliseconds, or not pending and forced. A bound of zero or less is
    * met even by a row whose delivery time lies in the future.
    */
  predicate MayTake(pending: PendingList, id: StreamId, minIdle: int, opts: ClaimOptions) {
    if id in pending then opts.now - pending[id].deliveredAt >= minIdle || minIdle <= 0 else opts.force
  }

  ghost predicate ClaimedExactly(g: Group, ids: seq<StreamId>, consumer: string, minIdle: int, opts: ClaimOptions) {
    var (g', taken) := ClaimAll(g, ids, consumer, minIdle, opts);
    && (forall id :: id in taken <==> id in ids && MayTake(g.pending, id, minIdle, opts))
    && g'.pending.Keys == g.pending.Keys + ToSet(taken)
    && (forall id :: id in g'.pending ==>
          if id in taken then OwnedRow(g, g'.pending[id], id, ids, consumer, opts) else g'.pending[id] == g.pending[id])
  }

  /** A row that an XCLAIM of `ids` has taken over. */
  predicate OwnedRow(g: Group, row: Pending, id: StreamId, ids: seq<StreamId>, consumer: string, opts: ClaimOptions) {
    && row.consumer == consumer
    && row.deliveredAt == (
         if opts.timeMs.Some? then opts.timeMs.value
         else if opts.idleMs.Some? then opts.now - opts.idleMs.value
         else opts.now)
    && (opts.retryCount.Some? ==> row.deliveries == opts.retryCount.value)
    && (opts.retryCount.None? && multiset(ids)[id] == 1 ==>
          row.deliveries == if id in g.pending then SaturatingInc(g.pending[id].deliveries) else 1)
  }

  lemma ClaimStep(g: Group, front: seq<StreamId>, last: StreamId, consumer: string, minIdle: int, opts: ClaimOptions)
    requires ClaimedExactly(g, front, consumer, minIdle, opts)
    ensures ClaimedExactly(g, front + [last], consumer, minIdle, opts)
  {
    var (m, taken) := ClaimAll(g, front, consumer, minIdle, opts);
    var (m', taken') := ClaimAll(g, front + [last], consumer, minIdle, opts);
    ClaimUnfolds(g, front, last, consumer, minIdle, opts);
    ClaimedRowIsOwned(g, m, front, last, consumer, opts);
    OwnedRowLasts(g, front, last, consumer, opts);
    hide ClaimAll, ClaimedRow, DeliveryTime, OwnedRow;
    assert ToSet(taken + [last]) == ToSet(taken) + {last};
  }

  /** A row owned for one id stays owned when a different id is listed after it. */
  lemma OwnedRowLasts(g: Group, front: seq<StreamId>, last: StreamId, consumer: string, opts: ClaimOptions)
    ensures forall row, id | OwnedRow(g, row, id, front, consumer, opts) && (id != last || id in front) ::
      OwnedRow(g, row, id, front + [last], consumer, opts)
  {
    assert multiset(front + [last]) == multiset(front) + multiset{last};
    assert last in front <==> multiset(front)[last] > 0;
  }

  lemma ClaimUnfolds(g: Group, front: seq<StreamId>, last: StreamId, consumer: string, minIdle: int, opts: ClaimOptions)
    ensures
      var (m, taken) := ClaimAll(g, front, consumer, minIdle, opts);
      ClaimAll(g, front + [last], consumer, minIdle, opts) ==
      if !Claims(m.pending, last, minIdle, opts) then (m, taken)
      else
        (m.(pending := m.pending[last := ClaimedRow(m.pending, last, consumer, opts)],
            consumers := m.consumers[consumer := opts.now]),
         taken + [last])
  {
    assert (front + [last])[..|front|] == front;
  }

  /** The row XCLAIM writes is one it owns, if the id's earlier row was untouched or owned. */
  lemma ClaimedRowIsOwned(g: Group, m: Group, front: seq<StreamId>, last: StreamId, consumer: string, opts: ClaimOptions)
    ensures last !in front && (last in m.pending <==> last in g.pending) && (last in m.pending ==> m.pending[last] == g.pending[last]) ==>
      OwnedRow(g, ClaimedRow(m.pending, last, consumer, opts), last, front + [last], consumer, opts)
    ensures last in front ==> OwnedRow(g, ClaimedRow(m.pending, last, consumer, opts), last, front + [last], consumer, opts)
  {
    assert multiset(front + [last]) == multiset(front) + multiset{last};
    assert last in front <==> multiset(front)[last] > 0;
  }

  lemma AutoClaimKeeps(g: Group, live: set<StreamId>, c: Command)
    requires c.XAutoClaim?
    ensures
      var page := AutoClaimPage(g, live, c.consumer, c.minIdle, c.start, c.page, c.now);
      && page.group.lastDelivered == g.lastDelivered
      && page.group.pending.Keys == g.pending.Keys - ToSet(page.deleted)
      && ToSet(page.deleted) <= g.pending.Keys
  {
    AutoClaim.PageRows(g, live, c);
    AutoClaim.CandidatesFacts(g.pending, c.start, c.minIdle, c.now);
    var page := AutoClaimPage(g, live, c.consumer, c.minIdle, c.start, c.page, c.now);
    var ids := Candidates(g.pending, c.start, c.minIdle, c.now);
    assert page.group.lastDelivered == g.lastDelivered;
    hide AutoClaimPage, Candidates;
    forall id | id in page.deleted
      ensures id in g.pending
    {
      assert id in ids;
    }
  }

  /** The group after a command that targets it and reads no new entries. */
  ghost predicate Settles(stored: Stored, c: Command, name: string) {
    var (stored', reply) := Execute(stored, c);
    var g, g' := GroupIn(stored, name), GroupIn(stored', name);
    g.Some? && g'.Some? &&
    var settled := Settled(g.value.pending, c, name, reply);
    && g'.value.lastDelivered == g.value.lastDelivered
    && settled <= g.value.pending.Keys
    && (Regular(c, name) ==> g'.value.pending.Keys == g.value.pending.Keys - settled)
    && (c.XAck? || Deletes(c, name) ==> reply == Count(|settled|))
  }

  lemma AckSettles(stored: Stored, c: Command)
    requires c.XAck? && GroupIn(stored, c.group).Some?
    ensures Settles(stored, c, c.group)
  {
  }

  lemma GroupOpSettles(stored: Stored, c: Command)
    requires c.XGroup? && GroupIn(stored, c.group).Some? && KeepsGroup(c, c.group)
    ensures Settles(stored, c, c.group)
  {
  }

  lemma ReadSettles(stored: Stored, c: Command)
    requires c.XReadGroup? && GroupIn(stored, c.group).Some? && !ReadsNew(c, c.group)
    ensures Settles(stored, c, c.group)
  {
  }

  lemma ClaimSettles(stored: Stored, c: Command)
    requires c.XClaim? && GroupIn(stored, c.group).Some?
    ensures Settles(stored, c, c.group)
  {
    ClaimKeeps(stored.value.groups[c.group], c.ids, c.consumer, c.minIdle, c.opts);
    hide ClaimAll;
  }

  lemma AutoClaimSettles(stored: Stored, c: Command)
    requires c.XAutoClaim? && GroupIn(stored, c.group).Some?
    ensures Settles(stored, c, c.group)
  {
    var s := stored.value;
    AutoClaimKeeps(s.groups[c.group], IdSet(s.entries), c);
    AutoClaimEffect(stored, c);
    hide AutoClaimPage, ToSet, Execute;
  }

  lemma AutoClaimEffect(stored: Stored, c: Command)
    requires c.XAutoClaim? && GroupIn(stored, c.group).Some?
    ensures
      var s := stored.value;
      var page := AutoClaimPage(s.groups[c.group], IdSet(s.entries), c.consumer, c.minIdle, c.start, c.page, c.now);
      var (stored', reply) := Execute(stored, c);
      GroupIn(stored', c.group) == Some(page.group) && reply.Swept? && reply.deleted == page.deleted
  {
    hide AutoClaimPage;
  }

  lemma SettlesAnyway(stored: Stored, c: Command, name: string)
    requires GroupIn(stored, name).Some? && KeepsGroup(c, name) && !ReadsNew(c, name)
    requires Targets(c, name)
    ensures Settles(stored, c, name)
  {
    hide Settles, Execute;
    match c {
      case XGroup(_, _) => GroupOpSettles(stored, c);
      case XReadGroup(_, _, _, _, _, _) => ReadSettles(stored, c);
      case XAck(_, _) => AckSettles(stored, c);
      case XClaim(_, _, _, _, _) => ClaimSettles(stored, c);
      case XAutoClaim(_, _, _, _, _, _, _) => AutoClaimSettles(stored, c);
    }
  }

  // ---------------------------------------------------------------------------
  // The log moves under the group
  // ---------------------------------------------------------------------------

  /** Entries are only ever added above everything generated before. */
  ghost predicate GrowsAtEnd(s: StreamValue, s': StreamValue) {
    && AtMost(s.lastGenerated, s'.lastGenerated)
    && (forall e :: e in s'.entries ==> e.id in IdSet(s.entries) || Before(s.lastGenerated, e.id))
  }

  lemma LogGrowsAtEnd(h: History, c: Command)
    requires Sound(h)
    requires c.XAdd? ==> OrEmpty(h.stored).lastGenerated != MAX
    ensures GrowsAtEnd(OrEmpty(h.stored), OrEmpty(Execute(h.stored, c).0))
  {
    var s := OrEmpty(h.stored);
    assert forall e :: e in s.entries ==> e.id in IdSet(s.entries);
    match c {
      case XAdd(spec, fields, _, trim, clock) =>
        NewIdIsAbove(spec, s.lastGenerated, clock);
        AddGrowsAtEnd(s, c);
      case XDel(ids) => WithoutKeeps(s.entries, ids);
      case XTrim(_, _) =>
      case _ => GroupCommandsKeepLog(h.stored, c); hide Execute;
    }
  }

  lemma AddGrowsAtEnd(s: StreamValue, c: Command)
    requires c.XAdd?
    ensures forall id | Before(s.lastGenerated, id) ::
      && GrowsAtEnd(s, Append(s, id, c.fields))
      && (c.trim.Some? ==> GrowsAtEnd(s, Trim(Append(s, id, c.fields), c.trim.value.0, c.trim.value.1)))
  {
  }

  lemma NoneSkippedStays(s: StreamValue, s': StreamValue, start: StreamId, last: StreamId, delivered: seq<StreamId>)
    requires GrowsAtEnd(s, s')
    requires CursorInLog(start, last, s.lastGenerated) && NoneSkipped(s.entries, start, last, delivered)
    ensures CursorInLog(start, last, s'.lastGenerated) && NoneSkipped(s'.entries, start, last, delivered)
  {
  }

  /** A step that leaves the cursor where it was keeps the order. */
  lemma StillInOrder(t: Tracked, c: Command)
    requires InOrder(t) && Sound(After(t.history, c))
    requires c.XAdd? ==> OrEmpty(t.history.stored).lastGenerated != MAX
    requires KeepsGroup(c, t.name) && !ReadsNew(c, t.name)
    ensures InOrder(Observe(t, c))
  {
    var t' := Observe(t, c);
    var s, s' := OrEmpty(t.history.stored), OrEmpty(Execute(t.history.stored, c).0);
    if Targets(c, t.name) {
      SettlesAnyway(t.history.stored, c, t.name);
    } else {
      OthersLeaveGroup(t.history.stored, c, t.name);
    }
    LogGrowsAtEnd(t.history, c);
    assert OrEmpty(t'.history.stored) == s';
    assert t'.delivered == t.delivered && Exists(t') && GroupOf(t').lastDelivered == GroupOf(t).lastDelivered;
    hide Execute, Observe, Sound, GrowsAtEnd;
    assert Sound(t'.history) by { ObservedHistory(t, c); }
    NoneSkippedStays(s, s', t.start, GroupOf(t).lastDelivered, t.delivered);
    assert t'.start == t.start && t'.name == t.name by { ObservedHistory(t, c); }
  }

  lemma ObservedHistory(t: Tracked, c: Command)
    ensures Observe(t, c).history == After(t.history, c)
    ensures Observe(t, c).start == t.start && Observe(t, c).name == t.name
  {
  }

  lemma {:induction false} PresentIsFilter(entries: seq<Entry>, rows: seq<StreamId>)
    requires AscendingIds(entries) && Ascending(rows, Before)
    ensures AscendingIds(EntriesOf(entries, rows))
    ensures forall e :: e in EntriesOf(entries, rows) <==> e in entries && e.id in rows
  {
    if rows != [] {
      var front, last := rows[..|rows| - 1], rows[|rows| - 1];
      PresentIsFilter(entries, front);
      assert rows == front + [last];
      var before := EntriesOf(entries, front);
      forall i | 0 <= i < |before|
        ensures Before(before[i].id, last)
      {
        assert before[i] in before;
      }
      forall e | e in entries && e.id == last
        ensures Find(entries, last) == Some(e)
      {
        assert e.id in IdSet(entries);
      }
    }
  }

  /** The rows a consumer rereads: its own pending ids above `after`, oldest first, at most COUNT. */
  ghost predicate RereadRows(rows: seq<StreamId>, pending: PendingList, consumer: string, after: StreamId, count: Option<nat>) {
    var own := OwnAfter(pending, consumer, after);
    && Ascending(rows, Before) && ToSet(rows) <= own
    && |rows| == (if count.Some? && count.value < |own| then count.value else |own|)
    && (forall id, i :: id in own && 0 <= i < |rows| && Before(id, rows[i]) ==> id in rows)
  }

  lemma OldestPrefix(all: seq<StreamId>, own: set<StreamId>, n: nat)
    requires Ascending(all, Before) && (forall id :: id in all <==> id in own) && n <= |all|
    ensures Ascending(all[..n], Before) && ToSet(all[..n]) <= own
    ensures forall id, i :: id in own && 0 <= i < n && Before(id, all[..n][i]) ==> id in all[..n]
  {
    forall id, i | id in own && 0 <= i < n && Before(id, all[..n][i])
      ensures id in all[..n]
    {
      var k :| 0 <= k < |all| && all[k] == id;
      assert k > i ==> Before(all[i], all[k]);
      assert all[..n][k] == id;
    }
  }

  lemma OwnRowsAreReread(pending: PendingList, consumer: string, after: StreamId, count: Option<nat>)
    ensures RereadRows(Capped(OwnRows(pending, consumer, after), count), pending, consumer, after, count)
  {
    var all, own := OwnRows(pending, consumer, after), OwnAfter(pending, consumer, after);
    var n := if count.Some? && count.value < |all| then count.value else |all|;
    OwnRowsFacts(pending, consumer, after);
    hide OwnRows, OwnAfter, Before, Ascending, ToSet;
    OldestPrefix(all, own, n);
    assert Capped(all, count) == all[..n] by { assert all[..|all|] == all; }
  }

  lemma OwnRowsFacts(pending: PendingList, consumer: string, after: StreamId)
    ensures
      var all, own := OwnRows(pending, consumer, after), OwnAfter(pending, consumer, after);
      |all| == |own| && Ascending(all, Before) && forall id :: id in all <==> id in own
  {
    BeforeIsStrictTotal();
    hide OwnAfter;
  }

  /** XREADGROUP with an id hands a consumer those of its own oldest pending rows above that id, COUNT
    * of them at most, that are still in the stream, and records one more delivery for exactly the
    * rows it read.
    */
  lemma RereadIsExact(s: StreamValue, c: Command, after: StreamId)
    requires c.XReadGroup? && c.group in s.groups && AscendingIds(s.entries)
    ensures
      var g := s.groups[c.group];
      var (s', entries) := ReadPending(s, c.group, c.consumer, after, c.count, c.now);
      var rows := Capped(OwnRows(g.pending, c.consumer, after), c.count);
      && RereadRows(rows, g.pending, c.consumer, after, c.count)
      && AscendingIds(entries) && (forall e :: e in entries <==> e in s.entries && e.id in rows)
      && s' == SetGroup(s, c.group, g.(pending := s'.groups[c.group].pending))
      && s'.groups[c.group].pending.Keys == g.pending.Keys
      && (forall id :: id in g.pending ==>
            s'.groups[c.group].pending[id] ==
            if id in rows then g.pending[id].(deliveredAt := c.now, deliveries := SaturatingInc(g.pending[id].deliveries))
            else g.pending[id])
  {
    var g := s.groups[c.group];
    OwnRowsAreReread(g.pending, c.consumer, after, c.count);
    hide OwnRows, RereadRows;
    PresentIsFilter(s.entries, Capped(OwnRows(g.pending, c.consumer, after), c.count));
  }

  // ---------------------------------------------------------------------------
  // Handing out new entries
  // ---------------------------------------------------------------------------

  lemma {:induction false} NewerThanIsFilter(entries: seq<Entry>, last: StreamId)
    requires AscendingIds(entries)
    ensures AscendingIds(NewerThan(entries, last))
    ensures forall e :: e in NewerThan(entries, last) <==> e in entries && Before(last, e.id)
  {
    if entries != [] {
      var front, e := entries[..|entries| - 1], entries[|entries| - 1];
      NewerThanIsFilter(front, last);
      assert entries == front + [e];
      var before := NewerThan(front, last);
      forall i | 0 <= i < |before|
        ensures Before(before[i].id, e.id)
      {
        assert before[i] in front;
        var k :| 0 <= k < |front| && front[k] == before[i];
        assert Before(entries[k].id, entries[|entries| - 1].id);
      }
    }
  }

  lemma {:induction false} FurthestIsLast(last: StreamId, entries: seq<Entry>)
    requires AscendingIds(entries) && forall e :: e in entries ==> Before(last, e.id)
    ensures Furthest(last, entries) == if entries == [] then last else entries[|entries| - 1].id
  {
    if entries != [] {
      FurthestIsLast(last, entries[..|entries| - 1]);
      assert entries[|entries| - 1] in entries;
      assert |entries| > 1 ==> Before(entries[|entries| - 2].id, entries[|entries| - 1].id);
    }
  }

  /** The batch one read hands out: the oldest entries above the cursor, and the cursor behind them. */
  ghost predicate NextBatch(entries: seq<Entry>, last: StreamId, batch: seq<Entry>, last': StreamId) {
    && AscendingIds(batch)
    && (forall e :: e in batch ==> e in entries && Before(last, e.id))
    && last' == (if batch == [] then last else batch[|batch| - 1].id)
    && (forall e :: e in entries && Before(last, e.id) && AtMost(e.id, last') ==> e in batch)
  }

  lemma PrefixIsNextBatch(entries: seq<Entry>, last: StreamId, newer: seq<Entry>, n: nat, last': StreamId)
    requires AscendingIds(newer) && n <= |newer|
    requires forall e :: e in newer <==> e in entries && Before(last, e.id)
    requires last' == if n == 0 then last else newer[n - 1].id
    ensures NextBatch(entries, last, newer[..n], last')
  {
  }

  lemma ReadIsNextBatch(entries: seq<Entry>, last: StreamId, count: Option<nat>)
    requires AscendingIds(entries)
    ensures
      var batch := Capped(NewerThan(entries, last), count);
      NextBatch(entries, last, batch, Furthest(last, batch))
  {
    NewerThanIsFilter(entries, last);
    var newer := NewerThan(entries, last);
    var batch := Capped(newer, count);
    hide NewerThan, Furthest, NextBatch;
    assert batch == newer[..|batch|];
    assert forall e :: e in batch ==> e in newer;
    hide Capped;
    FurthestIsLast(last, batch);
    PrefixIsNextBatch(entries, last, newer, |batch|, Furthest(last, batch));
  }

  lemma BatchKeepsOrder(entries: seq<Entry>, last: StreamId, batch: seq<Entry>, last': StreamId, start: StreamId, delivered: seq<StreamId>)
    requires NextBatch(entries, last, batch, last')
    requires OrderedDeliveries(delivered, start, last) && NoneSkipped(entries, start, last, delivered)
    ensures OrderedDeliveries(delivered + IdsOf(batch), start, last')
    ensures NoneSkipped(entries, start, last', delivered + IdsOf(batch))
  {
    BatchOrdered(entries, last, batch, last', start, delivered);
    BatchSkipsNone(entries, last, batch, last', start, delivered);
  }

  lemma DeliveredAtMost(delivered: seq<StreamId>, start: StreamId, last: StreamId)
    requires OrderedDeliveries(delivered, start, last)
    ensures AtMost(start, last) && forall i :: 0 <= i < |delivered| ==> AtMost(delivered[i], last)
  {
    forall i | 0 <= i < |delivered|
      ensures AtMost(delivered[i], last)
    {
      assert i < |delivered| - 1 ==> Before(delivered[i], delivered[|delivered| - 1]);
    }
    assert delivered != [] ==> delivered[|delivered| - 1] in delivered;
  }

  lemma BatchOrdered(entries: seq<Entry>, last: StreamId, batch: seq<Entry>, last': StreamId, start: StreamId, delivered: seq<StreamId>)
    requires NextBatch(entries, last, batch, last') && OrderedDeliveries(delivered, start, last)
    ensures OrderedDeliveries(delivered + IdsOf(batch), start, last')
  {
    var ids, all := IdsOf(batch), delivered + IdsOf(batch);
    DeliveredAtMost(delivered, start, last);
    forall i | 0 <= i < |ids|
      ensures Before(last, ids[i])
    {
      assert batch[i] in batch;
    }
    forall i, j | 0 <= i < j < |all|
      ensures Before(all[i], all[j])
    {
      if i < |delivered| <= j {
        assert all[i] == delivered[i] && all[j] == ids[j - |delivered|];
      }
    }
    forall id | id in all
      ensures Before(start, id)
    {
      if id !in delivered {
        var i :| 0 <= i < |ids| && ids[i] == id;
      }
    }
  }

  lemma BatchSkipsNone(entries: seq<Entry>, last: StreamId, batch: seq<Entry>, last': StreamId, start: StreamId, delivered: seq<StreamId>)
    requires NextBatch(entries, last, batch, last') && NoneSkipped(entries, start, last, delivered)
    ensures NoneSkipped(entries, start, last', delivered + IdsOf(batch))
  {
    var all := delivered + IdsOf(batch);
    forall e | e in entries && Before(start, e.id) && AtMost(e.id, last')
      ensures e.id in all
    {
      if Before(last, e.id) {
        var i :| 0 <= i < |batch| && batch[i] == e;
        assert all[|delivered| + i] == e.id;
      } else {
        assert e.id in delivered;
      }
    }
  }

  lemma BatchCursorInLog(s: StreamValue, h: History, last: StreamId, batch: seq<Entry>, last': StreamId, start: StreamId)
    requires Sound(h) && s == OrEmpty(h.stored)
    requires NextBatch(s.entries, last, batch, last') && CursorInLog(start, last, s.lastGenerated)
    ensures CursorInLog(start, last', s.lastGenerated)
  {
    EntriesAtMostLast(s, h.added, h.removed);
    if batch != [] {
      assert batch[|batch| - 1] in batch;
    }
  }

  /** What a read of new entries does, in terms of the batch it hands out. */
  lemma ReadEffect(s: StreamValue, c: Command)
    requires c.XReadGroup? && c.id.NewEntries? && c.group in s.groups && AscendingIds(s.entries)
    ensures
      var g := s.groups[c.group];
      var batch := Capped(NewerThan(s.entries, g.lastDelivered), c.count);
      var (stored, reply) := Execute(Some(s), c);
      && NextBatch(s.entries, g.lastDelivered, batch, Furthest(g.lastDelivered, batch))
      && reply == Entries(batch)
      && stored == Some(SetGroup(s, c.group, Group(
           Furthest(g.lastDelivered, batch), g.consumers[c.consumer := c.now],
           if c.noack then g.pending else Delivered(g.pending, batch, c.consumer, c.now))))
  {
    var g := s.groups[c.group];
    var batch := Capped(NewerThan(s.entries, g.lastDelivered), c.count);
    ReadIsNextBatch(s.entries, g.lastDelivered, c.count);
    SortedAlready(batch);
    hide NewerThan, Furthest, SortById, NextBatch, Capped, Delivered;
  }

  lemma ReadInOrder(t: Tracked, c: Command)
    requires InOrder(t) && ReadsNew(c, t.name)
    requires Sound(After(t.history, c))
    ensures InOrder(Observe(t, c))
  {
    var t', s, g := Observe(t, c), t.history.stored.value, GroupOf(t);
    var batch := Capped(NewerThan(s.entries, g.lastDelivered), c.count);
    var last' := Furthest(g.lastDelivered, batch);
    ReadEffect(s, c);
    assert t'.history == After(t.history, c) && t'.delivered == t.delivered + IdsOf(batch);
    assert Exists(t') && GroupOf(t').lastDelivered == last';
    assert OrEmpty(t'.history.stored).entries == s.entries && OrEmpty(t'.history.stored).lastGenerated == s.lastGenerated;
    hide Execute, Observe, NewerThan, Furthest, Capped, After;
    BatchKeepsOrder(s.entries, g.lastDelivered, batch, last', t.start, t.delivered);
    BatchCursorInLog(s, t.history, g.lastDelivered, batch, last', t.start);
    hide Sound, NextBatch;
  }

  lemma StepInOrder(t: Tracked, c: Command)
    requires InOrder(t) && KeepsGroup(c, t.name)
    requires c.XAdd? ==> OrEmpty(t.history.stored).lastGenerated != MAX
    ensures InOrder(Observe(t, c))
  {
    StepSound(t.history, c);
    hide Sound, After, Observe;
    if ReadsNew(c, t.name) {
      ReadInOrder(t, c);
    } else {
      StillInOrder(t, c);
    }
  }

  ghost predicate AllKeep(commands: seq<Command>, name: string) {
    forall i :: 0 <= i < |commands| ==> KeepsGroup(commands[i], name)
  }

  lemma {:induction false} RunInOrder(t: Tracked, commands: seq<Command>)
    requires InOrder(t) && AllKeep(commands, t.name) && NeverFull(t.history, commands)
    ensures InOrder(Track(t, commands)) && Track(t, commands).name == t.name
    decreases |commands|
  {
    if commands != [] {
      assert KeepsGroup(commands[0], t.name);
      hide InOrder, Observe, After, KeepsGroup;
      StepInOrder(t, commands[0]);
      ObservedHistory(t, commands[0]);
      assert forall i :: 0 <= i < |commands[1..]| ==> commands[1..][i] == commands[i + 1];
      RunInOrder(Observe(t, commands[0]), commands[1..]);
    }
  }

  // ---------------------------------------------------------------------------
  // Conservation
  // ---------------------------------------------------------------------------

  /** What tracking a command that reads no new entries records. */
  ghost predicate Moves(t: Tracked, t': Tracked, c: Command, settled: set<StreamId>) {
    && settled <= GroupOf(t).pending.Keys
    && GroupOf(t').pending.Keys == GroupOf(t).pending.Keys - settled
    && t'.delivered == t.delivered
    && t'.acked == (if c.XAck? then t.acked + settled else t.acked)
    && t'.acks == (if c.XAck? then t.acks + |settled| else t.acks)
    && t'.dropped == (if c.XGroup? then t.dropped + settled else t.dropped)
    && t'.drops == (if c.XGroup? then t.drops + |settled| else t.drops)
    && t'.purged == (if c.XAutoClaim? then t.purged + settled else t.purged)
    && (!c.XAck? && !c.XGroup? && !c.XAutoClaim? ==> settled == {})
  }

  lemma TargetMoves(t: Tracked, c: Command)
    requires Exists(t) && Regular(c, t.name) && !ReadsNew(c, t.name) && Targets(c, t.name)
    ensures Moves(t, Observe(t, c), c, Settled(GroupOf(t).pending, c, t.name, Execute(t.history.stored, c).1))
  {
    SettlesAnyway(t.history.stored, c, t.name);
    hide Execute, OwnedBy, ToSet;
  }

  lemma OtherMoves(t: Tracked, c: Command)
    requires Exists(t) && !Targets(c, t.name)
    ensures Moves(t, Observe(t, c), c, {})
  {
    OtherObserved(t, c);
    OtherGroupSame(t, t.(history := After(t.history, c)), c);
    hide Observe, After, Targets, Exists;
    NoMove(t, t.(history := After(t.history, c)), c);
  }

  lemma OtherGroupSame(t: Tracked, t': Tracked, c: Command)
    requires Exists(t) && !Targets(c, t.name) && t'.name == t.name
    requires t'.history.stored == Execute(t.history.stored, c).0
    ensures GroupOf(t') == GroupOf(t)
  {
    OthersLeaveGroup(t.history.stored, c, t.name);
    hide Execute, Targets;
  }

  lemma NoMove(t: Tracked, t': Tracked, c: Command)
    requires GroupOf(t') == GroupOf(t) && t' == t.(history := t'.history)
    ensures Moves(t, t', c, {})
  {
    hide GroupOf;
    var none: set<StreamId> := {};
    assert GroupOf(t).pending.Keys - none == GroupOf(t).pending.Keys;
    assert t.acked + none == t.acked && t.dropped + none == t.dropped && t.purged + none == t.purged && |none| == 0;
  }

  lemma OtherObserved(t: Tracked, c: Command)
    requires !Targets(c, t.name)
    ensures Observe(t, c) == t.(history := After(t.history, c))
    ensures After(t.history, c).stored == Execute(t.history.stored, c).0
  {
    hide Execute;
    assert Settled(GroupOf(t).pending, c, t.name, Execute(t.history.stored, c).1) == {};
    assert t.acked + {} == t.acked && t.dropped + {} == t.dropped && t.purged + {} == t.purged;
  }

  lemma PartitionMove(whole: set<StreamId>, a: set<StreamId>, b: set<StreamId>, c: set<StreamId>, d: set<StreamId>, x: set<StreamId>)
    requires Partitioned(whole, a, b, c, d) && x <= a
    ensures Partitioned(whole, a - x, b + x, c, d) && |b + x| == |b| + |x|
  {
  }

  lemma PartitionSwap(whole: set<StreamId>, a: set<StreamId>, b: set<StreamId>, c: set<StreamId>, d: set<StreamId>)
    ensures Partitioned(whole, a, b, c, d) == Partitioned(whole, a, c, b, d) == Partitioned(whole, a, d, c, b)
  {
  }

  lemma MovesConserve(t: Tracked, t': Tracked, c: Command, settled: set<StreamId>)
    requires Conserved(t) && Moves(t, t', c, settled)
    ensures Conserved(t')
  {
    hide GroupOf, ToSet, Partitioned;
    var whole, keys := ToSet(t.delivered), GroupOf(t).pending.Keys;
    MovePartition(whole, keys, t.acked, t.dropped, t.purged, settled);
    assert settled == {} ==> keys - settled == keys;
  }

  lemma MovePartition(whole: set<StreamId>, keys: set<StreamId>, a: set<StreamId>, b: set<StreamId>, c: set<StreamId>, x: set<StreamId>)
    requires Partitioned(whole, keys, a, b, c) && x <= keys
    ensures Partitioned(whole, keys - x, a + x, b, c) && |a + x| == |a| + |x|
    ensures Partitioned(whole, keys - x, a, b + x, c) && |b + x| == |b| + |x|
    ensures Partitioned(whole, keys - x, a, b, c + x)
  {
    hide Partitioned;
    PartitionSwap(whole, keys, a, b, c);
    PartitionMove(whole, keys, a, b, c, x);
    PartitionMove(whole, keys, b, a, c, x);
    PartitionMove(whole, keys, c, b, a, x);
    PartitionSwap(whole, keys - x, b + x, a, c);
    PartitionSwap(whole, keys - x, c + x, b, a);
  }

  lemma SettledConserves(t: Tracked, c: Command)
    requires Exists(t) && Conserved(t) && Regular(c, t.name) && !ReadsNew(c, t.name)
    ensures Conserved(Observe(t, c))
  {
    hide Conserved, Observe, Moves, Exists;
    if Targets(c, t.name) {
      TargetMoves(t, c);
      MovesConserve(t, Observe(t, c), c, Settled(GroupOf(t).pending, c, t.name, Execute(t.history.stored, c).1));
    } else {
      OtherMoves(t, c);
      MovesConserve(t, Observe(t, c), c, {});
    }
  }

  lemma SizesAdd(a: set<StreamId>, b: set<StreamId>)
    ensures a !! b ==> |a + b| == |a| + |b|
  {
  }

  lemma BatchConserves(g: Group, batch: seq<Entry>, last': StreamId, entries: seq<Entry>, start: StreamId, delivered: seq<StreamId>, c: Command)
    requires c.XReadGroup?
    requires NextBatch(entries, g.lastDelivered, batch, last')
    requires OrderedDeliveries(delivered, start, g.lastDelivered)
    ensures ToSet(delivered + IdsOf(batch)) == ToSet(delivered) + IdSet(batch)
    ensures ToSet(delivered) !! IdSet(batch)
    ensures Delivered(g.pending, batch, c.consumer, c.now).Keys == g.pending.Keys + IdSet(batch)
  {
  }

  /** What tracking a read of new entries records. */
  lemma ReadObserved(t: Tracked, c: Command)
    requires Exists(t) && ReadsNew(c, t.name) && !c.noack && AscendingIds(t.history.stored.value.entries)
    ensures
      var t', s, g := Observe(t, c), t.history.stored.value, GroupOf(t);
      var batch := Capped(NewerThan(s.entries, g.lastDelivered), c.count);
      && t' == t.(history := t'.history, delivered := t.delivered + IdsOf(batch))
      && GroupOf(t').pending == Delivered(g.pending, batch, c.consumer, c.now)
      && NextBatch(s.entries, g.lastDelivered, batch, Furthest(g.lastDelivered, batch))
  {
    var t' := Observe(t, c);
    ReadEffect(t.history.stored.value, c);
    hide Execute, NextBatch, Capped, NewerThan, Furthest, Delivered;
    assert t'.history.stored == Execute(t.history.stored, c).0;
    assert Settled(GroupOf(t).pending, c, t.name, Execute(t.history.stored, c).1) == {};
  }

  lemma PartitionGrows(whole: set<StreamId>, a: set<StreamId>, b: set<StreamId>, c: set<StreamId>, d: set<StreamId>, more: set<StreamId>)
    requires Partitioned(whole, a, b, c, d) && whole !! more
    ensures Partitioned(whole + more, a + more, b, c, d)
  {
  }

  lemma ReadConserves(t: Tracked, c: Command)
    requires InOrder(t) && Conserved(t) && Regular(c, t.name) && ReadsNew(c, t.name)
    ensures Conserved(Observe(t, c))
  {
    var t', s, g := Observe(t, c), t.history.stored.value, GroupOf(t);
    var batch := Capped(NewerThan(s.entries, g.lastDelivered), c.count);
    ReadObserved(t, c);
    hide Observe, NewerThan, Furthest, Capped, Partitioned;
    BatchConserves(g, batch, Furthest(g.lastDelivered, batch), s.entries, t.start, t.delivered, c);
    PartitionGrows(ToSet(t.delivered), g.pending.Keys, t.acked, t.dropped, t.purged, IdSet(batch));
    hide InOrder, NextBatch, Delivered, IdSet, ToSet, GroupOf;
  }

  lemma StepConserves(t: Tracked, c: Command)
    requires InOrder(t) && Conserved(t) && Regular(c, t.name)
    ensures Conserved(Observe(t, c))
  {
    if ReadsNew(c, t.name) {
      ReadConserves(t, c);
    } else {
      SettledConserves(t, c);
    }
  }

  ghost predicate AllRegular(commands: seq<Command>, name: string) {
    forall i :: 0 <= i < |commands| ==> Regular(commands[i], name)
  }

  lemma RegularTail(commands: seq<Command>, name: string)
    requires commands != [] && AllRegular(commands, name)
    ensures Regular(commands[0], name) && KeepsGroup(commands[0], name) && AllRegular(commands[1..], name)
  {
  }

  lemma {:induction false} RunConserves(t: Tracked, commands: seq<Command>)
    requires InOrder(t) && Conserved(t) && AllRegular(commands, t.name) && NeverFull(t.history, commands)
    ensures Conserved(Track(t, commands))
    decreases |commands|
  {
    if commands != [] {
      RegularTail(commands, t.name);
      hide InOrder, Conserved, Observe, After, Regular, KeepsGroup, AllRegular;
      StepInOrder(t, commands[0]);
      StepConserves(t, commands[0]);
      ObservedHistory(t, commands[0]);
      RunConserves(Observe(t, commands[0]), commands[1..]);
    }
  }

  // ---------------------------------------------------------------------------
  // From the group's creation
  // ---------------------------------------------------------------------------

  predicate Creates(h: History, c: Command) {
    c.XGroup? && c.op.Create? && Execute(h.stored, c).1 == Count(1)
  }

  /** Tracking starts when the group is created. */
  function Opened(h: History, c: Command): Tracked
    requires Creates(h, c)
  {
    Tracked(After(h, c), c.group, StartOf(OrEmpty(h.stored), c.op.start), [], {}, {}, {}, 0, 0)
  }

  lemma OpenedInOrder(h: History, c: Command)
    requires Sound(h) && Creates(h, c)
    ensures InOrder(Opened(h, c)) && Conserved(Opened(h, c))
  {
  }

  /** In every run without SETID or DESTROY of the group, from any reachable stream: the ids that
    * XREADGROUP hands out across all consumers strictly ascend from the start id, and no entry in the
    * stream between the start id and the cursor was passed over, whatever COUNTs were used.
    */
  lemma DeliveredInOrder(before: seq<Command>, create: Command, after: seq<Command>)
    requires NeverFull(Beginning, before)
    requires Creates(Run(Beginning, before), create)
    requires AllKeep(after, create.group) && NeverFull(After(Run(Beginning, before), create), after)
    ensures
      var t := Track(Opened(Run(Beginning, before), create), after);
      var last := GroupOf(t).lastDelivered;
      && Exists(t) && Ascending(t.delivered, Before)
      && (forall id :: id in t.delivered ==> Before(t.start, id) && AtMost(id, last))
      && NoneSkipped(OrEmpty(t.history.stored).entries, t.start, last, t.delivered)
  {
    var h := Run(Beginning, before);
    RunSound(Beginning, before);
    OpenedInOrder(h, create);
    RunInOrder(Opened(h, create), after);
    var t := Track(Opened(h, create), after);
    assert InOrder(t);
    hide Run, Track, NeverFull, After, InOrder;
    InOrderMeans(t);
  }

  lemma InOrderMeans(t: Tracked)
    requires InOrder(t)
    ensures Exists(t) && Ascending(t.delivered, Before)
    ensures forall id :: id in t.delivered ==> Before(t.start, id) && AtMost(id, GroupOf(t).lastDelivered)
    ensures NoneSkipped(OrEmpty(t.history.stored).entries, t.start, GroupOf(t).lastDelivered, t.delivered)
  {
  }

  /** In every run without SETID or DESTROY of the group, NOACK reads or forced claims: the delivered
    * ids are the disjoint union of those pending, acknowledged, dropped with a consumer and reported
    * deleted, and the replies of XACK and DELCONSUMER add up to the sizes of those sets.
    */
  lemma PendingIsConserved(before: seq<Command>, create: Command, after: seq<Command>)
    requires NeverFull(Beginning, before)
    requires Creates(Run(Beginning, before), create)
    requires AllRegular(after, create.group) && NeverFull(After(Run(Beginning, before), create), after)
    ensures
      var t := Track(Opened(Run(Beginning, before), create), after);
      && Partitioned(ToSet(t.delivered), GroupOf(t).pending.Keys, t.acked, t.dropped, t.purged)
      && t.acks == |t.acked| && t.drops == |t.dropped|
      && |t.delivered| == |GroupOf(t).pending| + t.acks + t.drops + |t.purged|
  {
    var h := Run(Beginning, before);
    RunSound(Beginning, before);
    OpenedInOrder(h, create);
    RunConserves(Opened(h, create), after);
    assert AllKeep(after, create.group);
    RunInOrder(Opened(h, create), after);
    var t := Track(Opened(h, create), after);
    assert InOrder(t) && Conserved(t);
    hide Run, Track, NeverFull, After, InOrder, Conserved;
    ConservedMeans(t);
  }

  lemma ConservedMeans(t: Tracked)
    requires InOrder(t) && Conserved(t)
    ensures Partitioned(ToSet(t.delivered), GroupOf(t).pending.Keys, t.acked, t.dropped, t.purged)
    ensures t.acks == |t.acked| && t.drops == |t.dropped|
    ensures |t.delivered| == |GroupOf(t).pending| + t.acks + t.drops + |t.purged|
  {
    AscendingSize(t.delivered);
    var keys := GroupOf(t).pending.Keys;
    assert |GroupOf(t).pending| == |keys|;
    hide InOrder, GroupOf, ToSet;
    SizesAdd(keys, t.acked);
    SizesAdd(keys + t.acked, t.dropped);
    SizesAdd(keys + t.acked + t.dropped, t.purged);
  }
}
