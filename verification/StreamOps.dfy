/** The stream commands as they run: a private copy of the stored stream, changed step by step. Each
  * method leaves exactly the value that the corresponding function of `Stream` describes.
  */
module StreamOps {
  import opened Bytes
  import opened Values
  import opened Ordered
  import opened StreamTypes
  import opened Stream

  // ---------------------------------------------------------------------------
  // Searching and filtering
  // ---------------------------------------------------------------------------

  /** Everything below the bound comes first, as on any stream in order. */
  ghost predicate PartitionedAt(entries: seq<Entry>, min: StreamId) {
    forall i, j :: 0 <= i < j < |entries| && Before(entries[j].id, min) ==> Before(entries[i].id, min)
  }

  /** A place where the entries step over the bound. Disordered entries may have several. */
  ghost predicate IsCut(entries: seq<Entry>, min: StreamId, k: nat) {
    && k <= |entries|
    && (k > 0 ==> Before(entries[k - 1].id, min))
    && (k < |entries| ==> !Before(entries[k].id, min))
  }

  /** Bisection: always a place where the entries step over the bound, and on entries divided by the
    * bound the number of those below it.
    */
  method PartitionPoint(entries: seq<Entry>, min: StreamId) returns (k: nat)
    ensures IsCut(entries, min, k)
    ensures PartitionedAt(entries, min) ==> k == Below(entries, min)
  {
    var lo: nat, hi: nat := 0, |entries|;
    while lo < hi
      invariant lo <= hi <= |entries|
      invariant lo > 0 ==> Before(entries[lo - 1].id, min)
      invariant hi < |entries| ==> !Before(entries[hi].id, min)
    {
      var mid := (lo + hi) / 2;
      if Before(entries[mid].id, min) {
        lo := mid + 1;
      } else {
        hi := mid;
      }
    }
    k := lo;
    if PartitionedAt(entries, min) {
      OneCut(entries, min, k);
    }
  }

  lemma OneCut(entries: seq<Entry>, min: StreamId, k: nat)
    requires PartitionedAt(entries, min) && IsCut(entries, min, k)
    ensures k == Below(entries, min)
  {
    var b := Below(entries, min);
    var atB, atK := b < |entries| && Before(entries[b].id, min), k < |entries| && Before(entries[k].id, min);
    var before := k > 0 && Before(entries[k - 1].id, min);
    assert !atB && !atK && (k > 0 ==> before);
  }

  /** The number of entries a trim may remove: the excess, or up to a cut, as LIMIT allows. */
  ghost predicate IsTrimSize(s: StreamValue, bound: Bound, limit: Option<nat>, k: nat) {
    match bound
    case MaxLen(_) => k == TrimCount(s, bound, limit)
    case MinId(min) => exists t :: IsCut(s.entries, min, t) && k == Limited(t, limit)
  }

  ghost predicate Divided(s: StreamValue, bound: Bound) {
    bound.MinId? ==> PartitionedAt(s.entries, bound.min)
  }

  /** The ids of a pending list in ascending order, as its tree iterates. */
  function KeysInOrder(pending: PendingList): (ids: seq<StreamId>)
    ensures Ascending(ids, Before)
    ensures forall id :: id in ids <==> id in pending
  {
    BeforeIsStrictTotal();
    Sorted(pending.Keys, Before)
  }

  /** Filtering an ordered iteration enumerates the filtered set in order. */
  lemma FilteredIsSorted(keys: seq<StreamId>, rows: seq<StreamId>, wanted: set<StreamId>)
    requires Ascending(rows, Before)
    requires forall id :: id in rows <==> id in keys && id in wanted
    requires forall id :: id in wanted ==> id in keys
    ensures StrictTotal(Before) && rows == Sorted(wanted, Before)
  {
    BeforeIsStrictTotal();
    SortedUnique(rows, wanted, Before);
  }

  ghost predicate FilteredUpTo(keys: seq<StreamId>, wanted: set<StreamId>, i: nat, rows: seq<StreamId>)
    requires i <= |keys|
  {
    Ascending(rows, Before) && forall id :: id in rows <==> id in keys[..i] && id in wanted
  }

  lemma FilterStep(keys: seq<StreamId>, wanted: set<StreamId>, i: nat, rows: seq<StreamId>)
    requires Ascending(keys, Before) && i < |keys| && FilteredUpTo(keys, wanted, i, rows)
    ensures FilteredUpTo(keys, wanted, i + 1, if keys[i] in wanted then rows + [keys[i]] else rows)
  {
    assert keys[..i + 1] == keys[..i] + [keys[i]];
    forall j | 0 <= j < |rows|
      ensures Before(rows[j], keys[i])
    {
      assert rows[j] in keys[..i];
    }
  }

  method FilterKeys(pending: PendingList, wanted: set<StreamId>) returns (rows: seq<StreamId>)
    requires wanted <= pending.Keys
    ensures StrictTotal(Before) && rows == Sorted(wanted, Before)
  {
    hide StrictTotal;
    var keys := KeysInOrder(pending);
    rows := [];
    for i := 0 to |keys|
      invariant FilteredUpTo(keys, wanted, i, rows)
    {
      FilterStep(keys, wanted, i, rows);
      if keys[i] in wanted {
        rows := rows + [keys[i]];
      }
    }
    assert keys[..|keys|] == keys;
    FilteredIsSorted(keys, rows, wanted);
  }

  // ---------------------------------------------------------------------------
  // One row at a time
  // ---------------------------------------------------------------------------

  lemma DeliverOne(pending: PendingList, entries: seq<Entry>, i: nat, consumer: string, now: int)
    requires i < |entries|
    ensures Delivered(pending, entries[..i + 1], consumer, now)
         == Delivered(pending, entries[..i], consumer, now)[entries[i].id := Pending(consumer, now, 1)]
  {
  }

  lemma RemoveOne(pending: PendingList, id: StreamId)
    ensures if id in pending then |pending - {id}| == |pending| - 1 else pending - {id} == pending
  {
  }

  lemma RemoveNext(pending: PendingList, ids: seq<StreamId>, i: nat)
    requires i < |ids|
    ensures pending - ToSet(ids[..i]) - {ids[i]} == pending - ToSet(ids[..i + 1])
  {
  }

  method Bump(g: Group, rows: seq<StreamId>, now: int) returns (g': Group)
    requires Ascending(rows, Before) && forall id :: id in rows ==> id in g.pending
    ensures g' == g.(pending := Redelivered(g.pending, ToSet(rows), now))
  {
    var pending := g.pending;
    for i := 0 to |rows|
      invariant pending == Redelivered(g.pending, ToSet(rows[..i]), now)
    {
      var id := rows[i];
      assert id in rows && id !in rows[..i];
      BumpOne(g.pending, rows, i, now);
      pending := pending[id := pending[id].(deliveredAt := now, deliveries := SaturatingInc(pending[id].deliveries))];
    }
    assert rows[..|rows|] == rows;
    g' := g.(pending := pending);
  }

  lemma BumpOne(pending: PendingList, rows: seq<StreamId>, i: nat, now: int)
    requires i < |rows| && rows[i] in pending && rows[i] !in rows[..i]
    ensures
      var id, before := rows[i], Redelivered(pending, ToSet(rows[..i]), now);
      && id in before && before[id] == pending[id]
      && Redelivered(pending, ToSet(rows[..i + 1]), now)
         == before[id := pending[id].(deliveredAt := now, deliveries := SaturatingInc(pending[id].deliveries))]
  {
  }

  /** The pending list once a page has dealt with the given candidates. */
  function Handled(pending: PendingList, ids: seq<StreamId>, live: set<StreamId>, consumer: string, now: int): PendingList {
    TakenOver(pending - ToSet(Select(ids, live, false)), ToSet(Select(ids, live, true)), consumer, now)
  }

  lemma {:induction false} SelectedIn(ids: seq<StreamId>, live: set<StreamId>, wanted: bool)
    ensures forall id :: id in Select(ids, live, wanted) ==> id in ids
  {
    if ids != [] {
      SelectedIn(ids[..|ids| - 1], live, wanted);
    }
  }

  lemma HandleOne(pending: PendingList, ids: seq<StreamId>, i: nat, live: set<StreamId>, consumer: string, now: int)
    requires i < |ids| && Ascending(ids, Before) && ids[i] in pending
    ensures
      var id, before := ids[i], Handled(pending, ids[..i], live, consumer, now);
      && id in before && before[id] == pending[id]
      && Handled(pending, ids[..i + 1], live, consumer, now)
         == if id in live then before[id := Pending(consumer, now, SaturatingInc(pending[id].deliveries))] else before - {id}
  {
    var id := ids[i];
    assert ids[..i + 1][..i] == ids[..i];
    SelectedIn(ids[..i], live, true);
    SelectedIn(ids[..i], live, false);
    assert id !in ids[..i];
    var c, d := Select(ids[..i], live, true), Select(ids[..i], live, false);
    assert ToSet(c + [id]) == ToSet(c) + {id} && ToSet(d + [id]) == ToSet(d) + {id};
    assert Select(ids[..i + 1], live, true) == if id in live then c + [id] else c;
    assert Select(ids[..i + 1], live, false) == if id in live then d else d + [id];
    assert id !in ToSet(c) && id !in ToSet(d);
    hide ToSet, Select;
  }

  lemma PageStep(candidates: seq<StreamId>, i: nat, live: set<StreamId>, left: nat)
    requires i < |candidates| && left > 0
    ensures PageEnd(candidates[i..], live, left)
         == 1 + PageEnd(candidates[i + 1..], live, if candidates[i] in live then left - 1 else left)
  {
  }

  // ---------------------------------------------------------------------------
  // The loops
  // ---------------------------------------------------------------------------

  method CollectNewer(entries: seq<Entry>, last: StreamId) returns (newer: seq<Entry>)
    ensures newer == NewerThan(entries, last)
  {
    newer := [];
    for i := 0 to |entries|
      invariant newer == NewerThan(entries[..i], last)
    {
      assert entries[..i + 1][..i] == entries[..i];
      if Before(last, entries[i].id) {
        newer := newer + [entries[i]];
      }
    }
    assert entries[..|entries|] == entries;
  }

  method RecordDeliveries(g: Group, batch: seq<Entry>, consumer: string, noack: bool, now: int) returns (g': Group)
    ensures g' == Group(Furthest(g.lastDelivered, batch), g.consumers,
                        if noack then g.pending else Delivered(g.pending, batch, consumer, now))
  {
    g' := g;
    assert Delivered(g.pending, batch[..0], consumer, now) == g.pending;
    for i := 0 to |batch|
      invariant g'.consumers == g.consumers
      invariant g'.lastDelivered == Furthest(g.lastDelivered, batch[..i])
      invariant g'.pending == if noack then g.pending else Delivered(g.pending, batch[..i], consumer, now)
    {
      assert batch[..i + 1][..i] == batch[..i];
      DeliverOne(g.pending, batch, i, consumer, now);
      hide Delivered;
      if !noack {
        g' := g'.(pending := g'.pending[batch[i].id := Pending(consumer, now, 1)]);
      }
      if Before(g'.lastDelivered, batch[i].id) {
        g' := g'.(lastDelivered := batch[i].id);
      }
    }
    assert batch[..|batch|] == batch;
  }

  method Materialize(entries: seq<Entry>, rows: seq<StreamId>) returns (found: seq<Entry>)
    ensures found == EntriesOf(entries, rows)
  {
    found := [];
    for i := 0 to |rows|
      invariant found == EntriesOf(entries, rows[..i])
    {
      assert rows[..i + 1][..i] == rows[..i];
      var e := Find(entries, rows[i]);
      if e.Some? {
        found := found + [e.value];
      }
    }
    assert rows[..|rows|] == rows;
  }

  lemma AscendingPrefix(rows: seq<StreamId>, n: nat)
    requires Ascending(rows, Before) && n <= |rows|
    ensures Ascending(rows[..n], Before) && forall id :: id in rows[..n] ==> id in rows
  {
  }

  method RemoveAll(pending: PendingList, ids: seq<StreamId>) returns (left: PendingList, removed: nat)
    ensures left == pending - ToSet(ids)
    ensures removed == |pending| - |left|
  {
    left, removed := pending, 0;
    assert pending - ToSet(ids[..0]) == pending;
    hide ToSet;
    for i := 0 to |ids|
      invariant left == pending - ToSet(ids[..i])
      invariant removed == |pending| - |left|
    {
      RemoveNext(pending, ids, i);
      RemoveOne(left, ids[i]);
      if ids[i] in left {
        left := left - {ids[i]};
        removed := removed + 1;
      }
    }
    assert ids[..|ids|] == ids;
  }

  method ClaimPage(entries: seq<Entry>, pending: PendingList, candidates: seq<StreamId>, consumer: string, count: nat, justId: bool, now: int)
    returns (next: StreamId, left: PendingList, claimed: seq<Claim>, deleted: seq<StreamId>)
    requires Ascending(candidates, Before) && forall id :: id in candidates ==> id in pending
    ensures
      var live := IdSet(entries);
      var k := PageEnd(candidates, live, count);
      && next == (if k < |candidates| then candidates[k] else MIN)
      && PageSoFar(entries, pending, candidates[..k], consumer, justId, now, left, claimed, deleted)
  {
    hide PageEnd, PageSoFar, IdSet, Body, Ascending;
    ghost var live := IdSet(entries);
    ghost var k := PageEnd(candidates, live, count);
    left, claimed, deleted, next := pending, [], [], MIN;
    PageStart(entries, pending, candidates, consumer, justId, now);
    var i := 0;
    while i < |candidates|
      invariant i <= |candidates| && next == MIN && |claimed| <= count
      invariant k == i + PageEnd(candidates[i..], live, count - |claimed|)
      invariant PageSoFar(entries, pending, candidates[..i], consumer, justId, now, left, claimed, deleted)
    {
      var id := candidates[i];
      if |claimed| >= count {
        next := id;
        break;
      }
      PageStep(candidates, i, live, count - |claimed|);
      assert id in candidates;
      PageGrows(entries, pending, candidates, i, consumer, justId, now, left, claimed, deleted);
      if Find(entries, id).None? {
        left := left - {id};
        deleted := deleted + [id];
      } else {
        left := left[id := Pending(consumer, now, SaturatingInc(left[id].deliveries))];
        claimed := claimed + [Body(entries, id, justId)];
      }
      i := i + 1;
    }
    PageEnds(candidates, i, live, count - |claimed|);
  }

  /** What a page has done once it has dealt with the given candidates. */
  ghost predicate PageSoFar(entries: seq<Entry>, pending: PendingList, done: seq<StreamId>, consumer: string, justId: bool, now: int, left: PendingList, claimed: seq<Claim>, deleted: seq<StreamId>) {
    && claimed == Bodies(entries, Select(done, IdSet(entries), true), justId)
    && deleted == Select(done, IdSet(entries), false)
    && left == Handled(pending, done, IdSet(entries), consumer, now)
  }

  lemma PageGrows(entries: seq<Entry>, pending: PendingList, ids: seq<StreamId>, i: nat, consumer: string, justId: bool, now: int, left: PendingList, claimed: seq<Claim>, deleted: seq<StreamId>)
    requires i < |ids| && Ascending(ids, Before) && ids[i] in pending
    requires PageSoFar(entries, pending, ids[..i], consumer, justId, now, left, claimed, deleted)
    ensures ids[i] in left
    ensures ids[i] !in IdSet(entries) ==>
      PageSoFar(entries, pending, ids[..i + 1], consumer, justId, now, left - {ids[i]}, claimed, deleted + [ids[i]])
    ensures ids[i] in IdSet(entries) ==>
      PageSoFar(entries, pending, ids[..i + 1], consumer, justId, now,
                left[ids[i] := Pending(consumer, now, SaturatingInc(left[ids[i]].deliveries))],
                claimed + [Body(entries, ids[i], justId)], deleted)
  {
    hide Handled, IdSet, Select, Bodies, Body;
    var live := IdSet(entries);
    SelectStep(ids, i, live);
    BodiesAppend(entries, Select(ids[..i], live, true), ids[i], justId);
    HandleOne(pending, ids, i, live, consumer, now);
  }

  lemma PageStart(entries: seq<Entry>, pending: PendingList, ids: seq<StreamId>, consumer: string, justId: bool, now: int)
    ensures ids[0..] == ids
    ensures PageSoFar(entries, pending, ids[..0], consumer, justId, now, pending, [], [])
  {
  }

  lemma SelectStep(ids: seq<StreamId>, i: nat, live: set<StreamId>)
    requires i < |ids|
    ensures Select(ids[..i + 1], live, true) == if ids[i] in live then Select(ids[..i], live, true) + [ids[i]] else Select(ids[..i], live, true)
    ensures Select(ids[..i + 1], live, false) == if ids[i] in live then Select(ids[..i], live, false) else Select(ids[..i], live, false) + [ids[i]]
  {
    assert ids[..i + 1][..i] == ids[..i];
  }

  lemma BodiesAppend(entries: seq<Entry>, ids: seq<StreamId>, id: StreamId, justId: bool)
    ensures Bodies(entries, ids + [id], justId) == Bodies(entries, ids, justId) + [Body(entries, id, justId)]
  {
  }

  lemma PageEnds(candidates: seq<StreamId>, i: nat, live: set<StreamId>, left: nat)
    requires i <= |candidates| && (i == |candidates| || left == 0)
    ensures PageEnd(candidates[i..], live, left) == 0
  {
  }

  // ---------------------------------------------------------------------------
  // A stream being changed
  // ---------------------------------------------------------------------------

  class StreamCell {
    var entries: seq<Entry>
    var lastGenerated: StreamId
    var maxDeleted: StreamId
    var entriesAdded: u64
    var groups: map<string, Group>

    function Value(): StreamValue
      reads this
    {
      StreamValue(entries, lastGenerated, maxDeleted, entriesAdded, groups)
    }

    constructor Clone(s: StreamValue)
      ensures Value() == s
    {
      entries, lastGenerated, maxDeleted, entriesAdded, groups :=
        s.entries, s.lastGenerated, s.maxDeleted, s.entriesAdded, s.groups;
    }

    method Push(id: StreamId, fields: seq<(string, bytes)>)
      modifies this
      ensures Value() == Append(old(Value()), id, fields)
    {
      entries := entries + [Entry(id, fields)];
      lastGenerated := id;
      entriesAdded := SaturatingInc(entriesAdded);
    }

    method TrimInPlace(bound: Bound, limit: Option<nat>) returns (removed: nat)
      modifies this
      ensures IsTrimSize(old(Value()), bound, limit, removed) && removed <= |old(entries)|
      ensures Value() == TrimFront(old(Value()), removed)
      ensures Divided(old(Value()), bound) ==>
        removed == TrimCount(old(Value()), bound, limit) && Value() == Trim(old(Value()), bound, limit)
    {
      removed := TrimSize(bound, limit);
      if removed > 0 {
        var last := entries[removed - 1];
        entries := entries[removed..];
        if Before(maxDeleted, last.id) {
          maxDeleted := last.id;
        }
      }
    }

    method TrimSize(bound: Bound, limit: Option<nat>) returns (size: nat)
      ensures IsTrimSize(Value(), bound, limit, size) && size <= |entries|
      ensures Divided(Value(), bound) ==> size == TrimCount(Value(), bound, limit)
    {
      var target: nat;
      match bound {
        case MaxLen(max) =>
          target := if |entries| > max then |entries| - max else 0;
        case MinId(min) =>
          target := PartitionPoint(entries, min);
          assert IsCut(Value().entries, min, target);
      }
      size := target;
      if limit.Some? && limit.value < size {
        size := limit.value;
      }
      assert size == Limited(target, limit);
    }

    method Retain(ids: seq<StreamId>) returns (removed: nat)
      modifies this
      ensures Value() == Drop(old(Value()), ids)
      ensures removed == |old(entries)| - |entries|
      ensures removed == 0 ==> Value() == old(Value())
    {
      var all, kept, max := entries, [], maxDeleted;
      for i := 0 to |all|
        invariant |kept| <= i
        invariant kept == Without(all[..i], ids)
        invariant max == MaxDropped(all[..i], ids, maxDeleted)
        invariant |kept| == i ==> kept == all[..i] && max == maxDeleted
      {
        assert all[..i + 1][..i] == all[..i];
        if all[i].id in ids {
          if Before(max, all[i].id) {
            max := all[i].id;
          }
        } else {
          kept := kept + [all[i]];
        }
      }
      assert all[..|all|] == all;
      entries, maxDeleted := kept, max;
      removed := |all| - |kept|;
    }

    /** XREADGROUP with `>`. */
    method DeliverNew(name: string, consumer: string, count: Option<nat>, noack: bool, now: int) returns (delivered: seq<Entry>)
      requires name in groups
      modifies this`groups
      ensures (Value(), delivered) == ReadNew(old(Value()), name, consumer, count, noack, now)
    {
      var g := groups[name];
      delivered := CollectNewer(entries, g.lastDelivered);
      if count.Some? && count.value < |delivered| {
        delivered := delivered[..count.value];
      }
      g := RecordDeliveries(g, delivered, consumer, noack, now);
      g := g.(consumers := g.consumers[consumer := now]);
      groups := groups[name := g];
    }

    /** XREADGROUP with a concrete id: deliver a consumer's own pending entries again. */
    method DeliverAgain(name: string, consumer: string, after: StreamId, count: Option<nat>, now: int) returns (delivered: seq<Entry>)
      requires name in groups
      modifies this`groups
      ensures (Value(), delivered) == ReadPending(old(Value()), name, consumer, after, count, now)
    {
      var g := groups[name];
      var rows := FilterKeys(g.pending, OwnAfter(g.pending, consumer, after));
      assert rows == OwnRows(g.pending, consumer, after);
      if count.Some? && count.value < |rows| {
        rows := rows[..count.value];
      }
      AscendingPrefix(OwnRows(g.pending, consumer, after), |rows|);
      g := Bump(g, rows, now);
      delivered := Materialize(entries, rows);
      groups := groups[name := g];
    }

    /** XACK. A repeated id counts once. */
    method Acknowledge(name: string, ids: seq<StreamId>) returns (acked: nat)
      requires name in groups
      modifies this`groups
      ensures
        var g := old(groups)[name];
        var pending := g.pending - ToSet(ids);
        && Value() == SetGroup(old(Value()), name, g.(pending := pending))
        && acked == |g.pending| - |pending|
    {
      var g := groups[name];
      var pending;
      pending, acked := RemoveAll(g.pending, ids);
      groups := groups[name := g.(pending := pending)];
    }

    /** XCLAIM. */
    method TakeOver(name: string, consumer: string, minIdle: int, ids: seq<StreamId>, opts: ClaimOptions) returns (claimed: seq<Claim>)
      requires name in groups
      modifies this`groups
      ensures
        var (g, taken) := ClaimAll(old(groups)[name], ids, consumer, minIdle, opts);
        && Value() == SetGroup(old(Value()), name, g)
        && claimed == Bodies(old(entries), taken, opts.justId)
    {
      var g := groups[name];
      claimed := [];
      for i := 0 to |ids|
        invariant
          var (g', taken) := ClaimAll(groups[name], ids[..i], consumer, minIdle, opts);
          g == g' && claimed == Bodies(entries, taken, opts.justId)
      {
        assert ids[..i + 1][..i] == ids[..i];
        var id := ids[i];
        if id !in g.pending && !opts.force {
          continue;
        }
        if id in g.pending && !IdleFor(g.pending[id], opts.now, minIdle) {
          continue;
        }
        var row := ClaimedRow(g.pending, id, consumer, opts);
        g := g.(pending := g.pending[id := row], consumers := g.consumers[consumer := opts.now]);
        claimed := claimed + [Body(entries, id, opts.justId)];
      }
      assert ids[..|ids|] == ids;
      groups := groups[name := g];
    }

    /** XAUTOCLAIM. */
    method SweepPage(name: string, consumer: string, minIdle: int, start: StreamId, count: nat, justId: bool, now: int)
      returns (next: StreamId, claimed: seq<Claim>, deleted: seq<StreamId>)
      requires name in groups
      modifies this`groups
      ensures
        var page := AutoClaimPage(old(groups)[name], IdSet(old(entries)), consumer, minIdle, start, count, now);
        && Value() == SetGroup(old(Value()), name, page.group)
        && next == page.next && deleted == page.deleted
        && claimed == Bodies(old(entries), page.claimed, justId)
    {
      var g, live := groups[name], IdSet(entries);
      var candidates := FilterKeys(g.pending, IdleFrom(g.pending, start, minIdle, now));
      assert candidates == Candidates(g.pending, start, minIdle, now);
      var pending;
      next, pending, claimed, deleted := ClaimPage(entries, g.pending, candidates, consumer, count, justId, now);
      g := g.(pending := pending, consumers := g.consumers[consumer := now]);
      groups := groups[name := g];
    }
  }

  // ---------------------------------------------------------------------------
  // The commands
  // ---------------------------------------------------------------------------

  /** What the XADD and XTRIM closures leave: the command's result, except that on entries that are
    * not divided by a MINID bound the trim may stop at another place where they step over it.
    */
  ghost predicate Trimmed(s: StreamValue, bound: Bound, limit: Option<nat>, after: Stored, k: nat) {
    && k <= |s.entries| && IsTrimSize(s, bound, limit, k) && after == Some(TrimFront(s, k))
    && (Divided(s, bound) ==> after == Some(Trim(s, bound, limit)) && k == TrimCount(s, bound, limit))
  }

  method AddCommand(stored: Stored, c: Command) returns (after: Stored, reply: Reply)
    requires c.XAdd?
    ensures reply == Execute(stored, c).1
    ensures !reply.Added? || c.trim.None? ==> after == Execute(stored, c).0
    ensures reply.Added? && c.trim.Some? ==>
      exists k :: Trimmed(Append(OrEmpty(stored), reply.id, c.fields), c.trim.value.0, c.trim.value.1, after, k)
  {
    if stored.None? && c.nomkstream {
      return None, Nothing;
    }
    var cell := new StreamCell.Clone(OrEmpty(stored));
    var id := ResolveAddId(c.spec, cell.lastGenerated, c.clock);
    if id.None? {
      return stored, Failed;
    }
    cell.Push(id.value, c.fields);
    ghost var longer := cell.Value();
    if c.trim.Some? {
      var k := cell.TrimInPlace(c.trim.value.0, c.trim.value.1);
      assert Trimmed(longer, c.trim.value.0, c.trim.value.1, Some(cell.Value()), k);
    }
    after, reply := Some(cell.Value()), Added(id.value);
  }

  /** On a stream in order, as all streams are whose last id never was the largest, XADD with a trim is
    * exactly the command.
    */
  lemma AddIsExecute(stored: Stored, c: Command, after: Stored, k: nat)
    requires c.XAdd? && c.trim.Some? && Execute(stored, c).1.Added?
    requires
      var longer := Append(OrEmpty(stored), Execute(stored, c).1.id, c.fields);
      AscendingIds(longer.entries) && Trimmed(longer, c.trim.value.0, c.trim.value.1, after, k)
    ensures after == Execute(stored, c).0
  {
    var longer := Append(OrEmpty(stored), Execute(stored, c).1.id, c.fields);
    AscendingIsDivided(longer, c.trim.value.0);
  }

  lemma AscendingIsDivided(s: StreamValue, bound: Bound)
    requires AscendingIds(s.entries)
    ensures Divided(s, bound)
  {
  }

  method DelCommand(stored: Stored, c: Command) returns (after: Stored, reply: Reply)
    requires c.XDel?
    ensures (after, reply) == Execute(stored, c)
  {
    if stored.None? {
      return None, Count(0);
    }
    var cell := new StreamCell.Clone(stored.value);
    var removed := cell.Retain(c.ids);
    if removed == 0 {
      return stored, Count(0);
    }
    after, reply := Some(cell.Value()), Count(removed);
  }

  method TrimCommand(stored: Stored, c: Command) returns (after: Stored, reply: Reply)
    requires c.XTrim?
    ensures stored.None? ==> (after, reply) == Execute(stored, c)
    ensures stored.Some? ==> exists k: nat :: Trimmed(stored.value, c.bound, c.limit, after, k) && reply == Count(k)
    ensures stored.Some? && Divided(stored.value, c.bound) ==> (after, reply) == Execute(stored, c)
  {
    if stored.None? {
      return None, Count(0);
    }
    var cell := new StreamCell.Clone(stored.value);
    var removed := cell.TrimInPlace(c.bound, c.limit);
    assert Trimmed(stored.value, c.bound, c.limit, Some(cell.Value()), removed);
    if removed == 0 {
      return stored, Count(0);
    }
    after, reply := Some(cell.Value()), Count(removed);
  }

  method ReadCommand(stored: Stored, c: Command) returns (after: Stored, reply: Reply)
    requires c.XReadGroup?
    ensures (after, reply) == Execute(stored, c)
  {
    if stored.None? || c.group !in stored.value.groups {
      return stored, Failed;
    }
    var cell := new StreamCell.Clone(stored.value);
    var delivered;
    match c.id {
      case NewEntries => delivered := cell.DeliverNew(c.group, c.consumer, c.count, c.noack, c.now);
      case PendingAfter(id) => delivered := cell.DeliverAgain(c.group, c.consumer, id, c.count, c.now);
    }
    after, reply := Some(cell.Value()), Entries(SortById(delivered));
  }

  method AckCommand(stored: Stored, c: Command) returns (after: Stored, reply: Reply)
    requires c.XAck?
    ensures (after, reply) == Execute(stored, c)
  {
    if stored.None? || c.group !in stored.value.groups {
      return stored, Count(0);
    }
    var cell := new StreamCell.Clone(stored.value);
    var acked := cell.Acknowledge(c.group, c.ids);
    if acked == 0 {
      NothingRemoved(stored.value, c.group, ToSet(c.ids));
      return stored, Count(0);
    }
    after, reply := Some(cell.Value()), Count(acked);
  }

  lemma NothingRemoved(s: StreamValue, name: string, ids: set<StreamId>)
    requires name in s.groups
    ensures
      var g := s.groups[name];
      |g.pending| == |g.pending - ids| ==> SetGroup(s, name, g.(pending := g.pending - ids)) == s
  {
    var p := s.groups[name].pending;
    var rest := p - ids;
    assert rest.Keys <= p.Keys && p.Keys == rest.Keys + (p.Keys - rest.Keys);
    assert |p.Keys| == |rest.Keys| + |p.Keys - rest.Keys|;
    assert |p| == |p.Keys| && |rest| == |rest.Keys|;
    if |p| == |rest| {
      assert p.Keys - rest.Keys == {};
      assert rest == p;
      assert s.groups[name := s.groups[name]] == s.groups;
    }
  }

  method ClaimCommand(stored: Stored, c: Command) returns (after: Stored, reply: Reply)
    requires c.XClaim? || c.XAutoClaim?
    ensures (after, reply) == Execute(stored, c)
  {
    if stored.None? || c.group !in stored.value.groups {
      return stored, Failed;
    }
    var cell := new StreamCell.Clone(stored.value);
    if c.XClaim? {
      var claimed := cell.TakeOver(c.group, c.consumer, c.minIdle, c.ids, c.opts);
      after, reply := Some(cell.Value()), Claimed(claimed);
    } else {
      var next, claimed, deleted := cell.SweepPage(c.group, c.consumer, c.minIdle, c.start, c.page, c.justId, c.now);
      after, reply := Some(cell.Value()), Swept(next, claimed, deleted);
    }
  }
}
