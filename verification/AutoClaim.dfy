/** XAUTOCLAIM sweeps: following the cursor visits every idle pending id exactly once. */
module AutoClaim {
  import opened Bytes
  import opened Ordered
  import opened StreamTypes
  import opened Stream

  // ---------------------------------------------------------------------------
  // Selecting from ascending lists
  // ---------------------------------------------------------------------------

  lemma {:induction false} SelectConcat(a: seq<StreamId>, b: seq<StreamId>, live: set<StreamId>, wanted: bool)
    ensures Select(a + b, live, wanted) == Select(a, live, wanted) + Select(b, live, wanted)
    decreases |b|
  {
    if b == [] {
      assert a + b == a;
    } else {
      var front := b[..|b| - 1];
      assert (a + b)[..|a + b| - 1] == a + front;
      SelectConcat(a, front, live, wanted);
    }
  }

  lemma {:induction false} SelectIsFilter(ids: seq<StreamId>, live: set<StreamId>, wanted: bool)
    requires Ascending(ids, Before)
    ensures Ascending(Select(ids, live, wanted), Before)
    ensures forall id :: id in Select(ids, live, wanted) <==> id in ids && (id in live) == wanted
  {
    if ids != [] {
      var front, last := ids[..|ids| - 1], ids[|ids| - 1];
      SelectIsFilter(front, live, wanted);
      assert ids == front + [last];
      var before := Select(front, live, wanted);
      forall i | 0 <= i < |before|
        ensures Before(before[i], last)
      {
        assert before[i] in front;
      }
    }
  }

  /** One page claims at most COUNT ids, and exactly COUNT when it leaves candidates over; it then stops
    * right behind the last it claims.
    */
  lemma {:induction false} PageIsCapped(candidates: seq<StreamId>, live: set<StreamId>, count: nat)
    ensures
      var k := PageEnd(candidates, live, count);
      var claimed := Select(candidates[..k], live, true);
      && |claimed| <= count && (k < |candidates| ==> |claimed| == count)
      && (0 < k < |candidates| ==> candidates[k - 1] in live)
  {
    if candidates != [] && count > 0 {
      var first, rest := candidates[0], candidates[1..];
      var count' := if first in live then count - 1 else count;
      PageIsCapped(rest, live, count');
      var k := PageEnd(rest, live, count');
      assert candidates[..k + 1] == [first] + rest[..k];
      SelectConcat([first], rest[..k], live, true);
      assert Select([first], live, true) == if first in live then [first] else [] by {
        assert [first][..0] == [];
      }
    }
  }

  // ---------------------------------------------------------------------------
  // One page
  // ---------------------------------------------------------------------------

  function PageOf(s: StreamValue, c: Command): Page
    requires c.XAutoClaim? && c.group in s.groups
  {
    AutoClaimPage(s.groups[c.group], IdSet(s.entries), c.consumer, c.minIdle, c.start, c.page, c.now)
  }

  function CandidatesOf(s: StreamValue, c: Command): seq<StreamId>
    requires c.XAutoClaim? && c.group in s.groups
  {
    Candidates(s.groups[c.group].pending, c.start, c.minIdle, c.now)
  }

  lemma CandidatesFacts(pending: PendingList, start: StreamId, minIdle: int, now: int)
    ensures
      var ids := Candidates(pending, start, minIdle, now);
      && Ascending(ids, Before)
      && (forall id :: id in ids <==> id in IdleFrom(pending, start, minIdle, now))
  {
  }

  /** Rows of ids a page did not handle are as they were. */
  lemma PageRows(g: Group, live: set<StreamId>, c: Command)
    requires c.XAutoClaim?
    ensures
      var page := AutoClaimPage(g, live, c.consumer, c.minIdle, c.start, c.page, c.now);
      var ids := Candidates(g.pending, c.start, c.minIdle, c.now);
      var handled := ids[..PageEnd(ids, live, c.page)];
      && page.group.pending.Keys == g.pending.Keys - ToSet(page.deleted)
      && (forall id :: id in page.deleted <==> id in handled && id !in live)
      && (forall id :: id in page.claimed <==> id in handled && id in live)
      && page.group.pending.Keys <= g.pending.Keys
      && (forall id :: id in g.pending && id !in handled ==>
            id in page.group.pending && page.group.pending[id] == g.pending[id])
  {
    var ids := Candidates(g.pending, c.start, c.minIdle, c.now);
    CandidatesFacts(g.pending, c.start, c.minIdle, c.now);
    hide Candidates;
    var handled := ids[..PageEnd(ids, live, c.page)];
    SelectIsFilter(handled, live, true);
    SelectIsFilter(handled, live, false);
  }

  /** The cursor: zero exactly when every candidate was handled, else the first one left. */
  lemma PageCursor(g: Group, live: set<StreamId>, c: Command)
    requires c.XAutoClaim? && c.page >= 1
    ensures
      var next := AutoClaimPage(g, live, c.consumer, c.minIdle, c.start, c.page, c.now).next;
      var ids := Candidates(g.pending, c.start, c.minIdle, c.now);
      var k := PageEnd(ids, live, c.page);
      && (next == MIN <==> k == |ids|)
      && (k < |ids| ==> k > 0 && next == ids[k])
  {
  }

  /** The next page's candidates are precisely those the page left. */
  lemma PageLeavesRest(g: Group, live: set<StreamId>, c: Command)
    requires c.XAutoClaim?
    ensures
      var page := AutoClaimPage(g, live, c.consumer, c.minIdle, c.start, c.page, c.now);
      var ids := Candidates(g.pending, c.start, c.minIdle, c.now);
      var k := PageEnd(ids, live, c.page);
      k < |ids| ==> Candidates(page.group.pending, ids[k], c.minIdle, c.now) == ids[k..]
  {
    hide AutoClaimPage, Candidates, IdleFrom, ToSet, PageEnd;
    var page := AutoClaimPage(g, live, c.consumer, c.minIdle, c.start, c.page, c.now);
    var ids := Candidates(g.pending, c.start, c.minIdle, c.now);
    var k := PageEnd(ids, live, c.page);
    if k < |ids| {
      CandidatesFacts(g.pending, c.start, c.minIdle, c.now);
      PageRows(g, live, c);
      RestIsSuffix(g, page.group, ids, k, c);
      SortedRest(page.group.pending, ids[k..], ids[k], c);
    }
  }

  lemma RestIsSuffix(g: Group, g': Group, ids: seq<StreamId>, k: nat, c: Command)
    requires c.XAutoClaim? && k < |ids| && Ascending(ids, Before)
    requires forall id :: id in ids <==> id in IdleFrom(g.pending, c.start, c.minIdle, c.now)
    requires g'.pending.Keys <= g.pending.Keys
    requires forall id :: id in g.pending && id !in ids[..k] ==> id in g'.pending && g'.pending[id] == g.pending[id]
    ensures forall id :: id in ids[k..] <==> id in IdleFrom(g'.pending, ids[k], c.minIdle, c.now)
  {
    assert ids == ids[..k] + ids[k..];
    forall id | id in ids[k..]
      ensures id in IdleFrom(g'.pending, ids[k], c.minIdle, c.now)
    {
      var i :| k <= i < |ids| && ids[i] == id;
      assert id in ids;
      assert id !in ids[..k];
      assert i > k ==> Before(ids[k], ids[i]);
    }
    forall id | id in IdleFrom(g'.pending, ids[k], c.minIdle, c.now)
      ensures id in ids[k..]
    {
      assert forall i :: 0 <= i < k ==> Before(ids[i], ids[k]);
      assert id !in ids[..k];
      assert ids[k] in ids;
      assert AtMost(c.start, id);
      assert id in ids;
    }
  }

  lemma SortedRest(pending: PendingList, rest: seq<StreamId>, start: StreamId, c: Command)
    requires c.XAutoClaim? && Ascending(rest, Before)
    requires forall id :: id in rest <==> id in IdleFrom(pending, start, c.minIdle, c.now)
    ensures Candidates(pending, start, c.minIdle, c.now) == rest
  {
    BeforeIsStrictTotal();
    SortedUnique(rest, IdleFrom(pending, start, c.minIdle, c.now), Before);
  }

  // ---------------------------------------------------------------------------
  // The sweep
  // ---------------------------------------------------------------------------

  datatype Result = Result(final: StreamValue, claimed: seq<StreamId>, deleted: seq<StreamId>)

  function ClaimIds(claims: seq<Claim>): seq<StreamId> {
    seq(|claims|, i requires 0 <= i < |claims| => claims[i].id)
  }

  /** What executing one XAUTOCLAIM returns, in terms of its page. */
  lemma ExecutePage(s: StreamValue, c: Command)
    requires c.XAutoClaim? && c.group in s.groups
    ensures
      var (stored, reply) := Execute(Some(s), c);
      var page := PageOf(s, c);
      && stored == Some(SetGroup(s, c.group, page.group))
      && reply.Swept? && reply.next == page.next && reply.deleted == page.deleted
      && ClaimIds(reply.claimed) == page.claimed
  {
  }

  lemma SweepProgresses(s: StreamValue, c: Command)
    requires c.XAutoClaim? && c.page >= 1 && c.group in s.groups
    ensures
      var page := PageOf(s, c);
      var k := PageEnd(CandidatesOf(s, c), IdSet(s.entries), c.page);
      var s' := SetGroup(s, c.group, page.group);
      && (page.next == MIN <==> k == |CandidatesOf(s, c)|)
      && (k < |CandidatesOf(s, c)| ==> k > 0 && CandidatesOf(s', c.(start := page.next)) == CandidatesOf(s, c)[k..])
  {
    PageCursor(s.groups[c.group], IdSet(s.entries), c);
    PageLeavesRest(s.groups[c.group], IdSet(s.entries), c);
    hide AutoClaimPage, Candidates;
  }

  /** A client that repeats XAUTOCLAIM from the returned cursor until the cursor is zero. That this
    * function is total is the termination of the sweep.
    */
  function Sweep(s: StreamValue, c: Command): Result
    requires c.XAutoClaim? && c.page >= 1 && c.group in s.groups
    decreases |CandidatesOf(s, c)|
  {
    var (stored, reply) := Execute(Some(s), c);
    ExecutePage(s, c);
    SweepProgresses(s, c);
    if reply.next == MIN then Result(stored.value, ClaimIds(reply.claimed), reply.deleted)
    else
      var rest := Sweep(stored.value, c.(start := reply.next));
      Result(rest.final, ClaimIds(reply.claimed) + rest.claimed, reply.deleted + rest.deleted)
  }

  /** The pending list a complete sweep should leave behind. */
  function SweptPending(pending: PendingList, claimed: seq<StreamId>, deleted: seq<StreamId>, consumer: string, now: int): PendingList {
    TakenOver(pending - ToSet(deleted), ToSet(claimed), consumer, now)
  }

  lemma SweptTwice(pending: PendingList, c1: seq<StreamId>, d1: seq<StreamId>, c2: seq<StreamId>, d2: seq<StreamId>, consumer: string, now: int)
    requires ToSet(c1) !! ToSet(d2) && ToSet(c1) !! ToSet(c2)
    ensures SweptPending(SweptPending(pending, c1, d1, consumer, now), c2, d2, consumer, now)
         == SweptPending(pending, c1 + c2, d1 + d2, consumer, now)
  {
  }

  /** What a page does to the stream, by the candidates it handles. */
  lemma PageIsSweep(s: StreamValue, c: Command)
    requires c.XAutoClaim? && c.group in s.groups
    ensures
      var page, ids, live := PageOf(s, c), CandidatesOf(s, c), IdSet(s.entries);
      var k := PageEnd(ids, live, c.page);
      && page.claimed == Select(ids[..k], live, true) && page.deleted == Select(ids[..k], live, false)
      && page.group == SweptGroup(s.groups[c.group], page.claimed, page.deleted, c.consumer, c.now)
  {
  }

  function SweptGroup(g: Group, claimed: seq<StreamId>, deleted: seq<StreamId>, consumer: string, now: int): Group {
    Group(g.lastDelivered, g.consumers[consumer := now], SweptPending(g.pending, claimed, deleted, consumer, now))
  }

  lemma SweptGroupTwice(s: StreamValue, c1: seq<StreamId>, d1: seq<StreamId>, c2: seq<StreamId>, d2: seq<StreamId>, c: Command)
    requires c.XAutoClaim? && c.group in s.groups
    requires ToSet(c1) !! ToSet(d2) && ToSet(c1) !! ToSet(c2)
    ensures
      var s' := SetGroup(s, c.group, SweptGroup(s.groups[c.group], c1, d1, c.consumer, c.now));
      SetGroup(s', c.group, SweptGroup(s'.groups[c.group], c2, d2, c.consumer, c.now))
      == SetGroup(s, c.group, SweptGroup(s.groups[c.group], c1 + c2, d1 + d2, c.consumer, c.now))
  {
    var g := s.groups[c.group];
    SweptTwice(g.pending, c1, d1, c2, d2, c.consumer, c.now);
    hide SweptPending;
    var g' := SweptGroup(g, c1, d1, c.consumer, c.now);
    assert SweptGroup(g', c2, d2, c.consumer, c.now) == SweptGroup(g, c1 + c2, d1 + d2, c.consumer, c.now);
    assert s.groups[c.group := g'][c.group := SweptGroup(g', c2, d2, c.consumer, c.now)] == s.groups[c.group := SweptGroup(g', c2, d2, c.consumer, c.now)];
  }

  lemma SweepUnfolds(s: StreamValue, c: Command)
    requires c.XAutoClaim? && c.page >= 1 && c.group in s.groups
    ensures
      var page := PageOf(s, c);
      var s' := SetGroup(s, c.group, page.group);
      Sweep(s, c) ==
      if page.next == MIN then Result(s', page.claimed, page.deleted)
      else
        var rest := Sweep(s', c.(start := page.next));
        Result(rest.final, page.claimed + rest.claimed, page.deleted + rest.deleted)
  {
    ExecutePage(s, c);
    hide Execute, PageOf;
  }

  /** A page followed by a sweep of the rest is a sweep of the whole. */
  lemma JoinPages(s: StreamValue, c: Command, ids: seq<StreamId>, k: nat, live: set<StreamId>)
    requires c.XAutoClaim? && c.group in s.groups
    requires Ascending(ids, Before) && k <= |ids|
    ensures
      var c1, d1 := Select(ids[..k], live, true), Select(ids[..k], live, false);
      var c2, d2 := Select(ids[k..], live, true), Select(ids[k..], live, false);
      var s' := SetGroup(s, c.group, SweptGroup(s.groups[c.group], c1, d1, c.consumer, c.now));
      && c1 + c2 == Select(ids, live, true) && d1 + d2 == Select(ids, live, false)
      && SetGroup(s', c.group, SweptGroup(s'.groups[c.group], c2, d2, c.consumer, c.now))
         == SetGroup(s, c.group, SweptGroup(s.groups[c.group], c1 + c2, d1 + d2, c.consumer, c.now))
  {
    Apart(ids, k, live);
    assert ids[..k] + ids[k..] == ids;
    SelectConcat(ids[..k], ids[k..], live, true);
    SelectConcat(ids[..k], ids[k..], live, false);
    hide Select, SweptGroup;
    SweptGroupTwice(s, Select(ids[..k], live, true), Select(ids[..k], live, false),
                    Select(ids[k..], live, true), Select(ids[k..], live, false), c);
  }

  lemma {:induction false} SweepHandlesCandidates(s: StreamValue, c: Command)
    requires c.XAutoClaim? && c.page >= 1 && c.group in s.groups
    ensures
      var r, ids, live := Sweep(s, c), CandidatesOf(s, c), IdSet(s.entries);
      && r.claimed == Select(ids, live, true)
      && r.deleted == Select(ids, live, false)
      && r.final == SetGroup(s, c.group, SweptGroup(s.groups[c.group], r.claimed, r.deleted, c.consumer, c.now))
    decreases |CandidatesOf(s, c)|
  {
    var page, ids, live := PageOf(s, c), CandidatesOf(s, c), IdSet(s.entries);
    var k := PageEnd(ids, live, c.page);
    var s', c' := SetGroup(s, c.group, page.group), c.(start := page.next);
    SweepUnfolds(s, c);
    SweepProgresses(s, c);
    PageIsSweep(s, c);
    CandidatesAscend(s, c);
    hide Sweep, PageOf, CandidatesOf, SweptGroup, Select, IdSet;
    if k == |ids| {
      assert ids[..k] == ids;
    } else {
      SweepHandlesCandidates(s', c');
      assert s'.entries == s.entries;
      JoinPages(s, c, ids, k, live);
    }
  }

  lemma CandidatesAscend(s: StreamValue, c: Command)
    requires c.XAutoClaim? && c.group in s.groups
    ensures Ascending(CandidatesOf(s, c), Before)
    ensures forall id :: id in CandidatesOf(s, c) <==> id in IdleFrom(s.groups[c.group].pending, c.start, c.minIdle, c.now)
  {
  }

  lemma Apart(ids: seq<StreamId>, k: nat, live: set<StreamId>)
    requires Ascending(ids, Before) && k <= |ids|
    ensures ToSet(Select(ids[..k], live, true)) !! ToSet(Select(ids[k..], live, true))
    ensures ToSet(Select(ids[..k], live, true)) !! ToSet(Select(ids[k..], live, false))
  {
    SelectIsFilter(ids[..k], live, true);
    SelectIsFilter(ids[k..], live, true);
    SelectIsFilter(ids[k..], live, false);
    assert forall id :: id in ids[..k] ==> id !in ids[k..];
  }

  /** A sweep from 0-0 claims every pending id idle for long enough whose entry exists and drops every
    * one whose entry is gone, each exactly once and in id order; claimed rows belong to the caller with
    * one more delivery, delivered now, and all other rows are untouched.
    */
  lemma SweepIsComplete(s: StreamValue, c: Command)
    requires c.XAutoClaim? && c.page >= 1 && c.group in s.groups && c.start == MIN
    ensures
      var r, g := Sweep(s, c), s.groups[c.group];
      var live := set e | e in s.entries :: e.id;
      var idle := set id | id in g.pending && (c.now - g.pending[id].deliveredAt >= c.minIdle || c.minIdle <= 0);
      && Ascending(r.claimed, Before) && (forall id :: id in r.claimed <==> id in idle && id in live)
      && Ascending(r.deleted, Before) && (forall id :: id in r.deleted <==> id in idle && id !in live)
      && c.group in r.final.groups &&
      var g' := r.final.groups[c.group];
      && r.final == s.(groups := s.groups[c.group := g'])
      && g'.lastDelivered == g.lastDelivered && g'.consumers == g.consumers[c.consumer := c.now]
      && (forall id :: id in g'.pending <==> id in g.pending && (id in idle ==> id in live))
      && (forall id :: id in g'.pending ==>
            g'.pending[id] ==
            if id !in idle then g.pending[id]
            else
              var n := g.pending[id].deliveries;
              Pending(c.consumer, c.now, if n < 0xFFFF_FFFF_FFFF_FFFF then n + 1 else n))
  {
    var g, live, ids := s.groups[c.group], IdSet(s.entries), CandidatesOf(s, c);
    SweepHandlesCandidates(s, c);
    CandidatesAscend(s, c);
    IdleFromIs(g.pending, MIN, c.minIdle, c.now);
    assert forall id :: !Before(id, MIN);
    hide Sweep, CandidatesOf, IdleFrom;
    SelectIsFilter(ids, live, true);
    SelectIsFilter(ids, live, false);
    hide Select;
  }

  /** The ids an XAUTOCLAIM from `start` looks at: pending, not below it and idle for long enough. */
  lemma IdleFromIs(pending: PendingList, start: StreamId, minIdle: int, now: int)
    ensures forall id :: id in IdleFrom(pending, start, minIdle, now) <==>
      id in pending && !Before(id, start) && (now - pending[id].deliveredAt >= minIdle || minIdle <= 0)
  {
  }

  /** COUNT 0 never gets anywhere: nothing is claimed or dropped, and unless there was no candidate the
    * cursor stays in front of the first one, so that the next page faces the same candidates. A sweep
    * with COUNT 0 thus ends exactly when there is nothing to do (or when the first candidate is 0-0,
    * which reads as the end).
    */
  lemma EmptyPagesStall(s: StreamValue, c: Command)
    requires c.XAutoClaim? && c.page == 0 && c.group in s.groups
    ensures
      var page, ids := PageOf(s, c), CandidatesOf(s, c);
      var s' := SetGroup(s, c.group, page.group);
      && page.claimed == [] && page.deleted == []
      && page.group.pending == s.groups[c.group].pending
      && (page.next == MIN <==> ids == [] || ids[0] == MIN)
      && (ids != [] ==> page.next == ids[0] && CandidatesOf(s', c.(start := page.next)) == ids)
  {
    var g, live, ids := s.groups[c.group], IdSet(s.entries), CandidatesOf(s, c);
    PageLeavesRest(g, live, c);
    NothingHandled(g, live, c);
    hide AutoClaimPage, Candidates;
    assert ids[0..] == ids;
  }

  lemma NothingHandled(g: Group, live: set<StreamId>, c: Command)
    requires c.XAutoClaim? && c.page == 0
    ensures
      var page := AutoClaimPage(g, live, c.consumer, c.minIdle, c.start, 0, c.now);
      var ids := Candidates(g.pending, c.start, c.minIdle, c.now);
      && PageEnd(ids, live, 0) == 0
      && page.claimed == [] && page.deleted == [] && page.group.pending == g.pending
      && page.next == if ids == [] then MIN else ids[0]
  {
    hide Candidates;
    assert TakenOver(g.pending - ToSet([]), ToSet([]), c.consumer, c.now) == g.pending;
  }
}
