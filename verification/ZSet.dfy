/** Sorted sets: ranks, rank ranges, removal by rank and popping from either end. */
module ZSet {
  import opened Bytes
  import opened Values
  import opened Ordered

  type Scores = map<bytes, Score>

  datatype Item = Item(member: bytes, score: Score)

  predicate Lighter(a: Score, b: Score) {
    match (a, b)
    case (Finite(x), Finite(y)) => x < y
    case (MinusInf, _) => b != MinusInf
    case (_, PlusInf) => a != PlusInf
    case _ => false
  }

  /** Ascending score, then ascending member. */
  predicate ItemLess(p: Item, q: Item) {
    Lighter(p.score, q.score) || (p.score == q.score && LexLess(p.member, q.member))
  }

  lemma LighterIsStrictTotal()
    ensures StrictTotal(Lighter)
  {
  }

  lemma ItemLessIsStrictTotal()
    ensures StrictTotal(ItemLess)
  {
    LexIsStrictTotal();
    LighterIsStrictTotal();
    hide LexLess, Lighter;
  }

  function Items(z: Scores): set<Item> {
    set m | m in z :: Item(m, z[m])
  }

  /** The members in canonical order. */
  function Order(z: Scores): (order: seq<Item>)
    ensures |order| == |z|
  {
    ItemLessIsStrictTotal();
    ItemsSize(z);
    Sorted(Items(z), ItemLess)
  }

  lemma OrderFacts(z: Scores)
    ensures Ascending(Order(z), ItemLess)
    ensures forall x :: x in Order(z) <==> x in Items(z)
  {
  }

  lemma ItemIn(z: Scores, x: Item)
    ensures x in Items(z) <==> x.member in z && z[x.member] == x.score
  {
  }

  lemma {:induction false} ItemsSize(z: Scores)
    ensures |Items(z)| == |z|
    decreases |z|
  {
    if z != map[] {
      var m :| m in z;
      var rest := z - {m};
      ItemsSize(rest);
      forall x
        ensures x in Items(z) <==> x in Items(rest) || x == Item(m, z[m])
      {
        ItemIn(z, x);
        ItemIn(rest, x);
      }
      assert Items(z) == Items(rest) + {Item(m, z[m])};
      ItemIn(rest, Item(m, z[m]));
      assert z.Keys == rest.Keys + {m};
      assert |z| == |z.Keys| && |rest| == |rest.Keys|;
    }
  }

  /** An ascending enumeration of a sorted set's items is its order. */
  lemma OrderUnique(z: Scores, xs: seq<Item>)
    requires Ascending(xs, ItemLess) && forall x :: x in xs <==> x in Items(z)
    ensures xs == Order(z)
  {
    ItemLessIsStrictTotal();
    SortedUnique(xs, Items(z), ItemLess);
  }

  // ---------------------------------------------------------------------------
  // Index windows
  // ---------------------------------------------------------------------------

  /** Clamps an index into 0..len, counting from the end if negative. */
  function Normal(len: nat, i: int): (n: nat)
    requires len > 0
    ensures n < len
  {
    if i < 0 then (if len + i > 0 then len + i else 0) else if i < len then i else len - 1
  }

  function ResolveRange(len: nat, start: int, stop: int): (w: Option<(nat, nat)>)
    ensures w.Some? ==> w.value.0 <= w.value.1 < len
  {
    if len == 0 then None
    else
      var s, e := Normal(len, start), Normal(len, stop);
      if s > e then None else Some((s, e))
  }

  /** LTRIM's window, with an exclusive end. */
  function ResolveTrimRange(len: nat, start: int, stop: int): (w: Option<(nat, nat)>)
    ensures w.Some? ==> w.value.0 < w.value.1 <= len
  {
    if len == 0 then None
    else
      var s := if start < 0 then (if len + start > 0 then len + start else 0) else start;
      var e := if stop < 0 then len + stop else if stop < len then stop else len - 1;
      if s >= len || e < 0 || s > e then None else Some((s, e + 1))
  }

  function Slice<T>(xs: seq<T>, w: Option<(nat, nat)>): seq<T>
    requires w.Some? ==> w.value.0 <= w.value.1 < |xs|
  {
    if w.None? then [] else xs[w.value.0..w.value.1 + 1]
  }

  function TrimSlice<T>(xs: seq<T>, w: Option<(nat, nat)>): seq<T>
    requires w.Some? ==> w.value.0 < w.value.1 <= |xs|
  {
    if w.None? then [] else xs[w.value.0..w.value.1]
  }

  /** LRANGE shows exactly what LTRIM would keep, except in two cases: a start past the end while the
    * stop reaches the last element, and a stop before the beginning while the start is the first.
    * There LRANGE shows one element and LTRIM keeps none.
    */
  lemma RangeAgreesWithTrim<T>(xs: seq<T>, start: int, stop: int)
    ensures
      var len := |xs|;
      var shown, kept := Slice(xs, ResolveRange(len, start, stop)), TrimSlice(xs, ResolveTrimRange(len, start, stop));
      var pastEnd := start >= len && (stop == -1 || stop >= len - 1 || (len == 1 && stop < 0));
      var beforeBegin := stop < -len && (start == 0 || start <= -len || (len == 1 && start > 0));
      && (shown == kept <==> len == 0 || !(pastEnd || beforeBegin))
      && (shown != kept ==> |shown| == 1 && kept == [])
  {
  }

  // ---------------------------------------------------------------------------
  // Ranks
  // ---------------------------------------------------------------------------

  function IndexOf(order: seq<Item>, member: bytes): (i: nat)
    ensures i <= |order|
    ensures i < |order| ==> order[i].member == member
    ensures forall k :: 0 <= k < i ==> order[k].member != member
  {
    if order == [] || order[0].member == member then 0 else 1 + IndexOf(order[1..], member)
  }

  function Rank(z: Scores, member: bytes): Option<nat> {
    if member !in z then None else Some(IndexOf(Order(z), member))
  }

  function RevRank(z: Scores, member: bytes): Option<int> {
    if member !in z then None else Some(|z| - 1 - IndexOf(Order(z), member))
  }

  /** A present member's position holds its item, and no other position holds that member. */
  lemma PositionOf(z: Scores, member: bytes)
    requires member in z
    ensures
      var order, i := Order(z), IndexOf(Order(z), member);
      && i < |order| && order[i] == Item(member, z[member])
      && (forall k :: 0 <= k < |order| ==> (order[k].member == member <==> k == i))
  {
    var order, i := Order(z), IndexOf(Order(z), member);
    OrderFacts(z);
    hide Order;
    assert Item(member, z[member]) in Items(z);
    var k :| 0 <= k < |order| && order[k] == Item(member, z[member]);
    forall k | 0 <= k < |order|
      ensures order[k].member == member ==> order[k] == Item(member, z[member])
    {
      assert order[k] in order;
      assert order[k] in Items(z);
    }
    ItemLessIsStrictTotal();
  }

  lemma {:induction false} PrefixSize(xs: seq<Item>)
    requires Ascending(xs, ItemLess)
    ensures |set x | x in xs| == |xs|
  {
    if xs != [] {
      var front, last := xs[..|xs| - 1], xs[|xs| - 1];
      PrefixSize(front);
      assert xs == front + [last];
      assert (set x | x in xs) == (set x | x in front) + {last};
      ItemLessIsStrictTotal();
      assert last !in front;
    }
  }

  function ItemsBelow(z: Scores, x: Item): set<Item> {
    set y | y in Items(z) && ItemLess(y, x)
  }

  function ItemsAbove(z: Scores, x: Item): set<Item> {
    set y | y in Items(z) && ItemLess(x, y)
  }

  lemma BelowInFront(z: Scores, i: nat, y: Item)
    requires i < |z|
    ensures y in ItemsBelow(z, Order(z)[i]) <==> y in Order(z)[..i]
    ensures y in Items(z) ==> y in ItemsBelow(z, Order(z)[i]) || y == Order(z)[i] || y in ItemsAbove(z, Order(z)[i])
  {
    var order := Order(z);
    OrderFacts(z);
    ItemLessIsStrictTotal();
    hide Order, Items, ItemLess;
    if y in Items(z) {
      var k :| 0 <= k < |order| && order[k] == y;
      assert k > i ==> ItemLess(order[i], order[k]);
      assert k < i ==> ItemLess(order[k], order[i]) && order[..i][k] == y;
    } else {
      assert y in order[..i] ==> y in order;
    }
  }

  /** The items below a position are those in front of it. */
  lemma BelowIsPrefix(z: Scores, i: nat)
    requires i < |z|
    ensures |ItemsBelow(z, Order(z)[i])| == i
    ensures |ItemsAbove(z, Order(z)[i])| == |z| - 1 - i
  {
    var order := Order(z);
    OrderFacts(z);
    var x := order[i];
    var below, above := ItemsBelow(z, x), ItemsAbove(z, x);
    assert x in order;
    forall y {
      BelowInFront(z, i, y);
    }
    ItemLessIsStrictTotal();
    ItemsSize(z);
    hide Order, Items, ItemLess;
    assert below == set y | y in order[..i];
    PrefixSize(order[..i]);
    Split(Items(z), below, x, above);
  }

  lemma Split(all: set<Item>, below: set<Item>, x: Item, above: set<Item>)
    requires below <= all && above <= all && x in all && x !in below && x !in above && below !! above
    requires forall y :: y in all ==> y in below || y == x || y in above
    ensures |all| == |below| + 1 + |above|
  {
    assert all == below + {x} + above;
  }

  /** ZRANK is the number of items below a member's own, and ZREVRANK the number above. */
  lemma RankIsCount(z: Scores, member: bytes)
    ensures Rank(z, member).Some? <==> member in z
    ensures RevRank(z, member).Some? <==> member in z
    ensures member in z ==>
      var x := Item(member, z[member]);
      Rank(z, member) == Some(|ItemsBelow(z, x)|) && RevRank(z, member) == Some(|ItemsAbove(z, x)|)
  {
    if member in z {
      PositionOf(z, member);
      BelowIsPrefix(z, IndexOf(Order(z), member));
    }
  }

  // ---------------------------------------------------------------------------
  // Rank ranges
  // ---------------------------------------------------------------------------

  /** The order as seen from one end. */
  function FromEnd(z: Scores, fromMax: bool): (xs: seq<Item>)
    ensures |xs| == |z|
  {
    if fromMax then Reversed(Order(z)) else Order(z)
  }

  function RangeByRank(z: Scores, start: int, stop: int, rev: bool): seq<Item> {
    Slice(FromEnd(z, rev), ResolveRange(|z|, start, stop))
  }

  lemma AtPosition(z: Scores, x: Item, i: nat)
    requires i < |z|
    ensures Order(z)[i] == x <==> x in Items(z) && IndexOf(Order(z), x.member) == i
  {
    OrderFacts(z);
    ItemIn(z, x);
    hide Order;
    assert Order(z)[i] in Order(z);
    if x in Items(z) {
      PositionOf(z, x.member);
    }
  }

  lemma SingleRange(z: Scores, r: int)
    requires |z| > 0
    ensures RangeByRank(z, r, r, false) == [Order(z)[Normal(|z|, r)]]
    ensures RangeByRank(z, r, r, true) == [Order(z)[|z| - 1 - Normal(|z|, r)]]
  {
    hide Order;
  }

  /** A one-element rank range is a given item exactly when that item's rank (or, from the top, its
    * reverse rank) is the index, once the index has been clamped into the set.
    */
  lemma RankIffRange(z: Scores, x: Item, r: int)
    requires |z| > 0
    ensures RangeByRank(z, r, r, false) == [x] <==> x in Items(z) && Rank(z, x.member) == Some(Normal(|z|, r))
    ensures RangeByRank(z, r, r, true) == [x] <==> x in Items(z) && RevRank(z, x.member) == Some(Normal(|z|, r) as int)
    ensures 0 <= r < |z| ==> Normal(|z|, r) == r
  {
    hide Order, RangeByRank;
    var n := Normal(|z|, r);
    AtPosition(z, x, n);
    AtPosition(z, x, |z| - 1 - n);
    ItemIn(z, x);
    hide Items, IndexOf;
    SingleRange(z, r);
  }

  // ---------------------------------------------------------------------------
  // What the order means
  // ---------------------------------------------------------------------------

  /** Scores are ordered as numbers between the infinities. */
  lemma LighterIsNumeric(x: real, y: real, a: Score, b: Score)
    ensures Lighter(Finite(x), Finite(y)) <==> x < y
    ensures Lighter(MinusInf, a) <==> a != MinusInf
    ensures Lighter(a, PlusInf) <==> a != PlusInf
    ensures !Lighter(a, MinusInf) && !Lighter(PlusInf, a)
  {
  }

  /** Of two members with one score, the one with the smaller first differing byte comes first, and a
    * proper prefix comes before what it is a prefix of.
    */
  lemma TiesGoByBytes(score: Score, same: bytes, x: byte, y: byte, a: bytes, b: bytes)
    ensures ItemLess(Item(same + [x] + a, score), Item(same + [y] + b, score)) <==> x < y || (x == y && LexLess(a, b))
    ensures ItemLess(Item(same, score), Item(same + [x] + a, score))
    ensures !ItemLess(Item(same + [x] + a, score), Item(same, score))
  {
    LexAfterPrefix(same, [x] + a, [y] + b);
    LexAfterPrefix(same, [], [x] + a);
    LexAfterPrefix(same, [x] + a, []);
    FirstByteDecides(x, y, a, b);
    hide LexLess;
    assert same + [x] + a == same + ([x] + a) && same + [y] + b == same + ([y] + b) && same + [] == same;
  }

  lemma FirstByteDecides(x: byte, y: byte, a: bytes, b: bytes)
    ensures LexLess([x] + a, [y] + b) <==> x < y || (x == y && LexLess(a, b))
    ensures LexLess([], [x] + a) && !LexLess([x] + a, [])
  {
    assert ([x] + a)[1..] == a && ([y] + b)[1..] == b;
  }

  lemma {:induction false} LexAfterPrefix(same: bytes, a: bytes, b: bytes)
    ensures LexLess(same + a, same + b) <==> LexLess(a, b)
  {
    if same != [] {
      assert (same + a)[1..] == same[1..] + a && (same + b)[1..] == same[1..] + b;
      LexAfterPrefix(same[1..], a, b);
    } else {
      assert same + a == a && same + b == b;
    }
  }

  /** Position k from an end holds the item with k items beyond it. */
  lemma FromEndCounts(z: Scores, fromMax: bool, k: nat)
    requires k < |z|
    ensures
      var x := FromEnd(z, fromMax)[k];
      && x in Items(z)
      && |if fromMax then ItemsAbove(z, x) else ItemsBelow(z, x)| == k
  {
    var i := if fromMax then |z| - 1 - k else k;
    BelowIsPrefix(z, i);
    OrderFacts(z);
    FromEndIsOrder(z, fromMax, k);
    hide *;
    assert Order(z)[i] in Order(z);
  }

  lemma FromEndIsOrder(z: Scores, fromMax: bool, k: nat)
    requires k < |z|
    ensures FromEnd(z, fromMax)[k] == Order(z)[if fromMax then |z| - 1 - k else k]
  {
    hide Order;
  }

  /** From either end, earlier items lie further out. */
  lemma FromEndDescends(z: Scores, fromMax: bool, i: nat, j: nat)
    requires i < j < |z|
    ensures
      var x, y := FromEnd(z, fromMax)[i], FromEnd(z, fromMax)[j];
      if fromMax then ItemLess(y, x) else ItemLess(x, y)
  {
    OrderFacts(z);
    hide Order, ItemLess;
  }

  /** ZRANGE and ZREVRANGE by rank: both indices are clamped into the set, negative ones counted from
    * the end; the answer holds the items from the first to the second place, its k-th being the one
    * with start + k items before it: above it when the order is reversed, below it otherwise.
    */
  lemma RangeIsWindow(z: Scores, start: int, stop: int, rev: bool)
    ensures
      var xs, n := RangeByRank(z, start, stop, rev), |z|;
      var lo := if start >= n then n - 1 else if start >= 0 then start else if n + start > 0 then n + start else 0;
      var hi := if stop >= n then n - 1 else if stop >= 0 then stop else if n + stop > 0 then n + stop else 0;
      && |xs| == (if n == 0 || lo > hi then 0 else hi - lo + 1)
      && (forall k :: 0 <= k < |xs| ==>
            && xs[k].member in z && z[xs[k].member] == xs[k].score
            && |if rev then ItemsAbove(z, xs[k]) else ItemsBelow(z, xs[k])| == lo + k)
  {
    hide *;
    var xs, window := RangeByRank(z, start, stop, rev), ResolveRange(|z|, start, stop);
    RangeSize(z, start, stop, rev);
    Clamped(|z|, start, stop);
    forall k | 0 <= k < |xs|
      ensures xs[k].member in z && z[xs[k].member] == xs[k].score
      ensures |if rev then ItemsAbove(z, xs[k]) else ItemsBelow(z, xs[k])| == window.value.0 + k
    {
      RangeItem(z, start, stop, rev, k);
    }
  }

  lemma RangeItem(z: Scores, start: int, stop: int, rev: bool, k: nat)
    requires k < |RangeByRank(z, start, stop, rev)|
    ensures
      var x, window := RangeByRank(z, start, stop, rev)[k], ResolveRange(|z|, start, stop);
      && x.member in z && z[x.member] == x.score && window.Some?
      && |if rev then ItemsAbove(z, x) else ItemsBelow(z, x)| == window.value.0 + k
  {
    RangeSize(z, start, stop, rev);
    hide FromEnd, Items, ItemsAbove, ItemsBelow, RangeByRank, ResolveRange;
    FromEndCounts(z, rev, ResolveRange(|z|, start, stop).value.0 + k);
    ItemIn(z, RangeByRank(z, start, stop, rev)[k]);
  }

  lemma Clamped(n: nat, start: int, stop: int)
    ensures
      var lo := if start >= n then n - 1 else if start >= 0 then start else if n + start > 0 then n + start else 0;
      var hi := if stop >= n then n - 1 else if stop >= 0 then stop else if n + stop > 0 then n + stop else 0;
      if n == 0 || lo > hi then ResolveRange(n, start, stop).None? else ResolveRange(n, start, stop) == Some((lo, hi))
  {
  }

  lemma RangeSize(z: Scores, start: int, stop: int, rev: bool)
    ensures
      var xs, window := RangeByRank(z, start, stop, rev), ResolveRange(|z|, start, stop);
      if window.None? then xs == []
      else
        && |xs| == window.value.1 - window.value.0 + 1
        && (forall k :: 0 <= k < |xs| ==> window.value.0 + k < |z| && xs[k] == FromEnd(z, rev)[window.value.0 + k])
  {
    hide FromEnd, ResolveRange;
  }

  /** A range ascends, or with REV descends; among finite scores as the numbers do, and where they are
    * equal as the members do.
    */
  lemma RangeInOrder(z: Scores, start: int, stop: int, rev: bool, i: nat, j: nat)
    requires i < j < |RangeByRank(z, start, stop, rev)|
    ensures
      var xs := RangeByRank(z, start, stop, rev);
      var first, second := if rev then xs[j] else xs[i], if rev then xs[i] else xs[j];
      && ItemLess(first, second)
      && (first.score.Finite? && second.score.Finite? ==>
            first.score.x < second.score.x || (first.score.x == second.score.x && LexLess(first.member, second.member)))
  {
    RangeSize(z, start, stop, rev);
    hide RangeByRank, ResolveRange, FromEnd, LexLess;
    var lo := ResolveRange(|z|, start, stop).value.0;
    FromEndDescends(z, rev, lo + i, lo + j);
  }

  // ---------------------------------------------------------------------------
  // Taking items out
  // ---------------------------------------------------------------------------

  function Members(xs: seq<Item>): set<bytes> {
    set x | x in xs :: x.member
  }

  /** A list of exactly the items of a sorted set, each once. */
  ghost predicate Enumerates(xs: seq<Item>, z: Scores) {
    && (forall k :: 0 <= k < |xs| ==> xs[k].member in z && z[xs[k].member] == xs[k].score)
    && (forall m :: m in z ==> IndexOf(xs, m) < |xs|)
    && (forall k, l :: 0 <= k < l < |xs| ==> xs[k].member != xs[l].member)
  }

  lemma OrderEnumerates(z: Scores)
    ensures Enumerates(Order(z), z)
  {
    var xs := Order(z);
    OrderFacts(z);
    hide Order;
    forall k | 0 <= k < |xs|
      ensures xs[k].member in z && z[xs[k].member] == xs[k].score
    {
      assert xs[k] in xs;
      ItemIn(z, xs[k]);
    }
    forall m | m in z
      ensures IndexOf(xs, m) < |xs|
    {
      PositionOf(z, m);
    }
    forall k, l | 0 <= k < l < |xs|
      ensures xs[k].member != xs[l].member
    {
      PositionOf(z, xs[k].member);
    }
  }

  lemma ReversedEnumerates(order: seq<Item>, z: Scores)
    requires Enumerates(order, z)
    ensures Enumerates(Reversed(order), z)
  {
    var xs := Reversed(order);
    forall m | m in z
      ensures IndexOf(xs, m) < |xs|
    {
      var i := IndexOf(order, m);
      assert xs[|xs| - 1 - i] == order[i];
    }
    forall k, l | 0 <= k < l < |xs|
      ensures xs[k].member != xs[l].member
    {
      assert order[|xs| - 1 - l].member != order[|xs| - 1 - k].member;
    }
  }

  lemma FromEndEnumerates(z: Scores, fromMax: bool)
    ensures Enumerates(FromEnd(z, fromMax), z)
  {
    OrderEnumerates(z);
    hide Enumerates, Order;
    if fromMax {
      ReversedEnumerates(Order(z), z);
    }
  }

  /** What is kept once the first `i` listed items are dealt with: those outside the window. */
  ghost predicate KeptTo(z: Scores, xs: seq<Item>, lo: nat, hi: nat, i: nat, kept: Scores) {
    && (forall m :: m in kept <==> m in z && IndexOf(xs, m) < i && !(lo <= IndexOf(xs, m) < hi))
    && (forall m :: m in kept ==> m in z && kept[m] == z[m])
  }

  lemma IndexOfItem(xs: seq<Item>, z: Scores, i: nat)
    requires Enumerates(xs, z) && i < |xs|
    ensures IndexOf(xs, xs[i].member) == i
  {
  }

  lemma KeepStep(z: Scores, xs: seq<Item>, lo: nat, hi: nat, i: nat, kept: Scores)
    requires Enumerates(xs, z) && i < |xs| && KeptTo(z, xs, lo, hi, i, kept)
    ensures KeptTo(z, xs, lo, hi, i + 1, if lo <= i < hi then kept else kept[xs[i].member := xs[i].score])
  {
    var m := xs[i].member;
    IndexOfItem(xs, z, i);
    assert m in z && z[m] == xs[i].score;
    assert forall n :: n in z && IndexOf(xs, n) == i ==> n == m;
    hide Enumerates, IndexOf;
    KeepOne(z, xs, lo, hi, i, kept, m);
  }

  lemma KeepOne(z: Scores, xs: seq<Item>, lo: nat, hi: nat, i: nat, kept: Scores, m: bytes)
    requires KeptTo(z, xs, lo, hi, i, kept) && m in z && IndexOf(xs, m) == i
    requires forall n :: n in z && IndexOf(xs, n) == i ==> n == m
    ensures KeptTo(z, xs, lo, hi, i + 1, if lo <= i < hi then kept else kept[m := z[m]])
  {
    hide IndexOf;
  }

  lemma KeepEnd(z: Scores, xs: seq<Item>, lo: nat, hi: nat, kept: Scores)
    requires Enumerates(xs, z) && lo <= hi <= |xs| && KeptTo(z, xs, lo, hi, |xs|, kept)
    ensures kept == z - Members(xs[lo..hi])
  {
    forall m | m in z
      ensures m in Members(xs[lo..hi]) <==> lo <= IndexOf(xs, m) < hi
    {
      InWindowMember(z, xs, lo, hi, m);
    }
    assert forall m :: m in z ==> IndexOf(xs, m) < |xs|;
    hide Enumerates, IndexOf, Members;
  }

  lemma InWindowMember(z: Scores, xs: seq<Item>, lo: nat, hi: nat, m: bytes)
    requires Enumerates(xs, z) && lo <= hi <= |xs| && m in z
    ensures m in Members(xs[lo..hi]) <==> lo <= IndexOf(xs, m) < hi
  {
    var i, window := IndexOf(xs, m), xs[lo..hi];
    assert i < |xs| && xs[i].member == m;
    hide Enumerates, IndexOf;
    if lo <= i < hi {
      assert window[i - lo] == xs[i];
    }
    if m in Members(window) {
      var x :| x in window && x.member == m;
      var k :| 0 <= k < |window| && window[k] == x;
      IndexOfItem(xs, z, lo + k);
    }
  }

  /** ZREMRANGEBYRANK removes exactly what the rank range with the same indices returns. */
  method PartitionByRank(z: Scores, start: int, stop: int) returns (kept: Scores, removed: nat)
    ensures kept == z - Members(RangeByRank(z, start, stop, false))
    ensures removed == |RangeByRank(z, start, stop, false)| == |z| - |kept|
  {
    hide Order, Enumerates, Members, ResolveRange;
    var sorted := Order(z);
    OrderEnumerates(z);
    NothingTaken(z, sorted);
    var window := ResolveRange(|sorted|, start, stop);
    if window.None? {
      return z, 0;
    }
    kept, removed := DropWindow(z, sorted, window.value.0, window.value.1);
  }

  method DropWindow(z: Scores, sorted: seq<Item>, s: nat, e: nat) returns (kept: Scores, removed: nat)
    requires Enumerates(sorted, z) && s <= e < |sorted| == |z|
    ensures kept == z - Members(sorted[s..e + 1])
    ensures removed == e + 1 - s == |z| - |kept|
  {
    hide Enumerates, KeptTo, Members;
    kept, removed := map[], 0;
    NothingKept(z, sorted, s, e + 1);
    for i := 0 to |sorted|
      invariant KeptTo(z, sorted, s, e + 1, i, kept)
      invariant removed == InWindow(s, e, i) && |kept| == i - removed
    {
      KeepStep(z, sorted, s, e + 1, i, kept);
      NotYetKept(z, sorted, s, e + 1, i, kept);
      if i >= s && i <= e {
        removed := removed + 1;
      } else {
        kept := kept[sorted[i].member := sorted[i].score];
      }
    }
    KeepEnd(z, sorted, s, e + 1, kept);
  }

  /** How many of the first `i` indices lie in s..e. */
  function InWindow(s: nat, e: nat, i: nat): int
    requires s <= e
  {
    if i <= s then 0 else if i <= e then i - s else e + 1 - s
  }

  lemma NothingTaken(z: Scores, xs: seq<Item>)
    ensures z - Members([]) == z && xs[..0] == []
  {
  }

  lemma NothingKept(z: Scores, xs: seq<Item>, lo: nat, hi: nat)
    ensures KeptTo(z, xs, lo, hi, 0, map[])
  {
  }

  lemma NotYetKept(z: Scores, xs: seq<Item>, lo: nat, hi: nat, i: nat, kept: Scores)
    requires Enumerates(xs, z) && i < |xs| && KeptTo(z, xs, lo, hi, i, kept)
    ensures xs[i].member !in kept
    ensures |kept[xs[i].member := xs[i].score]| == |kept| + 1
  {
  }

  function PopCount(z: Scores, count: nat): nat {
    if count < |z| then count else |z|
  }

  /** ZPOPMIN and ZPOPMAX take from the front of the order as seen from that end. */
  method PopEdge(z: Scores, count: nat, fromMax: bool) returns (kept: Scores, popped: seq<Item>)
    ensures popped == FromEnd(z, fromMax)[..PopCount(z, count)]
    ensures kept == z - Members(popped)
  {
    hide FromEnd, Enumerates, KeptTo, Members;
    NothingTaken(z, FromEnd(z, fromMax));
    if count == 0 || z == map[] {
      return z, [];
    }
    var sorted := FromEnd(z, fromMax);
    FromEndEnumerates(z, fromMax);
    var take := if count < |sorted| then count else |sorted|;
    kept, popped := map[], [];
    NothingKept(z, sorted, 0, take);
    for i := 0 to |sorted|
      invariant KeptTo(z, sorted, 0, take, i, kept)
      invariant popped == sorted[..if i < take then i else take]
    {
      KeepStep(z, sorted, 0, take, i, kept);
      if i < take {
        popped := popped + [sorted[i]];
      } else {
        kept := kept[sorted[i].member := sorted[i].score];
      }
    }
    KeepEnd(z, sorted, 0, take, kept);
  }

  // ---------------------------------------------------------------------------
  // Repeated pops
  // ---------------------------------------------------------------------------

  function Pop(z: Scores, count: nat, fromMax: bool): (Scores, seq<Item>) {
    var popped := FromEnd(z, fromMax)[..PopCount(z, count)];
    (z - Members(popped), popped)
  }

  function PopAll(z: Scores, counts: seq<nat>, fromMax: bool): (Scores, seq<Item>)
    decreases |counts|
  {
    if counts == [] then (z, [])
    else
      var (kept, popped) := Pop(z, counts[0], fromMax);
      var (final, rest) := PopAll(kept, counts[1..], fromMax);
      (final, popped + rest)
  }

  function Sum(counts: seq<nat>): nat {
    if counts == [] then 0 else counts[0] + Sum(counts[1..])
  }

  /** Taking items off the front of either end leaves the rest in the same order. */
  lemma OrderAfterPop(z: Scores, k: nat, fromMax: bool)
    requires k <= |z|
    ensures
      var xs := FromEnd(z, fromMax);
      FromEnd(z - Members(xs[..k]), fromMax) == xs[k..]
  {
    hide Order, Enumerates, Members, Ascending, ItemLess, Items;
    var order, xs := Order(z), FromEnd(z, fromMax);
    var rest := z - Members(xs[..k]);
    var left := if fromMax then order[..|z| - k] else order[k..];
    OrderFacts(z);
    PartAscends(order, k, fromMax);
    FromEndEnumerates(z, fromMax);
    LeftIsRest(order, k, fromMax);
    forall x
      ensures x in left <==> x in Items(rest)
    {
      RestItem(z, xs, k, x);
      InReversed(left, x);
    }
    OrderUnique(rest, left);
  }

  lemma PartAscends(order: seq<Item>, k: nat, fromMax: bool)
    requires Ascending(order, ItemLess) && k <= |order|
    ensures Ascending(if fromMax then order[..|order| - k] else order[k..], ItemLess)
  {
  }

  /** Dropping from one end and reversing commute. */
  lemma LeftIsRest(order: seq<Item>, k: nat, fromMax: bool)
    requires k <= |order|
    ensures
      var xs := if fromMax then Reversed(order) else order;
      var left := if fromMax then order[..|order| - k] else order[k..];
      xs[k..] == if fromMax then Reversed(left) else left
  {
  }

  lemma InReversed(xs: seq<Item>, x: Item)
    ensures x in Reversed(xs) <==> x in xs
  {
    if x in xs {
      var i :| 0 <= i < |xs| && xs[i] == x;
      assert Reversed(xs)[|xs| - 1 - i] == x;
    }
  }

  lemma RestItem(z: Scores, xs: seq<Item>, k: nat, x: Item)
    requires Enumerates(xs, z) && k <= |xs|
    ensures x in xs[k..] <==> x in Items(z - Members(xs[..k]))
  {
    ItemIn(z - Members(xs[..k]), x);
    hide Items;
    if x in xs[k..] {
      var i :| k <= i < |xs| && xs[i] == x;
      assert x.member !in Members(xs[..k]);
    }
    if x.member in z && z[x.member] == x.score && x.member !in Members(xs[..k]) {
      NotAmongFirst(z, xs, k, x);
    }
  }

  lemma NotAmongFirst(z: Scores, xs: seq<Item>, k: nat, x: Item)
    requires Enumerates(xs, z) && k <= |xs|
    requires x.member in z && z[x.member] == x.score && x.member !in Members(xs[..k])
    ensures x in xs[k..]
  {
    var i := IndexOf(xs, x.member);
    assert xs[i] == x;
    hide Enumerates, IndexOf;
    assert forall j :: 0 <= j < k ==> xs[..k][j] == xs[j] && xs[..k][j] in xs[..k];
    assert i >= k;
    assert xs[k..][i - k] == x;
  }

  /** Any run of pops from one end yields the order from that end, cut off at the total asked for,
    * and leaves exactly the other members with their scores.
    */
  lemma {:induction false} PopsFollowOrder(z: Scores, counts: seq<nat>, fromMax: bool)
    ensures PopAll(z, counts, fromMax).1 == FromEnd(z, fromMax)[..PopCount(z, Sum(counts))]
    ensures PopAll(z, counts, fromMax).0 == z - Members(PopAll(z, counts, fromMax).1)
    decreases |counts|
  {
    hide FromEnd, Members, Pop, PopAll;
    if counts == [] {
      NothingTaken(z, FromEnd(z, fromMax));
      assert PopAll(z, [], fromMax) == (z, []) by { NoPops(z, fromMax); }
    } else {
      var kept := Pop(z, counts[0], fromMax).0;
      PopsFollowOrder(kept, counts[1..], fromMax);
      PopAllUnfolds(z, counts, fromMax);
      PopThenRest(z, counts[0], Sum(counts[1..]), PopAll(kept, counts[1..], fromMax), fromMax);
    }
  }

  lemma NoPops(z: Scores, fromMax: bool)
    ensures PopAll(z, [], fromMax) == (z, [])
  {
  }

  lemma PopThenRest(z: Scores, count: nat, total: nat, rest: (Scores, seq<Item>), fromMax: bool)
    requires
      var kept := Pop(z, count, fromMax).0;
      rest.1 == FromEnd(kept, fromMax)[..PopCount(kept, total)] && rest.0 == kept - Members(rest.1)
    ensures
      var popped := Pop(z, count, fromMax).1 + rest.1;
      popped == FromEnd(z, fromMax)[..PopCount(z, count + total)] && rest.0 == z - Members(popped)
  {
    hide FromEnd, Members, Order;
    var xs, k, kept := FromEnd(z, fromMax), PopCount(z, count), Pop(z, count, fromMax).0;
    assert kept == z - Members(xs[..k]) && Pop(z, count, fromMax).1 == xs[..k];
    hide Pop;
    OrderAfterPop(z, k, fromMax);
    assert FromEnd(kept, fromMax) == xs[k..];
    PopCounts(z, kept, count, total);
    hide PopCount;
    JoinPops(z, xs, k, PopCount(kept, total));
  }

  lemma PopCounts(z: Scores, kept: Scores, count: nat, total: nat)
    requires |kept| == |z| - PopCount(z, count)
    ensures PopCount(z, count + total) == PopCount(z, count) + PopCount(kept, total) <= |z|
    ensures PopCount(z, count) <= |z| && PopCount(kept, total) <= |kept|
  {
  }

  lemma PopAllUnfolds(z: Scores, counts: seq<nat>, fromMax: bool)
    requires counts != []
    ensures
      var first := Pop(z, counts[0], fromMax);
      var rest := PopAll(first.0, counts[1..], fromMax);
      PopAll(z, counts, fromMax) == (rest.0, first.1 + rest.1)
  {
  }

  /** Pops come from their end: the k-th item popped has k items beyond it, as many are popped as were
    * asked for or there are, and the others keep their scores.
    */
  lemma PopTakesExtremes(z: Scores, count: nat, fromMax: bool)
    ensures
      var (kept, popped) := Pop(z, count, fromMax);
      && |popped| == (if count < |z| then count else |z|)
      && (forall k :: 0 <= k < |popped| ==>
            && popped[k].member in z && z[popped[k].member] == popped[k].score
            && |if fromMax then ItemsAbove(z, popped[k]) else ItemsBelow(z, popped[k])| == k)
      && kept == map m | m in z && (forall k :: 0 <= k < |popped| ==> popped[k].member != m) :: z[m]
  {
    PopPieces(z, count, fromMax);
    KeptAre(z, Pop(z, count, fromMax).1);
    var popped := Pop(z, count, fromMax).1;
    hide *;
    forall k | 0 <= k < |popped|
      ensures popped[k].member in z && z[popped[k].member] == popped[k].score
      ensures |if fromMax then ItemsAbove(z, popped[k]) else ItemsBelow(z, popped[k])| == k
    {
      FromEndCounts(z, fromMax, k);
      ItemIn(z, popped[k]);
    }
  }

  lemma PopPieces(z: Scores, count: nat, fromMax: bool)
    ensures
      var (kept, popped) := Pop(z, count, fromMax);
      && kept == z - Members(popped) && |popped| == (if count < |z| then count else |z|)
      && forall k :: 0 <= k < |popped| ==> popped[k] == FromEnd(z, fromMax)[k]
  {
    hide FromEnd, Members;
  }

  lemma KeptAre(z: Scores, popped: seq<Item>)
    ensures z - Members(popped) == map m | m in z && (forall k :: 0 <= k < |popped| ==> popped[k].member != m) :: z[m]
  {
    hide Members;
    forall m
      ensures m in Members(popped) <==> !(forall k :: 0 <= k < |popped| ==> popped[k].member != m)
    {
      InMembers(popped, m);
    }
  }

  lemma InMembers(xs: seq<Item>, m: bytes)
    ensures m in Members(xs) <==> !(forall k :: 0 <= k < |xs| ==> xs[k].member != m)
  {
    if k: nat :| k < |xs| && xs[k].member == m {
      assert xs[k] in xs;
    }
  }

  lemma JoinPops(z: Scores, xs: seq<Item>, k: nat, n: nat)
    requires k + n <= |xs|
    ensures xs[..k] + xs[k..][..n] == xs[..k + n]
    ensures z - Members(xs[..k]) - Members(xs[k..][..n]) == z - Members(xs[..k + n])
  {
  }
}
