/** Strict total orders and the sorted enumeration of a finite set. */
module Ordered {
  import opened Bytes

  ghost predicate StrictTotal<T(!new)>(lt: (T, T) -> bool) {
    && (forall x :: !lt(x, x))
    && (forall x, y :: x != y ==> lt(x, y) || lt(y, x))
    && (forall x, y, z :: lt(x, y) && lt(y, z) ==> lt(x, z))
  }

  ghost predicate Ascending<T>(xs: seq<T>, lt: (T, T) -> bool) {
    forall i, j :: 0 <= i < j < |xs| ==> lt(xs[i], xs[j])
  }

  ghost predicate IsLeast<T>(x: T, s: set<T>, lt: (T, T) -> bool) {
    x in s && forall y :: y in s && y != x ==> lt(x, y)
  }

  lemma {:induction false} LeastExists<T(!new)>(s: set<T>, lt: (T, T) -> bool)
    requires StrictTotal(lt) && s != {}
    ensures exists x :: IsLeast(x, s, lt)
    decreases |s|
  {
    var z :| z in s;
    var rest := s - {z};
    if forall y :: y in s && y != z ==> lt(z, y) {
      assert IsLeast(z, s, lt);
    } else {
      var y :| y in s && y != z && !lt(z, y);
      assert y in rest;
      LeastExists(rest, lt);
      var x :| IsLeast(x, rest, lt);
      assert lt(x, z);
      assert IsLeast(x, s, lt);
    }
  }

  /** The elements of a set in ascending order: how a B-tree map or set iterates. */
  function Sorted<T(!new, ==)>(s: set<T>, lt: (T, T) -> bool): (xs: seq<T>)
    requires StrictTotal(lt)
    ensures Ascending(xs, lt)
    ensures forall x :: x in xs <==> x in s
    ensures |xs| == |s|
    decreases |s|
  {
    if s == {} then []
    else
      LeastExists(s, lt);
      var x :| x in s && forall y :: y in s && y != x ==> lt(x, y);
      [x] + Sorted(s - {x}, lt)
  }

  /** Ascending enumerations are unique. */
  lemma {:induction false} SortedUnique<T(!new)>(xs: seq<T>, s: set<T>, lt: (T, T) -> bool)
    requires StrictTotal(lt) && Ascending(xs, lt)
    requires forall x :: x in xs <==> x in s
    ensures xs == Sorted(s, lt)
    decreases |s|
  {
    hide StrictTotal, Ascending, Sorted;
    assert xs != [] ==> xs[0] in s;
    if s != {} {
      var ys := Sorted(s, lt);
      SameFirst(xs, ys, s, lt);
      SortedUnfolds(s, lt);
      RestIsRest(xs, s, lt);
      SortedUnique(xs[1..], s - {xs[0]}, lt);
      assert xs == [xs[0]] + xs[1..] && ys == [ys[0]] + ys[1..];
    }
  }

  lemma SortedUnfolds<T(!new)>(s: set<T>, lt: (T, T) -> bool)
    requires StrictTotal(lt) && s != {}
    ensures
      var ys := Sorted(s, lt);
      ys != [] && ys[1..] == Sorted(s - {ys[0]}, lt)
  {
  }

  lemma FirstIsLeast<T(!new)>(xs: seq<T>, s: set<T>, lt: (T, T) -> bool)
    requires Ascending(xs, lt) && s != {} && forall x :: x in xs <==> x in s
    ensures xs != [] && xs[0] in s && forall y :: y in s ==> y == xs[0] || lt(xs[0], y)
  {
    var z :| z in s;
    assert z in xs;
    forall y | y in s
      ensures y == xs[0] || lt(xs[0], y)
    {
      var i :| 0 <= i < |xs| && xs[i] == y;
    }
  }

  lemma SameFirst<T(!new)>(xs: seq<T>, ys: seq<T>, s: set<T>, lt: (T, T) -> bool)
    requires StrictTotal(lt) && Ascending(xs, lt) && Ascending(ys, lt) && s != {}
    requires (forall x :: x in xs <==> x in s) && (forall y :: y in ys <==> y in s)
    ensures xs != [] && ys != [] && xs[0] == ys[0]
  {
    FirstIsLeast(xs, s, lt);
    FirstIsLeast(ys, s, lt);
    hide Ascending;
  }

  lemma RestIsRest<T(!new)>(xs: seq<T>, s: set<T>, lt: (T, T) -> bool)
    requires StrictTotal(lt) && Ascending(xs, lt) && xs != []
    requires forall x :: x in xs <==> x in s
    ensures Ascending(xs[1..], lt) && forall x :: x in xs[1..] <==> x in s - {xs[0]}
  {
    forall x | x in s && x != xs[0]
      ensures x in xs[1..]
    {
      var i :| 0 <= i < |xs| && xs[i] == x;
      assert x == xs[1..][i - 1];
    }
    forall x | x in xs[1..]
      ensures x in s && x != xs[0]
    {
      var i :| 0 <= i < |xs| - 1 && xs[1..][i] == x;
      assert lt(xs[0], xs[i + 1]);
    }
  }

  function Reversed<T>(s: seq<T>): (r: seq<T>)
    ensures |r| == |s|
    ensures forall k :: 0 <= k < |s| ==> r[k] == s[|s| - 1 - k]
  {
    seq(|s|, k requires 0 <= k < |s| => s[|s| - 1 - k])
  }

  /** Byte-wise lexicographic order: Rust's order on strings. */
  predicate LexLess(a: seq<byte>, b: seq<byte>) {
    b != [] && (a == [] || a[0] < b[0] || (a[0] == b[0] && LexLess(a[1..], b[1..])))
  }

  lemma {:induction false} LexIrreflexive(a: seq<byte>)
    ensures !LexLess(a, a)
  {
    if a != [] {
      LexIrreflexive(a[1..]);
    }
  }

  lemma {:induction false} LexConnected(a: seq<byte>, b: seq<byte>)
    requires a != b
    ensures LexLess(a, b) || LexLess(b, a)
  {
    if a != [] && b != [] && a[0] == b[0] {
      assert a == [a[0]] + a[1..] && b == [b[0]] + b[1..];
      LexConnected(a[1..], b[1..]);
    }
  }

  lemma {:induction false} LexTransitive(a: seq<byte>, b: seq<byte>, c: seq<byte>)
    requires LexLess(a, b) && LexLess(b, c)
    ensures LexLess(a, c)
  {
    if a != [] && a[0] == b[0] == c[0] {
      LexTransitive(a[1..], b[1..], c[1..]);
    }
  }

  lemma LexIsStrictTotal()
    ensures StrictTotal(LexLess)
  {
    forall a {
      LexIrreflexive(a);
    }
    forall a, b | a != b {
      LexConnected(a, b);
    }
    forall a, b, c | LexLess(a, b) && LexLess(b, c) {
      LexTransitive(a, b, c);
    }
  }
}
