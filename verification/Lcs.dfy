/** LCS: the dynamic-programming table, and the two ways back through it. */
module Lcs {
  import opened Values
  import opened Ordered

  // ---------------------------------------------------------------------------
  // Common subsequences
  // ---------------------------------------------------------------------------

  /** `at` places `s` in `a`, in order and without overlap. */
  ghost predicate Embeds(s: bytes, a: bytes, at: seq<nat>) {
    && |at| == |s|
    && (forall k :: 0 <= k < |at| ==> at[k] < |a| && a[at[k]] == s[k])
    && (forall k, l :: 0 <= k < l < |at| ==> at[k] < at[l])
  }

  ghost predicate Subsequence(s: bytes, a: bytes) {
    exists at :: Embeds(s, a, at)
  }

  ghost predicate Common(s: bytes, a: bytes, b: bytes) {
    Subsequence(s, a) && Subsequence(s, b)
  }

  ghost predicate LongestCommon(s: bytes, a: bytes, b: bytes) {
    Common(s, a, b) && forall t :: Common(t, a, b) ==> |t| <= |s|
  }

  function Max(x: nat, y: nat): nat {
    if x >= y then x else y
  }

  /** The recurrence that fills the table. */
  function Best(a: bytes, b: bytes, i: nat, j: nat): nat
    requires i <= |a| && j <= |b|
  {
    if i == 0 || j == 0 then 0
    else if a[i - 1] == b[j - 1] then Best(a, b, i - 1, j - 1) + 1
    else Max(Best(a, b, i - 1, j), Best(a, b, i, j - 1))
  }

  /** A placement that avoids the last position is a placement in the shorter string. */
  lemma Shorten(s: bytes, a: bytes, i: nat, at: seq<nat>)
    requires 0 < i <= |a| && Embeds(s, a[..i], at)
    requires s == [] || at[|s| - 1] < i - 1
    ensures Embeds(s, a[..i - 1], at)
  {
  }

  /** Without its last element, a subsequence fits in front of where that element was. */
  lemma DropLast(s: bytes, a: bytes, i: nat, at: seq<nat>)
    requires s != [] && 0 < i <= |a| && Embeds(s, a[..i], at)
    ensures Embeds(s[..|s| - 1], a[..i - 1], at[..|s| - 1])
  {
    var front := at[..|s| - 1];
    forall k | 0 <= k < |front|
      ensures front[k] < i - 1
    {
      assert at[k] < at[|s| - 1];
    }
  }

  /** No common subsequence of two prefixes is longer than the table says. */
  lemma {:induction false} BestIsBound(s: bytes, a: bytes, b: bytes, i: nat, j: nat, inA: seq<nat>, inB: seq<nat>)
    requires i <= |a| && j <= |b|
    requires Embeds(s, a[..i], inA) && Embeds(s, b[..j], inB)
    ensures |s| <= Best(a, b, i, j)
    decreases i + j
  {
    if s != [] {
      var n := |s| - 1;
      assert inA[n] < i && inB[n] < j;
      if a[i - 1] == b[j - 1] {
        DropLast(s, a, i, inA);
        DropLast(s, b, j, inB);
        BestIsBound(s[..n], a, b, i - 1, j - 1, inA[..n], inB[..n]);
      } else if inA[n] < i - 1 {
        Shorten(s, a, i, inA);
        BestIsBound(s, a, b, i - 1, j, inA, inB);
      } else {
        assert inB[n] != j - 1 by {
          assert a[..i][inA[n]] == s[n] == b[..j][inB[n]];
        }
        Shorten(s, b, j, inB);
        BestIsBound(s, a, b, i, j - 1, inA, inB);
      }
    }
  }

  /** A common subsequence as long as the table says is a longest one. */
  lemma BestIsLongest(s: bytes, a: bytes, b: bytes)
    requires Common(s, a, b) && |s| == Best(a, b, |a|, |b|)
    ensures LongestCommon(s, a, b)
  {
    forall t | Common(t, a, b)
      ensures |t| <= |s|
    {
      var inA :| Embeds(t, a, inA);
      var inB :| Embeds(t, b, inB);
      assert a[..|a|] == a && b[..|b|] == b;
      BestIsBound(t, a, b, |a|, |b|, inA, inB);
    }
  }

  // ---------------------------------------------------------------------------
  // The table
  // ---------------------------------------------------------------------------

  ghost predicate IsTable(dp: array2<nat>, a: bytes, b: bytes)
    reads dp
  {
    && dp.Length0 == |a| + 1 && dp.Length1 == |b| + 1
    && forall i, j :: 0 <= i <= |a| && 0 <= j <= |b| ==> dp[i, j] == Best(a, b, i, j)
  }

  /** Rows up to `i` are filled, and row `i + 1` up to column `j`. */
  ghost predicate FilledTo(dp: array2<nat>, a: bytes, b: bytes, i: nat, j: nat)
    reads dp
  {
    && dp.Length0 == |a| + 1 && dp.Length1 == |b| + 1
    && forall k, l :: 0 <= k <= |a| && 0 <= l <= |b| && (k <= i || l == 0 || (k == i + 1 && l <= j)) ==>
         dp[k, l] == Best(a, b, k, l)
  }

  method Table(a: bytes, b: bytes) returns (dp: array2<nat>)
    ensures IsTable(dp, a, b)
  {
    dp := new nat[|a| + 1, |b| + 1]((_, _) => 0);
    for i := 0 to |a|
      invariant FilledTo(dp, a, b, i, 0)
    {
      for j := 0 to |b|
        invariant FilledTo(dp, a, b, i, j)
      {
        BestStep(a, b, i, j);
        hide Best;
        if a[i] == b[j] {
          dp[i + 1, j + 1] := dp[i, j] + 1;
        } else {
          dp[i + 1, j + 1] := Max(dp[i, j + 1], dp[i + 1, j]);
        }
      }
    }
  }

  lemma BestStep(a: bytes, b: bytes, i: nat, j: nat)
    requires i < |a| && j < |b|
    ensures Best(a, b, i + 1, j + 1) ==
      if a[i] == b[j] then Best(a, b, i, j) + 1 else Max(Best(a, b, i, j + 1), Best(a, b, i + 1, j))
  {
  }

  // ---------------------------------------------------------------------------
  // The subsequence
  // ---------------------------------------------------------------------------

  /** Collected back to front: positions descend and stay at or above `i`. */
  ghost predicate CollectedFrom(out: bytes, a: bytes, at: seq<nat>, i: nat) {
    && |at| == |out|
    && (forall k :: 0 <= k < |at| ==> i <= at[k] < |a| && a[at[k]] == out[k])
    && (forall k, l :: 0 <= k < l < |at| ==> at[l] < at[k])
  }

  lemma CollectedEmbeds(out: bytes, a: bytes, at: seq<nat>)
    requires CollectedFrom(out, a, at, 0)
    ensures Subsequence(Reversed(out), a)
  {
    var back := Reversed(at);
    forall k, l | 0 <= k < l < |back|
      ensures back[k] < back[l]
    {
      assert at[|at| - 1 - k] < at[|at| - 1 - l];
    }
    assert Embeds(Reversed(out), a, back);
  }

  lemma Lower(out: bytes, a: bytes, at: seq<nat>, i: nat, i': nat)
    requires CollectedFrom(out, a, at, i) && i' <= i
    ensures CollectedFrom(out, a, at, i')
  {
  }

  /** The subsequence returned is a longest common one, and its length is the table's corner. */
  method Sequence(a: bytes, b: bytes, dp: array2<nat>) returns (s: bytes)
    requires IsTable(dp, a, b)
    ensures LongestCommon(s, a, b) && |s| == dp[|a|, |b|]
  {
    var i, j := |a|, |b|;
    var out := [];
    ghost var inA: seq<nat>, inB: seq<nat> := [], [];
    while i > 0 && j > 0
      invariant 0 <= i <= |a| && 0 <= j <= |b|
      invariant CollectedFrom(out, a, inA, i) && CollectedFrom(out, b, inB, j)
      invariant |out| + Best(a, b, i, j) == Best(a, b, |a|, |b|)
      decreases i + j
    {
      if a[i - 1] == b[j - 1] {
        out := out + [a[i - 1]];
        inA, inB := inA + [i - 1], inB + [j - 1];
        i, j := i - 1, j - 1;
      } else if dp[i - 1, j] >= dp[i, j - 1] {
        i := i - 1;
      } else {
        j := j - 1;
      }
    }
    s := Reversed(out);
    Lower(out, a, inA, i, 0);
    Lower(out, b, inB, j, 0);
    CollectedEmbeds(out, a, inA);
    CollectedEmbeds(out, b, inB);
    BestIsLongest(s, a, b);
  }

  // ---------------------------------------------------------------------------
  // The matching runs
  // ---------------------------------------------------------------------------

  /** Inclusive bounds of a run in each string. */
  datatype Match = Match(aLo: nat, aHi: nat, bLo: nat, bHi: nat)

  function Length(m: Match): int {
    m.aHi - m.aLo + 1
  }

  /** Equal runs of equal length that cannot be extended to the left. */
  ghost predicate IsRun(m: Match, a: bytes, b: bytes) {
    && m.aLo <= m.aHi < |a| && m.bLo <= m.bHi < |b|
    && a[m.aLo..m.aHi + 1] == b[m.bLo..m.bHi + 1]
    && (m.aLo > 0 && m.bLo > 0 ==> a[m.aLo - 1] != b[m.bLo - 1])
  }

  ghost predicate AllRuns(ms: seq<Match>, a: bytes, b: bytes) {
    forall k :: 0 <= k < |ms| ==> IsRun(ms[k], a, b)
  }

  /** Last match first, and disjoint in both strings. */
  ghost predicate DescendingDisjoint(ms: seq<Match>) {
    forall k, l :: 0 <= k < l < |ms| ==> ms[l].aHi < ms[k].aLo && ms[l].bHi < ms[k].bLo
  }

  ghost predicate AllFrom(ms: seq<Match>, i: nat, j: nat) {
    forall k :: 0 <= k < |ms| ==> i <= ms[k].aLo && j <= ms[k].bLo
  }

  function Total(ms: seq<Match>): int {
    if ms == [] then 0 else Total(ms[..|ms| - 1]) + Length(ms[|ms| - 1])
  }

  function LongEnough(ms: seq<Match>, min: nat): seq<Match> {
    if ms == [] then []
    else
      var front, m := LongEnough(ms[..|ms| - 1], min), ms[|ms| - 1];
      if Length(m) >= min then front + [m] else front
  }

  lemma {:induction false} LongEnoughIsFilter(ms: seq<Match>, min: nat)
    ensures forall m :: m in LongEnough(ms, min) <==> m in ms && Length(m) >= min
  {
    if ms != [] {
      LongEnoughIsFilter(ms[..|ms| - 1], min);
      assert ms == ms[..|ms| - 1] + [ms[|ms| - 1]];
    }
  }

  lemma {:induction false} LongEnoughDescends(ms: seq<Match>, min: nat)
    requires DescendingDisjoint(ms)
    ensures DescendingDisjoint(LongEnough(ms, min))
  {
    if ms != [] {
      var front, m := ms[..|ms| - 1], ms[|ms| - 1];
      LongEnoughDescends(front, min);
      LongEnoughIsFilter(front, min);
      var kept := LongEnough(front, min);
      forall k | 0 <= k < |kept|
        ensures m.aHi < kept[k].aLo && m.bHi < kept[k].bLo
      {
        assert kept[k] in front;
        var l :| 0 <= l < |front| && front[l] == kept[k];
        assert ms[l] == front[l];
      }
    }
  }

  lemma {:induction false} LongEnoughTotal(ms: seq<Match>, min: nat)
    requires forall k :: 0 <= k < |ms| ==> Length(ms[k]) >= 1
    ensures Total(LongEnough(ms, min)) <= Total(ms)
    ensures min <= 1 ==> LongEnough(ms, min) == ms
  {
    if ms != [] {
      var front, m := ms[..|ms| - 1], ms[|ms| - 1];
      LongEnoughTotal(front, min);
      assert ms == front + [m];
      var kept := LongEnough(front, min);
      assert (kept + [m])[..|kept|] == kept;
    }
  }

  lemma LongEnoughKeeps(all: seq<Match>, min: nat, a: bytes, b: bytes)
    requires AllRuns(all, a, b) && DescendingDisjoint(all)
    ensures
      var out := LongEnough(all, min);
      && AllRuns(out, a, b) && DescendingDisjoint(out)
      && (forall m :: m in out <==> m in all && Length(m) >= min)
      && Total(out) <= Total(all) && (min <= 1 ==> out == all)
  {
    var out := LongEnough(all, min);
    LongEnoughIsFilter(all, min);
    LongEnoughDescends(all, min);
    assert forall k :: 0 <= k < |all| ==> IsRun(all[k], a, b) && Length(all[k]) >= 1;
    LongEnoughTotal(all, min);
    hide LongEnough, Total;
    forall k | 0 <= k < |out|
      ensures IsRun(out[k], a, b)
    {
      assert out[k] in all;
    }
  }

  /** The runs found from the ends of both strings down to `i` and `j`. */
  ghost predicate RunsDownTo(all: seq<Match>, a: bytes, b: bytes, i: nat, j: nat) {
    && i <= |a| && j <= |b|
    && AllRuns(all, a, b) && DescendingDisjoint(all) && AllFrom(all, i, j)
    && Total(all) + Best(a, b, i, j) == Best(a, b, |a|, |b|)
  }

  lemma StepDown(all: seq<Match>, a: bytes, b: bytes, i: nat, j: nat, i': nat, j': nat)
    requires RunsDownTo(all, a, b, i, j) && i' <= i && j' <= j && Best(a, b, i', j') == Best(a, b, i, j)
    ensures RunsDownTo(all, a, b, i', j')
  {
  }

  lemma AddRun(all: seq<Match>, m: Match, a: bytes, b: bytes)
    requires IsRun(m, a, b) && RunsDownTo(all, a, b, m.aHi + 1, m.bHi + 1)
    requires Best(a, b, m.aHi + 1, m.bHi + 1) == Best(a, b, m.aLo, m.bLo) + Length(m)
    ensures RunsDownTo(all + [m], a, b, m.aLo, m.bLo)
  {
    hide Best;
    assert Total(all + [m]) == Total(all) + Length(m) by {
      assert (all + [m])[..|all|] == all;
    }
    hide Total;
    AppendRun(all, m, a, b);
    hide AllRuns, DescendingDisjoint, AllFrom;
  }

  lemma AppendRun(all: seq<Match>, m: Match, a: bytes, b: bytes)
    requires IsRun(m, a, b) && AllRuns(all, a, b) && DescendingDisjoint(all) && AllFrom(all, m.aHi + 1, m.bHi + 1)
    ensures AllRuns(all + [m], a, b) && DescendingDisjoint(all + [m]) && AllFrom(all + [m], m.aLo, m.bLo)
  {
  }

  lemma LongEnoughStep(all: seq<Match>, m: Match, min: nat)
    ensures LongEnough(all + [m], min) == if Length(m) >= min then LongEnough(all, min) + [m] else LongEnough(all, min)
  {
  }

  /** With a minimum length of at most one the runs' lengths add up to the length of a longest
    * common subsequence; with a larger minimum exactly the shorter runs of that list are left out.
    */
  method Matches(a: bytes, b: bytes, dp: array2<nat>, min: nat) returns (out: seq<Match>, ghost all: seq<Match>)
    requires IsTable(dp, a, b)
    ensures AllRuns(out, a, b) && DescendingDisjoint(out)
    ensures AllRuns(all, a, b) && DescendingDisjoint(all)
    ensures forall m :: m in out <==> m in all && Length(m) >= min
    ensures Total(all) == dp[|a|, |b|]
    ensures min <= 1 ==> out == all
    ensures Total(out) <= dp[|a|, |b|]
  {
    hide RunsDownTo, LongEnough, Best, IsRun, AllRuns, DescendingDisjoint, Total;
    var i, j := |a|, |b|;
    out, all := [], [];
    NoRunsYet(a, b, min);
    while i > 0 && j > 0
      invariant 0 <= i <= |a| && 0 <= j <= |b|
      invariant RunsDownTo(all, a, b, i, j)
      invariant out == LongEnough(all, min)
      decreases i + j
    {
      BestStep(a, b, i - 1, j - 1);
      ghost var i0, j0 := i, j;
      if a[i - 1] == b[j - 1] {
        var aHi, bHi := i - 1, j - 1;
        i, j := RunStart(a, b, i, j);
        var m := Match(i, aHi, j, bHi);
        if aHi - i + 1 >= min {
          out := out + [m];
        }
        LongEnoughStep(all, m, min);
        AddRun(all, m, a, b);
        all := all + [m];
      } else if dp[i - 1, j] >= dp[i, j - 1] {
        i := i - 1;
        StepDown(all, a, b, i0, j0, i, j);
      } else {
        j := j - 1;
        StepDown(all, a, b, i0, j0, i, j);
      }
    }
    AllRunsFound(all, a, b, i, j);
    LongEnoughKeeps(all, min, a, b);
  }

  lemma NoRunsYet(a: bytes, b: bytes, min: nat)
    ensures RunsDownTo([], a, b, |a|, |b|) && LongEnough([], min) == []
  {
  }

  lemma AllRunsFound(all: seq<Match>, a: bytes, b: bytes, i: nat, j: nat)
    requires RunsDownTo(all, a, b, i, j) && (i == 0 || j == 0)
    ensures AllRuns(all, a, b) && DescendingDisjoint(all) && Total(all) == Best(a, b, |a|, |b|)
  {
  }

  /** Walk left along the diagonal while the strings agree. */
  method RunStart(a: bytes, b: bytes, i0: nat, j0: nat) returns (i: nat, j: nat)
    requires 0 < i0 <= |a| && 0 < j0 <= |b| && a[i0 - 1] == b[j0 - 1]
    ensures i < i0 && j < j0 && i0 - i == j0 - j
    ensures IsRun(Match(i, i0 - 1, j, j0 - 1), a, b)
    ensures Best(a, b, i0, j0) == Best(a, b, i, j) + (i0 - i)
  {
    hide Best, Agree;
    i, j := i0, j0;
    AgreeGrows(a, b, i0, i, j0, j);
    while i > 0 && j > 0 && a[i - 1] == b[j - 1]
      invariant 0 <= i <= i0 && 0 <= j <= j0 && i0 - i == j0 - j
      invariant Agree(a, b, i, i0, j, j0)
      invariant Best(a, b, i0, j0) == Best(a, b, i, j) + (i0 - i)
    {
      BestStep(a, b, i - 1, j - 1);
      AgreeGrows(a, b, i0, i, j0, j);
      i, j := i - 1, j - 1;
    }
    assert i < i0;
    AgreeIsRun(a, b, i, i0, j, j0);
  }

  ghost predicate Agree(a: bytes, b: bytes, i: nat, i0: nat, j: nat, j0: nat) {
    i <= i0 <= |a| && j <= j0 <= |b| && a[i..i0] == b[j..j0]
  }

  lemma AgreeGrows(a: bytes, b: bytes, i0: nat, i: nat, j0: nat, j: nat)
    requires 0 < i <= i0 <= |a| && 0 < j <= j0 <= |b| && a[i - 1] == b[j - 1]
    ensures Agree(a, b, i0, i0, j0, j0)
    ensures Agree(a, b, i, i0, j, j0) ==> Agree(a, b, i - 1, i0, j - 1, j0)
  {
  }

  lemma AgreeIsRun(a: bytes, b: bytes, i: nat, i0: nat, j: nat, j0: nat)
    requires i < i0 && j < j0 && Agree(a, b, i, i0, j, j0)
    requires i > 0 && j > 0 ==> a[i - 1] != b[j - 1]
    ensures IsRun(Match(i, i0 - 1, j, j0 - 1), a, b)
  {
  }
}
