/** The longest common subsequence of two line lists, by table and backtrack. */
module CommonSubsequence {

  type Lines = seq<string>

  // --------------------------------------------------------- specification

  /** f gives, for every line of c, its place in the first n lines of a. */
  ghost predicate Embeds(c: Lines, a: Lines, n: nat, f: seq<nat>) {
    && |f| == |c| && n <= |a|
    && (forall k :: 0 <= k < |c| ==> f[k] < n && a[f[k]] == c[k])
    && (forall k, l :: 0 <= k < l < |c| ==> f[k] < f[l])
  }

  ghost predicate Subsequence(c: Lines, a: Lines) {
    exists f :: Embeds(c, a, |a|, f)
  }

  // ------------------------------------------------------ table, backtrack

  function Max(x: nat, y: nat): nat { if x > y then x else y }

  /** Entry (i, j) of the table. */
  function Len(a: Lines, b: Lines, i: nat, j: nat): nat
    requires i <= |a| && j <= |b|
  {
    if i == 0 || j == 0 then 0
    else if a[i - 1] == b[j - 1] then Len(a, b, i - 1, j - 1) + 1
    else Max(Len(a, b, i - 1, j), Len(a, b, i, j - 1))
  }

  /** The lines the backtrack collects from (i, j) on; a tie moves left. */
  function Trace(a: Lines, b: Lines, i: nat, j: nat): Lines
    requires i <= |a| && j <= |b|
  {
    if i == 0 || j == 0 then []
    else if a[i - 1] == b[j - 1] then Trace(a, b, i - 1, j - 1) + [a[i - 1]]
    else if Len(a, b, i - 1, j) > Len(a, b, i, j - 1) then Trace(a, b, i - 1, j)
    else Trace(a, b, i, j - 1)
  }

  lemma LenUnfold(a: Lines, b: Lines, i: nat, j: nat)
    requires i <= |a| && j <= |b|
    ensures i == 0 || j == 0 ==> Len(a, b, i, j) == 0
    ensures i > 0 && j > 0 ==>
      Len(a, b, i, j) == if a[i - 1] == b[j - 1] then Len(a, b, i - 1, j - 1) + 1
                         else Max(Len(a, b, i - 1, j), Len(a, b, i, j - 1))
  {
  }

  method LongestCommonSubsequence(a: Lines, b: Lines) returns (lcs: Lines)
    ensures lcs == Trace(a, b, |a|, |b|)
  {
    var m, n := |a|, |b|;
    var dp := FillTable(a, b);
    lcs := [];
    var i, j := m, n;
    while i > 0 && j > 0
      invariant 0 <= i <= m && 0 <= j <= n
      invariant Trace(a, b, i, j) + lcs == Trace(a, b, m, n)
    {
      if a[i - 1] == b[j - 1] {
        assert Trace(a, b, i, j) + lcs == Trace(a, b, i - 1, j - 1) + ([a[i - 1]] + lcs);
        lcs := [a[i - 1]] + lcs;
        i, j := i - 1, j - 1;
      } else if dp[i - 1, j] > dp[i, j - 1] {
        i := i - 1;
      } else {
        j := j - 1;
      }
    }
    assert Trace(a, b, i, j) == [] && [] + lcs == lcs;
  }

  method FillTable(a: Lines, b: Lines) returns (dp: array2<nat>)
    ensures fresh(dp) && dp.Length0 == |a| + 1 && dp.Length1 == |b| + 1
    ensures forall i, j :: 0 <= i <= |a| && 0 <= j <= |b| ==> dp[i, j] == Len(a, b, i, j)
  {
    hide Len;
    dp := new nat[|a| + 1, |b| + 1]((_, _) => 0);
    forall k | 0 <= k <= |a| ensures Len(a, b, k, 0) == 0 { LenUnfold(a, b, k, 0); }
    forall l | 0 <= l <= |b| ensures Len(a, b, 0, l) == 0 { LenUnfold(a, b, 0, l); }
    var i := 1;
    while i <= |a|
      invariant 1 <= i <= |a| + 1
      invariant forall k, l :: 0 <= k < i && 0 <= l <= |b| ==> dp[k, l] == Len(a, b, k, l)
      invariant forall k :: i <= k <= |a| ==> dp[k, 0] == 0
    {
      var j := 1;
      while j <= |b|
        invariant 1 <= j <= |b| + 1
        invariant forall k, l :: 0 <= k < i && 0 <= l <= |b| ==> dp[k, l] == Len(a, b, k, l)
        invariant forall l :: 0 <= l < j ==> dp[i, l] == Len(a, b, i, l)
        invariant forall k :: i < k <= |a| ==> dp[k, 0] == 0
      {
        LenUnfold(a, b, i, j);
        if a[i - 1] == b[j - 1] {
          dp[i, j] := dp[i - 1, j - 1] + 1;
        } else {
          dp[i, j] := Max(dp[i - 1, j], dp[i, j - 1]);
        }
        j := j + 1;
      }
      i := i + 1;
    }
  }

  // ---------------------------------------------------------- what it finds

  /** Table and backtrack agree at every entry. */
  lemma {:induction false} TraceHasTableLength(a: Lines, b: Lines, i: nat, j: nat)
    requires i <= |a| && j <= |b|
    ensures |Trace(a, b, i, j)| == Len(a, b, i, j)
    decreases i + j
  {
    if i > 0 && j > 0 {
      if a[i - 1] == b[j - 1] {
        TraceHasTableLength(a, b, i - 1, j - 1);
      } else if Len(a, b, i - 1, j) > Len(a, b, i, j - 1) {
        TraceHasTableLength(a, b, i - 1, j);
      } else {
        TraceHasTableLength(a, b, i, j - 1);
      }
    }
  }

  lemma {:induction false} TraceEmbeds(a: Lines, b: Lines, i: nat, j: nat) returns (f: seq<nat>, g: seq<nat>)
    requires i <= |a| && j <= |b|
    ensures Embeds(Trace(a, b, i, j), a, i, f) && Embeds(Trace(a, b, i, j), b, j, g)
    decreases i + j
  {
    f, g := [], [];
    if i > 0 && j > 0 {
      if a[i - 1] == b[j - 1] {
        f, g := TraceEmbeds(a, b, i - 1, j - 1);
        f, g := f + [i - 1], g + [j - 1];
      } else if Len(a, b, i - 1, j) > Len(a, b, i, j - 1) {
        f, g := TraceEmbeds(a, b, i - 1, j);
      } else {
        f, g := TraceEmbeds(a, b, i, j - 1);
      }
    }
  }

  /** Neighbouring entries differ by at most one, and never decrease. */
  lemma {:induction false} LenSteps(a: Lines, b: Lines, i: nat, j: nat)
    requires i <= |a| && j <= |b|
    ensures i > 0 ==> Len(a, b, i - 1, j) <= Len(a, b, i, j) <= Len(a, b, i - 1, j) + 1
    ensures j > 0 ==> Len(a, b, i, j - 1) <= Len(a, b, i, j) <= Len(a, b, i, j - 1) + 1
    decreases i + j
  {
    hide Len;
    LenUnfold(a, b, i, j);
    if i > 0 && j == 0 { LenUnfold(a, b, i - 1, j); }
    if i == 0 && j > 0 { LenUnfold(a, b, i, j - 1); }
    if i > 0 && j > 0 {
      LenSteps(a, b, i - 1, j);
      LenSteps(a, b, i, j - 1);
    }
  }

  /** No common subsequence is longer than the table says. */
  lemma {:induction false} NoLongerSubsequence(c: Lines, a: Lines, b: Lines, i: nat, j: nat, f: seq<nat>, g: seq<nat>)
    requires Embeds(c, a, i, f) && Embeds(c, b, j, g)
    ensures |c| <= Len(a, b, i, j)
    decreases i + j
  {
    hide Len;
    if c != [] {
      var last := |c| - 1;
      LenSteps(a, b, i, j);
      if f[last] < i - 1 {
        NoLongerSubsequence(c, a, b, i - 1, j, f, g);
      } else if g[last] < j - 1 {
        NoLongerSubsequence(c, a, b, i, j - 1, f, g);
      } else {
        NoLongerSubsequence(c[..last], a, b, i - 1, j - 1, f[..last], g[..last]);
        LenUnfold(a, b, i, j);
      }
    }
  }

  /** The list returned is a common subsequence, and none is longer. */
  lemma LongestOfAll(a: Lines, b: Lines)
    ensures Subsequence(Trace(a, b, |a|, |b|), a) && Subsequence(Trace(a, b, |a|, |b|), b)
    ensures forall c :: Subsequence(c, a) && Subsequence(c, b) ==> |c| <= |Trace(a, b, |a|, |b|)|
  {
    var f, g := TraceEmbeds(a, b, |a|, |b|);
    TraceHasTableLength(a, b, |a|, |b|);
    forall c | Subsequence(c, a) && Subsequence(c, b) ensures |c| <= |Trace(a, b, |a|, |b|)| {
      var p :| Embeds(c, a, |a|, p);
      var q :| Embeds(c, b, |b|, q);
      NoLongerSubsequence(c, a, b, |a|, |b|, p, q);
    }
  }
}
