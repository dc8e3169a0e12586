/** The two-row edit distance, and why it is a distance: it is the least cost
    of any script of edits that turns one text into the other. */
module EditDistance {
  import opened Prelude

  // ---------------------------------------------------------- edit scripts

  /** Each edit consumes bytes of the source and produces bytes of the target. */
  datatype Edit = Keep(c: byte) | Substitute(from: byte, to: byte) | Insertion(c: byte) | Deletion(c: byte)

  type EditScript = seq<Edit>

  function Consumed(e: Edit): bytes {
    match e
    case Keep(c) => [c]
    case Substitute(from, to) => [from]
    case Insertion(c) => []
    case Deletion(c) => [c]
  }

  function Produced(e: Edit): bytes {
    match e
    case Keep(c) => [c]
    case Substitute(from, to) => [to]
    case Insertion(c) => [c]
    case Deletion(c) => []
  }

  function Source(s: EditScript): bytes {
    if s == [] then [] else Source(s[..|s| - 1]) + Consumed(s[|s| - 1])
  }

  function Target(s: EditScript): bytes {
    if s == [] then [] else Target(s[..|s| - 1]) + Produced(s[|s| - 1])
  }

  function Cost(s: EditScript): nat {
    if s == [] then 0 else Cost(s[..|s| - 1]) + if s[|s| - 1].Keep? then 0 else 1
  }

  ghost predicate Transforms(s: EditScript, a: bytes, b: bytes) {
    Source(s) == a && Target(s) == b
  }

  /** d is the cost of the cheapest script from a to b. */
  ghost predicate IsDistance(a: bytes, b: bytes, d: nat) {
    && (exists s :: Transforms(s, a, b) && Cost(s) == d)
    && (forall s :: Transforms(s, a, b) ==> d <= Cost(s))
  }

  lemma ScriptSnoc(s: EditScript, e: Edit)
    ensures Source(s + [e]) == Source(s) + Consumed(e)
    ensures Target(s + [e]) == Target(s) + Produced(e)
    ensures Cost(s + [e]) == Cost(s) + if e.Keep? then 0 else 1
  {
    assert (s + [e])[..|s|] == s;
  }

  // ------------------------------------------------------------- the table

  function MinOf3(a: nat, b: nat, c: nat): nat {
    if a < b then (if a < c then a else c)
    else if b < c then b
    else c
  }

  /** Entry (i, j) of the table: the distance of the first i bytes of a from
      the first j bytes of b. */
  function Lev(a: bytes, b: bytes, i: nat, j: nat): nat
    requires i <= |a| && j <= |b|
  {
    if i == 0 then j
    else if j == 0 then i
    else MinOf3(
      Lev(a, b, i - 1, j) + 1,
      Lev(a, b, i, j - 1) + 1,
      Lev(a, b, i - 1, j - 1) + if a[i - 1] == b[j - 1] then 0 else 1)
  }

  lemma LevUnfold(a: bytes, b: bytes, i: nat, j: nat)
    requires i <= |a| && j <= |b|
    ensures i == 0 ==> Lev(a, b, i, j) == j
    ensures j == 0 ==> Lev(a, b, i, j) == i
    ensures i > 0 && j > 0 ==>
      Lev(a, b, i, j) == MinOf3(Lev(a, b, i - 1, j) + 1, Lev(a, b, i, j - 1) + 1,
                                Lev(a, b, i - 1, j - 1) + if a[i - 1] == b[j - 1] then 0 else 1)
  {
  }

  function Distance(a: bytes, b: bytes): nat { Lev(a, b, |a|, |b|) }

  method LevenshteinDistance(a: bytes, b: bytes) returns (d: nat)
    ensures d == Distance(a, b)
  {
    if |a| == 0 { return |b|; }
    if |b| == 0 { return |a|; }
    var m, n := |a|, |b|;
    var prev, curr := new nat[n + 1], new nat[n + 1];
    var j := 0;
    while j <= n
      invariant 0 <= j <= n + 1
      invariant forall k :: 0 <= k < j ==> prev[k] == k
    {
      prev[j] := j;
      j := j + 1;
    }
    var i := 1;
    while i <= m
      invariant 1 <= i <= m + 1
      invariant prev != curr && prev.Length == curr.Length == n + 1 && fresh(prev) && fresh(curr)
      invariant forall k :: 0 <= k <= n ==> prev[k] == Lev(a, b, i - 1, k)
    {
      FillRow(a, b, i, prev, curr);
      prev, curr := curr, prev;
      i := i + 1;
    }
    d := prev[n];
  }

  /** One row of the table from the row above it. */
  method FillRow(a: bytes, b: bytes, i: nat, prev: array<nat>, curr: array<nat>)
    requires 1 <= i <= |a| && prev != curr && prev.Length == curr.Length == |b| + 1
    requires forall k :: 0 <= k <= |b| ==> prev[k] == Lev(a, b, i - 1, k)
    modifies curr
    ensures forall k :: 0 <= k <= |b| ==> curr[k] == Lev(a, b, i, k)
  {
    hide Lev;
    LevUnfold(a, b, i, 0);
    curr[0] := i;
    var j := 1;
    while j <= |b|
      invariant 1 <= j <= |b| + 1
      invariant forall k :: 0 <= k < j ==> curr[k] == Lev(a, b, i, k)
    {
      var cost := 1;
      if a[i - 1] == b[j - 1] { cost := 0; }
      var least := MinOf3(prev[j] + 1, curr[j - 1] + 1, prev[j - 1] + cost);
      LevUnfold(a, b, i, j);
      curr[j] := least;
      j := j + 1;
    }
  }

  // ---------------------------------------------------------- least of all

  /** No script is cheaper than the table says. */
  lemma {:induction false} NoCheaperScript(s: EditScript, a: bytes, b: bytes, i: nat, j: nat)
    requires i <= |a| && j <= |b|
    requires Transforms(s, a[..i], b[..j])
    ensures Lev(a, b, i, j) <= Cost(s)
    decreases |s|
  {
    hide Lev;
    LevUnfold(a, b, i, j);
    if s != [] {
      var t, e := s[..|s| - 1], s[|s| - 1];
      var i', j' := i - |Consumed(e)|, j - |Produced(e)|;
      assert |Source(s)| == i && |Target(s)| == j;
      assert Source(t) == Source(s)[..i'] == a[..i'] && Target(t) == Target(s)[..j'] == b[..j'];
      NoCheaperScript(t, a, b, i', j');
      if e.Keep? {
        assert Source(s)[i - 1] == e.c && Target(s)[j - 1] == e.c;
      }
      LevStep(a, b, i, j);
    }
  }

  /** What the recurrence allows of neighbouring entries. */
  lemma LevStep(a: bytes, b: bytes, i: nat, j: nat)
    requires i <= |a| && j <= |b|
    ensures i > 0 ==> Lev(a, b, i, j) <= Lev(a, b, i - 1, j) + 1
    ensures j > 0 ==> Lev(a, b, i, j) <= Lev(a, b, i, j - 1) + 1
    ensures i > 0 && j > 0 ==>
      Lev(a, b, i, j) <= Lev(a, b, i - 1, j - 1) + if a[i - 1] == b[j - 1] then 0 else 1
  {
    hide Lev;
    LevUnfold(a, b, i, j);
    if i > 0 && j == 0 { LevUnfold(a, b, i - 1, 0); }
    if j > 0 && i == 0 { LevUnfold(a, b, 0, j - 1); }
  }

  /** Some script costs exactly that. */
  lemma {:induction false} SomeScript(a: bytes, b: bytes, i: nat, j: nat) returns (s: EditScript)
    requires i <= |a| && j <= |b|
    ensures Transforms(s, a[..i], b[..j]) && Cost(s) == Lev(a, b, i, j)
    decreases i + j
  {
    hide Lev, Cost, Transforms;
    LevChoice(a, b, i, j);
    if i > 0 { TakeMore(a, i); }
    if j > 0 { TakeMore(b, j); }
    if i == 0 && j == 0 {
      s := EmptyScript();
      assert a[..0] == [] && b[..0] == [];
    } else if i > 0 && Lev(a, b, i, j) == Lev(a, b, i - 1, j) + 1 {
      var t := SomeScript(a, b, i - 1, j);
      assert b[..j] + [] == b[..j];
      s := Extend(t, Deletion(a[i - 1]), a[..i - 1], b[..j], a[..i], b[..j]);
    } else if j > 0 && Lev(a, b, i, j) == Lev(a, b, i, j - 1) + 1 {
      var t := SomeScript(a, b, i, j - 1);
      assert a[..i] + [] == a[..i];
      s := Extend(t, Insertion(b[j - 1]), a[..i], b[..j - 1], a[..i], b[..j]);
    } else {
      var t := SomeScript(a, b, i - 1, j - 1);
      var e := if a[i - 1] == b[j - 1] then Keep(a[i - 1]) else Substitute(a[i - 1], b[j - 1]);
      s := Extend(t, e, a[..i - 1], b[..j - 1], a[..i], b[..j]);
    }
  }

  lemma TakeMore(a: bytes, i: nat)
    requires 0 < i <= |a|
    ensures a[..i] == a[..i - 1] + [a[i - 1]]
  {
  }

  /** Which neighbour an entry comes from. */
  lemma LevChoice(a: bytes, b: bytes, i: nat, j: nat)
    requires i <= |a| && j <= |b|
    ensures if i == 0 && j == 0 then Lev(a, b, i, j) == 0
            else
              || (i > 0 && Lev(a, b, i, j) == Lev(a, b, i - 1, j) + 1)
              || (j > 0 && Lev(a, b, i, j) == Lev(a, b, i, j - 1) + 1)
              || (i > 0 && j > 0 && Lev(a, b, i, j) == Lev(a, b, i - 1, j - 1) + if a[i - 1] == b[j - 1] then 0 else 1)
  {
    hide Lev;
    LevUnfold(a, b, i, j);
    if i > 0 && j == 0 { LevUnfold(a, b, i - 1, 0); }
    if j > 0 && i == 0 { LevUnfold(a, b, 0, j - 1); }
  }

  lemma EmptyScript() returns (s: EditScript)
    ensures Transforms(s, [], []) && Cost(s) == 0
  {
    s := [];
  }

  lemma Extend(t: EditScript, e: Edit, a: bytes, b: bytes, a': bytes, b': bytes) returns (s: EditScript)
    requires Transforms(t, a, b) && a' == a + Consumed(e) && b' == b + Produced(e)
    ensures Transforms(s, a', b') && Cost(s) == Cost(t) + if e.Keep? then 0 else 1
  {
    s := t + [e];
    ScriptSnoc(t, e);
  }

  /** The table's last entry is the least cost over all edit scripts. */
  lemma DistanceIsLeastCost(a: bytes, b: bytes)
    ensures IsDistance(a, b, Distance(a, b))
  {
    assert a[..|a|] == a && b[..|b|] == b;
    var s := SomeScript(a, b, |a|, |b|);
    forall t | Transforms(t, a, b) ensures Distance(a, b) <= Cost(t) {
      NoCheaperScript(t, a, b, |a|, |b|);
    }
  }

  // ------------------------------------------------------------- a metric

  function Reverse(e: Edit): Edit {
    match e
    case Keep(c) => Keep(c)
    case Substitute(from, to) => Substitute(to, from)
    case Insertion(c) => Deletion(c)
    case Deletion(c) => Insertion(c)
  }

  lemma {:induction false} Undo(s: EditScript) returns (r: EditScript)
    ensures Transforms(r, Target(s), Source(s)) && Cost(r) == Cost(s)
  {
    r := [];
    if s != [] {
      hide Source, Target, Cost;
      var n := |s| - 1;
      var t := Undo(s[..n]);
      r := t + [Reverse(s[n])];
      ScriptSnoc(t, Reverse(s[n]));
      LastEdit(s);
    }
  }

  /** One script after another, as a single script that costs no more. */
  lemma {:induction false} Compose(s: EditScript, t: EditScript) returns (r: EditScript)
    requires Target(s) == Source(t)
    ensures Transforms(r, Source(s), Target(t)) && Cost(r) <= Cost(s) + Cost(t)
    decreases |s| + |t|
  {
    hide Source, Target, Cost;
    if s != [] && s[|s| - 1].Deletion? {
      var s', e := s[..|s| - 1], s[|s| - 1];
      LastEdit(s);
      assert Target(s') + [] == Target(s');
      var r' := Compose(s', t);
      ScriptSnoc(r', e);
      r := r' + [e];
      assert Target(r') + [] == Target(r');
    } else if t != [] && t[|t| - 1].Insertion? {
      var t', f := t[..|t| - 1], t[|t| - 1];
      LastEdit(t);
      assert Source(t') + [] == Source(t');
      var r' := Compose(s, t');
      ScriptSnoc(r', f);
      r := r' + [f];
      assert Source(r') + [] == Source(r');
    } else if s != [] && t != [] {
      var s', t', e, f := s[..|s| - 1], t[..|t| - 1], s[|s| - 1], t[|t| - 1];
      LastEdit(s);
      LastEdit(t);
      LastByte(Target(s'), Produced(e), Source(t'), Consumed(f));
      var r' := Compose(s', t');
      r := AppendFused(r', e, f);
    } else {
      NothingLeft(s, t);
      NoEdits();
      r := [];
    }
  }

  lemma LastEdit(s: EditScript)
    requires s != []
    ensures var s', e := s[..|s| - 1], s[|s| - 1];
            && Source(s) == Source(s') + Consumed(e) && Target(s) == Target(s') + Produced(e)
            && Cost(s) == Cost(s') + if e.Keep? then 0 else 1
  {
    assert s == s[..|s| - 1] + [s[|s| - 1]];
    ScriptSnoc(s[..|s| - 1], s[|s| - 1]);
  }

  lemma NoEdits()
    ensures Source([]) == [] && Target([]) == [] && Cost([]) == 0
  {
  }

  lemma AppendFused(r': EditScript, e: Edit, f: Edit) returns (r: EditScript)
    requires !e.Deletion? && !f.Insertion? && Produced(e) == Consumed(f)
    ensures Source(r) == Source(r') + Consumed(e) && Target(r) == Target(r') + Produced(f)
    ensures Cost(r) <= Cost(r') + (if e.Keep? then 0 else 1) + if f.Keep? then 0 else 1
  {
    var both := Fuse(e, f);
    if both.None? {
      r := r';
      assert Source(r) + [] == Source(r) && Target(r) + [] == Target(r);
    } else {
      r := r' + [both.value];
      ScriptSnoc(r', both.value);
    }
  }

  lemma LastByte(x: bytes, p: bytes, y: bytes, q: bytes)
    requires |p| == |q| == 1 && x + p == y + q
    ensures x == y && p == q
  {
    assert |x| == |y|;
    assert x == (x + p)[..|x|] && y == (y + q)[..|y|];
    assert p[0] == (x + p)[|x|] && q[0] == (y + q)[|y|];
  }

  /** An edit that produces a byte, then one that consumes it. */
  function Fuse(e: Edit, f: Edit): (r: Option<Edit>)
    requires !e.Deletion? && !f.Insertion? && Produced(e) == Consumed(f)
    ensures r.None? ==> Consumed(e) == [] && Produced(f) == []
    ensures r.Some? ==> Consumed(r.value) == Consumed(e) && Produced(r.value) == Produced(f)
                        && (e.Keep? && f.Keep? ==> r.value.Keep?)
  {
    match (e, f)
    case (Keep(_), _) => Some(f)
    case (_, Keep(_)) => Some(e)
    case (Substitute(from, _), Substitute(_, to)) => Some(Substitute(from, to))
    case (Substitute(from, _), Deletion(_)) => Some(Deletion(from))
    case (Insertion(_), Substitute(_, to)) => Some(Insertion(to))
    case (Insertion(_), Deletion(_)) => None
  }

  lemma NothingLeft(s: EditScript, t: EditScript)
    requires Target(s) == Source(t)
    requires s == [] || t == []
    requires s != [] ==> !s[|s| - 1].Deletion?
    requires t != [] ==> !t[|t| - 1].Insertion?
    ensures s == [] && t == []
  {
    if s != [] { LastProduces(s); }
    if t != [] { LastConsumes(t); }
  }

  lemma LastProduces(s: EditScript)
    requires s != [] && !s[|s| - 1].Deletion?
    ensures Target(s) != []
  {
  }

  lemma LastConsumes(t: EditScript)
    requires t != [] && !t[|t| - 1].Insertion?
    ensures Source(t) != []
  {
  }

  lemma Symmetric(a: bytes, b: bytes)
    ensures Distance(a, b) == Distance(b, a)
  {
    NoFarther(a, b);
    NoFarther(b, a);
  }

  lemma NoFarther(a: bytes, b: bytes)
    ensures Distance(b, a) <= Distance(a, b)
  {
    DistanceIsLeastCost(a, b);
    DistanceIsLeastCost(b, a);
    var s :| Transforms(s, a, b) && Cost(s) == Distance(a, b);
    var r := Undo(s);
  }

  lemma Triangle(a: bytes, b: bytes, c: bytes)
    ensures Distance(a, c) <= Distance(a, b) + Distance(b, c)
  {
    DistanceIsLeastCost(a, b);
    DistanceIsLeastCost(b, c);
    DistanceIsLeastCost(a, c);
    var s :| Transforms(s, a, b) && Cost(s) == Distance(a, b);
    var t :| Transforms(t, b, c) && Cost(t) == Distance(b, c);
    var r := Compose(s, t);
  }

  lemma {:induction false} CostlessIsIdentity(s: EditScript)
    requires Cost(s) == 0
    ensures Source(s) == Target(s)
  {
    if s != [] { CostlessIsIdentity(s[..|s| - 1]); }
  }

  lemma {:induction false} DiagonalIsZero(a: bytes, i: nat)
    requires i <= |a|
    ensures Lev(a, a, i, i) == 0
  {
    if i > 0 { DiagonalIsZero(a, i - 1); }
  }

  lemma ZeroOnlyOnEqual(a: bytes, b: bytes)
    ensures Distance(a, b) == 0 <==> a == b
  {
    if a == b {
      DiagonalIsZero(a, |a|);
    } else if Distance(a, b) == 0 {
      DistanceIsLeastCost(a, b);
      var s :| Transforms(s, a, b) && Cost(s) == 0;
      CostlessIsIdentity(s);
    }
  }

  /** Between the difference of the lengths and the greater length. */
  lemma {:induction false} Bounds(a: bytes, b: bytes, i: nat, j: nat)
    requires i <= |a| && j <= |b|
    ensures i - j <= Lev(a, b, i, j) && j - i <= Lev(a, b, i, j)
    ensures Lev(a, b, i, j) <= if i < j then j else i
    decreases i + j
  {
    if i > 0 && j > 0 {
      Bounds(a, b, i - 1, j);
      Bounds(a, b, i, j - 1);
      Bounds(a, b, i - 1, j - 1);
    }
  }

  // ------------------------------------------------------------ similarity

  /** Computed in exact arithmetic; the Go code rounds to a float64. */
  function Similarity(a: bytes, b: bytes): real {
    if a == b then 1.0
    else if |a| == 0 || |b| == 0 then 0.0
    else
      var maxLen := if |b| > |a| then |b| else |a|;
      1.0 - Distance(a, b) as real / maxLen as real
  }

  lemma SimilarityLaws(a: bytes, b: bytes)
    ensures 0.0 <= Similarity(a, b) <= 1.0
    ensures Similarity(a, b) == 1.0 <==> a == b
    ensures Similarity(a, b) == Similarity(b, a)
  {
    Bounds(a, b, |a|, |b|);
    ZeroOnlyOnEqual(a, b);
    Symmetric(a, b);
    var maxLen := if |b| > |a| then |b| else |a|;
    if maxLen > 0 { Fraction(Distance(a, b), maxLen); }
  }

  lemma SimilarityIs(a: bytes, b: bytes)
    requires a != [] || b != []
    ensures Similarity(a, b) == 1.0 - Distance(a, b) as real / (if |b| > |a| then |b| else |a|) as real
  {
    var n := if |b| > |a| then |b| else |a|;
    Whole(n);
    DistanceAtTheEnds(a, b);
    hide Distance;
  }

  lemma DistanceAtTheEnds(a: bytes, b: bytes)
    ensures a == b ==> Distance(a, b) == 0
    ensures a == [] ==> Distance(a, b) == |b|
    ensures b == [] ==> Distance(a, b) == |a|
  {
    Bounds(a, b, |a|, |b|);
    ZeroOnlyOnEqual(a, b);
  }

  lemma Whole(n: nat)
    requires n > 0
    ensures 0 as real / n as real == 0.0 && n as real / n as real == 1.0
  {
  }

  /** The similarity is at least 1 - k / n, with n the longer length, exactly when
      k edits suffice. */
  lemma SimilarityCountsEdits(a: bytes, b: bytes, k: nat)
    requires a != [] || b != []
    ensures var n := if |b| > |a| then |b| else |a|;
            Similarity(a, b) >= 1.0 - k as real / n as real <==> exists s :: Transforms(s, a, b) && Cost(s) <= k
  {
    hide Similarity, Distance, Transforms, Cost;
    DistanceIsLeastCost(a, b);
    SimilarityIs(a, b);
    Fractions(Distance(a, b), k, if |b| > |a| then |b| else |a|);
  }

  lemma Fractions(d: nat, k: nat, n: nat)
    requires n > 0
    ensures d as real / n as real <= k as real / n as real <==> d <= k
  {
  }

  lemma Fraction(d: nat, n: nat)
    requires d <= n && n > 0
    ensures 0.0 <= d as real / n as real <= 1.0
    ensures d as real / n as real == 0.0 <==> d == 0
  {
  }
}
