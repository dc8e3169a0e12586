/** Which depth limits give complete collections, and which maps make the walk
    panic. */
module GitGraphDepth {
  import opened GitGraph
  import opened GitGraphReach

  // ------------------------------------------------------------ completeness

  /** Commits the limit allows; 0 allows all that are reachable. */
  ghost predicate InLimit(g: Graph, tip: string, c: string, limit: nat) {
    && c in g && g[c].Commit?
    && if limit == 0 then Reaches(g, tip, c) else Within(g, tip, c, limit)
  }

  /** An allowed commit, or what the tree of one reaches. */
  ghost predicate Wanted(g: Graph, tip: string, limit: nat, x: string) {
    x in g && exists c :: InLimit(g, tip, c, limit) && (x == c || (g[c].tree != "" && Reaches(g, g[c].tree, x)))
  }

  ghost predicate CompleteOn(g: Graph, tip: string, limit: nat) {
    forall x :: Wanted(g, tip, limit, x) ==> x in Collected(g, tip, limit).result
  }

  /** On every map that is well typed from its tip. */
  ghost predicate AlwaysComplete(limit: nat) {
    forall g: Graph, tip: string :: Typed(g, tip) && NotOther(g, tip) ==> CompleteOn(g, tip, limit)
  }

  /** A collected commit brings everything its tree reaches, at any limit. */
  lemma CommitBringsItsTree(g: Graph, tip: string, limit: nat, c: string, x: string)
    requires Typed(g, tip) && NotOther(g, tip)
    requires c in Collected(g, tip, limit).result && c in g && g[c].Commit? && g[c].tree != ""
    requires x in g && Reaches(g, g[c].tree, x)
    ensures x in Collected(g, tip, limit).result
  {
    var w := Collected(g, tip, limit);
    ReachesItself(g, tip);
    CommitConsistent(g, tip, 1, limit, START);
    CommitExplored(g, tip, tip, 1, limit, START);
    CollectionIsSound(g, tip, limit);
    ReachesOn(g, tip, c);
    var p :| IsPath(g, p) && p[0] == g[c].tree && p[|p| - 1] == x;
    TreePathVisited(g, tip, START, w, p, |p| - 1);
  }

  /** Limits 0, 1 and 2 collect every allowed commit. */
  lemma LowLimitCommits(g: Graph, tip: string, limit: nat, c: string)
    requires Typed(g, tip) && NotOther(g, tip) && limit <= 2 && InLimit(g, tip, c, limit)
    ensures c in Collected(g, tip, limit).result
  {
    if limit == 0 {
      CollectsExactlyTheReachable(g, tip);
    } else {
      CommitConsistent(g, tip, 1, limit, START);
      var p :| IsParentPath(g, p) && p[0] == tip && p[|p| - 1] == c && |p| <= limit;
      if |p| == 2 {
        assert p[0 + 1] in g[p[0]].parents;
        ParentOfTip(g, tip, c);
      }
    }
  }

  lemma ParentOfTip(g: Graph, tip: string, c: string)
    requires Typed(g, tip) && tip in g && g[tip].Commit? && c in g[tip].parents
    ensures c in Collected(g, tip, 2).visited
  {
    var v := Visit(g, tip, START);
    ReachesItself(g, tip);
    ReachesOn(g, tip, tip);
    var t := if g[tip].tree != "" then CollectTree(g, g[tip].tree, v) else v;
    CommitsExplored(g, tip, g[tip].parents, 2, 2, t);
    assert c in Elements(g[tip].parents);
  }

  lemma LowLimitsAreComplete(limit: nat)
    requires limit <= 2
    ensures AlwaysComplete(limit)
  {
    forall g: Graph, tip: string, x: string | Typed(g, tip) && NotOther(g, tip) && Wanted(g, tip, limit, x)
      ensures x in Collected(g, tip, limit).result
    {
      var c :| InLimit(g, tip, c, limit) && (x == c || (g[c].tree != "" && Reaches(g, g[c].tree, x)));
      LowLimitCommits(g, tip, limit, c);
      if x != c { CommitBringsItsTree(g, tip, limit, c, x); }
    }
  }

  // ---------------------------------------------------------------- detours

  /** The i-th commit of a chain, told by its length. */
  function Link(i: nat): string {
    seq(i + 1, _ => 'd')
  }

  function ChainNames(m: nat): set<string> {
    set i | 0 <= i <= m :: Link(i)
  }

  /** "a" has parents "b" and the chain's start, "b" has the chain's start; the
      chain has m further commits, the last of which may be broken. */
  function Detour(m: nat, flawed: bool): Graph {
    map x | x in ChainNames(m) + {"a", "b"} ::
      if x == "a" then Commit("", ["b", Link(0)], false)
      else if x == "b" then Commit("", [Link(0)], false)
      else Commit("", if |x| <= m then [Link(|x|)] else [], flawed && |x| > m)
  }

  lemma DetourStart(m: nat, flawed: bool)
    ensures var g := Detour(m, flawed);
            && "a" in g && g["a"] == Commit("", ["b", Link(0)], false)
            && "b" in g && g["b"] == Commit("", [Link(0)], false)
  {
  }

  lemma DetourChain(m: nat, flawed: bool, i: nat)
    requires i <= m
    ensures var g := Detour(m, flawed);
            Link(i) in g && g[Link(i)] == Commit("", if i < m then [Link(i + 1)] else [], flawed && i == m)
  {
    assert Link(i) in ChainNames(m);
    LinksDiffer(i, i);
    assert |Link(i)| == i + 1;
  }

  lemma LinksDiffer(i: nat, j: nat)
    ensures i != j ==> Link(i) != Link(j)
    ensures Link(i) != "a" && Link(i) != "b"
  {
    assert |Link(i)| == i + 1 && |Link(j)| == j + 1 && Link(i)[0] == 'd';
  }

  lemma DetourIsTyped(m: nat, flawed: bool)
    ensures Typed(Detour(m, flawed), "a") && NotOther(Detour(m, flawed), "a")
  {
    hide Link, ChainNames;
    var g := Detour(m, flawed);
    assert forall x :: x in g ==> g[x].Commit? && g[x].tree == "";
  }

  lemma OnlyTheLastIsFlawed(m: nat, flawed: bool, x: string)
    requires x in Detour(m, flawed) && Detour(m, flawed)[x].Commit? && Detour(m, flawed)[x].broken
    ensures x == Link(m)
  {
    var i :| 0 <= i <= m && x == Link(i);
    DetourChain(m, flawed, i);
  }

  /** A commit without a tree, not met before and not at the limit. */
  lemma PlainStep(g: Graph, oid: string, depth: nat, maxDepth: nat, w: Walk)
    requires oid !in w.visited && oid in g && g[oid].Commit? && g[oid].tree == "" && g[oid].parents != [] && depth < maxDepth
    ensures CollectCommit(g, oid, depth, maxDepth, w) == CollectCommits(g, g[oid].parents, depth + 1, maxDepth, Visit(g, oid, w))
  {
  }

  lemma LimitStep(g: Graph, oid: string, maxDepth: nat, w: Walk)
    requires oid !in w.visited && oid in g && g[oid].Commit? && g[oid].tree == "" && maxDepth > 0
    ensures CollectCommit(g, oid, maxDepth, maxDepth, w).visited == w.visited + {oid}
  {
  }

  /** From the chain's i-th commit at depth i + 3, the limit m + 2 stops just
      before the last one. */
  lemma {:induction false} ChainStopsShort(m: nat, flawed: bool, i: nat, w: Walk)
    requires i < m && forall j :: i <= j <= m ==> Link(j) !in w.visited
    ensures Link(m) !in CollectCommit(Detour(m, flawed), Link(i), i + 3, m + 2, w).visited
    decreases m - i
  {
    hide Detour, Link, CollectCommit, CollectCommits;
    var g := Detour(m, flawed);
    DetourChain(m, flawed, i);
    LinksDiffer(m, i);
    if i + 1 < m {
      var v := Visit(g, Link(i), w);
      forall j | i + 1 <= j <= m ensures Link(j) !in v.visited { LinksDiffer(j, i); }
      ChainStopsShort(m, flawed, i + 1, v);
      PlainStep(g, Link(i), i + 3, m + 2, w);
      OneParent(g, Link(i + 1), i + 4, m + 2, v);
    } else {
      LimitStep(g, Link(i), m + 2, w);
    }
  }

  lemma OneParent(g: Graph, p: string, depth: nat, maxDepth: nat, w: Walk)
    ensures CollectCommits(g, [p], depth, maxDepth, w) == CollectCommit(g, p, depth, maxDepth, w)
  {
    hide CollectCommit;
    assert [p][1..] == [];
  }

  /** A second parent met on the way from the first adds nothing. */
  lemma MetParent(g: Graph, p: string, q: string, depth: nat, maxDepth: nat, w: Walk)
    requires q in CollectCommit(g, p, depth, maxDepth, w).visited
    ensures CollectCommits(g, [p, q], depth, maxDepth, w) == CollectCommit(g, p, depth, maxDepth, w)
  {
    var v := CollectCommit(g, p, depth, maxDepth, w);
    assert [p, q][1..] == [q];
    OneParent(g, q, depth, maxDepth, v);
    assert CollectCommit(g, q, depth, maxDepth, v) == v;
  }

  /** The first visit fixes a commit's depth: the chain is entered by way of "b",
      one deeper than it need be. */
  lemma DetourLosesTheLast(m: nat, flawed: bool)
    requires m > 0
    ensures Link(m) !in Collected(Detour(m, flawed), "a", m + 2).result
  {
    hide Detour, Link, CollectCommit, CollectCommits;
    var g := Detour(m, flawed);
    DetourStart(m, flawed);
    var a := Visit(g, "a", START);
    var b := Visit(g, "b", a);
    forall j | 0 <= j <= m ensures Link(j) !in b.visited { LinksDiffer(j, j); }
    ChainStopsShort(m, flawed, 0, b);
    PlainStep(g, "b", 2, m + 2, a);
    OneParent(g, Link(0), 3, m + 2, b);
    MetParent(g, "b", Link(0), 2, m + 2, a);
    PlainStep(g, "a", 1, m + 2, START);
    NotMetNotReturned(g, "a", m + 2, Link(m));
  }

  lemma NotMetNotReturned(g: Graph, tip: string, limit: nat, x: string)
    requires x !in Collected(g, tip, limit).visited
    ensures x !in Collected(g, tip, limit).result
  {
    hide CollectCommit;
    CommitConsistent(g, tip, 1, limit, START);
  }

  lemma {:induction false} ChainPath(m: nat, flawed: bool, i: nat) returns (p: seq<string>)
    requires i <= m
    ensures IsParentPath(Detour(m, flawed), p) && p[0] == Link(m - i) && p[|p| - 1] == Link(m) && |p| == i + 1
  {
    hide Detour, Link;
    if i == 0 {
      p := [Link(m)];
    } else {
      DetourChain(m, flawed, m - i);
      var q := ChainPath(m, flawed, i - 1);
      p := [Link(m - i)] + q;
      PathOneMore(Detour(m, flawed), Link(m - i), q);
    }
  }

  lemma PathOneMore(g: Graph, a: string, q: seq<string>)
    requires IsParentPath(g, q) && a in g && g[a].Commit? && q[0] in g[a].parents
    ensures IsParentPath(g, [a] + q)
  {
  }

  lemma DetourIsWithin(m: nat, flawed: bool)
    ensures InLimit(Detour(m, flawed), "a", Link(m), m + 2)
  {
    hide Detour, Link;
    DetourStart(m, flawed);
    DetourChain(m, flawed, m);
    var q := ChainPath(m, flawed, m);
    var p := ["a"] + q;
    PathOneMore(Detour(m, flawed), "a", q);
    assert p[0] == "a" && p[|p| - 1] == Link(m) && |p| == m + 2;
  }

  lemma HighLimitsAreNot(limit: nat)
    requires limit >= 3
    ensures !AlwaysComplete(limit)
  {
    hide Detour, Link, Collected;
    var m := limit - 2;
    DetourIsTyped(m, false);
    DetourIsWithin(m, false);
    DetourLosesTheLast(m, false);
    assert Wanted(Detour(m, false), "a", limit, Link(m));
    assert !CompleteOn(Detour(m, false), "a", limit);
  }

  /** A depth limit collects everything it allows, on every well-typed map, if
      and only if it is 0 (no limit), 1 or 2. */
  lemma CompleteLimits(limit: nat)
    ensures AlwaysComplete(limit) <==> limit <= 2
  {
    if limit <= 2 { LowLimitsAreComplete(limit); } else { HighLimitsAreNot(limit); }
  }

  // -------------------------------------------------------------- boundaries

  /** A path over parents of exactly n commits, both ends counted. */
  ghost predicate ExactlyAt(g: Graph, a: string, b: string, n: int) {
    exists p :: IsParentPath(g, p) && p[0] == a && p[|p| - 1] == b && |p| == n
  }

  lemma OneFurther(g: Graph, a: string, b: string, c: string, n: int)
    requires a in g && g[a].Commit? && b in g[a].parents && ExactlyAt(g, b, c, n)
    ensures ExactlyAt(g, a, c, n + 1)
  {
    var p :| IsParentPath(g, p) && p[0] == b && p[|p| - 1] == c && |p| == n;
    PathOneMore(g, a, p);
    var q := [a] + p;
    assert q[0] == a && q[|q| - 1] == c;
  }

  ghost predicate NewShallowAt(g: Graph, from: string, n: int, w: Walk, w': Walk) {
    forall x :: x in w'.shallow && x !in w.shallow ==> ExactlyAt(g, from, x, n)
  }

  lemma {:induction false} TreeKeepsShallow(g: Graph, oid: string, w: Walk)
    ensures CollectTree(g, oid, w).shallow == w.shallow
    decreases g.Keys - w.visited, 0
  {
    if oid !in w.visited && oid in g && g[oid].Tree? { TreesKeepShallow(g, g[oid].entries, Visit(g, oid, w)); }
  }

  lemma {:induction false} TreesKeepShallow(g: Graph, oids: seq<string>, w: Walk)
    ensures CollectTrees(g, oids, w).shallow == w.shallow
    decreases g.Keys - w.visited, |oids|
  {
    if oids != [] {
      TreeKeepsShallow(g, oids[0], w);
      TreesKeepShallow(g, oids[1..], CollectTree(g, oids[0], w));
    }
  }

  lemma {:induction false} CommitShallowAt(g: Graph, oid: string, depth: nat, maxDepth: nat, w: Walk)
    requires 0 < depth && (maxDepth > 0 ==> depth <= maxDepth)
    ensures NewShallowAt(g, oid, maxDepth - depth + 1, w, CollectCommit(g, oid, depth, maxDepth, w))
    ensures maxDepth == 0 ==> CollectCommit(g, oid, depth, maxDepth, w).shallow == w.shallow
    decreases g.Keys - w.visited, 0
  {
    hide ExactlyAt;
    if oid !in w.visited && oid in g && g[oid].Commit? {
      var v := Visit(g, oid, w);
      var t := if g[oid].tree != "" then CollectTree(g, g[oid].tree, v) else v;
      if g[oid].tree != "" { TreeKeepsShallow(g, g[oid].tree, v); }
      AtItself(g, oid);
      if !AtLimit(depth, maxDepth) { CommitsShallowAt(g, oid, g[oid].parents, depth + 1, maxDepth, t); }
    }
  }

  lemma AtItself(g: Graph, a: string)
    ensures ExactlyAt(g, a, a, 1)
  {
    assert IsParentPath(g, [a]) && [a][0] == a;
  }

  lemma {:induction false} CommitsShallowAt(g: Graph, from: string, oids: seq<string>, depth: nat, maxDepth: nat, w: Walk)
    requires from in g && g[from].Commit? && forall p :: p in oids ==> p in g[from].parents
    requires 0 < depth && (maxDepth > 0 ==> depth <= maxDepth)
    ensures NewShallowAt(g, from, maxDepth - depth + 2, w, CollectCommits(g, oids, depth, maxDepth, w))
    ensures maxDepth == 0 ==> CollectCommits(g, oids, depth, maxDepth, w).shallow == w.shallow
    decreases g.Keys - w.visited, |oids|
  {
    hide ExactlyAt;
    if oids != [] {
      var w1 := CollectCommit(g, oids[0], depth, maxDepth, w);
      CommitShallowAt(g, oids[0], depth, maxDepth, w);
      forall x | x in w1.shallow && x !in w.shallow ensures ExactlyAt(g, from, x, maxDepth - depth + 2) {
        OneFurther(g, from, oids[0], x, maxDepth - depth + 1);
      }
      CommitsShallowAt(g, from, oids[1..], depth, maxDepth, w1);
    }
  }

  /** Commits are cut off only at the limit: each shallow one ends a path over
      parents of exactly that many commits; without a limit there is none. */
  lemma ShallowAtTheLimit(g: Graph, tip: string, limit: nat)
    ensures forall x :: x in Collected(g, tip, limit).shallow ==> ExactlyAt(g, tip, x, limit)
    ensures limit == 0 ==> Collected(g, tip, limit).shallow == []
  {
    CommitShallowAt(g, tip, 1, limit, START);
  }

  // ------------------------------------------------------------------ panics

  ghost predicate NewBroken(g: Graph, w: Walk, w': Walk) {
    exists x :: x in w'.visited && x !in w.visited && x in g && g[x].Commit? && g[x].broken
  }

  lemma {:induction false} CommitPanicsIff(g: Graph, root: string, oid: string, depth: nat, maxDepth: nat, w: Walk)
    requires Typed(g, root) && Reaches(g, root, oid) && NotOther(g, oid)
    ensures CommitPanics(g, oid, depth, maxDepth, w) <==> NewBroken(g, w, CollectCommit(g, oid, depth, maxDepth, w))
    decreases g.Keys - w.visited, 0
  {
    hide NewBroken;
    if oid !in w.visited && oid in g {
      var v := Visit(g, oid, w);
      var t := if g[oid].tree != "" then CollectTree(g, g[oid].tree, v) else v;
      ReachesOn(g, root, oid);
      if g[oid].tree != "" { TreeExplored(g, root, g[oid].tree, v); }
      if g[oid].parents != [] && !AtLimit(depth, maxDepth) {
        CommitsPanicIff(g, root, g[oid].parents, depth + 1, maxDepth, t);
        OnlyHere(g, oid, w, t, CollectCommits(g, g[oid].parents, depth + 1, maxDepth, t));
      } else {
        NothingNew(g, t);
        OnlyHere(g, oid, w, t, t);
        SameVisited(g, w, t, t.(shallow := t.shallow + [oid]));
      }
    } else {
      NothingBroken(g, oid, w);
    }
  }

  lemma {:induction false} CommitsPanicIff(g: Graph, root: string, oids: seq<string>, depth: nat, maxDepth: nat, w: Walk)
    requires Typed(g, root) && forall p :: p in oids ==> Reaches(g, root, p) && NotOther(g, p)
    ensures CommitsPanic(g, oids, depth, maxDepth, w) <==> NewBroken(g, w, CollectCommits(g, oids, depth, maxDepth, w))
    decreases g.Keys - w.visited, |oids|
  {
    hide NewBroken;
    if oids == [] {
      NothingNew(g, w);
    } else {
      var w1 := CollectCommit(g, oids[0], depth, maxDepth, w);
      CommitPanicsIff(g, root, oids[0], depth, maxDepth, w);
      CommitsPanicIff(g, root, oids[1..], depth, maxDepth, w1);
      EitherPart(g, w, w1, CollectCommits(g, oids[1..], depth, maxDepth, w1));
    }
  }

  lemma NothingNew(g: Graph, w: Walk)
    ensures !NewBroken(g, w, w)
  {
  }

  lemma SameVisited(g: Graph, w: Walk, a: Walk, b: Walk)
    requires a.visited == b.visited
    ensures NewBroken(g, w, a) <==> NewBroken(g, w, b)
  {
  }

  lemma NothingBroken(g: Graph, oid: string, w: Walk)
    requires oid in w.visited || oid !in g
    ensures !NewBroken(g, w, if oid in w.visited then w else Visit(g, oid, w))
  {
  }

  lemma EitherPart(g: Graph, w: Walk, w1: Walk, w2: Walk)
    requires w.visited <= w1.visited <= w2.visited
    ensures NewBroken(g, w, w2) <==> NewBroken(g, w, w1) || NewBroken(g, w1, w2)
  {
  }

  /** A commit and its tree add at most the commit itself to what is broken. */
  lemma OnlyHere(g: Graph, oid: string, w: Walk, t: Walk, w': Walk)
    requires oid in g && g[oid].Commit? && oid !in w.visited
    requires w.visited + {oid} <= t.visited <= w'.visited
    requires NewNotCommits(g, Visit(g, oid, w), t)
    ensures NewBroken(g, w, w') <==> g[oid].broken || NewBroken(g, t, w')
  {
  }

  /** Told by what the walk returns: one of its commits is broken. */
  lemma PanicsIffBrokenCommit(g: Graph, tip: string, maxDepth: nat)
    requires Typed(g, tip) && NotOther(g, tip)
    ensures CommitPanics(g, tip, 1, maxDepth, START) <==>
              exists x :: x in Collected(g, tip, maxDepth).result && x in g && g[x].Commit? && g[x].broken
  {
    var w := Collected(g, tip, maxDepth);
    ReachesItself(g, tip);
    CommitPanicsIff(g, tip, tip, 1, maxDepth, START);
    CommitConsistent(g, tip, 1, maxDepth, START);
    if NewBroken(g, START, w) {
      var x :| x in w.visited && x in g && g[x].Commit? && g[x].broken;
      assert x in w.result;
    }
  }

  /** A broken commit among those the limit allows. */
  ghost predicate BrokenInLimit(g: Graph, tip: string, limit: nat) {
    exists c :: InLimit(g, tip, c, limit) && g[c].broken
  }

  /** At every limit, only a broken commit that the limit allows can make the
      walk panic. */
  lemma PanicNeedsBroken(g: Graph, tip: string, limit: nat)
    requires Typed(g, tip) && NotOther(g, tip) && CommitPanics(g, tip, 1, limit, START)
    ensures BrokenInLimit(g, tip, limit)
  {
    hide Collected, CommitPanics, Typed;
    PanicsIffBrokenCommit(g, tip, limit);
    var x :| x in Collected(g, tip, limit).result && x in g && g[x].Commit? && g[x].broken;
    CollectionIsSound(g, tip, limit);
    if limit > 0 { DepthLimit(g, tip, limit); }
    assert InLimit(g, tip, x, limit);
  }

  /** Without a limit, and with limit 1 or 2, every such commit does. */
  lemma BrokenPanics(g: Graph, tip: string, limit: nat)
    requires Typed(g, tip) && NotOther(g, tip) && limit <= 2
    ensures CommitPanics(g, tip, 1, limit, START) <==> BrokenInLimit(g, tip, limit)
  {
    hide Collected, CommitPanics, Typed;
    if CommitPanics(g, tip, 1, limit, START) { PanicNeedsBroken(g, tip, limit); }
    if BrokenInLimit(g, tip, limit) {
      var c :| InLimit(g, tip, c, limit) && g[c].broken;
      LowLimitCommits(g, tip, limit, c);
      PanicsIffBrokenCommit(g, tip, limit);
    }
  }

  /** The map alone tells whether the walk panics. */
  ghost predicate PanicsAsAllowed(limit: nat) {
    forall g: Graph, tip: string :: Typed(g, tip) && NotOther(g, tip) ==>
      (CommitPanics(g, tip, 1, limit, START) <==> BrokenInLimit(g, tip, limit))
  }

  /** From limit 3 on, a detour's broken last commit is missed. */
  lemma MissedBrokenPasses(limit: nat)
    requires limit >= 3
    ensures !PanicsAsAllowed(limit)
  {
    hide Detour, Link, Collected, CommitPanics;
    var m := limit - 2;
    var g := Detour(m, true);
    DetourIsTyped(m, true);
    DetourIsWithin(m, true);
    DetourChain(m, true, m);
    DetourLosesTheLast(m, true);
    PanicsIffBrokenCommit(g, "a", limit);
    forall x | x in g && g[x].Commit? && g[x].broken ensures x == Link(m) { OnlyTheLastIsFlawed(m, true, x); }
    assert BrokenInLimit(g, "a", limit) && !CommitPanics(g, "a", 1, limit, START);
  }

  /** On well-typed maps the walk panics exactly where the limit allows a broken
      commit, if and only if the limit is 0 (none), 1 or 2. */
  lemma PanicLimits(limit: nat)
    ensures PanicsAsAllowed(limit) <==> limit <= 2
  {
    hide CommitPanics, Typed, BrokenInLimit;
    if limit <= 2 {
      forall g: Graph, tip: string | Typed(g, tip) && NotOther(g, tip)
        ensures CommitPanics(g, tip, 1, limit, START) <==> BrokenInLimit(g, tip, limit)
      {
        BrokenPanics(g, tip, limit);
      }
    } else {
      MissedBrokenPasses(limit);
    }
  }

  const LISTED_BROKEN: Graph := map[
    "c1" := Commit("t1", ["c0"], false), "t1" := Tree(["c0"]), "c0" := Commit("", [], true)]

  /** On an ill-typed map a broken commit can be returned without a panic: here
      the tree lists it, and the tree walk does not read commits. */
  lemma ListedBrokenCommitPasses()
    ensures "c0" in Collected(LISTED_BROKEN, "c1", 0).result && !CommitPanics(LISTED_BROKEN, "c1", 1, 0, START)
  {
    var g := LISTED_BROKEN;
    var v := Visit(g, "c1", START);
    var u := Visit(g, "t1", v);
    var t := Visit(g, "c0", u);
    assert ["c0"][1..] == [];
    assert CollectTrees(g, ["c0"], u) == t;
    assert CollectCommits(g, ["c0"], 2, 0, t) == t;
    assert !CommitsPanic(g, ["c0"], 2, 0, t);
  }
}
