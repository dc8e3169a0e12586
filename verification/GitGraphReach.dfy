/** What the collection contains: soundness on every map, exactness on maps
    that are typed as Git types them, and the meaning of the depth limit. */
module GitGraphReach {
  import opened GitGraph

  // ----------------------------------------------------------- reachability

  function Links(g: Graph, x: string): set<string> {
    if x !in g then {}
    else
      match g[x]
      case Commit(tree, parents, _) => (if tree != "" then {tree} else {}) + Elements(parents)
      case Tree(entries) => Elements(entries)
      case Blob => {}
  }

  function Elements(s: seq<string>): set<string> { set x | x in s }

  ghost predicate IsPath(g: Graph, p: seq<string>) {
    p != [] && forall i :: 0 <= i < |p| - 1 ==> p[i + 1] in Links(g, p[i])
  }

  ghost predicate Reaches(g: Graph, a: string, b: string) {
    exists p :: IsPath(g, p) && p[0] == a && p[|p| - 1] == b
  }

  lemma ReachesItself(g: Graph, a: string)
    ensures Reaches(g, a, a)
  {
    assert IsPath(g, [a]) && [a][0] == a;
  }

  lemma ReachesThrough(g: Graph, a: string, b: string, c: string)
    requires b in Links(g, a) && Reaches(g, b, c)
    ensures Reaches(g, a, c)
  {
    var p :| IsPath(g, p) && p[0] == b && p[|p| - 1] == c;
    var q := [a] + p;
    assert IsPath(g, q) && q[0] == a && q[|q| - 1] == c;
  }

  lemma ReachesOn(g: Graph, a: string, b: string)
    requires Reaches(g, a, b)
    ensures forall c :: c in Links(g, b) ==> Reaches(g, a, c)
  {
    forall c | c in Links(g, b) ensures Reaches(g, a, c) {
      var p :| IsPath(g, p) && p[0] == a && p[|p| - 1] == b;
      var q := p + [c];
      assert IsPath(g, q) && q[0] == a && q[|q| - 1] == c;
    }
  }

  // ---------------------------------------- every run: sound, no duplicates

  /** The result lists every visited name that has an object, once. */
  ghost predicate Consistent(g: Graph, w: Walk) {
    && (forall x :: x in w.result <==> x in w.visited && x in g)
    && (forall i, j :: 0 <= i < j < |w.result| ==> w.result[i] != w.result[j])
  }

  lemma VisitConsistent(g: Graph, oid: string, w: Walk)
    requires Consistent(g, w) && oid !in w.visited
    ensures Consistent(g, Visit(g, oid, w))
  {
  }

  lemma {:induction false} TreeConsistent(g: Graph, oid: string, w: Walk)
    requires Consistent(g, w)
    ensures Consistent(g, CollectTree(g, oid, w)) && CollectTree(g, oid, w).shallow == w.shallow
    decreases g.Keys - w.visited, 0
  {
    if oid !in w.visited {
      VisitConsistent(g, oid, w);
      if oid in g && g[oid].Tree? { TreesConsistent(g, g[oid].entries, Visit(g, oid, w)); }
    }
  }

  lemma {:induction false} TreesConsistent(g: Graph, oids: seq<string>, w: Walk)
    requires Consistent(g, w)
    ensures Consistent(g, CollectTrees(g, oids, w)) && CollectTrees(g, oids, w).shallow == w.shallow
    decreases g.Keys - w.visited, |oids|
  {
    if oids != [] {
      TreeConsistent(g, oids[0], w);
      TreesConsistent(g, oids[1..], CollectTree(g, oids[0], w));
    }
  }

  lemma {:induction false} CommitConsistent(g: Graph, oid: string, depth: nat, maxDepth: nat, w: Walk)
    requires Consistent(g, w)
    ensures Consistent(g, CollectCommit(g, oid, depth, maxDepth, w))
    decreases g.Keys - w.visited, 0
  {
    if oid !in w.visited {
      var v := Visit(g, oid, w);
      VisitConsistent(g, oid, w);
      if oid in g && g[oid].Commit? {
        if g[oid].tree != "" { TreeConsistent(g, g[oid].tree, v); }
        var t := if g[oid].tree != "" then CollectTree(g, g[oid].tree, v) else v;
        if !AtLimit(depth, maxDepth) { CommitsConsistent(g, g[oid].parents, depth + 1, maxDepth, t); }
      }
    }
  }

  lemma {:induction false} CommitsConsistent(g: Graph, oids: seq<string>, depth: nat, maxDepth: nat, w: Walk)
    requires Consistent(g, w)
    ensures Consistent(g, CollectCommits(g, oids, depth, maxDepth, w))
    decreases g.Keys - w.visited, |oids|
  {
    if oids != [] {
      CommitConsistent(g, oids[0], depth, maxDepth, w);
      CommitsConsistent(g, oids[1..], depth, maxDepth, CollectCommit(g, oids[0], depth, maxDepth, w));
    }
  }

  /** Whatever is newly visited can be reached from here. */
  ghost predicate NewReached(g: Graph, from: string, w: Walk, w': Walk) {
    forall x :: x in w'.visited && x !in w.visited ==> Reaches(g, from, x)
  }

  lemma {:induction false} TreeReached(g: Graph, oid: string, w: Walk)
    ensures NewReached(g, oid, w, CollectTree(g, oid, w))
    decreases g.Keys - w.visited, 0
  {
    ReachesItself(g, oid);
    if oid !in w.visited && oid in g && g[oid].Tree? {
      TreesReached(g, oid, g[oid].entries, Visit(g, oid, w));
    }
  }

  lemma {:induction false} TreesReached(g: Graph, from: string, oids: seq<string>, w: Walk)
    requires Elements(oids) <= Links(g, from)
    ensures NewReached(g, from, w, CollectTrees(g, oids, w))
    decreases g.Keys - w.visited, |oids|
  {
    if oids != [] {
      var w1 := CollectTree(g, oids[0], w);
      TreeReached(g, oids[0], w);
      Onward(g, from, oids[0], w, w1);
      TreesReached(g, from, oids[1..], w1);
    }
  }

  lemma Onward(g: Graph, from: string, next: string, w: Walk, w': Walk)
    requires next in Links(g, from) && NewReached(g, next, w, w')
    ensures NewReached(g, from, w, w')
  {
    forall x | x in w'.visited && x !in w.visited ensures Reaches(g, from, x) {
      ReachesThrough(g, from, next, x);
    }
  }

  lemma {:induction false} CommitReached(g: Graph, oid: string, depth: nat, maxDepth: nat, w: Walk)
    ensures NewReached(g, oid, w, CollectCommit(g, oid, depth, maxDepth, w))
    decreases g.Keys - w.visited, 0
  {
    ReachesItself(g, oid);
    if oid !in w.visited && oid in g && g[oid].Commit? {
      var v := Visit(g, oid, w);
      var t := v;
      if g[oid].tree != "" {
        t := CollectTree(g, g[oid].tree, v);
        TreeReached(g, g[oid].tree, v);
        Onward(g, oid, g[oid].tree, v, t);
      }
      if !AtLimit(depth, maxDepth) { CommitsReached(g, oid, g[oid].parents, depth + 1, maxDepth, t); }
    }
  }

  lemma {:induction false} CommitsReached(g: Graph, from: string, oids: seq<string>, depth: nat, maxDepth: nat, w: Walk)
    requires Elements(oids) <= Links(g, from)
    ensures NewReached(g, from, w, CollectCommits(g, oids, depth, maxDepth, w))
    decreases g.Keys - w.visited, |oids|
  {
    if oids != [] {
      var w1 := CollectCommit(g, oids[0], depth, maxDepth, w);
      CommitReached(g, oids[0], depth, maxDepth, w);
      Onward(g, from, oids[0], w, w1);
      CommitsReached(g, from, oids[1..], depth, maxDepth, w1);
    }
  }

  /** On every map, cyclic or ill-typed, at every depth: only objects the tip
      reaches are returned, and none twice. */
  lemma CollectionIsSound(g: Graph, tip: string, maxDepth: nat)
    ensures var r := Collected(g, tip, maxDepth).result;
            && (forall x :: x in r ==> x in g && Reaches(g, tip, x))
            && (forall i, j :: 0 <= i < j < |r| ==> r[i] != r[j])
  {
    CommitConsistent(g, tip, 1, maxDepth, START);
    CommitReached(g, tip, 1, maxDepth, START);
  }

  // ------------------------------------------------------- well-typed maps

  ghost predicate NotCommit(g: Graph, x: string) { x in g ==> !g[x].Commit? }

  ghost predicate NotOther(g: Graph, x: string) { x in g ==> g[x].Commit? }

  /** Of what root reaches: parents are commits; trees, and what they list, are
      not. */
  ghost predicate Typed(g: Graph, root: string) {
    forall x :: x in g && Reaches(g, root, x) ==>
      match g[x]
      case Commit(tree, parents, _) => (tree != "" ==> NotCommit(g, tree)) && forall p :: p in parents ==> NotOther(g, p)
      case Tree(entries) => forall e :: e in entries ==> NotCommit(g, e)
      case Blob => true
  }

  /** Everything newly visited has been followed, except the parents of commits
      listed as shallow. */
  ghost predicate Explored(g: Graph, w: Walk, w': Walk) {
    forall x :: x in w'.visited && x !in w.visited && x in g ==>
      match g[x]
      case Commit(tree, parents, _) =>
        (tree != "" ==> tree in w'.visited) && (x in w'.shallow || Elements(parents) <= w'.visited)
      case Tree(entries) => Elements(entries) <= w'.visited
      case Blob => true
  }

  ghost predicate NewNotCommits(g: Graph, w: Walk, w': Walk) {
    forall x :: x in w'.visited && x !in w.visited ==> NotCommit(g, x)
  }

  lemma {:induction false} TreeExplored(g: Graph, root: string, oid: string, w: Walk)
    requires Typed(g, root) && Reaches(g, root, oid) && NotCommit(g, oid)
    ensures Explored(g, w, CollectTree(g, oid, w)) && NewNotCommits(g, w, CollectTree(g, oid, w))
    ensures CollectTree(g, oid, w).shallow == w.shallow
    decreases g.Keys - w.visited, 0
  {
    if oid !in w.visited && oid in g && g[oid].Tree? {
      ReachesOn(g, root, oid);
      TreesExplored(g, root, g[oid].entries, Visit(g, oid, w));
    }
  }

  lemma {:induction false} TreesExplored(g: Graph, root: string, oids: seq<string>, w: Walk)
    requires Typed(g, root) && forall e :: e in oids ==> Reaches(g, root, e) && NotCommit(g, e)
    ensures var w' := CollectTrees(g, oids, w);
            Explored(g, w, w') && NewNotCommits(g, w, w') && Elements(oids) <= w'.visited && w'.shallow == w.shallow
    decreases g.Keys - w.visited, |oids|
  {
    if oids != [] {
      var w1 := CollectTree(g, oids[0], w);
      TreeExplored(g, root, oids[0], w);
      TreesExplored(g, root, oids[1..], w1);
      ExploredThen(g, w, w1, CollectTrees(g, oids, w));
    }
  }

  lemma ExploredThen(g: Graph, w: Walk, w1: Walk, w2: Walk)
    requires Explored(g, w, w1) && Explored(g, w1, w2)
    requires w.visited <= w1.visited <= w2.visited && Elements(w1.shallow) <= Elements(w2.shallow)
    ensures Explored(g, w, w2)
  {
    assert forall x :: x in w1.shallow ==> x in Elements(w1.shallow);
  }

  lemma {:induction false} CommitExplored(g: Graph, root: string, oid: string, depth: nat, maxDepth: nat, w: Walk)
    requires Typed(g, root) && Reaches(g, root, oid) && NotOther(g, oid)
    ensures var w' := CollectCommit(g, oid, depth, maxDepth, w);
            && Explored(g, w, w') && Elements(w.shallow) <= Elements(w'.shallow)
            && (maxDepth == 0 ==> w'.shallow == w.shallow)
    decreases g.Keys - w.visited, 0
  {
    if oid !in w.visited && oid in g {
      var v := Visit(g, oid, w);
      var t := if g[oid].tree != "" then CollectTree(g, g[oid].tree, v) else v;
      ReachesOn(g, root, oid);
      if g[oid].tree != "" { TreeExplored(g, root, g[oid].tree, v); }
      if !AtLimit(depth, maxDepth) {
        CommitsExplored(g, root, g[oid].parents, depth + 1, maxDepth, t);
        ExploredThen(g, v, t, CollectCommits(g, g[oid].parents, depth + 1, maxDepth, t));
      }
    }
  }

  lemma {:induction false} CommitsExplored(g: Graph, root: string, oids: seq<string>, depth: nat, maxDepth: nat, w: Walk)
    requires Typed(g, root) && forall p :: p in oids ==> Reaches(g, root, p) && NotOther(g, p)
    ensures var w' := CollectCommits(g, oids, depth, maxDepth, w);
            && Explored(g, w, w') && Elements(w.shallow) <= Elements(w'.shallow)
            && Elements(oids) <= w'.visited
            && (maxDepth == 0 ==> w'.shallow == w.shallow)
    decreases g.Keys - w.visited, |oids|
  {
    if oids != [] {
      var w1 := CollectCommit(g, oids[0], depth, maxDepth, w);
      CommitExplored(g, root, oids[0], depth, maxDepth, w);
      CommitsExplored(g, root, oids[1..], depth, maxDepth, w1);
      ExploredThen(g, w, w1, CollectCommits(g, oids, depth, maxDepth, w));
    }
  }

  lemma {:induction false} PathStaysVisited(g: Graph, w: Walk, p: seq<string>, n: nat)
    requires Explored(g, START, w) && w.shallow == []
    requires IsPath(g, p) && p[0] in w.visited && n < |p|
    ensures p[n] in w.visited
  {
    if n > 0 {
      PathStaysVisited(g, w, p, n - 1);
      assert p[n - 1 + 1] in Links(g, p[n - 1]);
    }
  }

  /** Without a limit, a commit's collection is exactly what it reaches. */
  lemma CollectsExactlyTheReachable(g: Graph, tip: string)
    requires Typed(g, tip) && NotOther(g, tip)
    ensures forall x :: x in Collected(g, tip, 0).result <==> x in g && Reaches(g, tip, x)
  {
    var w := Collected(g, tip, 0);
    CollectionIsSound(g, tip, 0);
    CommitConsistent(g, tip, 1, 0, START);
    ReachesItself(g, tip);
    CommitExplored(g, tip, tip, 1, 0, START);
    forall x | x in g && Reaches(g, tip, x) ensures x in w.result {
      var p :| IsPath(g, p) && p[0] == tip && p[|p| - 1] == x;
      PathStaysVisited(g, w, p, |p| - 1);
    }
  }

  // ------------------------------------------------------------ depth limit

  ghost predicate IsParentPath(g: Graph, p: seq<string>) {
    && p != []
    && forall i :: 0 <= i < |p| - 1 ==> p[i] in g && g[p[i]].Commit? && p[i + 1] in g[p[i]].parents
  }

  /** From a to b over parents, counting both ends, in at most n commits. */
  ghost predicate Within(g: Graph, a: string, b: string, n: nat) {
    exists p :: IsParentPath(g, p) && p[0] == a && p[|p| - 1] == b && |p| <= n
  }

  lemma WithinOneMore(g: Graph, a: string, b: string, c: string, n: nat)
    requires a in g && g[a].Commit? && b in g[a].parents && Within(g, b, c, n)
    ensures Within(g, a, c, n + 1)
  {
    var p :| IsParentPath(g, p) && p[0] == b && p[|p| - 1] == c && |p| <= n;
    var q := [a] + p;
    assert IsParentPath(g, q) && q[0] == a && q[|q| - 1] == c;
  }

  ghost predicate NewCommitsWithin(g: Graph, from: string, n: nat, w: Walk, w': Walk) {
    forall x :: x in w'.visited && x !in w.visited && x in g && g[x].Commit? ==> Within(g, from, x, n)
  }

  lemma {:induction false} CommitWithin(g: Graph, root: string, oid: string, depth: nat, maxDepth: nat, w: Walk)
    requires Typed(g, root) && Reaches(g, root, oid) && NotOther(g, oid) && 0 < depth <= maxDepth
    ensures NewCommitsWithin(g, oid, maxDepth - depth + 1, w, CollectCommit(g, oid, depth, maxDepth, w))
    decreases g.Keys - w.visited, 0
  {
    if oid !in w.visited {
      assert IsParentPath(g, [oid]) && [oid][0] == oid;
      if oid in g {
        var v := Visit(g, oid, w);
        var t := if g[oid].tree != "" then CollectTree(g, g[oid].tree, v) else v;
        ReachesOn(g, root, oid);
        if g[oid].tree != "" { TreeExplored(g, root, g[oid].tree, v); }
        if !AtLimit(depth, maxDepth) {
          CommitsWithin(g, root, oid, g[oid].parents, depth + 1, maxDepth, t);
        }
      }
    }
  }

  lemma {:induction false} CommitsWithin(g: Graph, root: string, from: string, oids: seq<string>, depth: nat, maxDepth: nat, w: Walk)
    requires Typed(g, root) && Reaches(g, root, from) && from in g && g[from].Commit? && Elements(oids) <= Elements(g[from].parents)
    requires 0 < depth <= maxDepth
    ensures NewCommitsWithin(g, from, maxDepth - depth + 2, w, CollectCommits(g, oids, depth, maxDepth, w))
    decreases g.Keys - w.visited, |oids|
  {
    if oids != [] {
      assert oids[0] in Elements(g[from].parents);
      ReachesOn(g, root, from);
      var w1 := CollectCommit(g, oids[0], depth, maxDepth, w);
      CommitWithin(g, root, oids[0], depth, maxDepth, w);
      forall x | x in w1.visited && x !in w.visited && x in g && g[x].Commit?
        ensures Within(g, from, x, maxDepth - depth + 2)
      {
        WithinOneMore(g, from, oids[0], x, maxDepth - depth + 1);
      }
      CommitsWithin(g, root, from, oids[1..], depth, maxDepth, w1);
    }
  }

  ghost predicate Kept(g: Graph, tip: string, maxDepth: nat, w: Walk, x: string)
    requires x in g
  {
    match g[x]
    case Commit(tree, parents, _) =>
      && Within(g, tip, x, maxDepth)
      && (tree != "" && tree in g ==> tree in w.result)
      && (x in w.shallow || forall p :: p in parents && p in g ==> p in w.result)
    case Tree(entries) => forall e :: e in entries && e in g ==> e in w.result
    case Blob => true
  }

  /** With a limit, no returned commit is farther than the limit, and each is
      listed as shallow or has all its present parents returned; whatever is
      returned has its present tree, or entries, returned too. */
  lemma DepthLimit(g: Graph, tip: string, maxDepth: nat)
    requires Typed(g, tip) && NotOther(g, tip) && maxDepth > 0
    ensures var w := Collected(g, tip, maxDepth);
            forall x :: x in w.result ==> x in g && Kept(g, tip, maxDepth, w, x)
  {
    CommitConsistent(g, tip, 1, maxDepth, START);
    ReachesItself(g, tip);
    CommitExplored(g, tip, tip, 1, maxDepth, START);
    CommitWithin(g, tip, tip, 1, maxDepth, START);
    assert forall p, ps: seq<string> :: p in ps ==> p in Elements(ps);
  }

  ghost predicate ShallowAreBoundaries(g: Graph, w: Walk) {
    forall x :: x in w.shallow ==> x in g && g[x].Commit? && g[x].parents != [] && x in w.visited
  }

  lemma {:induction false} CommitBoundaries(g: Graph, oid: string, depth: nat, maxDepth: nat, w: Walk)
    requires ShallowAreBoundaries(g, w) && Consistent(g, w)
    ensures ShallowAreBoundaries(g, CollectCommit(g, oid, depth, maxDepth, w))
    decreases g.Keys - w.visited, 0
  {
    if oid !in w.visited && oid in g && g[oid].Commit? {
      var v := Visit(g, oid, w);
      VisitConsistent(g, oid, w);
      var t := if g[oid].tree != "" then CollectTree(g, g[oid].tree, v) else v;
      if g[oid].tree != "" { TreeConsistent(g, g[oid].tree, v); }
      if !AtLimit(depth, maxDepth) { CommitsBoundaries(g, g[oid].parents, depth + 1, maxDepth, t); }
    }
  }

  lemma {:induction false} CommitsBoundaries(g: Graph, oids: seq<string>, depth: nat, maxDepth: nat, w: Walk)
    requires ShallowAreBoundaries(g, w) && Consistent(g, w)
    ensures ShallowAreBoundaries(g, CollectCommits(g, oids, depth, maxDepth, w))
    decreases g.Keys - w.visited, |oids|
  {
    if oids != [] {
      CommitBoundaries(g, oids[0], depth, maxDepth, w);
      CommitConsistent(g, oids[0], depth, maxDepth, w);
      CommitsBoundaries(g, oids[1..], depth, maxDepth, CollectCommit(g, oids[0], depth, maxDepth, w));
    }
  }

  /** Only returned commits that have parents are listed as shallow. */
  lemma ShallowListed(g: Graph, tip: string, maxDepth: nat)
    ensures var w := Collected(g, tip, maxDepth);
            forall x :: x in w.shallow ==> x in w.result && x in g && g[x].Commit? && g[x].parents != []
  {
    CommitConsistent(g, tip, 1, maxDepth, START);
    CommitBoundaries(g, tip, 1, maxDepth, START);
  }

  lemma {:induction false} TreePathVisited(g: Graph, root: string, v: Walk, t: Walk, p: seq<string>, n: nat)
    requires Typed(g, root) && Explored(g, v, t) && IsPath(g, p) && n < |p| && Reaches(g, root, p[0])
    requires p[0] in t.visited && NotCommit(g, p[0])
    requires forall x :: x in v.visited ==> x in g && g[x].Commit?
    requires v.visited <= t.visited
    ensures p[n] in t.visited && NotCommit(g, p[n]) && Reaches(g, root, p[n])
  {
    if n > 0 {
      TreePathVisited(g, root, v, t, p, n - 1);
      ReachesOn(g, root, p[n - 1]);
      assert p[n - 1 + 1] in Links(g, p[n - 1]);
    }
  }

  /** The one depth the server admits: the tip and all its tree reaches, whatever
      its parents are; the tip is shallow just when it has parents. */
  lemma DepthOne(g: Graph, tip: string)
    requires tip in g && g[tip].Commit?
    requires g[tip].tree != "" ==> Typed(g, g[tip].tree) && NotCommit(g, g[tip].tree)
    ensures var w := Collected(g, tip, 1);
            && (forall x :: x in w.result <==>
                  x == tip || (x in g && g[tip].tree != "" && Reaches(g, g[tip].tree, x)))
            && w.shallow == if g[tip].parents == [] then [] else [tip]
  {
    var tree := g[tip].tree;
    var v := Visit(g, tip, START);
    var t := if tree != "" then CollectTree(g, tree, v) else v;
    CommitConsistent(g, tip, 1, 1, START);
    assert Collected(g, tip, 1).visited == t.visited;
    if tree != "" {
      ReachesItself(g, tree);
      TreeExplored(g, tree, tree, v);
      TreeReached(g, tree, v);
      forall x | x in g && Reaches(g, tree, x) ensures x in t.visited {
        var p :| IsPath(g, p) && p[0] == tree && p[|p| - 1] == x;
        TreePathVisited(g, tree, v, t, p, |p| - 1);
      }
    }
  }

  // ------------------------------------------------- why types are needed

  const SUBMODULE: Graph := map[
    "c1" := Commit("t1", ["c0"], false), "t1" := Tree(["c0"]),
    "c0" := Commit("t0", [], false), "t0" := Tree([])]

  /** A tree that lists a commit: the tree walk marks it visited without
      following it, so its own tree is reachable but never returned. */
  lemma ListedCommitIsLost()
    ensures Reaches(SUBMODULE, "c1", "t0") && "t0" !in Collected(SUBMODULE, "c1", 0).result
  {
    var g := SUBMODULE;
    var p := ["c1", "c0", "t0"];
    assert IsPath(g, p) && p[0] == "c1" && p[|p| - 1] == "t0";
    var v := Visit(g, "c1", START);
    var u := Visit(g, "t1", v);
    var t := Visit(g, "c0", u);
    assert CollectTrees(g, ["c0"], u) == t;
    assert CollectCommits(g, ["c0"], 2, 0, t) == t;
  }
}
