/** Maps that are not typed: what the walk makes of an object that is met in the
    wrong role, and when the unlimited collection is complete all the same. */
module GitGraphRoles {
  import opened GitGraph
  import opened GitGraphReach
  import opened GitGraphDepth

  /** Met as a tree or as what a tree lists. */
  ghost predicate Listed(g: Graph, root: string, x: string) {
    exists y :: y in g && Reaches(g, root, y) && x in TreeLinks(g, y)
  }

  function TreeLinks(g: Graph, y: string): set<string> {
    if y !in g then {}
    else
      match g[y]
      case Commit(tree, _, _) => if tree != "" then {tree} else {}
      case Tree(entries) => Elements(entries)
      case Blob => {}
  }

  /** Met as the tip or as a parent. */
  ghost predicate Parental(g: Graph, root: string, x: string) {
    x == root || exists y :: y in g && Reaches(g, root, y) && g[y].Commit? && x in Elements(g[y].parents)
  }

  /** No name is met in both roles. */
  ghost predicate Apart(g: Graph, root: string) {
    forall x :: !(Listed(g, root, x) && Parental(g, root, x))
  }

  /** A commit that is no parent, or a parent that is no commit: it is returned,
      but not followed. */
  ghost predicate Misplaced(g: Graph, root: string, x: string) {
    x in g && (g[x].Commit? <==> !Parental(g, root, x))
  }

  /** A path that passes through nothing misplaced; it may end there. */
  ghost predicate IsClearPath(g: Graph, root: string, p: seq<string>) {
    IsPath(g, p) && forall i :: 0 <= i < |p| - 1 ==> !Misplaced(g, root, p[i])
  }

  ghost predicate ReachesClearly(g: Graph, root: string, x: string) {
    exists p :: IsClearPath(g, root, p) && p[0] == root && p[|p| - 1] == x
  }

  /** The map with the links of misplaced objects taken away. */
  ghost function Trimmed(g: Graph, root: string): Graph {
    map x | x in g ::
      if !Misplaced(g, root, x) then g[x] else if g[x].Commit? then Blob else Commit("", [], false)
  }

  lemma TrimmedLinks(g: Graph, root: string, x: string)
    ensures Links(Trimmed(g, root), x) == if Misplaced(g, root, x) then {} else Links(g, x)
  {
    hide Misplaced, Elements;
    assert Elements([]) == {} by { EmptyElements(); }
  }

  lemma EmptyElements()
    ensures Elements([]) == {}
  {
  }

  lemma TrimmedPaths(g: Graph, root: string, p: seq<string>)
    ensures IsPath(Trimmed(g, root), p) <==> IsClearPath(g, root, p)
  {
    hide Trimmed, Links, Misplaced;
    var t := Trimmed(g, root);
    forall i | 0 <= i < |p| - 1
      ensures p[i + 1] in Links(t, p[i]) <==> p[i + 1] in Links(g, p[i]) && !Misplaced(g, root, p[i])
    {
      TrimmedLinks(g, root, p[i]);
    }
    if IsPath(t, p) {
      forall i | 0 <= i < |p| - 1 ensures !Misplaced(g, root, p[i]) { assert p[i + 1] in Links(t, p[i]); }
    }
    if IsClearPath(g, root, p) {
      forall i | 0 <= i < |p| - 1 ensures p[i + 1] in Links(t, p[i]) { assert !Misplaced(g, root, p[i]); }
    }
  }

  lemma TrimmedReaches(g: Graph, root: string, x: string)
    ensures Reaches(Trimmed(g, root), root, x) <==> ReachesClearly(g, root, x)
    ensures ReachesClearly(g, root, x) ==> Reaches(g, root, x)
  {
    hide Trimmed, Links, Misplaced;
    if Reaches(Trimmed(g, root), root, x) {
      var p :| IsPath(Trimmed(g, root), p) && p[0] == root && p[|p| - 1] == x;
      TrimmedPaths(g, root, p);
    }
    if ReachesClearly(g, root, x) {
      var p :| IsClearPath(g, root, p) && p[0] == root && p[|p| - 1] == x;
      TrimmedPaths(g, root, p);
      assert IsPath(g, p) by { ClearPathIsPath(g, root, p); }
    }
  }

  lemma ClearPathIsPath(g: Graph, root: string, p: seq<string>)
    requires IsClearPath(g, root, p)
    ensures IsPath(g, p)
  {
  }

  /** In the trimmed map, commits are just the names met as parents. */
  lemma TrimmedKinds(g: Graph, root: string, x: string)
    requires x in g
    ensures x in Trimmed(g, root) && (Trimmed(g, root)[x].Commit? <==> Parental(g, root, x))
  {
  }

  /** Where the roles are apart, trimming makes a well-typed map. */
  lemma TrimmedIsTyped(g: Graph, root: string)
    requires Apart(g, root)
    ensures Typed(Trimmed(g, root), root) && NotOther(Trimmed(g, root), root)
  {
    hide Trimmed, Misplaced, Parental, Listed, Reaches, Elements;
    var t := Trimmed(g, root);
    forall x | x in t && Reaches(t, root, x)
      ensures match t[x]
              case Commit(tree, parents, _) => (tree != "" ==> NotCommit(t, tree)) && forall p :: p in parents ==> NotOther(t, p)
              case Tree(entries) => forall e :: e in entries ==> NotCommit(t, e)
              case Blob => true
    {
      TrimmedReaches(g, root, x);
      TypedAt(g, root, x);
    }
    RootIsParental(g, root);
    if root in g { TrimmedKinds(g, root, root); }
    SameKeys(g, root);
  }

  lemma SameKeys(g: Graph, root: string)
    ensures Trimmed(g, root).Keys == g.Keys
  {
  }

  lemma RootIsParental(g: Graph, root: string)
    ensures Parental(g, root, root)
  {
  }

  lemma TypedAt(g: Graph, root: string, x: string)
    requires Apart(g, root) && x in Trimmed(g, root) && Reaches(g, root, x)
    ensures var t := Trimmed(g, root);
            match t[x]
            case Commit(tree, parents, _) => (tree != "" ==> NotCommit(t, tree)) && forall p :: p in parents ==> NotOther(t, p)
            case Tree(entries) => forall e :: e in entries ==> NotCommit(t, e)
            case Blob => true
  {
    hide Reaches;
    var t := Trimmed(g, root);
    if !Misplaced(g, root, x) {
      match g[x] {
        case Commit(tree, parents, _) =>
          if tree != "" { ListedHere(g, root, x, tree); }
          forall p | p in parents ensures NotOther(t, p) { assert p in Elements(parents); }
        case Tree(entries) =>
          forall e | e in entries ensures NotCommit(t, e) {
            assert e in Elements(entries);
            ListedHere(g, root, x, e);
          }
        case Blob =>
      }
    }
  }

  lemma ListedHere(g: Graph, root: string, y: string, x: string)
    requires Apart(g, root) && y in g && Reaches(g, root, y) && x in TreeLinks(g, y)
    ensures Listed(g, root, x) && NotCommit(Trimmed(g, root), x)
  {
    if x in g { TrimmedKinds(g, root, x); }
  }

  // ------------------------------------------------- the walk does not notice

  lemma {:induction false} TreeTrimmed(g: Graph, root: string, oid: string, w: Walk)
    requires Apart(g, root) && Reaches(g, root, oid) && Listed(g, root, oid)
    ensures CollectTree(Trimmed(g, root), oid, w) == CollectTree(g, oid, w)
    decreases g.Keys - w.visited, 0
  {
    hide Parental, Listed, Reaches;
    var t := Trimmed(g, root);
    if oid !in w.visited && oid in g && g[oid].Tree? {
      assert t[oid] == g[oid] by { NotParental(g, root, oid); }
      ReachesOn(g, root, oid);
      forall e | e in g[oid].entries ensures Reaches(g, root, e) && Listed(g, root, e) {
        assert e in TreeLinks(g, oid) && e in Links(g, oid) by { assert e in Elements(g[oid].entries); }
        ListedHere(g, root, oid, e);
      }
      TreesTrimmed(g, root, g[oid].entries, Visit(g, oid, w));
    } else if oid in g && oid !in w.visited {
      TrimmedKinds(g, root, oid);
      NotParental(g, root, oid);
    }
  }

  lemma NotParental(g: Graph, root: string, x: string)
    requires Apart(g, root) && Listed(g, root, x)
    ensures !Parental(g, root, x)
  {
  }

  lemma {:induction false} TreesTrimmed(g: Graph, root: string, oids: seq<string>, w: Walk)
    requires Apart(g, root) && forall e :: e in oids ==> Reaches(g, root, e) && Listed(g, root, e)
    ensures CollectTrees(Trimmed(g, root), oids, w) == CollectTrees(g, oids, w)
    decreases g.Keys - w.visited, |oids|
  {
    hide Trimmed, Listed, Apart, Reaches;
    if oids != [] {
      TreeTrimmed(g, root, oids[0], w);
      TreesTrimmed(g, root, oids[1..], CollectTree(g, oids[0], w));
    }
  }

  lemma {:induction false} CommitTrimmed(g: Graph, root: string, oid: string, depth: nat, maxDepth: nat, w: Walk)
    requires Apart(g, root) && Reaches(g, root, oid) && Parental(g, root, oid)
    ensures CollectCommit(Trimmed(g, root), oid, depth, maxDepth, w) == CollectCommit(g, oid, depth, maxDepth, w)
    ensures CommitPanics(Trimmed(g, root), oid, depth, maxDepth, w) <==> CommitPanics(g, oid, depth, maxDepth, w)
    decreases g.Keys - w.visited, 0
  {
    hide Parental, Listed, Reaches, Apart;
    var t := Trimmed(g, root);
    if oid !in w.visited && oid in g && g[oid].Commit? {
      assert t[oid] == g[oid];
      var v := Visit(g, oid, w);
      ReachesOn(g, root, oid);
      if g[oid].tree != "" {
        ListedHere(g, root, oid, g[oid].tree);
        TreeTrimmed(g, root, g[oid].tree, v);
      }
      var u := if g[oid].tree != "" then CollectTree(g, g[oid].tree, v) else v;
      forall p | p in g[oid].parents ensures Reaches(g, root, p) && Parental(g, root, p) {
        assert p in Elements(g[oid].parents);
        ParentHere(g, root, oid, p);
      }
      CommitsTrimmed(g, root, g[oid].parents, depth + 1, maxDepth, u);
    }
  }

  lemma ParentHere(g: Graph, root: string, y: string, x: string)
    requires y in g && Reaches(g, root, y) && g[y].Commit? && x in Elements(g[y].parents)
    ensures Parental(g, root, x)
  {
  }

  lemma {:induction false} CommitsTrimmed(g: Graph, root: string, oids: seq<string>, depth: nat, maxDepth: nat, w: Walk)
    requires Apart(g, root) && forall p :: p in oids ==> Reaches(g, root, p) && Parental(g, root, p)
    ensures CollectCommits(Trimmed(g, root), oids, depth, maxDepth, w) == CollectCommits(g, oids, depth, maxDepth, w)
    ensures CommitsPanic(Trimmed(g, root), oids, depth, maxDepth, w) <==> CommitsPanic(g, oids, depth, maxDepth, w)
    decreases g.Keys - w.visited, |oids|
  {
    hide Trimmed, Parental, Apart, Reaches;
    if oids != [] {
      CommitTrimmed(g, root, oids[0], depth, maxDepth, w);
      CommitsTrimmed(g, root, oids[1..], depth, maxDepth, CollectCommit(g, oids[0], depth, maxDepth, w));
    }
  }

  /** Where no name is met in both roles, the walk takes the map for the trimmed
      one, at every limit. */
  lemma WalksAsTrimmed(g: Graph, tip: string, limit: nat)
    requires Apart(g, tip)
    ensures Collected(Trimmed(g, tip), tip, limit) == Collected(g, tip, limit)
    ensures CommitPanics(Trimmed(g, tip), tip, 1, limit, START) <==> CommitPanics(g, tip, 1, limit, START)
    ensures Typed(Trimmed(g, tip), tip) && NotOther(Trimmed(g, tip), tip)
  {
    hide Trimmed, Apart, CollectCommit, CommitPanics, Typed;
    ReachesItself(g, tip);
    RootIsParental(g, tip);
    CommitTrimmed(g, tip, tip, 1, limit, START);
    TrimmedIsTyped(g, tip);
  }

  // ------------------------------------------------------- exact completeness

  /** There, the unlimited walk returns exactly what is reached without passing
      through a misplaced object, and panics exactly when a broken commit is met
      so as a parent. */
  lemma ReturnsTheClearlyReached(g: Graph, tip: string)
    requires Apart(g, tip)
    ensures forall x :: x in Collected(g, tip, 0).result <==> x in g && ReachesClearly(g, tip, x)
    ensures CommitPanics(g, tip, 1, 0, START) <==>
              exists c :: c in g && g[c].Commit? && g[c].broken && Parental(g, tip, c) && ReachesClearly(g, tip, c)
  {
    hide Trimmed, Apart, Collected, CommitPanics, Typed, Parental, Reaches, ReachesClearly;
    var t := Trimmed(g, tip);
    WalksAsTrimmed(g, tip, 0);
    SameKeys(g, tip);
    CollectsExactlyTheReachable(t, tip);
    BrokenPanics(t, tip, 0);
    forall x ensures Reaches(t, tip, x) <==> ReachesClearly(g, tip, x) { TrimmedReaches(g, tip, x); }
    forall c | c in g
      ensures t[c].Commit? && t[c].broken <==> g[c].Commit? && g[c].broken && Parental(g, tip, c)
    {
      TrimmedBroken(g, tip, c);
    }
  }

  lemma TrimmedBroken(g: Graph, root: string, c: string)
    requires c in g
    ensures var t := Trimmed(g, root);
            c in t && (t[c].Commit? && t[c].broken <==> g[c].Commit? && g[c].broken && Parental(g, root, c))
  {
  }

  ghost predicate CompleteHere(g: Graph, tip: string) {
    forall x :: x in g && Reaches(g, tip, x) ==> x in Collected(g, tip, 0).result
  }

  /** There, the unlimited collection is complete if and only if whatever is
      reachable is reachable without passing through a misplaced object. */
  lemma CompleteIffNothingHidden(g: Graph, tip: string)
    requires Apart(g, tip)
    ensures CompleteHere(g, tip) <==> forall x :: x in g && Reaches(g, tip, x) ==> ReachesClearly(g, tip, x)
  {
    hide Apart, Collected, Reaches, ReachesClearly;
    ReturnsTheClearlyReached(g, tip);
  }

  // ---------------------------------------------- a name met in both roles

  /** Two parents, of which the second's tree lists the first; the first's own tree
      is only there. */
  function BothRoles(parents: seq<string>): Graph {
    map["c" := Commit("", parents, false), "a" := Commit("t", [], false), "t" := Tree([]),
        "b" := Commit("u", [], false), "u" := Tree(["a"])]
  }

  /** Then the order of the parents decides: met first as a parent the commit is
      followed, met first in a tree it is not. */
  lemma ParentOrderDecides()
    ensures !Apart(BothRoles(["a", "b"]), "c") && !Apart(BothRoles(["b", "a"]), "c")
    ensures "t" in Collected(BothRoles(["a", "b"]), "c", 0).result
    ensures Reaches(BothRoles(["b", "a"]), "c", "t") && "t" !in Collected(BothRoles(["b", "a"]), "c", 0).result
  {
    RolesMeet(["a", "b"]);
    RolesMeet(["b", "a"]);
    FirstAsParent();
    FirstInTree();
  }

  lemma RolesMeet(parents: seq<string>)
    requires "a" in parents && "b" in parents
    ensures !Apart(BothRoles(parents), "c") && Reaches(BothRoles(parents), "c", "t")
  {
    var g := BothRoles(parents);
    ReachesItself(g, "c");
    assert "a" in Links(g, "c") && "b" in Links(g, "c");
    ReachesOn(g, "c", "c");
    ReachesOn(g, "c", "a");
    ReachesOn(g, "c", "b");
    assert "t" in Links(g, "a") && "u" in Links(g, "b");
    assert "a" in TreeLinks(g, "u") by { assert "a" in Elements(["a"]); }
    assert Listed(g, "c", "a");
    ParentHere(g, "c", "c", "a");
  }

  lemma FirstAsParent()
    ensures "t" in Collected(BothRoles(["a", "b"]), "c", 0).result
  {
    var g := BothRoles(["a", "b"]);
    var c := Visit(g, "c", START);
    var a := Visit(g, "a", c);
    var t := Visit(g, "t", a);
    assert CollectTree(g, "t", a) == t;
    assert CollectCommit(g, "a", 2, 0, c) == t;
    assert ["a", "b"][1..] == ["b"];
    CommitConsistent(g, "c", 1, 0, START);
    assert t.visited <= CollectCommits(g, ["a", "b"], 2, 0, c).visited;
  }

  lemma FirstInTree()
    ensures "t" !in Collected(BothRoles(["b", "a"]), "c", 0).result
  {
    var g := BothRoles(["b", "a"]);
    var c := Visit(g, "c", START);
    var b := Visit(g, "b", c);
    var u := Visit(g, "u", b);
    var a := Visit(g, "a", u);
    assert ["a"][1..] == [] && ["b", "a"][1..] == ["a"];
    assert CollectTrees(g, ["a"], u) == a;
    assert CollectCommit(g, "b", 2, 0, c) == a;
    assert CollectCommits(g, ["a"], 2, 0, a) == a;
    assert CollectCommits(g, ["b", "a"], 2, 0, c) == a;
  }
}
