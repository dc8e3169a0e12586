/** Collecting what a commit reaches: a depth-limited walk over commits and a
    walk over trees that share one visited set. */
module GitGraph {

  /** Names of the linked objects; a commit without a tree line has tree "", and
      one whose tree line is too short to slice is broken. */
  datatype Node = Commit(tree: string, parents: seq<string>, broken: bool) | Tree(entries: seq<string>) | Blob

  type Graph = map<string, Node>

  /** The walk's shared state: names met, names returned in order, and commits
      listed as shallow boundaries. */
  datatype Walk = Walk(visited: set<string>, result: seq<string>, shallow: seq<string>)

  const START := Walk({}, [], [])

  function Visit(g: Graph, oid: string, w: Walk): Walk {
    w.(visited := w.visited + {oid}, result := if oid in g then w.result + [oid] else w.result)
  }

  function CollectTree(g: Graph, oid: string, w: Walk): (w': Walk)
    ensures w.visited + {oid} <= w'.visited
    decreases g.Keys - w.visited, 0
  {
    if oid in w.visited then w
    else
      var v := Visit(g, oid, w);
      if oid in g && g[oid].Tree? then CollectTrees(g, g[oid].entries, v) else v
  }

  function CollectTrees(g: Graph, oids: seq<string>, w: Walk): (w': Walk)
    ensures w.visited <= w'.visited
    decreases g.Keys - w.visited, |oids|
  {
    if oids == [] then w else CollectTrees(g, oids[1..], CollectTree(g, oids[0], w))
  }

  /** maxDepth 0 is no limit. */
  function CollectCommit(g: Graph, oid: string, depth: nat, maxDepth: nat, w: Walk): (w': Walk)
    ensures w.visited + {oid} <= w'.visited
    decreases g.Keys - w.visited, 0
  {
    if oid in w.visited then w
    else
      var v := Visit(g, oid, w);
      if oid !in g || !g[oid].Commit? then v
      else
        var t := if g[oid].tree != "" then CollectTree(g, g[oid].tree, v) else v;
        if g[oid].parents == [] then t
        else if AtLimit(depth, maxDepth) then t.(shallow := t.shallow + [oid])
        else CollectCommits(g, g[oid].parents, depth + 1, maxDepth, t)
  }

  function CollectCommits(g: Graph, oids: seq<string>, depth: nat, maxDepth: nat, w: Walk): (w': Walk)
    ensures w.visited <= w'.visited
    decreases g.Keys - w.visited, |oids|
  {
    if oids == [] then w
    else CollectCommits(g, oids[1..], depth, maxDepth, CollectCommit(g, oids[0], depth, maxDepth, w))
  }

  /** Whether the walk from oid comes to a broken commit, where it panics. */
  predicate CommitPanics(g: Graph, oid: string, depth: nat, maxDepth: nat, w: Walk)
    decreases g.Keys - w.visited, 0
  {
    if oid in w.visited || oid !in g || !g[oid].Commit? then false
    else
      var v := Visit(g, oid, w);
      var t := if g[oid].tree != "" then CollectTree(g, g[oid].tree, v) else v;
      || g[oid].broken
      || (g[oid].parents != [] && !AtLimit(depth, maxDepth) && CommitsPanic(g, g[oid].parents, depth + 1, maxDepth, t))
  }

  predicate CommitsPanic(g: Graph, oids: seq<string>, depth: nat, maxDepth: nat, w: Walk)
    decreases g.Keys - w.visited, |oids|
  {
    oids != [] && (CommitPanics(g, oids[0], depth, maxDepth, w) ||
                   CommitsPanic(g, oids[1..], depth, maxDepth, CollectCommit(g, oids[0], depth, maxDepth, w)))
  }

  predicate AtLimit(depth: nat, maxDepth: nat) { maxDepth > 0 && depth >= maxDepth }

  /** The two recursive closures over the variables they share. */
  class Collector {
    const objects: Graph
    const maxDepth: nat
    var visited: set<string>
    var result: seq<string>
    var shallow: seq<string>

    function State(): Walk
      reads this
    {
      Walk(visited, result, shallow)
    }

    constructor (objects: Graph, maxDepth: nat)
      ensures State() == START && this.objects == objects && this.maxDepth == maxDepth
    {
      this.objects, this.maxDepth := objects, maxDepth;
      visited, result, shallow := {}, [], [];
    }

    method TreeWalk(oid: string)
      modifies this
      ensures State() == CollectTree(objects, oid, old(State()))
      decreases objects.Keys - visited
    {
      if oid in visited { return; }
      visited := visited + {oid};
      if oid !in objects { return; }
      result := result + [oid];
      if objects[oid].Tree? {
        var entries, i := objects[oid].entries, 0;
        ghost var goal := CollectTrees(objects, entries, State());
        while i < |entries|
          invariant 0 <= i <= |entries|
          invariant oid in visited && old(visited) <= visited
          invariant CollectTrees(objects, entries[i..], State()) == goal
        {
          assert entries[i..][1..] == entries[i + 1..];
          TreeWalk(entries[i]);
          i := i + 1;
        }
      }
    }

    method CommitWalk(oid: string, depth: nat) returns (panicked: bool)
      modifies this
      ensures panicked <==> CommitPanics(objects, oid, depth, maxDepth, old(State()))
      ensures !panicked ==> State() == CollectCommit(objects, oid, depth, maxDepth, old(State()))
      decreases objects.Keys - visited, 0
    {
      if oid in visited { return false; }
      visited := visited + {oid};
      if oid !in objects { return false; }
      result := result + [oid];
      if !objects[oid].Commit? { return false; }
      if objects[oid].broken { return true; }
      if objects[oid].tree != "" { TreeWalk(objects[oid].tree); }
      var parents := objects[oid].parents;
      if |parents| > 0 {
        if maxDepth > 0 && depth >= maxDepth {
          shallow := shallow + [oid];
        } else {
          panicked := ParentsWalk(parents, depth + 1);
          return;
        }
      }
      return false;
    }

    /** The loop over a commit's parents. */
    method ParentsWalk(parents: seq<string>, depth: nat) returns (panicked: bool)
      modifies this
      ensures panicked <==> CommitsPanic(objects, parents, depth, maxDepth, old(State()))
      ensures !panicked ==> State() == CollectCommits(objects, parents, depth, maxDepth, old(State()))
      decreases objects.Keys - visited, |parents|
    {
      var i := 0;
      ghost var goal := CollectCommits(objects, parents, depth, maxDepth, State());
      ghost var danger := CommitsPanic(objects, parents, depth, maxDepth, State());
      while i < |parents|
        invariant 0 <= i <= |parents| && old(visited) <= visited
        invariant CollectCommits(objects, parents[i..], depth, maxDepth, State()) == goal
        invariant CommitsPanic(objects, parents[i..], depth, maxDepth, State()) == danger
      {
        assert parents[i..][1..] == parents[i + 1..];
        panicked := CommitWalk(parents[i], depth);
        if panicked { return; }
        i := i + 1;
      }
      return false;
    }
  }

  function Collected(g: Graph, tip: string, maxDepth: nat): Walk {
    CollectCommit(g, tip, 1, maxDepth, START)
  }

  method CollectCommitObjectsWithDepth(objects: Graph, tip: string, maxDepth: nat)
    returns (result: seq<string>, shallow: seq<string>, panicked: bool)
    ensures panicked <==> CommitPanics(objects, tip, 1, maxDepth, START)
    ensures !panicked ==> result == Collected(objects, tip, maxDepth).result
    ensures !panicked ==> shallow == Collected(objects, tip, maxDepth).shallow
  {
    var c := new Collector(objects, maxDepth);
    panicked := c.CommitWalk(tip, 1);
    return c.result, c.shallow, panicked;
  }
}
