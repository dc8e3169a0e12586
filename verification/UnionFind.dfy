/** Union-find with path compression, over an array of parents. */
module UnionFind {

  /** The parent links form a forest: rep names every element's root, and depth
      strictly falls along links, so there is no cycle. */
  ghost predicate Forest(parent: seq<int>, rep: seq<int>, depth: seq<nat>) {
    && |parent| == |rep| == |depth|
    && forall x :: 0 <= x < |parent| ==> Placed(parent, rep, depth, x)
  }

  ghost predicate Placed(parent: seq<int>, rep: seq<int>, depth: seq<nat>, x: int)
    requires |parent| == |rep| == |depth| && 0 <= x < |parent|
  {
    && 0 <= parent[x] < |parent| && 0 <= rep[x] < |parent|
    && rep[parent[x]] == rep[x]
    && parent[rep[x]] == rep[x]
    && (parent[x] == x ==> rep[x] == x)
    && (parent[x] != x ==> depth[parent[x]] < depth[x])
    && (rep[x] != x ==> depth[rep[x]] < depth[x])
  }

  lemma Compressed(parent: seq<int>, rep: seq<int>, depth: seq<nat>, x: int)
    requires Forest(parent, rep, depth) && 0 <= x < |parent| && parent[x] != x
    ensures Forest(parent[x := rep[x]], rep, depth)
  {
    var parent' := parent[x := rep[x]];
    assert Placed(parent, rep, depth, x) && Placed(parent, rep, depth, parent[x]);
    assert rep[x] != x;
    forall y | 0 <= y < |parent| ensures Placed(parent', rep, depth, y) {
      assert Placed(parent, rep, depth, y) && Placed(parent, rep, depth, rep[x]);
    }
  }

  /** The labels after joining the classes of roots px and py under py. */
  function Joined(rep: seq<int>, px: int, py: int): seq<int> {
    seq(|rep|, z requires 0 <= z < |rep| => if rep[z] == px then py else rep[z])
  }

  ghost function Deepened(rep: seq<int>, depth: seq<nat>, px: int, more: nat): seq<nat>
    requires |rep| == |depth|
  {
    seq(|rep|, z requires 0 <= z < |rep| => if rep[z] == px then depth[z] + more + 1 else depth[z])
  }

  lemma Linked(parent: seq<int>, rep: seq<int>, depth: seq<nat>, px: int, py: int)
    requires Forest(parent, rep, depth) && 0 <= px < |parent| && 0 <= py < |parent|
    requires rep[px] == px && rep[py] == py && px != py
    ensures Forest(parent[px := py], Joined(rep, px, py), Deepened(rep, depth, px, depth[py]))
  {
    var parent', rep', depth' := parent[px := py], Joined(rep, px, py), Deepened(rep, depth, px, depth[py]);
    assert Placed(parent, rep, depth, px) && Placed(parent, rep, depth, py);
    forall y | 0 <= y < |parent| ensures Placed(parent', rep', depth', y) {
      assert Placed(parent, rep, depth, y) && Placed(parent, rep, depth, parent[y]) && Placed(parent, rep, depth, rep[y]);
    }
  }

  class UnionFind {
    const parent: array<int>
    ghost var rep: seq<int>
    ghost var depth: seq<nat>

    ghost predicate Valid()
      reads this, parent
    {
      Forest(parent[..], rep, depth)
    }

    /** Every element alone. */
    constructor (n: nat)
      ensures Valid() && fresh(parent) && |rep| == n
      ensures forall x :: 0 <= x < n ==> rep[x] == x
    {
      parent := new int[n](i => i);
      rep := seq(n, i => i);
      depth := seq(n, i => 0);
    }

    /** The root of x.  Links change, the partition does not. */
    method Find(x: int) returns (r: int)
      requires Valid() && 0 <= x < |rep|
      modifies parent
      ensures Valid() && r == rep[x]
      decreases depth[x]
    {
      assert Placed(parent[..], rep, depth, x);
      if parent[x] != x {
        var root := Find(parent[x]);
        Compressed(parent[..], rep, depth, x) by { assert Placed(parent[..], rep, depth, x); }
        parent[x] := root;
      }
      r := parent[x];
    }

    /** Joins the classes of x and y, and touches no other. */
    method Union(x: int, y: int)
      requires Valid() && 0 <= x < |rep| && 0 <= y < |rep|
      modifies this, parent
      ensures Valid() && rep == Joined(old(rep), old(rep)[x], old(rep)[y])
    {
      var px := Find(x);
      var py := Find(y);
      assert Placed(parent[..], rep, depth, x) && Placed(parent[..], rep, depth, y);
      if px != py {
        assert Placed(parent[..], rep, depth, px) && Placed(parent[..], rep, depth, py);
        Linked(parent[..], rep, depth, px, py);
        parent[px] := py;
        depth := Deepened(rep, depth, px, depth[py]);
        rep := Joined(rep, px, py);
      } else {
        assert Joined(rep, px, py) == rep;
      }
    }
  }
}
