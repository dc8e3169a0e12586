/** A snapshot's files as a tree of nodes in memory. */
module SnapshotTree {
  import opened Prelude
  import opened TreeEntries

  type Path = seq<bytes>

  class TreeNode {
    var dirs: map<bytes, TreeNode>
    var blobs: map<bytes, string>

    constructor ()
      ensures dirs == map[] && blobs == map[]
    {
      dirs, blobs := map[], map[];
    }
  }

  // ----------------------------------------------------------- path strings

  function NonEmpty(parts: seq<bytes>): (p: Path)
    ensures [] !in p
  {
    if parts == [] then []
    else NonEmpty(parts[..|parts| - 1]) + if parts[|parts| - 1] == [] then [] else [parts[|parts| - 1]]
  }

  /** The directories a path passes through. */
  function DirOf(path: bytes): Path {
    var parts := Split(path, SLASH);
    NonEmpty(parts[..|parts| - 1])
  }

  function BaseOf(path: bytes): bytes {
    var parts := Split(path, SLASH);
    parts[|parts| - 1]
  }

  /** Files by path once one more is written; a path that ends in a slash
      names no file. */
  function Written<V>(files: map<Path, V>, path: bytes, v: V): map<Path, V> {
    if BaseOf(path) == [] then files else files[DirOf(path) + [BaseOf(path)] := v]
  }

  /** Leaving out empty parts is leaving out nothing else. */
  lemma {:induction false} NonEmptyConcat(a: seq<bytes>, b: seq<bytes>)
    ensures NonEmpty(a + b) == NonEmpty(a) + NonEmpty(b)
  {
    if b == [] {
      assert a + b == a;
    } else {
      var n := |b| - 1;
      assert (a + b)[..|a + b| - 1] == a + b[..n];
      NonEmptyConcat(a, b[..n]);
    }
  }

  lemma {:induction false} NothingEmpty(parts: seq<bytes>)
    requires [] !in parts
    ensures NonEmpty(parts) == parts
  {
    if parts != [] {
      var n := |parts| - 1;
      assert parts == parts[..n] + [parts[n]];
      NothingEmpty(parts[..n]);
    }
  }

  /** Where a written path ends up: its last part is the file's name, and the path
      is its non-empty parts in order. */
  ghost predicate LandsAt(path: bytes, p: Path) {
    var parts := Split(path, SLASH);
    parts[|parts| - 1] != [] && p == NonEmpty(parts)
  }

  /** Writing changes exactly the file the path lands at, if it lands anywhere. */
  lemma WrittenLands<V>(files: map<Path, V>, path: bytes, v: V, p: Path)
    ensures var more := Written(files, path, v);
            if LandsAt(path, p) then p in more && more[p] == v
            else (p in more <==> p in files) && (p in files ==> more[p] == files[p])
  {
    hide Split;
    var parts := Split(path, SLASH);
    var n := |parts| - 1;
    assert parts == parts[..n] + [parts[n]];
  }

  /** A path without empty parts lands at its parts, which make up the path again;
      so two such paths land at one place only if they are the same. */
  lemma CleanPathLands(path: bytes, p: Path)
    requires [] !in Split(path, SLASH)
    ensures LandsAt(path, p) <==> p == Split(path, SLASH)
    ensures LandsAt(path, p) ==> p != [] && Join(p, SLASH) == path
  {
    NothingEmpty(Split(path, SLASH));
    SplitJoins(path, SLASH);
  }

  // -------------------------------------------------------- representation

  ghost predicate Shape(root: TreeNode, nodes: map<Path, TreeNode>) {
    && [] in nodes && nodes[[]] == root
    && (forall p :: p in nodes && p != [] ==> p[..|p| - 1] in nodes)
    && (forall p, q :: p in nodes && q in nodes && nodes[p] == nodes[q] ==> p == q)
  }

  ghost predicate Linked(p: Path, dirs: map<bytes, TreeNode>, nodes: map<Path, TreeNode>) {
    forall n :: if n in dirs then p + [n] in nodes && dirs[n] == nodes[p + [n]] else p + [n] !in nodes
  }

  ghost predicate Holding(p: Path, blobs: map<bytes, string>, files: map<Path, string>) {
    forall n :: if n in blobs then p + [n] in files && blobs[n] == files[p + [n]] else p + [n] !in files
  }

  /** nodes holds each directory's node by its path from the root, files the
      object names by the files' paths. */
  ghost predicate Represents(root: TreeNode, nodes: map<Path, TreeNode>, files: map<Path, string>)
    reads nodes.Values
  {
    && Shape(root, nodes)
    && (forall p :: p in nodes ==> Linked(p, nodes[p].dirs, nodes) && Holding(p, nodes[p].blobs, files))
    && (forall f :: f in files ==> f != [] && f[..|f| - 1] in nodes)
  }

  lemma ShapeMore(root: TreeNode, nodes: map<Path, TreeNode>, at: Path, part: bytes, child: TreeNode)
    requires Shape(root, nodes) && at in nodes && child !in nodes.Values && at + [part] !in nodes
    ensures Shape(root, nodes[at + [part] := child])
  {
    var q := at + [part];
    assert q[..|q| - 1] == at;
    forall p | p in nodes ensures nodes[p] != child { assert nodes[p] in nodes.Values; }
  }

  lemma NothingBelow(root: TreeNode, nodes: map<Path, TreeNode>, files: map<Path, string>, p: Path, n: bytes)
    requires Represents(root, nodes, files) && p !in nodes
    ensures p + [n] !in nodes && p + [n] !in files
  {
    var q := p + [n];
    assert q[..|q| - 1] == p;
  }

  lemma LeafLinked(p: Path, nodes: map<Path, TreeNode>, leaf: TreeNode, files: map<Path, string>)
    requires forall n :: p + [n] !in nodes && p + [n] !in files
    ensures Linked(p, map[], nodes[p := leaf]) && Holding(p, map[], files)
  {
    forall n ensures p + [n] !in nodes[p := leaf] { assert |p + [n]| != |p|; }
  }

  lemma SamePath(p: Path, n: bytes, q: Path, m: bytes)
    ensures p + [n] == q + [m] <==> p == q && n == m
  {
    if p + [n] == q + [m] {
      assert |p| == |q| && (p + [n])[..|p|] == p && (q + [m])[..|q|] == q;
      assert (p + [n])[|p|] == n && (q + [m])[|q|] == m;
    }
  }

  lemma LinkedMore(p: Path, dirs: map<bytes, TreeNode>, nodes: map<Path, TreeNode>, at: Path, part: bytes, child: TreeNode)
    requires Linked(p, dirs, nodes)
    ensures Linked(p, if p == at then dirs[part := child] else dirs, nodes[at + [part] := child])
  {
    forall n ensures p + [n] == at + [part] <==> p == at && n == part { SamePath(p, n, at, part); }
  }

  lemma HoldingMore(p: Path, blobs: map<bytes, string>, files: map<Path, string>, at: Path, name: bytes, oid: string)
    requires Holding(p, blobs, files)
    ensures Holding(p, if p == at then blobs[name := oid] else blobs, files[at + [name] := oid])
  {
    forall n ensures p + [n] == at + [name] <==> p == at && n == name { SamePath(p, n, at, name); }
  }

  /** The child of the node at a path, made when missing. */
  method Descend(root: TreeNode, node: TreeNode, part: bytes, ghost at: Path, ghost nodes: map<Path, TreeNode>, ghost files: map<Path, string>)
    returns (child: TreeNode, ghost nodes': map<Path, TreeNode>)
    requires Represents(root, nodes, files) && at in nodes && nodes[at] == node
    modifies node`dirs
    ensures Represents(root, nodes', files)
    ensures at + [part] in nodes' && nodes'[at + [part]] == child
    ensures nodes' == nodes || (fresh(child) && nodes' == nodes[at + [part] := child])
  {
    hide Shape, Holding, Linked;
    LinkedAt(at, node.dirs, nodes, part);
    if part in node.dirs {
      child := node.dirs[part];
      nodes' := nodes;
    } else {
      child := new TreeNode();
      Link(root, node, part, child, at, nodes, files);
      nodes' := nodes[at + [part] := child];
    }
  }

  method Link(ghost root: TreeNode, node: TreeNode, part: bytes, child: TreeNode, ghost at: Path, ghost nodes: map<Path, TreeNode>, ghost files: map<Path, string>)
    requires Represents(root, nodes, files) && at in nodes && nodes[at] == node && at + [part] !in nodes
    requires child !in nodes.Values && child.dirs == map[] && child.blobs == map[]
    modifies node`dirs
    ensures Represents(root, nodes[at + [part] := child], files)
  {
    hide Shape, Holding, Linked;
    GrowNodes(root, nodes, files, at, part, child);
    ghost var grown := nodes[at + [part] := child];
    ghost var dirs := node.dirs[part := child];
    label linking:
    node.dirs := node.dirs[part := child];
    forall p | p in grown ensures Linked(p, grown[p].dirs, grown) && Holding(p, grown[p].blobs, files) {
      if p == at + [part] {
        assert grown[p] == child;
      } else if p == at {
        assert grown[p].dirs == dirs;
      } else {
        assert grown[p] == nodes[p] != node;
        assert grown[p].dirs == old@linking(nodes[p].dirs);
      }
    }
  }

  lemma LinkedAt(p: Path, dirs: map<bytes, TreeNode>, nodes: map<Path, TreeNode>, n: bytes)
    requires Linked(p, dirs, nodes)
    ensures if n in dirs then p + [n] in nodes && dirs[n] == nodes[p + [n]] else p + [n] !in nodes
  {
  }

  /** What the new node and the old ones will satisfy once linked. */
  lemma GrowNodes(root: TreeNode, nodes: map<Path, TreeNode>, files: map<Path, string>, at: Path, part: bytes, child: TreeNode)
    requires Represents(root, nodes, files) && at in nodes && at + [part] !in nodes && child !in nodes.Values
    ensures var q := at + [part];
            var nodes' := nodes[q := child];
            && Shape(root, nodes')
            && Linked(q, map[], nodes') && Holding(q, map[], files)
            && (forall p :: p in nodes ==> nodes[p] != child && (nodes[p] == nodes[at] ==> p == at))
            && forall p :: p in nodes ==> Linked(p, if p == at then nodes[at].dirs[part := child] else nodes[p].dirs, nodes')
  {
    var q := at + [part];
    ShapeMore(root, nodes, at, part, child);
    forall n ensures q + [n] !in nodes && q + [n] !in files { NothingBelow(root, nodes, files, q, n); }
    LeafLinked(q, nodes, child, files);
    forall p | p in nodes
      ensures nodes[p] != child
      ensures Linked(p, if p == at then nodes[at].dirs[part := child] else nodes[p].dirs, nodes[q := child])
    {
      assert nodes[p] in nodes.Values;
      LinkedMore(p, nodes[p].dirs, nodes, at, part, child);
    }
  }

  lemma GrowFiles(root: TreeNode, nodes: map<Path, TreeNode>, files: map<Path, string>, at: Path, name: bytes, oid: string)
    requires Represents(root, nodes, files) && at in nodes
    ensures var files' := files[at + [name] := oid];
            && (forall f :: f in files' ==> f != [] && f[..|f| - 1] in nodes)
            && (forall p :: p in nodes ==> (nodes[p] == nodes[at] ==> p == at))
            && forall p :: p in nodes ==> Holding(p, if p == at then nodes[at].blobs[name := oid] else nodes[p].blobs, files')
  {
    var f := at + [name];
    assert f[..|f| - 1] == at;
    forall p | p in nodes ensures Holding(p, if p == at then nodes[at].blobs[name := oid] else nodes[p].blobs, files[at + [name] := oid]) {
      HoldingMore(p, nodes[p].blobs, files, at, name, oid);
    }
  }

  method SetBlob(ghost root: TreeNode, node: TreeNode, name: bytes, oid: string, ghost at: Path, ghost nodes: map<Path, TreeNode>, ghost files: map<Path, string>)
    requires Represents(root, nodes, files) && at in nodes && nodes[at] == node
    modifies node`blobs
    ensures Represents(root, nodes, files[at + [name] := oid])
  {
    hide Shape, Holding, Linked;
    GrowFiles(root, nodes, files, at, name, oid);
    node.blobs := node.blobs[name := oid];
  }

  /** The last write to a path wins; empty parts are skipped. */
  method InsertPath(root: TreeNode, path: bytes, oid: string, ghost nodes: map<Path, TreeNode>, ghost files: map<Path, string>)
    returns (ghost nodes': map<Path, TreeNode>)
    requires Represents(root, nodes, files)
    modifies nodes.Values
    ensures Represents(root, nodes', Written(files, path, oid))
    ensures forall p :: p in nodes' ==> (p in nodes && nodes'[p] == nodes[p]) || fresh(nodes'[p])
    ensures forall p :: p in nodes' ==> p in nodes || p <= DirOf(path)
  {
    hide Represents, Split;
    RootIsThere(root, nodes, files);
    var parts := Split(path, SLASH);
    var node := root;
    nodes' := nodes;
    ghost var at: Path := [];
    for i := 0 to |parts| - 1
      invariant at == NonEmpty(parts[..i])
      invariant Represents(root, nodes', files) && at in nodes' && nodes'[at] == node
      invariant forall p :: p in nodes' ==> (p in nodes && nodes'[p] == nodes[p]) || fresh(nodes'[p])
      invariant forall p :: p in nodes' ==> p in nodes || p <= at
    {
      var part := parts[i];
      assert parts[..i + 1][..i] == parts[..i];
      if part != [] {
        ghost var grown;
        node, grown := Descend(root, node, part, at, nodes', files);
        forall p | p in grown ensures p in nodes || p <= at + [part] {
          if p in nodes' && p !in nodes { assert p <= at; }
        }
        nodes' := grown;
        at := at + [part];
      }
    }
    var name := parts[|parts| - 1];
    if name != [] {
      SetBlob(root, node, name, oid, at, nodes', files);
    }
  }

  lemma RootIsThere(root: TreeNode, nodes: map<Path, TreeNode>, files: map<Path, string>)
    requires Represents(root, nodes, files)
    ensures [] in nodes && nodes[[]] == root
  {
  }

  method NewTree() returns (root: TreeNode, ghost nodes: map<Path, TreeNode>)
    ensures Represents(root, nodes, map[]) && nodes == map[[] := root] && fresh(root)
  {
    root := new TreeNode();
    nodes := map[[] := root];
    assert forall n: bytes :: [] + [n] != [];
  }
}
