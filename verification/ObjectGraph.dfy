/** The object graph as the bytes of commits and trees have it, and collection
    in those terms. */
module ObjectGraph {
  import opened Prelude
  import opened TreeEntries
  import opened GitGraph
  import opened GitGraphReach
  import opened GitGraphDepth
  import opened CommitText
  import GitPack

  // ------------------------------------------------------------------- lines

  predicate BeginsWith(line: bytes, text: string) {
    |line| >= |text| && forall k :: 0 <= k < |text| ==> line[k] as int == text[k] as int
  }

  /** The forty bytes from a place on, as text. */
  function NameAt(line: bytes, from: nat): string
    requires |line| >= from + 40
  {
    seq(40, k requires 0 <= k < 40 => line[from + k] as char)
  }

  predicate IsParentLine(line: bytes) {
    BeginsWith(line, "parent ") && |line| >= 47
  }

  /** The parent line at a place names this parent. */
  ghost predicate NamesParent(lines: seq<bytes>, place: nat, parent: string) {
    place < |lines| && IsParentLine(lines[place]) && parent == NameAt(lines[place], 7)
  }

  /** places are those of all parent lines, in order, and the names are theirs. */
  ghost predicate ParentsAt(lines: seq<bytes>, parents: seq<string>, places: seq<nat>) {
    && |places| == |parents|
    && (forall j, k :: 0 <= j < k < |places| ==> places[j] < places[k])
    && (forall k :: 0 <= k < |places| ==> NamesParent(lines, places[k], parents[k]))
    && (forall i :: 0 <= i < |lines| && IsParentLine(lines[i]) ==> i in places)
  }

  lemma PrefixesAreText(line: bytes)
    ensures PARENT_PREFIX <= line <==> BeginsWith(line, "parent ")
    ensures TREE_PREFIX <= line <==> BeginsWith(line, "tree ")
  {
    forall k | 0 <= k < 7 ensures PARENT_PREFIX[k] as int == "parent "[k] as int { }
    forall k | 0 <= k < 5 ensures TREE_PREFIX[k] as int == "tree "[k] as int { }
  }

  lemma NamesAreText(line: bytes, from: nat)
    requires |line| >= from + 40
    ensures Text(line[from..from + 40]) == NameAt(line, from)
  {
  }

  /** The parents read are the names of all parent lines, in line order. */
  lemma {:induction false} ParentsAreTheLines(lines: seq<bytes>) returns (places: seq<nat>)
    ensures ParentsAt(lines, ParentsOf(lines), places)
  {
    hide IsParentLine;
    if lines == [] {
      places := [];
    } else {
      var rest := ParentsAreTheLines(lines[1..]);
      places := AfterFirst(lines, rest);
    }
  }

  lemma AfterFirst(lines: seq<bytes>, rest: seq<nat>) returns (places: seq<nat>)
    requires lines != [] && ParentsAt(lines[1..], ParentsOf(lines[1..]), rest)
    ensures ParentsAt(lines, ParentsOf(lines), places)
  {
    FirstParent(lines);
    var names := ParentsOf(lines[1..]);
    hide ParentsOf, IsParentLine;
    if IsParentLine(lines[0]) {
      places := [0] + Shifted(rest);
      WithFirst(lines, names, rest);
    } else {
      places := Shifted(rest);
      WithoutFirst(lines, names, rest);
      assert [] + names == names;
    }
  }

  lemma FirstParent(lines: seq<bytes>)
    requires lines != []
    ensures ParentsOf(lines) == (if IsParentLine(lines[0]) then [NameAt(lines[0], 7)] else []) + ParentsOf(lines[1..])
  {
    PrefixesAreText(lines[0]);
    if IsParentLine(lines[0]) { NamesAreText(lines[0], 7); }
  }

  function Shifted(places: seq<nat>): seq<nat> {
    seq(|places|, k requires 0 <= k < |places| => places[k] + 1)
  }

  lemma ShiftedMember(lines: seq<bytes>, names: seq<string>, rest: seq<nat>, i: nat)
    requires lines != [] && ParentsAt(lines[1..], names, rest) && 1 <= i < |lines| && IsParentLine(lines[i])
    ensures i in Shifted(rest)
  {
    hide IsParentLine;
    assert lines[1..][i - 1] == lines[i];
    var k :| 0 <= k < |rest| && rest[k] == i - 1;
    assert Shifted(rest)[k] == i;
  }

  lemma ShiftedAt(lines: seq<bytes>, names: seq<string>, rest: seq<nat>, k: nat)
    requires lines != [] && ParentsAt(lines[1..], names, rest) && k < |rest|
    ensures NamesParent(lines, rest[k] + 1, names[k])
  {
    hide IsParentLine;
    assert NamesParent(lines[1..], rest[k], names[k]);
    assert lines[1..][rest[k]] == lines[rest[k] + 1];
  }

  lemma WithoutFirst(lines: seq<bytes>, names: seq<string>, rest: seq<nat>)
    requires lines != [] && ParentsAt(lines[1..], names, rest) && !IsParentLine(lines[0])
    ensures ParentsAt(lines, names, Shifted(rest))
  {
    hide IsParentLine, NamesParent;
    forall i | 0 <= i < |lines| && IsParentLine(lines[i]) ensures i in Shifted(rest) {
      ShiftedMember(lines, names, rest, i);
    }
    forall k | 0 <= k < |rest| ensures NamesParent(lines, Shifted(rest)[k], names[k]) { ShiftedAt(lines, names, rest, k); }
  }

  lemma WithFirst(lines: seq<bytes>, names: seq<string>, rest: seq<nat>)
    requires lines != [] && ParentsAt(lines[1..], names, rest) && IsParentLine(lines[0])
    ensures ParentsAt(lines, [NameAt(lines[0], 7)] + names, [0] + Shifted(rest))
  {
    hide BeginsWith, NamesParent;
    var places, all := [0] + Shifted(rest), [NameAt(lines[0], 7)] + names;
    forall i | 0 <= i < |lines| && IsParentLine(lines[i]) ensures i in places {
      if i > 0 { ShiftedMember(lines, names, rest, i); }
    }
    assert NamesParent(lines, 0, all[0]) by { FirstIsNamed(lines); }
    forall k | 0 <= k < |places| ensures NamesParent(lines, places[k], all[k]) {
      if k > 0 { ShiftedAt(lines, names, rest, k - 1); }
    }
  }

  lemma FirstIsNamed(lines: seq<bytes>)
    requires lines != [] && IsParentLine(lines[0])
    ensures NamesParent(lines, 0, NameAt(lines[0], 7))
  {
  }

  /** The first line that begins like a tree line. */
  ghost predicate FirstTreeLine(lines: seq<bytes>, i: int) {
    0 <= i < |lines| && BeginsWith(lines[i], "tree ") && forall j :: 0 <= j < i ==> !BeginsWith(lines[j], "tree ")
  }

  /** It decides what is read, whatever follows it. */
  lemma {:induction false} TreeIsTheFirstLine(lines: seq<bytes>)
    ensures TreeOf(lines) == NoTree <==> forall i :: 0 <= i < |lines| ==> !BeginsWith(lines[i], "tree ")
    ensures forall i :: FirstTreeLine(lines, i) ==>
              TreeOf(lines) == if |lines[i]| < 45 then SlicePanic else Named(NameAt(lines[i], 5))
  {
    hide BeginsWith;
    if lines != [] {
      PrefixesAreText(lines[0]);
      TreeIsTheFirstLine(lines[1..]);
      if |lines[0]| >= 45 { NamesAreText(lines[0], 5); }
      if !BeginsWith(lines[0], "tree ") {
        forall i | FirstTreeLine(lines, i) ensures FirstTreeLine(lines[1..], i - 1) && lines[1..][i - 1] == lines[i] {
          forall j | 0 <= j < i - 1 ensures !BeginsWith(lines[1..][j], "tree ") { assert lines[1..][j] == lines[j + 1]; }
        }
        forall i | 0 <= i < |lines| - 1 ensures lines[1..][i] == lines[i + 1] { }
      }
    }
  }

  // ------------------------------------------------------------------- links

  /** From a commit to its tree, from a tree to what it lists. */
  ghost predicate TreeLink(objects: ObjectMap, x: string, y: string) {
    && x in objects
    && var o := objects[x];
       if o.kind == GitPack.COMMIT then
         var lines := Split(o.data, NEWLINE);
         exists i :: FirstTreeLine(lines, i) && |lines[i]| >= 45 && y == NameAt(lines[i], 5)
       else
         o.kind == GitPack.TREE && exists e :: e in ParseEntries(o.data) && e.oid == y
  }

  /** From a commit to a parent. */
  ghost predicate ParentLink(objects: ObjectMap, x: string, y: string) {
    && x in objects && objects[x].kind == GitPack.COMMIT
    && var lines := Split(objects[x].data, NEWLINE);
       exists i :: 0 <= i < |lines| && IsParentLine(lines[i]) && y == NameAt(lines[i], 7)
  }

  ghost predicate IsTrail(objects: ObjectMap, p: seq<string>) {
    p != [] && forall i :: 0 <= i < |p| - 1 ==> TreeLink(objects, p[i], p[i + 1]) || ParentLink(objects, p[i], p[i + 1])
  }

  ghost predicate LeadsTo(objects: ObjectMap, a: string, b: string) {
    exists p :: IsTrail(objects, p) && p[0] == a && p[|p| - 1] == b
  }

  /** The parents of an object's node are the names in its parent lines. */
  lemma ParentsInTheBytes(objects: ObjectMap, x: string, y: string)
    requires x in objects && objects[x].kind == GitPack.COMMIT
    ensures var node := GraphOf(objects)[x]; node.Commit? && (y in node.parents <==> ParentLink(objects, x, y))
  {
    hide Split, BeginsWith, ParentsOf, TreeOf;
    var lines := Split(objects[x].data, NEWLINE);
    var places := ParentsAreTheLines(lines);
    var parents := ParentsOf(lines);
    if y in parents {
      var k :| 0 <= k < |parents| && parents[k] == y;
      assert NamesParent(lines, places[k], y);
    }
    if i :| 0 <= i < |lines| && IsParentLine(lines[i]) && y == NameAt(lines[i], 7) {
      var k :| 0 <= k < |places| && places[k] == i;
      assert parents[k] == y;
    }
  }

  /** A node lists parents in the order of their lines, and what a tree lists in
      the order of its entries. */
  lemma NodeOrder(objects: ObjectMap, x: string) returns (places: seq<nat>)
    requires x in objects
    ensures objects[x].kind == GitPack.COMMIT ==>
              GraphOf(objects)[x].Commit? && ParentsAt(Split(objects[x].data, NEWLINE), GraphOf(objects)[x].parents, places)
    ensures objects[x].kind == GitPack.TREE ==>
              var node, entries := GraphOf(objects)[x], ParseEntries(objects[x].data);
              node.Tree? && |node.entries| == |entries| && forall i :: 0 <= i < |entries| ==> node.entries[i] == entries[i].oid
  {
    hide Split, ParseEntries, TreeOf, ParentsOf, ParentsAt;
    places := ParentsAreTheLines(Split(objects[x].data, NEWLINE));
  }

  lemma {:induction false} SomeTreeLine(lines: seq<bytes>, n: nat)
    requires n < |lines| && BeginsWith(lines[n], "tree ")
    ensures exists i :: FirstTreeLine(lines, i)
  {
    hide BeginsWith;
    if j :| 0 <= j < n && BeginsWith(lines[j], "tree ") {
      SomeTreeLine(lines, j);
    } else {
      assert FirstTreeLine(lines, n);
    }
  }

  /** The tree of a commit's node is the name in its first tree line; the node is
      broken if that line is too short for one. */
  lemma TreeInTheBytes(objects: ObjectMap, x: string, y: string)
    requires x in objects && objects[x].kind == GitPack.COMMIT
    ensures var node := GraphOf(objects)[x];
            && node.Commit? && (node.tree != "" && y == node.tree <==> TreeLink(objects, x, y))
            && (node.broken <==> HasShortTreeLine(objects, x))
  {
    hide Split, ParentsOf, TreeOf, BeginsWith;
    var lines := Split(objects[x].data, NEWLINE);
    TreeIsTheFirstLine(lines);
    if n :| 0 <= n < |lines| && BeginsWith(lines[n], "tree ") {
      SomeTreeLine(lines, n);
      var i :| FirstTreeLine(lines, i);
      if |lines[i]| >= 45 { assert |NameAt(lines[i], 5)| == 40; }
      forall k | FirstTreeLine(lines, k) ensures k == i { }
    }
  }

  /** A commit whose first tree line has no room for a name. */
  ghost predicate HasShortTreeLine(objects: ObjectMap, x: string) {
    && x in objects && objects[x].kind == GitPack.COMMIT
    && var lines := Split(objects[x].data, NEWLINE);
       exists i :: FirstTreeLine(lines, i) && |lines[i]| < 45
  }

  lemma EntriesInTheBytes(objects: ObjectMap, x: string, y: string)
    requires x in objects && objects[x].kind == GitPack.TREE
    ensures var node := GraphOf(objects)[x]; node.Tree? && (y in node.entries <==> TreeLink(objects, x, y))
  {
    hide ParseEntries;
    var entries := ParseEntries(objects[x].data);
    var node := GraphOf(objects)[x];
    if y in node.entries {
      var i :| 0 <= i < |node.entries| && node.entries[i] == y;
      assert entries[i] in entries;
    }
    if e :| e in entries && e.oid == y {
      var i :| 0 <= i < |entries| && entries[i] == e;
      assert node.entries[i] == y;
    }
  }

  /** The links that the walk follows are those in the bytes. */
  lemma LinksInTheBytes(objects: ObjectMap, x: string, y: string)
    ensures y in Links(GraphOf(objects), x) <==> TreeLink(objects, x, y) || ParentLink(objects, x, y)
  {
    hide TreeLink, ParentLink, NodeOf;
    OtherLinks(objects, x, y);
    if x in objects && objects[x].kind == GitPack.COMMIT {
      ParentsInTheBytes(objects, x, y);
      TreeInTheBytes(objects, x, y);
    } else if x in objects && objects[x].kind == GitPack.TREE {
      EntriesInTheBytes(objects, x, y);
    }
  }

  lemma OtherLinks(objects: ObjectMap, x: string, y: string)
    ensures x !in objects ==> !TreeLink(objects, x, y) && x !in GraphOf(objects)
    ensures x !in objects || objects[x].kind != GitPack.COMMIT ==> !ParentLink(objects, x, y)
    ensures x in objects && objects[x].kind != GitPack.COMMIT && objects[x].kind != GitPack.TREE ==>
              !TreeLink(objects, x, y) && x in GraphOf(objects) && GraphOf(objects)[x] == Blob
  {
    hide Split, ParseEntries, TreeOf, ParentsOf;
  }

  lemma TrailsArePaths(objects: ObjectMap, p: seq<string>)
    ensures IsTrail(objects, p) <==> IsPath(GraphOf(objects), p)
  {
    hide TreeLink, ParentLink, Links, GraphOf;
    forall i | 0 <= i < |p| - 1
      ensures p[i + 1] in Links(GraphOf(objects), p[i]) <==> TreeLink(objects, p[i], p[i + 1]) || ParentLink(objects, p[i], p[i + 1])
    {
      LinksInTheBytes(objects, p[i], p[i + 1]);
    }
  }

  lemma LeadingIsReaching(objects: ObjectMap, a: string, b: string)
    ensures LeadsTo(objects, a, b) <==> Reaches(GraphOf(objects), a, b)
  {
    hide TreeLink, ParentLink, Links, GraphOf;
    if p :| IsTrail(objects, p) && p[0] == a && p[|p| - 1] == b { TrailsArePaths(objects, p); }
    if p :| IsPath(GraphOf(objects), p) && p[0] == a && p[|p| - 1] == b { TrailsArePaths(objects, p); }
  }

  // -------------------------------------------------------------- collection

  ghost predicate IsCommit(objects: ObjectMap, x: string) {
    x in objects && objects[x].kind == GitPack.COMMIT
  }

  /** Of what the tip leads to: parents that are present are commits, trees and
      what they list are not. */
  ghost predicate WellTyped(objects: ObjectMap, tip: string) {
    forall x, y :: LeadsTo(objects, tip, x) && y in objects ==>
      && (ParentLink(objects, x, y) ==> IsCommit(objects, y))
      && (TreeLink(objects, x, y) ==> !IsCommit(objects, y))
  }

  lemma NodeKinds(objects: ObjectMap, x: string)
    ensures x in GraphOf(objects) <==> x in objects
    ensures x in objects ==> (GraphOf(objects)[x].Commit? <==> IsCommit(objects, x))
    ensures x in objects ==> (GraphOf(objects)[x].Tree? <==> objects[x].kind == GitPack.TREE)
  {
    hide Split, ParseEntries, TreeOf, ParentsOf;
  }

  lemma WellTypedIsTyped(objects: ObjectMap, tip: string)
    requires WellTyped(objects, tip)
    ensures Typed(GraphOf(objects), tip)
  {
    hide TreeLink, ParentLink, LeadsTo, Reaches, GraphOf, IsCommit;
    var g := GraphOf(objects);
    forall x | x in g && Reaches(g, tip, x)
      ensures match g[x]
              case Commit(tree, parents, _) => (tree != "" ==> NotCommit(g, tree)) && forall p :: p in parents ==> NotOther(g, p)
              case Tree(entries) => forall e :: e in entries ==> NotCommit(g, e)
              case Blob => true
    {
      LeadingIsReaching(objects, tip, x);
      TypedNode(objects, tip, x);
    }
  }

  lemma TypedNode(objects: ObjectMap, tip: string, x: string)
    requires WellTyped(objects, tip) && LeadsTo(objects, tip, x) && x in GraphOf(objects)
    ensures var g := GraphOf(objects);
            match g[x]
            case Commit(tree, parents, _) => (tree != "" ==> NotCommit(g, tree)) && forall p :: p in parents ==> NotOther(g, p)
            case Tree(entries) => forall e :: e in entries ==> NotCommit(g, e)
            case Blob => true
  {
    hide TreeLink, ParentLink, LeadsTo, GraphOf;
    var g := GraphOf(objects);
    NodeKinds(objects, x);
    match g[x] {
      case Commit(tree, parents, _) =>
        if tree != "" {
          TreeInTheBytes(objects, x, tree);
          NodeKinds(objects, tree);
        }
        forall p | p in parents ensures NotOther(g, p) {
          ParentsInTheBytes(objects, x, p);
          NodeKinds(objects, p);
        }
      case Tree(entries) =>
        forall e | e in entries ensures NotCommit(g, e) {
          EntriesInTheBytes(objects, x, e);
          NodeKinds(objects, e);
        }
      case Blob =>
    }
  }

  /** Collecting from an object map, in terms of the bytes of its objects: where
      what the tip leads to is well typed, the unlimited walk panics exactly when
      the tip leads to a commit with a short tree line, and otherwise returns
      exactly the present objects that the tip leads to. */
  lemma CollectsWhatTheBytesLeadTo(objects: ObjectMap, tip: string)
    requires WellTyped(objects, tip) && (tip in objects ==> IsCommit(objects, tip))
    ensures forall x :: x in Collected(GraphOf(objects), tip, 0).result <==> x in objects && LeadsTo(objects, tip, x)
    ensures CommitPanics(GraphOf(objects), tip, 1, 0, START) <==> exists c :: LeadsTo(objects, tip, c) && HasShortTreeLine(objects, c)
  {
    hide WellTyped, Typed, LeadsTo, Reaches, Collected, CommitPanics, GraphOf, HasShortTreeLine;
    var g := GraphOf(objects);
    WellTypedIsTyped(objects, tip);
    NodeKinds(objects, tip);
    CollectsExactlyTheReachable(g, tip);
    BrokenPanics(g, tip, 0);
    forall x ensures (x in g <==> x in objects) && (Reaches(g, tip, x) <==> LeadsTo(objects, tip, x)) {
      NodeKinds(objects, x);
      LeadingIsReaching(objects, tip, x);
    }
    forall c ensures c in g && g[c].Commit? && g[c].broken <==> HasShortTreeLine(objects, c) { BrokenInTheBytes(objects, c); }
  }

  lemma BrokenInTheBytes(objects: ObjectMap, c: string)
    ensures var g := GraphOf(objects); c in g && g[c].Commit? && g[c].broken <==> HasShortTreeLine(objects, c)
  {
    hide GraphOf;
    NodeKinds(objects, c);
    if IsCommit(objects, c) { TreeInTheBytes(objects, c, ""); }
  }
}
