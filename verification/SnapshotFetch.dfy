/** A ref's snapshot turned into objects, and what a fetch of it sends. */
module SnapshotFetch {
  import opened Prelude
  import opened TreeEntries
  import opened SnapshotTree
  import opened TreeObjects
  import opened GitGraph
  import opened GitGraphReach
  import opened CommitText
  import GitPack

  /** A tip that is not broken never panics at depth 1. */
  lemma NoPanicAtDepthOne(g: Graph, tip: string)
    requires tip in g && g[tip].Commit? && !g[tip].broken
    ensures !CommitPanics(g, tip, 1, 1, START)
  {
  }

  /** A built tree's name, or that of a snapshot's content. */
  ghost predicate Made(c: GitPack.Codec, tree: BuiltTree, contents: map<Path, bytes>, x: string) {
    || (exists t :: t in tree.objects && t.oid == x)
    || (exists p :: p in contents && x == GitPack.Oid(c, GitPack.BLOB, contents[p]))
  }

  /** The object map holds what was built. */
  ghost predicate Holds(c: GitPack.Codec, objects: ObjectMap, tree: BuiltTree, blobs: seq<GitPack.GitObject>, contents: map<Path, bytes>) {
    && Trees(c, tree.objects, true) && ClosedOver(c, tree, contents) && BlobsPresent(c, contents, blobs)
    && Present(objects, tree.objects) && Present(objects, blobs)
  }

  lemma MadeIsNoCommit(c: GitPack.Codec, objects: ObjectMap, tree: BuiltTree, blobs: seq<GitPack.GitObject>, contents: map<Path, bytes>,
                       x: string)
    requires Holds(c, objects, tree, blobs, contents) && Made(c, tree, contents, x)
    ensures x in objects && (objects[x].kind == GitPack.TREE || objects[x].kind == GitPack.BLOB)
    ensures objects[x].kind == GitPack.TREE ==> forall e :: e in ParseEntries(objects[x].data) ==> Made(c, tree, contents, e.oid)
  {
    hide ParseEntries, Sorted;
    if t :| t in tree.objects && t.oid == x {
      assert objects[x] == t;
    } else {
      var p :| p in contents && x == GitPack.Oid(c, GitPack.BLOB, contents[p]);
      assert GitPack.MakeObject(c, GitPack.BLOB, contents[p]) in blobs;
    }
  }

  lemma {:induction false} MadeReachesMade(c: GitPack.Codec, objects: ObjectMap, tree: BuiltTree, blobs: seq<GitPack.GitObject>,
                                           contents: map<Path, bytes>, p: seq<string>, n: nat)
    requires Holds(c, objects, tree, blobs, contents) && IsPath(GraphOf(objects), p) && n < |p| && Made(c, tree, contents, p[0])
    ensures Made(c, tree, contents, p[n])
  {
    hide ParseEntries, Holds, Made;
    if n > 0 {
      MadeReachesMade(c, objects, tree, blobs, contents, p, n - 1);
      MadeIsNoCommit(c, objects, tree, blobs, contents, p[n - 1]);
      var node := GraphOf(objects)[p[n - 1]];
      assert p[n - 1 + 1] in Links(GraphOf(objects), p[n - 1]);
      var i :| 0 <= i < |node.entries| && node.entries[i] == p[n];
      assert ParseEntries(objects[p[n - 1]].data)[i] in ParseEntries(objects[p[n - 1]].data);
    }
  }

  /** What was built is well typed wherever it is held. */
  lemma BuiltIsTyped(c: GitPack.Codec, objects: ObjectMap, tree: BuiltTree, blobs: seq<GitPack.GitObject>, contents: map<Path, bytes>)
    requires Holds(c, objects, tree, blobs, contents)
    ensures Typed(GraphOf(objects), tree.oid) && NotCommit(GraphOf(objects), tree.oid)
  {
    hide ParseEntries, Split;
    var g := GraphOf(objects);
    assert Made(c, tree, contents, tree.oid);
    hide Holds, Made;
    forall x | x in g && Reaches(g, tree.oid, x)
      ensures !g[x].Commit? && (g[x].Tree? ==> forall e :: e in g[x].entries ==> NotCommit(g, e))
    {
      var p :| IsPath(g, p) && p[0] == tree.oid && p[|p| - 1] == x;
      MadeReachesMade(c, objects, tree, blobs, contents, p, |p| - 1);
      MadeIsNoCommit(c, objects, tree, blobs, contents, x);
      if g[x].Tree? {
        forall e | e in g[x].entries ensures NotCommit(g, e) {
          var i :| 0 <= i < |g[x].entries| && g[x].entries[i] == e;
          assert ParseEntries(objects[x].data)[i] in ParseEntries(objects[x].data);
          MadeIsNoCommit(c, objects, tree, blobs, contents, e);
        }
      }
    }
    ReachesItself(g, tree.oid);
  }

  lemma RootCommitIsTyped(g: Graph, tip: string)
    requires tip in g && g[tip].Commit? && g[tip].parents == [] && g[tip].tree != ""
    requires Typed(g, g[tip].tree) && NotCommit(g, g[tip].tree)
    ensures Typed(g, tip)
  {
    forall x | x in g && Reaches(g, tip, x) ensures x == tip || Reaches(g, g[tip].tree, x) {
      var p :| IsPath(g, p) && p[0] == tip && p[|p| - 1] == x;
      if |p| > 1 {
        var q := p[1..];
        assert p[0 + 1] in Links(g, p[0]);
        forall i | 0 <= i < |q| - 1 ensures q[i + 1] in Links(g, q[i]) {
          assert p[i + 1 + 1] in Links(g, p[i + 1]);
        }
        assert IsPath(g, q) && q[0] == g[tip].tree && q[|q| - 1] == x;
      }
    }
  }

  /** From the commit made for a snapshot's tree, a shallow fetch of depth 1
      delivers the content of every file of the snapshot, whatever else the
      object map has; and so does the walk without a limit, if no parent line is
      read. */
  lemma SnapshotIsDelivered(c: GitPack.Codec, objects: ObjectMap, commit: GitPack.GitObject, refName: bytes, targetHex: bytes,
                            tree: BuiltTree, blobs: seq<GitPack.GitObject>, contents: map<Path, bytes>, path: Path)
    requires IsCanonical(tree.oid) && Serves(c, tree, blobs, contents) && Holds(c, objects, tree, blobs, contents)
    requires commit == GitPack.MakeObject(c, GitPack.COMMIT, CommitData(refName, targetHex, Bytes(tree.oid)))
    requires Present(objects, [commit]) && path in contents
    ensures var blob := GitPack.MakeObject(c, GitPack.BLOB, contents[path]);
            && blob.oid in objects && objects[blob.oid] == blob
            && !CommitPanics(GraphOf(objects), commit.oid, 1, 1, START)
            && blob.oid in Collected(GraphOf(objects), commit.oid, 1).result
            && (ParentsIn(commit.data) == [] ==> blob.oid in Collected(GraphOf(objects), commit.oid, 0).result)
  {
    hide Resolves, IsCanonical, CommitData, Collected, Links, Typed, GitPack.Oid, CommitPanics, ClosedOver, Split, ParseEntries;
    var g := GraphOf(objects);
    var blob := GitPack.MakeObject(c, GitPack.BLOB, contents[path]);
    CommitLinks(c, objects, commit, refName, targetHex, tree.oid);
    BuiltIsTyped(c, objects, tree, blobs, contents);
    PresentTreesAreStored(c, objects, tree.objects);
    assert Resolves(TreeStore(objects), tree.oid, path, blob.oid);
    ResolvedIsReachable(objects, tree.oid, path, blob.oid);
    ReachesThrough(g, commit.oid, tree.oid, blob.oid);
    assert blob in blobs;
    NoPanicAtDepthOne(g, commit.oid);
    DepthOne(g, commit.oid);
    if ParentsIn(commit.data) == [] {
      RootCommitIsTyped(g, commit.oid);
      CollectsExactlyTheReachable(g, commit.oid);
    }
  }

  // ---------------------------------------------------- fetching a snapshot

  /** No two of these objects share a name. */
  ghost predicate NoCollision(objects: seq<GitPack.GitObject>) {
    forall a, b :: a in objects && b in objects && a.oid == b.oid ==> a == b
  }

  /** The objects made for a ref's snapshot: blobs, trees and the commit. */
  method BuildRefSnapshot(c: GitPack.Codec, snapshot: seq<SnapshotFile>, extract: bytes -> Option<bytes>, refName: bytes, targetHex: bytes)
    returns (commit: GitPack.GitObject, made: seq<GitPack.GitObject>)
    requires GitPack.Lawful(c)
    ensures (forall f :: f in snapshot ==> NUL !in f.path) ==>
              forall objects :: Present(objects, [commit]) && Present(objects, made) ==>
                Delivers(c, objects, commit, FilesOf(snapshot, extract))
    ensures BlobsPresent(c, FilesOf(snapshot, extract), made)
  {
    hide GitPack.Lawful, FilesOf, CommitData, Bytes, Serves, ClosedOver, Trees, IsCanonical, BlobsPresent, Delivers;
    var tree, blobs := BuildTreeFromFiles(c, snapshot, extract);
    made := blobs + tree.value.objects;
    BlobsIn(c, FilesOf(snapshot, extract), blobs, tree.value.objects);
    commit := BuildCommitObject(c, refName, targetHex, tree.value.oid);
    if forall f :: f in snapshot ==> NUL !in f.path {
      forall objects | Present(objects, [commit]) && Present(objects, made)
        ensures Delivers(c, objects, commit, FilesOf(snapshot, extract))
      {
        AllDelivered(c, objects, commit, refName, targetHex, tree.value, blobs, FilesOf(snapshot, extract));
      }
    }
  }

  lemma BlobsIn(c: GitPack.Codec, contents: map<Path, bytes>, blobs: seq<GitPack.GitObject>, more: seq<GitPack.GitObject>)
    requires BlobsPresent(c, contents, blobs)
    ensures BlobsPresent(c, contents, blobs + more)
  {
  }

  /** A shallow fetch of the commit returns it and the content of every file. */
  ghost predicate Delivers(c: GitPack.Codec, objects: ObjectMap, commit: GitPack.GitObject, contents: map<Path, bytes>) {
    && !CommitPanics(GraphOf(objects), commit.oid, 1, 1, START)
    && commit.oid in Collected(GraphOf(objects), commit.oid, 1).result
    && forall p :: p in contents ==>
         var blob := GitPack.MakeObject(c, GitPack.BLOB, contents[p]);
         && blob.oid in Collected(GraphOf(objects), commit.oid, 1).result
         && blob.oid in objects && objects[blob.oid] == blob
  }

  lemma AllDelivered(c: GitPack.Codec, objects: ObjectMap, commit: GitPack.GitObject, refName: bytes, targetHex: bytes,
                     tree: BuiltTree, blobs: seq<GitPack.GitObject>, contents: map<Path, bytes>)
    requires IsCanonical(tree.oid) && Trees(c, tree.objects, true) && Serves(c, tree, blobs, contents) && ClosedOver(c, tree, contents)
    requires BlobsPresent(c, contents, blobs) && Present(objects, blobs + tree.objects) && Present(objects, [commit])
    requires commit == GitPack.MakeObject(c, GitPack.COMMIT, CommitData(refName, targetHex, Bytes(tree.oid)))
    ensures Delivers(c, objects, commit, contents)
  {
    hide IsCanonical, CommitData, Collected, Typed, CommitPanics, ClosedOver, Serves, Trees, Split, ParseEntries, Bytes, BlobsPresent;
    assert Present(objects, blobs) && Present(objects, tree.objects);
    CommitLinks(c, objects, commit, refName, targetHex, tree.oid);
    BuiltIsTyped(c, objects, tree, blobs, contents);
    NoPanicAtDepthOne(GraphOf(objects), commit.oid);
    DepthOne(GraphOf(objects), commit.oid);
    forall p | p in contents
      ensures var blob := GitPack.MakeObject(c, GitPack.BLOB, contents[p]);
              && blob.oid in Collected(GraphOf(objects), commit.oid, 1).result
              && blob.oid in objects && objects[blob.oid] == blob
    {
      SnapshotIsDelivered(c, objects, commit, refName, targetHex, tree, blobs, contents, p);
    }
  }

  /** The objects of a ref by name, the last of each name. */
  function AllOf(commit: GitPack.GitObject, made: seq<GitPack.GitObject>): ObjectMap {
    if made == [] then map[commit.oid := commit]
    else
      var n := |made| - 1;
      AllOf(commit, made[..n])[made[n].oid := made[n]]
  }

  lemma {:induction false} AllOfHolds(commit: GitPack.GitObject, made: seq<GitPack.GitObject>)
    ensures commit.oid in AllOf(commit, made) && forall o :: o in made ==> o.oid in AllOf(commit, made)
    ensures forall oid :: oid in AllOf(commit, made) ==> AllOf(commit, made)[oid].oid == oid && AllOf(commit, made)[oid] in [commit] + made
  {
    if made != [] {
      var n := |made| - 1;
      AllOfHolds(commit, made[..n]);
      assert made == made[..n] + [made[n]];
    }
  }

  lemma AllOfIsPresent(commit: GitPack.GitObject, made: seq<GitPack.GitObject>)
    requires NoCollision([commit] + made)
    ensures Present(AllOf(commit, made), [commit]) && Present(AllOf(commit, made), made)
  {
    hide AllOf;
    AllOfHolds(commit, made);
  }

  function ByName(objects: ObjectMap, oids: seq<string>): seq<GitPack.GitObject>
    requires forall oid :: oid in oids ==> oid in objects
  {
    seq(|oids|, i requires 0 <= i < |oids| => objects[oids[i]])
  }

  predicate HasName(s: seq<GitPack.GitObject>, oid: string) {
    exists o :: o in s && o.oid == oid
  }

  /** The first of each name, in order. */
  function FirstOfName(all: seq<GitPack.GitObject>): seq<GitPack.GitObject> {
    if all == [] then []
    else
      var n := |all| - 1;
      var before := FirstOfName(all[..n]);
      if HasName(before, all[n].oid) then before else before + [all[n]]
  }

  ghost predicate OneOfEachName(sent: seq<GitPack.GitObject>) {
    forall i, j :: 0 <= i < j < |sent| ==> sent[i].oid != sent[j].oid
  }

  ghost predicate NamesOf(sent: seq<GitPack.GitObject>, all: seq<GitPack.GitObject>) {
    && (forall o :: o in sent ==> o in all)
    && (forall o :: o in all ==> HasName(sent, o.oid))
  }

  lemma {:induction false} FirstOfNameCovers(all: seq<GitPack.GitObject>)
    ensures NamesOf(FirstOfName(all), all) && OneOfEachName(FirstOfName(all))
  {
    hide HasName, NamesOf, OneOfEachName;
    if all == [] {
      NoNames();
    } else {
      var n := |all| - 1;
      FirstOfNameCovers(all[..n]);
      NameMore(FirstOfName(all[..n]), all[..n], all[n]);
      assert all == all[..n] + [all[n]];
    }
  }

  lemma NoNames()
    ensures NamesOf([], []) && OneOfEachName([])
  {
  }

  lemma NameMore(sent: seq<GitPack.GitObject>, all: seq<GitPack.GitObject>, o: GitPack.GitObject)
    requires NamesOf(sent, all) && OneOfEachName(sent)
    ensures var more := if HasName(sent, o.oid) then sent else sent + [o];
            NamesOf(more, all + [o]) && OneOfEachName(more)
  {
    if !HasName(sent, o.oid) {
      forall a | a in all ensures HasName(sent + [o], a.oid) { NameStays(sent, o, a.oid); }
      NameStays(sent, o, o.oid);
    }
  }

  lemma NameStays(sent: seq<GitPack.GitObject>, o: GitPack.GitObject, oid: string)
    ensures HasName(sent + [o], oid) <==> HasName(sent, oid) || o.oid == oid
  {
    if s :| s in sent && s.oid == oid { assert s in sent + [o]; }
    if o.oid == oid { assert o in sent + [o]; }
  }

  method AllObjects(commit: GitPack.GitObject, made: seq<GitPack.GitObject>) returns (objects: ObjectMap)
    ensures objects == AllOf(commit, made)
  {
    objects := map[commit.oid := commit];
    for i := 0 to |made|
      invariant objects == AllOf(commit, made[..i])
    {
      assert made[..i + 1][..i] == made[..i];
      objects := objects[made[i].oid := made[i]];
    }
    assert made[..|made|] == made;
  }

  method OneOfEach(all: seq<GitPack.GitObject>) returns (objects: seq<GitPack.GitObject>)
    ensures objects == FirstOfName(all)
  {
    hide HasName;
    objects := [];
    var seen: set<string> := {};
    NothingHasName();
    for i := 0 to |all|
      invariant objects == FirstOfName(all[..i]) && forall oid :: oid in seen <==> HasName(objects, oid)
    {
      assert all[..i + 1][..i] == all[..i];
      if all[i].oid !in seen {
        forall oid ensures HasName(objects + [all[i]], oid) <==> HasName(objects, oid) || all[i].oid == oid {
          NameStays(objects, all[i], oid);
        }
        seen := seen + {all[i].oid};
        objects := objects + [all[i]];
      }
    }
    assert all[..|all|] == all;
  }

  lemma NothingHasName()
    ensures forall oid :: !HasName([], oid)
  {
  }

  /** What is sent for one wanted ref: with a depth what the walk collects, without
      one the ref's objects as they are, one of each name. */
  method ObjectsFor(commit: GitPack.GitObject, made: seq<GitPack.GitObject>, depth: nat)
    returns (sent: seq<GitPack.GitObject>, shallow: seq<string>, panicked: bool)
    ensures panicked <==> depth > 0 && CommitPanics(GraphOf(AllOf(commit, made)), commit.oid, 1, depth, START)
    ensures panicked ==> sent == []
    ensures depth == 0 ==> sent == FirstOfName([commit] + made) && shallow == []
    ensures depth > 0 && !panicked ==>
              var w := Collected(GraphOf(AllOf(commit, made)), commit.oid, depth);
              (forall oid :: oid in w.result ==> oid in AllOf(commit, made)) && sent == ByName(AllOf(commit, made), w.result) && shallow == w.shallow
  {
    hide CommitPanics, Collected, AllOf, FirstOfName, NodeOf;
    if depth == 0 {
      sent := OneOfEach([commit] + made);
      return sent, [], false;
    }
    var objects := AllObjects(commit, made);
    var collected;
    collected, shallow, panicked := CollectCommitObjectsWithDepth(GraphOf(objects), commit.oid, depth);
    sent := [];
    if panicked { return; }
    CollectionIsSound(GraphOf(objects), commit.oid, depth);
    assert forall oid :: oid in collected ==> oid in objects;
    for i := 0 to |collected|
      invariant sent == ByName(objects, collected[..i])
    {
      sent := sent + [objects[collected[i]]];
    }
    assert collected[..|collected|] == collected;
  }

  /** A fetch from a snapshot, of depth 1 or without a depth, sends the commit and
      the content of every file, and nothing that was not built; no name twice. */
  method FetchSnapshot(c: GitPack.Codec, snapshot: seq<SnapshotFile>, extract: bytes -> Option<bytes>, refName: bytes, targetHex: bytes, depth: nat)
    returns (commit: GitPack.GitObject, made: seq<GitPack.GitObject>, sent: seq<GitPack.GitObject>, panicked: bool)
    requires GitPack.Lawful(c) && depth <= 1
    ensures forall o :: o in sent ==> o in [commit] + made
    ensures OneOfEachName(sent)
    ensures (forall f :: f in snapshot ==> NUL !in f.path) && NoCollision([commit] + made) ==>
              && !panicked && commit in sent && ContentsIn(c, FilesOf(snapshot, extract), sent)
              && WritesIn(c, snapshot, extract, sent)
  {
    hide GitPack.Lawful, FilesOf, Delivers, AllOf, ByName, FirstOfName, Collected, CommitPanics, ContentsIn, WritesIn, BlobsPresent, Present, NoCollision;
    commit, made := BuildRefSnapshot(c, snapshot, extract, refName, targetHex);
    var shallow;
    sent, shallow, panicked := ObjectsFor(commit, made, depth);
    if depth == 0 {
      FirstOfNameCovers([commit] + made);
      if NoCollision([commit] + made) { SentWhole(c, commit, made, FilesOf(snapshot, extract)); }
    } else if !panicked {
      OnlyOnce(commit, made, depth);
    }
    if depth == 1 && NoCollision([commit] + made) && forall f :: f in snapshot ==> NUL !in f.path {
      AllOfIsPresent(commit, made);
      SentShallow(c, commit, made, FilesOf(snapshot, extract));
    }
    if ContentsIn(c, FilesOf(snapshot, extract), sent) { ContentsAreWrites(c, snapshot, extract, sent); }
  }

  /** The content of every entry that no later readable one overwrites. */
  ghost predicate WritesIn(c: GitPack.Codec, snapshot: seq<SnapshotFile>, extract: bytes -> Option<bytes>, sent: seq<GitPack.GitObject>) {
    forall i, p, content :: LastWrite(snapshot, extract, i, p, content) ==> GitPack.MakeObject(c, GitPack.BLOB, content) in sent
  }

  lemma ContentsAreWrites(c: GitPack.Codec, snapshot: seq<SnapshotFile>, extract: bytes -> Option<bytes>, sent: seq<GitPack.GitObject>)
    requires ContentsIn(c, FilesOf(snapshot, extract), sent)
    ensures WritesIn(c, snapshot, extract, sent)
  {
    hide LastWrite, FilesOf;
    forall i, p, content | LastWrite(snapshot, extract, i, p, content) ensures GitPack.MakeObject(c, GitPack.BLOB, content) in sent {
      FilesAreLastWrites(snapshot, extract, p, content);
    }
  }

  lemma OnlyOnce(commit: GitPack.GitObject, made: seq<GitPack.GitObject>, depth: nat)
    ensures var r := Collected(GraphOf(AllOf(commit, made)), commit.oid, depth).result;
            && (forall oid :: oid in r ==> oid in AllOf(commit, made))
            && (forall o :: o in ByName(AllOf(commit, made), r) ==> o in [commit] + made)
            && OneOfEachName(ByName(AllOf(commit, made), r))
  {
    hide AllOf, Collected;
    var all := AllOf(commit, made);
    AllOfHolds(commit, made);
    CollectionIsSound(GraphOf(all), commit.oid, depth);
    var r := Collected(GraphOf(all), commit.oid, depth).result;
    assert forall oid :: oid in r ==> oid in all;
    assert forall i :: 0 <= i < |r| ==> r[i] in r && ByName(all, r)[i].oid == r[i];
  }

  lemma SentShallow(c: GitPack.Codec, commit: GitPack.GitObject, made: seq<GitPack.GitObject>, contents: map<Path, bytes>)
    requires Delivers(c, AllOf(commit, made), commit, contents) && Present(AllOf(commit, made), [commit])
    ensures !CommitPanics(GraphOf(AllOf(commit, made)), commit.oid, 1, 1, START)
    ensures var r := Collected(GraphOf(AllOf(commit, made)), commit.oid, 1).result;
            (forall oid :: oid in r ==> oid in AllOf(commit, made)) ==>
              commit in ByName(AllOf(commit, made), r) && ContentsIn(c, contents, ByName(AllOf(commit, made), r))
  {
    hide AllOf, Collected, CommitPanics;
    var all := AllOf(commit, made);
    var r := Collected(GraphOf(all), commit.oid, 1).result;
    assert commit in [commit];
    if forall oid :: oid in r ==> oid in all {
      NamedIsThere(all, r, commit.oid);
      forall p | p in contents ensures GitPack.MakeObject(c, GitPack.BLOB, contents[p]) in ByName(all, r) {
        NamedIsThere(all, r, GitPack.Oid(c, GitPack.BLOB, contents[p]));
      }
    }
  }

  lemma NamedIsThere(objects: ObjectMap, oids: seq<string>, oid: string)
    requires oid in oids && forall o :: o in oids ==> o in objects
    ensures objects[oid] in ByName(objects, oids)
  {
    var i :| 0 <= i < |oids| && oids[i] == oid;
    assert ByName(objects, oids)[i] == objects[oid];
  }

  lemma SentWhole(c: GitPack.Codec, commit: GitPack.GitObject, made: seq<GitPack.GitObject>, contents: map<Path, bytes>)
    requires NoCollision([commit] + made) && BlobsPresent(c, contents, made)
    ensures commit in FirstOfName([commit] + made) && ContentsIn(c, contents, FirstOfName([commit] + made))
  {
    hide FirstOfName;
    var all := [commit] + made;
    FirstOfNameCovers(all);
    forall o | o in all ensures o in FirstOfName(all) {
      assert HasName(FirstOfName(all), o.oid);
      var s :| s in FirstOfName(all) && s.oid == o.oid;
      assert s == o;
    }
    assert forall o :: o in made ==> o in all;
  }

  ghost predicate ContentsIn(c: GitPack.Codec, contents: map<Path, bytes>, sent: seq<GitPack.GitObject>) {
    forall p :: p in contents ==> GitPack.MakeObject(c, GitPack.BLOB, contents[p]) in sent
  }
}
