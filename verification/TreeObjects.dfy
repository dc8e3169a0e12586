/** From the tree of nodes to content-addressed tree objects, and what any
    reader of those objects finds under each path. */
module TreeObjects {
  import opened Prelude
  import opened Hex
  import GitPack
  import opened TreeEntries
  import opened SnapshotTree

  type GitObject = GitPack.GitObject

  type Objects = seq<GitObject>

  /** An object store holding all of these objects under their names. */
  ghost predicate Stores(store: map<string, bytes>, objects: Objects) {
    forall o :: o in objects ==> o.oid in store && store[o.oid] == o.data
  }

  /** Following a path from the tree named oid, the blob's name is found. */
  ghost predicate Resolves(store: map<string, bytes>, oid: string, path: Path, blob: string)
    decreases |path|
  {
    && path != [] && oid in store
    && exists e :: e in ParseEntries(store[oid]) && e.name == path[0] &&
         if |path| == 1 then e.mode != DIR_MODE && e.oid == blob
         else e.mode == DIR_MODE && Resolves(store, e.oid, path[1..], blob)
  }

  /** The file is listed under the object name, in lower case. */
  ghost predicate Found(files: map<Path, string>, p: Path, blob: string) {
    p in files && OidBytes(files[p]).Some? && blob == Canonical(files[p])
  }

  /** In every store with these objects, exactly the files below at are found. */
  ghost predicate Faithful(objects: Objects, oid: string, at: Path, files: map<Path, string>) {
    forall store, r, blob :: Stores(store, objects) ==>
      (Resolves(store, oid, r, blob) <==> r != [] && Found(files, at + r, blob))
  }

  ghost predicate IsCanonical(oid: string) {
    OidBytes(oid).Some? && Canonical(oid) == oid
  }

  lemma FaithfulInMore(objects: Objects, more: Objects, oid: string, at: Path, files: map<Path, string>)
    requires Faithful(objects, oid, at, files) && forall o :: o in objects ==> o in more
    ensures Faithful(more, oid, at, files)
  {
    forall store, r, blob | Stores(store, more)
      ensures Resolves(store, oid, r, blob) <==> r != [] && Found(files, at + r, blob)
    {
      assert Stores(store, objects);
    }
  }

  /** What the entry list of the directory at a path has to say. */
  ghost predicate Dir(e: TreeEntry, at: Path, dirs: set<bytes>, files: map<Path, string>, objects: Objects) {
    e.mode == DIR_MODE && e.name in dirs && IsCanonical(e.oid) && Faithful(objects, e.oid, at + [e.name], files)
  }

  ghost predicate File(e: TreeEntry, at: Path, blobs: set<bytes>, files: map<Path, string>) {
    e.mode == FILE_MODE && e.name in blobs && at + [e.name] in files && files[at + [e.name]] == e.oid
  }

  ghost predicate Lists(entries: seq<TreeEntry>, at: Path, dirs: set<bytes>, blobs: set<bytes>, files: map<Path, string>, objects: Objects) {
    && (forall e :: e in entries ==> Dir(e, at, dirs, files, objects) || File(e, at, blobs, files))
    && (forall n :: n in dirs ==> exists e :: e in entries && e.name == n && Dir(e, at, dirs, files, objects))
    && (forall n :: n in blobs ==> exists e :: e in entries && e.name == n && File(e, at, blobs, files))
  }

  lemma ListsModes(entries: seq<TreeEntry>, at: Path, dirs: set<bytes>, blobs: set<bytes>, files: map<Path, string>, objects: Objects)
    requires Lists(entries, at, dirs, blobs, files, objects)
    ensures forall e :: e in entries ==> e.mode == DIR_MODE || e.mode == FILE_MODE
  {
    hide Faithful, IsCanonical;
  }

  /** One level: when the entries list what lies below, the tree object with
      those entries is faithful. */
  lemma ListedIsFaithful(entries: seq<TreeEntry>, at: Path, dirs: set<bytes>, blobs: set<bytes>, files: map<Path, string>,
                         objects: Objects, tree: GitObject)
    requires Lists(entries, at, dirs, blobs, files, objects)
    requires AllValid(entries) && tree.data == EntriesBytes(entries)
    requires forall e :: e in entries ==> NUL !in e.name
    requires forall n :: n in blobs <==> at + [n] in files
    requires forall r :: |r| > 1 && at + r in files ==> r[0] in dirs
    ensures Faithful(objects + [tree], tree.oid, at, files)
  {
    hide Found, EntriesBytes, ParseEntries, CanonicalEntries, Lists;
    ListsModes(entries, at, dirs, blobs, files, objects);
    ParsedEntries(entries);
    forall store, r, blob | Stores(store, objects + [tree])
      ensures Resolves(store, tree.oid, r, blob) <==>
                r != [] && Found(files, at + r, blob)
    {
      assert tree in objects + [tree];
      assert Stores(store, objects);
      if |r| == 1 {
        FileResolves(entries, at, dirs, blobs, files, objects, tree.oid, store, r, blob);
      } else if |r| > 1 {
        DirResolves(entries, at, dirs, blobs, files, objects, tree.oid, store, r, blob);
      }
    }
  }

  lemma ParsedEntries(entries: seq<TreeEntry>)
    requires AllValid(entries) && forall e :: e in entries ==> NUL !in e.name && (e.mode == DIR_MODE || e.mode == FILE_MODE)
    ensures ParseEntries(EntriesBytes(entries)) == CanonicalEntries(entries)
  {
    forall i | 0 <= i < |entries| ensures CleanEntry(entries[i]) { assert entries[i] in entries; }
    TreeRoundTrip(entries, []);
    assert EntriesBytes(entries) + [] == EntriesBytes(entries);
    assert ParseEntries([]) == [];
    assert CanonicalEntries(entries) + [] == CanonicalEntries(entries);
  }

  lemma CanonicalMember(entries: seq<TreeEntry>, c: TreeEntry)
    requires AllValid(entries)
    ensures c in CanonicalEntries(entries) <==> exists e :: e in entries && OidBytes(e.oid).Some? && c == e.(oid := Canonical(e.oid))
  {
    var cs := CanonicalEntries(entries);
    if c in cs {
      var i :| 0 <= i < |cs| && cs[i] == c;
      assert entries[i] in entries;
    }
    forall e | e in entries && OidBytes(e.oid).Some? && c == e.(oid := Canonical(e.oid)) ensures c in cs {
      var i :| 0 <= i < |entries| && entries[i] == e;
      assert cs[i] == c;
    }
  }

  lemma FileResolves(entries: seq<TreeEntry>, at: Path, dirs: set<bytes>, blobs: set<bytes>, files: map<Path, string>,
                     objects: Objects, oid: string, store: map<string, bytes>, r: Path, blob: string)
    requires Lists(entries, at, dirs, blobs, files, objects) && AllValid(entries)
    requires oid in store && ParseEntries(store[oid]) == CanonicalEntries(entries)
    requires forall n :: n in blobs <==> at + [n] in files
    requires |r| == 1
    ensures Resolves(store, oid, r, blob) <==> Found(files, at + r, blob)
  {
    hide Faithful, OidBytes, Canonical;
    assert r == [r[0]];
    if Resolves(store, oid, r, blob) {
      var c :| c in CanonicalEntries(entries) && c.name == r[0] && c.mode != DIR_MODE && c.oid == blob;
      CanonicalMember(entries, c);
      var e :| e in entries && OidBytes(e.oid).Some? && c == e.(oid := Canonical(e.oid));
      assert File(e, at, blobs, files);
    }
    if Found(files, at + r, blob) {
      var e :| e in entries && e.name == r[0] && File(e, at, blobs, files);
      var c := e.(oid := Canonical(e.oid));
      CanonicalMember(entries, c);
      assert c in ParseEntries(store[oid]) && c.mode != DIR_MODE;
    }
  }

  lemma DirFound(e: TreeEntry, at: Path, dirs: set<bytes>, files: map<Path, string>, objects: Objects,
                 store: map<string, bytes>, r: Path, blob: string)
    requires Dir(e, at, dirs, files, objects) && Stores(store, objects)
    requires |r| > 1 && r[0] == e.name
    ensures Resolves(store, e.oid, r[1..], blob) <==> Found(files, at + r, blob)
  {
    hide Resolves, Stores, Found;
    assert at + [e.name] + r[1..] == at + r;
    assert r[1..] != [];
  }

  lemma DirResolves(entries: seq<TreeEntry>, at: Path, dirs: set<bytes>, blobs: set<bytes>, files: map<Path, string>,
                    objects: Objects, oid: string, store: map<string, bytes>, r: Path, blob: string)
    requires Lists(entries, at, dirs, blobs, files, objects) && AllValid(entries) && Stores(store, objects)
    requires oid in store && ParseEntries(store[oid]) == CanonicalEntries(entries)
    requires |r| > 1 && (at + r in files ==> r[0] in dirs)
    ensures Resolves(store, oid, r, blob) <==> Found(files, at + r, blob)
  {
    hide OidBytes, Canonical, Stores, Faithful;
    if Resolves(store, oid, r, blob) {
      var c :| c in CanonicalEntries(entries) && c.name == r[0] && c.mode == DIR_MODE && Resolves(store, c.oid, r[1..], blob);
      CanonicalMember(entries, c);
      var e :| e in entries && OidBytes(e.oid).Some? && c == e.(oid := Canonical(e.oid));
      assert Dir(e, at, dirs, files, objects);
      DirFound(e, at, dirs, files, objects, store, r, blob);
    }
    if Found(files, at + r, blob) {
      var e :| e in entries && e.name == r[0] && Dir(e, at, dirs, files, objects);
      assert e == e.(oid := Canonical(e.oid));
      CanonicalMember(entries, e);
      DirFound(e, at, dirs, files, objects, store, r, blob);
      assert e in ParseEntries(store[oid]);
    }
  }

  // ---------------------------------------------------------------- building

  datatype BuiltTree = BuiltTree(oid: string, objects: Objects)

  ghost predicate AllValidBelow(files: map<Path, string>, at: Path) {
    forall f :: f in files && at < f ==> OidBytes(files[f]).Some?
  }

  /** No name holds the byte that ends names. */
  ghost predicate NamesClean(nodes: map<Path, TreeNode>, files: map<Path, string>) {
    && (forall p, n :: p in nodes && n in p ==> NUL !in n)
    && (forall f, n :: f in files && n in f ==> NUL !in n)
  }

  ghost function Below(nodes: map<Path, TreeNode>, at: Path): set<Path> {
    set p | p in nodes && at <= p
  }

  lemma BelowChild(nodes: map<Path, TreeNode>, at: Path, n: bytes)
    requires at in nodes
    ensures Below(nodes, at + [n]) < Below(nodes, at)
  {
    assert at in Below(nodes, at) && at !in Below(nodes, at + [n]);
    forall p | p in Below(nodes, at + [n]) ensures p in Below(nodes, at) { assert at <= at + [n] <= p; }
  }

  /** Canonically named trees, sorted when names are clean. */
  ghost predicate Trees(c: GitPack.Codec, objects: Objects, clean: bool) {
    forall o :: o in objects ==> o == GitPack.MakeObject(c, GitPack.TREE, o.data) && (clean ==> Sorted(ParseEntries(o.data)))
  }

  ghost predicate DirsDone(entries: seq<TreeEntry>, objects: Objects, at: Path, done: set<bytes>, files: map<Path, string>, clean: bool) {
    && (forall e :: e in entries ==>
          && e.name in done && e.mode == DIR_MODE && IsCanonical(e.oid)
          && (clean ==> Faithful(objects, e.oid, at + [e.name], files)))
    && (forall n :: n in done ==> exists e :: e in entries && e.name == n)
  }

  lemma DirsDoneMore(entries: seq<TreeEntry>, objects: Objects, at: Path, done: set<bytes>, files: map<Path, string>, clean: bool,
                     name: bytes, built: BuiltTree)
    requires DirsDone(entries, objects, at, done, files, clean)
    requires IsCanonical(built.oid) && (clean ==> Faithful(built.objects, built.oid, at + [name], files))
    ensures DirsDone(entries + [TreeEntry(DIR_MODE, name, built.oid)], objects + built.objects, at, done + {name}, files, clean)
  {
    hide Faithful, IsCanonical;
    var more := entries + [TreeEntry(DIR_MODE, name, built.oid)];
    if clean {
      forall e | e in entries ensures Faithful(objects + built.objects, e.oid, at + [e.name], files) {
        FaithfulInMore(objects, objects + built.objects, e.oid, at + [e.name], files);
      }
      FaithfulInMore(built.objects, objects + built.objects, built.oid, at + [name], files);
    }
    forall n | n in done + {name} ensures exists e :: e in more && e.name == n {
      if n == name {
        assert TreeEntry(DIR_MODE, name, built.oid) in more;
      } else {
        var e :| e in entries && e.name == n;
        assert e in more;
      }
    }
  }

  /** The name of one of the trees, or of a file's content. */
  ghost predicate Leads(objects: Objects, oid: string, files: map<Path, string>) {
    || (exists t :: t in objects && t.oid == oid)
    || (exists f :: Found(files, f, oid))
  }

  /** Nothing else is listed in the trees. */
  ghost predicate Closed(objects: Objects, files: map<Path, string>) {
    forall o, e :: o in objects && e in ParseEntries(o.data) ==> Leads(objects, e.oid, files)
  }

  ghost predicate Whole(tree: BuiltTree, files: map<Path, string>) {
    && Closed(tree.objects, files)
    && exists t :: t in tree.objects && t.oid == tree.oid
  }

  ghost predicate DirsWhole(entries: seq<TreeEntry>, objects: Objects, files: map<Path, string>) {
    && Closed(objects, files)
    && forall e :: e in entries ==> exists t :: t in objects && t.oid == e.oid
  }

  lemma ClosedConcat(a: Objects, b: Objects, files: map<Path, string>)
    requires Closed(a, files) && Closed(b, files)
    ensures Closed(a + b, files)
  {
    hide ParseEntries, Leads;
    forall o, e | o in a + b && e in ParseEntries(o.data) ensures Leads(a + b, e.oid, files) {
      LeadsInMore(a, b, e.oid, files);
    }
  }

  lemma LeadsInMore(a: Objects, b: Objects, oid: string, files: map<Path, string>)
    ensures Leads(a, oid, files) || Leads(b, oid, files) ==> Leads(a + b, oid, files)
  {
    hide Found;
    if t :| t in a && t.oid == oid { assert t in a + b; }
    if t :| t in b && t.oid == oid { assert t in a + b; }
  }

  lemma DirsWholeMore(entries: seq<TreeEntry>, objects: Objects, files: map<Path, string>, name: bytes, built: BuiltTree)
    requires DirsWhole(entries, objects, files) && Whole(built, files)
    ensures DirsWhole(entries + [TreeEntry(DIR_MODE, name, built.oid)], objects + built.objects, files)
  {
    hide Closed;
    ClosedConcat(objects, built.objects, files);
    forall e | e in entries ensures exists t :: t in objects + built.objects && t.oid == e.oid {
      var t :| t in objects && t.oid == e.oid;
      assert t in objects + built.objects;
    }
    var t :| t in built.objects && t.oid == built.oid;
    assert t in objects + built.objects;
  }

  lemma NoDirsWhole(files: map<Path, string>)
    ensures DirsWhole([], [], files)
  {
  }

  /** The level's own tree lists its directories' trees and its files. */
  lemma LevelIsWhole(ds: seq<TreeEntry>, bs: seq<TreeEntry>, entries: seq<TreeEntry>, at: Path, dirs: set<bytes>, blobs: map<bytes, string>,
                     files: map<Path, string>, objects: Objects, tree: GitObject)
    requires Lists(entries, at, dirs, blobs.Keys, files, objects) && DirsWhole(ds, objects, files) && BlobsListed(bs, blobs)
    requires multiset(entries) == multiset(ds + bs)
    requires AllValid(entries) && ParseEntries(tree.data) == CanonicalEntries(entries)
    ensures Whole(BuiltTree(tree.oid, objects + [tree]), files)
  {
    hide ParseEntries, CanonicalEntries, Leads, OidBytes, Canonical, Faithful;
    SameMembers(entries, ds + bs);
    forall o, e | o in objects + [tree] && e in ParseEntries(o.data) ensures Leads(objects + [tree], e.oid, files) {
      if o in objects {
        LeadsInMore(objects, [tree], e.oid, files);
      } else {
        CanonicalMember(entries, e);
        var was :| was in entries && OidBytes(was.oid).Some? && e == was.(oid := Canonical(was.oid));
        EntryLeads(was, at, dirs, blobs.Keys, files, objects, ds, bs, blobs);
        LeadsInMore(objects, [tree], e.oid, files);
      }
    }
    assert tree in objects + [tree];
  }

  lemma EntryLeads(e: TreeEntry, at: Path, dirs: set<bytes>, names: set<bytes>, files: map<Path, string>, objects: Objects,
                   ds: seq<TreeEntry>, bs: seq<TreeEntry>, blobs: map<bytes, string>)
    requires Dir(e, at, dirs, files, objects) || File(e, at, names, files)
    requires DirsWhole(ds, objects, files) && BlobsListed(bs, blobs) && e in ds + bs && OidBytes(e.oid).Some?
    ensures Leads(objects, Canonical(e.oid), files)
  {
    hide Faithful, Closed, OidBytes, Canonical;
    if Dir(e, at, dirs, files, objects) {
      assert e in ds;
    } else {
      assert Found(files, at + [e.name], Canonical(e.oid));
    }
  }

  method ListDirs(c: GitPack.Codec, ghost root: TreeNode, node: TreeNode, ghost at: Path, ghost nodes: map<Path, TreeNode>, ghost files: map<Path, string>)
    returns (r: Result<(seq<TreeEntry>, Objects), string>)
    requires GitPack.Lawful(c) && Represents(root, nodes, files) && at in nodes && nodes[at] == node
    ensures r.Ok? <==> forall n :: n in node.dirs ==> AllValidBelow(files, at + [n])
    ensures r.Ok? ==> Trees(c, r.value.1, NamesClean(nodes, files))
    ensures r.Ok? ==> DirsDone(r.value.0, r.value.1, at, node.dirs.Keys, files, NamesClean(nodes, files))
    ensures r.Ok? && NamesClean(nodes, files) ==> DirsWhole(r.value.0, r.value.1, files)
    decreases Below(nodes, at), 0
  {
    hide DirsDone, DirsWhole, Whole, AllValidBelow, GitPack.Lawful, IsCanonical, Faithful, Trees, NamesClean, Represents;
    ghost var clean := NamesClean(nodes, files);
    var entries: seq<TreeEntry>, objects: Objects := [], [];
    var left := node.dirs.Keys;
    NothingDone(c, at, files, clean);
    NoDirsWhole(files);
    assert node.dirs.Keys - left == {};
    while left != {}
      invariant left <= node.dirs.Keys
      invariant forall n :: n in node.dirs.Keys - left ==> AllValidBelow(files, at + [n])
      invariant Trees(c, objects, clean)
      invariant DirsDone(entries, objects, at, node.dirs.Keys - left, files, clean)
      invariant clean ==> DirsWhole(entries, objects, files)
      decreases |left|
    {
      var name :| name in left;
      ChildIsThere(root, nodes, files, at, name);
      BelowChild(nodes, at, name);
      var built := BuildTreeObjects(c, root, node.dirs[name], at + [name], nodes, files);
      if built.Err? { return Err(built.error); }
      DirsDoneMore(entries, objects, at, node.dirs.Keys - left, files, clean, name, built.value);
      assert (node.dirs.Keys - left) + {name} == node.dirs.Keys - (left - {name});
      TreesConcat(c, objects, built.value.objects, clean);
      if clean { DirsWholeMore(entries, objects, files, name, built.value); }
      objects := objects + built.value.objects;
      entries := entries + [TreeEntry(DIR_MODE, name, built.value.oid)];
      left := left - {name};
    }
    assert node.dirs.Keys - left == node.dirs.Keys;
    return Ok((entries, objects));
  }

  lemma NothingDone(c: GitPack.Codec, at: Path, files: map<Path, string>, clean: bool)
    ensures DirsDone([], [], at, {}, files, clean) && Trees(c, [], clean)
  {
  }

  lemma TreesConcat(c: GitPack.Codec, a: Objects, b: Objects, clean: bool)
    requires Trees(c, a, clean) && Trees(c, b, clean)
    ensures Trees(c, a + b, clean)
  {
  }

  lemma ChildIsThere(root: TreeNode, nodes: map<Path, TreeNode>, files: map<Path, string>, at: Path, name: bytes)
    requires Represents(root, nodes, files) && at in nodes && name in nodes[at].dirs
    ensures at + [name] in nodes && nodes[at + [name]] == nodes[at].dirs[name]
  {
    LinkedAt(at, nodes[at].dirs, nodes, name);
  }

  method ListBlobs(node: TreeNode) returns (entries: seq<TreeEntry>)
    ensures forall e :: e in entries <==> e.mode == FILE_MODE && e.name in node.blobs && node.blobs[e.name] == e.oid
  {
    entries := [];
    var left := node.blobs.Keys;
    while left != {}
      invariant left <= node.blobs.Keys
      invariant forall e :: e in entries <==> e.mode == FILE_MODE && e.name in node.blobs.Keys - left && node.blobs[e.name] == e.oid
      decreases |left|
    {
      var name :| name in left;
      entries := entries + [TreeEntry(FILE_MODE, name, node.blobs[name])];
      left := left - {name};
    }
  }

  lemma {:induction false} PrefixIsThere(root: TreeNode, nodes: map<Path, TreeNode>, p: Path, k: nat)
    requires Shape(root, nodes) && p in nodes && k <= |p|
    ensures p[..k] in nodes
  {
    if k < |p| {
      PrefixIsThere(root, nodes, p[..|p| - 1], k);
      assert p[..|p| - 1][..k] == p[..k];
    } else {
      assert p[..k] == p;
    }
  }

  /** A file more than one level down is in one of the directories. */
  lemma DeepFile(root: TreeNode, nodes: map<Path, TreeNode>, files: map<Path, string>, at: Path, f: Path)
    requires Represents(root, nodes, files) && at in nodes && f in files && at < f && |f| > |at| + 1
    ensures f[|at|] in nodes[at].dirs && at + [f[|at|]] < f
  {
    var n := f[|at|];
    PrefixIsThere(root, nodes, f[..|f| - 1], |at| + 1);
    assert f[..|f| - 1][..|at| + 1] == f[..|at| + 1] == at + [n];
    LinkedAt(at, nodes[at].dirs, nodes, n);
  }

  lemma BlobsAre(root: TreeNode, nodes: map<Path, TreeNode>, files: map<Path, string>, at: Path)
    requires Represents(root, nodes, files) && at in nodes
    ensures forall n :: if n in nodes[at].blobs then at + [n] in files && nodes[at].blobs[n] == files[at + [n]] else at + [n] !in files
  {
  }

  /** Validity, one level at a time. */
  lemma ValidBelow(root: TreeNode, nodes: map<Path, TreeNode>, files: map<Path, string>, at: Path)
    requires Represents(root, nodes, files) && at in nodes
    ensures AllValidBelow(files, at) <==>
              && (forall n :: n in nodes[at].dirs ==> AllValidBelow(files, at + [n]))
              && (forall n :: n in nodes[at].blobs ==> OidBytes(nodes[at].blobs[n]).Some?)
  {
    hide OidBytes, Represents;
    BlobsAre(root, nodes, files, at);
    if AllValidBelow(files, at) {
      forall n, f | n in nodes[at].dirs && f in files && at + [n] < f ensures OidBytes(files[f]).Some? {
        assert at < at + [n];
        assert at < f;
      }
      forall n | n in nodes[at].blobs ensures OidBytes(nodes[at].blobs[n]).Some? { assert at < at + [n]; }
    }
    if (forall n :: n in nodes[at].dirs ==> AllValidBelow(files, at + [n])) && (forall n :: n in nodes[at].blobs ==> OidBytes(nodes[at].blobs[n]).Some?) {
      forall f | f in files && at < f ensures OidBytes(files[f]).Some? {
        if |f| == |at| + 1 {
          assert f == at + [f[|at|]];
        } else {
          DeepFile(root, nodes, files, at, f);
          assert AllValidBelow(files, at + [f[|at|]]);
        }
      }
    }
  }

  ghost predicate BlobsListed(entries: seq<TreeEntry>, blobs: map<bytes, string>) {
    forall e :: e in entries <==> e.mode == FILE_MODE && e.name in blobs && blobs[e.name] == e.oid
  }

  lemma AllAreValid(ds: seq<TreeEntry>, bs: seq<TreeEntry>, entries: seq<TreeEntry>, objects: Objects, at: Path,
                    dirs: set<bytes>, blobs: map<bytes, string>, files: map<Path, string>, clean: bool)
    requires DirsDone(ds, objects, at, dirs, files, clean) && BlobsListed(bs, blobs)
    requires multiset(entries) == multiset(ds + bs)
    ensures AllValid(entries) <==> forall n :: n in blobs ==> OidBytes(blobs[n]).Some?
  {
    hide OidBytes, Canonical, Faithful;
    SameMembers(entries, ds + bs);
    if AllValid(entries) {
      forall n | n in blobs ensures OidBytes(blobs[n]).Some? {
        var e := TreeEntry(FILE_MODE, n, blobs[n]);
        assert e in ds + bs;
        var i :| 0 <= i < |entries| && entries[i] == e;
      }
    }
    if forall n :: n in blobs ==> OidBytes(blobs[n]).Some? {
      forall i | 0 <= i < |entries| ensures OidBytes(entries[i].oid).Some? {
        assert entries[i] in ds + bs;
      }
    }
  }

  lemma SameMembers(a: seq<TreeEntry>, b: seq<TreeEntry>)
    requires multiset(a) == multiset(b)
    ensures forall e :: e in a <==> e in b
  {
    forall e ensures e in a <==> e in b { assert e in multiset(a) <==> e in multiset(b); }
  }

  lemma ListsAll(root: TreeNode, nodes: map<Path, TreeNode>, ds: seq<TreeEntry>, bs: seq<TreeEntry>, entries: seq<TreeEntry>,
                 objects: Objects, at: Path, files: map<Path, string>)
    requires Represents(root, nodes, files) && at in nodes
    requires DirsDone(ds, objects, at, nodes[at].dirs.Keys, files, true) && BlobsListed(bs, nodes[at].blobs)
    requires multiset(entries) == multiset(ds + bs)
    ensures Lists(entries, at, nodes[at].dirs.Keys, nodes[at].blobs.Keys, files, objects)
  {
    hide Represents, IsCanonical, Faithful;
    SameMembers(entries, ds + bs);
    BlobsAre(root, nodes, files, at);
    var dirs, blobs := nodes[at].dirs.Keys, nodes[at].blobs.Keys;
    forall n | n in dirs ensures exists e :: e in entries && e.name == n && Dir(e, at, dirs, files, objects) {
      var e :| e in ds && e.name == n;
      assert e in entries && Dir(e, at, dirs, files, objects);
    }
    forall n | n in blobs ensures exists e :: e in entries && e.name == n && File(e, at, blobs, files) {
      var e := TreeEntry(FILE_MODE, n, nodes[at].blobs[n]);
      assert e in bs;
      assert e in entries && File(e, at, blobs, files);
    }
  }

  lemma NamesAreClean(root: TreeNode, nodes: map<Path, TreeNode>, files: map<Path, string>, at: Path, entries: seq<TreeEntry>, objects: Objects)
    requires Represents(root, nodes, files) && at in nodes && NamesClean(nodes, files)
    requires Lists(entries, at, nodes[at].dirs.Keys, nodes[at].blobs.Keys, files, objects)
    ensures forall e :: e in entries ==> NUL !in e.name
  {
    hide IsCanonical, Faithful, Represents;
    forall e | e in entries ensures NUL !in e.name {
      var p := at + [e.name];
      assert e.name in p;
      if Dir(e, at, nodes[at].dirs.Keys, files, objects) {
        ChildIsThere(root, nodes, files, at, e.name);
      }
    }
  }

  lemma LevelIsFaithful(root: TreeNode, nodes: map<Path, TreeNode>, files: map<Path, string>, at: Path, entries: seq<TreeEntry>,
                        objects: Objects, tree: GitObject)
    requires Represents(root, nodes, files) && at in nodes && NamesClean(nodes, files)
    requires Lists(entries, at, nodes[at].dirs.Keys, nodes[at].blobs.Keys, files, objects)
    requires AllValid(entries) && tree.data == EntriesBytes(entries) && Sorted(entries)
    ensures Faithful(objects + [tree], tree.oid, at, files)
    ensures Sorted(ParseEntries(tree.data)) && ParseEntries(tree.data) == CanonicalEntries(entries)
  {
    hide Faithful, Represents, NamesClean, EntriesBytes, ParseEntries, OidBytes, Canonical;
    NamesAreClean(root, nodes, files, at, entries, objects);
    BlobsAre(root, nodes, files, at);
    forall r | |r| > 1 && at + r in files ensures r[0] in nodes[at].dirs.Keys {
      DeepFile(root, nodes, files, at, at + r);
    }
    ListedIsFaithful(entries, at, nodes[at].dirs.Keys, nodes[at].blobs.Keys, files, objects, tree);
    ParsedEntries(entries);
  }

  /** Any store with the built objects gives back exactly the files below, and
      the built trees list only each other and files. */
  method BuildTreeObjects(c: GitPack.Codec, ghost root: TreeNode, node: TreeNode, ghost at: Path, ghost nodes: map<Path, TreeNode>, ghost files: map<Path, string>)
    returns (r: Result<BuiltTree, string>)
    requires GitPack.Lawful(c) && Represents(root, nodes, files) && at in nodes && nodes[at] == node
    ensures r.Ok? <==> AllValidBelow(files, at)
    ensures r.Ok? ==> Trees(c, r.value.objects, NamesClean(nodes, files)) && IsCanonical(r.value.oid)
    ensures r.Ok? && NamesClean(nodes, files) ==> Faithful(r.value.objects, r.value.oid, at, files) && Whole(r.value, files)
    decreases Below(nodes, at), 1
  {
    hide DirsDone, DirsWhole, Whole, AllValidBelow, GitPack.Lawful, IsCanonical, Faithful, Trees, NamesClean, Represents, Lists, EntriesBytes;
    ValidBelow(root, nodes, files, at);
    var listed := ListDirs(c, root, node, at, nodes, files);
    if listed.Err? {
      return Err(listed.error);
    }
    var objects := listed.value.1;
    var blobs := ListBlobs(node);
    var entries := SortEntries(listed.value.0 + blobs);
    var data := WriteEntries(entries);
    ghost var clean := NamesClean(nodes, files);
    AllAreValid(listed.value.0, blobs, entries, objects, at, node.dirs.Keys, node.blobs, files, clean);
    if data.Err? { return Err(data.error); }
    var tree := GitPack.MakeObject(c, GitPack.TREE, data.value);
    if clean {
      ListsAll(root, nodes, listed.value.0, blobs, entries, objects, at, files);
      LevelIsFaithful(root, nodes, files, at, entries, objects, tree);
      LevelIsWhole(listed.value.0, blobs, entries, at, node.dirs.Keys, node.blobs, files, objects, tree);
    }
    NameIsCanonical(c, data.value);
    OneTree(c, tree, clean);
    TreesConcat(c, objects, [tree], clean);
    return Ok(BuiltTree(tree.oid, objects + [tree]));
  }

  lemma NameIsCanonical(c: GitPack.Codec, data: bytes)
    requires GitPack.Lawful(c)
    ensures IsCanonical(GitPack.Oid(c, GitPack.TREE, data))
  {
    HexRoundTrip(c.hash(GitPack.TREE, data));
  }

  lemma OneTree(c: GitPack.Codec, tree: GitObject, clean: bool)
    requires tree == GitPack.MakeObject(c, GitPack.TREE, tree.data) && (clean ==> Sorted(ParseEntries(tree.data)))
    ensures Trees(c, [tree], clean)
  {
  }

  // ---------------------------------------------------------- whole snapshot

  datatype SnapshotFile = SnapshotFile(path: bytes, digest: string)

  /** The content a snapshot entry contributes; unreadable ones are skipped. */
  function ContentOf(f: SnapshotFile, extract: bytes -> Option<bytes>): Option<bytes> {
    if f.path == [] || f.digest == "" then None
    else
      match HexDecode(f.digest)
      case None => None
      case Some(digest) => extract(digest)
  }

  /** The snapshot's files by path: the last readable entry for a path wins. */
  function FilesOf(snapshot: seq<SnapshotFile>, extract: bytes -> Option<bytes>): map<Path, bytes> {
    if snapshot == [] then map[]
    else
      var n := |snapshot| - 1;
      var before := FilesOf(snapshot[..n], extract);
      match ContentOf(snapshot[n], extract)
      case None => before
      case Some(content) => Written(before, snapshot[n].path, content)
  }

  /** The entry has a path and a digest, and the content can be read. */
  ghost predicate Readable(f: SnapshotFile, extract: bytes -> Option<bytes>, content: bytes) {
    && f.path != [] && f.digest != ""
    && exists digest :: HexDecode(f.digest) == Some(digest) && extract(digest) == Some(content)
  }

  /** Entry i is the last readable one whose path lands at p. */
  ghost predicate LastWrite(snapshot: seq<SnapshotFile>, extract: bytes -> Option<bytes>, i: int, p: Path, content: bytes) {
    && 0 <= i < |snapshot| && LandsAt(snapshot[i].path, p) && Readable(snapshot[i], extract, content)
    && forall j, other :: i < j < |snapshot| && LandsAt(snapshot[j].path, p) ==> !Readable(snapshot[j], extract, other)
  }

  lemma ContentIsReadable(f: SnapshotFile, extract: bytes -> Option<bytes>, content: bytes)
    ensures ContentOf(f, extract) == Some(content) <==> Readable(f, extract, content)
  {
  }

  /** A path has exactly the content of the last readable entry that lands there. */
  lemma {:induction false} FilesAreLastWrites(snapshot: seq<SnapshotFile>, extract: bytes -> Option<bytes>, p: Path, content: bytes)
    ensures p in FilesOf(snapshot, extract) && FilesOf(snapshot, extract)[p] == content
            <==> exists i :: LastWrite(snapshot, extract, i, p, content)
  {
    hide LandsAt, Readable, ContentOf, Written;
    if snapshot != [] {
      var n := |snapshot| - 1;
      FilesAreLastWrites(snapshot[..n], extract, p, content);
      LastWriteSnoc(snapshot, extract, p, content);
      var now := ContentOf(snapshot[n], extract);
      if now.Some? { WrittenLands(FilesOf(snapshot[..n], extract), snapshot[n].path, now.value, p); }
    }
  }

  lemma LastWriteSnoc(snapshot: seq<SnapshotFile>, extract: bytes -> Option<bytes>, p: Path, content: bytes)
    requires snapshot != []
    ensures var n := |snapshot| - 1;
            (exists i :: LastWrite(snapshot, extract, i, p, content)) <==>
              if ContentOf(snapshot[n], extract).Some? && LandsAt(snapshot[n].path, p)
              then ContentOf(snapshot[n], extract) == Some(content)
              else exists i :: LastWrite(snapshot[..n], extract, i, p, content)
  {
    hide LandsAt, Readable, ContentOf;
    var n := |snapshot| - 1;
    var before := snapshot[..n];
    forall other { ContentIsReadable(snapshot[n], extract, other); }
    forall i | 0 <= i < n ensures before[i] == snapshot[i] { }
    if i :| LastWrite(before, extract, i, p, content) {
      if !(ContentOf(snapshot[n], extract).Some? && LandsAt(snapshot[n].path, p)) {
        assert LastWrite(snapshot, extract, i, p, content);
      }
    }
    if i :| LastWrite(snapshot, extract, i, p, content) {
      if i < n { assert LastWrite(before, extract, i, p, content); }
    }
    if ContentOf(snapshot[n], extract) == Some(content) && LandsAt(snapshot[n].path, p) {
      assert LastWrite(snapshot, extract, n, p, content);
    }
  }

  ghost predicate Names(c: GitPack.Codec, contents: map<Path, bytes>, files: map<Path, string>) {
    files.Keys == contents.Keys && forall p :: p in files ==> files[p] == GitPack.Oid(c, GitPack.BLOB, contents[p])
  }

  ghost predicate BlobsPresent(c: GitPack.Codec, contents: map<Path, bytes>, blobs: Objects) {
    forall p :: p in contents ==> GitPack.MakeObject(c, GitPack.BLOB, contents[p]) in blobs
  }

  lemma {:induction false} SplitIsClean(path: bytes)
    requires NUL !in path
    ensures forall part :: part in Split(path, SLASH) ==> NUL !in part
  {
    if path != [] {
      assert path == [path[0]] + path[1..];
      SplitIsClean(path[1..]);
      var rest := Split(path[1..], SLASH);
      forall part | part in Split(path, SLASH) ensures NUL !in part {
        if path[0] != SLASH { assert part == [path[0]] + rest[0] || part in rest[1..]; }
      }
    }
  }

  lemma {:induction false} NonEmptyMembers(parts: seq<bytes>)
    ensures forall part :: part in NonEmpty(parts) ==> part in parts
  {
    if parts != [] { NonEmptyMembers(parts[..|parts| - 1]); }
  }

  lemma StaysClean(nodes: map<Path, TreeNode>, nodes': map<Path, TreeNode>, files: map<Path, string>, path: bytes, oid: string)
    requires NamesClean(nodes, files) && NUL !in path
    requires forall p :: p in nodes' ==> p in nodes || p <= DirOf(path)
    ensures NamesClean(nodes', Written(files, path, oid))
  {
    hide Split, NonEmpty;
    SplitIsClean(path);
    var parts := Split(path, SLASH);
    NonEmptyMembers(parts[..|parts| - 1]);
    forall p, n | p in nodes' && n in p ensures NUL !in n {
      if p !in nodes { assert n in DirOf(path); }
    }
  }

  /** A store with the trees gives, under each path, exactly the name of the
      snapshot's content for it; one with the blobs has that content. */
  ghost predicate Serves(c: GitPack.Codec, tree: BuiltTree, blobs: Objects, contents: map<Path, bytes>) {
    && (forall store, p, b :: Stores(store, tree.objects) ==>
          (Resolves(store, tree.oid, p, b) <==> p in contents && b == GitPack.Oid(c, GitPack.BLOB, contents[p])))
    && (forall store, p :: Stores(store, blobs) && p in contents ==>
          var b := GitPack.Oid(c, GitPack.BLOB, contents[p]);
          b in store && store[b] == contents[p])
  }

  /** The root is among the trees, and they list only each other and the
      contents. */
  ghost predicate ClosedOver(c: GitPack.Codec, tree: BuiltTree, contents: map<Path, bytes>) {
    && (exists t :: t in tree.objects && t.oid == tree.oid)
    && forall o, e :: o in tree.objects && e in ParseEntries(o.data) ==>
         || (exists t :: t in tree.objects && t.oid == e.oid)
         || (exists p :: p in contents && e.oid == GitPack.Oid(c, GitPack.BLOB, contents[p]))
  }

  lemma WholeIsClosed(c: GitPack.Codec, tree: BuiltTree, contents: map<Path, bytes>, files: map<Path, string>)
    requires GitPack.Lawful(c) && Names(c, contents, files) && Whole(tree, files)
    ensures ClosedOver(c, tree, contents)
  {
    hide ParseEntries, GitPack.Lawful, GitPack.Oid;
    forall f, oid | Found(files, f, oid) ensures f in contents && oid == GitPack.Oid(c, GitPack.BLOB, contents[f]) {
      BlobIsCanonical(c, contents[f]);
    }
  }

  /** In terms of what was written: a path resolves to exactly the content of the
      last readable entry that lands there. */
  ghost predicate ServesWrites(c: GitPack.Codec, tree: BuiltTree, snapshot: seq<SnapshotFile>, extract: bytes -> Option<bytes>) {
    forall store, p, b :: Stores(store, tree.objects) ==>
      (Resolves(store, tree.oid, p, b) <==>
         exists i, content :: LastWrite(snapshot, extract, i, p, content) && b == GitPack.Oid(c, GitPack.BLOB, content))
  }

  lemma ServesIsServesWrites(c: GitPack.Codec, tree: BuiltTree, blobs: Objects, snapshot: seq<SnapshotFile>, extract: bytes -> Option<bytes>)
    requires Serves(c, tree, blobs, FilesOf(snapshot, extract))
    ensures ServesWrites(c, tree, snapshot, extract)
  {
    hide Resolves, Stores, FilesOf, LastWrite, GitPack.Oid;
    forall store, p, b | Stores(store, tree.objects)
      ensures Resolves(store, tree.oid, p, b) <==>
                exists i, content :: LastWrite(snapshot, extract, i, p, content) && b == GitPack.Oid(c, GitPack.BLOB, content)
    {
      var contents := FilesOf(snapshot, extract);
      if p in contents { FilesAreLastWrites(snapshot, extract, p, contents[p]); }
      if i, content :| LastWrite(snapshot, extract, i, p, content) && b == GitPack.Oid(c, GitPack.BLOB, content) {
        FilesAreLastWrites(snapshot, extract, p, content);
      }
    }
  }

  lemma FaithfulServes(c: GitPack.Codec, root: TreeNode, nodes: map<Path, TreeNode>, tree: BuiltTree, blobs: Objects,
                       contents: map<Path, bytes>, files: map<Path, string>)
    requires GitPack.Lawful(c) && Names(c, contents, files) && BlobsPresent(c, contents, blobs)
    requires Represents(root, nodes, files) && Faithful(tree.objects, tree.oid, [], files)
    ensures Serves(c, tree, blobs, contents)
  {
    hide Resolves, GitPack.Lawful, Faithful, Stores;
    forall store, p, b | Stores(store, tree.objects)
      ensures Resolves(store, tree.oid, p, b) <==> p in contents && b == GitPack.Oid(c, GitPack.BLOB, contents[p])
    {
      PathServed(c, root, nodes, tree, contents, files, store, p, b);
    }
    forall store, p | Stores(store, blobs) && p in contents
      ensures var b := GitPack.Oid(c, GitPack.BLOB, contents[p]); b in store && store[b] == contents[p]
    {
      BlobServed(blobs, store, GitPack.MakeObject(c, GitPack.BLOB, contents[p]));
    }
  }

  lemma BlobServed(blobs: Objects, store: map<string, bytes>, blob: GitObject)
    requires Stores(store, blobs) && blob in blobs
    ensures blob.oid in store && store[blob.oid] == blob.data
  {
  }

  lemma PathServed(c: GitPack.Codec, root: TreeNode, nodes: map<Path, TreeNode>, tree: BuiltTree, contents: map<Path, bytes>,
                   files: map<Path, string>, store: map<string, bytes>, p: Path, b: string)
    requires GitPack.Lawful(c) && Names(c, contents, files) && Stores(store, tree.objects)
    requires Represents(root, nodes, files) && Faithful(tree.objects, tree.oid, [], files)
    ensures Resolves(store, tree.oid, p, b) <==> p in contents && b == GitPack.Oid(c, GitPack.BLOB, contents[p])
  {
    hide Resolves, GitPack.Lawful, GitPack.Oid, Stores;
    assert [] + p == p;
    if p in contents { BlobIsCanonical(c, contents[p]); }
  }

  lemma BlobIsCanonical(c: GitPack.Codec, data: bytes)
    requires GitPack.Lawful(c)
    ensures IsCanonical(GitPack.Oid(c, GitPack.BLOB, data))
  {
    HexRoundTrip(c.hash(GitPack.BLOB, data));
  }

  method BuildTreeFromFiles(c: GitPack.Codec, snapshot: seq<SnapshotFile>, extract: bytes -> Option<bytes>)
    returns (tree: Result<BuiltTree, string>, blobs: Objects)
    requires GitPack.Lawful(c)
    ensures tree.Ok? && IsCanonical(tree.value.oid)
    ensures Trees(c, tree.value.objects, forall f :: f in snapshot ==> NUL !in f.path)
    ensures BlobsPresent(c, FilesOf(snapshot, extract), blobs)
    ensures (forall f :: f in snapshot ==> NUL !in f.path) ==>
              && Serves(c, tree.value, blobs, FilesOf(snapshot, extract)) && ClosedOver(c, tree.value, FilesOf(snapshot, extract))
              && ServesWrites(c, tree.value, snapshot, extract)
  {
    hide GitPack.Lawful, Represents, NamesClean, Written, ContentOf, ClosedOver, Whole, ServesWrites;
    var root;
    ghost var nodes;
    root, nodes := NewTree();
    ghost var files: map<Path, string>, contents: map<Path, bytes> := map[], map[];
    ghost var clean := forall f :: f in snapshot ==> NUL !in f.path;
    blobs := [];
    EmptyIsClean(root);
    for i := 0 to |snapshot|
      invariant Represents(root, nodes, files) && contents == FilesOf(snapshot[..i], extract)
      invariant Names(c, contents, files) && BlobsPresent(c, contents, blobs)
      invariant forall p :: p in nodes ==> fresh(nodes[p])
      invariant clean ==> NamesClean(nodes, files)
    {
      var file := snapshot[i];
      assert snapshot[..i + 1][..i] == snapshot[..i];
      var content := ContentOf(file, extract);
      if content.Some? {
        var blob := GitPack.MakeObject(c, GitPack.BLOB, content.value);
        blobs := blobs + [blob];
        ghost var grown := InsertPath(root, file.path, blob.oid, nodes, files);
        if clean { StaysClean(nodes, grown, files, file.path, blob.oid); }
        NamesMore(c, contents, files, blobs, file.path, content.value);
        nodes, files, contents := grown, Written(files, file.path, blob.oid), Written(contents, file.path, content.value);
      }
    }
    assert snapshot[..|snapshot|] == snapshot;
    RootIsThere(root, nodes, files);
    tree := BuildTreeObjects(c, root, root, [], nodes, files);
    AllNamed(c, contents, files);
    if clean {
      FaithfulServes(c, root, nodes, tree.value, blobs, contents, files);
      WholeIsClosed(c, tree.value, contents, files);
      ServesIsServesWrites(c, tree.value, blobs, snapshot, extract);
    } else {
      TreesAnyway(c, tree.value.objects, NamesClean(nodes, files));
    }
  }

  lemma TreesAnyway(c: GitPack.Codec, objects: Objects, clean: bool)
    requires Trees(c, objects, clean)
    ensures Trees(c, objects, false)
  {
  }

  lemma EmptyIsClean(root: TreeNode)
    ensures NamesClean(map[[] := root], map[])
  {
  }

  lemma NamesMore(c: GitPack.Codec, contents: map<Path, bytes>, files: map<Path, string>, blobs: Objects, path: bytes, content: bytes)
    requires Names(c, contents, files)
    requires forall p :: p in contents ==> GitPack.MakeObject(c, GitPack.BLOB, contents[p]) in blobs
    requires GitPack.MakeObject(c, GitPack.BLOB, content) in blobs
    ensures Names(c, Written(contents, path, content), Written(files, path, GitPack.Oid(c, GitPack.BLOB, content)))
    ensures BlobsPresent(c, Written(contents, path, content), blobs)
  {
  }

  lemma AllNamed(c: GitPack.Codec, contents: map<Path, bytes>, files: map<Path, string>)
    requires GitPack.Lawful(c) && Names(c, contents, files)
    ensures AllValidBelow(files, [])
  {
    forall f | f in files ensures OidBytes(files[f]).Some? { BlobIsCanonical(c, contents[f]); }
  }

  function StoreOf(objects: Objects): map<string, bytes> {
    if objects == [] then map[]
    else StoreOf(objects[..|objects| - 1])[objects[|objects| - 1].oid := objects[|objects| - 1].data]
  }

  /** Such a store exists, unless two objects' hashes collide. */
  lemma {:induction false} StoreHoldsAll(objects: Objects)
    requires forall a, b :: a in objects && b in objects && a.oid == b.oid ==> a.data == b.data
    ensures Stores(StoreOf(objects), objects)
    ensures forall oid :: oid in StoreOf(objects) ==> exists o :: o in objects && o.oid == oid
  {
    if objects != [] {
      var n := |objects| - 1;
      StoreHoldsAll(objects[..n]);
      assert objects[n] in objects;
      forall o | o in objects ensures o.oid in StoreOf(objects) && StoreOf(objects)[o.oid] == o.data {
        assert o in objects[..n] || o == objects[n];
      }
    }
  }
}
