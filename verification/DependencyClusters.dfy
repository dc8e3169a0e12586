/** Grouping files by imports and directories, with union-find. */
module DependencyClusters {
  import opened SignalBags
  import opened UnionFind

  /** Imports by file; dir gives a path's directory. */
  datatype Project = Project(callGraph: map<string, seq<string>>, dir: string -> string)

  // --------------------------------------------------------- specification

  predicate Imports(pr: Project, f: string, g: string) {
    f in pr.callGraph && g in pr.callGraph[f]
  }

  predicate Related(pr: Project, f: string, g: string) {
    Imports(pr, f, g) || Imports(pr, g, f) || pr.dir(f) == pr.dir(g)
  }

  ghost predicate IsChain(pr: Project, files: set<string>, p: seq<string>) {
    && p != []
    && (forall i :: 0 <= i < |p| ==> p[i] in files)
    && (forall i :: 0 <= i < |p| - 1 ==> Related(pr, p[i], p[i + 1]))
  }

  /** A chain of related files, all present, leads from f to g. */
  ghost predicate Connected(pr: Project, files: set<string>, f: string, g: string) {
    exists p :: IsChain(pr, files, p) && p[0] == f && p[|p| - 1] == g
  }

  lemma RelatedConnected(pr: Project, files: set<string>, f: string, g: string)
    requires f in files && g in files && Related(pr, f, g)
    ensures Connected(pr, files, f, g)
  {
    var p := [f, g];
    assert IsChain(pr, files, p) && p[0] == f && p[|p| - 1] == g;
  }

  /** An import either way, or one directory, connects two files. */
  lemma NeighboursConnected(pr: Project, files: set<string>, f: string, g: string)
    requires f in files && g in files
    requires (f in pr.callGraph && g in pr.callGraph[f]) || (g in pr.callGraph && f in pr.callGraph[g]) || pr.dir(f) == pr.dir(g)
    ensures Connected(pr, files, f, g)
  {
    RelatedConnected(pr, files, f, g);
  }

  /** Nothing else does: the first step of a connection is one of these. */
  lemma OnlyNeighboursConnect(pr: Project, files: set<string>, f: string, h: string)
    requires Connected(pr, files, f, h) && f != h
    ensures exists g :: g in files && Connected(pr, files, g, h) &&
              ((f in pr.callGraph && g in pr.callGraph[f]) || (g in pr.callGraph && f in pr.callGraph[g]) || pr.dir(f) == pr.dir(g))
  {
    var p :| IsChain(pr, files, p) && p[0] == f && p[|p| - 1] == h;
    var q := p[1..];
    forall i | 0 <= i < |q| - 1 ensures Related(pr, q[i], q[i + 1]) { assert Related(pr, p[i + 1], p[i + 1 + 1]); }
    assert IsChain(pr, files, q) && q[0] == p[1] && q[|q| - 1] == h;
    assert Related(pr, p[0], p[0 + 1]);
    assert Connected(pr, files, p[1], h);
  }

  lemma ConnectedTransitive(pr: Project, files: set<string>, f: string, g: string, h: string)
    requires Connected(pr, files, f, g) && Connected(pr, files, g, h)
    ensures Connected(pr, files, f, h)
  {
    var p :| IsChain(pr, files, p) && p[0] == f && p[|p| - 1] == g;
    var q :| IsChain(pr, files, q) && q[0] == g && q[|q| - 1] == h;
    var r := p + q[1..];
    assert forall i :: |p| <= i < |r| ==> r[i] == q[i - |p| + 1];
    assert IsChain(pr, files, r) && r[0] == f && r[|r| - 1] == h;
  }

  lemma ConnectedSymmetric(pr: Project, files: set<string>, f: string, g: string)
    requires Connected(pr, files, f, g)
    ensures Connected(pr, files, g, f)
  {
    var p :| IsChain(pr, files, p) && p[0] == f && p[|p| - 1] == g;
    var r := seq(|p|, i requires 0 <= i < |p| => p[|p| - 1 - i]);
    forall i | 0 <= i < |r| - 1 ensures Related(pr, r[i], r[i + 1]) {
      assert Related(pr, p[|p| - 2 - i], p[|p| - 2 - i + 1]);
    }
    assert IsChain(pr, files, r) && r[0] == g && r[|r| - 1] == f;
  }

  // ------------------------------------------------------------ the labels

  /** files lists a set without repetition. */
  ghost predicate Lists(files: seq<string>, all: set<string>) {
    && (forall f :: f in files <==> f in all)
    && (forall i, j :: 0 <= i < j < |files| ==> files[i] != files[j])
  }

  ghost predicate Sound(pr: Project, files: seq<string>, all: set<string>, rep: seq<int>) {
    && |rep| == |files|
    && forall a, b :: 0 <= a < |rep| && 0 <= b < |rep| && rep[a] == rep[b] ==> Connected(pr, all, files[a], files[b])
  }

  ghost predicate Coarser(rep: seq<int>, rep': seq<int>) {
    && |rep'| == |rep|
    && forall a, b :: 0 <= a < |rep| && 0 <= b < |rep| && rep[a] == rep[b] ==> rep'[a] == rep'[b]
  }

  lemma JoinIsSound(pr: Project, files: seq<string>, all: set<string>, rep: seq<int>, x: int, y: int)
    requires Sound(pr, files, all, rep) && 0 <= x < |rep| && 0 <= y < |rep|
    requires Connected(pr, all, files[x], files[y])
    ensures Sound(pr, files, all, Joined(rep, rep[x], rep[y]))
    ensures Coarser(rep, Joined(rep, rep[x], rep[y]))
  {
    var rep' := Joined(rep, rep[x], rep[y]);
    forall a, b | 0 <= a < |rep| && 0 <= b < |rep| && rep'[a] == rep'[b] ensures Connected(pr, all, files[a], files[b]) {
      if rep[a] != rep[b] {
        if rep[a] == rep[x] {
          Across(pr, all, files[a], files[x], files[y], files[b]);
        } else {
          Across(pr, all, files[b], files[x], files[y], files[a]);
          ConnectedSymmetric(pr, all, files[b], files[a]);
        }
      }
    }
  }

  lemma Across(pr: Project, all: set<string>, f: string, x: string, y: string, g: string)
    requires Connected(pr, all, f, x) && Connected(pr, all, x, y) && Connected(pr, all, y, g)
    ensures Connected(pr, all, f, g)
  {
    ConnectedTransitive(pr, all, f, x, y);
    ConnectedTransitive(pr, all, f, y, g);
  }

  /** Directly related files carry the same label. */
  ghost predicate Complete(pr: Project, files: seq<string>, rep: seq<int>) {
    && |rep| == |files|
    && forall a, b :: 0 <= a < |rep| && 0 <= b < |rep| && Related(pr, files[a], files[b]) ==> rep[a] == rep[b]
  }

  lemma {:induction false} ChainKeepsLabel(pr: Project, files: seq<string>, all: set<string>, rep: seq<int>, p: seq<string>, n: nat, a: int, b: int)
    requires Lists(files, all) && Complete(pr, files, rep) && IsChain(pr, all, p) && n < |p|
    requires 0 <= a < |files| && files[a] == p[0] && 0 <= b < |files| && files[b] == p[n]
    ensures rep[a] == rep[b]
  {
    if n > 0 {
      var c :| 0 <= c < |files| && files[c] == p[n - 1];
      ChainKeepsLabel(pr, files, all, rep, p, n - 1, a, c);
      assert Related(pr, p[n - 1], p[n - 1 + 1]);
    }
  }

  lemma LabelsAreComponents(pr: Project, files: seq<string>, all: set<string>, rep: seq<int>, a: int, b: int)
    requires Lists(files, all) && Sound(pr, files, all, rep) && Complete(pr, files, rep)
    requires 0 <= a < |files| && 0 <= b < |files|
    ensures rep[a] == rep[b] <==> Connected(pr, all, files[a], files[b])
  {
    if Connected(pr, all, files[a], files[b]) {
      var p :| IsChain(pr, all, p) && p[0] == files[a] && p[|p| - 1] == files[b];
      ChainKeepsLabel(pr, files, all, rep, p, |p| - 1, a, b);
    }
  }

  // ----------------------------------------------------------- the algorithm

  /** Each listed file's place in the list. */
  ghost predicate Indexes(index: map<string, int>, files: seq<string>, all: set<string>) {
    && Lists(files, all) && index.Keys == all
    && forall f :: f in index ==> 0 <= index[f] < |files| && files[index[f]] == f
  }

  /** The keys of a map come in no particular order. */
  method ListFiles(all: set<string>) returns (files: seq<string>, index: map<string, int>)
    ensures Indexes(index, files, all)
  {
    files, index := [], map[];
    var rest := all;
    while rest != {}
      invariant rest <= all && Indexes(index, files, all - rest)
      decreases rest
    {
      var f :| f in rest;
      rest := rest - {f};
      index := index[f := |files|];
      files := files + [f];
    }
    assert all - rest == all;
  }

  /** One union of two files known to be related. */
  method Join(pr: Project, files: seq<string>, ghost all: set<string>, uf: UnionFind, x: int, y: int)
    requires Lists(files, all) && uf.Valid() && Sound(pr, files, all, uf.rep)
    requires 0 <= x < |files| && 0 <= y < |files| && Related(pr, files[x], files[y])
    modifies uf, uf.parent
    ensures uf.Valid() && Sound(pr, files, all, uf.rep) && Coarser(old(uf.rep), uf.rep)
    ensures uf.rep[x] == uf.rep[y]
  {
    RelatedConnected(pr, all, files[x], files[y]);
    JoinIsSound(pr, files, all, uf.rep, x, y);
    uf.Union(x, y);
  }

  lemma CoarserTwice(a: seq<int>, b: seq<int>, c: seq<int>)
    requires Coarser(a, b) && Coarser(b, c)
    ensures Coarser(a, c)
  {
  }

  /** The imports of the files in done have been joined. */
  ghost predicate ImportsJoined(pr: Project, index: map<string, int>, rep: seq<int>, done: set<string>) {
    && (forall f :: f in index ==> 0 <= index[f] < |rep|)
    && forall f, g :: f in done && f in index && g in index && Imports(pr, f, g) ==> rep[index[f]] == rep[index[g]]
  }

  method UnionImports(pr: Project, files: seq<string>, index: map<string, int>, ghost all: set<string>, uf: UnionFind)
    requires Indexes(index, files, all) && uf.Valid() && Sound(pr, files, all, uf.rep)
    modifies uf, uf.parent
    ensures uf.Valid() && Sound(pr, files, all, uf.rep)
    ensures ImportsJoined(pr, index, uf.rep, all)
  {
    var rest := pr.callGraph.Keys;
    while rest != {}
      invariant rest <= pr.callGraph.Keys
      invariant uf.Valid() && Sound(pr, files, all, uf.rep)
      invariant ImportsJoined(pr, index, uf.rep, pr.callGraph.Keys - rest)
      decreases rest
    {
      var file :| file in rest;
      rest := rest - {file};
      if file in index {
        UnionFileImports(pr, files, index, all, uf, file);
      }
    }
  }

  /** The inner loop: one file's imports. */
  method UnionFileImports(pr: Project, files: seq<string>, index: map<string, int>, ghost all: set<string>, uf: UnionFind, file: string)
    requires Indexes(index, files, all) && uf.Valid() && Sound(pr, files, all, uf.rep)
    requires file in pr.callGraph && file in index
    modifies uf, uf.parent
    ensures uf.Valid() && Sound(pr, files, all, uf.rep) && Coarser(old(uf.rep), uf.rep)
    ensures ImportsJoined(pr, index, uf.rep, {file})
  {
    hide Forest, Connected;
    var imports, i := pr.callGraph[file], 0;
    while i < |imports|
      invariant 0 <= i <= |imports|
      invariant uf.Valid() && Sound(pr, files, all, uf.rep) && Coarser(old(uf.rep), uf.rep)
      invariant forall k :: 0 <= k < i && imports[k] in index ==> uf.rep[index[file]] == uf.rep[index[imports[k]]]
    {
      if imports[i] in index {
        ghost var before := uf.rep;
        Join(pr, files, all, uf, index[file], index[imports[i]]);
        CoarserTwice(old(uf.rep), before, uf.rep);
      }
      i := i + 1;
    }
  }

  /** Of the files before a, each carries the label of all in its directory. */
  ghost predicate DirectoriesJoined(pr: Project, files: seq<string>, rep: seq<int>, n: int) {
    && |rep| == |files|
    && forall a, b :: 0 <= a < n && a < b < |files| && pr.dir(files[a]) == pr.dir(files[b]) ==> rep[a] == rep[b]
  }

  method UnionDirectories(pr: Project, files: seq<string>, ghost all: set<string>, uf: UnionFind)
    requires Lists(files, all) && uf.Valid() && Sound(pr, files, all, uf.rep)
    modifies uf, uf.parent
    ensures uf.Valid() && Sound(pr, files, all, uf.rep) && Coarser(old(uf.rep), uf.rep)
    ensures DirectoriesJoined(pr, files, uf.rep, |files|)
  {
    hide Forest, Connected;
    var i := 0;
    while i < |files|
      invariant 0 <= i <= |files|
      invariant uf.Valid() && Sound(pr, files, all, uf.rep) && Coarser(old(uf.rep), uf.rep)
      invariant DirectoriesJoined(pr, files, uf.rep, i)
    {
      var j := i + 1;
      while j < |files|
        invariant i < j <= |files|
        invariant uf.Valid() && Sound(pr, files, all, uf.rep) && Coarser(old(uf.rep), uf.rep)
        invariant DirectoriesJoined(pr, files, uf.rep, i)
        invariant forall b :: i < b < j && pr.dir(files[i]) == pr.dir(files[b]) ==> uf.rep[i] == uf.rep[b]
      {
        if pr.dir(files[i]) == pr.dir(files[j]) {
          ghost var before := uf.rep;
          Join(pr, files, all, uf, i, j);
          CoarserTwice(old(uf.rep), before, uf.rep);
        }
        j := j + 1;
      }
      i := i + 1;
    }
  }

  lemma JoinedIsComplete(pr: Project, files: seq<string>, index: map<string, int>, all: set<string>, rep: seq<int>)
    requires Indexes(index, files, all) && |rep| == |files|
    requires ImportsJoined(pr, index, rep, all) && DirectoriesJoined(pr, files, rep, |files|)
    ensures Complete(pr, files, rep)
  {
    forall a | 0 <= a < |files| ensures files[a] in index && index[files[a]] == a {
      assert files[a] in files;
    }
  }

  /** The signals of the listed files, one file after another. */
  function Gather(fs: seq<string>, fileSignals: map<string, Signals>): Signals
    requires forall f :: f in fs ==> f in fileSignals
  {
    if fs == [] then [] else Gather(fs[..|fs| - 1], fileSignals) + fileSignals[fs[|fs| - 1]]
  }

  /** members[k] are the files whose signals make up groups[k]: no file is in two
      places, all are somewhere, and two share a group just when connected. */
  ghost predicate ByComponent(pr: Project, fileSignals: map<string, Signals>, groups: seq<Signals>, members: seq<seq<string>>) {
    && |members| == |groups|
    && (forall k :: 0 <= k < |members| ==>
          && members[k] != []
          && (forall f :: f in members[k] ==> f in fileSignals)
          && (forall i, j :: 0 <= i < j < |members[k]| ==> members[k][i] != members[k][j])
          && groups[k] == Gather(members[k], fileSignals))
    && (forall f :: f in fileSignals ==> exists k :: 0 <= k < |members| && f in members[k])
    && (forall k, l, f, g :: 0 <= k < |members| && 0 <= l < |members| && f in members[k] && g in members[l] ==>
          (k == l <==> Connected(pr, fileSignals.Keys, f, g)))
  }

  /** Files done so far, by label: order gives each label's files as met. */
  ghost predicate Components(fileSignals: map<string, Signals>, index: map<string, int>, rep: seq<int>, done: set<string>,
                             components: map<int, Signals>, order: map<int, seq<string>>)
  {
    && components.Keys == order.Keys
    && done <= fileSignals.Keys <= index.Keys
    && (forall f :: f in index ==> 0 <= index[f] < |rep|)
    && (forall f :: f in done ==> rep[index[f]] in order && f in order[rep[index[f]]])
    && (forall r :: r in order ==> Component(fileSignals, index, rep, done, components[r], order[r], r))
  }

  ghost predicate Component(fileSignals: map<string, Signals>, index: map<string, int>, rep: seq<int>, done: set<string>,
                            signals: Signals, fs: seq<string>, r: int)
    requires done <= fileSignals.Keys <= index.Keys
    requires forall f :: f in index ==> 0 <= index[f] < |rep|
  {
    && fs != []
    && (forall f :: f in fs ==> f in done && rep[index[f]] == r)
    && (forall i, j :: 0 <= i < j < |fs| ==> fs[i] != fs[j])
    && signals == Gather(fs, fileSignals)
  }

  lemma ComponentGrows(fileSignals: map<string, Signals>, index: map<string, int>, rep: seq<int>, done: set<string>,
                       components: map<int, Signals>, order: map<int, seq<string>>, f: string)
    requires Components(fileSignals, index, rep, done, components, order)
    requires f in fileSignals && f !in done
    ensures var r := rep[index[f]];
            var signals := if r in components then components[r] else [];
            var fs := if r in order then order[r] else [];
            Components(fileSignals, index, rep, done + {f}, components[r := signals + fileSignals[f]], order[r := fs + [f]])
  {
    hide Gather;
    var r := rep[index[f]];
    var fs := if r in order then order[r] else [];
    var signals := if r in components then components[r] else [];
    if fs == [] { GatherNone(fileSignals); }
    GatherMore(fs, f, fileSignals);
    assert Component(fileSignals, index, rep, done + {f}, signals + fileSignals[f], fs + [f], r);
    forall q | q in order && q != r ensures Component(fileSignals, index, rep, done + {f}, components[q], order[q], q) {
    }
  }

  lemma GatherNone(fileSignals: map<string, Signals>)
    ensures Gather([], fileSignals) == []
  {
  }

  lemma GatherMore(fs: seq<string>, f: string, fileSignals: map<string, Signals>)
    requires f in fileSignals && forall g :: g in fs ==> g in fileSignals
    ensures Gather(fs + [f], fileSignals) == Gather(fs, fileSignals) + fileSignals[f]
  {
    assert (fs + [f])[..|fs|] == fs;
  }

  method CollectComponents(fileSignals: map<string, Signals>, files: seq<string>, index: map<string, int>, uf: UnionFind)
    returns (components: map<int, Signals>, ghost order: map<int, seq<string>>)
    requires Indexes(index, files, fileSignals.Keys) && uf.Valid() && |uf.rep| == |files|
    modifies uf.parent
    ensures Components(fileSignals, index, uf.rep, fileSignals.Keys, components, order)
    ensures MapBag(components) == MapBag(fileSignals)
  {
    hide Forest, Component, MapBag;
    components, order := map[], map[];
    NothingLeft();
    var rest := fileSignals.Keys;
    ghost var left := fileSignals;
    while rest != {}
      invariant rest <= fileSignals.Keys && uf.Valid()
      invariant Components(fileSignals, index, uf.rep, fileSignals.Keys - rest, components, order)
      invariant left.Keys == rest && (forall f :: f in rest ==> left[f] == fileSignals[f])
      invariant MapBag(components) + MapBag(left) == MapBag(fileSignals)
      decreases rest
    {
      var file :| file in rest;
      ghost var done := fileSignals.Keys - rest;
      rest := rest - {file};
      var root := uf.Find(index[file]);
      ComponentGrows(fileSignals, index, uf.rep, done, components, order, file);
      assert fileSignals.Keys - rest == done + {file};
      MoveBag(components, left, root, file);
      left := left - {file};
      components := components[root := (if root in components then components[root] else []) + fileSignals[file]];
      order := order[root := (if root in order then order[root] else []) + [file]];
    }
    assert left == map[];
    assert fileSignals.Keys - rest == fileSignals.Keys;
  }

  lemma NothingLeft()
    ensures MapBag<int>(map[]) == multiset{} && MapBag<string>(map[]) == multiset{}
  {
  }

  /** A file's signals move from those left over to their component. */
  lemma MoveBag(components: map<int, Signals>, left: map<string, Signals>, root: int, file: string)
    requires file in left
    ensures var was := if root in components then components[root] else [];
            MapBag(components[root := was + left[file]]) + MapBag(left - {file}) == MapBag(components) + MapBag(left)
  {
    MapBagRemove(left, file);
    MapBagAppend(components, root, left[file]);
  }

  /** Roots that are no longer left, with their groups. */
  ghost predicate Listed(components: map<int, Signals>, left: map<int, Signals>, groups: seq<Signals>, roots: seq<int>) {
    && |roots| == |groups|
    && (forall r :: r in roots <==> r in components && r !in left)
    && (forall i, j :: 0 <= i < j < |roots| ==> roots[i] != roots[j])
    && (forall k :: 0 <= k < |roots| ==> roots[k] in components && groups[k] == components[roots[k]])
    && (forall r :: r in left ==> r in components && left[r] == components[r])
  }

  lemma NoneListed(components: map<int, Signals>)
    ensures Listed(components, components, [], [])
  {
  }

  lemma ListedMore(components: map<int, Signals>, left: map<int, Signals>, groups: seq<Signals>, roots: seq<int>, r: int)
    requires Listed(components, left, groups, roots) && r in left
    ensures Listed(components, left - {r}, groups + [left[r]], roots + [r])
  {
    forall q ensures q in roots + [r] <==> q in roots || q == r {
    }
  }

  /** The map's values, in no particular order. */
  method ListComponents(components: map<int, Signals>) returns (groups: seq<Signals>, ghost roots: seq<int>)
    ensures |roots| == |groups|
    ensures forall r :: r in roots <==> r in components
    ensures forall i, j :: 0 <= i < j < |roots| ==> roots[i] != roots[j]
    ensures forall k :: 0 <= k < |roots| ==> roots[k] in components && groups[k] == components[roots[k]]
    ensures SumBags(groups) == MapBag(components)
  {
    hide MapBag, SumBags, Listed;
    groups, roots := [], [];
    var left := components;
    EmptyBags();
    NoneListed(components);
    while |left| > 0
      invariant Listed(components, left, groups, roots)
      invariant SumBags(groups) + MapBag(left) == MapBag(components)
      decreases |left|
    {
      SomeKey(left);
      var r :| r in left;
      ListOneMore(groups, left, r);
      ListedMore(components, left, groups, roots, r);
      groups := groups + [left[r]];
      roots := roots + [r];
      left := left - {r};
    }
    assert left == map[];
    AllListed(components, groups, roots);
  }

  lemma AllListed(components: map<int, Signals>, groups: seq<Signals>, roots: seq<int>)
    requires Listed(components, map[], groups, roots)
    ensures |roots| == |groups|
    ensures forall r :: r in roots <==> r in components
    ensures forall i, j :: 0 <= i < j < |roots| ==> roots[i] != roots[j]
    ensures forall k :: 0 <= k < |roots| ==> roots[k] in components && groups[k] == components[roots[k]]
  {
  }

  lemma SomeKey(m: map<int, Signals>)
    requires |m| > 0
    ensures exists r :: r in m
  {
    var r := AnyOf(m.Keys);
  }

  lemma EmptyBags()
    ensures SumBags([]) == multiset{} && MapBag<int>(map[]) == multiset{}
  {
  }

  lemma ListOneMore(groups: seq<Signals>, left: map<int, Signals>, r: int)
    requires r in left
    ensures SumBags(groups + [left[r]]) + MapBag(left - {r}) == SumBags(groups) + MapBag(left)
  {
    MapBagRemove(left, r);
    SumBagsMore(groups, left[r]);
  }

  lemma ComponentsMakeGroups(pr: Project, fileSignals: map<string, Signals>, files: seq<string>, index: map<string, int>, rep: seq<int>,
                             components: map<int, Signals>, order: map<int, seq<string>>,
                             groups: seq<Signals>, roots: seq<int>, members: seq<seq<string>>)
    requires Indexes(index, files, fileSignals.Keys)
    requires Sound(pr, files, fileSignals.Keys, rep) && Complete(pr, files, rep)
    requires Components(fileSignals, index, rep, fileSignals.Keys, components, order)
    requires |roots| == |groups| == |members|
    requires forall r :: r in roots <==> r in components
    requires forall i, j :: 0 <= i < j < |roots| ==> roots[i] != roots[j]
    requires forall k :: 0 <= k < |roots| ==> roots[k] in order && groups[k] == components[roots[k]] && members[k] == order[roots[k]]
    ensures ByComponent(pr, fileSignals, groups, members)
  {
    hide Connected, Related, Gather, Sound, Complete;
    forall k | 0 <= k < |members|
      ensures Component(fileSignals, index, rep, fileSignals.Keys, groups[k], members[k], roots[k])
    {
      assert roots[k] in order;
    }
    forall f | f in fileSignals ensures exists k :: 0 <= k < |members| && f in members[k] {
      var r := rep[index[f]];
      assert r in order && r in roots;
      var k :| 0 <= k < |roots| && roots[k] == r;
      assert f in members[k];
    }
    forall k, l, f, g | 0 <= k < |members| && 0 <= l < |members| && f in members[k] && g in members[l]
      ensures k == l <==> Connected(pr, fileSignals.Keys, f, g)
    {
      assert rep[index[f]] == roots[k] && rep[index[g]] == roots[l];
      LabelsAreComponents(pr, files, fileSignals.Keys, rep, index[f], index[g]);
    }
  }

  /** Two files' signals land in the same group exactly when the files are
      connected, whatever order the maps are walked in. */
  method ClusterByDependency(pr: Project, fileSignals: map<string, Signals>) returns (groups: seq<Signals>, ghost members: seq<seq<string>>)
    ensures ByComponent(pr, fileSignals, groups, members)
    ensures SumBags(groups) == MapBag(fileSignals)
  {
    hide Forest, Sound, Complete, Components;
    if |fileSignals| == 0 {
      assert fileSignals == map[];
      return [], [];
    }
    var files, index := ListFiles(fileSignals.Keys);
    var uf := LabelFiles(pr, files, index, fileSignals.Keys);
    ghost var order, roots;
    var components;
    components, order := CollectComponents(fileSignals, files, index, uf);
    groups, roots := ListComponents(components);
    OrderHasRoots(fileSignals, index, uf.rep, components, order);
    members := seq(|roots|, k requires 0 <= k < |roots| => order[roots[k]]);
    ComponentsMakeGroups(pr, fileSignals, files, index, uf.rep, components, order, groups, roots, members);
  }

  lemma OrderHasRoots(fileSignals: map<string, Signals>, index: map<string, int>, rep: seq<int>,
                      components: map<int, Signals>, order: map<int, seq<string>>)
    requires Components(fileSignals, index, rep, fileSignals.Keys, components, order)
    ensures components.Keys == order.Keys
  {
  }

  /** Union-find over the files, with every related pair joined. */
  method LabelFiles(pr: Project, files: seq<string>, index: map<string, int>, ghost all: set<string>) returns (uf: UnionFind)
    requires Indexes(index, files, all)
    ensures fresh(uf) && fresh(uf.parent) && uf.Valid() && |uf.rep| == |files|
    ensures Sound(pr, files, all, uf.rep) && Complete(pr, files, uf.rep)
  {
    hide Forest, Connected, Related;
    uf := new UnionFind(|files|);
    AloneIsSound(pr, files, all, uf.rep);
    UnionImports(pr, files, index, all, uf);
    UnionDirectories(pr, files, all, uf);
    JoinedIsComplete(pr, files, index, all, uf.rep);
  }

  lemma AloneIsSound(pr: Project, files: seq<string>, all: set<string>, rep: seq<int>)
    requires Lists(files, all) && |rep| == |files| && forall x :: 0 <= x < |rep| ==> rep[x] == x
    ensures Sound(pr, files, all, rep)
  {
    forall a | 0 <= a < |files| ensures Connected(pr, all, files[a], files[a]) {
      var p := [files[a]];
      assert IsChain(pr, all, p) && p[0] == files[a];
    }
  }
}
