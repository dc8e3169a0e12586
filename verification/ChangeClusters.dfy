/** The clustering pipeline around the dependency grouping: by module, by file,
    by dependency, merging small clusters, splitting loose ones, sorting. */
module ChangeClusters {
  import opened SignalBags
  import opened ClusterPieces
  import opened DependencyClusters

  /** Heuristics the pipeline consults, taken as given. */
  datatype Judge = Judge(
    cohesion: Signals -> real,
    affine: (Signal, Signal) -> bool,
    weight: Signals -> real)

  const COHESION_THRESHOLD := 0.5
  const MAX_CLUSTER_SIZE := 8

  class ChangeCluster {
    var signals: Signals
    const modules: seq<string>
    var cohesion: real

    constructor (signals: Signals, modules: seq<string>, cohesion: real)
      ensures this.signals == signals && this.modules == modules && this.cohesion == cohesion
    {
      this.signals, this.modules, this.cohesion := signals, modules, cohesion;
    }
  }

  ghost function Contents(cs: seq<ChangeCluster>): seq<Signals>
    reads cs
  {
    seq(|cs|, i requires 0 <= i < |cs| reads cs => cs[i].signals)
  }

  ghost function Pieces(cs: seq<ChangeCluster>): seq<Piece>
    reads cs
  {
    seq(|cs|, i requires 0 <= i < |cs| reads cs => Piece(cs[i].signals, cs[i].modules))
  }

  /** Every cluster's cohesion is that of its signals. */
  ghost predicate Judged(cs: seq<ChangeCluster>, judge: Judge)
    reads cs
  {
    forall c :: c in cs ==> c.cohesion == judge.cohesion(c.signals)
  }

  lemma PiecesMore(cs: seq<ChangeCluster>, c: ChangeCluster)
    ensures Pieces(cs + [c]) == Pieces(cs) + [Piece(c.signals, c.modules)]
  {
  }

  lemma PiecesAppend(a: seq<ChangeCluster>, b: seq<ChangeCluster>)
    ensures Pieces(a + b) == Pieces(a) + Pieces(b)
  {
  }

  ghost predicate Distinct(cs: seq<ChangeCluster>) {
    forall i, j :: 0 <= i < j < |cs| ==> cs[i] != cs[j]
  }

  ghost function Labels(cs: seq<ChangeCluster>): seq<seq<string>> {
    seq(|cs|, i requires 0 <= i < |cs| => cs[i].modules)
  }

  /** Not empty, and all of the one module in its tags. */
  ghost predicate OfModule(signals: Signals, tags: seq<string>, moduleOf: Signal -> string) {
    && signals != [] && |tags| == 1
    && forall s :: s in signals ==> moduleOf(s) == tags[0]
  }

  ghost predicate Pure(contents: seq<Signals>, labels: seq<seq<string>>, moduleOf: Signal -> string)
    requires |contents| == |labels|
  {
    forall i :: 0 <= i < |contents| ==> OfModule(contents[i], labels[i], moduleOf)
  }

  lemma {:induction false} InSumBags(ss: seq<Signals>, i: nat, s: Signal)
    requires i < |ss| && s in ss[i]
    ensures s in SumBags(ss)
  {
    if i > 0 { InSumBags(ss[1..], i - 1, s); }
  }

  // ---------------------------------------------------------------- grouping

  /** The signals whose key is k, in order. */
  function Filter<K(==)>(signals: Signals, keys: seq<K>, k: K): (r: Signals)
    requires |keys| == |signals|
    ensures r != [] <==> k in keys
    ensures forall s :: s in r ==> s in signals
  {
    if signals == [] then []
    else
      var n := |signals| - 1;
      assert keys == keys[..n] + [keys[n]];
      Filter(signals[..n], keys[..n], k) + if keys[n] == k then [signals[n]] else []
  }

  ghost predicate Grouped<K(!new)>(groups: map<K, Signals>, signals: Signals, keys: seq<K>)
    requires |keys| == |signals|
  {
    && (forall k :: k in groups <==> k in keys)
    && (forall k :: k in groups ==> groups[k] == Filter(signals, keys, k))
  }

  /** The shape of all three grouping loops. */
  method GroupBy<K(==, !new)>(signals: Signals, keys: seq<K>) returns (groups: map<K, Signals>)
    requires |keys| == |signals|
    ensures Grouped(groups, signals, keys)
    ensures MapBag(groups) == multiset(signals)
  {
    hide MapBag;
    groups := map[];
    EmptyBag<K>();
    var i := 0;
    while i < |signals|
      invariant 0 <= i <= |signals|
      invariant Grouped(groups, signals[..i], keys[..i])
      invariant MapBag(groups) == multiset(signals[..i])
    {
      var k := keys[i];
      GroupedMore(groups, signals[..i], keys[..i], signals[i], k);
      assert signals[..i + 1] == signals[..i] + [signals[i]];
      assert keys[..i + 1] == keys[..i] + [keys[i]];
      MapBagAppend(groups, k, [signals[i]]);
      groups := groups[k := (if k in groups then groups[k] else []) + [signals[i]]];
      i := i + 1;
    }
    assert signals[..i] == signals && keys[..i] == keys;
  }

  lemma EmptyBag<K>()
    ensures MapBag<K>(map[]) == multiset{}
  {
  }

  lemma GroupedMore<K(!new)>(groups: map<K, Signals>, signals: Signals, keys: seq<K>, s: Signal, k: K)
    requires |keys| == |signals| && Grouped(groups, signals, keys)
    ensures Grouped(groups[k := (if k in groups then groups[k] else []) + [s]], signals + [s], keys + [k])
  {
    var more, moreKeys := signals + [s], keys + [k];
    assert more[..|signals|] == signals && moreKeys[..|signals|] == keys;
  }

  /** The module of the first path that has one, else the default. */
  function ModuleOf(paths: seq<string>, modules: map<string, string>, otherwise: string): string {
    if paths == [] then otherwise
    else if paths[0] in modules then modules[paths[0]]
    else ModuleOf(paths[1..], modules, otherwise)
  }

  /** The module of the first path that has one, or the default. */
  lemma {:induction false} ModuleOfFirst(paths: seq<string>, modules: map<string, string>, otherwise: string, i: nat)
    requires i <= |paths| && (forall j :: 0 <= j < i ==> paths[j] !in modules) && (i < |paths| ==> paths[i] in modules)
    ensures ModuleOf(paths, modules, otherwise) == if i < |paths| then modules[paths[i]] else otherwise
  {
    if i > 0 { ModuleOfFirst(paths[1..], modules, otherwise, i - 1); }
  }

  function ModuleKey(modules: map<string, string>, moduleNames: seq<string>): Signal -> string {
    var otherwise := if |moduleNames| > 0 then moduleNames[0] else "General";
    (s: Signal) => ModuleOf(s.paths, modules, otherwise)
  }

  method GroupByModule(signals: Signals, moduleOf: Signal -> string) returns (groups: map<string, Signals>)
    ensures MapBag(groups) == multiset(signals)
    ensures forall m :: m in groups ==> groups[m] != [] && forall s :: s in groups[m] ==> moduleOf(s) == m
    ensures forall s :: s in signals ==> moduleOf(s) in groups
    ensures forall m :: Of(signals, moduleOf, m) == if m in groups then groups[m] else []
  {
    var keys := seq(|signals|, i requires 0 <= i < |signals| => moduleOf(signals[i]));
    groups := GroupBy(signals, keys);
    forall m ensures Of(signals, moduleOf, m) == if m in groups then groups[m] else [] {
      FilterIsOf(signals, keys, moduleOf, m);
    }
    forall m | m in groups ensures forall s :: s in groups[m] ==> moduleOf(s) == m { FilterHasKey(signals, keys, moduleOf, m); }
    forall s | s in signals ensures moduleOf(s) in groups {
      var i :| 0 <= i < |signals| && signals[i] == s;
      assert keys[i] in keys;
    }
  }

  lemma {:induction false} FilterHasKey(signals: Signals, keys: seq<string>, key: Signal -> string, k: string)
    requires |keys| == |signals| && forall i :: 0 <= i < |keys| ==> keys[i] == key(signals[i])
    ensures forall s :: s in Filter(signals, keys, k) ==> key(s) == k
  {
    if signals != [] { FilterHasKey(signals[..|signals| - 1], keys[..|signals| - 1], key, k); }
  }

  lemma {:induction false} FilterIsOf<K>(signals: Signals, keys: seq<K>, key: Signal -> K, k: K)
    requires |keys| == |signals| && forall i :: 0 <= i < |keys| ==> keys[i] == key(signals[i])
    ensures Filter(signals, keys, k) == Of(signals, key, k)
  {
    if signals != [] { FilterIsOf(signals[..|signals| - 1], keys[..|signals| - 1], key, k); }
  }

  method GroupByFile(signals: Signals) returns (groups: map<string, Signals>)
    ensures groups == ByFile(signals)
    ensures MapBag(groups) == multiset(signals)
    ensures forall f :: f in groups ==> groups[f] != []
  {
    var keys := seq(|signals|, i requires 0 <= i < |signals| => FileKey(signals[i]));
    groups := GroupBy(signals, keys);
    GroupedIsByFile(groups, signals, keys);
  }

  lemma GroupedIsByFile(groups: map<string, Signals>, signals: Signals, keys: seq<string>)
    requires |keys| == |signals| && forall i :: 0 <= i < |keys| ==> keys[i] == FileKey(signals[i])
    requires Grouped(groups, signals, keys)
    ensures groups == ByFile(signals)
  {
    hide FileKey, Filter, Of;
    forall f ensures f in groups <==> f in (set s | s in signals :: FileKey(s)) {
      if f in keys {
        var i :| 0 <= i < |keys| && keys[i] == f;
        assert signals[i] in signals;
      }
      if s :| s in signals && FileKey(s) == f {
        var i :| 0 <= i < |signals| && signals[i] == s;
        assert keys[i] == f;
      }
    }
    forall f | f in groups ensures groups[f] == ByFile(signals)[f] { FilterIsOf(signals, keys, FileKey, f); }
  }

  // ----------------------------------------------------------------- merging

  predicate HasCommonModule(a: seq<string>, b: seq<string>) {
    exists m | m in a :: m in b
  }

  /** A cluster of one signal shares its module with no other cluster. */
  ghost predicate LonelyAlone(contents: seq<Signals>, labels: seq<seq<string>>)
    requires |contents| == |labels|
  {
    forall i, j :: 0 <= i < |contents| && 0 <= j < |contents| && i != j && |contents[i]| < MIN_CLUSTER_SIZE ==>
      !HasCommonModule(labels[i], labels[j])
  }

  lemma GrownStaysLonely(contents: seq<Signals>, labels: seq<seq<string>>, at: nat, more: Signals)
    requires |contents| == |labels| && at < |contents| && LonelyAlone(contents, labels)
    ensures LonelyAlone(contents[at := contents[at] + more], labels)
  {
  }

  lemma GrownStaysPure(contents: seq<Signals>, labels: seq<seq<string>>, at: nat, more: Signals, tags: seq<string>, moduleOf: Signal -> string)
    requires |contents| == |labels| && at < |contents| && Pure(contents, labels, moduleOf)
    requires OfModule(more, tags, moduleOf) && HasCommonModule(tags, labels[at])
    ensures Pure(contents[at := contents[at] + more], labels, moduleOf)
  {
    var m :| m in tags && m in labels[at];
    assert m == tags[0] == labels[at][0];
  }

  lemma UnmatchedStaysLonely(contents: seq<Signals>, labels: seq<seq<string>>, signals: Signals, tags: seq<string>)
    requires |contents| == |labels| && LonelyAlone(contents, labels)
    requires forall k :: 0 <= k < |labels| ==> !HasCommonModule(tags, labels[k])
    ensures LonelyAlone(contents + [signals], labels + [tags])
  {
    forall k | 0 <= k < |labels| ensures !HasCommonModule(labels[k], tags) {
      assert !HasCommonModule(tags, labels[k]);
    }
  }

  lemma ContentsMore(cs: seq<ChangeCluster>, c: ChangeCluster)
    ensures Contents(cs + [c]) == Contents(cs) + [c.signals]
  {
  }

  lemma ContentsEmpty()
    ensures Contents([]) == [] && SumBags([]) == multiset{}
  {
  }

  /** The first of large that shares a module takes the small one's signals. */
  method MergeInto(small: ChangeCluster, large: seq<ChangeCluster>, judge: Judge) returns (merged: bool, ghost at: nat)
    requires small !in large && Distinct(large)
    modifies large
    ensures merged <==> exists k :: 0 <= k < |large| && HasCommonModule(small.modules, large[k].modules)
    ensures merged ==>
              && at < |large| && HasCommonModule(small.modules, large[at].modules)
              && Contents(large) == old(Contents(large))[at := old(large[at].signals) + small.signals]
              && Pieces(large) == old(Pieces(large))[at := Piece(old(large[at].signals) + small.signals, large[at].modules)]
              && forall j :: 0 <= j < at ==> !HasCommonModule(small.modules, large[j].modules)
    ensures old(Judged(large, judge)) ==> Judged(large, judge)
    ensures !merged ==> Contents(large) == old(Contents(large)) && Pieces(large) == old(Pieces(large))
  {
    at := 0;
    for k := 0 to |large|
      invariant forall j :: 0 <= j < k ==> !HasCommonModule(small.modules, large[j].modules)
      invariant Contents(large) == old(Contents(large)) && Pieces(large) == old(Pieces(large))
      invariant old(Judged(large, judge)) ==> Judged(large, judge)
    {
      var c := large[k];
      if HasCommonModule(small.modules, c.modules) {
        assert old(Contents(large))[k] == c.signals && old(Pieces(large))[k] == Piece(c.signals, c.modules);
        c.signals := c.signals + small.signals;
        c.cohesion := judge.cohesion(c.signals);
        return true, k;
      }
    }
    return false, 0;
  }

  method Partition(cs: seq<ChangeCluster>) returns (large: seq<ChangeCluster>, small: seq<ChangeCluster>)
    requires Distinct(cs)
    ensures forall c :: c in large ==> c in cs && |c.signals| >= MIN_CLUSTER_SIZE
    ensures forall c :: c in small ==> c in cs && |c.signals| < MIN_CLUSTER_SIZE
    ensures Distinct(large) && Distinct(small)
    ensures SumBags(Contents(large)) + SumBags(Contents(small)) == SumBags(Contents(cs))
    ensures forall m :: Parted(InModule(Pieces(cs), m), InModule(Pieces(large), m), InModule(Pieces(small), m))
  {
    hide SumBags, Contents, Pieces, Parted;
    large, small := [], [];
    ContentsEmpty();
    NothingParted();
    for i := 0 to |cs|
      invariant forall c :: c in large ==> c in cs[..i] && |c.signals| >= MIN_CLUSTER_SIZE
      invariant forall c :: c in small ==> c in cs[..i] && |c.signals| < MIN_CLUSTER_SIZE
      invariant Distinct(large) && Distinct(small)
      invariant SumBags(Contents(large)) + SumBags(Contents(small)) == SumBags(Contents(cs[..i]))
      invariant forall m :: Parted(InModule(Pieces(cs[..i]), m), InModule(Pieces(large), m), InModule(Pieces(small), m))
    {
      var c := cs[i];
      assert cs[..i + 1] == cs[..i] + [c];
      BagMore(cs[..i], c);
      PartedMore(cs[..i], large, small, c);
      if |c.signals| >= MIN_CLUSTER_SIZE {
        BagMore(large, c);
        large := large + [c];
      } else {
        BagMore(small, c);
        small := small + [c];
      }
    }
    assert cs[..|cs|] == cs;
  }

  lemma NothingParted()
    ensures forall m :: Parted(InModule(Pieces([]), m), InModule(Pieces([]), m), InModule(Pieces([]), m))
  {
  }

  lemma PartedMore(cs: seq<ChangeCluster>, large: seq<ChangeCluster>, small: seq<ChangeCluster>, c: ChangeCluster)
    requires forall m :: Parted(InModule(Pieces(cs), m), InModule(Pieces(large), m), InModule(Pieces(small), m))
    ensures forall m :: if |c.signals| >= MIN_CLUSTER_SIZE
                        then Parted(InModule(Pieces(cs + [c]), m), InModule(Pieces(large + [c]), m), InModule(Pieces(small), m))
                        else Parted(InModule(Pieces(cs + [c]), m), InModule(Pieces(large), m), InModule(Pieces(small + [c]), m))
  {
    hide Pieces, InModule, Bigs, Smalls;
    var p := Piece(c.signals, c.modules);
    PiecesMore(cs, c);
    PiecesMore(large, c);
    PiecesMore(small, c);
    forall m
      ensures if |c.signals| >= MIN_CLUSTER_SIZE
              then Parted(InModule(Pieces(cs + [c]), m), InModule(Pieces(large + [c]), m), InModule(Pieces(small), m))
              else Parted(InModule(Pieces(cs + [c]), m), InModule(Pieces(large), m), InModule(Pieces(small + [c]), m))
    {
      var xs := InModule(Pieces(cs), m);
      assert Parted(xs, InModule(Pieces(large), m), InModule(Pieces(small), m));
      InModuleMore(Pieces(cs), p, m);
      InModuleMore(Pieces(large), p, m);
      InModuleMore(Pieces(small), p, m);
      BigsMore(xs, c.signals);
      assert xs + [] == xs && Bigs(xs) + [] == Bigs(xs) && Smalls(xs) + [] == Smalls(xs);
    }
  }

  lemma BagMore(cs: seq<ChangeCluster>, c: ChangeCluster)
    ensures SumBags(Contents(cs + [c])) == SumBags(Contents(cs)) + multiset(c.signals)
  {
    ContentsMore(cs, c);
    SumBagsMore(Contents(cs), c.signals);
  }

  /** What holds of the kept clusters while the small ones are dealt with. */
  ghost predicate Merging(kept: seq<ChangeCluster>, moduleOf: Signal -> string)
    reads kept
  {
    Distinct(kept) && LonelyAlone(Contents(kept), Labels(kept)) && Pure(Contents(kept), Labels(kept), moduleOf)
  }

  /** One small cluster is merged or appended. */
  method Place(small: ChangeCluster, large: seq<ChangeCluster>, judge: Judge, ghost moduleOf: Signal -> string)
    returns (result: seq<ChangeCluster>)
    requires small !in large && OfModule(small.signals, small.modules, moduleOf) && Merging(large, moduleOf)
    requires Judged(large, judge) && small.cohesion == judge.cohesion(small.signals)
    modifies large
    ensures Merging(result, moduleOf) && Judged(result, judge)
    ensures forall m :: InModule(Pieces(result), m) ==
                          if small.modules == [m] then AddTo(old(InModule(Pieces(large), m)), small.signals) else old(InModule(Pieces(large), m))
    ensures result == large || result == large + [small]
    ensures result != []
    ensures SumBags(Contents(result)) == old(SumBags(Contents(large))) + multiset(small.signals)
  {
    hide SumBags, LonelyAlone, Pure, OfModule, HasCommonModule, AddTo, InModule;
    ghost var pieces := Pieces(large);
    ghost var p := Piece(small.signals, small.modules);
    TagsAreSingle(large, small, moduleOf);
    ghost var was := Contents(large);
    ghost var labels := Labels(large);
    var merged;
    ghost var at;
    merged, at := MergeInto(small, large, judge);
    assert forall k :: 0 <= k < |large| ==> labels[k] == large[k].modules;
    if merged {
      SumBagsUpdate(was, at, small.signals);
      GrownStaysLonely(was, labels, at, small.signals);
      GrownStaysPure(was, labels, at, small.signals, small.modules, moduleOf);
      assert was[at] == old(large[at].signals);
      forall m { GrownAt(pieces, at, p, m); }
      result := large;
    } else {
      BagMore(large, small);
      ContentsMore(large, small);
      UnmatchedStaysLonely(was, labels, small.signals, small.modules);
      PureMore(was, labels, small.signals, small.modules, moduleOf);
      assert Labels(large + [small]) == labels + [small.modules];
      PiecesMore(large, small);
      forall m { AppendedNew(pieces, p, m); }
      result := large + [small];
    }
  }

  lemma OneTagEach(a: seq<string>, b: seq<string>)
    requires |a| == 1 && |b| == 1
    ensures HasCommonModule(a, b) <==> b == a
  {
    assert a == [a[0]] && b == [b[0]];
    if a == b { assert a[0] in a && a[0] in b; }
  }

  /** With one tag each, sharing a module is having the same tag. */
  lemma TagsAreSingle(large: seq<ChangeCluster>, small: ChangeCluster, moduleOf: Signal -> string)
    requires Merging(large, moduleOf) && OfModule(small.signals, small.modules, moduleOf)
    ensures |small.modules| == 1
    ensures forall k :: 0 <= k < |large| ==> (HasCommonModule(small.modules, large[k].modules) <==> large[k].modules == small.modules)
  {
    forall k | 0 <= k < |large| ensures HasCommonModule(small.modules, large[k].modules) <==> large[k].modules == small.modules {
      assert OfModule(Contents(large)[k], Labels(large)[k], moduleOf);
      OneTagEach(small.modules, large[k].modules);
    }
  }

  lemma PureMore(contents: seq<Signals>, labels: seq<seq<string>>, signals: Signals, tags: seq<string>, moduleOf: Signal -> string)
    requires |contents| == |labels| && Pure(contents, labels, moduleOf) && OfModule(signals, tags, moduleOf)
    ensures Pure(contents + [signals], labels + [tags], moduleOf)
  {
  }

  /** Small clusters move into the first kept cluster of their module; the
      signals stay the same ones, and a lonely signal is alone in its module. */
  method MergeSmallClusters(cs: seq<ChangeCluster>, judge: Judge, ghost moduleOf: Signal -> string) returns (result: seq<ChangeCluster>)
    requires Distinct(cs) && Pure(Contents(cs), Labels(cs), moduleOf) && Judged(cs, judge)
    modifies cs
    ensures Merging(result, moduleOf) && Judged(result, judge)
    ensures forall m :: InModule(Pieces(result), m) == Regrouped(old(InModule(Pieces(cs), m)))
    ensures forall c :: c in result ==> c in cs
    ensures SumBags(Contents(result)) == old(SumBags(Contents(cs)))
  {
    hide SumBags, Merging, OfModule, Pure, LonelyAlone, Labels, Parted, Regrouped, InModule, Pieces;
    if |cs| <= 1 {
      AtMostOne(cs, moduleOf);
      forall m { OneStays(cs, m); }
      return cs;
    }
    var large, small := Partition(cs);
    StartMerging(cs, large, moduleOf);
    forall c | c in small ensures OfModule(c.signals, c.modules, moduleOf) { MemberIsPure(cs, c, moduleOf); }
    forall c | c in small ensures c !in large { }
    ghost var were, bigs, smalls := Pieces(cs), Pieces(large), Pieces(small);
    assert forall k :: 0 <= k < |large| ==> large[k] in cs;
    assert forall k :: 0 <= k < |small| ==> small[k] in cs;
    result := PlaceAll(small, large, judge, moduleOf);
    forall m ensures InModule(Pieces(result), m) == Regrouped(InModule(were, m)) {
      PartedRegroups(InModule(were, m), InModule(bigs, m), InModule(smalls, m));
    }
  }

  /** The loop over the small clusters. */
  method PlaceAll(small: seq<ChangeCluster>, large: seq<ChangeCluster>, judge: Judge, ghost moduleOf: Signal -> string)
    returns (result: seq<ChangeCluster>)
    requires Distinct(small) && (forall c :: c in small ==> c !in large && OfModule(c.signals, c.modules, moduleOf))
    requires Merging(large, moduleOf) && Judged(large, judge) && Judged(small, judge)
    modifies large, small
    ensures Merging(result, moduleOf) && Judged(result, judge)
    ensures forall c :: c in result ==> c in large || c in small
    ensures SumBags(Contents(result)) == old(SumBags(Contents(large))) + old(SumBags(Contents(small)))
    ensures forall m :: InModule(Pieces(result), m) == Grown(old(InModule(Pieces(large), m)), old(InModule(Pieces(small), m)))
  {
    hide SumBags, Merging, OfModule, Placed, Grown, AddTo, InModule, SignalsOf, Contents;
    result := large;
    ghost var bigs, smalls := Pieces(large), Pieces(small);
    PlacedNone(bigs);
    ContentsAreSignals(large);
    ContentsAreSignals(small);
    assert smalls[..0] == [];
    for i := 0 to |small|
      invariant Merging(result, moduleOf) && Judged(result, judge)
      invariant forall c :: c in result ==> c in large || c in small[..i]
      invariant forall j :: i <= j < |small| ==> small[j] !in result && StillThere(small[j], smalls, j, judge)
      invariant Placed(bigs, smalls[..i], Pieces(result))
    {
      ghost var pieces := Pieces(result);
      assert smalls[..i + 1] == smalls[..i] + [smalls[i]];
      assert forall k :: 0 <= k < |result| ==> result[k] in large || result[k] in small[..i];
      ContentsAreSignals(result);
      result := Place(small[i], result, judge, moduleOf);
      ContentsAreSignals(result);
      PlacedMore(bigs, smalls[..i], smalls[i], pieces, Pieces(result));
    }
    assert smalls[..|small|] == smalls;
    ContentsAreSignals(result);
    AllPlaced(bigs, smalls, Pieces(result));
  }

  lemma ContentsAreSignals(cs: seq<ChangeCluster>)
    ensures Contents(cs) == SignalsOf(Pieces(cs))
  {
  }

  /** A small cluster not dealt with yet is as it was. */
  ghost predicate StillThere(c: ChangeCluster, smalls: seq<Piece>, j: nat, judge: Judge)
    reads c
  {
    j < |smalls| && smalls[j] == Piece(c.signals, c.modules) && c.cohesion == judge.cohesion(c.signals)
  }

  lemma OneStays(cs: seq<ChangeCluster>, m: string)
    requires |cs| <= 1
    ensures InModule(Pieces(cs), m) == Regrouped(InModule(Pieces(cs), m))
  {
    var xs := InModule(Pieces(cs), m);
    if |cs| == 1 { InModuleMore([], Pieces(cs)[0], m); assert Pieces(cs) == [] + [Pieces(cs)[0]]; }
    OneRegrouped(xs);
  }

  lemma AtMostOne(cs: seq<ChangeCluster>, moduleOf: Signal -> string)
    requires |cs| <= 1 && Pure(Contents(cs), Labels(cs), moduleOf)
    ensures Merging(cs, moduleOf)
  {
  }

  lemma MemberIsPure(cs: seq<ChangeCluster>, c: ChangeCluster, moduleOf: Signal -> string)
    requires c in cs && Pure(Contents(cs), Labels(cs), moduleOf)
    ensures OfModule(c.signals, c.modules, moduleOf)
  {
    var i :| 0 <= i < |cs| && cs[i] == c;
    assert Contents(cs)[i] == c.signals && Labels(cs)[i] == c.modules;
  }

  lemma StartMerging(cs: seq<ChangeCluster>, large: seq<ChangeCluster>, moduleOf: Signal -> string)
    requires Pure(Contents(cs), Labels(cs), moduleOf) && Distinct(large)
    requires forall c :: c in large ==> c in cs && |c.signals| >= MIN_CLUSTER_SIZE
    ensures Merging(large, moduleOf)
  {
    forall i | 0 <= i < |large| ensures OfModule(Contents(large)[i], Labels(large)[i], moduleOf) {
      MemberIsPure(cs, large[i], moduleOf);
    }
  }

  // --------------------------------------------------------------- splitting

  /** Signal i joins group g, started by the signal leaders[g]; no earlier
      group's leader is affine to it. */
  ghost predicate Fits(i: nat, g: int, leaders: seq<nat>, signals: Signals, affine: (Signal, Signal) -> bool)
    requires i < |signals| && forall h :: 0 <= h < |leaders| ==> leaders[h] < |signals|
  {
    && 0 <= g < |leaders| && leaders[g] <= i
    && (leaders[g] == i || affine(signals[leaders[g]], signals[i]))
    && forall h :: 0 <= h < g ==> !affine(signals[leaders[h]], signals[i])
  }

  ghost predicate Leads(groupOf: seq<int>, leaders: seq<nat>, n: nat) {
    && n <= |groupOf|
    && (forall g :: 0 <= g < |leaders| ==> leaders[g] < n && groupOf[leaders[g]] == g)
    && (forall g, h :: 0 <= g < h < |leaders| ==> leaders[g] < leaders[h])
  }

  /** Every signal is with the first earlier leader affine to it, or leads. */
  ghost predicate FirstFit(groupOf: seq<int>, leaders: seq<nat>, signals: Signals, affine: (Signal, Signal) -> bool) {
    && |groupOf| == |signals| && Leads(groupOf, leaders, |signals|)
    && forall i :: 0 <= i < |signals| ==> Fits(i, groupOf[i], leaders, signals, affine)
  }

  /** Only one assignment is first-fit. */
  lemma {:induction false} FirstFitIsUnique(a: seq<int>, l: seq<nat>, b: seq<int>, m: seq<nat>,
                                            signals: Signals, affine: (Signal, Signal) -> bool, n: nat)
    requires FirstFit(a, l, signals, affine) && FirstFit(b, m, signals, affine) && n <= |signals|
    ensures a[..n] == b[..n] && LeadersBelow(l, m, n) && LeadersBelow(m, l, n)
  {
    if n > 0 {
      FirstFitIsUnique(a, l, b, m, signals, affine, n - 1);
      NoEarlier(a, l, b, m, signals, affine, n - 1);
      NoEarlier(b, m, a, l, signals, affine, n - 1);
    }
  }

  ghost predicate LeadersBelow(l: seq<nat>, m: seq<nat>, n: nat) {
    forall g :: 0 <= g < |l| && l[g] < n ==> g < |m| && m[g] == l[g]
  }

  lemma NoEarlier(a: seq<int>, l: seq<nat>, b: seq<int>, m: seq<nat>, signals: Signals, affine: (Signal, Signal) -> bool, i: nat)
    requires FirstFit(a, l, signals, affine) && FirstFit(b, m, signals, affine) && i < |signals|
    requires LeadersBelow(l, m, i) && LeadersBelow(m, l, i)
    ensures b[i] >= a[i]
  {
    var g := b[i];
    assert Fits(i, g, m, signals, affine) && Fits(i, a[i], l, signals, affine);
  }

  /** In a group it fits, or refused by the first count leaders. */
  ghost predicate Settled(k: nat, g: int, leaders: seq<nat>, count: nat, signals: Signals, affine: (Signal, Signal) -> bool)
    requires k < |signals| && count <= |leaders| && forall h :: 0 <= h < |leaders| ==> leaders[h] < |signals|
  {
    if g == -1 then forall h :: 0 <= h < count ==> !affine(signals[leaders[h]], signals[k])
    else Fits(k, g, leaders, signals, affine)
  }

  lemma StillSettled(k: nat, g: int, leaders: seq<nat>, leader: nat, signals: Signals, affine: (Signal, Signal) -> bool)
    requires k < |signals| && leader < |signals| && forall h :: 0 <= h < |leaders| ==> leaders[h] < |signals|
    requires Settled(k, g, leaders, |leaders|, signals, affine)
    ensures Settled(k, g, leaders + [leader], |leaders|, signals, affine)
  {
  }

  /** The groups are filled leader by leader. */
  method AssignGroups(signals: Signals, affine: (Signal, Signal) -> bool) returns (groupOf: array<int>, ghost leaders: seq<nat>)
    ensures fresh(groupOf)
    ensures FirstFit(groupOf[..], leaders, signals, affine)
  {
    hide Fits;
    var n := |signals|;
    groupOf := new int[n](_ => -1);
    leaders := [];
    var groupID := 0;
    var i := 0;
    while i < n
      invariant 0 <= i <= n && groupID == |leaders|
      invariant Leads(groupOf[..], leaders, i)
      invariant forall k :: 0 <= k < i ==> groupOf[k] != -1
      invariant forall k :: 0 <= k < n ==> Settled(k, groupOf[k], leaders, groupID, signals, affine)
    {
      if groupOf[i] == -1 {
        groupID, leaders := FillGroup(groupOf, i, groupID, leaders, signals, affine);
      }
      i := i + 1;
    }
  }

  /** Signal i starts a group, and takes later ungrouped signals along. */
  method FillGroup(groupOf: array<int>, i: nat, groupID: nat, ghost leaders: seq<nat>, signals: Signals, affine: (Signal, Signal) -> bool)
    returns (next: nat, ghost more: seq<nat>)
    requires i < groupOf.Length == |signals| && groupOf[i] == -1 && groupID == |leaders| && Leads(groupOf[..], leaders, i)
    requires forall k :: 0 <= k < |signals| ==> Settled(k, groupOf[k], leaders, groupID, signals, affine)
    requires forall k :: 0 <= k < i ==> groupOf[k] != -1
    modifies groupOf
    ensures next == groupID + 1 && more == leaders + [i] && Leads(groupOf[..], more, i + 1)
    ensures forall k :: 0 <= k < i ==> groupOf[k] == old(groupOf[k])
    ensures groupOf[i] != -1
    ensures forall k :: 0 <= k < |signals| ==> Settled(k, groupOf[k], more, next, signals, affine)
  {
    hide Settled, Leads;
    more := leaders + [i];
    LeadersInRange(groupOf[..], leaders, i);
    forall k | 0 <= k < |signals| ensures Settled(k, groupOf[k], more, groupID, signals, affine) {
      StillSettled(k, groupOf[k], leaders, i, signals, affine);
    }
    NewLeader(groupOf[..], leaders, i);
    LeaderSettles(more, groupID, signals, affine);
    ghost var was := groupOf[..];
    groupOf[i] := groupID;
    assert groupOf[..] == was[i := groupID];
    var j := i + 1;
    while j < |signals|
      invariant i < j <= |signals|
      invariant Leads(groupOf[..], more, i + 1)
      invariant groupOf[i] == groupID
      invariant forall k :: 0 <= k < i ==> groupOf[k] == was[k]
      invariant forall k :: i < k < j ==> Settled(k, groupOf[k], more, groupID + 1, signals, affine)
      invariant forall k :: j <= k < |signals| ==> groupOf[k] == was[k]
    {
      ghost var now := groupOf[..];
      if groupOf[j] == -1 && affine(signals[i], signals[j]) {
        groupOf[j] := groupID;
        assert groupOf[..] == now[j := groupID];
      }
      assert groupOf[..] == now[j := groupOf[j]];
      Offered(j, was[j], more, groupID, signals, affine);
      LaterIsNoLeader(now, more, i + 1, j, groupOf[j]);
      j := j + 1;
    }
    next := groupID + 1;
    forall k | 0 <= k < i ensures Settled(k, groupOf[k], more, next, signals, affine) {
      GroupedIsSettled(k, groupOf[k], more, groupID, signals, affine);
    }
  }

  lemma LeadersInRange(groupOf: seq<int>, leaders: seq<nat>, n: nat)
    requires Leads(groupOf, leaders, n)
    ensures n <= |groupOf| && forall h :: 0 <= h < |leaders| ==> leaders[h] < n
  {
  }

  lemma NewLeader(groupOf: seq<int>, leaders: seq<nat>, i: nat)
    requires Leads(groupOf, leaders, i) && i < |groupOf|
    ensures Leads(groupOf[i := |leaders|], leaders + [i], i + 1)
  {
  }

  lemma LaterIsNoLeader(groupOf: seq<int>, leaders: seq<nat>, n: nat, j: nat, g: int)
    requires Leads(groupOf, leaders, n) && n <= j < |groupOf|
    ensures Leads(groupOf[j := g], leaders, n)
  {
  }

  lemma LeaderSettles(more: seq<nat>, groupID: nat, signals: Signals, affine: (Signal, Signal) -> bool)
    requires |more| == groupID + 1 && forall h :: 0 <= h < |more| ==> more[h] < |signals|
    ensures var i := more[groupID];
            Settled(i, -1, more, groupID, signals, affine) ==> Settled(i, groupID, more, groupID + 1, signals, affine)
  {
  }

  lemma GroupedIsSettled(k: nat, g: int, more: seq<nat>, groupID: nat, signals: Signals, affine: (Signal, Signal) -> bool)
    requires k < |signals| && |more| == groupID + 1 && forall h :: 0 <= h < |more| ==> more[h] < |signals|
    requires Settled(k, g, more, groupID, signals, affine) && g != -1
    ensures Settled(k, g, more, groupID + 1, signals, affine)
  {
  }

  /** Signal j is offered the group that more's last leader started. */
  lemma Offered(j: nat, was: int, more: seq<nat>, groupID: nat, signals: Signals, affine: (Signal, Signal) -> bool)
    requires j < |signals| && |more| == groupID + 1 && forall h :: 0 <= h < |more| ==> more[h] < |signals|
    requires more[groupID] < j && Settled(j, was, more, groupID, signals, affine)
    ensures var g := if was == -1 && affine(signals[more[groupID]], signals[j]) then groupID else was;
            Settled(j, g, more, groupID + 1, signals, affine)
  {
  }

  lemma ContentsConcat(a: seq<ChangeCluster>, b: seq<ChangeCluster>)
    ensures SumBags(Contents(a + b)) == SumBags(Contents(a)) + SumBags(Contents(b))
  {
    hide SumBags;
    ContentsAppend(a, b);
    SumBagsConcat(Contents(a), Contents(b));
  }

  lemma ContentsAppend(a: seq<ChangeCluster>, b: seq<ChangeCluster>)
    ensures Contents(a + b) == Contents(a) + Contents(b)
  {
  }

  /** Every cluster is of its one module. */
  ghost predicate AllOfModule(cs: seq<ChangeCluster>, moduleOf: Signal -> string)
    reads cs
  {
    forall c :: c in cs ==> OfModule(c.signals, c.modules, moduleOf)
  }

  lemma PureClusters(cs: seq<ChangeCluster>, moduleOf: Signal -> string)
    ensures AllOfModule(cs, moduleOf) <==> Pure(Contents(cs), Labels(cs), moduleOf)
  {
    if Pure(Contents(cs), Labels(cs), moduleOf) {
      forall c | c in cs ensures OfModule(c.signals, c.modules, moduleOf) { MemberIsPure(cs, c, moduleOf); }
    }
  }

  /** One new cluster per group. */
  method MakeClusters(groups: seq<Signals>, modules: seq<string>, judge: Judge) returns (result: seq<ChangeCluster>)
    ensures forall c :: c in result ==> fresh(c) && c.modules == modules && c.cohesion == judge.cohesion(c.signals)
    ensures Distinct(result) && Contents(result) == groups
  {
    result := [];
    for i := 0 to |groups|
      invariant forall c :: c in result ==> fresh(c) && c.modules == modules && c.cohesion == judge.cohesion(c.signals)
      invariant Distinct(result) && Contents(result) == groups[..i]
    {
      var c := new ChangeCluster(groups[i], modules, judge.cohesion(groups[i]));
      ContentsMore(result, c);
      assert groups[..i + 1] == groups[..i] + [groups[i]];
      result := result + [c];
    }
    assert groups[..|groups|] == groups;
  }

  lemma MadeOfModule(cs: seq<ChangeCluster>, groups: seq<Signals>, modules: seq<string>, moduleOf: Signal -> string)
    requires Contents(cs) == groups && forall c :: c in cs ==> c.modules == modules
    requires forall k :: 0 <= k < |groups| ==> OfModule(groups[k], modules, moduleOf)
    ensures AllOfModule(cs, moduleOf)
  {
    forall c | c in cs ensures OfModule(c.signals, c.modules, moduleOf) {
      var i :| 0 <= i < |cs| && cs[i] == c;
      assert Contents(cs)[i] == c.signals;
    }
  }

  /** Above two signals, one cluster per group of a first-fit assignment. */
  method SplitBySymbolAffinity(cluster: ChangeCluster, judge: Judge, ghost moduleOf: Signal -> string)
    returns (result: seq<ChangeCluster>, ghost groupOf: seq<int>, ghost leaders: seq<nat>, ghost ids: seq<int>)
    requires OfModule(cluster.signals, cluster.modules, moduleOf)
    ensures SumBags(Contents(result)) == multiset(cluster.signals)
    ensures Distinct(result) && AllOfModule(result, moduleOf)
    ensures forall c :: c in result ==> (c == cluster || fresh(c)) && c.modules == cluster.modules
    ensures if |cluster.signals| <= 2 then result == [cluster]
            else
              && FirstFit(groupOf, leaders, cluster.signals, judge.affine)
              && |ids| == |result| && (forall g :: g in ids <==> g in groupOf)
              && (forall i, j :: 0 <= i < j < |ids| ==> ids[i] != ids[j])
              && forall k :: 0 <= k < |ids| ==> result[k].signals == Filter(cluster.signals, groupOf, ids[k])
  {
    hide SumBags, MapBag, Fits, Leads, Filter;
    var signals := cluster.signals;
    groupOf, leaders, ids := [], [], [];
    if |signals| <= 2 {
      result := [cluster];
      SumBagsOne(signals);
      assert Contents(result) == [signals];
      return;
    }
    var table;
    table, leaders := AssignGroups(signals, judge.affine);
    groupOf := table[..];
    var groups := GroupBy(signals, table[..]);
    var lists;
    lists, ids := ListComponents(groups);
    result := MakeClusters(lists, cluster.modules, judge);
    MadeOfModule(result, lists, cluster.modules, moduleOf);
    assert forall k :: 0 <= k < |result| ==> result[k].signals == Contents(result)[k];
  }

  /** The groups of a first-fit assignment, in no particular order. */
  ghost predicate FirstFitGroups(signals: Signals, affine: (Signal, Signal) -> bool, groups: seq<Signals>,
                                 groupOf: seq<int>, leaders: seq<nat>, ids: seq<int>) {
    && FirstFit(groupOf, leaders, signals, affine)
    && |ids| == |groups| && (forall g :: g in ids <==> g in groupOf)
    && (forall i, j :: 0 <= i < j < |ids| ==> ids[i] != ids[j])
    && forall k :: 0 <= k < |ids| ==> groups[k] == Filter(signals, groupOf, ids[k])
  }

  predicate TooLoose(judge: Judge, signals: Signals) {
    |signals| > MAX_CLUSTER_SIZE && judge.cohesion(signals) < COHESION_THRESHOLD
  }

  /** A cluster stays, unless it is large and loose: then its first-fit groups
      take its place. */
  ghost predicate CutOf(judge: Judge, signals: Signals, parts: seq<Signals>) {
    if TooLoose(judge, signals) then
      exists groupOf, leaders, ids :: FirstFitGroups(signals, judge.affine, parts, groupOf, leaders, ids)
    else parts == [signals]
  }

  /** Clusters cut one by one, in order. */
  ghost predicate CutInto(judge: Judge, xs: seq<Signals>, ys: seq<Signals>) {
    exists cuts: seq<seq<Signals>> :: CutsAre(judge, xs, cuts) && ys == Flat(cuts)
  }

  ghost predicate CutsAre(judge: Judge, xs: seq<Signals>, cuts: seq<seq<Signals>>) {
    |cuts| == |xs| && forall i :: 0 <= i < |xs| ==> CutOf(judge, xs[i], cuts[i])
  }

  lemma CutNone(judge: Judge)
    ensures CutInto(judge, [], [])
  {
    assert CutsAre(judge, [], []) && Flat<Signals>([]) == [];
  }

  lemma CutOneMore(judge: Judge, xs: seq<Signals>, ys: seq<Signals>, x: Signals, parts: seq<Signals>)
    requires CutInto(judge, xs, ys) && CutOf(judge, x, parts)
    ensures CutInto(judge, xs + [x], ys + parts)
  {
    hide CutOf;
    var cuts :| CutsAre(judge, xs, cuts) && ys == Flat(cuts);
    assert (cuts + [parts])[..|cuts|] == cuts;
    assert CutsAre(judge, xs + [x], cuts + [parts]);
  }

  /** Clusters that are not loose stay as they are. */
  lemma {:induction false} NothingToCut(judge: Judge, xs: seq<Signals>, cuts: seq<seq<Signals>>)
    requires CutsAre(judge, xs, cuts) && forall x :: x in xs ==> !TooLoose(judge, x)
    ensures Flat(cuts) == xs
  {
    hide TooLoose;
    if xs != [] {
      var n := |xs| - 1;
      assert xs == xs[..n] + [xs[n]] && xs[n] in xs && CutOf(judge, xs[n], cuts[n]);
      NothingToCut(judge, xs[..n], cuts[..n]);
    }
  }

  /** One cluster's parts, module by module. */
  lemma PartsInModule(judge: Judge, c: ChangeCluster, parts: seq<ChangeCluster>, before: seq<Piece>, after: seq<Piece>)
    requires |c.modules| == 1 && CutOf(judge, c.signals, Contents(parts)) && forall d :: d in parts ==> d.modules == c.modules
    requires forall m :: CutInto(judge, InModule(before, m), InModule(after, m))
    ensures forall m :: CutInto(judge, InModule(before + [Piece(c.signals, c.modules)], m), InModule(after + Pieces(parts), m))
  {
    hide CutOf, CutInto, InModule;
    forall m ensures CutInto(judge, InModule(before + [Piece(c.signals, c.modules)], m), InModule(after + Pieces(parts), m)) {
      InModuleMore(before, Piece(c.signals, c.modules), m);
      InModuleConcat(after, Pieces(parts), m);
      forall i | 0 <= i < |parts| ensures Pieces(parts)[i] == Piece(Contents(parts)[i], [c.modules[0]]) {
        assert parts[i] in parts && c.modules == [c.modules[0]];
      }
      AllInModule(Pieces(parts), Contents(parts), c.modules[0], m);
      assert InModule(before, m) + [] == InModule(before, m) && InModule(after, m) + [] == InModule(after, m);
      if c.modules == [m] { CutOneMore(judge, InModule(before, m), InModule(after, m), c.signals, Contents(parts)); }
    }
  }

  ghost predicate Loose(c: ChangeCluster)
    reads c
  {
    |c.signals| > MAX_CLUSTER_SIZE && c.cohesion < COHESION_THRESHOLD
  }

  method SplitIfLoose(c: ChangeCluster, judge: Judge, ghost moduleOf: Signal -> string) returns (parts: seq<ChangeCluster>)
    requires OfModule(c.signals, c.modules, moduleOf) && c.cohesion == judge.cohesion(c.signals)
    ensures SumBags(Contents(parts)) == multiset(c.signals)
    ensures Distinct(parts) && AllOfModule(parts, moduleOf)
    ensures forall d :: d in parts ==> (d == c || fresh(d)) && d.modules == c.modules
    ensures !Loose(c) ==> parts == [c]
    ensures CutOf(judge, c.signals, Contents(parts))
  {
    if |c.signals| > MAX_CLUSTER_SIZE && c.cohesion < COHESION_THRESHOLD {
      ghost var groupOf, leaders, ids;
      parts, groupOf, leaders, ids := SplitBySymbolAffinity(c, judge, moduleOf);
      assert forall k :: 0 <= k < |parts| ==> Contents(parts)[k] == parts[k].signals;
      assert FirstFitGroups(c.signals, judge.affine, Contents(parts), groupOf, leaders, ids);
    } else {
      parts := [c];
      SumBagsOne(c.signals);
      assert Contents(parts) == [c.signals];
    }
  }

  lemma JoinedStaysOfModule(a: seq<ChangeCluster>, b: seq<ChangeCluster>, moduleOf: Signal -> string)
    requires AllOfModule(a, moduleOf) && AllOfModule(b, moduleOf)
    ensures AllOfModule(a + b, moduleOf)
  {
  }

  lemma JoinedStaysDistinct(a: seq<ChangeCluster>, b: seq<ChangeCluster>)
    requires Distinct(a) && Distinct(b) && forall c :: c in a ==> c !in b
    ensures Distinct(a + b)
  {
    forall i, j | 0 <= i < |a| && 0 <= j < |b| ensures a[i] != b[j] {
      assert a[i] in a && b[j] in b;
    }
  }

  method SplitLargeClusters(cs: seq<ChangeCluster>, judge: Judge, ghost moduleOf: Signal -> string) returns (result: seq<ChangeCluster>)
    requires Distinct(cs) && AllOfModule(cs, moduleOf) && Judged(cs, judge)
    ensures SumBags(Contents(result)) == SumBags(Contents(cs))
    ensures forall m :: CutInto(judge, InModule(Pieces(cs), m), InModule(Pieces(result), m))
    ensures Distinct(result) && AllOfModule(result, moduleOf)
    ensures forall c :: c in result ==> c in cs || fresh(c)
    ensures forall c :: c in cs && !Loose(c) ==> c in result
  {
    hide SumBags, OfModule, Contents, Pieces, Loose, CutOf, CutInto, InModule;
    result := [];
    ContentsEmpty();
    CutsNothing(judge);
    for i := 0 to |cs|
      invariant SumBags(Contents(result)) == SumBags(Contents(cs[..i]))
      invariant Distinct(result) && AllOfModule(result, moduleOf)
      invariant forall c :: c in result ==> c in cs[..i] || fresh(c)
      invariant forall k :: 0 <= k < i && !Loose(cs[k]) ==> cs[k] in result
      invariant forall m :: CutInto(judge, InModule(Pieces(cs[..i]), m), InModule(Pieces(result), m))
    {
      assert cs[..i + 1] == cs[..i] + [cs[i]];
      BagMore(cs[..i], cs[i]);
      assert cs[i] !in cs[..i];
      var parts := SplitIfLoose(cs[i], judge, moduleOf);
      OneTag(cs[i], moduleOf);
      PartsInModule(judge, cs[i], parts, Pieces(cs[..i]), Pieces(result));
      PiecesMore(cs[..i], cs[i]);
      PiecesAppend(result, parts);
      ContentsConcat(result, parts);
      JoinedStaysOfModule(result, parts, moduleOf);
      JoinedStaysDistinct(result, parts);
      result := result + parts;
    }
    assert cs[..|cs|] == cs;
  }

  lemma CutsNothing(judge: Judge)
    ensures forall m :: CutInto(judge, InModule(Pieces([]), m), InModule(Pieces([]), m))
  {
    CutNone(judge);
  }

  lemma OneTag(c: ChangeCluster, moduleOf: Signal -> string)
    requires OfModule(c.signals, c.modules, moduleOf)
    ensures |c.modules| == 1
  {
  }

  method RefreshCohesion(cs: seq<ChangeCluster>, judge: Judge)
    modifies cs
    ensures Contents(cs) == old(Contents(cs)) && Pieces(cs) == old(Pieces(cs))
    ensures forall c :: c in cs ==> c.signals == old(c.signals) && c.cohesion == judge.cohesion(c.signals)
  {
    for i := 0 to |cs|
      invariant forall c :: c in cs ==> c.signals == old(c.signals)
      invariant forall k :: 0 <= k < i ==> cs[k].cohesion == judge.cohesion(cs[k].signals)
    {
      cs[i].cohesion := judge.cohesion(cs[i].signals);
    }
    assert forall k :: 0 <= k < |cs| ==> cs[k].signals == old(cs[k].signals);
  }

  // ----------------------------------------------------------------- sorting

  function Score(c: ChangeCluster, judge: Judge): real
    reads c
  {
    c.cohesion * judge.weight(c.signals)
  }

  ghost predicate Ranked(cs: seq<ChangeCluster>, judge: Judge)
    reads cs
  {
    forall i, j :: 0 <= i < j < |cs| ==> Score(cs[i], judge) >= Score(cs[j], judge)
  }

  lemma InsertBag(cs: seq<ChangeCluster>, k: nat, c: ChangeCluster)
    requires k <= |cs|
    ensures SumBags(Contents(cs[..k] + [c] + cs[k..])) == SumBags(Contents(cs)) + multiset(c.signals)
  {
    hide SumBags, Contents;
    ContentsConcat(cs[..k] + [c], cs[k..]);
    BagMore(cs[..k], c);
    ContentsConcat(cs[..k], cs[k..]);
    assert cs == cs[..k] + cs[k..];
  }

  method InsertRanked(cs: seq<ChangeCluster>, c: ChangeCluster, judge: Judge) returns (result: seq<ChangeCluster>)
    requires Ranked(cs, judge)
    ensures Ranked(result, judge)
    ensures multiset(result) == multiset(cs + [c])
    ensures SumBags(Contents(result)) == SumBags(Contents(cs)) + multiset(c.signals)
    ensures forall m :: SameClusters(InModule(Pieces(result), m), InModule(Pieces(cs + [c]), m))
  {
    hide SumBags, Contents, Pieces, InModule, SameClusters, Score, Ranked;
    var score := Score(c, judge);
    var k := 0;
    while k < |cs| && Score(cs[k], judge) >= score
      invariant 0 <= k <= |cs|
      invariant forall j :: 0 <= j < k ==> Score(cs[j], judge) >= score
    {
      k := k + 1;
    }
    InsertBag(cs, k, c);
    InsertKeepsRank(cs, k, c, judge);
    assert cs == cs[..k] + cs[k..];
    forall m { InsertInModule(cs, k, c, m); }
    result := cs[..k] + [c] + cs[k..];
  }

  /** The same contents, in any order. */
  ghost predicate SameClusters(a: seq<Signals>, b: seq<Signals>) {
    multiset(a) == multiset(b)
  }

  lemma InsertInModule(cs: seq<ChangeCluster>, k: nat, c: ChangeCluster, m: string)
    requires k <= |cs|
    ensures SameClusters(InModule(Pieces(cs[..k] + [c] + cs[k..]), m), InModule(Pieces(cs + [c]), m))
  {
    hide InModule, Pieces;
    var p := Piece(c.signals, c.modules);
    assert cs == cs[..k] + cs[k..];
    PiecesMore(cs, c);
    PiecesMore(cs[..k], c);
    PiecesAppend(cs[..k], cs[k..]);
    PiecesAppend(cs[..k] + [c], cs[k..]);
    InModuleMore(Pieces(cs), p, m);
    InModuleMore(Pieces(cs[..k]), p, m);
    InModuleConcat(Pieces(cs[..k]), Pieces(cs[k..]), m);
    InModuleConcat(Pieces(cs[..k]) + [p], Pieces(cs[k..]), m);
  }

  lemma InsertKeepsRank(cs: seq<ChangeCluster>, k: nat, c: ChangeCluster, judge: Judge)
    requires Ranked(cs, judge) && k <= |cs|
    requires forall j :: 0 <= j < k ==> Score(cs[j], judge) >= Score(c, judge)
    requires k < |cs| ==> Score(cs[k], judge) <= Score(c, judge)
    ensures Ranked(cs[..k] + [c] + cs[k..], judge)
  {
    hide Score;
    forall j | k <= j < |cs| ensures Score(cs[j], judge) <= Score(c, judge) {
      assert j == k || Score(cs[k], judge) >= Score(cs[j], judge);
    }
  }

  /** Any permutation in descending order of score will do. */
  method SortByScore(cs: seq<ChangeCluster>, judge: Judge) returns (result: seq<ChangeCluster>)
    ensures multiset(result) == multiset(cs)
    ensures SumBags(Contents(result)) == SumBags(Contents(cs))
    ensures forall m :: SameClusters(InModule(Pieces(result), m), InModule(Pieces(cs), m))
    ensures Ranked(result, judge)
  {
    hide SumBags, Contents, Pieces, InModule, SameClusters, Score;
    result := [];
    NothingSame();
    for i := 0 to |cs|
      invariant multiset(result) == multiset(cs[..i])
      invariant SumBags(Contents(result)) == SumBags(Contents(cs[..i]))
      invariant forall m :: SameClusters(InModule(Pieces(result), m), InModule(Pieces(cs[..i]), m))
      invariant Ranked(result, judge)
    {
      assert cs[..i + 1] == cs[..i] + [cs[i]];
      BagMore(cs[..i], cs[i]);
      SameMore(result, cs[..i], cs[i]);
      result := InsertRanked(result, cs[i], judge);
    }
    assert cs[..|cs|] == cs;
  }

  lemma NothingSame()
    ensures forall m :: SameClusters(InModule(Pieces([]), m), InModule(Pieces([]), m))
  {
  }

  lemma SameMore(a: seq<ChangeCluster>, b: seq<ChangeCluster>, c: ChangeCluster)
    requires forall m :: SameClusters(InModule(Pieces(a), m), InModule(Pieces(b), m))
    ensures forall m, xs :: SameClusters(xs, InModule(Pieces(a + [c]), m)) ==> SameClusters(xs, InModule(Pieces(b + [c]), m))
  {
    hide InModule, Pieces;
    PiecesMore(a, c);
    PiecesMore(b, c);
    forall m, xs | SameClusters(xs, InModule(Pieces(a + [c]), m)) ensures SameClusters(xs, InModule(Pieces(b + [c]), m)) {
      assert SameClusters(InModule(Pieces(a), m), InModule(Pieces(b), m));
      InModuleMore(Pieces(a), Piece(c.signals, c.modules), m);
      InModuleMore(Pieces(b), Piece(c.signals, c.modules), m);
    }
  }

  // ---------------------------------------------------------------- pipeline

  lemma GatherNotEmpty(fs: seq<string>, fileSignals: map<string, Signals>)
    requires fs != [] && forall f :: f in fs ==> f in fileSignals && fileSignals[f] != []
    ensures Gather(fs, fileSignals) != []
  {
  }

  lemma GroupsOfModule(pr: Project, fileSignals: map<string, Signals>, groups: seq<Signals>, members: seq<seq<string>>,
                       signals: Signals, m: string, moduleOf: Signal -> string)
    requires ByComponent(pr, fileSignals, groups, members)
    requires SumBags(groups) == multiset(signals)
    requires forall f :: f in fileSignals ==> fileSignals[f] != []
    requires forall s :: s in signals ==> moduleOf(s) == m
    ensures forall k :: 0 <= k < |groups| ==> OfModule(groups[k], [m], moduleOf)
  {
    forall k | 0 <= k < |groups| ensures OfModule(groups[k], [m], moduleOf) {
      GatherNotEmpty(members[k], fileSignals);
      forall s | s in groups[k] ensures moduleOf(s) == m {
        InSumBags(groups, k, s);
        assert s in multiset(signals);
      }
    }
  }

  /** One module's signals, by connected files. */
  method ClusterModule(pr: Project, m: string, signals: Signals, judge: Judge, ghost moduleOf: Signal -> string)
    returns (result: seq<ChangeCluster>, ghost members: seq<seq<string>>)
    requires forall s :: s in signals ==> moduleOf(s) == m
    ensures ByComponent(pr, ByFile(signals), Contents(result), members)
    ensures SumBags(Contents(result)) == multiset(signals)
    ensures Distinct(result) && AllOfModule(result, moduleOf)
    ensures forall c :: c in result ==> fresh(c) && c.modules == [m] && c.cohesion == judge.cohesion(c.signals)
  {
    hide SumBags, MapBag, ByComponent, ByFile, OfModule;
    var fileSignals := GroupByFile(signals);
    var groups;
    groups, members := ClusterByDependency(pr, fileSignals);
    GroupsOfModule(pr, fileSignals, groups, members, signals, m, moduleOf);
    result := MakeClusters(groups, [m], judge);
    MadeOfModule(result, groups, [m], moduleOf);
  }

  /** These modules are done, and the others left as they were. */
  ghost predicate LeftToDo(groups: map<string, Signals>, left: map<string, Signals>, done: set<string>) {
    && left.Keys <= groups.Keys && done == groups.Keys - left.Keys
    && forall m :: m in left ==> left[m] == groups[m]
  }

  ghost predicate Keyed(groups: map<string, Signals>, moduleOf: Signal -> string) {
    forall m, s :: m in groups && s in groups[m] ==> moduleOf(s) == m
  }

  lemma AllDone(groups: map<string, Signals>, done: set<string>)
    requires LeftToDo(groups, map[], done)
    ensures done == groups.Keys
  {
  }

  lemma NoClustersYet(groups: map<string, Signals>, judge: Judge, moduleOf: Signal -> string)
    ensures Distinct([]) && AllOfModule([], moduleOf) && Judged([], judge) && LeftToDo(groups, groups, {})
  {
  }

  lemma TakeModule(groups: map<string, Signals>, left: map<string, Signals>, done: set<string>, m: string, bag: multiset<Signal>)
    requires LeftToDo(groups, left, done) && m in left && bag + MapBag(left) == MapBag(groups)
    ensures m in groups && m !in done && LeftToDo(groups, left - {m}, done + {m}) && |left - {m}| < |left|
    ensures bag + multiset(groups[m]) + MapBag(left - {m}) == MapBag(groups)
  {
    hide MapBag;
    MapBagRemove(left, m);
    assert (left - {m}).Keys == left.Keys - {m};
    assert |left| == |left.Keys| && |left - {m}| == |(left - {m}).Keys|;
  }

  /** One turn of the loop over the modules. */
  method AddModule(pr: Project, groups: map<string, Signals>, m: string, cs: seq<ChangeCluster>, judge: Judge,
                   ghost moduleOf: Signal -> string, ghost comps: map<string, seq<Signals>>)
    returns (result: seq<ChangeCluster>, ghost done: map<string, seq<Signals>>)
    requires m in groups && m !in comps && Keyed(groups, moduleOf)
    requires ModulesDone(pr, groups, comps, Pieces(cs)) && Judged(cs, judge) && Distinct(cs) && AllOfModule(cs, moduleOf)
    ensures done.Keys == comps.Keys + {m} && ModulesDone(pr, groups, done, Pieces(result))
    ensures Judged(result, judge) && Distinct(result) && AllOfModule(result, moduleOf)
    ensures SumBags(Contents(result)) == SumBags(Contents(cs)) + multiset(groups[m])
    ensures forall c :: c in result ==> c in cs || fresh(c)
  {
    hide SumBags, Contents, Pieces, ModulesDone, ByComponent, ByFile, OfModule;
    var more;
    ghost var members;
    more, members := ClusterModule(pr, m, groups[m], judge, moduleOf);
    ModuleDone(pr, groups, cs, comps, more, m, members);
    done := comps[m := Contents(more)];
    ContentsConcat(cs, more);
    JoinedStaysOfModule(cs, more, moduleOf);
    JoinedStaysDistinct(cs, more);
    result := cs + more;
  }

  method ClusterModules(pr: Project, groups: map<string, Signals>, judge: Judge, ghost moduleOf: Signal -> string)
    returns (result: seq<ChangeCluster>, ghost comps: map<string, seq<Signals>>)
    requires Keyed(groups, moduleOf)
    ensures comps.Keys == groups.Keys && ModulesDone(pr, groups, comps, Pieces(result))
    ensures Judged(result, judge)
    ensures SumBags(Contents(result)) == MapBag(groups)
    ensures Distinct(result) && AllOfModule(result, moduleOf) && forall c :: c in result ==> fresh(c)
  {
    hide SumBags, MapBag, Contents, Pieces, ModulesDone, ByComponent, ByFile, OfModule, Distinct, AllOfModule, Judged, LeftToDo, Keyed;
    result, comps := [], map[];
    var left := groups;
    NoClustersYet(groups, judge, moduleOf);
    ContentsEmpty();
    EmptyBag<string>();
    NothingDone(pr, groups);
    while |left| > 0
      invariant LeftToDo(groups, left, comps.Keys)
      invariant SumBags(Contents(result)) + MapBag(left) == MapBag(groups)
      invariant Distinct(result) && AllOfModule(result, moduleOf) && Judged(result, judge)
      invariant forall c :: c in result ==> fresh(c)
      invariant ModulesDone(pr, groups, comps, Pieces(result))
      decreases |left|
    {
      ghost var any := AnyOf(left.Keys);
      var m :| m in left;
      TakeModule(groups, left, comps.Keys, m, SumBags(Contents(result)));
      result, comps := AddModule(pr, groups, m, result, judge, moduleOf, comps);
      left := left - {m};
    }
    assert left == map[];
    AllDone(groups, comps.Keys);
  }

  /** These are, in some order, the signals of the connected files, file by file. */
  ghost predicate IsComponents(pr: Project, signals: Signals, comps: seq<Signals>) {
    exists members :: ByComponent(pr, ByFile(signals), comps, members)
  }

  lemma AreComponents(pr: Project, signals: Signals, comps: seq<Signals>, members: seq<seq<string>>)
    requires ByComponent(pr, ByFile(signals), comps, members)
    ensures IsComponents(pr, signals, comps)
  {
  }

  lemma NothingInModule()
    ensures forall m :: InModule(Pieces([]), m) == []
  {
  }

  /** The components of the modules done so far, and nothing else. */
  ghost predicate ModulesDone(pr: Project, groups: map<string, Signals>, comps: map<string, seq<Signals>>, pieces: seq<Piece>) {
    && (forall m :: m in comps ==> m in groups && IsComponents(pr, groups[m], comps[m]))
    && (forall m :: InModule(pieces, m) == if m in comps then comps[m] else [])
  }

  lemma NothingDone(pr: Project, groups: map<string, Signals>)
    ensures ModulesDone(pr, groups, map[], Pieces([]))
  {
    NothingInModule();
  }

  lemma ModuleDone(pr: Project, groups: map<string, Signals>, cs: seq<ChangeCluster>, comps: map<string, seq<Signals>>,
                   more: seq<ChangeCluster>, tag: string, members: seq<seq<string>>)
    requires ModulesDone(pr, groups, comps, Pieces(cs))
    requires tag !in comps && forall c :: c in more ==> c.modules == [tag]
    requires tag in groups && ByComponent(pr, ByFile(groups[tag]), Contents(more), members)
    ensures ModulesDone(pr, groups, comps[tag := Contents(more)], Pieces(cs + more))
  {
    hide InModule, IsComponents, ByComponent, ByFile;
    AreComponents(pr, groups[tag], Contents(more), members);
    PiecesAppend(cs, more);
    forall i | 0 <= i < |more| ensures Pieces(more)[i] == Piece(Contents(more)[i], [tag]) { assert more[i] in more; }
    var done := comps[tag := Contents(more)];
    forall m ensures InModule(Pieces(cs + more), m) == if m in done then done[m] else [] {
      InModuleConcat(Pieces(cs), Pieces(more), m);
      AllInModule(Pieces(more), Contents(more), tag, m);
      assert InModule(Pieces(cs), m) + [] == InModule(Pieces(cs), m) && [] + Contents(more) == Contents(more);
    }
  }

  lemma NoComponents(pr: Project)
    ensures IsComponents(pr, [], [])
  {
    assert ByFile([]) == map[];
    AreComponents(pr, [], [], []);
  }

  /** The clusters of one module's signals: its components, the small ones merged,
      the loose ones cut. */
  ghost predicate ClustersOf(pr: Project, judge: Judge, signals: Signals, clusters: seq<Signals>) {
    exists comps, parts ::
      IsComponents(pr, signals, comps) && CutInto(judge, Regrouped(comps), parts) && SameClusters(clusters, parts)
  }

  lemma AreClusters(pr: Project, judge: Judge, signals: Signals, comps: seq<Signals>, parts: seq<Signals>, clusters: seq<Signals>)
    requires IsComponents(pr, signals, comps) && CutInto(judge, Regrouped(comps), parts) && SameClusters(clusters, parts)
    ensures ClustersOf(pr, judge, signals, clusters)
  {
  }

  /** Two of a module's signals are in one component if and only if their first
      files are connected through the first files of the module's signals. */
  lemma ShareComponentIff(pr: Project, signals: Signals, comps: seq<Signals>, s: Signal, t: Signal)
    requires IsComponents(pr, signals, comps) && s in signals && t in signals && s.paths != [] && t.paths != []
    ensures (exists k :: 0 <= k < |comps| && s in comps[k] && t in comps[k]) <==>
              Connected(pr, FirstFiles(signals), s.paths[0], t.paths[0])
  {
    hide Connected, IsComponents;
    SharedByKey(pr, signals, comps, s, t);
    FirstFilesAre(signals);
  }

  lemma FirstFilesAre(signals: Signals)
    ensures FirstFiles(signals) == ByFile(signals).Keys
  {
    forall f ensures f in FirstFiles(signals) <==> f in ByFile(signals).Keys {
      if f in FirstFiles(signals) {
        var s :| s in signals && f == if s.paths == [] then "" else s.paths[0];
        assert FileKey(s) == f;
      }
    }
  }

  /** A signal without a path counts for the file "". */
  ghost function FirstFiles(signals: Signals): set<string> {
    set s | s in signals :: if s.paths == [] then "" else s.paths[0]
  }

  lemma SharedByKey(pr: Project, signals: Signals, comps: seq<Signals>, s: Signal, t: Signal)
    requires IsComponents(pr, signals, comps) && s in signals && t in signals
    ensures (exists k :: 0 <= k < |comps| && s in comps[k] && t in comps[k]) <==>
              Connected(pr, ByFile(signals).Keys, FileKey(s), FileKey(t))
  {
    hide Connected, Gather, ByFile, FileKey;
    var members :| ByComponent(pr, ByFile(signals), comps, members);
    forall k, u | 0 <= k < |comps| && u in signals ensures u in comps[k] <==> FileKey(u) in members[k] {
      GatheredFrom(members[k], signals, u);
    }
    FileIsThere(signals, s);
    FileIsThere(signals, t);
    var i :| 0 <= i < |members| && FileKey(s) in members[i];
    var j :| 0 <= j < |members| && FileKey(t) in members[j];
    if i == j { assert s in comps[i] && t in comps[i]; }
  }

  lemma FileIsThere(signals: Signals, s: Signal)
    requires s in signals
    ensures FileKey(s) in ByFile(signals)
  {
  }

  lemma {:induction false} GatheredFrom(fs: seq<string>, signals: Signals, u: Signal)
    requires u in signals && forall f :: f in fs ==> f in ByFile(signals)
    ensures u in Gather(fs, ByFile(signals)) <==> FileKey(u) in fs
  {
    if fs != [] {
      var n := |fs| - 1;
      GatheredFrom(fs[..n], signals, u);
      OfMembers(signals, FileKey, fs[n]);
      assert fs == fs[..n] + [fs[n]];
    }
  }

  /** When no component has a single signal and none is loose, the clusters are
      exactly the components. */
  lemma ComponentsStand(judge: Judge, comps: seq<Signals>, parts: seq<Signals>)
    requires CutInto(judge, Regrouped(comps), parts)
    requires forall x :: x in comps ==> |x| >= MIN_CLUSTER_SIZE && !TooLoose(judge, x)
    ensures parts == comps
  {
    NothingToMerge(comps);
    var cuts :| CutsAre(judge, comps, cuts) && parts == Flat(cuts);
    NothingToCut(judge, comps, cuts);
  }

  /** Each module's clusters are its components, the small ones merged and the
      loose ones cut; no signal is lost or doubled, no cluster is empty or mixes
      modules, and the clusters come out by descending score. */
  method ClusterChanges(pr: Project, modules: map<string, string>, moduleNames: seq<string>, signals: Signals, judge: Judge)
    returns (result: seq<ChangeCluster>)
    ensures SumBags(Contents(result)) == multiset(signals)
    ensures signals == [] ==> result == []
    ensures forall c :: c in result ==> fresh(c) && c.cohesion == judge.cohesion(c.signals)
    ensures AllOfModule(result, ModuleKey(modules, moduleNames))
    ensures forall m :: ClustersOf(pr, judge, Of(signals, ModuleKey(modules, moduleNames), m), InModule(Pieces(result), m))
    ensures Ranked(result, judge)
  {
    hide Pieces, InModule, ModulesDone, ClustersOf, CutInto, Regrouped, SameClusters, Of, SumBags, MapBag, Contents, Labels, Pure, OfModule, ModuleKey, Merging, Loose, Score, Ranked;
    var moduleOf := ModuleKey(modules, moduleNames);
    if |signals| == 0 {
      ContentsEmpty();
      NothingRanked(judge);
      NothingInModule();
      forall m { NoClusters(pr, judge, signals, moduleOf, m); }
      return [];
    }
    var groups := GroupByModule(signals, moduleOf);
    var clusters;
    ghost var comps;
    clusters, comps := ClusterModules(pr, groups, judge, moduleOf);
    PureClusters(clusters, moduleOf);
    ghost var first := Pieces(clusters);
    assert forall k :: 0 <= k < |clusters| ==> clusters[k] in clusters;
    clusters := MergeSmallClusters(clusters, judge, moduleOf);
    MergedClusters(clusters, moduleOf);
    ghost var merged := Pieces(clusters);
    clusters := SplitLargeClusters(clusters, judge, moduleOf);
    ghost var cut := Pieces(clusters);
    assert forall k :: 0 <= k < |clusters| ==> clusters[k] in clusters;
    RefreshCohesion(clusters, judge);
    result := SortByScore(clusters, judge);
    StagesGive(pr, judge, signals, moduleOf, groups, comps, first, merged, cut, Pieces(result));
    forall c | c in result ensures c in clusters { assert c in multiset(result); }
  }

  /** The four stages, one after another. */
  lemma StagesGive(pr: Project, judge: Judge, signals: Signals, moduleOf: Signal -> string, groups: map<string, Signals>,
                   comps: map<string, seq<Signals>>, first: seq<Piece>, merged: seq<Piece>, cut: seq<Piece>, last: seq<Piece>)
    requires forall m :: Of(signals, moduleOf, m) == if m in groups then groups[m] else []
    requires comps.Keys == groups.Keys && ModulesDone(pr, groups, comps, first)
    requires forall m :: InModule(merged, m) == Regrouped(InModule(first, m))
    requires forall m :: CutInto(judge, InModule(merged, m), InModule(cut, m))
    requires forall m :: SameClusters(InModule(last, m), InModule(cut, m))
    ensures forall m :: ClustersOf(pr, judge, Of(signals, moduleOf, m), InModule(last, m))
  {
    hide InModule, IsComponents, CutInto, Regrouped, SameClusters, Of, ClustersOf;
    NoComponents(pr);
    forall m ensures ClustersOf(pr, judge, Of(signals, moduleOf, m), InModule(last, m)) {
      AreClusters(pr, judge, Of(signals, moduleOf, m), InModule(first, m), InModule(cut, m), InModule(last, m));
    }
  }

  lemma NoClusters(pr: Project, judge: Judge, signals: Signals, moduleOf: Signal -> string, m: string)
    requires signals == []
    ensures ClustersOf(pr, judge, Of(signals, moduleOf, m), [])
  {
    NoComponents(pr);
    CutNone(judge);
    NothingToMerge([]);
    AreClusters(pr, judge, [], [], [], []);
  }

  lemma NothingRanked(judge: Judge)
    ensures Ranked([], judge)
  {
  }

  lemma MergedClusters(cs: seq<ChangeCluster>, moduleOf: Signal -> string)
    requires Merging(cs, moduleOf)
    ensures Distinct(cs) && AllOfModule(cs, moduleOf)
  {
    PureClusters(cs, moduleOf);
  }
}
