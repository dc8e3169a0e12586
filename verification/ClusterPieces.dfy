/** Clusters as values: what each module's clusters are, and what merging small
    ones and cutting loose ones makes of them. */
module ClusterPieces {
  import opened SignalBags

  const MIN_CLUSTER_SIZE := 2

  /** A cluster's signals and its module tags. */
  datatype Piece = Piece(signals: Signals, modules: seq<string>)

  // ---------------------------------------------------------------- grouping

  /** The signals with a key, in order. */
  function Of<K(==)>(signals: Signals, key: Signal -> K, k: K): Signals {
    if signals == [] then []
    else
      var n := |signals| - 1;
      Of(signals[..n], key, k) + if key(signals[n]) == k then [signals[n]] else []
  }

  /** A signal's first file. */
  function FileKey(s: Signal): string {
    if |s.paths| > 0 then s.paths[0] else ""
  }

  /** Each file's signals, in order. */
  function ByFile(signals: Signals): map<string, Signals> {
    map f | f in (set s | s in signals :: FileKey(s)) :: Of(signals, FileKey, f)
  }

  lemma {:induction false} OfMembers<K>(signals: Signals, key: Signal -> K, k: K)
    ensures forall s :: s in Of(signals, key, k) <==> s in signals && key(s) == k
  {
    if signals != [] {
      var n := |signals| - 1;
      OfMembers(signals[..n], key, k);
      assert signals == signals[..n] + [signals[n]];
    }
  }

  // ------------------------------------------------------- a module's pieces

  /** The contents of a module's pieces, in order. */
  function InModule(ps: seq<Piece>, m: string): seq<Signals> {
    if ps == [] then []
    else
      var n := |ps| - 1;
      InModule(ps[..n], m) + if ps[n].modules == [m] then [ps[n].signals] else []
  }

  lemma InModuleMore(ps: seq<Piece>, p: Piece, m: string)
    ensures InModule(ps + [p], m) == InModule(ps, m) + if p.modules == [m] then [p.signals] else []
  {
    assert (ps + [p])[..|ps|] == ps;
  }

  lemma {:induction false} InModuleConcat(a: seq<Piece>, b: seq<Piece>, m: string)
    ensures InModule(a + b, m) == InModule(a, m) + InModule(b, m)
  {
    if b == [] {
      assert a + b == a;
    } else {
      var n := |b| - 1;
      assert (a + b)[..|a + b| - 1] == a + b[..n];
      InModuleConcat(a, b[..n], m);
      var last := if b[n].modules == [m] then [b[n].signals] else [];
      assert InModule(a, m) + (InModule(b[..n], m) + last) == InModule(a, m) + InModule(b[..n], m) + last;
    }
  }

  lemma {:induction false} NoneInModule(ps: seq<Piece>, m: string)
    requires forall i :: 0 <= i < |ps| ==> ps[i].modules != [m]
    ensures InModule(ps, m) == []
  {
    if ps != [] { NoneInModule(ps[..|ps| - 1], m); }
  }

  /** Pieces that are all of one module. */
  lemma {:induction false} AllInModule(ps: seq<Piece>, contents: seq<Signals>, tag: string, m: string)
    requires |ps| == |contents| && forall i :: 0 <= i < |ps| ==> ps[i] == Piece(contents[i], [tag])
    ensures InModule(ps, m) == if m == tag then contents else []
  {
    if ps != [] {
      var n := |ps| - 1;
      AllInModule(ps[..n], contents[..n], tag, m);
      assert contents == contents[..n] + [contents[n]];
    }
  }

  // ----------------------------------------------------------------- merging

  /** The contents of at least the minimal size, in order, and the others. */
  function Bigs(xs: seq<Signals>): seq<Signals> {
    if xs == [] then []
    else
      var n := |xs| - 1;
      Bigs(xs[..n]) + if |xs[n]| >= MIN_CLUSTER_SIZE then [xs[n]] else []
  }

  function Smalls(xs: seq<Signals>): seq<Signals> {
    if xs == [] then []
    else
      var n := |xs| - 1;
      Smalls(xs[..n]) + if |xs[n]| >= MIN_CLUSTER_SIZE then [] else [xs[n]]
  }

  function Flat<T>(xs: seq<seq<T>>): seq<T> {
    if xs == [] then [] else Flat(xs[..|xs| - 1]) + xs[|xs| - 1]
  }

  /** The first takes all the small ones' signals; without one they make one. */
  function Grown(bigs: seq<Signals>, smalls: seq<Signals>): seq<Signals> {
    if smalls == [] then bigs
    else if bigs == [] then [Flat(smalls)]
    else [bigs[0] + Flat(smalls)] + bigs[1..]
  }

  /** A module's clusters once its small ones are merged. */
  function Regrouped(xs: seq<Signals>): seq<Signals> {
    Grown(Bigs(xs), Smalls(xs))
  }

  /** One more small one. */
  function AddTo(xs: seq<Signals>, x: Signals): seq<Signals> {
    if xs == [] then [x] else [xs[0] + x] + xs[1..]
  }

  lemma GrownMore(bigs: seq<Signals>, smalls: seq<Signals>, x: Signals)
    ensures Grown(bigs, smalls + [x]) == AddTo(Grown(bigs, smalls), x)
  {
    assert (smalls + [x])[..|smalls|] == smalls;
    assert Flat(smalls + [x]) == Flat(smalls) + x;
    if smalls == [] {
      assert Flat(smalls + [x]) == x;
    } else if bigs != [] {
      assert bigs[0] + (Flat(smalls) + x) == bigs[0] + Flat(smalls) + x;
    }
  }

  lemma BigsMore(xs: seq<Signals>, x: Signals)
    ensures Bigs(xs + [x]) == Bigs(xs) + if |x| >= MIN_CLUSTER_SIZE then [x] else []
    ensures Smalls(xs + [x]) == Smalls(xs) + if |x| >= MIN_CLUSTER_SIZE then [] else [x]
  {
    assert (xs + [x])[..|xs|] == xs;
  }

  lemma OneRegrouped(xs: seq<Signals>)
    requires |xs| <= 1
    ensures Regrouped(xs) == xs
  {
    if |xs| == 1 {
      assert xs == [] + [xs[0]];
      BigsMore([], xs[0]);
      BigsOfNone();
      assert [xs[0]][..0] == [] && Flat([xs[0]]) == Flat([]) + xs[0] == xs[0];
      assert [] + [xs[0]] == xs;
    }
  }

  ghost predicate Parted(xs: seq<Signals>, large: seq<Signals>, small: seq<Signals>) {
    large == Bigs(xs) && small == Smalls(xs)
  }

  lemma PartedRegroups(xs: seq<Signals>, large: seq<Signals>, small: seq<Signals>)
    requires Parted(xs, large, small)
    ensures Grown(large, small) == Regrouped(xs)
  {
  }

  /** Of the small pieces these have been dealt with. */
  ghost predicate GrownTo(large: seq<Piece>, done: seq<Piece>, now: seq<Piece>) {
    forall m :: InModule(now, m) == Grown(InModule(large, m), InModule(done, m))
  }

  lemma StartGrowing(large: seq<Piece>)
    ensures GrownTo(large, [], large)
  {
  }

  lemma GrowMore(large: seq<Piece>, done: seq<Piece>, p: Piece, before: seq<Piece>, after: seq<Piece>)
    requires GrownTo(large, done, before)
    requires forall m :: InModule(after, m) == if p.modules == [m] then AddTo(InModule(before, m), p.signals) else InModule(before, m)
    ensures GrownTo(large, done + [p], after)
  {
    hide InModule, Grown, AddTo;
    forall m ensures InModule(after, m) == Grown(InModule(large, m), InModule(done + [p], m)) {
      InModuleMore(done, p, m);
      GrownMore(InModule(large, m), InModule(done, m), p.signals);
      assert InModule(done, m) + [] == InModule(done, m);
    }
  }

  function SignalsOf(ps: seq<Piece>): seq<Signals> {
    seq(|ps|, i requires 0 <= i < |ps| => ps[i].signals)
  }

  /** These small pieces have found their place, and no signal was lost. */
  ghost predicate Placed(large: seq<Piece>, done: seq<Piece>, now: seq<Piece>) {
    GrownTo(large, done, now) && SumBags(SignalsOf(now)) == SumBags(SignalsOf(large)) + SumBags(SignalsOf(done))
  }

  lemma PlacedNone(large: seq<Piece>)
    ensures Placed(large, [], large)
  {
    StartGrowing(large);
    SumNothing();
    assert SignalsOf([]) == [];
  }

  lemma PlacedMore(large: seq<Piece>, done: seq<Piece>, p: Piece, before: seq<Piece>, after: seq<Piece>)
    requires Placed(large, done, before)
    requires forall m :: InModule(after, m) == if p.modules == [m] then AddTo(InModule(before, m), p.signals) else InModule(before, m)
    requires SumBags(SignalsOf(after)) == SumBags(SignalsOf(before)) + multiset(p.signals)
    ensures Placed(large, done + [p], after)
  {
    hide SumBags, SignalsOf, GrownTo;
    GrowMore(large, done, p, before, after);
    SignalsMore(done, p);
  }

  lemma AllPlaced(large: seq<Piece>, smalls: seq<Piece>, now: seq<Piece>)
    requires Placed(large, smalls, now)
    ensures forall m :: InModule(now, m) == Grown(InModule(large, m), InModule(smalls, m))
    ensures SumBags(SignalsOf(now)) == SumBags(SignalsOf(large)) + SumBags(SignalsOf(smalls))
  {
  }

  lemma SignalsMore(ps: seq<Piece>, p: Piece)
    ensures SumBags(SignalsOf(ps + [p])) == SumBags(SignalsOf(ps)) + multiset(p.signals)
  {
    hide SumBags;
    assert SignalsOf(ps + [p]) == SignalsOf(ps) + [p.signals];
    SumBagsMore(SignalsOf(ps), p.signals);
  }

  /** The first piece of the module takes the signals. */
  lemma GrownAt(ps: seq<Piece>, at: nat, p: Piece, m: string)
    requires at < |ps| && |p.modules| == 1 && ps[at].modules == p.modules
    requires forall j :: 0 <= j < at ==> ps[j].modules != p.modules
    ensures InModule(ps[at := Piece(ps[at].signals + p.signals, ps[at].modules)], m)
         == if p.modules == [m] then AddTo(InModule(ps, m), p.signals) else InModule(ps, m)
  {
    hide AddTo;
    var grown := Piece(ps[at].signals + p.signals, ps[at].modules);
    var a, b := ps[..at], ps[at + 1..];
    assert ps == a + [ps[at]] + b && ps[at := grown] == a + [grown] + b;
    InModuleConcat(a + [ps[at]], b, m);
    InModuleConcat(a + [grown], b, m);
    InModuleMore(a, ps[at], m);
    InModuleMore(a, grown, m);
    if p.modules == [m] {
      NoneInModule(a, m);
      AddToFirst(ps[at].signals, InModule(b, m), p.signals);
    }
  }

  lemma AddToFirst(x: Signals, rest: seq<Signals>, more: Signals)
    ensures AddTo([x] + rest, more) == [x + more] + rest
    ensures [] + [x] + rest == [x] + rest && [] + [x + more] + rest == [x + more] + rest
  {
  }

  lemma AppendedNew(ps: seq<Piece>, p: Piece, m: string)
    requires |p.modules| == 1 && forall j :: 0 <= j < |ps| ==> ps[j].modules != p.modules
    ensures InModule(ps + [p], m) == if p.modules == [m] then AddTo(InModule(ps, m), p.signals) else InModule(ps, m)
  {
    InModuleMore(ps, p, m);
    if p.modules == [m] { NoneInModule(ps, m); }
  }

  // ----------------------------------------------------------- what it means

  /** Every cluster of two or more is still there, as it was or, if it is the
      module's first, extended by the small ones' signals; without one the small
      ones make one cluster. */
  lemma RegroupedKeeps(xs: seq<Signals>)
    ensures var now, bigs := Regrouped(xs), Bigs(xs);
            && |now| == (if bigs == [] && Smalls(xs) != [] then 1 else |bigs|)
            && (forall k :: 0 < k < |bigs| ==> now[k] == bigs[k])
            && (now != [] ==> now[0] == (if bigs == [] then [] else bigs[0]) + Flat(Smalls(xs)))
  {
    hide Bigs, Smalls;
    if Smalls(xs) == [] {
      if Bigs(xs) != [] { assert Bigs(xs)[0] + [] == Bigs(xs)[0]; }
    } else if Bigs(xs) == [] {
      assert [] + Flat(Smalls(xs)) == Flat(Smalls(xs));
    }
  }

  /** No signal is lost in merging. */
  lemma RegroupedBag(xs: seq<Signals>)
    ensures SumBags(Regrouped(xs)) == SumBags(xs)
  {
    hide SumBags, Bigs, Smalls, Flat;
    var bigs, smalls := Bigs(xs), Smalls(xs);
    BigsAndSmalls(xs);
    FlatBag(smalls);
    SumNothing();
    if smalls != [] && bigs == [] {
      SumBagsOne(Flat(smalls));
    } else if smalls != [] {
      SumBagsUpdate(bigs, 0, Flat(smalls));
      assert bigs[0 := bigs[0] + Flat(smalls)] == Regrouped(xs);
    }
  }

  lemma SumNothing()
    ensures SumBags([]) == multiset{}
  {
  }

  lemma {:induction false} BigsAndSmalls(xs: seq<Signals>)
    ensures SumBags(Bigs(xs)) + SumBags(Smalls(xs)) == SumBags(xs)
  {
    hide SumBags, Bigs, Smalls;
    if xs == [] {
      BigsOfNone();
      SumNothing();
    } else {
      var n := |xs| - 1;
      BigsAndSmalls(xs[..n]);
      assert xs == xs[..n] + [xs[n]];
      BigsMore(xs[..n], xs[n]);
      SumBagsMore(xs[..n], xs[n]);
      SumBagsMore(Bigs(xs[..n]), xs[n]);
      SumBagsMore(Smalls(xs[..n]), xs[n]);
      assert Bigs(xs[..n]) + [] == Bigs(xs[..n]) && Smalls(xs[..n]) + [] == Smalls(xs[..n]);
    }
  }

  lemma BigsOfNone()
    ensures Bigs([]) == [] && Smalls([]) == []
  {
  }

  lemma {:induction false} FlatBag(xs: seq<Signals>)
    ensures multiset(Flat(xs)) == SumBags(xs)
  {
    if xs != [] {
      var n := |xs| - 1;
      FlatBag(xs[..n]);
      assert xs == xs[..n] + [xs[n]];
      SumBagsMore(xs[..n], xs[n]);
    }
  }

  lemma {:induction false} BigsAre(xs: seq<Signals>)
    ensures forall x :: x in Bigs(xs) <==> x in xs && |x| >= 2
    ensures forall x :: x in Smalls(xs) <==> x in xs && |x| < 2
  {
    if xs != [] {
      var n := |xs| - 1;
      BigsAre(xs[..n]);
      assert xs == xs[..n] + [xs[n]];
    }
  }

  /** Without small clusters merging changes nothing. */
  lemma {:induction false} NothingToMerge(xs: seq<Signals>)
    requires forall x :: x in xs ==> |x| >= MIN_CLUSTER_SIZE
    ensures Bigs(xs) == xs && Smalls(xs) == [] && Regrouped(xs) == xs
  {
    if xs != [] {
      var n := |xs| - 1;
      assert xs == xs[..n] + [xs[n]];
      NothingToMerge(xs[..n]);
    }
  }
}
