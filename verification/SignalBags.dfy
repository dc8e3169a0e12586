/** Change signals, and the multiset of signals in lists and maps of lists. */
module SignalBags {

  /** What clustering looks at: the paths of the evidence's file ranges. */
  datatype Signal = Signal(id: nat, paths: seq<string>)

  type Signals = seq<Signal>

  ghost function SumBags(ss: seq<Signals>): multiset<Signal> {
    if ss == [] then multiset{} else multiset(ss[0]) + SumBags(ss[1..])
  }

  lemma {:induction false} SumBagsConcat(a: seq<Signals>, b: seq<Signals>)
    ensures SumBags(a + b) == SumBags(a) + SumBags(b)
  {
    if a == [] {
      assert a + b == b;
    } else {
      assert (a + b)[1..] == a[1..] + b;
      SumBagsConcat(a[1..], b);
    }
  }

  lemma SumBagsOne(s: Signals)
    ensures SumBags([s]) == multiset(s)
  {
    assert [s][1..] == [];
  }

  lemma SumBagsMore(a: seq<Signals>, s: Signals)
    ensures SumBags(a + [s]) == SumBags(a) + multiset(s)
  {
    SumBagsConcat(a, [s]);
    SumBagsOne(s);
  }

  lemma SumBagsUpdate(a: seq<Signals>, k: nat, more: Signals)
    requires k < |a|
    ensures SumBags(a[k := a[k] + more]) == SumBags(a) + multiset(more)
  {
    assert a == a[..k] + [a[k]] + a[k + 1..];
    assert a[k := a[k] + more] == a[..k] + [a[k] + more] + a[k + 1..];
    SumBagsConcat(a[..k] + [a[k]], a[k + 1..]);
    SumBagsConcat(a[..k] + [a[k] + more], a[k + 1..]);
    SumBagsMore(a[..k], a[k]);
    SumBagsMore(a[..k], a[k] + more);
  }

  lemma AnyOf<K>(s: set<K>) returns (k: K)
    requires |s| > 0
    ensures k in s
  {
    k :| k in s;
  }

  ghost function MapBag<K>(m: map<K, Signals>): multiset<Signal>
    decreases |m|
  {
    if m == map[] then multiset{}
    else
      var k :| k in m;
      multiset(m[k]) + MapBag(m - {k})
  }

  /** The sum does not depend on the order of the keys. */
  lemma {:induction false} MapBagRemove<K>(m: map<K, Signals>, k: K)
    requires k in m
    ensures MapBag(m) == multiset(m[k]) + MapBag(m - {k})
    decreases |m|
  {
    var c :| c in m && MapBag(m) == multiset(m[c]) + MapBag(m - {c});
    if c != k {
      MapBagRemove(m - {c}, k);
      MapBagRemove(m - {k}, c);
      assert m - {c} - {k} == m - {k} - {c};
    }
  }

  lemma SameWithout<K>(m: map<K, Signals>, k: K, s: Signals)
    ensures m[k := s] - {k} == m - {k}
    ensures k !in m ==> m - {k} == m
  {
  }

  lemma MapBagAppend<K>(m: map<K, Signals>, k: K, more: Signals)
    ensures var was := if k in m then m[k] else [];
            MapBag(m[k := was + more]) == MapBag(m) + multiset(more)
  {
    var was := if k in m then m[k] else [];
    var m' := m[k := was + more];
    hide MapBag;
    MapBagRemove(m', k);
    SameWithout(m, k, was + more);
    if k in m {
      MapBagRemove(m, k);
    }
  }
}
