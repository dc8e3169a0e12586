/** The bounded object cache against a plain recency list. */
module ObjectCache {
  import opened LinkedLists
  import opened Prelude
  import GitPack

  type GitObject = GitPack.GitObject

  // --------------------------------------------------------- specification

  datatype Op = Get(oid: string) | Has(oid: string) | Put(obj: GitObject)

  function IndexOf(s: seq<GitObject>, oid: string): (r: Option<nat>)
    ensures r.None? ==> forall o :: o in s ==> o.oid != oid
    ensures r.Some? ==> r.value < |s| && s[r.value].oid == oid && forall i :: 0 <= i < r.value ==> s[i].oid != oid
  {
    if s == [] then None
    else if s[0].oid == oid then Some(0)
    else match IndexOf(s[1..], oid) case None => None case Some(i) => Some(i + 1)
  }

  function WithoutOid(s: seq<GitObject>, oid: string): seq<GitObject> {
    match IndexOf(s, oid) case None => s case Some(i) => s[..i] + s[i + 1..]
  }

  /** The list with an object as the most recently used one. */
  function Used(s: seq<GitObject>, o: GitObject): seq<GitObject> {
    [o] + WithoutOid(s, o.oid)
  }

  function Take(s: seq<GitObject>, max: nat): seq<GitObject> {
    if |s| <= max then s else s[..max]
  }

  /** What an operation uses: a hit its object, a put that is kept the new one. */
  function UseOf(max: nat, s: seq<GitObject>, op: Op): Option<GitObject> {
    match op
    case Get(oid) => (match IndexOf(s, oid) case None => None case Some(i) => Some(s[i]))
    case Has(_) => None
    case Put(o) => if o.oid == "" || max == 0 then None else Some(o)
  }

  /** The cache's objects after an operation, most recently used first. */
  function Step(max: nat, s: seq<GitObject>, op: Op): seq<GitObject> {
    match UseOf(max, s, op) case None => s case Some(o) => Take(Used(s, o), max)
  }

  function Run(max: nat, ops: seq<Op>): seq<GitObject> {
    if ops == [] then [] else Step(max, Run(max, ops[..|ops| - 1]), ops[|ops| - 1])
  }

  /** What counts as a use: getting an object that is held, and putting one that has
      a name into a cache with room for any; asking whether one is there is none. */
  lemma WhatIsUsed(max: nat, s: seq<GitObject>, op: Op, o: GitObject)
    requires Unique(s)
    ensures UseOf(max, s, op) == Some(o) <==>
              match op
              case Get(oid) => o in s && o.oid == oid
              case Has(_) => false
              case Put(p) => p == o && p.oid != "" && max > 0
  {
    if op.Get? && o in s && o.oid == op.oid {
      var i :| 0 <= i < |s| && s[i] == o;
      AtIndex(s, i);
    }
  }

  // ------------------------------------------------------------ recency list

  /** All uses of a run, oldest first. */
  function Uses(max: nat, ops: seq<Op>): seq<GitObject> {
    if ops == [] then []
    else
      var before := ops[..|ops| - 1];
      Uses(max, before) + match UseOf(max, Run(max, before), ops[|ops| - 1]) case None => [] case Some(o) => [o]
  }

  /** Every object ever used, once, the last used first. */
  function Recent(uses: seq<GitObject>): seq<GitObject> {
    if uses == [] then [] else Used(Recent(uses[..|uses| - 1]), uses[|uses| - 1])
  }

  ghost predicate Unique(s: seq<GitObject>) {
    forall i, j :: 0 <= i < j < |s| ==> s[i].oid != s[j].oid
  }

  lemma UsedIsUnique(s: seq<GitObject>, o: GitObject)
    requires Unique(s)
    ensures Unique(Used(s, o))
  {
  }

  lemma {:induction false} RecentIsUnique(uses: seq<GitObject>)
    ensures Unique(Recent(uses))
  {
    if uses != [] {
      RecentIsUnique(uses[..|uses| - 1]);
      UsedIsUnique(Recent(uses[..|uses| - 1]), uses[|uses| - 1]);
    }
  }

  /** Truncating before or after a use comes to the same. */
  lemma TakeUsed(s: seq<GitObject>, o: GitObject, max: nat)
    requires Unique(s)
    ensures Take(Used(Take(s, max), o), max) == Take(Used(s, o), max)
  {
    hide IndexOf, WithoutOid;
    var t := Take(s, max);
    match IndexOf(s, o.oid)
    case None =>
      NotIn(t, o.oid);
      NotDropped(s, o.oid);
      NotDropped(t, o.oid);
    case Some(i) =>
      DroppedAt(s, o.oid, i);
      if i < |t| {
        AtIndex(t, i);
        DroppedAt(t, o.oid, i);
        assert t[..i] == s[..i];
        assert t[i + 1..] <= s[i + 1..];
      } else {
        NotIn(t, o.oid);
        NotDropped(t, o.oid);
        assert t <= s[..i];
      }
  }

  lemma DroppedAt(s: seq<GitObject>, oid: string, i: nat)
    requires IndexOf(s, oid) == Some(i)
    ensures WithoutOid(s, oid) == s[..i] + s[i + 1..]
  {
  }

  lemma NotIn(s: seq<GitObject>, oid: string)
    requires forall o :: o in s ==> o.oid != oid
    ensures IndexOf(s, oid) == None
  {
    assert IndexOf(s, oid).Some? ==> exists o :: o in s && o.oid == oid;
  }

  lemma AtIndex(s: seq<GitObject>, i: nat)
    requires i < |s| && Unique(s)
    ensures IndexOf(s, s[i].oid) == Some(i)
  {
    assert s[i] in s;
  }

  /** The cache is the front of the recency list of its uses. */
  lemma {:induction false} RunIsRecency(max: nat, ops: seq<Op>)
    ensures Run(max, ops) == Take(Recent(Uses(max, ops)), max)
  {
    if ops != [] {
      var before := ops[..|ops| - 1];
      RunIsRecency(max, before);
      var uses := Uses(max, before);
      match UseOf(max, Run(max, before), ops[|ops| - 1])
      case None =>
        assert uses + [] == uses;
      case Some(o) =>
        RecentIsUnique(uses);
        TakeUsed(Recent(uses), o, max);
        assert (uses + [o])[..|uses|] == uses;
    }
  }

  // ------------------------------------------------------------ who is held

  ghost predicate LastUse(uses: seq<GitObject>, k: int) {
    0 <= k < |uses| && forall j :: k < j < |uses| ==> uses[j].oid != uses[k].oid
  }

  /** The names used after use k. */
  ghost function Since(uses: seq<GitObject>, k: int): set<string>
    requires 0 <= k
  {
    set j | k < j < |uses| :: uses[j].oid
  }

  /** Where an object is after another one's use. */
  lemma UsedPlace(s: seq<GitObject>, o: GitObject, p: nat)
    requires p < |s| && s[p].oid != o.oid
    ensures match IndexOf(s, o.oid)
            case None => |Used(s, o)| > p + 1 && Used(s, o)[p + 1] == s[p]
            case Some(i) => |Used(s, o)| == |s| && Used(s, o)[if i < p then p else p + 1] == s[p]
  {
    var i := IndexOf(s, o.oid);
    var rest := WithoutOid(s, o.oid);
    hide IndexOf, WithoutOid;
    if i.Some? {
      Dropped(s, o.oid, i.value, p);
    } else {
      assert rest == s by { NotDropped(s, o.oid); }
    }
    assert Used(s, o) == [o] + rest;
  }

  lemma Dropped(s: seq<GitObject>, oid: string, i: nat, p: nat)
    requires IndexOf(s, oid) == Some(i) && p < |s| && p != i
    ensures var rest := WithoutOid(s, oid);
            |rest| == |s| - 1 && rest[if p < i then p else p - 1] == s[p]
  {
    hide IndexOf;
    assert WithoutOid(s, oid) == s[..i] + s[i + 1..];
  }

  lemma NotDropped(s: seq<GitObject>, oid: string)
    requires IndexOf(s, oid) == None
    ensures WithoutOid(s, oid) == s
  {
  }

  /** An object's place is the number of names used since its last use. */
  lemma {:induction false} PlaceIsCount(uses: seq<GitObject>, k: int)
    requires LastUse(uses, k)
    ensures |Since(uses, k)| < |Recent(uses)| && Recent(uses)[|Since(uses, k)|] == uses[k]
    decreases |uses|, 0
  {
    hide Since, Used, IndexOf;
    var n := |uses| - 1;
    var before, last := uses[..n], uses[n];
    if k < n {
      var p := |Since(before, k)|;
      PlaceIsCount(before, k);
      SinceMore(uses, k);
      RecentIsUnique(before);
      UsedPlace(Recent(before), last, p);
      if last.oid in Since(before, k) {
        assert Since(uses, k) == Since(before, k);
        MovedUp(before, k, last.oid);
      } else {
        assert |Since(uses, k)| == p + 1;
        match IndexOf(Recent(before), last.oid)
        case None =>
        case Some(i) => UsedBefore(before, k, last.oid, i);
      }
    } else {
      NoneSince(uses, k);
      FirstIsLast(Recent(before), last);
    }
  }

  lemma NoneSince(uses: seq<GitObject>, k: nat)
    requires k + 1 == |uses|
    ensures Since(uses, k) == {}
  {
  }

  lemma FirstIsLast(s: seq<GitObject>, o: GitObject)
    ensures |Used(s, o)| > 0 && Used(s, o)[0] == o
  {
  }

  /** A name used since use k is further up. */
  lemma {:induction false} MovedUp(uses: seq<GitObject>, k: nat, oid: string)
    requires LastUse(uses, k) && oid in Since(uses, k)
    ensures IndexOf(Recent(uses), oid).Some? && IndexOf(Recent(uses), oid).value < |Since(uses, k)|
    decreases |uses|, 1
  {
    var j := FindLastUse(uses, oid);
    PlaceIsCount(uses, j);
    SinceShrinks(uses, k, j);
    RecentIsUnique(uses);
    AtIndex(Recent(uses), |Since(uses, j)|);
  }

  /** A name not used since use k is further down. */
  lemma {:induction false} UsedBefore(uses: seq<GitObject>, k: nat, oid: string, i: nat)
    requires LastUse(uses, k) && uses[k].oid != oid && oid !in Since(uses, k)
    requires IndexOf(Recent(uses), oid) == Some(i)
    ensures i > |Since(uses, k)|
    decreases |uses|, 1
  {
    RecentWasUsed(uses, Recent(uses)[i]);
    var j := FindLastUse(uses, oid);
    PlaceIsCount(uses, j);
    RecentIsUnique(uses);
    AtIndex(Recent(uses), |Since(uses, j)|);
    assert j < k;
    assert uses[k].oid in Since(uses, j) && uses[k].oid !in Since(uses, k);
    forall x | x in Since(uses, k) ensures x in Since(uses, j) { }
    Smaller(Since(uses, k), Since(uses, j), uses[k].oid);
  }

  lemma {:induction false} RecentWasUsed(uses: seq<GitObject>, o: GitObject)
    requires o in Recent(uses)
    ensures exists k :: 0 <= k < |uses| && uses[k] == o
  {
    var n := |uses| - 1;
    if o != uses[n] {
      assert o in Recent(uses[..n]);
      RecentWasUsed(uses[..n], o);
      var k :| 0 <= k < n && uses[..n][k] == o;
      assert uses[k] == o;
    } else {
      assert uses[n] == o;
    }
  }

  lemma SinceMore(uses: seq<GitObject>, k: nat)
    requires k < |uses| - 1
    ensures Since(uses, k) == Since(uses[..|uses| - 1], k) + {uses[|uses| - 1].oid}
  {
    var n := |uses| - 1;
    forall oid | oid in Since(uses, k) ensures oid in Since(uses[..n], k) + {uses[n].oid} {
      var j :| k < j < |uses| && uses[j].oid == oid;
      assert j == n || uses[..n][j].oid == oid;
    }
    forall oid | oid in Since(uses[..n], k) ensures oid in Since(uses, k) {
      var j :| k < j < n && uses[..n][j].oid == oid;
      assert uses[j].oid == oid;
    }
  }

  lemma {:induction false} FindLastUse(uses: seq<GitObject>, oid: string) returns (j: nat)
    requires exists k :: 0 <= k < |uses| && uses[k].oid == oid
    ensures LastUse(uses, j) && uses[j].oid == oid
    decreases |uses|
  {
    var n := |uses| - 1;
    if uses[n].oid == oid {
      j := n;
    } else {
      var k :| 0 <= k < |uses| && uses[k].oid == oid;
      assert uses[..n][k].oid == oid;
      j := FindLastUse(uses[..n], oid);
    }
  }

  lemma SinceShrinks(uses: seq<GitObject>, k: nat, j: nat)
    requires LastUse(uses, j) && k < |uses| && uses[j].oid in Since(uses, k)
    ensures |Since(uses, j)| < |Since(uses, k)|
  {
    var i :| k < i < |uses| && uses[i].oid == uses[j].oid;
    assert i <= j;
    assert Since(uses, j) <= Since(uses, k) - {uses[j].oid};
    Smaller(Since(uses, j), Since(uses, k), uses[j].oid);
  }

  lemma Smaller(a: set<string>, b: set<string>, x: string)
    requires a <= b - {x} && x in b
    ensures |a| < |b|
  {
    Subset(a, b - {x});
  }

  lemma {:induction false} Subset(a: set<string>, b: set<string>)
    requires a <= b
    ensures |a| <= |b|
    decreases a
  {
    if a != {} {
      var x :| x in a;
      Subset(a - {x}, b - {x});
    }
  }

  /** Held exactly: the names used, with fewer than max other names used since
      their last use; with the object of that use. */
  lemma HeldIff(max: nat, ops: seq<Op>, o: GitObject)
    ensures o in Run(max, ops) <==>
              exists k :: LastUse(Uses(max, ops), k) && Uses(max, ops)[k] == o && |Since(Uses(max, ops), k)| < max
  {
    hide Run, Uses, Since;
    var uses := Uses(max, ops);
    forall k | LastUse(uses, k) && uses[k] == o && |Since(uses, k)| < max ensures o in Run(max, ops) {
      UsedLatelyIsHeld(max, ops, k);
    }
    if o in Run(max, ops) {
      var k := HeldWasUsedLately(max, ops, o);
    }
  }

  lemma UsedLatelyIsHeld(max: nat, ops: seq<Op>, k: nat)
    requires LastUse(Uses(max, ops), k) && |Since(Uses(max, ops), k)| < max
    ensures Uses(max, ops)[k] in Run(max, ops)
  {
    hide Run, Uses, Recent, Since;
    var uses := Uses(max, ops);
    RunIsRecency(max, ops);
    PlaceIsCount(uses, k);
    assert Take(Recent(uses), max)[|Since(uses, k)|] == uses[k];
  }

  lemma HeldWasUsedLately(max: nat, ops: seq<Op>, o: GitObject) returns (k: nat)
    requires o in Run(max, ops)
    ensures LastUse(Uses(max, ops), k) && Uses(max, ops)[k] == o && |Since(Uses(max, ops), k)| < max
  {
    hide Run, Uses, Recent, Since, IndexOf;
    var uses := Uses(max, ops);
    var recent := Recent(uses);
    RunIsRecency(max, ops);
    RecentIsUnique(uses);
    var i :| 0 <= i < |Run(max, ops)| && Run(max, ops)[i] == o;
    assert recent[i] == o && i < max;
    RecentWasUsed(uses, o);
    k := FindLastUse(uses, o.oid);
    PlaceIsCount(uses, k);
    AtIndex(recent, i);
    AtIndex(recent, |Since(uses, k)|);
  }

  // -------------------------------------------------------------- last value

  function LastPut(max: nat, ops: seq<Op>, oid: string): Option<GitObject> {
    if ops == [] then None
    else
      var last := ops[|ops| - 1];
      if last.Put? && last.obj.oid == oid && oid != "" && max > 0 then Some(last.obj)
      else LastPut(max, ops[..|ops| - 1], oid)
  }

  /** Every object held is the last one put under its name. */
  lemma {:induction false} HoldsLastPut(max: nat, ops: seq<Op>, o: GitObject)
    requires o in Run(max, ops)
    ensures LastPut(max, ops, o.oid) == Some(o)
  {
    var before, last := ops[..|ops| - 1], ops[|ops| - 1];
    var s := Run(max, before);
    RunIsRecency(max, before);
    RecentIsUnique(Uses(max, before));
    match UseOf(max, s, last)
    case None => HoldsLastPut(max, before, o);
    case Some(u) =>
      UsedMembers(max, s, u, o);
      if last.Get? || o != u { HoldsLastPut(max, before, o); }
  }

  lemma UsedMembers(max: nat, s: seq<GitObject>, u: GitObject, o: GitObject)
    requires Unique(s) && o in Take(Used(s, u), max)
    ensures o == u || (o in s && o.oid != u.oid)
  {
    assert o in Used(s, u);
    UsedIsUnique(s, u);
    var i :| 0 <= i < |Used(s, u)| && Used(s, u)[i] == o;
  }

  // --------------------------------------------------------------- the cache

  class Element {
    const oid: string
    var obj: GitObject
    constructor (obj: GitObject)
      ensures this.oid == obj.oid && this.obj == obj
    {
      this.oid, this.obj := obj.oid, obj;
    }
  }

  ghost function Objects(order: seq<Element>): (r: seq<GitObject>)
    reads order
  {
    seq(|order|, i requires 0 <= i < |order| reads order => order[i].obj)
  }

  /** The map has exactly the list's elements, by name. */
  ghost predicate Paired(items: map<string, Element>, order: seq<Element>) {
    && (forall i, j :: 0 <= i < j < |order| ==> order[i].oid != order[j].oid)
    && (forall e :: e in order ==> e.oid in items && items[e.oid] == e)
    && (forall k :: k in items ==> items[k] in order && items[k].oid == k)
  }

  ghost predicate Named(order: seq<Element>)
    reads order
  {
    forall e :: e in order ==> e.obj.oid == e.oid
  }

  lemma FindObject(items: map<string, Element>, order: seq<Element>, oid: string) returns (k: nat)
    requires Paired(items, order) && Named(order)
    ensures if oid in items then k < |order| && order[k] == items[oid] && IndexOf(Objects(order), oid) == Some(k) && NoDuplicates(order)
            else IndexOf(Objects(order), oid) == None
    ensures Unique(Objects(order))
  {
    k := 0;
    if oid in items {
      k :| 0 <= k < |order| && order[k] == items[oid];
      AtIndex(Objects(order), k);
    } else {
      forall o | o in Objects(order) ensures o.oid != oid {
        var i :| 0 <= i < |order| && Objects(order)[i] == o;
        assert order[i] in order;
      }
      NotIn(Objects(order), oid);
    }
  }

  lemma ObjectsConcat(a: seq<Element>, b: seq<Element>)
    ensures Objects(a + b) == Objects(a) + Objects(b)
  {
  }

  lemma ObjectsWithout(order: seq<Element>, k: nat)
    requires k < |order|
    ensures Objects(Without(order, k)) == Objects(order)[..k] + Objects(order)[k + 1..]
  {
    assert Objects(order[..k]) == Objects(order)[..k];
    assert Objects(order[k + 1..]) == Objects(order)[k + 1..];
    ObjectsConcat(order[..k], order[k + 1..]);
  }

  /** Front, with its object already updated, and the rest. */
  lemma FrontObjects(order: seq<Element>, was: seq<GitObject>, k: nat, o: GitObject)
    requires k < |order| && IndexOf(was, o.oid) == Some(k) && Objects(order) == was[k := o]
    ensures Objects([order[k]] + Without(order, k)) == Used(was, o)
  {
    hide Objects;
    ObjectsWithout(order, k);
    ObjectsConcat([order[k]], Without(order, k));
    OneObject(order, k);
    assert was[k := o][..k] == was[..k] && was[k := o][k + 1..] == was[k + 1..];
  }

  lemma OneObject(order: seq<Element>, k: nat)
    requires k < |order|
    ensures Objects([order[k]]) == [Objects(order)[k]] && |Objects(order)| == |order|
  {
  }

  lemma PairedFront(items: map<string, Element>, order: seq<Element>, k: nat)
    requires Paired(items, order) && k < |order|
    ensures Paired(items, [order[k]] + Without(order, k))
    ensures forall e :: e in [order[k]] + Without(order, k) <==> e in order
    ensures MoveToFront(order, order[k]) == [order[k]] + Without(order, k)
  {
    hide Remove, Without;
    PairedPlaces(items, order);
    WithoutMembers(order, k);
    RemoveIsWithout(order, k);
    assert order[k] in order;
    RestDiffers(items, order, k);
    FrontOfRest(items, order, order[k], Without(order, k));
  }

  lemma FrontOfRest(items: map<string, Element>, order: seq<Element>, e: Element, rest: seq<Element>)
    requires Paired(items, order) && e in order
    requires forall x :: x in rest <==> x in order && x != e
    requires forall i, j :: 0 <= i < j < |rest| ==> rest[i].oid != rest[j].oid
    requires forall i :: 0 <= i < |rest| ==> rest[i].oid != e.oid
    ensures Paired(items, [e] + rest)
  {
    forall k | k in items ensures items[k] in [e] + rest { assert items[k] == e || items[k] in rest; }
  }

  lemma RestDiffers(items: map<string, Element>, order: seq<Element>, k: nat)
    requires Paired(items, order) && k < |order|
    ensures var rest := Without(order, k);
            && (forall i, j :: 0 <= i < j < |rest| ==> rest[i].oid != rest[j].oid)
            && forall i :: 0 <= i < |rest| ==> rest[i].oid != order[k].oid
  {
  }

  lemma PairedPlaces(items: map<string, Element>, order: seq<Element>)
    requires Paired(items, order)
    ensures NoDuplicates(order)
  {
  }

  lemma PairedNew(items: map<string, Element>, order: seq<Element>, e: Element)
    requires Paired(items, order) && e.oid !in items
    ensures Paired(items[e.oid := e], [e] + order)
  {
  }

  lemma PairedBack(items: map<string, Element>, order: seq<Element>)
    requires Paired(items, order) && order != []
    ensures Paired(items - {order[|order| - 1].oid}, order[..|order| - 1])
    ensures Remove(order, order[|order| - 1]) == order[..|order| - 1]
  {
    hide NoDuplicates, Remove;
    var k := |order| - 1;
    PairedPlaces(items, order);
    RemoveIsWithout(order, k);
    WithoutMembers(order, k);
    assert Without(order, k) == order[..k];
    assert order[k] in order;
  }

  lemma PairedAt(items: map<string, Element>, order: seq<Element>, oid: string)
    requires Paired(items, order) && oid in items
    ensures items[oid].oid == oid && NoDuplicates(order)
  {
  }

  lemma SamePlaces(order: seq<Element>, k: nat)
    requires NoDuplicates(order) && k < |order|
    ensures |[order[k]] + Without(order, k)| == |order|
    ensures forall i :: 0 <= i < |order| && i != k ==> order[i] != order[k]
  {
  }

  lemma FirstObjects(full: seq<Element>, order: seq<Element>)
    requires |order| <= |full| && order == full[..|order|]
    ensures Objects(order) == Objects(full)[..|order|]
  {
  }

  lemma UsedNew(s: seq<GitObject>, o: GitObject)
    requires IndexOf(s, o.oid) == None
    ensures Used(s, o) == [o] + s
  {
  }

  class LRUObjectStore {
    const max: nat
    var items: map<string, Element>
    var order: seq<Element>

    ghost predicate Valid()
      reads this, order
    {
      Paired(items, order) && Named(order) && |order| <= max
    }

    constructor (maxEntries: int)
      ensures Valid() && Objects(order) == [] && max == if maxEntries < 0 then 0 else maxEntries
    {
      max := if maxEntries < 0 then 0 else maxEntries;
      items, order := map[], [];
    }

    method Get(oid: string) returns (r: Option<GitObject>)
      requires Valid()
      modifies `order
      ensures Valid() && Objects(order) == Step(max, old(Objects(order)), Op.Get(oid))
      ensures r == UseOf(max, old(Objects(order)), Op.Get(oid))
      ensures forall o :: r == Some(o) <==> o in old(Objects(order)) && o.oid == oid
    {
      hide Paired, Used, IndexOf, MoveToFront;
      ghost var was := Objects(order);
      ghost var k := FindObject(items, order, oid);
      forall o { WhatIsUsed(max, was, Op.Get(oid), o); }
      if oid !in items { return None; }
      var element := items[oid];
      PairedAt(items, order, oid);
      PairedFront(items, order, k);
      SamePlaces(order, k);
      assert was[k := element.obj] == was;
      FrontObjects(order, was, k, element.obj);
      order := MoveToFront(order, element);
      r := Some(element.obj);
      assert |Objects(order)| == |order|;
    }

    method Has(oid: string) returns (r: bool)
      requires Valid()
      ensures r <==> IndexOf(Objects(order), oid).Some?
      ensures Step(max, Objects(order), Op.Has(oid)) == Objects(order)
    {
      ghost var k := FindObject(items, order, oid);
      r := oid in items;
    }

    method Put(obj: GitObject)
      requires Valid()
      modifies `items, `order, order`obj
      ensures Valid() && Objects(order) == Step(max, old(Objects(order)), Op.Put(obj))
    {
      hide Paired, Used, IndexOf;
      if obj.oid == "" || max == 0 { return; }
      ghost var was := Objects(order);
      ghost var k := FindObject(items, order, obj.oid);
      if obj.oid in items {
        Refresh(obj, k);
      } else {
        PutNew(obj);
      }
    }

    method Refresh(obj: GitObject, ghost k: nat)
      requires Valid() && obj.oid in items && k < |order| && order[k] == items[obj.oid] && IndexOf(Objects(order), obj.oid) == Some(k)
      modifies `order, order`obj
      ensures Valid() && Objects(order) == Take(Used(old(Objects(order)), obj), max)
    {
      hide Paired, Used, IndexOf, MoveToFront;
      ghost var was := Objects(order);
      var element := items[obj.oid];
      PairedAt(items, order, obj.oid);
      PairedFront(items, order, k);
      SamePlaces(order, k);
      element.obj := obj;
      FrontObjects(order, was, k, obj);
      order := MoveToFront(order, element);
      assert |Objects(order)| == |order|;
    }

    method PutNew(obj: GitObject)
      requires Valid() && obj.oid !in items && IndexOf(Objects(order), obj.oid) == None && max > 0
      modifies `items, `order
      ensures Valid() && Objects(order) == Take(Used(old(Objects(order)), obj), max)
    {
      hide Paired, Used, IndexOf, Remove;
      ghost var was := Objects(order);
      var element := new Element(obj);
      PairedNew(items, order, element);
      ghost var full := [element] + order;
      order := [element] + order;
      items := items[obj.oid := element];
      UsedNew(was, obj);
      assert Objects(full) == [obj] + was;
      while max > 0 && |order| > max
        invariant Paired(items, order)
        invariant |order| <= |full| && order == full[..|order|] && (order == full || max <= |order|)
        invariant Objects(full) == Used(was, obj) && Named(full)
      {
        var last := order[|order| - 1];
        PairedBack(items, order);
        items := items - {last.oid};
        order := Remove(order, last);
      }
      FirstObjects(full, order);
    }
  }
}
