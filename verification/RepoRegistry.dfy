/** Open repositories: a map of handles and a list in order of last use, with
    pinned handles, a capacity and an idle limit. */
module RepoRegistry {
  import opened LinkedLists
  import opened Prelude

  datatype RegistryError = RepoNotFound | RepoExists | OpenFailed | RenameFailed

  /** A list element; its identity is its place in the list. */
  class Element {
    const key: string
    constructor (key: string)
      ensures this.key == key
    {
      this.key := key;
    }
  }

  class Handle {
    const tenant: string
    const name: string
    const element: Element
    var lastUsed: int
    var active: int
    /** Closing the quit channel a second time would panic. */
    var closed: bool
    /** Logical time of the last touch. */
    ghost var touchedAt: nat

    constructor (tenant: string, name: string, element: Element, now: int, ghost clock: nat)
      ensures this.tenant == tenant && this.name == name && this.element == element
      ensures lastUsed == now && active == 0 && !closed && touchedAt == clock
    {
      this.tenant, this.name, this.element := tenant, name, element;
      lastUsed, active, closed, touchedAt := now, 0, false, clock;
    }

    function Key(): string {
      KeyOf(tenant, name)
    }
  }

  function KeyOf(tenant: string, name: string): string {
    tenant + "/" + name
  }

  // ---------------------------------------------------------------- invariant

  /** The list's elements are those of the handles in order, and the map has
      exactly these handles, by key. */
  ghost predicate Paired(repos: map<string, Handle>, lru: seq<Element>, order: seq<Handle>) {
    && |lru| == |order| && NoDuplicates(order) && NoDuplicates(lru)
    && (forall i :: 0 <= i < |lru| ==> lru[i] == order[i].element)
    && (forall h :: h in order ==> h.Key() in repos && repos[h.Key()] == h && h.element.key == h.Key())
    && (forall k :: k in repos ==> repos[k] in order && repos[k].Key() == k)
  }

  /** The handles in order are the ones not closed; no two share an element. */
  ghost predicate Live(order: seq<Handle>, handles: set<Handle>)
    reads handles`closed
  {
    && (forall h :: h in order ==> h in handles)
    && (forall h :: h in handles ==> (h in order <==> !h.closed))
    && (forall g, h :: g in handles && h in handles && g.element == h.element ==> g == h)
  }

  /** From the handle touched last to the one touched longest ago. */
  ghost predicate ByTouch(order: seq<Handle>, clock: nat)
    reads order`touchedAt
  {
    && (forall i :: 0 <= i < |order| ==> order[i].touchedAt < clock)
    && (forall i, j :: 0 <= i < j < |order| ==> order[i].touchedAt > order[j].touchedAt)
  }

  lemma PairedWithout(repos: map<string, Handle>, lru: seq<Element>, order: seq<Handle>, k: nat)
    requires Paired(repos, lru, order) && k < |order|
    ensures Paired(repos - {order[k].Key()}, Without(lru, k), Without(order, k))
    ensures Remove(lru, order[k].element) == Without(lru, k)
  {
    WithoutMembers(order, k);
    WithoutMembers(lru, k);
    RemoveIsWithout(lru, k);
  }

  lemma PairedFront(repos: map<string, Handle>, lru: seq<Element>, order: seq<Handle>, k: nat)
    requires Paired(repos, lru, order) && k < |order|
    ensures Paired(repos, [lru[k]] + Without(lru, k), [order[k]] + Without(order, k))
    ensures MoveToFront(lru, order[k].element) == [lru[k]] + Without(lru, k)
  {
    hide Remove;
    WithoutMembers(order, k);
    WithoutMembers(lru, k);
    RemoveIsWithout(lru, k);
    assert lru[k] in lru;
  }

  lemma HasPlace(order: seq<Handle>, h: Handle) returns (k: nat)
    requires h in order && NoDuplicates(order)
    ensures k < |order| && order[k] == h
    ensures Remove(order, h) == Without(order, k) && MoveToFront(order, h) == [h] + Without(order, k)
    ensures forall x :: x in Without(order, k) <==> x in order && x != h
  {
    k :| 0 <= k < |order| && order[k] == h;
    RemoveIsWithout(order, k);
    WithoutMembers(order, k);
  }

  lemma PairedIsNoDuplicates(repos: map<string, Handle>, lru: seq<Element>, order: seq<Handle>)
    requires Paired(repos, lru, order)
    ensures NoDuplicates(order) && |lru| == |order|
  {
  }

  lemma ByTouchWithout(order: seq<Handle>, k: nat, clock: nat)
    requires ByTouch(order, clock) && k < |order|
    ensures ByTouch(Without(order, k), clock)
  {
    var rest := Without(order, k);
    forall i | 0 <= i < |rest| ensures rest[i] == order[if i < k then i else i + 1] { }
  }

  lemma ByTouchFront(h: Handle, rest: seq<Handle>, clock: nat)
    requires ByTouch(rest, clock) && h.touchedAt == clock
    ensures ByTouch([h] + rest, clock + 1)
  {
  }

  lemma ByTouchLater(order: seq<Handle>, clock: nat)
    requires ByTouch(order, clock)
    ensures ByTouch(order, clock + 1)
  {
  }

  lemma PairedNew(repos: map<string, Handle>, lru: seq<Element>, order: seq<Handle>, h: Handle)
    requires Paired(repos, lru, order) && h.Key() !in repos && h.element !in lru && h.element.key == h.Key()
    ensures Paired(repos[h.Key() := h], [h.element] + lru, [h] + order)
  {
  }

  lemma ElementOfClosed(repos: map<string, Handle>, lru: seq<Element>, order: seq<Handle>, handles: set<Handle>, h: Handle)
    requires Paired(repos, lru, order) && Live(order, handles) && h in handles
    ensures h.element in lru <==> h in order
  {
    if h.element in lru {
      var i :| 0 <= i < |lru| && lru[i] == h.element;
      assert order[i] in order && order[i].element == h.element;
    }
    if h in order {
      var i :| 0 <= i < |order| && order[i] == h;
      assert lru[i] == h.element;
    }
  }

  class Registry {
    const maxOpen: nat
    const idleTTL: int
    var repos: map<string, Handle>
    var lru: seq<Element>
    /** The open handles as the list has them, all handles ever opened, and a
        count of touches. */
    ghost var order: seq<Handle>
    ghost var handles: set<Handle>
    ghost var clock: nat

    ghost predicate Valid()
      reads this, handles`closed, order`touchedAt
    {
      Paired(repos, lru, order) && Live(order, handles) && ByTouch(order, clock)
    }

    constructor (maxOpen: int, idleTTL: int)
      ensures Valid() && repos == map[] && handles == {}
      ensures this.maxOpen == (if maxOpen <= 0 then 256 else maxOpen)
      ensures this.idleTTL == (if idleTTL <= 0 then 600 else idleTTL)
    {
      this.maxOpen := if maxOpen <= 0 then 256 else maxOpen;
      this.idleTTL := if idleTTL <= 0 then 600 else idleTTL;
      repos, lru, order, handles, clock := map[], [], [], {}, 0;
    }

    /** The handle is not closed yet, and is exactly the one taken out. */
    method CloseRepo(h: Handle)
      requires Valid() && h in handles && !h.closed
      modifies `repos, `lru, `order, h`closed
      ensures Valid() && h.closed
      ensures repos == old(repos) - {h.Key()} && lru == Remove(old(lru), h.element) && order == Remove(old(order), h)
    {
      hide Paired, NoDuplicates, Without, Remove, ByTouch;
      PairedIsNoDuplicates(repos, lru, order);
      ghost var k := HasPlace(order, h);
      PairedWithout(repos, lru, order, k);
      ByTouchWithout(order, k, clock);
      h.closed := true;
      lru := Remove(lru, h.element);
      order := Without(order, k);
      repos := repos - {h.Key()};
    }

    /** Also for a handle that has been closed meanwhile: then the list stays. */
    method Touch(h: Handle, now: int)
      requires Valid() && h in handles
      modifies `lru, `order, `clock, h`lastUsed, h`touchedAt
      ensures Valid() && h.lastUsed == now
      ensures lru == MoveToFront(old(lru), h.element) && order == MoveToFront(old(order), h)
      ensures clock == old(clock) + 1 && h.touchedAt == old(clock)
    {
      hide Paired, NoDuplicates, MoveToFront, ByTouch;
      ghost var rest := TouchKeepsPaired(repos, lru, order, handles, h, clock);
      ghost var wasOpen := h in order;
      h.lastUsed := now;
      lru := MoveToFront(lru, h.element);
      order := MoveToFront(order, h);
      h.touchedAt := clock;
      clock := clock + 1;
      if wasOpen { ByTouchFront(h, rest, clock - 1); } else { ByTouchLater(order, clock - 1); }
    }

    /** One more use.  The handle keeps its place in the list; while its count is
        not zero, EvictOne, MakeRoom and ReapIdle leave it open. */
    method Acquire(h: Handle, now: int)
      requires Valid() && h in handles
      modifies h`active, h`lastUsed
      ensures Valid() && h.active == old(h.active) + 1 && h.lastUsed == now
      ensures repos == old(repos) && lru == old(lru) && order == old(order)
    {
      h.active := h.active + 1;
      h.lastUsed := now;
    }

    method Release(h: Handle, now: int)
      requires Valid() && h in handles
      modifies h`active, h`lastUsed
      ensures Valid() && h.active == old(h.active) - 1 && h.lastUsed == now
      ensures repos == old(repos) && lru == old(lru) && order == old(order)
    {
      h.active := h.active - 1;
      h.lastUsed := now;
    }

    /** From the back of the list, the first handle not in use. */
    method LeastRecentInactive() returns (h: Handle?)
      requires Valid()
      ensures h == null <==> forall g :: g in order ==> g.active != 0
      ensures h != null ==> h in order && h.active == 0 && forall g :: g in order && g.active == 0 ==> h.touchedAt <= g.touchedAt
    {
      hide NoDuplicates;
      var i := |lru|;
      while i > 0
        invariant 0 <= i <= |lru| == |order|
        invariant forall j :: i <= j < |lru| ==> order[j].active != 0
      {
        i := i - 1;
        AtPlace(repos, lru, order, i);
        h := repos[lru[i].key];
        if h.active == 0 {
          return;
        }
      }
      return null;
    }

    /** The least recently touched handle that is not in use goes. */
    method EvictOne() returns (evicted: bool, ghost victim: Handle?)
      requires Valid()
      modifies `repos, `lru, `order, handles`closed
      ensures Valid()
      ensures evicted <==> exists h :: h in old(order) && h.active == 0
      ensures !evicted ==> repos == old(repos) && lru == old(lru) && order == old(order) && unchanged(handles`closed)
      ensures evicted ==>
                && victim != null && victim in old(order) && victim.active == 0 && victim.closed
                && (forall h :: h in old(order) && h.active == 0 ==> victim.touchedAt <= h.touchedAt)
                && repos == old(repos) - {victim.Key()} && (var v: Handle := victim; order == Remove(old(order), v))
                && forall h :: h in handles && h != victim ==> h.closed == old(h.closed)
    {
      hide Paired, NoDuplicates, Remove, ByTouch;
      var h := LeastRecentInactive();
      victim := h;
      evicted := h != null;
      if h != null {
        CloseRepo(h);
      }
    }

    method MakeRoom()
      requires Valid()
      modifies `repos, `lru, `order, handles`closed
      ensures Valid() && MadeRoom(old(order), order)
      ensures |repos| < maxOpen || forall h :: h in order ==> h.active != 0
      ensures forall h :: h in old(order) && h.active != 0 ==> h in order
      ensures if |old(repos)| < maxOpen then order == old(order) && repos == old(repos) else |repos| >= maxOpen - 1
      ensures repos.Keys <= old(repos).Keys
    {
      hide Paired, NoDuplicates, Remove, ByTouch, Live, MadeRoom;
      NoRoomMade(order);
      while |repos| >= maxOpen
        invariant Valid() && MadeRoom(old(order), order) && repos.Keys <= old(repos).Keys
        invariant if |old(repos)| < maxOpen then order == old(order) && repos == old(repos) else |repos| >= maxOpen - 1
        decreases |repos|
      {
        ghost var before, elements, was := repos, lru, order;
        var evicted;
        ghost var victim;
        evicted, victim := EvictOne();
        if !evicted { break; }
        ghost var v: Handle := victim;
        RemovedOne(before, elements, was, v);
        MadeRoomMore(old(order), was, order, v);
      }
      PinnedStay(old(order), order);
    }

    /** What opening leaves: the new handle in front of the handles kept, and
        either the capacity holds or every other handle is in use. */
    ghost predicate Opened(was: seq<Handle>, h: Handle, tenant: string, name: string)
      reads this, was`active, was`touchedAt, order`active, order`touchedAt, h
    {
      && h.tenant == tenant && h.name == name && h.active == 0 && !h.closed
      && order != [] && order[0] == h && MadeRoom(was, order[1..])
      && (|repos| <= maxOpen || forall g :: g in order[1..] ==> g.active != 0)
    }

    method OpenRepo(tenant: string, name: string, opens: bool, now: int) returns (r: Result<Handle, RegistryError>)
      requires Valid() && maxOpen > 0 && KeyOf(tenant, name) !in repos
      modifies `repos, `lru, `order, `clock, `handles, handles`closed
      ensures Valid()
      ensures if opens then r.Ok? && fresh(r.value) && handles == old(handles) + {r.value} && Opened(old(order), r.value, tenant, name)
              else r == Err(OpenFailed) && handles == old(handles) && MadeRoom(old(order), order)
      ensures |old(repos)| < maxOpen ==> order == (if opens then [r.value] else []) + old(order)
    {
      hide Paired, NoDuplicates, ByTouch, MadeRoom, Opened, Live;
      MakeRoom();
      if !opens { return Err(OpenFailed); }
      ghost var kept := order;
      var h := AddHandle(tenant, name, now);
      NewIsInFront(h, old(order), kept, tenant, name);
      return Ok(h);
    }

    lemma NewIsInFront(h: Handle, was: seq<Handle>, kept: seq<Handle>, tenant: string, name: string)
      requires order == [h] + kept && MadeRoom(was, kept)
      requires h.tenant == tenant && h.name == name && h.active == 0 && !h.closed
      requires |repos| <= maxOpen || forall g :: g in kept ==> g.active != 0
      ensures Opened(was, h, tenant, name)
    {
      assert order[1..] == kept;
    }

    method AddHandle(tenant: string, name: string, now: int) returns (h: Handle)
      requires Valid() && KeyOf(tenant, name) !in repos
      modifies `repos, `lru, `order, `clock, `handles
      ensures Valid() && fresh(h) && handles == old(handles) + {h} && order == [h] + old(order)
      ensures h.tenant == tenant && h.name == name && h.active == 0 && !h.closed
      ensures |repos| == |old(repos)| + 1
    {
      hide Paired, NoDuplicates, ByTouch, Live;
      var element := new Element(KeyOf(tenant, name));
      h := new Handle(tenant, name, element, now, clock);
      Publish(h);
    }

    /** A new handle goes to the front of the list and into the map. */
    method Publish(h: Handle)
      requires Valid() && h.Key() !in repos && h.element !in lru && h.element.key == h.Key()
      requires forall g :: g in handles ==> g.element != h.element
      requires !h.closed && h.touchedAt == clock && h !in handles
      modifies `repos, `lru, `order, `clock, `handles
      ensures Valid() && order == [h] + old(order) && handles == old(handles) + {h}
      ensures repos == old(repos)[h.Key() := h] && |repos| == |old(repos)| + 1
    {
      hide Paired, NoDuplicates, ByTouch;
      PairedNew(repos, lru, order, h);
      ByTouchFront(h, order, clock);
      lru := [h.element] + lru;
      repos := repos[h.Key() := h];
      order := [h] + order;
      handles := handles + {h};
      clock := clock + 1;
    }

    /** An open repository is touched and returned; one that is not is opened
        if it exists on disk. */
    method Get(tenant: string, name: string, onDisk: bool, opens: bool, now: int) returns (r: Result<Handle, RegistryError>)
      requires Valid() && maxOpen > 0
      modifies `repos, `lru, `order, `clock, `handles, handles`closed, handles`lastUsed, handles`touchedAt
      ensures Valid()
      ensures KeyOf(tenant, name) in old(repos) ==>
                && r == Ok(old(repos)[KeyOf(tenant, name)]) && repos == old(repos)
                && order == MoveToFront(old(order), r.value) && forall h :: h in old(handles) ==> h.closed == old(h.closed)
      ensures KeyOf(tenant, name) !in old(repos) ==>
                (r.Ok? <==> onDisk && opens) && (r.Ok? ==> fresh(r.value) && Opened(old(order), r.value, tenant, name))
      ensures r.Ok? ==> r.value.Key() == KeyOf(tenant, name) && r.value in order
    {
      hide NoDuplicates, ByTouch, MoveToFront, Remove;
      var key := KeyOf(tenant, name);
      if key in repos {
        ghost var rest := TouchKeepsPaired(repos, lru, order, handles, repos[key], clock);
        Touch(repos[key], now);
        return Ok(repos[key]);
      }
      if !onDisk { return Err(RepoNotFound); }
      r := OpenRepo(tenant, name, opens, now);
    }

    method Create(tenant: string, name: string, onDisk: bool, opens: bool, now: int) returns (r: Result<Handle, RegistryError>)
      requires Valid() && maxOpen > 0
      modifies `repos, `lru, `order, `clock, `handles, handles`closed
      ensures Valid()
      ensures onDisk || KeyOf(tenant, name) in old(repos) ==>
                r == Err(RepoExists) && repos == old(repos) && order == old(order) && forall h :: h in old(handles) ==> h.closed == old(h.closed)
      ensures r.Ok? <==> !onDisk && KeyOf(tenant, name) !in old(repos) && opens
      ensures r.Ok? ==> fresh(r.value) && Opened(old(order), r.value, tenant, name)
    {
      if onDisk { return Err(RepoExists); }
      if KeyOf(tenant, name) in repos { return Err(RepoExists); }
      r := OpenRepo(tenant, name, opens, now);
    }

    /** Closes the repository's handle, in use or not. */
    method Delete(tenant: string, name: string, renames: bool) returns (error: Option<RegistryError>)
      requires Valid()
      modifies `repos, `lru, `order, handles`closed
      ensures Valid()
      ensures repos == old(repos) - {KeyOf(tenant, name)}
      ensures forall h :: h in order <==> h in old(order) && h.Key() != KeyOf(tenant, name)
      ensures error == if renames then None else Some(RenameFailed)
    {
      hide NoDuplicates, ByTouch, Remove;
      var key := KeyOf(tenant, name);
      if key in repos {
        RemovedOne(repos, lru, order, repos[key]);
        CloseRepo(repos[key]);
      }
      return if renames then None else Some(RenameFailed);
    }

    /** Shutting down closes every handle that is still open, once. */
    method Close()
      requires Valid()
      modifies `repos, `lru, `order, handles`closed
      ensures Valid() && repos == map[] && order == [] && forall h :: h in handles ==> h.closed
    {
      hide NoDuplicates, ByTouch, Remove;
      while |repos| > 0
        invariant Valid()
        decreases |repos|
      {
        ghost var any := AnyKey(repos);
        var key :| key in repos;
        RemovedOne(repos, lru, order, repos[key]);
        CloseRepo(repos[key]);
      }
      assert repos == map[];
      SomeOpen(repos, lru, order);
    }

    /** Every handle idle since before the cutoff is closed, no other is. */
    method ReapIdle(now: int)
      requires Valid()
      modifies `repos, `lru, `order, handles`closed
      ensures Valid()
      ensures forall h :: h in order <==> h in old(order) && !Idle(h, now - idleTTL)
      ensures forall h :: h in handles ==> (h.closed <==> old(h.closed) || (h in old(order) && Idle(h, now - idleTTL)))
    {
      hide Paired, NoDuplicates, Remove, ByTouch, Without;
      PairedIsNoDuplicates(repos, lru, order);
      var cutoff := now - idleTTL;
      var i := |lru|;
      while i > 0
        invariant 0 <= i <= |order| == |lru| && Valid()
        invariant order[..i] == old(order)[..i]
        invariant forall h :: h in order <==> h in old(order) && !(h in old(order)[i..] && Idle(h, cutoff))
      {
        i := i - 1;
        AtPlace(repos, lru, order, i);
        PairedIsNoDuplicates(repos, lru, order);
        var h := repos[lru[i].key];
        assert old(order)[i..] == [h] + old(order)[i + 1..] by { assert order[..i + 1][i] == h; }
        if h.active == 0 && h.lastUsed < cutoff {
          RemoveIsWithout(order, i);
          WithoutKeepsFront(order, i);
          WithoutMembers(order, i);
          CloseRepo(h);
          PairedIsNoDuplicates(repos, lru, order);
        }
      }
    }
  }

  /** What closing for room may do: only handles not in use go, each touched
      no later than any not in use that stays, and no more than needed. */
  ghost predicate MadeRoom(was: seq<Handle>, now: seq<Handle>)
    reads was`active, was`touchedAt, now`active, now`touchedAt
  {
    && (forall h :: h in now ==> h in was)
    && (forall g :: g in was && g !in now ==> g.active == 0)
    && (forall g, h :: g in was && g !in now && h in now && h.active == 0 ==> g.touchedAt <= h.touchedAt)
  }

  lemma MadeRoomMore(start: seq<Handle>, was: seq<Handle>, now: seq<Handle>, v: Handle)
    requires MadeRoom(start, was) && v in was && v.active == 0
    requires forall h :: h in was && h.active == 0 ==> v.touchedAt <= h.touchedAt
    requires forall h :: h in now <==> h in was && h != v
    ensures MadeRoom(start, now)
  {
  }

  lemma PinnedStay(was: seq<Handle>, now: seq<Handle>)
    requires MadeRoom(was, now)
    ensures forall h :: h in was && h.active != 0 ==> h in now
  {
  }

  lemma NoRoomMade(order: seq<Handle>)
    ensures MadeRoom(order, order)
  {
  }

  lemma RemovedOne(repos: map<string, Handle>, lru: seq<Element>, order: seq<Handle>, h: Handle)
    requires Paired(repos, lru, order) && h in order
    ensures |repos - {h.Key()}| == |repos| - 1
    ensures forall x :: x in Remove(order, h) <==> x in order && x != h
  {
    var k := HasPlace(order, h);
    assert (repos - {h.Key()}).Keys == repos.Keys - {h.Key()};
    assert |repos.Keys - {h.Key()}| == |repos.Keys| - 1;
    assert |repos| == |repos.Keys| && |repos - {h.Key()}| == |(repos - {h.Key()}).Keys|;
  }

  lemma SomeOpen(repos: map<string, Handle>, lru: seq<Element>, order: seq<Handle>)
    requires Paired(repos, lru, order)
    ensures order != [] ==> repos != map[]
  {
    if order != [] { assert order[0] in order; }
  }

  lemma AnyKey(repos: map<string, Handle>) returns (k: string)
    requires |repos| > 0
    ensures k in repos
  {
    assert |repos.Keys| > 0;
    k :| k in repos.Keys;
  }

  /** Moving to the front keeps list and map matched; rest is what follows. */
  lemma TouchKeepsPaired(repos: map<string, Handle>, lru: seq<Element>, order: seq<Handle>, handles: set<Handle>, h: Handle, clock: nat)
    returns (rest: seq<Handle>)
    requires Paired(repos, lru, order) && Live(order, handles) && h in handles && ByTouch(order, clock)
    ensures Paired(repos, MoveToFront(lru, h.element), MoveToFront(order, h))
    ensures forall x :: x in MoveToFront(order, h) <==> x in order
    ensures if h in order then MoveToFront(order, h) == [h] + rest else MoveToFront(order, h) == order
    ensures ByTouch(rest, clock) && h !in rest
  {
    hide Paired, NoDuplicates, Without, Remove, ByTouch;
    PairedIsNoDuplicates(repos, lru, order);
    ElementOfClosed(repos, lru, order, handles, h);
    rest := order;
    if h in order {
      var k := HasPlace(order, h);
      ElementAt(repos, lru, order, k);
      PairedFront(repos, lru, order, k);
      ByTouchWithout(order, k, clock);
      rest := Without(order, k);
    }
  }

  ghost predicate Idle(h: Handle, cutoff: int)
    reads h
  {
    h.active == 0 && h.lastUsed < cutoff
  }

  lemma ElementAt(repos: map<string, Handle>, lru: seq<Element>, order: seq<Handle>, k: nat)
    requires Paired(repos, lru, order) && k < |order|
    ensures k < |lru| && lru[k] == order[k].element
  {
  }

  lemma AtPlace(repos: map<string, Handle>, lru: seq<Element>, order: seq<Handle>, k: nat)
    requires Paired(repos, lru, order) && k < |order|
    ensures lru[k].key in repos && repos[lru[k].key] == order[k]
  {
    assert order[k] in order;
  }
}
