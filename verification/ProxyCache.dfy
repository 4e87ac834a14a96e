/**
  Djinni's proxy cache as a protocol between `get`, the expiry of weak references and the delayed
  `remove` that a dying proxy's handle issues. Every step that other threads can interleave with is
  a transition of its own; only the steps of `get` and `remove` need the cache's mutex.
 */
module ProxyCache {
  import opened Wrappers

  /** The interface type an implementation object is wrapped for. */
  type Tag = nat
  /** An implementation object; its address may be reused for another object after it is freed. */
  type Impl = nat
  type Address = nat
  type Key = (Tag, Address)
  /** A proxy object together with the handle it owns. */
  type Proxy = nat

  // ---------- the cache ----------

  /** What `get` finds under a key: a proxy only if its weak reference still yields a strong one. */
  function Lookup(m: map<Key, Proxy>, k: Key, live: set<Proxy>): Option<Proxy> {
    if k in m && m[k] in live then Some(m[k]) else None
  }

  /** An entry whose weak reference has expired is dropped, both by `get` and by `remove`. */
  function Prune(m: map<Key, Proxy>, k: Key, live: set<Proxy>): map<Key, Proxy> {
    if k in m && m[k] !in live then m - {k} else m
  }

  /** Inserting does not overwrite. */
  function Emplace(m: map<Key, Proxy>, k: Key, p: Proxy): map<Key, Proxy> {
    if k in m then m else m[k := p]
  }

  class Pimpl {
    var mapping: map<Key, Proxy>

    constructor ()
      ensures mapping == map[]
    {
      mapping := map[];
    }

    /**
      `live` holds the proxies whose weak references can be upgraded, `created` is the proxy that
      the allocator would return.
     */
    method Get(tag: Tag, ptr: Address, live: set<Proxy>, created: Proxy) returns (proxy: Proxy)
      modifies this
      ensures Lookup(old(mapping), (tag, ptr), live).Some? ==>
                mapping == old(mapping) && Some(proxy) == Lookup(mapping, (tag, ptr), live)
      ensures Lookup(old(mapping), (tag, ptr), live).None? ==>
                && mapping == Emplace(Prune(old(mapping), (tag, ptr), live), (tag, ptr), created)
                && proxy == created == mapping[(tag, ptr)]
    {
      var key := (tag, ptr);
      if key in mapping {
        if mapping[key] in live {
          return mapping[key];
        } else {
          mapping := mapping - {key};
        }
      }
      if key !in mapping {
        mapping := mapping[key := created];
      }
      return created;
    }

    method Remove(tag: Tag, ptr: Address, live: set<Proxy>)
      modifies this
      ensures mapping == Prune(old(mapping), (tag, ptr), live)
    {
      var key := (tag, ptr);
      if key in mapping {
        if mapping[key] !in live {
          mapping := mapping - {key};
        }
      }
    }
  }

  // ---------- the system around it ----------

  /**
    The life of a proxy: strongly referenced; expired, with its handle about to call `remove`;
    removed, with the handle still owning the implementation object; freed.
   */
  datatype Stage = Live | Expired | Removed | Freed

  datatype Handle = Handle(tag: Tag, impl: Impl, stage: Stage)

  /** Who holds the mutex across the call to the allocator. */
  datatype Lock = Unlocked | Allocating(tag: Tag, impl: Impl)

  datatype State = State(
    addresses: map<Impl, Address>,
    owned: set<Impl>,
    handles: map<Proxy, Handle>,
    mapping: map<Key, Proxy>,
    lock: Lock)
  {
    ghost predicate HandleOwns(i: Impl) {
      exists p :: p in handles && handles[p].impl == i && handles[p].stage != Freed
    }

    /** Someone owns the object, so its address is not reused. */
    ghost predicate Alive(i: Impl) {
      i in addresses && (i in owned || HandleOwns(i) || (lock.Allocating? && lock.impl == i))
    }

    function LiveProxies(): (ps: set<Proxy>)
      ensures forall p :: p in ps <==> p in handles && handles[p].stage == Live
    {
      set p | p in handles && handles[p].stage == Live
    }

    ghost predicate InStage(p: Proxy, stage: Stage) {
      p in handles && handles[p].stage == stage
    }

    ghost function Moved(p: Proxy, stage: Stage): State
      requires p in handles
    {
      this.(handles := handles[p := handles[p].(stage := stage)])
    }

    function KeyOf(p: Proxy): Key
      requires p in handles && handles[p].impl in addresses
    {
      (handles[p].tag, addresses[handles[p].impl])
    }
  }

  datatype Event =
    | NewImpl(impl: Impl, address: Address)
    | Own(impl: Impl)
    | Disown(impl: Impl)
    | GetHit(tag: Tag, impl: Impl, proxy: Proxy)
    | GetMiss(tag: Tag, impl: Impl)
    | Insert(proxy: Proxy)
    | Expire(proxy: Proxy)
    | Remove(proxy: Proxy)
    | Free(proxy: Proxy)

  ghost predicate Init(s: State) {
    s == State(map[], {}, map[], map[], Unlocked)
  }

  ghost predicate Next(s: State, e: Event, s': State) {
    match e
    case NewImpl(i, a) =>
      && i !in s.addresses && (forall j :: s.Alive(j) ==> s.addresses[j] != a)
      && s' == s.(addresses := s.addresses[i := a], owned := s.owned + {i})
    case Own(i) =>
      s.Alive(i) && s' == s.(owned := s.owned + {i})
    case Disown(i) =>
      s' == s.(owned := s.owned - {i})
    case GetHit(t, i, p) =>
      && s.lock.Unlocked? && i in s.owned && i in s.addresses
      && Lookup(s.mapping, (t, s.addresses[i]), s.LiveProxies()) == Some(p)
      && s' == s
    case GetMiss(t, i) =>
      && s.lock.Unlocked? && i in s.owned && i in s.addresses
      && Lookup(s.mapping, (t, s.addresses[i]), s.LiveProxies()).None?
      && s' == s.(mapping := Prune(s.mapping, (t, s.addresses[i]), s.LiveProxies()), lock := Allocating(t, i))
    case Insert(p) =>
      && s.lock.Allocating? && p !in s.handles && s.lock.impl in s.addresses
      && s' == s.(handles := s.handles[p := Handle(s.lock.tag, s.lock.impl, Live)],
                  mapping := Emplace(s.mapping, (s.lock.tag, s.addresses[s.lock.impl]), p),
                  lock := Unlocked)
    case Expire(p) =>
      s.InStage(p, Live) && s' == s.Moved(p, Expired)
    case Remove(p) =>
      && s.lock.Unlocked? && s.InStage(p, Expired) && s.handles[p].impl in s.addresses
      && s' == s.Moved(p, Removed).(mapping := Prune(s.mapping, s.KeyOf(p), s.LiveProxies()))
    case Free(p) =>
      s.InStage(p, Removed) && s' == s.Moved(p, Freed)
  }

  // ---------- what every step keeps ----------

  /** An address belongs to one living object. */
  ghost predicate AddressesDistinct(s: State) {
    forall i, j :: s.Alive(i) && s.Alive(j) && s.addresses[i] == s.addresses[j] ==> i == j
  }

  ghost predicate WellTyped(s: State) {
    && s.owned <= s.addresses.Keys
    && forall p :: p in s.handles ==> s.handles[p].impl in s.addresses
  }

  /** An entry belongs to a handle that has yet to run `remove` and that wraps the object at the key. */
  ghost predicate EntriesPending(s: State)
    requires WellTyped(s)
  {
    forall k :: k in s.mapping ==>
      && s.mapping[k] in s.handles
      && s.handles[s.mapping[k]].stage in {Live, Expired}
      && s.KeyOf(s.mapping[k]) == k
  }

  /** A live proxy is the one the cache knows for its key. */
  ghost predicate LiveProxiesCached(s: State)
    requires WellTyped(s)
  {
    forall p :: p in s.handles && s.handles[p].stage == Live ==> s.KeyOf(p) in s.mapping && s.mapping[s.KeyOf(p)] == p
  }

  /** While a proxy is being allocated its key is free. */
  ghost predicate LockedKeyFree(s: State) {
    s.lock.Allocating? ==> s.lock.impl in s.addresses && (s.lock.tag, s.addresses[s.lock.impl]) !in s.mapping
  }

  ghost predicate EntriesInv(s: State) {
    WellTyped(s) && EntriesPending(s) && LiveProxiesCached(s) && LockedKeyFree(s)
  }

  ghost predicate Inv(s: State) {
    EntriesInv(s) && AddressesDistinct(s)
  }

  lemma InitInv(s: State)
    requires Init(s)
    ensures Inv(s)
  {
  }

  /** Only allocation brings an object to life. */
  lemma NoneRevived(s: State, e: Event, s': State, i: Impl)
    requires Inv(s) && Next(s, e, s') && !e.NewImpl? && s'.Alive(i)
    ensures s.Alive(i) && s'.addresses == s.addresses
  {
    if s'.HandleOwns(i) {
      var p :| p in s'.handles && s'.handles[p].impl == i && s'.handles[p].stage != Freed;
      if p in s.handles {
        assert s.handles[p].impl == i && s.handles[p].stage != Freed;
      }
    }
  }

  lemma NewImplAlive(s: State, i: Impl, a: Address, s': State, j: Impl)
    requires Inv(s) && Next(s, NewImpl(i, a), s') && s'.Alive(j)
    ensures j == i || (s.Alive(j) && s'.addresses[j] == s.addresses[j] != a)
  {
  }

  lemma NextAddressesDistinct(s: State, e: Event, s': State)
    requires Inv(s) && Next(s, e, s')
    ensures AddressesDistinct(s')
  {
    forall i, j | s'.Alive(i) && s'.Alive(j) && s'.addresses[i] == s'.addresses[j] ensures i == j {
      if e.NewImpl? {
        NewImplAlive(s, e.impl, e.address, s', i);
        NewImplAlive(s, e.impl, e.address, s', j);
      } else {
        NoneRevived(s, e, s', i);
        NoneRevived(s, e, s', j);
      }
    }
  }

  lemma EntriesAfterGetMiss(s: State, t: Tag, i: Impl, s': State)
    requires EntriesInv(s) && i in s.addresses && Lookup(s.mapping, (t, s.addresses[i]), s.LiveProxies()).None?
    requires s' == s.(mapping := Prune(s.mapping, (t, s.addresses[i]), s.LiveProxies()), lock := Allocating(t, i))
    ensures EntriesInv(s')
  {
  }

  lemma EntriesAfterInsert(s: State, p: Proxy, t: Tag, i: Impl, s': State)
    requires EntriesInv(s) && s.lock == Allocating(t, i) && p !in s.handles
    requires s' == s.(handles := s.handles[p := Handle(t, i, Live)], mapping := s.mapping[(t, s.addresses[i]) := p],
                      lock := Unlocked)
    ensures EntriesInv(s')
  {
  }

  lemma EntriesAfterExpire(s: State, p: Proxy, s': State)
    requires EntriesInv(s) && s.InStage(p, Live) && s' == s.Moved(p, Expired)
    ensures EntriesInv(s')
  {
  }

  lemma EntriesAfterFree(s: State, p: Proxy, s': State)
    requires EntriesInv(s) && s.InStage(p, Removed) && s' == s.Moved(p, Freed)
    ensures EntriesInv(s')
  {
  }

  lemma EntriesAfterRemove(s: State, p: Proxy, s': State)
    requires EntriesInv(s) && s.lock.Unlocked? && s.InStage(p, Expired)
    requires s' == s.Moved(p, Removed).(mapping := Prune(s.mapping, s.KeyOf(p), s.LiveProxies()))
    ensures EntriesInv(s')
  {
  }

  lemma EntriesAfterOwnership(s: State, s': State)
    requires EntriesInv(s) && s'.handles == s.handles && s'.mapping == s.mapping && s'.lock == s.lock
    requires s'.owned <= s'.addresses.Keys && s.addresses.Keys <= s'.addresses.Keys
    requires forall i :: i in s.addresses ==> s'.addresses[i] == s.addresses[i]
    ensures EntriesInv(s')
  {
  }

  lemma NextInv(s: State, e: Event, s': State)
    requires Inv(s) && Next(s, e, s')
    ensures Inv(s')
  {
    NextAddressesDistinct(s, e, s');
    match e
    case GetMiss(t, i) => EntriesAfterGetMiss(s, t, i, s');
    case Insert(p) => EntriesAfterInsert(s, p, s.lock.tag, s.lock.impl, s');
    case Remove(p) => EntriesAfterRemove(s, p, s');
    case Expire(p) => EntriesAfterExpire(s, p, s');
    case Free(p) => EntriesAfterFree(s, p, s');
    case _ => EntriesAfterOwnership(s, s');
  }

  // ---------- results over whole runs ----------

  /** A run: states with the event that leads from each to the next. */
  ghost predicate IsRun(states: seq<State>, events: seq<Event>) {
    && |states| == |events| + 1
    && Init(states[0])
    && forall n :: 0 <= n < |events| ==> Next(states[n], events[n], states[n + 1])
  }

  lemma {:induction false} RunInv(states: seq<State>, events: seq<Event>, n: nat)
    requires IsRun(states, events) && n < |states|
    ensures Inv(states[n])
  {
    if n == 0 {
      InitInv(states[0]);
    } else {
      RunInv(states, events, n - 1);
      NextInv(states[n - 1], events[n - 1], states[n]);
    }
  }

  /** What the cache promises in a state. */
  ghost predicate Safe(s: State) {
    // at most one live proxy for each interface of an object, and the cache knows it
    && WellTyped(s)
    && (forall p, q ::
          (s.InStage(p, Live) && s.InStage(q, Live)
           && s.handles[p].tag == s.handles[q].tag && s.handles[p].impl == s.handles[q].impl) ==> p == q)
    && (forall p :: s.InStage(p, Live) ==> s.KeyOf(p) in s.mapping && s.mapping[s.KeyOf(p)] == p)
    // a key never dangles: the object it stands for is alive, and no other living object has its address
    && (forall k :: k in s.mapping ==> KeyGuarded(s, k))
  }

  /** The entry's handle has still to run `remove`, and owns the one living object at the key's address. */
  ghost predicate KeyGuarded(s: State, k: Key)
    requires k in s.mapping
  {
    && s.mapping[k] in s.handles
    && var h := s.handles[s.mapping[k]];
    && h.stage in {Live, Expired} && h.tag == k.0
    && s.Alive(h.impl) && s.addresses[h.impl] == k.1
    && forall i :: s.Alive(i) && s.addresses[i] == k.1 ==> i == h.impl
  }

  lemma InvSafe(s: State)
    requires Inv(s)
    ensures Safe(s)
  {
  }

  /** In every state of every run the cache is safe. */
  lemma RunSafe(states: seq<State>, events: seq<Event>, n: nat)
    requires IsRun(states, events) && n < |states|
    ensures Safe(states[n])
  {
    RunInv(states, events, n);
    InvSafe(states[n]);
  }

  /** `get` hits exactly when the object has a live proxy for the interface, and returns that one. */
  lemma GetReturnsTheLiveProxy(states: seq<State>, events: seq<Event>, n: nat, t: Tag, i: Impl)
    requires IsRun(states, events) && n < |states|
    requires states[n].Alive(i)
    ensures var s := states[n];
            forall p :: Lookup(s.mapping, (t, s.addresses[i]), s.LiveProxies()) == Some(p)
                        <==> s.InStage(p, Live) && s.handles[p].tag == t && s.handles[p].impl == i
  {
    RunInv(states, events, n);
    var s := states[n];
    InvSafe(s);
    var key := (t, s.addresses[i]);
    forall p ensures Lookup(s.mapping, key, s.LiveProxies()) == Some(p)
                     <==> s.InStage(p, Live) && s.handles[p].tag == t && s.handles[p].impl == i {
      if Lookup(s.mapping, key, s.LiveProxies()) == Some(p) {
        assert KeyGuarded(s, key);
      }
      if s.InStage(p, Live) && s.handles[p].tag == t && s.handles[p].impl == i {
        assert s.KeyOf(p) == key;
      }
    }
  }

  /** A stage once left is never entered again. */
  function Age(stage: Stage): nat {
    match stage case Live => 0 case Expired => 1 case Removed => 2 case Freed => 3
  }

  lemma HandleAges(s: State, e: Event, s': State, p: Proxy)
    requires Next(s, e, s') && p in s.handles
    ensures p in s'.handles && s'.handles[p].tag == s.handles[p].tag && s'.handles[p].impl == s.handles[p].impl
    ensures Age(s.handles[p].stage) <= Age(s'.handles[p].stage)
  {
  }

  lemma {:induction false} HandlesOnlyAge(states: seq<State>, events: seq<Event>, m: nat, n: nat, p: Proxy)
    requires IsRun(states, events) && m <= n < |states| && p in states[m].handles
    ensures p in states[n].handles
    ensures states[n].handles[p].tag == states[m].handles[p].tag
    ensures states[n].handles[p].impl == states[m].handles[p].impl
    ensures Age(states[m].handles[p].stage) <= Age(states[n].handles[p].stage)
    decreases n
  {
    hide Next, Init;
    if m < n {
      HandlesOnlyAge(states, events, m, n - 1, p);
      HandleAges(states[n - 1], events[n - 1], states[n], p);
    }
  }

  /**
    Identity across the language boundary: whenever `get` is called again for the same object and
    interface, it hits and returns the proxy it returned before if that proxy is still live, however
    many steps of other threads, late removals and reused addresses lie in between.
   */
  lemma IdentityPreserved(states: seq<State>, events: seq<Event>, m: nat, n: nat, t: Tag, i: Impl, p: Proxy)
    requires IsRun(states, events) && m < n < |events|
    requires events[m] == GetHit(t, i, p) || (events[m] == Insert(p) && states[m].lock == Allocating(t, i))
    requires states[n].InStage(p, Live)
    requires (exists q :: events[n] == GetHit(t, i, q)) || events[n] == GetMiss(t, i)
    ensures events[n] == GetHit(t, i, p)
  {
    assert Next(states[m], events[m], states[m + 1]);
    assert Next(states[n], events[n], states[n + 1]);
    if events[m] == GetHit(t, i, p) {
      GetReturnsTheLiveProxy(states, events, m, t, i);
    }
    HandlesOnlyAge(states, events, m + 1, n, p);
    GetReturnsTheLiveProxy(states, events, n, t, i);
  }

  /** Nobody else touches the map between the two halves of a `get` that allocates. */
  lemma {:induction false} MapWaitsForInsert(states: seq<State>, events: seq<Event>, m: nat, n: nat)
    requires IsRun(states, events) && m < n < |events| && events[m].GetMiss?
    requires forall k :: m < k < n ==> !events[k].Insert?
    ensures states[n].mapping == states[m + 1].mapping
    ensures states[n].lock == states[m + 1].lock == Allocating(events[m].tag, events[m].impl)
    ensures events[m].impl in states[n].addresses
    ensures states[n].addresses[events[m].impl] == states[m + 1].addresses[events[m].impl]
    decreases n
  {
    assert Next(states[m], events[m], states[m + 1]);
    if m + 1 < n {
      MapWaitsForInsert(states, events, m, n - 1);
      assert Next(states[n - 1], events[n - 1], states[n]);
    }
  }

  /**
    A `get` that allocates is two steps with other threads in between, and yet changes the map as the
    one call of `Pimpl.Get` does: the map of its first step with the expired entry dropped and the new
    proxy put in.
   */
  lemma GetIsAtomic(states: seq<State>, events: seq<Event>, m: nat, n: nat)
    requires IsRun(states, events) && m < n < |events| && events[m].GetMiss? && events[n].Insert?
    requires forall k :: m < k < n ==> !events[k].Insert?
    ensures events[m].impl in states[m].addresses
    ensures var s, key := states[m], (events[m].tag, states[m].addresses[events[m].impl]);
            && Lookup(s.mapping, key, s.LiveProxies()).None?
            && states[n + 1].mapping == Emplace(Prune(s.mapping, key, s.LiveProxies()), key, events[n].proxy)
            && states[n + 1].mapping[key] == events[n].proxy
  {
    assert Next(states[m], events[m], states[m + 1]);
    assert Next(states[n], events[n], states[n + 1]);
    MapWaitsForInsert(states, events, m, n);
  }

  /** A late `remove` takes away no live proxy's entry. */
  lemma RemoveSparesLive(states: seq<State>, events: seq<Event>, n: nat, late: Proxy, q: Proxy)
    requires IsRun(states, events) && n < |events| && events[n] == Remove(late)
    requires states[n].InStage(q, Live) && states[n].handles[q].impl in states[n].addresses
    ensures q != late
    ensures var k := states[n].KeyOf(q); k in states[n + 1].mapping && states[n + 1].mapping[k] == q
  {
    RunInv(states, events, n);
    assert Next(states[n], events[n], states[n + 1]);
  }

  /** Nothing leaks: an entry is gone once no handle for its key has a `remove` to run. */
  lemma EntriesDoNotOutliveHandles(states: seq<State>, events: seq<Event>, n: nat, k: Key)
    requires IsRun(states, events) && n < |states|
    requires forall p :: p in states[n].handles && states[n].handles[p].stage in {Live, Expired} ==>
               states[n].handles[p].impl in states[n].addresses && states[n].KeyOf(p) != k
    ensures k !in states[n].mapping
  {
    RunInv(states, events, n);
  }

  // ---------- no step is ruled out ----------

  /** Whoever owns an object can get a proxy while nobody allocates: the live one if there is one ... */
  lemma HitIsPossible(states: seq<State>, events: seq<Event>, n: nat, p: Proxy)
    requires IsRun(states, events) && n < |states| && states[n].lock.Unlocked? && states[n].InStage(p, Live)
    requires states[n].handles[p].impl in states[n].owned
    ensures Next(states[n], GetHit(states[n].handles[p].tag, states[n].handles[p].impl, p), states[n])
  {
    RunInv(states, events, n);
    var h := states[n].handles[p];
    GetReturnsTheLiveProxy(states, events, n, h.tag, h.impl);
  }

  /** ... and else a new one. */
  lemma MissIsPossible(states: seq<State>, events: seq<Event>, n: nat, t: Tag, i: Impl, p: Proxy)
    returns (s: State, s': State)
    requires IsRun(states, events) && n < |states| && states[n].lock.Unlocked? && i in states[n].owned
    requires forall q :: states[n].InStage(q, Live) ==> (states[n].handles[q].tag, states[n].handles[q].impl) != (t, i)
    requires p !in states[n].handles
    ensures Next(states[n], GetMiss(t, i), s) && Next(s, Insert(p), s')
    ensures s'.handles == states[n].handles[p := Handle(t, i, Live)] && s'.lock.Unlocked?
  {
    RunInv(states, events, n);
    var s0 := states[n];
    GetReturnsTheLiveProxy(states, events, n, t, i);
    var key := (t, s0.addresses[i]);
    assert Lookup(s0.mapping, key, s0.LiveProxies()).None?;
    s := s0.(mapping := Prune(s0.mapping, key, s0.LiveProxies()), lock := Allocating(t, i));
    s' := s.(handles := s.handles[p := Handle(t, i, Live)], mapping := Emplace(s.mapping, key, p), lock := Unlocked);
  }

  /** A proxy can live its whole life out, from expiry over `remove` to the release of its object. */
  lemma LifeGoesOn(states: seq<State>, events: seq<Event>, n: nat, p: Proxy)
    returns (s: State, s': State, s'': State)
    requires IsRun(states, events) && n < |states| && states[n].lock.Unlocked? && states[n].InStage(p, Live)
    ensures Next(states[n], Expire(p), s) && Next(s, Remove(p), s') && Next(s', Free(p), s'')
    ensures s''.handles == states[n].handles[p := states[n].handles[p].(stage := Freed)]
    ensures s''.mapping == states[n].mapping - {states[n].KeyOf(p)}
    ensures s''.owned == states[n].owned && s''.addresses == states[n].addresses
  {
    RunInv(states, events, n);
    s := states[n].Moved(p, Expired);
    s' := s.Moved(p, Removed).(mapping := Prune(s.mapping, s.KeyOf(p), s.LiveProxies()));
    s'' := s'.Moved(p, Freed);
    assert s''.handles == states[n].handles[p := states[n].handles[p].(stage := Freed)];
  }

  /** When the last owner lets go of an object, its address can be given to another one at once. */
  lemma AddressComesFree(states: seq<State>, events: seq<Event>, n: nat, i: Impl, j: Impl) returns (s: State, s': State)
    requires IsRun(states, events) && n < |states| && states[n].Alive(i) && states[n].lock.Unlocked?
    requires forall p :: p in states[n].handles && states[n].handles[p].impl == i ==>
               states[n].handles[p].stage == Freed
    requires j !in states[n].addresses
    ensures Next(states[n], Disown(i), s) && Next(s, NewImpl(j, states[n].addresses[i]), s')
    ensures s'.Alive(j) && s'.addresses[j] == states[n].addresses[i] && !s'.Alive(i)
  {
    RunInv(states, events, n);
    var s0, a := states[n], states[n].addresses[i];
    s := s0.(owned := s0.owned - {i});
    s' := s.(addresses := s.addresses[j := a], owned := s.owned + {j});
    assert !s.HandleOwns(i) && !s'.HandleOwns(i);
    forall k | s.Alive(k) ensures s.addresses[k] != a {
      NoneRevived(s0, Disown(i), s, k);
      assert s0.Alive(k) && s0.Alive(i);
    }
  }

  // ---------- why `remove` looks before it erases ----------

  /**
    The window the guard is for is reachable: a run in which an older proxy has expired, its `remove`
    is still to come, and the key already leads to a newer live proxy. Erasing without looking would
    leave that live proxy out of the cache.
   */
  lemma GuardIsNeeded() returns (states: seq<State>, events: seq<Event>)
    ensures IsRun(states, events)
    ensures var s := states[|states| - 1];
            && s.lock.Unlocked? && s.InStage(0, Expired) && s.InStage(1, Live)
            && s.handles[0].impl in s.addresses
            && s.KeyOf(0) in s.mapping && s.mapping[s.KeyOf(0)] == 1
            && !Safe(s.Moved(0, Removed).(mapping := s.mapping - {s.KeyOf(0)}))
  {
    hide Safe, IsRun;
    var s;
    states, events, s := RunIntoWindow();
    WindowIsUnsafe(s);
  }

  /** The window: proxy 0 has expired, and its key leads to proxy 1. */
  ghost predicate InWindow(s: State) {
    s == State(map[0 := 7], {0}, map[0 := Handle(0, 0, Expired), 1 := Handle(0, 0, Live)], map[(0, 7) := 1], Unlocked)
  }

  lemma WindowIsUnsafe(s: State)
    requires InWindow(s)
    ensures !Safe(s.Moved(0, Removed).(mapping := s.mapping - {s.KeyOf(0)}))
  {
    var broken := s.Moved(0, Removed).(mapping := s.mapping - {s.KeyOf(0)});
    assert broken.InStage(1, Live) && broken.KeyOf(1) !in broken.mapping;
  }

  lemma RunIntoWindow() returns (states: seq<State>, events: seq<Event>, s6: State)
    ensures IsRun(states, events) && states[|states| - 1] == s6 && InWindow(s6)
  {
    var h := Handle(0, 0, Live);
    var s0 := State(map[], {}, map[], map[], Unlocked);
    var s1 := State(map[0 := 7], {0}, map[], map[], Unlocked);
    var s2 := s1.(lock := Allocating(0, 0));
    var s3 := s1.(handles := map[0 := h], mapping := map[(0, 7) := 0]);
    var s4 := s3.(handles := map[0 := h.(stage := Expired)]);
    var s5 := s4.(mapping := map[], lock := Allocating(0, 0));
    s6 := s4.(handles := map[0 := h.(stage := Expired), 1 := h], mapping := map[(0, 7) := 1]);
    states := [s0, s1, s2, s3, s4, s5, s6];
    events := [NewImpl(0, 7), GetMiss(0, 0), Insert(0), Expire(0), GetMiss(0, 0), Insert(1)];
    assert Next(s0, events[0], s1);
    assert Next(s1, events[1], s2);
    assert Next(s2, events[2], s3);
    assert Next(s3, events[3], s4);
    assert s4.LiveProxies() == {};
    assert Next(s4, events[4], s5);
    assert Next(s5, events[5], s6);
  }
}
