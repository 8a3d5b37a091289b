// The content-addressed store with LRU retention and memoization on top of it:
// crates/habitat-graph-cache/src/evict.rs, cas.rs and memo.rs.

module Cache {
  import opened Lists
  import opened Schema
  import opened Recency

  // ---------------------------------------------------------------- the store as a value

  /** What a store holds: keys from least to most recently used, and their values. */
  datatype State<K, V> = State(order: seq<K>, entries: map<K, V>)

  /** The agreement of deque and map, and the capacity bound. */
  ghost predicate Coherent<K(!new), V>(capacity: nat, s: State<K, V>) {
    && NoRepeats(s.order)
    && SameKeys(s)
    && (capacity > 0 ==> |s.order| <= capacity)
  }

  ghost predicate SameKeys<K(!new), V>(s: State<K, V>) {
    && (forall k :: k in s.order ==> k in s.entries)
    && (forall k :: k in s.entries ==> k in s.order)
  }

  ghost function Only<K(!new), V>(m: map<K, V>, order: seq<K>): map<K, V> {
    map k | k in m && k in order :: m[k]
  }

  ghost function AfterGet<K(!new), V>(s: State<K, V>, k: K): State<K, V> {
    if k in s.entries then s.(order := Touched(s.order, k)) else s
  }

  ghost function AfterPut<K(!new), V>(capacity: nat, s: State<K, V>, k: K, v: V): State<K, V> {
    var order := Kept(capacity, Touched(s.order, k));
    State(order, Only(s.entries[k := v], order))
  }

  ghost function AfterMemo<K(!new), V>(capacity: nat, s: State<K, V>, k: K, v: V): State<K, V> {
    if k in s.entries then AfterGet(s, k) else AfterPut(capacity, s, k, v)
  }

  lemma TouchedMeaning<K(!new)>(order: seq<K>, k: K)
    requires NoRepeats(order)
    ensures NoRepeats(Touched(order, k))
    ensures forall x :: x in Touched(order, k) <==> x in order || x == k
    ensures |Touched(order, k)| == |order| + (if k in order then 0 else 1)
  {
    WithoutMembers(order, k);
  }

  lemma OrderSize<K(!new), V>(s: State<K, V>)
    requires NoRepeats(s.order) && SameKeys(s)
    ensures |s.order| == |s.entries|
  {
    NoRepeatsSize(s.order);
    assert Elements(s.order) == s.entries.Keys;
  }

  lemma KeptMembers<K(!new)>(capacity: nat, all: seq<K>, x: K)
    requires NoRepeats(all) && (capacity > 0 ==> |all| <= capacity + 1)
    ensures NoRepeats(Kept(capacity, all))
    ensures capacity > 0 ==> |Kept(capacity, all)| <= capacity
    ensures x in Kept(capacity, all) <==> x in all && (capacity > 0 && |all| == capacity + 1 ==> x != all[0])
  {
  }

  lemma PutCoherent<K(!new), V>(capacity: nat, s: State<K, V>, k: K, v: V)
    requires Coherent(capacity, s)
    ensures Coherent(capacity, AfterPut(capacity, s, k, v))
  {
    var all, s' := Touched(s.order, k), AfterPut(capacity, s, k, v);
    TouchedMeaning(s.order, k);
    forall x | x in s'.order
      ensures x in s'.entries
    {
      KeptMembers(capacity, all, x);
      assert x in s.order || x == k;
    }
    KeptMembers(capacity, all, k);
  }

  /** `rest` is what remains of `order` without `k` and, perhaps, its oldest key. */
  ghost predicate InOrderOf<K(!new)>(rest: seq<K>, order: seq<K>, k: K) {
    var others := Filter((x: K) => x != k, order);
    rest == others || (others != [] && rest == others[1..])
  }

  lemma {:induction false} WithoutIsFilter<K(!new)>(order: seq<K>, k: K)
    requires NoRepeats(order)
    ensures Without(order, k) == Filter((x: K) => x != k, order)
  {
    var p := (x: K) => x != k;
    if order != [] {
      assert order == [order[0]] + order[1..];
      FilterCons(p, order[0], order[1..]);
      WithoutIsFilter(order[1..], k);
      if order[0] == k { WithoutAbsent(order[1..], k); }
    }
  }

  lemma PutOrder<K(!new), V>(capacity: nat, s: State<K, V>, k: K, v: V)
    requires Coherent(capacity, s)
    ensures var order := AfterPut(capacity, s, k, v).order;
            order != [] && Last(order) == k && InOrderOf(Init(order), s.order, k)
  {
    var rest := Without(s.order, k);
    WithoutIsFilter(s.order, k);
    WithoutMembers(s.order, k);
    Snoc(rest, k);
    if capacity > 0 && |rest| == capacity {
      assert (rest + [k])[1..] == rest[1..] + [k];
      Snoc(rest[1..], k);
    }
  }

  /** A `put` keeps the store coherent, keeps the new entry, and evicts at most one entry,
      the least recently used, and only when the store was full. Its key comes last; the other
      keys keep their order. */
  lemma PutMeaning<K(!new), V>(capacity: nat, s: State<K, V>, k: K, v: V, x: K)
    requires Coherent(capacity, s)
    ensures Coherent(capacity, AfterPut(capacity, s, k, v))
    ensures var after := AfterPut(capacity, s, k, v).entries;
            && k in after && after[k] == v
            && (x in after && x != k ==> x in s.entries && after[x] == s.entries[x])
            && (x in s.entries && x !in after ==> x == s.order[0] && k !in s.entries && |s.entries| == capacity > 0)
    ensures var order := AfterPut(capacity, s, k, v).order;
            order != [] && Last(order) == k && InOrderOf(Init(order), s.order, k)
  {
    var all := Touched(s.order, k);
    PutCoherent(capacity, s, k, v);
    TouchedMeaning(s.order, k);
    OrderSize(s);
    KeptMembers(capacity, all, k);
    KeptMembers(capacity, all, x);
    PutOrder(capacity, s, k, v);
    if capacity > 0 && |all| == capacity + 1 {
      WithoutAbsent(s.order, k);
      assert all == s.order + [k];
    }
  }

  lemma GetMeaning<K(!new), V>(capacity: nat, s: State<K, V>, k: K)
    requires Coherent(capacity, s)
    ensures Coherent(capacity, AfterGet(s, k)) && AfterGet(s, k).entries == s.entries
  {
    TouchedMeaning(s.order, k);
    if k in s.entries {
      assert k in s.order;
      assert AfterGet(s, k).order == Touched(s.order, k);
      forall x | x in AfterGet(s, k).order
        ensures x in s.entries
      {
        assert x in Touched(s.order, k);
        assert x in s.order || x == k;
      }
    }
  }

  /** Evicting the oldest key drops its entry and no other. */
  lemma EvictOne<K(!new), V>(all: map<K, V>, entries: map<K, V>, order: seq<K>)
    requires order != [] && NoRepeats(order) && entries == Only(all, order)
    ensures Without(order, order[0]) == order[1..] && NoRepeats(order[1..])
    ensures (map x | x in entries && x != order[0] :: entries[x]) == Only(all, order[1..])
    ensures SameKeys(State(order, entries)) ==> SameKeys(State(order[1..], Only(all, order[1..])))
  {
  }

  // ---------------------------------------------------------------- the program

  /** Least-recently-used retention; the front of the queue is the eviction candidate. */
  class Lru<K(==,!new)> {
    var order: seq<K>

    constructor ()
      ensures order == []
    {
      order := [];
    }

    method Position(k: K) returns (pos: Option<nat>)
      ensures pos.Some? ==> pos.value < |order| && order[pos.value] == k && k !in order[..pos.value]
      ensures pos.None? ==> k !in order
    {
      for i := 0 to |order|
        invariant k !in order[..i]
      {
        if order[i] == k {
          return Some(i);
        }
        assert order[..i + 1] == order[..i] + [order[i]];
      }
      return None;
    }

    method Touch(k: K)
      modifies this
      ensures order == Touched(old(order), k)
    {
      NoteRemove(k);
      order := order + [k];
    }

    method NoteAccess(k: K)
      modifies this
      ensures order == Touched(old(order), k)
    {
      Touch(k);
    }

    method NoteInsert(k: K)
      modifies this
      ensures order == Touched(old(order), k)
    {
      Touch(k);
    }

    method NoteRemove(k: K)
      modifies this
      ensures order == Without(old(order), k)
    {
      var pos := Position(k);
      if pos.Some? {
        WithoutAt(order, k, pos.value);
        order := order[..pos.value] + order[pos.value + 1..];
      } else {
        WithoutAbsent(order, k);
      }
    }

    method EvictCandidate() returns (k: Option<K>)
      ensures k == if order == [] then None else Some(order[0])
    {
      k := if order == [] then None else Some(order[0]);
    }
  }

  /** An in-memory store with a capacity bound; capacity 0 means unbounded. */
  class MemStore<K(==,!new), V> {
    var entries: map<K, V>
    const policy: Lru<K>
    const capacity: nat

    ghost function Contents(): State<K, V>
      reads this, policy
    {
      State(policy.order, entries)
    }

    ghost predicate Valid()
      reads this, policy
    {
      Coherent(capacity, Contents())
    }

    constructor (capacity: nat)
      ensures Valid() && fresh(policy)
      ensures this.capacity == capacity && Contents() == State([], map[])
    {
      entries, this.capacity := map[], capacity;
      policy := new Lru<K>();
    }

    method Get(k: K) returns (hit: Option<V>)
      requires Valid()
      modifies policy
      ensures Valid()
      ensures hit == if k in entries then Some(entries[k]) else None
      ensures Contents() == AfterGet(old(Contents()), k)
    {
      GetMeaning(capacity, Contents(), k);
      hit := if k in entries then Some(entries[k]) else None;
      if hit.Some? {
        policy.NoteAccess(k);
      }
    }

    method Put(k: K, v: V)
      requires Valid()
      modifies this, policy
      ensures Valid()
      ensures Contents() == AfterPut(capacity, old(Contents()), k, v)
    {
      ghost var before := Contents();
      TouchedMeaning(policy.order, k);
      entries := entries[k := v];
      policy.NoteInsert(k);
      assert NoRepeats(policy.order) && SameKeys(Contents());
      assert entries == Only(entries, policy.order);
      if capacity > 0 {
        EvictExcess(entries);
      }
      assert policy.order == Kept(capacity, Touched(before.order, k));
      assert Contents() == AfterPut(capacity, before, k, v);
      PutCoherent(capacity, before, k, v);
    }

    /** The eviction loop of `put`, for any number of excess entries. */
    method EvictExcess(ghost wanted: map<K, V>)
      requires NoRepeats(policy.order) && SameKeys(Contents()) && 0 < capacity
      requires entries == Only(wanted, policy.order)
      modifies this, policy
      ensures policy.order == Latest(old(policy.order), capacity)
      ensures entries == Only(wanted, policy.order)
    {
      ghost var all := policy.order;
      OrderSize(Contents());
      while |entries| > capacity
        invariant Latest(policy.order, capacity) == Latest(all, capacity)
        invariant NoRepeats(policy.order) && SameKeys(Contents())
        invariant entries == Only(wanted, policy.order)
        invariant |entries| == |policy.order|
        decreases |entries|
      {
        var victim := policy.EvictCandidate();
        if victim.None? {
          break;
        }
        LatestOfRest(policy.order, capacity);
        Remove(victim.value, wanted);
        OrderSize(Contents());
      }
    }

    /** Removes the oldest key from map and queue. */
    method Remove(victim: K, ghost wanted: map<K, V>)
      requires NoRepeats(policy.order) && SameKeys(Contents()) && entries == Only(wanted, policy.order)
      requires policy.order != [] && victim == policy.order[0]
      modifies this, policy
      ensures policy.order == old(policy.order)[1..]
      ensures NoRepeats(policy.order) && SameKeys(Contents()) && entries == Only(wanted, policy.order)
    {
      EvictOne(wanted, entries, policy.order);
      entries := map x | x in entries && x != victim :: entries[x];
      policy.NoteRemove(victim);
    }

    method Contains(k: K) returns (present: bool)
      requires Valid()
      ensures present <==> k in policy.order
    {
      present := k in entries;
    }

    method Len() returns (n: nat)
      requires Valid()
      ensures n == |policy.order|
    {
      OrderSize(Contents());
      n := |entries|;
    }
  }

  /** The cached value of `key`, or the computed one, which is then stored. */
  method Memoize<K(==,!new), V>(store: MemStore<K, V>, key: K, compute: () -> V)
    returns (value: V, ghost computed: bool)
    requires store.Valid()
    modifies store, store.policy
    ensures store.Valid()
    ensures computed <==> key !in old(store.entries)
    ensures value == if computed then compute() else old(store.entries)[key]
    ensures store.Contents() == AfterMemo(store.capacity, old(store.Contents()), key, compute())
  {
    var cached := store.Get(key);
    if cached.Some? {
      return cached.value, false;
    }
    value := compute();
    store.Put(key, value);
    computed := true;
  }

  // ---------------------------------------------------------------- runs of requests

  /** The store after a run of `memoize` calls, each key computed by `f`, from the empty store. */
  ghost function RunState<K(!new), V>(capacity: nat, f: K -> V, requests: seq<K>): State<K, V> {
    if requests == [] then State([], map[])
    else
      AfterMemo(capacity, RunState(capacity, f, Init(requests)), Last(requests), f(Last(requests)))
  }

  ghost function Tabulated<K(!new), V>(f: K -> V, order: seq<K>): map<K, V> {
    map k | k in order :: f(k)
  }

  /** One request, on a store whose entries are all computed by `f`. */
  lemma RequestStep<K(!new), V>(capacity: nat, f: K -> V, s: State<K, V>, k: K)
    requires Coherent(capacity, s) && s.entries == Tabulated(f, s.order)
    ensures Coherent(capacity, AfterMemo(capacity, s, k, f(k)))
    ensures AfterMemo(capacity, s, k, f(k)).order == Kept(capacity, Touched(s.order, k))
    ensures AfterMemo(capacity, s, k, f(k)).entries == Tabulated(f, Kept(capacity, Touched(s.order, k)))
  {
    TouchedMeaning(s.order, k);
    if k in s.entries {
      GetMeaning(capacity, s, k);
      assert k in s.order;
    } else {
      PutCoherent(capacity, s, k, f(k));
    }
  }

  /** After any run the store is coherent, its order is the latest `capacity` keys by last
      request, oldest first, and every entry is what computing it again would give. */
  lemma {:induction false} RunMeaning<K(!new), V>(capacity: nat, f: K -> V, requests: seq<K>)
    ensures Coherent(capacity, RunState(capacity, f, requests))
    ensures RunState(capacity, f, requests).order == Kept(capacity, LastUses(requests))
    ensures RunState(capacity, f, requests).entries == Tabulated(f, Kept(capacity, LastUses(requests)))
  {
    OrderIsLatestUses(capacity, requests);
    if requests != [] {
      RunMeaning(capacity, f, Init(requests));
      OrderIsLatestUses(capacity, Init(requests));
      RequestStep(capacity, f, RunState(capacity, f, Init(requests)), Last(requests));
    }
  }

  lemma RunStep<K(!new), V>(capacity: nat, f: K -> V, requests: seq<K>, i: nat)
    requires i < |requests|
    ensures var s, k := RunState(capacity, f, requests[..i]), requests[i];
            && RunState(capacity, f, requests[..i + 1]) == AfterMemo(capacity, s, k, f(k))
            && Misses(capacity, requests[..i + 1]) == Misses(capacity, requests[..i]) + (if k in s.entries then 0 else 1)
            && (k in s.entries ==> s.entries[k] == f(k))
    ensures Map(f, requests[..i + 1]) == Map(f, requests[..i]) + [f(requests[i])]
  {
    Transparency(capacity, f, requests[..i], requests[i]);
    assert requests[..i + 1] == requests[..i] + [requests[i]];
    OneMoreRequest(capacity, f, requests[..i], requests[i]);
  }

  lemma OneMoreRequest<K(!new), V>(capacity: nat, f: K -> V, past: seq<K>, k: K)
    ensures RunState(capacity, f, past + [k]) == AfterMemo(capacity, RunState(capacity, f, past), k, f(k))
    ensures Misses(capacity, past + [k]) == Misses(capacity, past) + (if k in OrderAfter(capacity, past) then 0 else 1)
    ensures Map(f, past + [k]) == Map(f, past) + [f(k)]
  {
    Snoc(past, k);
  }

  /** A caller's run: every call returns what computing would give, and the store ends in the
      state of the run. */
  method MemoizeAll<K(==,!new), V>(store: MemStore<K, V>, f: K -> V, requests: seq<K>)
    returns (values: seq<V>, ghost computed: nat)
    requires store.Valid() && store.Contents() == State([], map[])
    modifies store, store.policy
    ensures store.Valid()
    ensures values == Map(f, requests)
    ensures store.Contents() == RunState(store.capacity, f, requests)
    ensures computed == Misses(store.capacity, requests)
  {
    values, computed := [], 0;
    for i := 0 to |requests|
      invariant store.Valid()
      invariant values == Map(f, requests[..i])
      invariant store.Contents() == RunState(store.capacity, f, requests[..i])
      invariant computed == Misses(store.capacity, requests[..i])
    {
      var k := requests[i];
      RunStep(store.capacity, f, requests, i);
      var value;
      ghost var missed;
      value, missed := Memoize(store, k, () => f(k));
      values := values + [value];
      computed := computed + if missed then 1 else 0;
    }
    assert requests[..|requests|] == requests;
  }

  /** Transparency: in any run the value `memoize` returns is what computing would give, and it
      computes exactly when the key is not among the latest `capacity` keys. */
  lemma Transparency<K(!new), V>(capacity: nat, f: K -> V, requests: seq<K>, k: K)
    ensures var s := RunState(capacity, f, requests);
            && (k in s.entries ==> s.entries[k] == f(k))
            && (k in s.entries <==> k in OrderAfter(capacity, requests))
  {
    RunMeaning(capacity, f, requests);
    OrderIsLatestUses(capacity, requests);
  }

  /** The number of computations of a run does not depend on the values, and does not grow
      with the capacity; the larger store contains the smaller one. */
  lemma LargerStoreIsBetter<K(!new), V>(c: nat, d: nat, f: K -> V, requests: seq<K>)
    requires NoLarger(c, d)
    ensures Computed(d, f, requests) <= Computed(c, f, requests)
    ensures forall k :: k in RunState(c, f, requests).entries ==>
              k in RunState(d, f, requests).entries && RunState(d, f, requests).entries[k] == RunState(c, f, requests).entries[k]
  {
    ComputedIsMisses(c, f, requests);
    ComputedIsMisses(d, f, requests);
    LargerMissesNoMore(c, d, requests);
    forall k | k in RunState(c, f, requests).entries
      ensures k in RunState(d, f, requests).entries
      ensures RunState(d, f, requests).entries[k] == RunState(c, f, requests).entries[k]
    {
      Transparency(c, f, requests, k);
      Transparency(d, f, requests, k);
      StoreInclusion(c, d, requests);
    }
  }

  ghost function Computed<K(!new), V>(capacity: nat, f: K -> V, requests: seq<K>): nat {
    if requests == [] then 0
    else Computed(capacity, f, Init(requests))
         + (if Last(requests) in RunState(capacity, f, Init(requests)).entries then 0 else 1)
  }

  lemma {:induction false} ComputedIsMisses<K(!new), V>(capacity: nat, f: K -> V, requests: seq<K>)
    ensures Computed(capacity, f, requests) == Misses(capacity, requests)
  {
    if requests != [] {
      ComputedIsMisses(capacity, f, Init(requests));
      Transparency(capacity, f, Init(requests), Last(requests));
    }
  }
}
