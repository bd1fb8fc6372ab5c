/** The sharded store of src/kvstore/KVStore.cpp on values: what each call makes of the tables and LRUs of the shards,
    and the one map they stand for. */
module StoreSpec {
  import opened Wrappers
  import opened HashTableSpec
  import opened HashTableRefinement
  import opened LruSpec
  import opened LruClass

  // ---- one shard ----

  datatype ShardState<T> = ShardState(data: Table<T>, lru: LruState)

  predicate Ready<T>(s: ShardState<T>) {
    |s.data.buckets| > 0 && Usable(s.lru)
  }

  function NewShard<T>(): (s: ShardState<T>)
    ensures Ready(s)
  {
    ShardState(NewTable(), LruState([], 0, NewTable()))
  }

  /** set: the pair is stored even when the LRU then throws. */
  function ShardSet<T>(h: Hash, s: ShardState<T>, key: string, value: T, max: nat)
    : (r: (ShardState<T>, bool, Option<string>))
    requires Ready(s)
    ensures Ready(r.0)
  {
    var (data, a) := Apply(h, s.data, HashTableRefinement.Set(key, value));
    if a.Threw? then (s, true, None)
    else
      var (lru, threw, evicted) := SetState(h, s.lru, key, max);
      (ShardState(data, lru), threw, evicted)
  }

  /** get, and with it the touch of a key that was found. */
  function ShardGet<T>(h: Hash, s: ShardState<T>, key: string): (r: (ShardState<T>, Answer<T>))
    requires Ready(s)
    ensures Ready(r.0)
  {
    var a := Apply(h, s.data, Get(key)).1;
    if a.Value? && a.found.Some? then
      var (lru, threw) := AccessState(h, s.lru, key);
      (s.(lru := lru), if threw then Answer.Threw else a)
    else (s, a)
  }

  /** del: the pair goes even when the LRU then throws. */
  function ShardDel<T>(h: Hash, s: ShardState<T>, key: string): (r: (ShardState<T>, Answer<T>))
    requires Ready(s)
    ensures Ready(r.0)
  {
    var (data, a) := Apply(h, s.data, Erase(key));
    if a.Threw? then (s, a)
    else if a == Flag(true) then
      var (lru, threw) := DelState(h, s.lru, key);
      (ShardState(data, lru), if threw then Answer.Threw else a)
    else (s.(data := data), a)
  }

  /** Every key the LRU tracks is stored; an evicted key stays stored. */
  ghost predicate ShardOk<T>(h: Hash, s: ShardState<T>, max: nat) {
    && Inv(h, s.data) && LruOk(h, s.lru, max)
    && forall k :: k in Order(s.lru) ==> k in Contents(s.data.buckets)
  }

  ghost function Pairs<T>(s: ShardState<T>): map<string, T>
    requires UniqueKeys(s.data.buckets)
  {
    Contents(s.data.buckets)
  }

  /** The data table throws on this key. */
  ghost predicate DataStuck<T>(s: ShardState<T>, key: string)
    requires UniqueKeys(s.data.buckets)
  {
    key !in Pairs(s) && !HasEmpty(s.data.buckets)
  }

  lemma NewShardOk<T>(h: Hash, max: nat)
    ensures ShardOk(h, NewShard<T>(), max) && Pairs(NewShard<T>()) == map[] && NoTombstones(NewShard<T>())
  {
    NewTableInv<T>(h);
    NewTableInv<nat>(h);
  }

  lemma InsertedMembers(order: seq<string>, x: string, max: nat, k: string)
    ensures k in Inserted(order, x, max).0 ==> k == x || k in order
  {
    WithoutMembers(order, x, k);
  }

  lemma ShardSetOk<T>(h: Hash, s: ShardState<T>, key: string, value: T, max: nat)
    requires ShardOk(h, s, max)
    ensures var (r, threw, evicted) := ShardSet(h, s, key, value, max);
            && ShardOk(h, r, max)
            && Pairs(r) == (if DataStuck(s, key) then Pairs(s) else Pairs(s)[key := value])
            && (threw <==> DataStuck(s, key) || IndexStuck(s.lru, key))
            && (threw ==> Order(r.lru) == Order(s.lru))
            && (!threw ==> (Order(r.lru), evicted) == Inserted(Order(s.lru), key, max))
  {
    var (r, threw, evicted) := ShardSet(h, s, key, value, max);
    ApplyRefines(h, s.data, HashTableRefinement.Set(key, value));
    SetOk(h, s.lru, key, max);
    forall k | k in Order(r.lru)
      ensures k in Pairs(r)
    {
      InsertedMembers(Order(s.lru), key, max, k);
    }
  }

  lemma ShardGetOk<T>(h: Hash, s: ShardState<T>, key: string, max: nat)
    requires ShardOk(h, s, max)
    ensures var (r, a) := ShardGet(h, s, key);
            && ShardOk(h, r, max) && Pairs(r) == Pairs(s)
            && (a.Threw? <==> DataStuck(s, key) || (key in Pairs(s) && IndexStuck(s.lru, key)))
            && (!a.Threw? ==> a == Value(if key in Pairs(s) then Some(Pairs(s)[key]) else None))
            && Order(r.lru) == if a.Threw? || key !in Pairs(s) then Order(s.lru) else Touched(Order(s.lru), key)
  {
    ApplyRefines(h, s.data, Get(key));
    AccessOk(h, s.lru, key, max);
    TouchedMembers(Order(s.lru), key);
  }

  lemma TouchedMembers(order: seq<string>, x: string)
    ensures forall k :: k in Touched(order, x) ==> k in order
  {
    forall k | k in Touched(order, x)
      ensures k in order
    {
      WithoutMembers(order, x, k);
    }
  }

  lemma ShardDelOk<T>(h: Hash, s: ShardState<T>, key: string, max: nat)
    requires ShardOk(h, s, max)
    ensures var (r, a) := ShardDel(h, s, key);
            && ShardOk(h, r, max)
            && Pairs(r) == (if DataStuck(s, key) then Pairs(s) else Pairs(s) - {key})
            && (a.Threw? <==> DataStuck(s, key) || (key in Pairs(s) && IndexStuck(s.lru, key)))
            && (!a.Threw? ==> a == Flag(key in Pairs(s)))
            && Order(r.lru) == if a == Flag(true) then Without(Order(s.lru), key) else Order(s.lru)
  {
    ApplyRefines(h, s.data, Erase(key));
    if key in Pairs(s) {
      DelFound(h, s, key, max);
    } else {
      assert Pairs(s) - {key} == Pairs(s);
    }
  }

  lemma DelFound<T>(h: Hash, s: ShardState<T>, key: string, max: nat)
    requires ShardOk(h, s, max) && key in Pairs(s)
    ensures var data, (lru, threw) := Apply(h, s.data, Erase(key)).0, DelState(h, s.lru, key);
            && ShardOk(h, ShardState(data, lru), max) && Contents(data.buckets) == Pairs(s) - {key}
            && (threw <==> IndexStuck(s.lru, key))
            && Order(lru) == if threw then Order(s.lru) else Without(Order(s.lru), key)
  {
    ApplyRefines(h, s.data, Erase(key));
    DelOk(h, s.lru, key, max);
    UntrackedKey(h, s, key, max, Order(DelState(h, s.lru, key).0));
  }

  /** Once the key is gone from an order that tracked only stored keys, all its keys are other stored keys. */
  lemma UntrackedKey<T>(h: Hash, s: ShardState<T>, key: string, max: nat, order: seq<string>)
    requires ShardOk(h, s, max)
    requires order == Without(Order(s.lru), key) || (order == Order(s.lru) && key !in order)
    ensures forall k :: k in order ==> k in Pairs(s) - {key}
  {
    forall k | k in order
      ensures k in Pairs(s) - {key}
    {
      WithoutMembers(Order(s.lru), key, k);
    }
  }

  // ---- without tombstones ----

  ghost predicate NoTombstones<T>(s: ShardState<T>) {
    NoDeleted(s.data.buckets) && NoDeleted(s.lru.index.buckets)
  }

  /** Without tombstones neither table throws. */
  lemma NotStuck<T>(h: Hash, s: ShardState<T>, key: string, max: nat)
    requires ShardOk(h, s, max) && NoTombstones(s)
    ensures !DataStuck(s, key) && !IndexStuck(s.lru, key)
  {
    NeverGivesUp(h, s.data, Get(key));
    ApplyRefines(h, s.data, Get(key));
    NeverGivesUp(h, s.lru.index, Get(key));
    ApplyRefines(h, s.lru.index, Get(key));
  }

  /** And only eviction and del make tombstones. */
  lemma SetLeavesNone<T>(h: Hash, s: ShardState<T>, key: string, value: T, max: nat)
    requires ShardOk(h, s, max) && NoTombstones(s) && ShardSet(h, s, key, value, max).2.None?
    ensures NoTombstones(ShardSet(h, s, key, value, max).0)
  {
    ApplyRefines(h, s.data, HashTableRefinement.Set(key, value));
    ApplyRefines(h, s.lru.index, HashTableRefinement.Set(key, s.lru.nextId));
  }

  lemma GetLeavesNone<T>(h: Hash, s: ShardState<T>, key: string, max: nat)
    requires ShardOk(h, s, max) && NoTombstones(s)
    ensures NoTombstones(ShardGet(h, s, key).0)
  {
    ApplyRefines(h, s.lru.index, HashTableRefinement.Set(key, s.lru.nextId));
  }

  // ---- all shards ----

  type Store<T> = seq<ShardState<T>>

  predicate AllReady<T>(st: Store<T>) {
    |st| > 0 && forall i :: 0 <= i < |st| ==> Ready(st[i])
  }

  /** Each key lives in the shard its hash names. */
  ghost predicate Placed<T>(h: Hash, models: seq<map<string, T>>) {
    |models| > 0 && forall i, k :: 0 <= i < |models| && k in models[i] ==> Home(h, k, |models|) == i
  }

  /** The one map a sequence of shard maps stands for. */
  ghost function Union<T>(models: seq<map<string, T>>): map<string, T> {
    if models == [] then map[] else Union(models[..|models| - 1]) + models[|models| - 1]
  }

  lemma {:induction false} UnionAt<T>(models: seq<map<string, T>>, i: nat, key: string)
    requires i < |models| && forall j :: 0 <= j < |models| && j != i ==> key !in models[j]
    ensures key in Union(models) <==> key in models[i]
    ensures key in models[i] ==> Union(models)[key] == models[i][key]
  {
    if i == |models| - 1 {
      UnionNowhere(models[..|models| - 1], key);
    } else {
      UnionAt(models[..|models| - 1], i, key);
    }
  }

  lemma {:induction false} UnionNowhere<T>(models: seq<map<string, T>>, key: string)
    requires forall j :: 0 <= j < |models| ==> key !in models[j]
    ensures key !in Union(models)
  {
    if models == [] {
    } else {
      UnionNowhere(models[..|models| - 1], key);
    }
  }

  lemma UnionGet<T>(h: Hash, models: seq<map<string, T>>, key: string)
    requires Placed(h, models)
    ensures var m := models[Home(h, key, |models|)];
            (key in Union(models) <==> key in m) && (key in m ==> Union(models)[key] == m[key])
  {
    UnionAt(models, Home(h, key, |models|), key);
  }

  /** Replacing one shard's map by one that differs at most at a key of that shard. */
  lemma UnionUpdate<T>(h: Hash, models: seq<map<string, T>>, key: string, m: map<string, T>)
    requires Placed(h, models)
    requires m - {key} == models[Home(h, key, |models|)] - {key}
    ensures var models' := models[Home(h, key, |models|) := m];
            Placed(h, models')
            && Union(models') == if key in m then Union(models)[key := m[key]] else Union(models) - {key}
  {
    var i := Home(h, key, |models|);
    var models' := models[i := m];
    forall k | k in m
      ensures Home(h, k, |models|) == i
    {
      assert k != key ==> k in m - {key};
    }
    forall k
      ensures k != key ==> (k in Union(models') <==> k in Union(models))
                           && (k in Union(models) ==> Union(models')[k] == Union(models)[k])
      ensures k == key ==> (k in Union(models') <==> k in m) && (k in m ==> Union(models')[k] == m[k])
    {
      UnionGet(h, models, k);
      UnionGet(h, models', k);
      assert k != key ==> (k in m <==> k in m - {key});
      assert k != key ==> (k in models[i] <==> k in models[i] - {key});
      assert k != key && k in m ==> m[k] == (m - {key})[k] == (models[i] - {key})[k];
    }
  }

  lemma UnionSet<T>(h: Hash, models: seq<map<string, T>>, i: nat, key: string, value: T)
    requires Placed(h, models) && i == Home(h, key, |models|)
    ensures Placed(h, models[i := models[i][key := value]])
    ensures Union(models[i := models[i][key := value]]) == Union(models)[key := value]
  {
    var m := models[i][key := value];
    assert m - {key} == models[i] - {key};
    UnionUpdate(h, models, key, m);
  }

  lemma UnionDel<T>(h: Hash, models: seq<map<string, T>>, i: nat, key: string)
    requires Placed(h, models) && i == Home(h, key, |models|)
    ensures Placed(h, models[i := models[i] - {key}])
    ensures Union(models[i := models[i] - {key}]) == Union(models) - {key}
  {
    var m := models[i] - {key};
    assert m - {key} == models[i] - {key};
    UnionUpdate(h, models, key, m);
  }

  lemma {:induction false} EmptyUnion<T>(models: seq<map<string, T>>)
    requires forall i :: 0 <= i < |models| ==> models[i] == map[]
    ensures Union(models) == map[]
  {
    if models == [] {
    } else {
      EmptyUnion(models[..|models| - 1]);
    }
  }

  ghost predicate AllOk<T>(h: Hash, st: Store<T>, max: nat) {
    forall i :: 0 <= i < |st| ==> ShardOk(h, st[i], max)
  }

  ghost function Models<T>(st: Store<T>): (m: seq<map<string, T>>)
    requires forall i :: 0 <= i < |st| ==> UniqueKeys(st[i].data.buckets)
    ensures |m| == |st| && forall i :: 0 <= i < |st| ==> m[i] == Pairs(st[i])
  {
    seq(|st|, i requires 0 <= i < |st| => Pairs(st[i]))
  }

  ghost predicate StoreOk<T>(h: Hash, st: Store<T>, max: nat) {
    AllOk(h, st, max) && Placed(h, Models(st))
  }

  /** The one map that the shards stand for. */
  ghost function StoreMap<T>(st: Store<T>): map<string, T>
    requires forall i :: 0 <= i < |st| ==> UniqueKeys(st[i].data.buckets)
  {
    Union(Models(st))
  }

  /** The shard's own map decides about its keys. */
  lemma MapGet<T>(h: Hash, st: Store<T>, i: nat, key: string, max: nat)
    requires StoreOk(h, st, max) && i == Home(h, key, |st|)
    ensures key in StoreMap(st) <==> key in Pairs(st[i])
    ensures key in Pairs(st[i]) ==> StoreMap(st)[key] == Pairs(st[i])[key]
  {
    UnionGet(h, Models(st), key);
  }

  /** A shard whose pairs are updated at one of its keys. */
  lemma MapSet<T>(h: Hash, st: Store<T>, i: nat, key: string, value: T, s: ShardState<T>, max: nat)
    requires StoreOk(h, st, max) && i == Home(h, key, |st|) && ShardOk(h, s, max)
    requires Pairs(s) == Pairs(st[i])[key := value]
    ensures StoreOk(h, st[i := s], max) && StoreMap(st[i := s]) == StoreMap(st)[key := value]
  {
    UnionSet(h, Models(st), i, key, value);
    assert Models(st[i := s]) == Models(st)[i := Pairs(s)];
  }

  lemma MapDel<T>(h: Hash, st: Store<T>, i: nat, key: string, s: ShardState<T>, max: nat)
    requires StoreOk(h, st, max) && i == Home(h, key, |st|) && ShardOk(h, s, max)
    requires Pairs(s) == Pairs(st[i]) - {key}
    ensures StoreOk(h, st[i := s], max) && StoreMap(st[i := s]) == StoreMap(st) - {key}
  {
    UnionDel(h, Models(st), i, key);
    assert Models(st[i := s]) == Models(st)[i := Pairs(s)];
  }

  lemma MapSame<T>(h: Hash, st: Store<T>, i: nat, s: ShardState<T>, max: nat)
    requires StoreOk(h, st, max) && i < |st| && ShardOk(h, s, max) && Pairs(s) == Pairs(st[i])
    ensures StoreOk(h, st[i := s], max) && StoreMap(st[i := s]) == StoreMap(st)
  {
    assert Models(st[i := s]) == Models(st);
  }

  lemma NewStoreOk<T>(h: Hash, n: nat, max: nat)
    requires n > 0
    ensures var st := seq(n, _ => NewShard<T>());
            && StoreOk(h, st, max) && AllReady(st) && StoreMap(st) == map[]
            && forall i :: 0 <= i < n ==> NoTombstones(st[i])
  {
    NewShardOk<T>(h, max);
    EmptyUnion(Models(seq(n, _ => NewShard<T>())));
  }

  // ---- calls on the store ----

  function StoreSet<T>(h: Hash, st: Store<T>, key: string, value: T, max: nat): (r: (Store<T>, bool, Option<string>))
    requires AllReady(st)
    ensures AllReady(r.0) && |r.0| == |st|
  {
    var i := Home(h, key, |st|);
    var (s, threw, evicted) := ShardSet(h, st[i], key, value, max);
    (st[i := s], threw, evicted)
  }

  function StoreGet<T>(h: Hash, st: Store<T>, key: string): (r: (Store<T>, Answer<T>))
    requires AllReady(st)
    ensures AllReady(r.0) && |r.0| == |st|
  {
    var i := Home(h, key, |st|);
    var (s, a) := ShardGet(h, st[i], key);
    (st[i := s], a)
  }

  function StoreDel<T>(h: Hash, st: Store<T>, key: string): (r: (Store<T>, Answer<T>))
    requires AllReady(st)
    ensures AllReady(r.0) && |r.0| == |st|
  {
    var i := Home(h, key, |st|);
    var (s, a) := ShardDel(h, st[i], key);
    (st[i := s], a)
  }

  /** The store is one map: set changes it at one key, unless the data table of the key's shard gives up. */
  lemma StoreSetOk<T>(h: Hash, st: Store<T>, key: string, value: T, max: nat)
    requires StoreOk(h, st, max) && AllReady(st)
    ensures var i, (r, threw, evicted) := Home(h, key, |st|), StoreSet(h, st, key, value, max);
            && StoreOk(h, r, max)
            && StoreMap(r) == (if DataStuck(st[i], key) then StoreMap(st) else StoreMap(st)[key := value])
            && (threw <==> DataStuck(st[i], key) || IndexStuck(st[i].lru, key))
            && (threw ==> Order(r[i].lru) == Order(st[i].lru))
            && (!threw ==> (Order(r[i].lru), evicted) == Inserted(Order(st[i].lru), key, max))
  {
    var i := Home(h, key, |st|);
    var s := ShardSet(h, st[i], key, value, max).0;
    ShardSetOk(h, st[i], key, value, max);
    if DataStuck(st[i], key) {
      MapSame(h, st, i, s, max);
    } else {
      MapSet(h, st, i, key, value, s, max);
    }
  }

  lemma StoreGetOk<T>(h: Hash, st: Store<T>, key: string, max: nat)
    requires StoreOk(h, st, max) && AllReady(st)
    ensures var i, (r, a) := Home(h, key, |st|), StoreGet(h, st, key);
            && StoreOk(h, r, max) && StoreMap(r) == StoreMap(st)
            && (a.Threw? <==> DataStuck(st[i], key) || (key in StoreMap(st) && IndexStuck(st[i].lru, key)))
            && (!a.Threw? ==> a == Value(if key in StoreMap(st) then Some(StoreMap(st)[key]) else None))
            && Order(r[i].lru) == (if a.Threw? || key !in StoreMap(st) then Order(st[i].lru)
                                   else Touched(Order(st[i].lru), key))
  {
    var i := Home(h, key, |st|);
    ShardGetOk(h, st[i], key, max);
    MapSame(h, st, i, ShardGet(h, st[i], key).0, max);
    MapGet(h, st, i, key, max);
  }

  lemma StoreDelOk<T>(h: Hash, st: Store<T>, key: string, max: nat)
    requires StoreOk(h, st, max) && AllReady(st)
    ensures var i, (r, a) := Home(h, key, |st|), StoreDel(h, st, key);
            && StoreOk(h, r, max)
            && StoreMap(r) == (if DataStuck(st[i], key) then StoreMap(st) else StoreMap(st) - {key})
            && (a.Threw? <==> DataStuck(st[i], key) || (key in StoreMap(st) && IndexStuck(st[i].lru, key)))
            && (!a.Threw? ==> a == Flag(key in StoreMap(st)))
            && Order(r[i].lru) == if a == Flag(true) then Without(Order(st[i].lru), key) else Order(st[i].lru)
  {
    var i := Home(h, key, |st|);
    var s := ShardDel(h, st[i], key).0;
    ShardDelOk(h, st[i], key, max);
    MapGet(h, st, i, key, max);
    if DataStuck(st[i], key) {
      MapSame(h, st, i, s, max);
    } else {
      MapDel(h, st, i, key, s, max);
    }
  }
}
