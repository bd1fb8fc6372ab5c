/** Logs that cannot be replayed: SET requests alone, of which one is refused by the LRU after its pair was stored. */
module ReplayLimits {
  import opened RespValue
  import opened HashTableSpec
  import opened HashTableRefinement
  import opened LruClass
  import opened StoreSpec
  import opened Crowding
  import opened StoreLimits
  import opened Replay
  import opened Requests

  function SetRequest(key: string, value: Value): (v: Value)
    ensures Decode(v) == SetCmd(key, value)
  {
    DecodesSpelled(SetReq(key, value));
    Spelled(SetReq(key, value))
  }

  function SetRequests(keys: seq<string>, value: Value): (vs: seq<Value>)
    ensures |vs| == |keys| && forall k :: 0 <= k < |keys| ==> vs[k] == SetRequest(keys[k], value)
  {
    seq(|keys|, k requires 0 <= k < |keys| => SetRequest(keys[k], value))
  }

  ghost predicate KeysIn(h: Hash, keys: seq<string>, n: nat, i: nat)
    requires n > 0
  {
    forall k :: 0 <= k < |keys| ==> Home(h, keys[k], n) == i
  }

  /** A data table that has seen no deletion takes every pair, and the LRU goes through exactly the keys. */
  lemma SetFollows(h: Hash, st: Store<Value>, key: string, value: Value, i: nat, max: nat)
    requires StoreOk(h, st, max) && AllReady(st) && i == Home(h, key, |st|) && NoDeleted(st[i].data.buckets)
    ensures var (r, ok) := Handle(h, st, SetRequest(key, value), max);
            && StoreOk(h, r, max) && NoDeleted(r[i].data.buckets)
            && r[i].lru == SetState(h, st[i].lru, key, max).0 && ok == !SetState(h, st[i].lru, key, max).1
            && StoreMap(r) == StoreMap(st)[key := value]
  {
    assert ShardOk(h, st[i], max);
    StoreSetOk(h, st, key, value, max);
    NeverGivesUp(h, st[i].data, HashTableRefinement.Set(key, value));
    ApplyRefines(h, st[i].data, HashTableRefinement.Set(key, value));
  }

  lemma {:induction false} SetsFollow(h: Hash, st: Store<Value>, keys: seq<string>, value: Value, i: nat, max: nat)
    requires StoreOk(h, st, max) && AllReady(st) && i < |st| && KeysIn(h, keys, |st|, i)
    requires NoDeleted(st[i].data.buckets) && Usable(st[i].lru)
    ensures var r := HandleAll(h, st, SetRequests(keys, value), max);
            && StoreOk(h, r, max) && NoDeleted(r[i].data.buckets)
            && r[i].lru == LruSets(h, st[i].lru, keys, max)
    decreases |keys|
  {
    var vs := SetRequests(keys, value);
    if keys == [] {
    } else {
      var init, key := keys[..|keys| - 1], keys[|keys| - 1];
      SetsFollow(h, st, init, value, i, max);
      assert vs[..|vs| - 1] == SetRequests(init, value);
      SetFollows(h, HandleAll(h, st, SetRequests(init, value), max), key, value, i, max);
    }
  }

  /** A SET stores its pair and is refused. */
  ghost predicate StoredAndRefused(h: Hash, st: Store<Value>, key: string, value: Value, max: nat) {
    && StoreOk(h, st, max) && AllReady(st)
    && var (after, ok) := Handle(h, st, SetRequest(key, value), max);
       !ok && StoreOk(h, after, max) && StoreMap(after) == StoreMap(st)[key := value]
  }

  /** For every hash function, shard and capacity: in a store without deletions, whose LRU index has reached its final
      size, setting keys whose home buckets reach every bucket leaves the index full of tombstones. The next new key is
      stored, and its SET is refused all the same. */
  lemma EvictionsRefuse(
      h: Hash, st: Store<Value>, i: nat, blocks: seq<seq<string>>, key: string, value: Value, max: nat)
    requires StoreOk(h, st, max) && AllReady(st) && i == Home(h, key, |st|) && NoDeleted(st[i].data.buckets)
    requires FullGrown(st[i].lru, max) && Covers(h, blocks, |st[i].lru.index.buckets|, max)
    requires KeysIn(h, Flat(blocks), |st|, i) && key !in Flat(blocks) && key !in Order(st[i].lru)
    ensures var vs := SetRequests(Flat(blocks), value);
            && StoredAndRefused(h, HandleAll(h, st, vs, max), key, value, max)
            && !AllHandled(h, st, vs + [SetRequest(key, value)], max)
  {
    var keys := Flat(blocks);
    var vs := SetRequests(keys, value);
    assert ShardOk(h, st[i], max);
    SetsFollow(h, st, keys, value, i, max);
    var before := HandleAll(h, st, vs, max);
    EvictionsFillIndex(h, st[i].lru, blocks, max);
    TrackedWereSet(h, st[i].lru, keys, max, key);
    var r := before[i].lru;
    LinkedKeys(r.lst, Contents(r.index.buckets), r.nextId, key);
    SetOk(h, r, key, max);
    SetFollows(h, before, key, value, i, max);
    HandleSnoc(h, st, vs, SetRequest(key, value), max);
  }

  // ---- from a new store ----

  lemma {:induction false} HandleConcat(h: Hash, st: Store<Value>, x: seq<Value>, y: seq<Value>, max: nat)
    requires AllReady(st)
    ensures HandleAll(h, st, x + y, max) == HandleAll(h, HandleAll(h, st, x, max), y, max)
    decreases |y|
  {
    if y == [] {
      assert x + y == x;
    } else {
      var init, v := y[..|y| - 1], y[|y| - 1];
      HandleConcat(h, st, x, init, max);
      assert (x + y)[..|x + y| - 1] == x + init;
    }
  }

  /** A request that is refused after x and y spoils every log that starts with them and goes on with it. */
  lemma RefusedAfter(h: Hash, st: Store<Value>, x: seq<Value>, y: seq<Value>, v: Value, max: nat)
    requires AllReady(st) && !Handle(h, HandleAll(h, HandleAll(h, st, x, max), y, max), v, max).1
    ensures !AllHandled(h, st, x + y + [v], max)
  {
    HandleConcat(h, st, x, y, max);
    HandleSnoc(h, st, x + y, v, max);
  }

  function NewLru(): (s: LruState)
    ensures Usable(s)
  {
    LruState([], 0, NewTable())
  }

  /** A new LRU takes keys one after the other, as long as it has room for them. */
  ghost predicate Filled(h: Hash, s: LruState, keys: seq<string>, max: nat) {
    LruOk(h, s, max) && NoDeleted(s.index.buckets) && Order(s) == keys && Crowding.Modest(h, s.index, |keys|)
  }

  lemma FillOne(h: Hash, s: LruState, keys: seq<string>, x: string, max: nat)
    requires Filled(h, s, keys, max) && x !in keys && |keys| < max && |keys| < 24
    ensures Filled(h, SetState(h, s, x, max).0, keys + [x], max)
  {
    SetOk(h, s, x, max);
    LinkedKeys(s.lst, Contents(s.index.buckets), s.nextId, x);
    var op := HashTableRefinement.Set(x, s.nextId);
    NeverGivesUp(h, s.index, Get(x));
    ApplyRefines(h, s.index, Get(x));
    ApplyRefines(h, s.index, op);
    ModestSet(h, s.index, x, s.nextId, |keys|);
  }

  lemma {:induction false} FillNew(h: Hash, keys: seq<string>, max: nat)
    requires LruSpec.Unique(keys) && |keys| <= max && |keys| <= 24
    ensures Filled(h, LruSets(h, NewLru(), keys, max), keys, max)
    decreases |keys|
  {
    if keys == [] {
      NewTableInv<nat>(h);
      assert Order(NewLru()) == [];
    } else {
      UniqueSnoc(keys);
      FillNew(h, keys[..|keys| - 1], max);
      FillOne(h, LruSets(h, NewLru(), keys[..|keys| - 1], max), keys[..|keys| - 1], keys[|keys| - 1], max);
    }
  }

  /** Sixteen keys bring the index to thirty-two buckets, its final size if the LRU tracks at most twenty-three. */
  lemma SixteenGrow(h: Hash, a: seq<string>, max: nat, e: nat)
    requires Sixteen(h, a, e) && 16 <= max < 24
    ensures var r := LruSets(h, NewLru(), a, max);
            LruOk(h, r, max) && FullGrown(r, max) && |r.index.buckets| == 32 && Order(r) == a
  {
    var r := LruSets(h, NewLru(), a, max);
    FillNew(h, a, max);
    forall k | k in a
      ensures k in Contents(r.index.buckets)
    {
      LinkedKeys(r.lst, Contents(r.index.buckets), r.nextId, k);
    }
    SixteenInUse(h, r.index, a, e, 16);
  }

  /** The two halves of a table of thirty-two buckets. */
  lemma HalvesCover(h: Hash, a: seq<string>, b: seq<string>, e: nat, max: nat)
    requires Sixteen(h, a, e) && Sixteen(h, b, (e + 16) % 32) && max >= 16
    ensures Covers(h, [a, b], 32, max)
  {
    var blocks := [a, b];
    forall k | 0 <= k < |blocks|
      ensures Block(h, blocks[k], 32, max)
    {
      assert blocks[k] == if k == 0 then a else b;
    }
    forall i | 0 <= i < 32
      ensures Reached(h, blocks, 32, max, i)
    {
      var d := Dist(e, i, 32);
      if d < 16 {
        assert Within(h, blocks[0], 32, i);
      } else {
        assert Dist((e + 16) % 32, i, 32) == d - 16;
        assert Within(h, blocks[1], 32, i);
      }
    }
  }

  lemma FlatTwo(a: seq<string>, b: seq<string>)
    ensures Flat([a, b]) == a + b
  {
    assert [a, b][..1] == [a] && [a][..0] == [];
    assert Flat([a]) == [] + a == a;
  }

  /** The store after the first sixteen keys. */
  lemma FirstSixteen(h: Hash, n: nat, i: nat, a: seq<string>, value: Value, e: nat, max: nat)
    requires n > 0 && i < n && Sixteen(h, a, e) && 16 <= max < 24 && KeysIn(h, a, n, i)
    ensures var st := HandleAll(h, NewStore<Value>(n), SetRequests(a, value), max);
            && StoreOk(h, st, max) && NoDeleted(st[i].data.buckets) && Order(st[i].lru) == a
            && FullGrown(st[i].lru, max) && |st[i].lru.index.buckets| == 32
  {
    NewStoreOk<Value>(h, n, max);
    SetsFollow(h, NewStore<Value>(n), a, value, i, max);
    SixteenGrow(h, a, max, e);
  }

  lemma NextThirtyTwo(
      h: Hash, n: nat, i: nat, a: seq<string>, b: seq<string>, key: string, value: Value, e: nat, max: nat)
    requires n > 0 && Sixteen(h, a, e) && Sixteen(h, b, (e + 16) % 32) && 16 <= max < 24 && Home(h, key, n) == i
    requires KeysIn(h, a, n, i) && KeysIn(h, b, n, i) && key !in a && key !in b
    ensures var st := HandleAll(h, NewStore<Value>(n), SetRequests(a, value), max);
            StoredAndRefused(h, HandleAll(h, st, SetRequests(a + b, value), max), key, value, max)
  {
    FirstSixteen(h, n, i, a, value, e, max);
    HalvesCover(h, a, b, e, max);
    FlatTwo(a, b);
    EvictionsRefuse(h, HandleAll(h, NewStore<Value>(n), SetRequests(a, value), max), i, [a, b], key, value, max);
  }

  /** For every hash function and shard, with a capacity of sixteen to twenty-three: a log of SETs, first of sixteen
      keys with one home modulo 32, then of these and sixteen with the home half a table further on, and then of one
      more key, cannot be replayed into a new store. The last pair is stored and refused. */
  lemma SetsAloneRefused(
      h: Hash, n: nat, i: nat, a: seq<string>, b: seq<string>, key: string, value: Value, e: nat, max: nat)
    requires n > 0 && Sixteen(h, a, e) && Sixteen(h, b, (e + 16) % 32) && 16 <= max < 24 && Home(h, key, n) == i
    requires KeysIn(h, a, n, i) && KeysIn(h, b, n, i) && key !in a && key !in b
    ensures var st, x, y := NewStore<Value>(n), SetRequests(a, value), SetRequests(a + b, value);
            && StoredAndRefused(h, HandleAll(h, HandleAll(h, st, x, max), y, max), key, value, max)
            && !AllHandled(h, st, x + y + [SetRequest(key, value)], max)
  {
    NextThirtyTwo(h, n, i, a, b, key, value, e, max);
    NotReplayable(h, n, i, a, b, key, value, e, max);
  }

  lemma NotReplayable(
      h: Hash, n: nat, i: nat, a: seq<string>, b: seq<string>, key: string, value: Value, e: nat, max: nat)
    requires n > 0 && Sixteen(h, a, e) && Sixteen(h, b, (e + 16) % 32) && 16 <= max < 24 && Home(h, key, n) == i
    requires KeysIn(h, a, n, i) && KeysIn(h, b, n, i) && key !in a && key !in b
    ensures !AllHandled(h, NewStore<Value>(n),
                        SetRequests(a, value) + SetRequests(a + b, value) + [SetRequest(key, value)], max)
  {
    NextThirtyTwo(h, n, i, a, b, key, value, e, max);
    RefusedAfter(h, NewStore<Value>(n), SetRequests(a, value), SetRequests(a + b, value), SetRequest(key, value), max);
  }
}
