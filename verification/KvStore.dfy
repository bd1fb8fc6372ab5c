/** The store object of src/kvstore/KVStore.cpp: each shard pairs a table with an LRU; each method is the locked section
    of one shard. */
module KvStoreClass {
  import opened Wrappers
  import opened HashTableSpec
  import opened HashTableRefinement
  import opened HashTableClass
  import opened LruSpec
  import opened LruClass
  import opened StoreSpec

  class Shard<T> {
    const data: HashTable<T>
    const lru: LRU

    ghost function Foot(): set<object>
      reads lru
    {
      {data, lru, lru.hash}
    }

    function View(): ShardState<T>
      reads data, lru, lru.hash
    {
      ShardState(data.View(), lru.View())
    }

    ghost predicate Valid()
      reads data, lru, lru.hash
    {
      && data.Valid() && lru.Valid() && data.hash == lru.hashFn
      && data as object != lru.hash
      && ShardOk(data.hash, View(), lru.maxsz)
    }

    constructor (hash: Hash, lruMax: nat)
      ensures Valid() && fresh(Foot()) && View() == NewShard()
      ensures data.hash == hash && lru.maxsz == lruMax
    {
      data := new HashTable(hash);
      lru := new LRU(lruMax, hash);
      new;
      NewShardOk<T>(hash, lruMax);
    }

    /** set: the pair is stored even when the LRU then throws. */
    method Set(key: string, value: T) returns (threw: bool, evicted: Option<string>)
      requires Valid()
      modifies Foot()
      ensures Valid() && lru.hash == old(lru.hash)
      ensures (View(), threw, evicted) == ShardSet(data.hash, old(View()), key, value, lru.maxsz)
    {
      ShardSetOk(data.hash, View(), key, value, lru.maxsz);
      ApplyRefines(data.hash, data.View(), HashTableRefinement.Set(key, value));
      evicted := None;
      threw := data.Set(key, value);
      if threw { return; }
      threw, evicted := lru.Set(key);
    }

    /** get, and with it the touch of a key that was found. */
    method Get(key: string) returns (threw: bool, value: Option<T>)
      requires Valid()
      modifies Foot()
      ensures Valid() && lru.hash == old(lru.hash)
      ensures (View(), if threw then Threw else Value(value)) == ShardGet(data.hash, old(View()), key)
    {
      ShardGetOk(data.hash, View(), key, lru.maxsz);
      threw, value := data.Get(key);
      if threw || value.None? { return; }
      threw := lru.Access(key);
    }

    /** del: the pair goes even when the LRU then throws. */
    method Del(key: string) returns (threw: bool, deleted: bool)
      requires Valid()
      modifies Foot()
      ensures Valid() && lru.hash == old(lru.hash)
      ensures (View(), if threw then Threw else Flag(deleted)) == ShardDel(data.hash, old(View()), key)
    {
      ShardDelOk(data.hash, View(), key, lru.maxsz);
      ApplyRefines(data.hash, data.View(), HashTableRefinement.Erase(key));
      threw, deleted := data.Erase(key);
      if threw || !deleted { return; }
      threw := lru.Del(key);
    }

    method CheckExist(key: string) returns (threw: bool, b: bool)
      requires Valid()
      ensures threw <==> DataStuck(View(), key)
      ensures !threw ==> b == (key in Pairs(View()))
    {
      threw, b := data.CheckExist(key);
    }
  }

  /** The shards share no object, and all their objects are in repr. */
  ghost predicate Apart<T>(shards: seq<Shard<T>>, repr: set<object>)
    reads repr
  {
    && (forall i :: 0 <= i < |shards| ==> shards[i].lru in repr && shards[i].Foot() <= repr)
    && (forall i, j :: 0 <= i < j < |shards| ==> shards[i].Foot() !! shards[j].Foot())
  }

  ghost predicate AllValid<T>(shards: seq<Shard<T>>, repr: set<object>, hash: Hash, lruMax: nat)
    requires Apart(shards, repr)
    reads repr
  {
    forall i {:trigger shards[i].Valid()} :: 0 <= i < |shards| ==>
      shards[i].Valid() && shards[i].data.hash == hash && shards[i].lru.maxsz == lruMax
  }

  ghost function Views<T>(shards: seq<Shard<T>>, repr: set<object>): (st: Store<T>)
    requires Apart(shards, repr)
    reads repr
    ensures |st| == |shards| && forall i :: 0 <= i < |shards| ==> st[i] == shards[i].View()
  {
    seq(|shards|, i requires 0 <= i < |shards| && Apart(shards, repr) reads repr => shards[i].View())
  }

  class KVStore<T> {
    const hash: Hash
    const lruMax: nat
    const shards: seq<Shard<T>>
    ghost const Repr: set<object>

    ghost function View(): Store<T>
      requires Apart(shards, Repr)
      reads Repr
    {
      Views(shards, Repr)
    }

    ghost predicate Valid()
      reads Repr
    {
      |shards| > 0 && Apart(shards, Repr) && AllValid(shards, Repr, hash, lruMax) && StoreOk(hash, View(), lruMax)
      && AllReady(View())
    }

    /** The one map the store stands for. */
    ghost function Contents(): map<string, T>
      requires Valid()
      reads Repr
    {
      StoreMap(View())
    }

    /** getShard. */
    function ShardOf(key: string): (i: nat)
      requires |shards| > 0
      ensures i < |shards|
    {
      Home(hash, key, |shards|)
    }

    /** The data table of the key's shard throws on it. */
    ghost predicate DataStuck(key: string)
      requires Valid()
      reads Repr
    {
      StoreSpec.DataStuck(View()[ShardOf(key)], key)
    }

    /** The LRU of the key's shard throws on it. */
    ghost predicate LruStuck(key: string)
      requires Valid()
      reads Repr
    {
      IndexStuck(View()[ShardOf(key)].lru, key)
    }

    /** The recency order of the key's shard. */
    ghost function Recency(key: string): seq<string>
      requires Valid()
      reads Repr
    {
      Order(View()[ShardOf(key)].lru)
    }

    /** Working on one shard leaves the others as they were. */
    twostate lemma OnlyShard(i: nat)
      requires old(Valid()) && i < |shards|
      requires shards[i].Valid() && shards[i].lru.hash == old(shards[i].lru.hash)
      requires forall j :: 0 <= j < |shards| && j != i ==> unchanged(old(shards[j].Foot()))
      ensures Apart(shards, Repr) && AllValid(shards, Repr, hash, lruMax)
      ensures View() == old(View())[i := shards[i].View()]
    {
      forall j | 0 <= j < |shards|
        ensures shards[j].Valid() && shards[j].data.hash == hash && shards[j].lru.maxsz == lruMax
      {
        assert old(shards[j].Valid());
      }
    }

    method Set(key: string, value: T) returns (threw: bool, evicted: Option<string>)
      requires Valid()
      modifies Repr
      ensures Valid() && (View(), threw, evicted) == StoreSet(hash, old(View()), key, value, lruMax)
      ensures Contents() == if old(DataStuck(key)) then old(Contents()) else old(Contents())[key := value]
      ensures threw <==> old(DataStuck(key)) || old(LruStuck(key))
      ensures threw ==> Recency(key) == old(Recency(key))
      ensures !threw ==> (Recency(key), evicted) == Inserted(old(Recency(key)), key, lruMax)
    {
      var i := ShardOf(key);
      StoreSetOk(hash, View(), key, value, lruMax);
      threw, evicted := shards[i].Set(key, value);
      OnlyShard(i);
    }

    method Get(key: string) returns (threw: bool, value: Option<T>)
      requires Valid()
      modifies Repr
      ensures Valid() && (View(), if threw then Threw else Value(value)) == StoreGet(hash, old(View()), key)
      ensures Contents() == old(Contents())
      ensures threw <==> old(DataStuck(key)) || (key in Contents() && old(LruStuck(key)))
      ensures !threw ==> value == if key in Contents() then Some(Contents()[key]) else None
      ensures Recency(key) == if threw || key !in Contents() then old(Recency(key)) else Touched(old(Recency(key)), key)
    {
      var i := ShardOf(key);
      StoreGetOk(hash, View(), key, lruMax);
      threw, value := shards[i].Get(key);
      OnlyShard(i);
    }

    method Del(key: string) returns (threw: bool, deleted: bool)
      requires Valid()
      modifies Repr
      ensures Valid() && (View(), if threw then Threw else Flag(deleted)) == StoreDel(hash, old(View()), key)
      ensures Contents() == if old(DataStuck(key)) then old(Contents()) else old(Contents()) - {key}
      ensures threw <==> old(DataStuck(key)) || (key in old(Contents()) && old(LruStuck(key)))
      ensures !threw ==> deleted == (key in old(Contents()))
      ensures Recency(key) == if threw || !deleted then old(Recency(key)) else Without(old(Recency(key)), key)
    {
      var i := ShardOf(key);
      StoreDelOk(hash, View(), key, lruMax);
      threw, deleted := shards[i].Del(key);
      OnlyShard(i);
    }

    method CheckExist(key: string) returns (threw: bool, b: bool)
      requires Valid()
      ensures threw <==> DataStuck(key)
      ensures !threw ==> b == (key in Contents())
    {
      MapGet(hash, View(), ShardOf(key), key, lruMax);
      threw, b := shards[ShardOf(key)].CheckExist(key);
    }

    constructor (hash: Hash, shardCount: nat, lruMax: nat)
      requires shardCount > 0
      ensures Valid() && fresh(Repr) && Contents() == map[]
      ensures View() == seq(shardCount, _ => NewShard<T>())
      ensures |shards| == shardCount && this.hash == hash && this.lruMax == lruMax
    {
      var made; ghost var repr;
      made, repr := MakeShards<T>(hash, shardCount, lruMax);
      this.hash, this.lruMax, shards, Repr := hash, lruMax, made, repr;
      new;
      NewStoreOk<T>(hash, shardCount, lruMax);
    }
  }

  method MakeShards<T>(hash: Hash, shardCount: nat, lruMax: nat) returns (made: seq<Shard<T>>, ghost repr: set<object>)
    ensures |made| == shardCount && fresh(repr)
    ensures Apart(made, repr) && AllValid(made, repr, hash, lruMax)
    ensures Views(made, repr) == seq(shardCount, _ => NewShard<T>())
  {
    made, repr := [], {};
    for i := 0 to shardCount
      invariant |made| == i && fresh(repr)
      invariant Apart(made, repr) && AllValid(made, repr, hash, lruMax)
      invariant Views(made, repr) == seq(i, _ => NewShard<T>())
    {
      var s := new Shard(hash, lruMax);
      made, repr := AddShard(made, repr, s, hash, lruMax);
    }
  }

  /** shards.emplace_back: the new shard shares nothing with the others. */
  method AddShard<T>(made: seq<Shard<T>>, ghost repr: set<object>, s: Shard<T>, ghost hash: Hash, ghost lruMax: nat)
    returns (made': seq<Shard<T>>, ghost repr': set<object>)
    requires Apart(made, repr) && AllValid(made, repr, hash, lruMax) && s.Foot() !! repr
    requires s.Valid() && s.data.hash == hash && s.lru.maxsz == lruMax && s.View() == NewShard()
    requires Views(made, repr) == seq(|made|, _ => NewShard<T>())
    ensures made' == made + [s] && repr' == repr + s.Foot()
    ensures Apart(made', repr') && AllValid(made', repr', hash, lruMax)
    ensures Views(made', repr') == seq(|made'|, _ => NewShard<T>())
  {
    made', repr' := made + [s], repr + s.Foot();
    forall i | 0 <= i < |made|
      ensures made[i].Foot() !! s.Foot()
    {
      assert made[i].Foot() <= repr;
    }
    assert Apart(made', repr');
    forall i | 0 <= i < |made|
      ensures made[i].View() == NewShard()
    {
      assert Views(made, repr)[i] == made[i].View();
    }
  }
}
