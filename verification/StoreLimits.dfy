/** Calls that the store cannot serve: how tombstones leave the tables of one shard without an empty bucket. */
module StoreLimits {
  import opened Wrappers
  import opened HashTableSpec
  import opened HashTableRefinement
  import LruSpec
  import opened LruClass
  import opened StoreSpec
  import opened Crowding

  // ---- the data table ----

  /** A call on the store, for what it makes of the shards. */
  function StoreApply<T>(h: Hash, st: Store<T>, op: Op<T>, max: nat): (r: Store<T>)
    requires AllReady(st)
    ensures AllReady(r) && |r| == |st|
  {
    match op
    case Set(k, v) => StoreSet(h, st, k, v, max).0
    case Get(k) => StoreGet(h, st, k).0
    case Erase(k) => StoreDel(h, st, k).0
    case Exist(_) => st
  }

  function StoreRun<T>(h: Hash, st: Store<T>, ops: seq<Op<T>>, max: nat): (r: Store<T>)
    requires AllReady(st)
    ensures AllReady(r) && |r| == |st|
  {
    if ops == [] then st else StoreApply(h, StoreRun(h, st, ops[..|ops| - 1], max), ops[|ops| - 1], max)
  }

  ghost predicate InShard<T>(h: Hash, ops: seq<Op<T>>, n: nat, i: nat)
    requires n > 0
  {
    forall k :: 0 <= k < |ops| ==> Home(h, ops[k].key, n) == i
  }

  /** Whatever the LRU does, the data table of a shard goes through exactly the calls on its keys. */
  lemma {:induction false} DataFollows<T>(h: Hash, st: Store<T>, ops: seq<Op<T>>, i: nat, max: nat)
    requires AllReady(st) && i < |st| && InShard(h, ops, |st|, i)
    ensures StoreRun(h, st, ops, max)[i].data == HashTableRefinement.Run(h, st[i].data, ops).0
    decreases |ops|
  {
    if ops == [] {
    } else {
      DataFollows(h, st, ops[..|ops| - 1], i, max);
      DataStep(h, StoreRun(h, st, ops[..|ops| - 1], max), ops[|ops| - 1], i, max);
    }
  }

  lemma DataStep<T>(h: Hash, st: Store<T>, op: Op<T>, i: nat, max: nat)
    requires AllReady(st) && i == Home(h, op.key, |st|)
    ensures StoreApply(h, st, op, max)[i].data == Apply(h, st[i].data, op).0
  {
  }

  function NewStore<T>(n: nat): (st: Store<T>)
    requires n > 0
    ensures AllReady(st) && |st| == n
  {
    seq(n, _ => NewShard<T>())
  }

  /** A key of the shard is refused by every call. */
  ghost predicate ThrowsAlways<T>(h: Hash, st: Store<T>, key: string, value: T, max: nat)
    requires AllReady(st)
  {
    StoreSet(h, st, key, value, max).1 && StoreGet(h, st, key).1.Threw? && StoreDel(h, st, key).1.Threw?
  }

  lemma StuckThrows<T>(h: Hash, st: Store<T>, key: string, value: T, max: nat)
    requires AllReady(st)
    requires var t := st[Home(h, key, |st|)].data;
             Inv(h, t) && !HasEmpty(t.buckets) && key !in Contents(t.buckets)
    ensures ThrowsAlways(h, st, key, value, max)
  {
    var t := st[Home(h, key, |st|)].data;
    ApplyRefines(h, t, HashTableRefinement.Set(key, value));
    ApplyRefines(h, t, Get(key));
    ApplyRefines(h, t, Erase(key));
  }

  /** For every hash function, shard and LRU capacity: once sixteen keys of the shard with one home modulo 32, and then
      sixteen with the home half a table further on, have been set and deleted, the shard holds nothing and throws on
      every call, whatever else is called. */
  lemma ShardStuckForGood<T>(
      h: Hash, n: nat, i: nat, a: seq<string>, b: seq<string>, value: T, e: nat, more: seq<Op<T>>, key: string,
      max: nat)
    requires n > 0 && Sixteen(h, a, e) && Sixteen(h, b, (e + 16) % 32) && Home(h, key, n) == i
    requires InShard(h, TwoRounds(a, b, value) + more, n, i)
    ensures ThrowsAlways(h, StoreRun(h, NewStore<T>(n), TwoRounds(a, b, value) + more, max), key, value, max)
  {
    var st, ops := NewStore<T>(n), TwoRounds(a, b, value) + more;
    var t0 := NewTable<T>();
    var t := HashTableRefinement.Run(h, t0, TwoRounds(a, b, value)).0;
    TwoRoundsFill(h, a, b, value, e);
    RunConcat(h, t0, TwoRounds(a, b, value), more);
    RunStuck(h, t, more, |more|);
    DataFollows(h, st, ops, i, max);
    StuckThrows(h, StoreRun(h, st, ops, max), key, value, max);
  }

  // ---- the index of the LRU ----

  /** set of each key in turn. */
  function LruSets(h: Hash, s: LruState, keys: seq<string>, max: nat): (r: LruState)
    requires Usable(s)
    ensures Usable(r)
  {
    if keys == [] then s else SetState(h, LruSets(h, s, keys[..|keys| - 1], max), keys[|keys| - 1], max).0
  }

  lemma {:induction false} Covered(keys: set<string>, ks: seq<string>)
    requires forall k :: k in keys ==> k in ks
    ensures |keys| <= |ks|
    decreases |ks|
  {
    if ks == [] {
      assert keys == {};
    } else {
      var init, x := ks[..|ks| - 1], ks[|ks| - 1];
      Covered(keys - {x}, init);
      Subset(keys, (keys - {x}) + {x});
    }
  }

  /** The index counts the keys of the list. */
  lemma IndexSize(h: Hash, s: LruState, max: nat)
    requires LruOk(h, s, max)
    ensures s.index.sz <= |s.lst| <= max
  {
    var keys := Contents(s.index.buckets).Keys;
    forall k | k in keys
      ensures k in KeysOf(s.lst)
    {
      LinkedKeys(s.lst, Contents(s.index.buckets), s.nextId, k);
    }
    Covered(keys, KeysOf(s.lst));
    CountIsSize(s.index.buckets);
  }

  /** The index is large enough never to grow again. */
  predicate FullGrown(s: LruState, max: nat) {
    !Overloaded(max + 1, |s.index.buckets|)
  }

  /** Such an index keeps its size and its buckets in use. */
  lemma IndexStep(h: Hash, s: LruState, x: string, max: nat)
    requires LruOk(h, s, max) && FullGrown(s, max)
    ensures var r := SetState(h, s, x, max).0;
            LruOk(h, r, max) && FullGrown(r, max) && InUse(s.index.buckets, r.index.buckets)
  {
    SetOk(h, s, x, max);
    IndexSize(h, s, max);
    ApplyRefines(h, s.index, Get(x));
    var op := HashTableRefinement.Set(x, s.nextId);
    var t := Apply(h, s.index, op).0;
    ApplyRefines(h, s.index, op);
    GrowsWhen(h, s.index, op);
    StaysInUse(h, s.index, op);
    var lst := s.lst + [ListNode(s.nextId, x)];
    GrowsWhen(h, t, Erase(lst[0].key));
    StaysInUse(h, t, Erase(lst[0].key));
  }

  lemma {:induction false} IndexInUse(h: Hash, s: LruState, keys: seq<string>, max: nat)
    requires LruOk(h, s, max) && FullGrown(s, max)
    ensures var r := LruSets(h, s, keys, max);
            LruOk(h, r, max) && FullGrown(r, max) && InUse(s.index.buckets, r.index.buckets)
    decreases |keys|
  {
    if keys == [] {
    } else {
      IndexInUse(h, s, keys[..|keys| - 1], max);
      IndexStep(h, LruSets(h, s, keys[..|keys| - 1], max), keys[|keys| - 1], max);
    }
  }

  /** The index after some keys were set. */
  ghost predicate StillGrown(h: Hash, s: LruState, r: LruState, max: nat) {
    LruOk(h, r, max) && FullGrown(r, max) && |r.index.buckets| == |s.index.buckets|
  }

  lemma StaysReady(h: Hash, s: LruState, keys: seq<string>, max: nat)
    requires LruOk(h, s, max) && FullGrown(s, max)
    ensures StillGrown(h, s, LruSets(h, s, keys, max), max)
  {
    IndexInUse(h, s, keys, max);
  }

  /** Setting a key keeps the ones set before it at the end of the order. */
  lemma EndStays(pre: seq<string>, ks: seq<string>, x: string, max: nat) returns (pre': seq<string>)
    requires LruSpec.Unique(pre + ks) && x !in ks && |ks| + 1 <= max && |pre + ks| <= max
    ensures LruSpec.Inserted(pre + ks, x, max).0 == pre' + (ks + [x])
  {
    var order := pre + ks;
    if x in order {
      LruSpec.WithoutSplit(pre, ks, x);
      LruSpec.WithoutAbsent(ks, x);
      pre' := LruSpec.Without(pre, x);
    } else if |order| + 1 > max {
      pre' := pre[1..];
      assert (order + [x])[1..] == pre' + (ks + [x]);
    } else {
      pre' := pre;
      assert order + [x] == pre' + (ks + [x]);
    }
  }

  /** The last keys set are tracked, unless the index has no empty bucket left. */
  lemma {:induction false} LastTracked(h: Hash, s: LruState, keys: seq<string>, max: nat) returns (pre: seq<string>)
    requires LruOk(h, s, max) && FullGrown(s, max) && LruSpec.Unique(keys) && |keys| <= max
    ensures var r := LruSets(h, s, keys, max); HasEmpty(r.index.buckets) ==> Order(r) == pre + keys
    decreases |keys|
  {
    if keys == [] {
      pre := Order(s);
      assert pre + keys == pre;
    } else {
      var init, x := keys[..|keys| - 1], keys[|keys| - 1];
      UniqueSnoc(keys);
      pre := LastTracked(h, s, init, max);
      StaysReady(h, s, init, max);
      pre := TrackOneMore(h, LruSets(h, s, init, max), pre, init, x, max);
    }
  }

  lemma UniqueSnoc(keys: seq<string>)
    requires LruSpec.Unique(keys) && keys != []
    ensures var init, x := keys[..|keys| - 1], keys[|keys| - 1];
            LruSpec.Unique(init) && x !in init && keys == init + [x]
  {
  }

  lemma TrackOneMore(h: Hash, s: LruState, pre: seq<string>, ks: seq<string>, x: string, max: nat)
    returns (pre': seq<string>)
    requires LruOk(h, s, max) && FullGrown(s, max) && x !in ks && |ks| + 1 <= max
    requires HasEmpty(s.index.buckets) ==> Order(s) == pre + ks
    ensures var r := SetState(h, s, x, max).0; HasEmpty(r.index.buckets) ==> Order(r) == pre' + (ks + [x])
  {
    pre' := pre;
    SetOk(h, s, x, max);
    IndexStep(h, s, x, max);
    if HasEmpty(s.index.buckets) {
      assert LruSpec.Unique(Order(s));
      pre' := EndStays(pre, ks, x, max);
    }
  }

  /** Setting as many keys of one home as fit in the LRU brings as many buckets from that home on into use. */
  lemma BlockInUse(h: Hash, s: LruState, keys: seq<string>, max: nat, e: nat, j: nat)
    requires LruOk(h, s, max) && FullGrown(s, max) && LruSpec.Unique(keys) && |keys| <= max
    requires forall i :: 0 <= i < |keys| ==> Home(h, keys[i], |s.index.buckets|) == e
    requires j < |keys| && j < |s.index.buckets| && e < |s.index.buckets|
    ensures var r := LruSets(h, s, keys, max);
            |r.index.buckets| == |s.index.buckets| && !r.index.buckets[Pos(e, j, |s.index.buckets|)].Empty?
  {
    var pre := LastTracked(h, s, keys, max);
    IndexInUse(h, s, keys, max);
    var r := LruSets(h, s, keys, max);
    if HasEmpty(r.index.buckets) {
      forall i | 0 <= i < |keys|
        ensures Stored(r.index.buckets, keys[i])
      {
        assert Order(r)[|pre| + i] == keys[i];
        LinkedKeys(r.lst, Contents(r.index.buckets), r.nextId, keys[i]);
        StoredIsKey(r.index.buckets, keys[i]);
      }
      HomeBlock(h, r.index.buckets, e, keys, j);
    }
  }

  function Flat(blocks: seq<seq<string>>): seq<string> {
    if blocks == [] then [] else Flat(blocks[..|blocks| - 1]) + blocks[|blocks| - 1]
  }

  lemma {:induction false} LruSetsConcat(h: Hash, s: LruState, a: seq<string>, b: seq<string>, max: nat)
    requires Usable(s)
    ensures LruSets(h, s, a + b, max) == LruSets(h, LruSets(h, s, a, max), b, max)
    decreases |b|
  {
    if b == [] {
      assert a + b == a;
    } else {
      assert (a + b)[..|a + b| - 1] == a + b[..|b| - 1];
      LruSetsConcat(h, s, a, b[..|b| - 1], max);
    }
  }

  /** A set of keys of one home, no more than the LRU tracks. */
  ghost predicate Block(h: Hash, keys: seq<string>, n: nat, max: nat)
    requires n > 0
  {
    && 0 < |keys| <= max && |keys| <= n && LruSpec.Unique(keys)
    && forall i :: 0 <= i < |keys| ==> Home(h, keys[i], n) == Home(h, keys[0], n)
  }

  /** Bucket i is one of the first after the home of the block. */
  ghost predicate Within(h: Hash, keys: seq<string>, n: nat, i: nat)
    requires n > 0 && keys != [] && i < n
  {
    Dist(Home(h, keys[0], n), i, n) < |keys|
  }

  ghost predicate Blocks(h: Hash, blocks: seq<seq<string>>, n: nat, max: nat)
    requires n > 0
  {
    forall k :: 0 <= k < |blocks| ==> Block(h, blocks[k], n, max)
  }

  lemma LastBlock(h: Hash, s: LruState, keys: seq<string>, max: nat, i: nat)
    requires LruOk(h, s, max) && FullGrown(s, max) && i < |s.index.buckets|
    requires Block(h, keys, |s.index.buckets|, max) && Within(h, keys, |s.index.buckets|, i)
    ensures var r := LruSets(h, s, keys, max);
            |r.index.buckets| == |s.index.buckets| && !r.index.buckets[i].Empty?
  {
    var e := Home(h, keys[0], |s.index.buckets|);
    BlockInUse(h, s, keys, max, e, Dist(e, i, |s.index.buckets|));
  }

  /** A bucket in use stays in use, whatever is set. */
  lemma OldBlock(h: Hash, s: LruState, keys: seq<string>, max: nat, i: nat)
    requires LruOk(h, s, max) && FullGrown(s, max) && i < |s.index.buckets| && !s.index.buckets[i].Empty?
    ensures var r := LruSets(h, s, keys, max);
            |r.index.buckets| == |s.index.buckets| && !r.index.buckets[i].Empty?
  {
    IndexInUse(h, s, keys, max);
  }

  lemma {:induction false} FlatSplit(blocks: seq<seq<string>>, k: nat) returns (rest: seq<string>)
    requires k < |blocks|
    ensures Flat(blocks) == Flat(blocks[..k]) + blocks[k] + rest
    decreases |blocks|
  {
    var init, last := blocks[..|blocks| - 1], blocks[|blocks| - 1];
    if k == |init| {
      rest := [];
      assert Flat(init) + last + [] == Flat(init) + last;
    } else {
      rest := FlatSplit(init, k);
      assert init[..k] == blocks[..k];
      assert Flat(blocks[..k]) + blocks[k] + rest + last == Flat(blocks[..k]) + blocks[k] + (rest + last);
      rest := rest + last;
    }
  }

  /** Every bucket that one of the blocks reaches is in use once the keys of all of them have been set. */
  lemma BlocksInUse(h: Hash, s: LruState, blocks: seq<seq<string>>, max: nat, k: nat, i: nat)
    requires LruOk(h, s, max) && FullGrown(s, max) && i < |s.index.buckets| && k < |blocks|
    requires Block(h, blocks[k], |s.index.buckets|, max) && Within(h, blocks[k], |s.index.buckets|, i)
    ensures var r := LruSets(h, s, Flat(blocks), max);
            |r.index.buckets| == |s.index.buckets| && !r.index.buckets[i].Empty?
  {
    var rest := FlatSplit(blocks, k);
    SetsAround(h, s, Flat(blocks[..k]), blocks[k], rest, max, i);
  }

  lemma SetsAround(h: Hash, s: LruState, a: seq<string>, keys: seq<string>, b: seq<string>, max: nat, i: nat)
    requires LruOk(h, s, max) && FullGrown(s, max) && i < |s.index.buckets|
    requires Block(h, keys, |s.index.buckets|, max) && Within(h, keys, |s.index.buckets|, i)
    ensures var r := LruSets(h, s, a + keys + b, max);
            |r.index.buckets| == |s.index.buckets| && !r.index.buckets[i].Empty?
  {
    LruSetsConcat(h, s, a, keys, max);
    LruSetsConcat(h, s, a + keys, b, max);
    StaysReady(h, s, a, max);
    var r := LruSets(h, s, a, max);
    LastBlock(h, r, keys, max, i);
    StaysReady(h, r, keys, max);
    OldBlock(h, LruSets(h, r, keys, max), b, max, i);
  }

  ghost predicate Reached(h: Hash, blocks: seq<seq<string>>, n: nat, max: nat, i: nat)
    requires n > 0 && i < n && Blocks(h, blocks, n, max)
  {
    exists k :: 0 <= k < |blocks| && Within(h, blocks[k], n, i)
  }

  /** The blocks reach every bucket. */
  ghost predicate Covers(h: Hash, blocks: seq<seq<string>>, n: nat, max: nat) {
    n > 0 && Blocks(h, blocks, n, max) && forall i :: 0 <= i < n ==> Reached(h, blocks, n, max, i)
  }

  /** For every hash function and capacity: evictions leave the index without an empty bucket, once keys of enough homes
      have been set. */
  lemma EvictionsFillIndex(h: Hash, s: LruState, blocks: seq<seq<string>>, max: nat)
    requires LruOk(h, s, max) && FullGrown(s, max) && Covers(h, blocks, |s.index.buckets|, max)
    ensures !HasEmpty(LruSets(h, s, Flat(blocks), max).index.buckets)
  {
    var r, n := LruSets(h, s, Flat(blocks), max), |s.index.buckets|;
    StaysReady(h, s, Flat(blocks), max);
    forall i | 0 <= i < n
      ensures !r.index.buckets[i].Empty?
    {
      assert Reached(h, blocks, n, max, i);
      var k :| 0 <= k < |blocks| && Within(h, blocks[k], n, i);
      assert Block(h, blocks[k], n, max);
      BlocksInUse(h, s, blocks, max, k, i);
    }
  }

  /** Only keys that were set are tracked. */
  lemma {:induction false} TrackedWereSet(h: Hash, s: LruState, keys: seq<string>, max: nat, x: string)
    requires LruOk(h, s, max)
    ensures var r := LruSets(h, s, keys, max); LruOk(h, r, max) && (x in Order(r) ==> x in Order(s) || x in keys)
    decreases |keys|
  {
    if keys == [] {
    } else {
      var init, y := keys[..|keys| - 1], keys[|keys| - 1];
      TrackedWereSet(h, s, init, max, x);
      var r := LruSets(h, s, init, max);
      SetOk(h, r, y, max);
      InsertedMembers(Order(r), y, max, x);
    }
  }
}
