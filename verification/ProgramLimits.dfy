/** The program's own hash function and its sixteen shards: calls that its store cannot serve. */
module ProgramLimits {
  import opened RespValue
  import opened HashTableSpec
  import opened HashTableRefinement
  import opened StoreSpec
  import opened Crowding
  import opened StoreLimits
  import opened Replay
  import opened ReplayLimits
  import opened StringHash

  /** What the two sets of keys are good for. */
  ghost predicate TwoHomes(h: Hash, a: seq<string>, b: seq<string>) {
    && Sixteen(h, a, 0) && Sixteen(h, b, 16)
    && KeysIn(h, a, SHARD_COUNT, 0) && KeysIn(h, b, SHARD_COUNT, 0)
  }

  lemma ProgramKeys()
    ensures TwoHomes(GetHash, ShardKeys16(false), ShardKeys16(true))
  {
    ShardKeysFit(false);
    ShardKeysFit(true);
  }

  /** The keys of both homes are keys of shard 0. */
  lemma RoundsInShard<T>(h: Hash, a: seq<string>, b: seq<string>, value: T, more: seq<Op<T>>)
    requires TwoHomes(h, a, b) && InShard(h, more, SHARD_COUNT, 0)
    ensures InShard(h, TwoRounds(a, b, value) + more, SHARD_COUNT, 0)
  {
    InShardConcat(h, Sets(a, value), Erases(a));
    InShardConcat(h, Sets(a, value) + Erases(a), Sets(b, value));
    InShardConcat(h, Sets(a, value) + Erases(a) + Sets(b, value), Erases(b));
    InShardConcat(h, TwoRounds(a, b, value), more);
  }

  lemma InShardConcat<T>(h: Hash, x: seq<Op<T>>, y: seq<Op<T>>)
    requires InShard(h, x, SHARD_COUNT, 0) && InShard(h, y, SHARD_COUNT, 0)
    ensures InShard(h, x + y, SHARD_COUNT, 0)
  {
    forall k | 0 <= k < |x + y|
      ensures Home(h, (x + y)[k].key, SHARD_COUNT) == 0
    {
      assert (x + y)[k] == if k < |x| then x[k] else y[k - |x|];
    }
  }

  lemma StuckWith<T>(h: Hash, a: seq<string>, b: seq<string>, value: T, more: seq<Op<T>>, key: string, max: nat)
    requires TwoHomes(h, a, b) && InShard(h, more, SHARD_COUNT, 0) && Home(h, key, SHARD_COUNT) == 0
    ensures ThrowsAlways(h, StoreRun(h, NewStore<T>(SHARD_COUNT), TwoRounds(a, b, value) + more, max), key, value, max)
  {
    RoundsInShard(h, a, b, value, more);
    ShardStuckForGood(h, SHARD_COUNT, 0, a, b, value, 0, more, key, max);
  }

  lemma RefusedWith(h: Hash, a: seq<string>, b: seq<string>, key: string, value: Value, max: nat)
    requires TwoHomes(h, a, b) && 16 <= max < 24 && Home(h, key, SHARD_COUNT) == 0 && key !in a && key !in b
    ensures !AllHandled(h, NewStore<Value>(SHARD_COUNT),
                        SetRequests(a, value) + SetRequests(a + b, value) + [SetRequest(key, value)], max)
  {
    NotReplayable(h, SHARD_COUNT, 0, a, b, key, value, 0, max);
  }

  /** Setting and deleting thirty-two two-letter keys, sixteen at a time, leaves a shard of the program empty and
      throwing on every call, for good. */
  lemma ProgramShardStuck<T>(value: T, more: seq<Op<T>>, key: string, max: nat)
    requires InShard(GetHash, more, 16, 0) && Home(GetHash, key, 16) == 0
    ensures var ops := TwoRounds(ShardKeys16(false), ShardKeys16(true), value) + more;
            ThrowsAlways(GetHash, StoreRun(GetHash, NewStore<T>(16), ops, max), key, value, max)
  {
    ProgramKeys();
    StuckWith(GetHash, ShardKeys16(false), ShardKeys16(true), value, more, key, max);
  }

  /** With LRUs of sixteen to twenty-three keys, the same keys make a log of SETs alone that cannot be replayed. */
  lemma ProgramSetRefused(key: string, value: Value, max: nat)
    requires 16 <= max < 24 && Home(GetHash, key, 16) == 0
    requires key !in ShardKeys16(false) && key !in ShardKeys16(true)
    ensures var a, b := ShardKeys16(false), ShardKeys16(true);
            !AllHandled(GetHash, NewStore<Value>(16),
                        SetRequests(a, value) + SetRequests(a + b, value) + [SetRequest(key, value)], max)
  {
    ProgramKeys();
    RefusedWith(GetHash, ShardKeys16(false), ShardKeys16(true), key, value, max);
  }
}
