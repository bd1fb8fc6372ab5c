/** Handling requests without logging (Handler::handle_noAOF in src/server/Handler.cpp): what a sequence of them makes
    of the store, and when every one of them is handled. */
module Replay {
  import opened RespValue
  import opened HashTableSpec
  import opened LruSpec
  import opened LruClass
  import opened StoreSpec

  datatype Command = SetCmd(key: string, value: Value) | DelCmd(key: string) | ReadCmd(key: string) | Rejected

  /** What handle_noAOF makes of a request; GET and EXIST both look the key up through get. */
  function Decode(v: Value): Command {
    if !v.Array? || v.elems == [] || !v.elems[0].Simple? then Rejected
    else
      var name, n := v.elems[0].text, |v.elems|;
      if name == "SET" && n == 3 && v.elems[1].Simple? then SetCmd(v.elems[1].text, v.elems[2])
      else if name == "DEL" && n == 2 && v.elems[1].Simple? then DelCmd(v.elems[1].text)
      else if (name == "GET" || name == "EXIST") && n == 2 && v.elems[1].Simple? then ReadCmd(v.elems[1].text)
      else Rejected
  }

  function ApplyCommand(m: map<string, Value>, c: Command): map<string, Value> {
    match c
    case SetCmd(k, v) => m[k := v]
    case DelCmd(k) => m - {k}
    case ReadCmd(_) => m
    case Rejected => m
  }

  /** The map after a sequence of requests. */
  function ReplayMap(m: map<string, Value>, vs: seq<Value>): map<string, Value> {
    if vs == [] then m else ApplyCommand(ReplayMap(m, vs[..|vs| - 1]), Decode(vs[|vs| - 1]))
  }

  lemma ReplaySnoc(m: map<string, Value>, vs: seq<Value>, v: Value)
    ensures ReplayMap(m, vs + [v]) == ApplyCommand(ReplayMap(m, vs), Decode(v))
  {
    assert (vs + [v])[..|vs|] == vs;
  }

  // ---- one request ----

  /** The store after a request, and whether it was handled without an exception. */
  function Handle(h: Hash, st: Store<Value>, v: Value, max: nat): (r: (Store<Value>, bool))
    requires AllReady(st)
    ensures AllReady(r.0) && |r.0| == |st|
  {
    match Decode(v)
    case SetCmd(k, x) => var (st', threw, _) := StoreSet(h, st, k, x, max); (st', !threw)
    case DelCmd(k) => var (st', a) := StoreDel(h, st, k); (st', !a.Threw?)
    case ReadCmd(k) => var (st', a) := StoreGet(h, st, k); (st', !a.Threw?)
    case Rejected => (st, false)
  }

  /** Why a request is refused: it is not a command, the data table of its key's shard gives up on the key, or the LRU
      does, which is asked about every key to set and every other key that is stored. */
  ghost predicate Refuses(h: Hash, st: Store<Value>, v: Value, max: nat)
    requires StoreOk(h, st, max)
  {
    var c := Decode(v);
    c.Rejected? ||
    var i := Home(h, c.key, |st|);
    DataStuck(st[i], c.key) || ((c.SetCmd? || c.key in StoreMap(st)) && IndexStuck(st[i].lru, c.key))
  }

  /** The map as the request leaves it: a data table that gives up leaves it alone, an LRU that gives up does not. */
  ghost function MapAfter(h: Hash, st: Store<Value>, v: Value, max: nat): map<string, Value>
    requires StoreOk(h, st, max)
  {
    var c := Decode(v);
    if c.Rejected? || DataStuck(st[Home(h, c.key, |st|)], c.key) then StoreMap(st) else ApplyCommand(StoreMap(st), c)
  }

  lemma HandleSet(h: Hash, st: Store<Value>, v: Value, max: nat)
    requires StoreOk(h, st, max) && AllReady(st) && Decode(v).SetCmd?
    ensures var (st', ok) := Handle(h, st, v, max);
            StoreOk(h, st', max) && (ok <==> !Refuses(h, st, v, max)) && StoreMap(st') == MapAfter(h, st, v, max)
  {
    StoreSetOk(h, st, Decode(v).key, Decode(v).value, max);
  }

  lemma HandleDel(h: Hash, st: Store<Value>, v: Value, max: nat)
    requires StoreOk(h, st, max) && AllReady(st) && Decode(v).DelCmd?
    ensures var (st', ok) := Handle(h, st, v, max);
            StoreOk(h, st', max) && (ok <==> !Refuses(h, st, v, max)) && StoreMap(st') == MapAfter(h, st, v, max)
  {
    var key := Decode(v).key;
    StoreDelOk(h, st, key, max);
    var (st', a) := StoreDel(h, st, key);
    assert Handle(h, st, v, max) == (st', !a.Threw?);
  }

  lemma HandleRead(h: Hash, st: Store<Value>, v: Value, max: nat)
    requires StoreOk(h, st, max) && AllReady(st) && Decode(v).ReadCmd?
    ensures var (st', ok) := Handle(h, st, v, max);
            StoreOk(h, st', max) && (ok <==> !Refuses(h, st, v, max)) && StoreMap(st') == MapAfter(h, st, v, max)
  {
    StoreGetOk(h, st, Decode(v).key, max);
    ReadReasons(h, st, v, Decode(v).key, max);
  }

  /** What a lookup is refused for, and that it changes nothing. */
  lemma ReadReasons(h: Hash, st: Store<Value>, v: Value, key: string, max: nat)
    requires StoreOk(h, st, max) && Decode(v) == ReadCmd(key)
    ensures var s := st[Home(h, key, |st|)];
            Refuses(h, st, v, max) <==> DataStuck(s, key) || (key in StoreMap(st) && IndexStuck(s.lru, key))
    ensures MapAfter(h, st, v, max) == StoreMap(st)
  {
  }

  /** A request is handled exactly when none of the reasons to refuse it holds, and either way this is the map after. */
  lemma HandleExactly(h: Hash, st: Store<Value>, v: Value, max: nat)
    requires StoreOk(h, st, max) && AllReady(st)
    ensures var (st', ok) := Handle(h, st, v, max);
            StoreOk(h, st', max) && (ok <==> !Refuses(h, st, v, max)) && StoreMap(st') == MapAfter(h, st, v, max)
  {
    match Decode(v)
    case SetCmd(_, _) => HandleSet(h, st, v, max);
    case DelCmd(_) => HandleDel(h, st, v, max);
    case ReadCmd(_) => HandleRead(h, st, v, max);
    case Rejected =>
  }

  lemma HandledMap(h: Hash, st: Store<Value>, v: Value, max: nat)
    requires StoreOk(h, st, max) && AllReady(st) && Handle(h, st, v, max).1
    ensures var st' := Handle(h, st, v, max).0;
            StoreOk(h, st', max) && StoreMap(st') == ApplyCommand(StoreMap(st), Decode(v))
  {
    HandleExactly(h, st, v, max);
  }

  // ---- sequences ----

  /** The store after a sequence of requests. */
  function HandleAll(h: Hash, st: Store<Value>, vs: seq<Value>, max: nat): (r: Store<Value>)
    requires AllReady(st)
    ensures AllReady(r) && |r| == |st|
  {
    if vs == [] then st else Handle(h, HandleAll(h, st, vs[..|vs| - 1], max), vs[|vs| - 1], max).0
  }

  /** No request is refused when its turn comes. */
  ghost predicate AllHandled(h: Hash, st: Store<Value>, vs: seq<Value>, max: nat)
    requires AllReady(st)
  {
    forall k :: 0 <= k < |vs| ==> Handle(h, HandleAll(h, st, vs[..k], max), vs[k], max).1
  }

  lemma HandleSnoc(h: Hash, st: Store<Value>, vs: seq<Value>, v: Value, max: nat)
    requires AllReady(st)
    ensures HandleAll(h, st, vs + [v], max) == Handle(h, HandleAll(h, st, vs, max), v, max).0
    ensures AllHandled(h, st, vs + [v], max) <==>
              AllHandled(h, st, vs, max) && Handle(h, HandleAll(h, st, vs, max), v, max).1
  {
    var all := vs + [v];
    assert all[..|vs|] == vs;
    assert forall k :: 0 <= k < |vs| ==> all[..k] == vs[..k] && all[k] == vs[k];
    assert all[|vs|] == v;
  }

  /** A refused request in a sequence, whatever follows it. */
  lemma RefusedInside(h: Hash, st: Store<Value>, vs: seq<Value>, k: nat, max: nat)
    requires AllReady(st) && k < |vs| && !Handle(h, HandleAll(h, st, vs[..k], max), vs[k], max).1
    ensures !AllHandled(h, st, vs, max)
  {
  }

  /** When every request is handled, the store holds what the map holds after the same requests. */
  lemma {:induction false} HandleAllMap(h: Hash, st: Store<Value>, vs: seq<Value>, max: nat)
    requires StoreOk(h, st, max) && AllReady(st) && AllHandled(h, st, vs, max)
    ensures StoreOk(h, HandleAll(h, st, vs, max), max)
    ensures StoreMap(HandleAll(h, st, vs, max)) == ReplayMap(StoreMap(st), vs)
    decreases |vs|
  {
    if vs == [] {
    } else {
      var init, v := vs[..|vs| - 1], vs[|vs| - 1];
      assert vs == init + [v];
      HandleSnoc(h, st, init, v, max);
      HandleAllMap(h, st, init, max);
      HandledMap(h, HandleAll(h, st, init, max), v, max);
    }
  }

  // ---- logs that cannot be refused ----

  /** The keys that belong to shard i of n. */
  ghost function ShardKeys(h: Hash, keys: set<string>, n: nat, i: nat): set<string>
    requires n > 0
  {
    set k | k in keys && Home(h, k, n) == i
  }

  ghost predicate Fits(h: Hash, keys: set<string>, n: nat, max: nat)
    requires n > 0
  {
    forall i :: 0 <= i < n ==> |ShardKeys(h, keys, n, i)| <= max
  }

  /** Only SET, GET and EXIST, and in the end no shard has more keys than its LRU tracks. */
  ghost predicate Modest(h: Hash, n: nat, vs: seq<Value>, max: nat) {
    && n > 0
    && (forall k :: 0 <= k < |vs| ==> Decode(vs[k]).SetCmd? || Decode(vs[k]).ReadCmd?)
    && Fits(h, ReplayMap(map[], vs).Keys, n, max)
  }

  ghost predicate Untouched(st: Store<Value>) {
    forall i :: 0 <= i < |st| ==> NoTombstones(st[i])
  }

  /** Every key that a shard's LRU tracks is in the store, once. */
  lemma TrackedKeys(h: Hash, st: Store<Value>, i: nat, max: nat)
    requires StoreOk(h, st, max) && i < |st|
    ensures Unique(Order(st[i].lru))
    ensures forall k :: k in Order(st[i].lru) ==> k in StoreMap(st) && Home(h, k, |st|) == i
  {
    assert ShardOk(h, st[i], max);
    forall k | k in Order(st[i].lru)
      ensures k in StoreMap(st) && Home(h, k, |st|) == i
    {
      assert k in Models(st)[i];
      MapGet(h, st, i, k, max);
    }
  }

  /** An eviction means that more keys of the shard are stored than its LRU may track. */
  lemma EvictionNeedsKeys(h: Hash, st: Store<Value>, i: nat, key: string, keys: set<string>, max: nat)
    requires StoreOk(h, st, max) && i == Home(h, key, |st|) && Inserted(Order(st[i].lru), key, max).1.Some?
    requires StoreMap(st).Keys + {key} <= keys
    ensures |ShardKeys(h, keys, |st|, i)| > max
  {
    TrackedKeys(h, st, i, max);
    UniqueFit(Order(st[i].lru) + [key], ShardKeys(h, keys, |st|, i));
  }

  lemma {:induction false} KeysGrow(m: map<string, Value>, vs: seq<Value>, k: nat)
    requires k <= |vs| && forall j :: 0 <= j < |vs| ==> !Decode(vs[j]).DelCmd?
    ensures ReplayMap(m, vs[..k]).Keys <= ReplayMap(m, vs).Keys
    decreases |vs|
  {
    if k == |vs| {
      assert vs[..k] == vs;
    } else {
      KeysGrow(m, vs[..|vs| - 1], k);
      assert vs[..|vs| - 1][..k] == vs[..k];
    }
  }

  lemma CleanSet(h: Hash, st: Store<Value>, v: Value, max: nat)
    requires StoreOk(h, st, max) && AllReady(st) && Untouched(st)
    requires Decode(v).SetCmd? && Fits(h, ApplyCommand(StoreMap(st), Decode(v)).Keys, |st|, max)
    ensures Handle(h, st, v, max).1 && Untouched(Handle(h, st, v, max).0)
  {
    var key, value := Decode(v).key, Decode(v).value;
    var i := Home(h, key, |st|);
    assert ShardOk(h, st[i], max);
    NotStuck(h, st[i], key, max);
    StoreSetOk(h, st, key, value, max);
    if StoreSet(h, st, key, value, max).2.Some? {
      EvictionNeedsKeys(h, st, i, key, ApplyCommand(StoreMap(st), Decode(v)).Keys, max);
    }
    SetLeavesNone(h, st[i], key, value, max);
  }

  lemma CleanRead(h: Hash, st: Store<Value>, v: Value, max: nat)
    requires StoreOk(h, st, max) && AllReady(st) && Untouched(st) && Decode(v).ReadCmd?
    ensures Handle(h, st, v, max).1 && Untouched(Handle(h, st, v, max).0)
  {
    var key := Decode(v).key;
    var i := Home(h, key, |st|);
    assert ShardOk(h, st[i], max);
    NotStuck(h, st[i], key, max);
    StoreGetOk(h, st, key, max);
    GetLeavesNone(h, st[i], key, max);
  }

  /** A log of SETs and lookups with no more keys in any shard than its LRU tracks is replayed into a new store
      without a refusal. */
  lemma {:induction false} ModestAllHandled(h: Hash, st: Store<Value>, vs: seq<Value>, max: nat)
    requires StoreOk(h, st, max) && AllReady(st) && Untouched(st) && StoreMap(st) == map[]
    requires Modest(h, |st|, vs, max)
    ensures AllHandled(h, st, vs, max) && Untouched(HandleAll(h, st, vs, max))
    decreases |vs|
  {
    if vs == [] {
    } else {
      var init, v := vs[..|vs| - 1], vs[|vs| - 1];
      assert vs == init + [v];
      KeysGrow(map[], vs, |init|);
      FewerFit(h, ReplayMap(map[], init).Keys, ReplayMap(map[], vs).Keys, |st|, max);
      ModestAllHandled(h, st, init, max);
      HandleAllMap(h, st, init, max);
      HandleSnoc(h, st, init, v, max);
      if Decode(v).SetCmd? {
        CleanSet(h, HandleAll(h, st, init, max), v, max);
      } else {
        CleanRead(h, HandleAll(h, st, init, max), v, max);
      }
    }
  }

  lemma FewerFit(h: Hash, a: set<string>, b: set<string>, n: nat, max: nat)
    requires n > 0 && a <= b && Fits(h, b, n, max)
    ensures Fits(h, a, n, max)
  {
    forall i | 0 <= i < n
      ensures |ShardKeys(h, a, n, i)| <= max
    {
      var x, y := ShardKeys(h, a, n, i), ShardKeys(h, b, n, i);
      assert y == x + (y - x);
    }
  }
}
