/** The append-only file (src/kvstore/AOF.cpp) and its recovery. */
module Aof {
  import opened Wrappers
  import opened RespValue
  import opened RespEncoder
  import opened RespMachine
  import opened RespRoundTrip
  import opened RespInvariant
  import opened RespParserClass
  import opened HashTableSpec
  import opened LruClass
  import opened StoreSpec
  import opened KvStoreClass
  import opened Replay
  import opened Requests

  const AOF_BUFFER_SIZE: nat := 1024 * 1024

  /** handle_noAOF on the store object. */
  method HandleNoAof(store: KVStore<Value>, v: Value) returns (ok: bool)
    requires store.Valid()
    modifies store.Repr
    ensures store.Valid() && (store.View(), ok) == Handle(store.hash, old(store.View()), v, store.lruMax)
    ensures ok <==> !old(Refuses(store.hash, store.View(), v, store.lruMax))
    ensures store.Contents() == old(MapAfter(store.hash, store.View(), v, store.lruMax))
    ensures ok ==> Did(v, old(store.Contents()), store.Contents())
    ensures !IsRequest(v) ==> !ok && store.View() == old(store.View())
  {
    HandleExactly(store.hash, store.View(), v, store.lruMax);
    HandledDid(store.hash, store.View(), v, store.lruMax);
    ok := Dispatch(store, v);
  }

  /** The switch on the command name. */
  method Dispatch(store: KVStore<Value>, v: Value) returns (ok: bool)
    requires store.Valid()
    modifies store.Repr
    ensures store.Valid() && (store.View(), ok) == Handle(store.hash, old(store.View()), v, store.lruMax)
  {
    match Decode(v) {
      case SetCmd(k, value) => ok := SetNoAof(store, k, value);
      case DelCmd(k) => ok := DelNoAof(store, k);
      case ReadCmd(k) => ok := Read(store, k);
      case Rejected => ok := false;
    }
  }

  method SetNoAof(store: KVStore<Value>, key: string, value: Value) returns (ok: bool)
    requires store.Valid()
    modifies store.Repr
    ensures store.Valid()
    ensures var r := StoreSet(store.hash, old(store.View()), key, value, store.lruMax);
            (store.View(), !ok) == (r.0, r.1)
  {
    var threw, evicted := store.Set(key, value);
    ok := !threw;
  }

  method DelNoAof(store: KVStore<Value>, key: string) returns (ok: bool)
    requires store.Valid()
    modifies store.Repr
    ensures store.Valid()
    ensures var r := StoreDel(store.hash, old(store.View()), key); (store.View(), !ok) == (r.0, r.1.Threw?)
  {
    var threw, deleted := store.Del(key);
    ok := !threw;
  }

  /** GET and EXIST. */
  method Read(store: KVStore<Value>, key: string) returns (ok: bool)
    requires store.Valid()
    modifies store.Repr
    ensures store.Valid()
    ensures var r := StoreGet(store.hash, old(store.View()), key); (store.View(), !ok) == (r.0, r.1.Threw?)
  {
    var threw, value := store.Get(key);
    ok := !threw;
  }

  // ---- the log ----

  class AOF {
    var buffer: string
    var file: string
    /** What the file held when it was opened, and the values appended since. */
    ghost const Before: string
    ghost var Appended: seq<Value>

    /** File bytes and buffer together are what was there, followed by the encodings of everything appended. */
    ghost predicate Valid()
      reads this
    {
      file + buffer == Before + EncodeAll(Appended)
    }

    /** The file is opened for appending. */
    constructor (file: string)
      ensures Valid() && Before == file && this.file == file && buffer == "" && Appended == []
    {
      buffer, this.file, Before, Appended := "", file, file, [];
    }

    /** append(RespValue&); whether the flush interval has passed is a parameter. */
    method Append(value: Value, timeUp: bool)
      requires Valid()
      modifies this
      ensures Valid() && Appended == old(Appended) + [value]
      ensures if timeUp || |old(buffer)| + |Encode(value)| > 1048576 then buffer == ""
              else file == old(file) && buffer == old(buffer) + Encode(value)
    {
      var text := EncodeValue(value);
      EncodeAllSnoc(Appended, value);
      Regroup(file, buffer, Before, EncodeAll(Appended), text);
      buffer := buffer + text;
      Appended := Appended + [value];
      if |buffer| > AOF_BUFFER_SIZE || timeUp {
        Flush();
      }
    }

    method Flush()
      requires Valid()
      modifies this
      ensures Valid() && buffer == "" && file == old(file + buffer) && Appended == old(Appended)
    {
      file := file + buffer;
      buffer := "";
      assert file + buffer == file;
    }
  }

  lemma Regroup(a: string, b: string, c: string, d: string, e: string)
    requires a + b == c + d
    ensures a + (b + e) == c + (d + e)
  {
    assert a + (b + e) == a + b + e;
    assert c + (d + e) == c + d + e;
  }

  // ---- recovery ----

  /** What a parser that has read these bytes, and whose results were taken out as they came, stands for: the
      results taken and those still queued are the results of one uninterrupted run. */
  ghost predicate Fed(bytes: string, taken: seq<Value>, p: Parser) {
    Accounts(RespMachine.Run(Idle([], []), bytes), taken, p)
  }

  ghost predicate Accounts(o: Outcome, taken: seq<Value>, p: Parser) {
    o == Next(p.(queue := taken + p.queue))
  }

  lemma FeedMore(bytes: string, chunk: string, taken: seq<Value>, p: Parser)
    requires Fed(bytes, taken, p)
    ensures var o := RespMachine.Run(p, chunk);
            if o.Next? then Fed(bytes + chunk, taken, o.parser) else RespMachine.Run(Idle([], []), bytes + chunk) == o
  {
    RunConcat(Idle([], []), bytes, chunk);
    QueueIndependence(p, taken, chunk);
  }

  /** The complete values in a string of bytes; None when it is malformed. */
  function Values(bytes: string): Option<seq<Value>> {
    var o := RespMachine.Run(Idle([], []), bytes);
    if o.Next? then Some(o.parser.queue) else None
  }

  /** More bytes only add values, and bytes after malformed ones mend nothing. */
  lemma ValuesGrow(a: string, b: string)
    ensures Values(a + b).Some? ==> Values(a).Some? && Values(a).value <= Values(a + b).value
  {
    RunConcat(Idle([], []), a, b);
    var o := RespMachine.Run(Idle([], []), a);
    if o.Next? {
      var p := o.parser;
      QueueIndependence(p.(queue := []), p.queue, b);
      assert p.(queue := p.queue + []) == p;
    }
  }

  lemma FedValues(bytes: string, taken: seq<Value>, p: Parser)
    requires Fed(bytes, taken, p)
    ensures Values(bytes) == Some(taken + p.queue)
    ensures Fed(bytes, taken + p.queue, p.(queue := []))
  {
    assert taken + p.queue + [] == taken + p.queue;
  }

  /** What the first pos bytes of a file say about all of it. */
  lemma ReadSoFar(file: string, pos: nat)
    requires pos <= |file|
    ensures Values(file).Some? ==> Values(file[..pos]).Some? && Values(file[..pos]).value <= Values(file).value
    ensures pos == |file| ==> file[..pos] == file
  {
    assert file == file[..pos] + file[pos..];
    ValuesGrow(file[..pos], file[pos..]);
  }

  datatype Recovery = Recovered | BadBytes | RefusedAt(cmd: Value)

  /** What has been handled when reading ends, relative to the values read so far: all of them; or those up to and
      including the first that was refused. */
  ghost predicate Progress(h: Hash, st: Store<Value>, max: nat, vs: seq<Value>, r: Recovery, seen: seq<Value>)
    requires AllReady(st)
  {
    if r.RefusedAt? then seen <= vs && RefusedLast(h, st, max, seen, r.cmd)
    else seen == vs && AllHandled(h, st, vs, max)
  }

  ghost predicate RefusedLast(h: Hash, st: Store<Value>, max: nat, seen: seq<Value>, cmd: Value)
    requires AllReady(st)
  {
    && seen != [] && cmd == seen[|seen| - 1]
    && AllHandled(h, st, seen[..|seen| - 1], max)
    && !Handle(h, HandleAll(h, st, seen[..|seen| - 1], max), cmd, max).1
  }

  lemma RefusedLater(h: Hash, st: Store<Value>, max: nat, seen: seq<Value>, cmd: Value, vs: seq<Value>)
    requires AllReady(st) && RefusedLast(h, st, max, seen, cmd) && seen <= vs
    ensures !AllHandled(h, st, vs, max)
  {
    var k := |seen| - 1;
    assert vs[..k] == seen[..k] && vs[k] == cmd;
    RefusedInside(h, st, vs, k, max);
  }

  /** The map after a refused command: what the commands before it give, with its own write or without. */
  lemma RefusedContents(h: Hash, st: Store<Value>, max: nat, seen: seq<Value>, cmd: Value)
    requires StoreOk(h, st, max) && AllReady(st) && RefusedLast(h, st, max, seen, cmd)
    ensures var before := HandleAll(h, st, seen[..|seen| - 1], max);
            && StoreOk(h, before, max) && StoreMap(before) == ReplayMap(StoreMap(st), seen[..|seen| - 1])
            && StoreOk(h, HandleAll(h, st, seen, max), max)
            && StoreMap(HandleAll(h, st, seen, max)) == MapAfter(h, before, cmd, max)
            && Refuses(h, before, cmd, max)
  {
    var init := seen[..|seen| - 1];
    HandleAllMap(h, st, init, max);
    HandleExactly(h, HandleAll(h, st, init, max), cmd, max);
  }

  /** recover: read the file in chunks, feed the parser, and handle every complete command at once. Reading stops after
      pos bytes: at the end of the file, before the chunk with the first malformed byte, or after the chunk with the
      first command that was refused. */
  method Recover(store: KVStore<Value>, file: string, readSize: nat)
    returns (r: Recovery, ghost seen: seq<Value>, ghost pos: nat)
    requires store.Valid() && readSize > 0
    modifies store.Repr
    ensures Caught(store, old(store.View()), seen)
    ensures pos <= |file| && Values(file[..pos]).Some?
    ensures Progress(store.hash, old(store.View()), store.lruMax, Values(file[..pos]).value, r, seen)
    ensures r.Recovered? ==> pos == |file|
    ensures r.BadBytes? ==> Values(file).None? && Values(file[..ChunkEnd(file, pos, readSize)]).None?
  {
    var parser := new RespParser();
    var at := 0;
    ghost var st := store.View();
    seen, r := [], Recovered;
    while at < |file|
      invariant 0 <= at <= |file| && fresh(parser) && Caught(store, st, seen)
      invariant Fed(file[..at], seen, parser.View()) && parser.queue == []
      invariant AllHandled(store.hash, st, seen, store.lruMax)
      invariant r == Recovered
    {
      var end := ChunkEnd(file, at, readSize);
      FedValues(file[..at], seen, parser.View());
      FeedUpTo(file, at, end, seen, parser.View());
      var status := parser.Append(file[at..end]);
      if status != Done {
        return BadBytes, seen, at;
      }
      at := end;
      FedValues(file[..at], seen, parser.View());
      r, seen := Drain(store, parser, st, seen);
      if r != Recovered { return r, seen, at; }
    }
    FedValues(file[..at], seen, parser.View());
    pos := at;
  }

  /** Where a chunk that starts at pos ends. */
  function ChunkEnd(file: string, pos: nat, readSize: nat): (end: nat)
    requires pos <= |file|
    ensures pos <= end <= |file| && (pos < |file| && readSize > 0 ==> pos < end)
  {
    if pos + readSize <= |file| then pos + readSize else |file|
  }

  lemma FeedUpTo(file: string, pos: nat, end: nat, taken: seq<Value>, p: Parser)
    requires pos <= end <= |file| && Fed(file[..pos], taken, p)
    ensures var o := RespMachine.Run(p, file[pos..end]);
            if o.Next? then Fed(file[..end], taken, o.parser)
            else Values(file[..end]).None? && Values(file).None?
  {
    var chunk := file[pos..end];
    FeedMore(file[..pos], chunk, taken, p);
    assert file[..end] == file[..pos] + chunk;
    ReadSoFar(file, end);
  }

  /** The store is what handling these commands has made of st. */
  ghost predicate Caught(store: KVStore<Value>, st: Store<Value>, seen: seq<Value>)
    reads store.Repr
  {
    store.Valid() && AllReady(st) && store.View() == HandleAll(store.hash, st, seen, store.lruMax)
  }

  /** The next command of a sequence handled so far. */
  method HandleNext(store: KVStore<Value>, v: Value, ghost st: Store<Value>, ghost seen: seq<Value>) returns (ok: bool)
    requires Caught(store, st, seen) && AllHandled(store.hash, st, seen, store.lruMax)
    modifies store.Repr
    ensures Caught(store, st, seen + [v])
    ensures ok <==> AllHandled(store.hash, st, seen + [v], store.lruMax)
    ensures !ok ==> RefusedLast(store.hash, st, store.lruMax, seen + [v], v)
  {
    HandleSnoc(store.hash, st, seen, v, store.lruMax);
    assert (seen + [v])[..|seen|] == seen;
    ok := HandleNoAof(store, v);
  }

  lemma TakeFirst(seen: seq<Value>, queue: seq<Value>)
    requires queue != []
    ensures seen + [queue[0]] + queue[1..] == seen + queue && seen + [queue[0]] <= seen + queue
  {
  }

  /** The inner loop: every queued result is handled, up to the first that is refused. */
  method Drain(store: KVStore<Value>, parser: RespParser, ghost st: Store<Value>, ghost before: seq<Value>)
    returns (r: Recovery, ghost seen: seq<Value>)
    requires Caught(store, st, before) && AllHandled(store.hash, st, before, store.lruMax) && parser !in store.Repr
    modifies store.Repr, parser`queue
    ensures Caught(store, st, seen) && !r.BadBytes?
    ensures Progress(store.hash, st, store.lruMax, before + old(parser.queue), r, seen)
    ensures r.Recovered? ==> parser.queue == []
  {
    seen := before;
    ghost var all := before + parser.queue;
    while parser.queue != []
      invariant Caught(store, st, seen) && seen + parser.queue == all
      invariant AllHandled(store.hash, st, seen, store.lruMax)
      decreases |parser.queue|
    {
      ghost var queue := parser.queue;
      var cmd := parser.GetResult();
      TakeFirst(seen, queue);
      var ok := HandleNext(store, cmd.value, st, seen);
      seen := seen + [cmd.value];
      if !ok { return RefusedAt(cmd.value), seen; }
    }
    r := Recovered;
    assert seen + [] == seen;
  }

  /** A SET request leaves the map that it should exactly when the data table takes the key. */
  lemma SetKeepsPace(h: Hash, st: Store<Value>, v: Value, max: nat)
    requires StoreOk(h, st, max) && Decode(v).SetCmd?
    ensures var key := Decode(v).key;
            var s := st[Home(h, key, |st|)];
            && (Refuses(h, st, v, max) <==> DataStuck(s, key) || IndexStuck(s.lru, key))
            && (MapAfter(h, st, v, max) == ApplyCommand(StoreMap(st), Decode(v)) <==> !DataStuck(s, key))
  {
    var key := Decode(v).key;
    MapGet(h, st, Home(h, key, |st|), key, max);
  }

  /** Handler::SET past the ownership check: the request goes to the log, then to the store. The store holds what the
      log replays to afterwards exactly when the data table took the key; otherwise the log is one command ahead. */
  method ServeSet(aof: AOF, store: KVStore<Value>, v: Value, timeUp: bool) returns (ok: bool)
    requires aof.Valid() && store.Valid() && aof !in store.Repr && Decode(v).SetCmd?
    modifies aof, store.Repr
    ensures aof.Valid() && store.Valid() && aof.Appended == old(aof.Appended) + [v]
    ensures ok <==> !old(store.DataStuck(Decode(v).key)) && !old(store.LruStuck(Decode(v).key))
    ensures old(store.Contents()) == ReplayMap(map[], old(aof.Appended)) ==>
              (store.Contents() == ReplayMap(map[], aof.Appended) <==> !old(store.DataStuck(Decode(v).key)))
  {
    SetKeepsPace(store.hash, store.View(), v, store.lruMax);
    ReplaySnoc(map[], aof.Appended, v);
    LogRequest(aof, store, v, timeUp);
    ok := HandleNoAof(store, v);
  }

  /** The log is not part of the store. */
  method LogRequest(aof: AOF, store: KVStore<Value>, v: Value, timeUp: bool)
    requires aof.Valid() && store.Valid() && aof !in store.Repr
    modifies aof
    ensures aof.Valid() && aof.Appended == old(aof.Appended) + [v]
    ensures store.Valid() && store.View() == old(store.View())
  {
    aof.Append(v, timeUp);
  }

  /** Nothing is stored and no bucket has been freed, as in a store just made. */
  ghost predicate IsNew(st: Store<Value>)
    requires forall i :: 0 <= i < |st| ==> UniqueKeys(st[i].data.buckets)
  {
    Untouched(st) && StoreMap(st) == map[]
  }

  /** Restart: whatever flushes happened before, and for every read size, the commands in the file come back in order.
      Recovery succeeds exactly when none of them is refused at its turn, and then the store holds the map that they
      give; otherwise it stops at the first that is refused. A log of SETs and lookups with no more keys in any shard
      than its LRU tracks always recovers into a new store. */
  method Restart(aof: AOF, store: KVStore<Value>, readSize: nat, ghost earlier: seq<Value>)
    returns (r: Recovery, ghost seen: seq<Value>)
    requires aof.Valid() && aof.Before == EncodeAll(earlier) && AllWellFormed(earlier + aof.Appended)
    requires store.Valid() && readSize > 0 && aof !in store.Repr
    modifies aof, store.Repr
    ensures Caught(store, old(store.View()), seen) && !r.BadBytes?
    ensures Progress(store.hash, old(store.View()), store.lruMax, earlier + old(aof.Appended), r, seen)
    ensures r.Recovered? <==> AllHandled(store.hash, old(store.View()), earlier + old(aof.Appended), store.lruMax)
    ensures r.Recovered? ==> store.Contents() == ReplayMap(old(store.Contents()), earlier + old(aof.Appended))
                             && Restored(old(store.Contents()), earlier + old(aof.Appended), store.Contents())
    ensures (old(IsNew(store.View()))
             && Modest(store.hash, |store.shards|, earlier + old(aof.Appended), store.lruMax)) ==> r.Recovered?
  {
    ghost var vs := earlier + aof.Appended;
    var file := Reopen(aof, store, earlier);
    r, seen := RecoverAll(store, file, readSize, vs);
  }

  /** Recovery from a file that holds exactly these values. */
  method RecoverAll(store: KVStore<Value>, file: string, readSize: nat, ghost vs: seq<Value>)
    returns (r: Recovery, ghost seen: seq<Value>)
    requires store.Valid() && readSize > 0 && Values(file) == Some(vs)
    modifies store.Repr
    ensures Caught(store, old(store.View()), seen) && !r.BadBytes?
    ensures Progress(store.hash, old(store.View()), store.lruMax, vs, r, seen)
    ensures r.Recovered? <==> AllHandled(store.hash, old(store.View()), vs, store.lruMax)
    ensures r.Recovered? ==> store.Contents() == ReplayMap(old(store.Contents()), vs)
                             && Restored(old(store.Contents()), vs, store.Contents())
    ensures old(IsNew(store.View())) && Modest(store.hash, |store.shards|, vs, store.lruMax) ==> r.Recovered?
  {
    ghost var st := store.View();
    ReplayFacts(store.hash, st, vs, store.lruMax);
    ghost var pos;
    r, seen, pos := Recover(store, file, readSize);
    ReadSoFar(file, pos);
    WholeLog(store.hash, st, store.lruMax, Values(file[..pos]).value, vs, r, seen);
  }

  /** The file as a restart finds it. */
  method Reopen(aof: AOF, ghost store: KVStore<Value>, ghost earlier: seq<Value>) returns (file: string)
    requires aof.Valid() && aof.Before == EncodeAll(earlier) && AllWellFormed(earlier + aof.Appended)
    requires store.Valid() && aof !in store.Repr
    modifies aof
    ensures Values(file) == Some(earlier + old(aof.Appended))
    ensures store.Valid() && store.View() == old(store.View())
  {
    aof.Flush();
    file := aof.file;
    EncodeAllConcat(earlier, aof.Appended);
    StreamRoundTrip(earlier + aof.Appended, []);
    assert file + "" == file && [] + (earlier + aof.Appended) == earlier + aof.Appended;
  }

  lemma ReplayFacts(h: Hash, st: Store<Value>, vs: seq<Value>, max: nat)
    requires StoreOk(h, st, max) && AllReady(st)
    ensures IsNew(st) && Modest(h, |st|, vs, max) ==> AllHandled(h, st, vs, max)
    ensures AllHandled(h, st, vs, max) ==>
              StoreOk(h, HandleAll(h, st, vs, max), max)
              && StoreMap(HandleAll(h, st, vs, max)) == ReplayMap(StoreMap(st), vs)
              && Restored(StoreMap(st), vs, StoreMap(HandleAll(h, st, vs, max)))
  {
    if IsNew(st) && Modest(h, |st|, vs, max) {
      ModestAllHandled(h, st, vs, max);
    }
    if AllHandled(h, st, vs, max) {
      HandleAllMap(h, st, vs, max);
      HandledRestored(h, st, vs, max);
    }
  }

  /** What was read, when it is some of the values or all of them. */
  lemma WholeLog(h: Hash, st: Store<Value>, max: nat, read: seq<Value>, vs: seq<Value>, r: Recovery, seen: seq<Value>)
    requires AllReady(st) && read <= vs && (r.Recovered? ==> read == vs) && !r.BadBytes?
    requires Progress(h, st, max, read, r, seen)
    ensures Progress(h, st, max, vs, r, seen) && (r.Recovered? <==> AllHandled(h, st, vs, max))
  {
    if r.RefusedAt? {
      RefusedLater(h, st, max, seen, r.cmd, vs);
    }
  }

  lemma {:induction false} EncodeAllConcat(a: seq<Value>, b: seq<Value>)
    ensures EncodeAll(a + b) == EncodeAll(a) + EncodeAll(b)
    decreases |b|
  {
    if b == [] {
      assert a + b == a;
    } else {
      var init, v := b[..|b| - 1], b[|b| - 1];
      EncodeAllConcat(a, init);
      EncodeAllSnoc(a + init, v);
      EncodeAllSnoc(init, v);
      assert a + init + [v] == a + b && init + [v] == b;
      assert EncodeAll(a) + EncodeAll(init) + Encode(v) == EncodeAll(a) + (EncodeAll(init) + Encode(v));
    }
  }

  lemma CutConcat(a: string, b: string, n: nat)
    requires n <= |a + b|
    ensures (a + b)[..n] == if n < |a| then a[..n] else a + b[..n - |a|]
  {
  }

  /** Where a cut after n bytes falls: k whole encodings, then a proper prefix of the next one. */
  lemma {:induction false} CutPoint(vs: seq<Value>, n: nat) returns (k: nat)
    requires n <= |EncodeAll(vs)|
    ensures k <= |vs| && |EncodeAll(vs[..k])| <= n
    ensures k == |vs| ==> EncodeAll(vs)[..n] == EncodeAll(vs)
    ensures k < |vs| ==> var m := |EncodeAll(vs[..k])|;
                         n - m < |Encode(vs[k])| && EncodeAll(vs)[..n] == EncodeAll(vs[..k]) + Encode(vs[k])[..n - m]
    decreases |vs|
  {
    if n == |EncodeAll(vs)| {
      k := |vs|;
      assert vs[..k] == vs;
    } else {
      var init, v := vs[..|vs| - 1], vs[|vs| - 1];
      assert vs == init + [v];
      EncodeAllSnoc(init, v);
      CutConcat(EncodeAll(init), Encode(v), n);
      if n < |EncodeAll(init)| {
        k := CutPoint(init, n);
        assert vs[..k] == init[..k];
      } else {
        k := |init|;
        assert vs[..k] == init;
      }
    }
  }

  lemma WholeStream(vs: seq<Value>)
    requires AllWellFormed(vs)
    ensures Values(EncodeAll(vs)) == Some(vs)
  {
    StreamRoundTrip(vs, []);
    assert [] + vs == vs;
  }

  lemma TornValues(vs: seq<Value>, v: Value, n: nat)
    requires AllWellFormed(vs) && WellFormed(v) && n < |Encode(v)|
    ensures Values(EncodeAll(vs) + Encode(v)[..n]) == Some(vs)
  {
    TornStream(vs, v, n, []);
    assert [] + vs == vs;
  }

  /** A log cut off after n bytes holds exactly the commands whose encodings end within those bytes. */
  lemma CutLog(vs: seq<Value>, n: nat) returns (k: nat)
    requires AllWellFormed(vs) && n <= |EncodeAll(vs)|
    ensures k <= |vs| && |EncodeAll(vs[..k])| <= n && (k < |vs| ==> n < |EncodeAll(vs[..k + 1])|)
    ensures Values(EncodeAll(vs)[..n]) == Some(vs[..k])
  {
    k := CutPoint(vs, n);
    if k == |vs| {
      assert vs[..k] == vs;
      WholeStream(vs);
    } else {
      assert vs[..k + 1] == vs[..k] + [vs[k]];
      EncodeAllSnoc(vs[..k], vs[k]);
      TornValues(vs[..k], vs[k], n - |EncodeAll(vs[..k])|);
    }
  }
}
