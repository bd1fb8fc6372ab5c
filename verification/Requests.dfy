/** Requests as clients and logs spell them (src/server/Handler.cpp), and what each does to the one map of the store:
    the meaning of a log in terms of its arrays. */
module Requests {
  import opened RespValue
  import opened HashTableSpec
  import LruSpec
  import opened LruClass
  import opened StoreSpec
  import opened Replay

  datatype Request =
    | SetReq(key: string, value: Value)
    | DelReq(key: string)
    | GetReq(key: string)
    | ExistReq(key: string)

  /** The array that a request is. */
  function Spelled(r: Request): Value {
    match r
    case SetReq(k, v) => Array([Simple("SET"), Simple(k), v])
    case DelReq(k) => Array([Simple("DEL"), Simple(k)])
    case GetReq(k) => Array([Simple("GET"), Simple(k)])
    case ExistReq(k) => Array([Simple("EXIST"), Simple(k)])
  }

  function SpelledAll(rs: seq<Request>): (vs: seq<Value>)
    ensures |vs| == |rs| && forall i :: 0 <= i < |rs| ==> vs[i] == Spelled(rs[i])
  {
    seq(|rs|, i requires 0 <= i < |rs| => Spelled(rs[i]))
  }

  /** SET writes its pair, DEL removes its key, GET and EXIST change nothing. */
  ghost predicate Does(r: Request, before: map<string, Value>, after: map<string, Value>) {
    match r
    case SetReq(k, v) => after == before[k := v]
    case DelReq(k) => after == before - {k}
    case GetReq(_) => after == before
    case ExistReq(_) => after == before
  }

  ghost predicate IsRequest(v: Value) {
    exists r :: v == Spelled(r)
  }

  /** The commands are told apart by name and length. */
  lemma DecodesSpelled(r: Request)
    ensures Decode(Spelled(r)) == match r
                                  case SetReq(k, v) => SetCmd(k, v)
                                  case DelReq(k) => DelCmd(k)
                                  case GetReq(k) => ReadCmd(k)
                                  case ExistReq(k) => ReadCmd(k)
  {
    var v := Spelled(r);
    assert |v.elems| == if r.SetReq? then 3 else 2;
  }

  /** Whatever is accepted is one of the four arrays. */
  lemma AcceptedIsRequest(v: Value)
    ensures Decode(v).Rejected? <==> !IsRequest(v)
  {
    if !Decode(v).Rejected? {
      var k := v.elems[1].text;
      var r := if v.elems[0].text == "SET" then SetReq(k, v.elems[2])
               else if v.elems[0].text == "DEL" then DelReq(k)
               else if v.elems[0].text == "GET" then GetReq(k) else ExistReq(k);
      assert v.elems == Spelled(r).elems;
    }
    if IsRequest(v) {
      var r :| v == Spelled(r);
      DecodesSpelled(r);
    }
  }

  /** A request that is handled does what its array says. It is refused exactly when the data table of its key's shard
      gives up on the key, or the LRU does, which is asked about every key to set and every other key that is stored. */
  lemma HandledDoes(h: Hash, st: Store<Value>, r: Request, max: nat)
    requires StoreOk(h, st, max) && AllReady(st)
    ensures var (st', ok) := Handle(h, st, Spelled(r), max);
            && StoreOk(h, st', max) && (ok ==> Does(r, StoreMap(st), StoreMap(st')))
            && var s := st[Home(h, r.key, |st|)];
               ok <==> !DataStuck(s, r.key) && !((r.SetReq? || r.key in StoreMap(st)) && IndexStuck(s.lru, r.key))
  {
    DecodesSpelled(r);
    HandleExactly(h, st, Spelled(r), max);
  }

  /** And this is what a handled request does to the recency order of its key's shard; no other shard changes. */
  lemma HandledOrder(h: Hash, st: Store<Value>, r: Request, max: nat)
    requires StoreOk(h, st, max) && AllReady(st) && Handle(h, st, Spelled(r), max).1
    ensures var i, st' := Home(h, r.key, |st|), Handle(h, st, Spelled(r), max).0;
            && (forall j :: 0 <= j < |st| && j != i ==> st'[j] == st[j])
            && Order(st'[i].lru) == if r.SetReq? then LruSpec.Inserted(Order(st[i].lru), r.key, max).0
                                    else if r.key !in StoreMap(st) then Order(st[i].lru)
                                    else if r.DelReq? then LruSpec.Without(Order(st[i].lru), r.key)
                                    else LruSpec.Touched(Order(st[i].lru), r.key)
  {
    DecodesSpelled(r);
    match r
    case SetReq(k, v) => StoreSetOk(h, st, k, v, max);
    case DelReq(k) => StoreDelOk(h, st, k, max);
    case GetReq(k) => StoreGetOk(h, st, k, max);
    case ExistReq(k) => StoreGetOk(h, st, k, max);
  }

  /** Anything else, whatever its name or length, is refused and changes nothing. */
  lemma OthersRefused(h: Hash, st: Store<Value>, v: Value, max: nat)
    requires AllReady(st) && !IsRequest(v)
    ensures Handle(h, st, v, max) == (st, false)
  {
    AcceptedIsRequest(v);
  }

  /** A handled value is a request, and this is what it did. */
  ghost predicate Did(v: Value, before: map<string, Value>, after: map<string, Value>) {
    exists r :: v == Spelled(r) && Does(r, before, after)
  }

  lemma HandledDid(h: Hash, st: Store<Value>, v: Value, max: nat)
    requires StoreOk(h, st, max) && AllReady(st)
    ensures var (st', ok) := Handle(h, st, v, max);
            && StoreOk(h, st', max) && (ok ==> Did(v, StoreMap(st), StoreMap(st')))
            && (!IsRequest(v) ==> st' == st && !ok)
  {
    if IsRequest(v) {
      var r :| v == Spelled(r);
      HandledDoes(h, st, r, max);
    } else {
      OthersRefused(h, st, v, max);
    }
  }

  // ---- logs of requests ----

  /** Request i is the last one that writes the key. */
  ghost predicate LastWrite(rs: seq<Request>, key: string, i: int) {
    && 0 <= i < |rs| && rs[i].key == key && (rs[i].SetReq? || rs[i].DelReq?)
    && forall j :: i < j < |rs| ==> !Writes(rs[j], key)
  }

  ghost predicate Writes(r: Request, key: string) {
    r.key == key && (r.SetReq? || r.DelReq?)
  }

  /** The last write wins: a SET leaves its value, a DEL nothing; a key that is not written keeps what it had. */
  ghost predicate LastWriteWins(before: map<string, Value>, rs: seq<Request>, after: map<string, Value>, key: string) {
    && (forall i :: LastWrite(rs, key, i) ==>
          if rs[i].SetReq? then key in after && after[key] == rs[i].value else key !in after)
    && ((forall i :: 0 <= i < |rs| ==> !Writes(rs[i], key)) ==>
          (key in after <==> key in before) && (key in before ==> after[key] == before[key]))
  }

  lemma {:induction false} ReplayedLastWrite(m: map<string, Value>, rs: seq<Request>, key: string)
    ensures LastWriteWins(m, rs, ReplayMap(m, SpelledAll(rs)), key)
    decreases |rs|
  {
    if rs != [] {
      var init, r := rs[..|rs| - 1], rs[|rs| - 1];
      assert SpelledAll(rs)[..|rs| - 1] == SpelledAll(init);
      DecodesSpelled(r);
      ReplayedLastWrite(m, init, key);
      OneMoreWrite(m, init, r, ReplayMap(m, SpelledAll(init)), ReplayMap(m, SpelledAll(rs)), key);
      assert rs == init + [r];
    }
  }

  lemma OneMoreWrite(m: map<string, Value>, init: seq<Request>, r: Request, before: map<string, Value>,
                     after: map<string, Value>, key: string)
    requires LastWriteWins(m, init, before, key) && Does(r, before, after)
    ensures LastWriteWins(m, init + [r], after, key)
  {
    var rs := init + [r];
    if Writes(r, key) {
      assert Writes(rs[|init|], key);
      assert forall i :: LastWrite(rs, key, i) ==> i == |init|;
    } else {
      forall i | LastWrite(rs, key, i)
        ensures LastWrite(init, key, i) && rs[i] == init[i]
      {
        forall j | i < j < |init|
          ensures !Writes(init[j], key)
        {
          assert rs[j] == init[j];
        }
      }
      if forall i :: 0 <= i < |rs| ==> !Writes(rs[i], key) {
        forall i | 0 <= i < |init|
          ensures !Writes(init[i], key)
        {
          assert rs[i] == init[i];
        }
      }
    }
  }

  /** When every request of a log is handled, the store holds, key by key, what the last write of the key says. */
  lemma HandledLog(h: Hash, st: Store<Value>, rs: seq<Request>, max: nat, key: string)
    requires StoreOk(h, st, max) && AllReady(st) && AllHandled(h, st, SpelledAll(rs), max)
    ensures var st' := HandleAll(h, st, SpelledAll(rs), max);
            StoreOk(h, st', max) && LastWriteWins(StoreMap(st), rs, StoreMap(st'), key)
  {
    HandleAllMap(h, st, SpelledAll(rs), max);
    ReplayedLastWrite(StoreMap(st), rs, key);
  }

  /** A log that is handled to its end is a log of requests. */
  lemma {:induction false} HandledAreRequests(h: Hash, st: Store<Value>, vs: seq<Value>, max: nat)
    returns (rs: seq<Request>)
    requires AllReady(st) && AllHandled(h, st, vs, max)
    ensures vs == SpelledAll(rs)
    decreases |vs|
  {
    rs := [];
    if vs != [] {
      var init, v := vs[..|vs| - 1], vs[|vs| - 1];
      assert vs == init + [v];
      HandleSnoc(h, st, init, v, max);
      rs := HandledAreRequests(h, st, init, max);
      if !IsRequest(v) {
        OthersRefused(h, HandleAll(h, st, init, max), v, max);
      }
      var r :| v == Spelled(r);
      rs := rs + [r];
    }
  }

  /** The values are requests, of which the last write of each key has won. */
  ghost predicate Restored(before: map<string, Value>, vs: seq<Value>, after: map<string, Value>) {
    exists rs :: vs == SpelledAll(rs) && forall key :: LastWriteWins(before, rs, after, key)
  }

  lemma HandledRestored(h: Hash, st: Store<Value>, vs: seq<Value>, max: nat)
    requires StoreOk(h, st, max) && AllReady(st) && AllHandled(h, st, vs, max)
    ensures var st' := HandleAll(h, st, vs, max);
            StoreOk(h, st', max) && Restored(StoreMap(st), vs, StoreMap(st'))
  {
    HandleAllMap(h, st, vs, max);
    var rs := HandledAreRequests(h, st, vs, max);
    forall key
      ensures LastWriteWins(StoreMap(st), rs, StoreMap(HandleAll(h, st, vs, max)), key)
    {
      HandledLog(h, st, rs, max, key);
    }
  }
}
