/** How a table fills up with tombstones when all its keys come from one shard, whose home buckets are only every
    sixteenth one. */
module Crowding {
  import opened Wrappers
  import opened Sequences
  import opened HashTableSpec
  import opened HashTableRefinement
  import LruSpec

  // ---- keys of one home occupy the buckets after it ----

  lemma {:induction false} Pigeonhole(ds: seq<nat>, j: nat)
    requires Distinct(ds) && forall i :: 0 <= i < |ds| ==> ds[i] < j
    ensures |ds| <= j
    decreases j
  {
    if ds == [] {
    } else if i :| 0 <= i < |ds| && ds[i] == j - 1 {
      var rest := ds[..i] + ds[i + 1..];
      forall x, y | 0 <= x < y < |rest|
        ensures rest[x] != rest[y] && rest[x] < j - 1 && rest[y] < j - 1
      {
        assert rest[x] == ds[if x < i then x else x + 1] && rest[y] == ds[if y < i then y else y + 1];
      }
      forall x | 0 <= x < |rest|
        ensures rest[x] < j - 1
      {
        assert rest[x] == ds[if x < i then x else x + 1];
      }
      Pigeonhole(rest, j - 1);
    } else {
      assert ds[0] < j;
      Pigeonhole(ds, j - 1);
    }
  }

  ghost function BucketOf<T>(b: seq<Bucket<T>>, key: string): (i: nat)
    requires Stored(b, key)
    ensures i < |b| && b[i].Occupied? && b[i].key == key
  {
    var i :| 0 <= i < |b| && b[i].Occupied? && b[i].key == key;
    i
  }

  ghost predicate AllAt<T>(h: Hash, b: seq<Bucket<T>>, ks: seq<string>, e: nat)
    requires |b| > 0
  {
    forall i :: 0 <= i < |ks| ==> Stored(b, ks[i]) && Home(h, ks[i], |b|) == e
  }

  /** As many buckets from the home on are in use as there are stored keys with that home. */
  lemma HomeBlock<T>(h: Hash, b: seq<Bucket<T>>, e: nat, ks: seq<string>, j: nat)
    requires ValidBuckets(h, b) && LruSpec.Unique(ks) && AllAt(h, b, ks, e) && e < |b| && j < |ks| && j < |b|
    ensures !b[Pos(e, j, |b|)].Empty?
  {
    if b[Pos(e, j, |b|)].Empty? {
      var ds := seq(|ks|, i requires 0 <= i < |ks| => Dist(e, BucketOf(b, ks[i]), |b|));
      forall i | 0 <= i < |ds|
        ensures ds[i] < j
      {
        assert Reaches(h, b, ks[i], BucketOf(b, ks[i]));
      }
      forall x, y | 0 <= x < y < |ds|
        ensures ds[x] != ds[y]
      {
        assert ks[x] != ks[y];
        assert Pos(e, ds[x], |b|) == BucketOf(b, ks[x]) && Pos(e, ds[y], |b|) == BucketOf(b, ks[y]);
      }
      Pigeonhole(ds, j);
    }
  }

  // ---- buckets in use stay in use until the table grows ----

  ghost predicate InUse<T>(b: seq<Bucket<T>>, c: seq<Bucket<T>>) {
    |b| == |c| && forall i :: 0 <= i < |b| && !b[i].Empty? ==> !c[i].Empty?
  }

  lemma StaysInUse<T>(h: Hash, t: Table<T>, op: Op<T>)
    requires Inv(h, t) && |Apply(h, t, op).0.buckets| == |t.buckets|
    ensures InUse(t.buckets, Apply(h, t, op).0.buckets)
  {
    FindSpec(h, t.buckets, op.key);
  }

  /** The table grows only when a new key takes it over the load factor. */
  lemma GrowsWhen<T>(h: Hash, t: Table<T>, op: Op<T>)
    requires Inv(h, t)
    ensures var n := |Apply(h, t, op).0.buckets|;
            n == |t.buckets|
            || (n == 2 * |t.buckets| && op.Set? && op.key !in Contents(t.buckets) && Overloaded(t.sz + 1, |t.buckets|))
  {
    FindSpec(h, t.buckets, op.key);
  }

  lemma {:induction false} CountIsSize<T>(b: seq<Bucket<T>>)
    requires UniqueKeys(b)
    ensures Count(b) == |Contents(b).Keys|
  {
    if b == [] {
      assert Contents(b) == map[];
    } else {
      var init, x := b[..|b| - 1], b[|b| - 1];
      UniqueInit(b);
      CountIsSize(init);
      if x.Occupied? {
        assert Contents(b).Keys == Contents(init).Keys + {x.key};
      }
    }
  }

  // ---- the load factor ----

  /** No run fills a table to more than three quarters. */
  lemma ThreeQuarters<T>(h: Hash, ops: seq<Op<T>>)
    ensures var t := Run(h, NewTable<T>(), ops).0;
            UniqueKeys(t.buckets) && 4 * |Contents(t.buckets).Keys| <= 3 * |t.buckets|
  {
    RunRefines(h, ops, |ops|);
    CountIsSize(Run(h, NewTable<T>(), ops).0.buckets);
  }

  /** Sixteen buckets, doubled some number of times. */
  ghost predicate Doubled(n: nat) {
    n == 16 || (n % 2 == 0 && 16 < n && Doubled(n / 2))
  }

  /** One step for the lemma below. */
  lemma GrowsByNeed<T>(h: Hash, t: Table<T>, op: Op<T>)
    requires Inv(h, t) && !op.Erase? && Doubled(|t.buckets|)
    requires |t.buckets| == 16 || 8 * |Contents(t.buckets).Keys| > 3 * |t.buckets|
    ensures var t' := Apply(h, t, op).0;
            && UniqueKeys(t'.buckets) && Doubled(|t'.buckets|)
            && (|t'.buckets| == 16 || 8 * |Contents(t'.buckets).Keys| > 3 * |t'.buckets|)
  {
    ApplyRefines(h, t, op);
    GrowsWhen(h, t, op);
    CountIsSize(t.buckets);
    var m, m' := Contents(t.buckets), Contents(Apply(h, t, op).0.buckets);
    if |Apply(h, t, op).0.buckets| != |t.buckets| {
      assert 2 * |t.buckets| / 2 == |t.buckets|;
      assert m'.Keys == m.Keys + {op.key};
    } else {
      assert m.Keys <= m'.Keys;
      KeysAtLeast(m.Keys, m'.Keys);
    }
  }

  lemma KeysAtLeast(a: set<string>, b: set<string>)
    requires a <= b
    ensures |a| <= |b|
  {
    assert b == a + (b - a);
  }

  /** And no run grows it sooner than it has to: without erase, the number of buckets is the first of 16, 32, 64 and so
      on of which the keys fill no more than three quarters. */
  lemma {:induction false} GrowsNoSooner<T>(h: Hash, ops: seq<Op<T>>)
    requires forall k :: 0 <= k < |ops| ==> !ops[k].Erase?
    ensures var t := Run(h, NewTable<T>(), ops).0;
            && UniqueKeys(t.buckets) && Doubled(|t.buckets|) && 4 * |Contents(t.buckets).Keys| <= 3 * |t.buckets|
            && (|t.buckets| == 16 || 4 * |Contents(t.buckets).Keys| > 3 * (|t.buckets| / 2))
    decreases |ops|
  {
    ThreeQuarters(h, ops);
    if ops != [] {
      var init := ops[..|ops| - 1];
      GrowsNoSooner(h, init);
      RunRefines(h, init, |init|);
      GrowsByNeed(h, Run(h, NewTable<T>(), init).0, ops[|ops| - 1]);
    }
  }

  // ---- one home bucket ----

  /** The buckets in use are the first m from bucket p on. */
  ghost predicate Prefix<T>(b: seq<Bucket<T>>, p: nat, m: nat) {
    && p < |b| && m <= |b|
    && forall j :: 0 <= j < |b| ==> (b[Pos(p, j, |b|)].Empty? <==> m <= j)
  }

  /** Once find has met a tombstone it does not return an empty bucket. */
  lemma {:induction false} ProbeReuses<T>(b: seq<Bucket<T>>, home: nat, key: string, j: nat, d: nat)
    requires home < |b| && j <= |b| && d < |b| && b[d].Deleted?
    ensures var r := Probe(b, home, key, j, Some(d)); r.At? ==> !b[r.index].Empty?
    decreases |b| - j
  {
    if j == |b| {
    } else if !b[Pos(home, j, |b|)].Empty? {
      ProbeReuses(b, home, key, j + 1, d);
    }
  }

  /** find returns an empty bucket only if it has met nothing but other keys on its way. */
  lemma {:induction false} ProbeEmpty<T>(b: seq<Bucket<T>>, home: nat, key: string, j: nat) returns (e: nat)
    requires home < |b| && j <= |b|
    requires var r := Probe(b, home, key, j, None); r.At? && b[r.index].Empty?
    ensures j <= e < |b| && Probe(b, home, key, j, None).index == Pos(home, e, |b|)
    ensures forall i :: j <= i < e ==> b[Pos(home, i, |b|)].Occupied?
    decreases |b| - j
  {
    var i := Pos(home, j, |b|);
    if b[i].Deleted? {
      ProbeReuses(b, home, key, j + 1, i);
    }
    if b[i].Empty? {
      e := j;
    } else {
      e := ProbeEmpty(b, home, key, j + 1);
    }
  }

  /** A run of occupied buckets holds no more keys than the table counts. */
  lemma OccupiedRun<T>(h: Hash, t: Table<T>, p: nat, m: nat)
    requires Inv(h, t) && p < |t.buckets| && m <= |t.buckets|
    requires forall j :: 0 <= j < m ==> t.buckets[Pos(p, j, |t.buckets|)].Occupied?
    ensures m <= t.sz
  {
    var b := t.buckets;
    var ks := seq(m, j requires 0 <= j < m => b[Pos(p, j, |b|)].key);
    forall x, y | 0 <= x < y < m
      ensures ks[x] != ks[y]
    {
      assert Pos(p, x, |b|) != Pos(p, y, |b|);
    }
    LruSpec.UniqueFit(ks, Contents(b).Keys);
    CountIsSize(b);
  }

  /** A call on a key of that home: the table doubles, or its buckets in use stay a prefix of at most twelve. */
  lemma OneHomeStep<T>(h: Hash, t: Table<T>, op: Op<T>, p: nat, m: nat) returns (m': nat)
    requires Inv(h, t) && |t.buckets| == INITIAL_BUCKETS && Prefix(t.buckets, p, m) && m <= 12
    requires Home(h, op.key, INITIAL_BUCKETS) == p
    ensures var t' := Apply(h, t, op).0;
            |t'.buckets| != INITIAL_BUCKETS || (Prefix(t'.buckets, p, m') && m' <= 12)
  {
    m' := m;
    var b, n := t.buckets, |t.buckets|;
    var r := Find(h, b, op.key);
    if op.Set? && r.At? && b[r.index].Empty? {
      var e := ProbeEmpty(b, p, op.key, 0);
      assert b[Pos(p, e, n)].Empty? && b[Pos(p, m, n)].Empty?;
      assert e == m;
      OccupiedRun(h, t, p, m);
      m' := m + 1;
      SameCircle(p, m, n);
    } else {
      FindSpec(h, b, op.key);
    }
  }

  lemma SameCircle(p: nat, m: nat, n: nat)
    requires p < n && m < n
    ensures forall j :: 0 <= j < n && j != m ==> Pos(p, j, n) != Pos(p, m, n)
  {
  }

  /** For every hash function: a new table that only receives keys of one home bucket has room for every one of them as
      long as it has not grown. */
  lemma {:induction false} OneHomeRun<T>(h: Hash, ops: seq<Op<T>>, p: nat) returns (m: nat)
    requires p < INITIAL_BUCKETS && forall i :: 0 <= i < |ops| ==> Home(h, ops[i].key, INITIAL_BUCKETS) == p
    ensures var t := Run(h, NewTable<T>(), ops).0;
            && Inv(h, t) && |t.buckets| >= INITIAL_BUCKETS
            && (|t.buckets| == INITIAL_BUCKETS ==> Prefix(t.buckets, p, m) && m <= 12)
    decreases |ops|
  {
    if ops == [] {
      NewTableInv<T>(h);
      m := 0;
    } else {
      var init, op := ops[..|ops| - 1], ops[|ops| - 1];
      m := OneHomeRun(h, init, p);
      var t := Run(h, NewTable<T>(), init).0;
      ApplyRefines(h, t, op);
      GrowsWhen(h, t, op);
      if |t.buckets| == INITIAL_BUCKETS {
        m := OneHomeStep(h, t, op, p, m);
      }
    }
  }

  lemma OneHomeNeverThrows<T>(h: Hash, ops: seq<Op<T>>, op: Op<T>, p: nat)
    requires p < INITIAL_BUCKETS && forall i :: 0 <= i < |ops| ==> Home(h, ops[i].key, INITIAL_BUCKETS) == p
    requires |Run(h, NewTable<T>(), ops).0.buckets| == INITIAL_BUCKETS
    ensures !Apply(h, Run(h, NewTable<T>(), ops).0, op).1.Threw?
  {
    var t := Run(h, NewTable<T>(), ops).0;
    var m := OneHomeRun(h, ops, p);
    assert t.buckets[Pos(p, 15, INITIAL_BUCKETS)].Empty?;
    ApplyRefines(h, t, op);
  }

  // ---- sixteen keys of each of two homes ----

  function Sets<T>(keys: seq<string>, value: T): (ops: seq<Op<T>>)
    ensures |ops| == |keys| && forall i :: 0 <= i < |keys| ==> ops[i] == Set(keys[i], value)
  {
    seq(|keys|, i requires 0 <= i < |keys| => Set(keys[i], value))
  }

  function Erases<T>(keys: seq<string>): (ops: seq<Op<T>>)
    ensures |ops| == |keys| && forall i :: 0 <= i < |keys| ==> ops[i] == Erase(keys[i])
  {
    seq(|keys|, i requires 0 <= i < |keys| => Erase(keys[i]))
  }

  /** A table of sixteen or thirty-two buckets with at most so many keys. */
  ghost predicate Modest<T>(h: Hash, t: Table<T>, n: nat) {
    Inv(h, t) && |t.buckets| in {16, 32} && t.sz <= n
  }

  lemma ModestSet<T>(h: Hash, t: Table<T>, key: string, value: T, n: nat)
    requires Modest(h, t, n) && n < 24
    ensures var t' := Apply(h, t, Set(key, value)).0;
            && Modest(h, t', n + 1) && |t'.buckets| >= |t.buckets|
            && (|t'.buckets| == |t.buckets| ==> InUse(t.buckets, t'.buckets))
            && Contents(t.buckets).Keys <= Contents(t'.buckets).Keys <= Contents(t.buckets).Keys + {key}
            && (HasEmpty(t'.buckets) ==> HasEmpty(t.buckets) && key in Contents(t'.buckets))
  {
    var op := Set(key, value);
    var t' := Apply(h, t, op).0;
    ApplyRefines(h, t, op);
    GrowsWhen(h, t, op);
    CountIsSize(t.buckets);
    CountIsSize(t'.buckets);
    if |t'.buckets| == |t.buckets| {
      StaysInUse(h, t, op);
    }
    if !HasEmpty(t.buckets) {
      StuckForever(h, t, op);
    }
    SizeGrows(Contents(t.buckets).Keys, Contents(t'.buckets).Keys, key);
  }

  lemma SizeGrows(a: set<string>, b: set<string>, key: string)
    requires b <= a + {key}
    ensures |b| <= |a| + 1
  {
    var c := a + {key};
    assert c == b + (c - b);
    assert c == if key in a then a else a + {key};
  }

  lemma {:induction false} SetAll<T>(h: Hash, t: Table<T>, keys: seq<string>, value: T, n: nat)
    requires Modest(h, t, n) && n + |keys| <= 24
    ensures var t' := Run(h, t, Sets(keys, value)).0;
            && Modest(h, t', n + |keys|) && |t'.buckets| >= |t.buckets|
            && (|t'.buckets| == |t.buckets| ==> InUse(t.buckets, t'.buckets))
            && (forall k :: k in Contents(t'.buckets) ==> k in Contents(t.buckets) || k in keys)
            && (HasEmpty(t'.buckets) ==> forall k :: k in keys ==> k in Contents(t'.buckets))
    decreases |keys|
  {
    if keys == [] {
    } else {
      var init, key := keys[..|keys| - 1], keys[|keys| - 1];
      SetAll(h, t, init, value, n);
      var t1 := Run(h, t, Sets(init, value)).0;
      assert Sets(keys, value) == Sets(init, value) + [Set(key, value)];
      HashTableRefinement.RunSnoc(h, t, Sets(init, value), Set(key, value));
      ModestSet(h, t1, key, value, n + |init|);
      assert forall k :: k in keys <==> k in init || k == key;
    }
  }

  lemma ModestErase<T>(h: Hash, t: Table<T>, key: string, n: nat)
    requires Modest(h, t, n)
    ensures var t' := Apply(h, t, Erase(key)).0;
            && Modest(h, t', n) && |t'.buckets| == |t.buckets| && InUse(t.buckets, t'.buckets)
            && Contents(t'.buckets).Keys == Contents(t.buckets).Keys - {key}
  {
    var op: Op<T> := Erase(key);
    var t' := Apply(h, t, op).0;
    ErasedKeys(h, t, key);
    GrowsWhen(h, t, op);
    StaysInUse(h, t, op);
    CountIsSize(t.buckets);
    CountIsSize(t'.buckets);
    Subset(Contents(t'.buckets).Keys, Contents(t.buckets).Keys);
  }

  lemma ErasedKeys<T>(h: Hash, t: Table<T>, key: string)
    requires Inv(h, t)
    ensures var t' := Apply(h, t, Erase(key)).0;
            Inv(h, t') && Contents(t'.buckets).Keys == Contents(t.buckets).Keys - {key}
  {
    ApplyRefines(h, t, Erase(key));
  }

  lemma Subset(a: set<string>, b: set<string>)
    requires a <= b
    ensures |a| <= |b|
  {
    assert b == a + (b - a);
  }

  lemma {:induction false} EraseAll<T>(h: Hash, t: Table<T>, keys: seq<string>, n: nat)
    requires Modest(h, t, n)
    ensures var t' := Run(h, t, Erases(keys)).0;
            && Modest(h, t', n) && |t'.buckets| == |t.buckets| && InUse(t.buckets, t'.buckets)
            && (forall k :: k in Contents(t'.buckets) <==> k in Contents(t.buckets) && k !in keys)
    decreases |keys|
  {
    if keys == [] {
    } else {
      var init, key := keys[..|keys| - 1], keys[|keys| - 1];
      EraseAll(h, t, init, n);
      var t1 := Run(h, t, Erases(init)).0;
      assert Erases<T>(keys) == Erases(init) + [Erase(key)];
      HashTableRefinement.RunSnoc(h, t, Erases(init), Erase(key));
      ModestErase(h, t1, key, n);
      assert forall k :: k in keys <==> k in init || k == key;
    }
  }

  /** The keys of one home in a table of thirty-two buckets. */
  ghost predicate Sixteen(h: Hash, keys: seq<string>, e: nat) {
    e < 32 && |keys| == 16 && LruSpec.Unique(keys) && forall i :: 0 <= i < 16 ==> h(keys[i]) % 32 == e
  }

  /** A table that holds sixteen keys has grown to thirty-two buckets, and the sixteen from their home on are in use. */
  lemma SixteenInUse<T>(h: Hash, t: Table<T>, keys: seq<string>, e: nat, n: nat)
    requires Modest(h, t, n) && Sixteen(h, keys, e) && forall k :: k in keys ==> k in Contents(t.buckets)
    ensures |t.buckets| == 32 && forall j :: 0 <= j < 16 ==> !t.buckets[Pos(e, j, 32)].Empty?
  {
    CountIsSize(t.buckets);
    LruSpec.UniqueFit(keys, Contents(t.buckets).Keys);
    assert |t.buckets| == 32;
    forall i | 0 <= i < |keys|
      ensures Stored(t.buckets, keys[i]) && Home(h, keys[i], 32) == e
    {
      assert keys[i] in keys;
      StoredIsKey(t.buckets, keys[i]);
    }
    forall j | 0 <= j < 16
      ensures !t.buckets[Pos(e, j, 32)].Empty?
    {
      HomeBlock(h, t.buckets, e, keys, j);
    }
  }

  /** Set and erase sixteen keys of one home, then sixteen of the home half a table further on. */
  function TwoRounds<T>(a: seq<string>, b: seq<string>, value: T): seq<Op<T>> {
    Sets(a, value) + Erases(a) + Sets(b, value) + Erases(b)
  }

  lemma {:induction false} RunConcat<T>(h: Hash, t: Table<T>, x: seq<Op<T>>, y: seq<Op<T>>)
    requires |t.buckets| > 0
    ensures Run(h, t, x + y).0 == Run(h, Run(h, t, x).0, y).0
    decreases |y|
  {
    if y == [] {
      assert x + y == x;
    } else {
      var init, op := y[..|y| - 1], y[|y| - 1];
      RunConcat(h, t, x, init);
      SnocBoth(h, t, Run(h, t, x).0, x + init, init, op);
      AddLast(x, init, op, y);
    }
  }

  lemma AddLast<T>(x: seq<T>, init: seq<T>, op: T, y: seq<T>)
    requires y != [] && init == y[..|y| - 1] && op == y[|y| - 1]
    ensures x + y == (x + init) + [op] && y == init + [op]
  {
  }

  /** Runs that have come to the same table are together after one more call. */
  lemma SnocBoth<T>(h: Hash, t: Table<T>, u: Table<T>, xs: seq<Op<T>>, ys: seq<Op<T>>, op: Op<T>)
    requires |t.buckets| > 0 && |u.buckets| > 0 && Run(h, t, xs).0 == Run(h, u, ys).0
    ensures Run(h, t, xs + [op]).0 == Run(h, u, ys + [op]).0
  {
    HashTableRefinement.RunSnoc(h, t, xs, op);
    HashTableRefinement.RunSnoc(h, u, ys, op);
  }

  /** The first round: all sixteen buckets from the home on are tombstones. */
  lemma FirstRound<T>(h: Hash, a: seq<string>, value: T, e: nat)
    requires Sixteen(h, a, e)
    ensures var t := Run(h, Run(h, NewTable<T>(), Sets(a, value)).0, Erases(a)).0;
            && Modest(h, t, 16) && |t.buckets| == 32 && Contents(t.buckets) == map[] && t.sz == 0
            && forall j :: 0 <= j < 16 ==> !t.buckets[Pos(e, j, 32)].Empty?
  {
    var t0 := NewTable<T>();
    NewTableInv<T>(h);
    SetAll(h, t0, a, value, 0);
    RunWithoutErase(h, Sets(a, value));
    var t1 := Run(h, t0, Sets(a, value)).0;
    RoomLeft(h, t1);
    SixteenInUse(h, t1, a, e, 16);
    EraseAll(h, t1, a, 16);
    var t := Run(h, t1, Erases(a)).0;
    CountIsSize(t.buckets);
    assert Contents(t.buckets).Keys == {};
  }

  lemma RoomLeft<T>(h: Hash, t: Table<T>)
    requires Inv(h, t) && NoDeleted(t.buckets)
    ensures HasEmpty(t.buckets)
  {
    if !HasEmpty(t.buckets) {
      CountFull(t.buckets);
    }
  }

  /** For every hash function: a table of the two homes e and e + 16 modulo 32 is left without an empty bucket, and with
      nothing stored, although it never held more than sixteen keys. */
  lemma TwoRoundsFill<T>(h: Hash, a: seq<string>, b: seq<string>, value: T, e: nat)
    requires Sixteen(h, a, e) && Sixteen(h, b, (e + 16) % 32)
    ensures var t := Run(h, NewTable<T>(), TwoRounds(a, b, value)).0;
            Inv(h, t) && !HasEmpty(t.buckets) && Contents(t.buckets) == map[]
  {
    var t0 := NewTable<T>();
    var t1 := Run(h, t0, Sets(a, value)).0;
    var t2 := Run(h, t1, Erases(a)).0;
    var t3 := Run(h, t2, Sets(b, value)).0;
    var t4 := Run(h, t3, Erases(b)).0;
    RunConcat(h, t0, Sets(a, value), Erases(a));
    RunConcat(h, t0, Sets(a, value) + Erases(a), Sets(b, value));
    RunConcat(h, t0, Sets(a, value) + Erases(a) + Sets(b, value), Erases(b));
    FirstRound(h, a, value, e);
    SecondRound(h, t2, b, value, e);
    EraseAll(h, t3, b, 16);
    RunStuck(h, t3, Erases(b), |b|);
    assert Contents(t4.buckets).Keys == {};
  }

  lemma SecondRound<T>(h: Hash, t: Table<T>, b: seq<string>, value: T, e: nat)
    requires Modest(h, t, 16) && |t.buckets| == 32 && t.sz == 0 && Contents(t.buckets) == map[] && e < 32
    requires Sixteen(h, b, (e + 16) % 32) && forall j :: 0 <= j < 16 ==> !t.buckets[Pos(e, j, 32)].Empty?
    ensures var t' := Run(h, t, Sets(b, value)).0;
            Modest(h, t', 16) && !HasEmpty(t'.buckets) && forall k :: k in Contents(t'.buckets) ==> k in b
  {
    SetAll(h, t, b, value, 0);
    var t' := Run(h, t, Sets(b, value)).0;
    var c := t'.buckets;
    if HasEmpty(c) {
      SixteenInUse(h, t', b, (e + 16) % 32, 16);
      BothHalves(c, e, (e + 16) % 32);
    }
  }

  lemma BothHalves<T>(c: seq<Bucket<T>>, e: nat, e': nat)
    requires |c| == 32 && e < 32 && e' == (e + 16) % 32
    requires forall j :: 0 <= j < 16 ==> !c[Pos(e, j, 32)].Empty? && !c[Pos(e', j, 32)].Empty?
    ensures !HasEmpty(c)
  {
    assert e' == if e < 16 then e + 16 else e - 16;
    forall i | 0 <= i < 32
      ensures !c[i].Empty?
    {
      var d := Dist(e, i, 32);
      if d < 16 {
        assert !c[Pos(e, d, 32)].Empty?;
      } else {
        assert Pos(e', d - 16, 32) == i;
        assert !c[Pos(e', d - 16, 32)].Empty?;
      }
    }
  }
}
