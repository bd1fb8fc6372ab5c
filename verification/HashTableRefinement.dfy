/** The hash table refines a map, over every sequence of operations. */
module HashTableRefinement {
  import opened Wrappers
  import opened Decimal
  import opened HashTableSpec

  datatype Table<T> = Table(buckets: seq<Bucket<T>>, sz: nat)

  datatype Op<T> = Set(key: string, value: T) | Get(key: string) | Erase(key: string) | Exist(key: string)

  datatype Answer<T> = Threw | Done | Value(found: Option<T>) | Flag(b: bool)

  const INITIAL_BUCKETS := 16

  function NewTable<T>(): Table<T> {
    Table(Blank(INITIAL_BUCKETS), 0)
  }

  /** The load factor test sz / bucketsz > 0.75. */
  predicate Overloaded(sz: nat, n: nat) {
    4 * sz > 3 * n
  }

  /** set on a bucket that find returned. */
  function SetAt<T>(h: Hash, t: Table<T>, i: nat, key: string, value: T): Table<T>
    requires i < |t.buckets|
  {
    var b := t.buckets[i := Occupied(key, value)];
    if t.buckets[i].Occupied? then t.(buckets := b)
    else if Overloaded(t.sz + 1, |b|) then Table(Reinsert(h, b, 2 * |b|), t.sz + 1)
    else Table(b, t.sz + 1)
  }

  /** --sz on a size_t. */
  function Decrement(sz: nat): nat {
    if sz > 0 then sz - 1 else U64 - 1
  }

  /** One call on the table; a call whose find gives up throws and changes nothing. */
  function Apply<T>(h: Hash, t: Table<T>, op: Op<T>): (r: (Table<T>, Answer<T>))
    requires |t.buckets| > 0
    ensures |r.0.buckets| > 0
  {
    var r := Find(h, t.buckets, op.key);
    if r.GaveUp? then (t, Threw)
    else
      var x := t.buckets[r.index];
      match op
      case Set(k, v) => (SetAt(h, t, r.index, k, v), Done)
      case Get(_) => (t, Value(if x.Occupied? then Some(x.value) else None))
      case Erase(_) =>
        if x.Occupied? then (Table(t.buckets[r.index := Deleted], Decrement(t.sz)), Flag(true)) else (t, Flag(false))
      case Exist(_) => (t, Flag(x.Occupied?))
  }

  // ---- the map it refines ----

  ghost function MapApply<T>(m: map<string, T>, op: Op<T>): (map<string, T>, Answer<T>) {
    match op
    case Set(k, v) => (m[k := v], Done)
    case Get(k) => (m, Value(if k in m then Some(m[k]) else None))
    case Erase(k) => (m - {k}, Flag(k in m))
    case Exist(k) => (m, Flag(k in m))
  }

  ghost predicate Inv<T>(h: Hash, t: Table<T>) {
    && ValidBuckets(h, t.buckets)
    && t.sz == Count(t.buckets)
    && !Overloaded(t.sz, |t.buckets|)
  }

  lemma NewTableInv<T>(h: Hash)
    ensures Inv(h, NewTable<T>()) && Contents(NewTable<T>().buckets) == map[] && NoDeleted(NewTable<T>().buckets)
  {
    CountNone(Blank<T>(INITIAL_BUCKETS));
  }

  lemma SetAtSpec<T>(h: Hash, t: Table<T>, i: nat, key: string, value: T)
    requires Inv(h, t) && GoodSpot(h, t.buckets, key, i)
    ensures var t' := SetAt(h, t, i, key, value);
            Inv(h, t') && Contents(t'.buckets) == Contents(t.buckets)[key := value]
            && (NoDeleted(t.buckets) ==> NoDeleted(t'.buckets))
  {
    PutSpec(h, t.buckets, key, value, i);
    CountUpdate(t.buckets, i, Occupied(key, value));
    var b := t.buckets[i := Occupied(key, value)];
    ReinsertSpec(h, b, 2 * |b|);
  }

  /** One call: it throws exactly when the key is absent and no bucket is empty, changing nothing; otherwise table
      and answer follow the map. */
  lemma ApplyRefines<T>(h: Hash, t: Table<T>, op: Op<T>)
    requires Inv(h, t)
    ensures var (t', a) := Apply(h, t, op);
            && (a.Threw? <==> op.key !in Contents(t.buckets) && !HasEmpty(t.buckets))
            && (a.Threw? ==> t' == t)
            && Inv(h, t')
            && (!a.Threw? ==> (Contents(t'.buckets), a) == MapApply(Contents(t.buckets), op))
            && (NoDeleted(t.buckets) && !op.Erase? ==> NoDeleted(t'.buckets))
  {
    FindSpec(h, t.buckets, op.key);
    if Find(h, t.buckets, op.key).At? {
      match op
      case Set(k, v) => SetAtSpec(h, t, Find(h, t.buckets, k).index, k, v);
      case Erase(k) => EraseRefines(h, t, k);
      case Get(_) =>
      case Exist(_) =>
    }
  }

  lemma EraseRefines<T>(h: Hash, t: Table<T>, key: string)
    requires Inv(h, t) && Find(h, t.buckets, key).At?
    ensures var (t', a) := Apply(h, t, Erase(key));
            Inv(h, t') && (Contents(t'.buckets), a) == MapApply(Contents(t.buckets), Erase(key))
  {
    FindSpec(h, t.buckets, key);
    var i := Find(h, t.buckets, key).index;
    if t.buckets[i].Occupied? {
      EraseSpec(h, t.buckets, i);
      CountUpdate(t.buckets, i, Deleted);
    } else {
      assert Contents(t.buckets) - {key} == Contents(t.buckets);
    }
  }

  /** Without tombstones the load factor leaves an empty bucket, so no call throws. */
  lemma NeverGivesUp<T>(h: Hash, t: Table<T>, op: Op<T>)
    requires Inv(h, t) && NoDeleted(t.buckets)
    ensures !Apply(h, t, op).1.Threw?
  {
    ApplyRefines(h, t, op);
    if !HasEmpty(t.buckets) {
      CountFull(t.buckets);
    }
  }

  // ---- sequences of calls ----

  function Run<T>(h: Hash, t: Table<T>, ops: seq<Op<T>>): (r: (Table<T>, seq<Answer<T>>))
    requires |t.buckets| > 0
    ensures |r.1| == |ops| && |r.0.buckets| > 0
  {
    if ops == [] then (t, [])
    else
      var (t1, answers) := Run(h, t, ops[..|ops| - 1]);
      var (t2, a) := Apply(h, t1, ops[|ops| - 1]);
      (t2, answers + [a])
  }

  lemma RunSnoc<T>(h: Hash, t: Table<T>, ops: seq<Op<T>>, op: Op<T>)
    requires |t.buckets| > 0
    ensures Run(h, t, ops + [op]).0 == Apply(h, Run(h, t, ops).0, op).0
  {
    assert (ops + [op])[..|ops|] == ops;
  }

  /** The map after the calls that did not throw. */
  ghost function MapRun<T>(m: map<string, T>, ops: seq<Op<T>>, answers: seq<Answer<T>>): map<string, T>
    requires |ops| == |answers|
  {
    if ops == [] then m
    else
      var m1 := MapRun(m, ops[..|ops| - 1], answers[..|ops| - 1]);
      if answers[|ops| - 1].Threw? then m1 else MapApply(m1, ops[|ops| - 1]).0
  }

  /** Over every sequence of calls from an empty table: the table holds exactly what the map holds after the calls
      that returned, and each answer is the map's answer at that point or an exception. */
  lemma {:induction false} RunRefines<T>(h: Hash, ops: seq<Op<T>>, k: nat)
    requires k <= |ops|
    ensures var (t, answers) := Run(h, NewTable<T>(), ops);
            && Inv(h, t) && Contents(t.buckets) == MapRun(map[], ops, answers)
            && (k < |ops| && !answers[k].Threw? ==>
                  answers[k] == MapApply(MapRun(map[], ops[..k], answers[..k]), ops[k]).1)
    decreases |ops|
  {
    if ops == [] {
      NewTableInv<T>(h);
    } else {
      var init, last := ops[..|ops| - 1], ops[|ops| - 1];
      var (t1, answers1) := Run(h, NewTable<T>(), init);
      var (t, answers) := Run(h, NewTable<T>(), ops);
      RunRefines(h, init, if k < |init| then k else 0);
      ApplyRefines(h, t1, last);
      assert answers[..|init|] == answers1;
      if k < |init| {
        assert ops[..k] == init[..k] && answers[..k] == answers1[..k];
      } else if k == |init| {
        assert ops[..k] == init && answers[..k] == answers1;
      }
    }
  }

  /** A run without erase never throws. */
  lemma {:induction false} RunWithoutErase<T>(h: Hash, ops: seq<Op<T>>)
    requires forall i :: 0 <= i < |ops| ==> !ops[i].Erase?
    ensures var (t, answers) := Run(h, NewTable<T>(), ops);
            Inv(h, t) && NoDeleted(t.buckets) && forall i :: 0 <= i < |ops| ==> !answers[i].Threw?
    decreases |ops|
  {
    NewTableInv<T>(h);
    if ops == [] {
    } else {
      var init, last := ops[..|ops| - 1], ops[|ops| - 1];
      RunWithoutErase(h, init);
      var (t1, answers1) := Run(h, NewTable<T>(), init);
      ApplyRefines(h, t1, last);
      NeverGivesUp(h, t1, last);
    }
  }

  // ---- giving up does happen ----

  /** A table without an empty bucket never gets one back: the set of keys can only shrink, and every call on any other
      key throws. */
  lemma StuckForever<T>(h: Hash, t: Table<T>, op: Op<T>)
    requires Inv(h, t) && !HasEmpty(t.buckets)
    ensures var t' := Apply(h, t, op).0;
            Inv(h, t') && !HasEmpty(t'.buckets) && Contents(t'.buckets).Keys <= Contents(t.buckets).Keys
  {
    FindSpec(h, t.buckets, op.key);
    ApplyRefines(h, t, op);
  }

  lemma {:induction false} RunStuck<T>(h: Hash, t: Table<T>, ops: seq<Op<T>>, k: nat)
    requires Inv(h, t) && !HasEmpty(t.buckets)
    ensures var (t', answers) := Run(h, t, ops);
            && Inv(h, t') && !HasEmpty(t'.buckets) && Contents(t'.buckets).Keys <= Contents(t.buckets).Keys
            && (k < |ops| && ops[k].key !in Contents(t.buckets) ==> answers[k].Threw?)
    decreases |ops|
  {
    if ops == [] {
    } else {
      var init := ops[..|ops| - 1];
      var t1 := Run(h, t, init).0;
      RunStuck(h, t, init, k);
      StuckForever(h, t1, ops[|ops| - 1]);
      ApplyRefines(h, t1, ops[|ops| - 1]);
    }
  }

  /** Set and erase each of these keys. */
  function FillAndErase<T>(keys: seq<string>, value: T): (ops: seq<Op<T>>)
    ensures |ops| == 2 * |keys|
  {
    if keys == [] then []
    else FillAndErase(keys[..|keys| - 1], value) + [Set(keys[|keys| - 1], value), Erase(keys[|keys| - 1])]
  }

  /** The home buckets of the keys are the first ones, in order. */
  ghost predicate InOrder(h: Hash, keys: seq<string>) {
    |keys| <= INITIAL_BUCKETS && forall i :: 0 <= i < |keys| ==> Home(h, keys[i], INITIAL_BUCKETS) == i
  }

  ghost predicate TombstonesUpTo<T>(t: Table<T>, n: nat) {
    && |t.buckets| == INITIAL_BUCKETS && t.sz == 0 && n <= INITIAL_BUCKETS
    && (forall i :: 0 <= i < n ==> t.buckets[i].Deleted?)
    && (forall i :: n <= i < INITIAL_BUCKETS ==> t.buckets[i].Empty?)
  }

  lemma {:induction false} TombstonesPileUp<T>(h: Hash, keys: seq<string>, value: T)
    requires InOrder(h, keys)
    ensures TombstonesUpTo(Run(h, NewTable<T>(), FillAndErase(keys, value)).0, |keys|)
    decreases |keys|
  {
    if keys == [] {
    } else {
      var init, key := keys[..|keys| - 1], keys[|keys| - 1];
      TombstonesPileUp(h, init, value);
      var ops := FillAndErase(init, value);
      var ops1 := ops + [Set(key, value)];
      assert ops1[..|ops|] == ops;
      assert FillAndErase(keys, value)[..|ops1|] == ops1;
      ComeAndGo(h, Run(h, NewTable<T>(), ops).0, key, value, |keys|);
    }
  }

  lemma ComeAndGo<T>(h: Hash, t: Table<T>, key: string, value: T, n: nat)
    requires 0 < n <= INITIAL_BUCKETS && TombstonesUpTo(t, n - 1) && Home(h, key, INITIAL_BUCKETS) == n - 1
    ensures TombstonesUpTo(Apply(h, Apply(h, t, Set(key, value)).0, Erase(key)).0, n)
  {
    assert Find(h, t.buckets, key) == At(n - 1);
    var t1 := Apply(h, t, Set(key, value)).0;
    assert t1 == Table(t.buckets[n - 1 := Occupied(key, value)], 1);
    assert Find(h, t1.buckets, key) == At(n - 1);
  }

  /** For every hash function and any sixteen keys with the sixteen home buckets in order: once they have come and gone,
      the table is empty, and throws on every call from then on. */
  lemma EmptyTableThrows<T>(h: Hash, keys: seq<string>, value: T, ops: seq<Op<T>>, k: nat)
    requires InOrder(h, keys) && |keys| == INITIAL_BUCKETS && k < |ops|
    ensures var t := Run(h, NewTable<T>(), FillAndErase(keys, value)).0;
            UniqueKeys(t.buckets) && Contents(t.buckets) == map[] && Run(h, t, ops).1[k].Threw?
  {
    TombstonesPileUp(h, keys, value);
    var t := Run(h, NewTable<T>(), FillAndErase(keys, value)).0;
    RunRefines(h, FillAndErase(keys, value), 0);
    NothingStored(t.buckets);
    RunStuck(h, t, ops, k);
  }

  lemma NothingStored<T>(b: seq<Bucket<T>>)
    requires forall i :: 0 <= i < |b| ==> !b[i].Occupied?
    ensures UniqueKeys(b) && Contents(b) == map[]
  {
  }
}
