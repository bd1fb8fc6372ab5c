/** Open addressing with tombstones, wrap-around probing and doubling (src/kvstore/HashTable.cpp), as functions on
    the bucket vector. The string hash is a parameter: everything holds for every hash function. */
module HashTableSpec {
  import opened Wrappers

  type Hash = string -> nat

  /** What a bucket shows: the leftover contents of a deleted node are never read. */
  datatype Bucket<T> = Empty | Deleted | Occupied(key: string, value: T)

  /** A position, or the exception thrown after a full turn. */
  datatype Found = GaveUp | At(index: nat)

  // ---- the cyclic probe sequence ----

  function Home(h: Hash, key: string, n: nat): (i: nat)
    requires n > 0
    ensures i < n
  {
    h(key) % n
  }

  /** The j-th position of the probe that starts at home. */
  function Pos(home: nat, j: nat, n: nat): (i: nat)
    requires home < n && j < n
    ensures i < n
  {
    if home + j < n then home + j else home + j - n
  }

  /** How many steps the probe takes from home to i. */
  function Dist(home: nat, i: nat, n: nat): (j: nat)
    requires home < n && i < n
    ensures j < n && Pos(home, j, n) == i
  {
    if home <= i then i - home else i + n - home
  }

  /** One step of the probe: idx++ and idx %= n. */
  function Advance(idx: nat, n: nat): (i: nat)
    requires idx < n
    ensures i == if idx + 1 < n then idx + 1 else 0
  {
    (idx + 1) % n
  }

  /** find, from its j-th step on. */
  function Probe<T>(b: seq<Bucket<T>>, home: nat, key: string, j: nat, firstDel: Option<nat>): (r: Found)
    requires home < |b| && j <= |b| && (firstDel.Some? ==> firstDel.value < |b|)
    ensures r.At? ==> r.index < |b|
    decreases |b| - j
  {
    if j == |b| then GaveUp
    else
      var i := Pos(home, j, |b|);
      match b[i]
      case Empty => At(if firstDel.None? then i else firstDel.value)
      case Deleted => Probe(b, home, key, j + 1, if firstDel.None? then Some(i) else firstDel)
      case Occupied(k, _) => if k == key then At(i) else Probe(b, home, key, j + 1, firstDel)
  }

  function Find<T>(h: Hash, b: seq<Bucket<T>>, key: string): (r: Found)
    requires |b| > 0
    ensures r.At? ==> r.index < |b|
  {
    Probe(b, Home(h, key, |b|), key, 0, None)
  }

  // ---- the invariant ----

  ghost predicate UniqueKeys<T>(b: seq<Bucket<T>>) {
    forall i, j :: 0 <= i < |b| && 0 <= j < |b| && b[i].Occupied? && b[j].Occupied? && b[i].key == b[j].key ==> i == j
  }

  /** The probe for a key meets no empty bucket before position i. */
  ghost predicate Reaches<T>(h: Hash, b: seq<Bucket<T>>, key: string, i: nat)
    requires i < |b|
  {
    var home := Home(h, key, |b|);
    forall j :: 0 <= j < Dist(home, i, |b|) ==> !b[Pos(home, j, |b|)].Empty?
  }

  ghost predicate Chained<T>(h: Hash, b: seq<Bucket<T>>) {
    forall i :: 0 <= i < |b| && b[i].Occupied? ==> Reaches(h, b, b[i].key, i)
  }

  ghost predicate ValidBuckets<T>(h: Hash, b: seq<Bucket<T>>) {
    |b| > 0 && UniqueKeys(b) && Chained(h, b)
  }

  /** The key/value pairs stored. */
  ghost function Contents<T>(b: seq<Bucket<T>>): map<string, T>
    requires UniqueKeys(b)
  {
    map i | 0 <= i < |b| && b[i].Occupied? :: b[i].key := b[i].value
  }

  ghost predicate HasEmpty<T>(b: seq<Bucket<T>>) {
    exists i :: 0 <= i < |b| && b[i].Empty?
  }

  ghost predicate NoDeleted<T>(b: seq<Bucket<T>>) {
    forall i :: 0 <= i < |b| ==> !b[i].Deleted?
  }

  // ---- find ----

  ghost predicate Stored<T>(b: seq<Bucket<T>>, key: string) {
    exists i :: 0 <= i < |b| && b[i].Occupied? && b[i].key == key
  }

  /** The steps before the j-th met neither an empty bucket nor the key, and firstDel is the first tombstone. */
  ghost predicate Scanned<T>(b: seq<Bucket<T>>, home: nat, key: string, j: nat, firstDel: Option<nat>)
    requires home < |b| && j <= |b|
  {
    && (forall k :: 0 <= k < j ==>
          !b[Pos(home, k, |b|)].Empty? && !(b[Pos(home, k, |b|)].Occupied? && b[Pos(home, k, |b|)].key == key))
    && (firstDel.Some? ==> firstDel.value < |b| && b[firstDel.value].Deleted? && Dist(home, firstDel.value, |b|) < j)
  }

  /** What a position returned by find is good for. */
  ghost predicate GoodSpot<T>(h: Hash, b: seq<Bucket<T>>, key: string, i: nat) {
    && i < |b| && Reaches(h, b, key, i)
    && (b[i].Occupied? ==> b[i].key == key)
    && (!b[i].Occupied? ==> !Stored(b, key) && HasEmpty(b))
  }

  /** A key that was not met before an empty bucket on its path is not in the table. */
  lemma NotPastEmpty<T>(h: Hash, b: seq<Bucket<T>>, key: string, j: nat)
    requires ValidBuckets(h, b) && j < |b| && Scanned(b, Home(h, key, |b|), key, j, None)
    requires b[Pos(Home(h, key, |b|), j, |b|)].Empty?
    ensures !Stored(b, key)
  {
    var n, home := |b|, Home(h, key, |b|);
    forall k | 0 <= k < n && b[k].Occupied?
      ensures b[k].key != key
    {
      assert Reaches(h, b, b[k].key, k);
      var d := Dist(home, k, n);
      assert d > j ==> !Reaches(h, b, key, k);
    }
  }

  lemma {:induction false} ProbeSpec<T>(h: Hash, b: seq<Bucket<T>>, key: string, j: nat, firstDel: Option<nat>)
    requires ValidBuckets(h, b) && j <= |b|
    requires Scanned(b, Home(h, key, |b|), key, j, firstDel)
    ensures var r := Probe(b, Home(h, key, |b|), key, j, firstDel);
            if r.GaveUp? then !Stored(b, key) && !HasEmpty(b) else GoodSpot(h, b, key, r.index)
    decreases |b| - j
  {
    var n, home := |b|, Home(h, key, |b|);
    if j == n {
      forall i | 0 <= i < n
        ensures !b[i].Empty? && !(b[i].Occupied? && b[i].key == key)
      {
        assert Pos(home, Dist(home, i, n), n) == i;
      }
    } else {
      var i := Pos(home, j, n);
      assert Dist(home, i, n) == j;
      match b[i]
      case Empty => NotPastEmpty(h, b, key, j);
      case Deleted => ProbeSpec(h, b, key, j + 1, if firstDel.None? then Some(i) else firstDel);
      case Occupied(k, _) =>
        if k != key {
          ProbeSpec(h, b, key, j + 1, firstDel);
        }
    }
  }

  /** find gives up exactly when the key is absent and no bucket is empty; otherwise it returns the key's own bucket,
      or a free one on the key's probe path. */
  lemma FindSpec<T>(h: Hash, b: seq<Bucket<T>>, key: string)
    requires ValidBuckets(h, b)
    ensures Find(h, b, key).GaveUp? <==> key !in Contents(b) && !HasEmpty(b)
    ensures Find(h, b, key).At? ==> GoodSpot(h, b, key, Find(h, b, key).index)
    ensures Find(h, b, key).At? && key in Contents(b) ==> b[Find(h, b, key).index] == Occupied(key, Contents(b)[key])
    ensures Find(h, b, key).At? && key !in Contents(b) ==> !b[Find(h, b, key).index].Occupied?
  {
    ProbeSpec(h, b, key, 0, None);
    StoredIsKey(b, key);
    if Find(h, b, key).At? && b[Find(h, b, key).index].Occupied? {
      assert b[Find(h, b, key).index].key in Contents(b);
    }
  }

  /** All buckets on the path before position i hold pairs. */
  ghost predicate NoneFreeBefore<T>(b: seq<Bucket<T>>, home: nat, i: nat)
    requires home < |b| && i < |b|
  {
    forall j :: 0 <= j < Dist(home, i, |b|) ==> b[Pos(home, j, |b|)].Occupied?
  }

  lemma {:induction false} ProbeFirst<T>(b: seq<Bucket<T>>, home: nat, key: string, j: nat, firstDel: Option<nat>)
    requires home < |b| && j <= |b|
    requires if firstDel.None? then forall k :: 0 <= k < j ==> b[Pos(home, k, |b|)].Occupied?
             else firstDel.value < |b| && NoneFreeBefore(b, home, firstDel.value)
    ensures var r := Probe(b, home, key, j, firstDel);
            r.At? && !b[r.index].Occupied? ==> NoneFreeBefore(b, home, r.index)
    decreases |b| - j
  {
    if j < |b| {
      var i := Pos(home, j, |b|);
      assert Dist(home, i, |b|) == j;
      match b[i]
      case Empty =>
      case Deleted => ProbeFirst(b, home, key, j + 1, if firstDel.None? then Some(i) else firstDel);
      case Occupied(k, _) => if k != key { ProbeFirst(b, home, key, j + 1, firstDel); }
    }
  }

  /** For a new key it is the first free one, tombstones included. */
  lemma FirstFree<T>(h: Hash, b: seq<Bucket<T>>, key: string)
    requires ValidBuckets(h, b) && key !in Contents(b) && HasEmpty(b)
    ensures Find(h, b, key).At?
    ensures var i := Find(h, b, key).index; !b[i].Occupied? && NoneFreeBefore(b, Home(h, key, |b|), i)
  {
    FindSpec(h, b, key);
    ProbeFirst(b, Home(h, key, |b|), key, 0, None);
  }

  lemma StoredIsKey<T>(b: seq<Bucket<T>>, key: string)
    requires UniqueKeys(b)
    ensures Stored(b, key) <==> key in Contents(b)
  {
  }

  // ---- writing a bucket ----

  /** A bucket that does not become empty breaks no probe chain. */
  lemma UpdateChained<T>(h: Hash, b: seq<Bucket<T>>, i: nat, x: Bucket<T>)
    requires Chained(h, b) && i < |b| && !x.Empty? && (x.Occupied? ==> Reaches(h, b, x.key, i))
    ensures Chained(h, b[i := x])
  {
    var b' := b[i := x];
    forall k | 0 <= k < |b'| && b'[k].Occupied?
      ensures Reaches(h, b', b'[k].key, k)
    {
      assert Reaches(h, b, b'[k].key, k);
    }
  }

  /** Writing a pair where find said keeps the table sound and is a map update. */
  lemma PutSpec<T>(h: Hash, b: seq<Bucket<T>>, key: string, value: T, i: nat)
    requires ValidBuckets(h, b) && GoodSpot(h, b, key, i)
    ensures ValidBuckets(h, b[i := Occupied(key, value)])
    ensures Contents(b[i := Occupied(key, value)]) == Contents(b)[key := value]
  {
    UpdateChained(h, b, i, Occupied(key, value));
    PutContents(b, key, value, i);
  }

  lemma PutContents<T>(b: seq<Bucket<T>>, key: string, value: T, i: nat)
    requires UniqueKeys(b) && i < |b| && (if b[i].Occupied? then b[i].key == key else !Stored(b, key))
    ensures UniqueKeys(b[i := Occupied(key, value)])
    ensures Contents(b[i := Occupied(key, value)]) == Contents(b)[key := value]
  {
    var b', m := b[i := Occupied(key, value)], Contents(b)[key := value];
    forall k | k in m
      ensures Stored(b', k)
    {
      if k == key {
        assert b'[i].key == key;
      } else {
        var j :| 0 <= j < |b| && b[j].Occupied? && b[j].key == k;
        assert b'[j] == b[j];
      }
    }
    SameMap(b', m);
  }

  /** Turning a stored pair into a tombstone keeps the table sound and removes the key. */
  lemma EraseSpec<T>(h: Hash, b: seq<Bucket<T>>, i: nat)
    requires ValidBuckets(h, b) && i < |b| && b[i].Occupied?
    ensures ValidBuckets(h, b[i := Deleted])
    ensures Contents(b[i := Deleted]) == Contents(b) - {b[i].key}
  {
    UpdateChained(h, b, i, Deleted);
    EraseContents(b, i);
  }

  lemma EraseContents<T>(b: seq<Bucket<T>>, i: nat)
    requires UniqueKeys(b) && i < |b| && b[i].Occupied?
    ensures UniqueKeys(b[i := Deleted])
    ensures Contents(b[i := Deleted]) == Contents(b) - {b[i].key}
  {
    var b', m := b[i := Deleted], Contents(b) - {b[i].key};
    forall k | k in m
      ensures Stored(b', k)
    {
      var j :| 0 <= j < |b| && b[j].Occupied? && b[j].key == k;
      assert b'[j] == b[j];
    }
    SameMap(b', m);
  }

  /** A map that has exactly the stored pairs is the contents. */
  lemma SameMap<T>(b: seq<Bucket<T>>, m: map<string, T>)
    requires UniqueKeys(b)
    requires forall k :: 0 <= k < |b| && b[k].Occupied? ==> b[k].key in m && m[b[k].key] == b[k].value
    requires forall key :: key in m ==> Stored(b, key)
    ensures Contents(b) == m
  {
    forall key | key in m
      ensures key in Contents(b)
    {
      StoredIsKey(b, key);
    }
  }

  // ---- counting ----

  function Count<T>(b: seq<Bucket<T>>): (c: nat)
    ensures c <= |b|
  {
    if b == [] then 0 else Count(b[..|b| - 1]) + if b[|b| - 1].Occupied? then 1 else 0
  }

  lemma {:induction false} CountUpdate<T>(b: seq<Bucket<T>>, i: nat, x: Bucket<T>)
    requires i < |b|
    ensures Count(b[i := x]) + (if b[i].Occupied? then 1 else 0) == Count(b) + (if x.Occupied? then 1 else 0)
    decreases |b|
  {
    var b' := b[i := x];
    if i == |b| - 1 {
      assert b'[..|b| - 1] == b[..|b| - 1];
    } else {
      CountUpdate(b[..|b| - 1], i, x);
      assert b'[..|b| - 1] == b[..|b| - 1][i := x];
    }
  }

  lemma {:induction false} CountFull<T>(b: seq<Bucket<T>>)
    requires NoDeleted(b) && !HasEmpty(b)
    ensures Count(b) == |b|
  {
    if b == [] {
    } else {
      var init := b[..|b| - 1];
      assert forall i :: 0 <= i < |init| ==> !b[i].Empty?;
      CountFull(init);
      assert !b[|b| - 1].Empty? && !b[|b| - 1].Deleted?;
    }
  }

  lemma {:induction false} CountNone<T>(b: seq<Bucket<T>>)
    requires forall i :: 0 <= i < |b| ==> !b[i].Occupied?
    ensures Count(b) == 0
  {
    if b == [] {
    } else {
      CountNone(b[..|b| - 1]);
    }
  }

  // ---- doubling ----

  function Blank<T>(n: nat): seq<Bucket<T>> {
    seq(n, _ => Empty)
  }

  /** The rehash loop over the old buckets. */
  function Reinsert<T>(h: Hash, src: seq<Bucket<T>>, n: nat): (b: seq<Bucket<T>>)
    requires n > 0
    ensures |b| == n
    decreases |src|
  {
    if src == [] then Blank(n)
    else
      var b := Reinsert(h, src[..|src| - 1], n);
      var x := src[|src| - 1];
      if !x.Occupied? then b
      else
        var r := Find(h, b, x.key);
        if r.At? then b[r.index := x] else b
  }

  lemma UniqueInit<T>(b: seq<Bucket<T>>)
    requires b != [] && UniqueKeys(b)
    ensures UniqueKeys(b[..|b| - 1])
    ensures var x := b[|b| - 1];
            Contents(b) == if x.Occupied? then Contents(b[..|b| - 1])[x.key := x.value] else Contents(b[..|b| - 1])
    ensures var x := b[|b| - 1]; x.Occupied? ==> x.key !in Contents(b[..|b| - 1])
  {
    var init, x := b[..|b| - 1], b[|b| - 1];
    var m := if x.Occupied? then Contents(init)[x.key := x.value] else Contents(init);
    forall key | key in m
      ensures Stored(b, key)
    {
      if key in Contents(init) {
        var i :| 0 <= i < |init| && init[i].Occupied? && init[i].key == key;
        assert b[i] == init[i];
      } else {
        assert b[|b| - 1].key == key;
      }
    }
    assert forall k :: 0 <= k < |init| ==> init[k] == b[k];
    SameMap(b, m);
  }

  /** Doubling moves every pair to a sound table without tombstones, and never fails to find room. */
  lemma {:induction false} ReinsertSpec<T>(h: Hash, src: seq<Bucket<T>>, n: nat)
    requires UniqueKeys(src) && |src| < n
    ensures var b := Reinsert(h, src, n);
            ValidBuckets(h, b) && NoDeleted(b) && Count(b) == Count(src) && Contents(b) == Contents(src)
    decreases |src|
  {
    if src == [] {
      CountNone(Blank<T>(n));
    } else {
      var init, x := src[..|src| - 1], src[|src| - 1];
      UniqueInit(src);
      ReinsertSpec(h, init, n);
      var b := Reinsert(h, init, n);
      if x.Occupied? {
        if !HasEmpty(b) {
          CountFull(b);
        }
        FindSpec(h, b, x.key);
        var i := Find(h, b, x.key).index;
        PutSpec(h, b, x.key, x.value, i);
        CountUpdate(b, i, x);
      }
    }
  }

  /** Where a pair is. */
  lemma PairAt<T>(b: seq<Bucket<T>>, key: string, value: T) returns (i: nat)
    requires UniqueKeys(b) && key in Contents(b) && Contents(b)[key] == value
    ensures i < |b| && b[i] == Occupied(key, value)
  {
    StoredIsKey(b, key);
    i :| 0 <= i < |b| && b[i].Occupied? && b[i].key == key;
  }

  /** The pair that the loop comes to last, and an earlier one with the same home, which lies nearer to it. */
  lemma LastGoesBehind<T>(h: Hash, b: seq<Bucket<T>>, key: string, p: nat)
    requires ValidBuckets(h, b) && NoDeleted(b) && HasEmpty(b) && key !in Contents(b)
    requires p < |b| && b[p].Occupied? && Home(h, b[p].key, |b|) == Home(h, key, |b|)
    ensures Find(h, b, key).At?
    ensures var q := Find(h, b, key).index;
            q != p && b[q].Empty? && Dist(Home(h, key, |b|), p, |b|) < Dist(Home(h, key, |b|), q, |b|)
  {
    FindSpec(h, b, key);
    var home, q := Home(h, key, |b|), Find(h, b, key).index;
    assert Reaches(h, b, b[p].key, p);
    assert Pos(home, Dist(home, q, |b|), |b|) == q && Pos(home, Dist(home, p, |b|), |b|) == p;
  }

  /** One turn of the loop: a pair goes to an empty bucket, so everything else stays where it is. */
  lemma ReinsertTurn<T>(h: Hash, src: seq<Bucket<T>>, n: nat)
    requires UniqueKeys(src) && |src| < n && src != [] && src[|src| - 1].Occupied?
    ensures var b, x := Reinsert(h, src[..|src| - 1], n), src[|src| - 1];
            && UniqueKeys(src[..|src| - 1]) && ValidBuckets(h, b) && NoDeleted(b) && HasEmpty(b)
            && Contents(b) == Contents(src[..|src| - 1]) && x.key !in Contents(b)
            && Find(h, b, x.key).At? && !b[Find(h, b, x.key).index].Occupied?
            && Reinsert(h, src, n) == b[Find(h, b, x.key).index := x]
  {
    var init, x := src[..|src| - 1], src[|src| - 1];
    var b := Reinsert(h, init, n);
    UniqueInit(src);
    ReinsertSpec(h, init, n);
    if !HasEmpty(b) {
      CountFull(b);
    }
    FindSpec(h, b, x.key);
  }

  /** Doubling goes through the old buckets in order: of two pairs with one home in the new table, the one from the
      earlier bucket comes to lie nearer to it. */
  lemma {:induction false} ReinsertKeepsOrder<T>(h: Hash, src: seq<Bucket<T>>, n: nat, i: nat, j: nat)
    returns (p: nat, q: nat)
    requires UniqueKeys(src) && |src| < n && i < j < |src| && src[i].Occupied? && src[j].Occupied?
    requires Home(h, src[i].key, n) == Home(h, src[j].key, n)
    ensures p < n && q < n && Reinsert(h, src, n)[p] == src[i] && Reinsert(h, src, n)[q] == src[j]
    ensures Dist(Home(h, src[i].key, n), p, n) < Dist(Home(h, src[i].key, n), q, n)
    decreases |src|
  {
    var init, x := src[..|src| - 1], src[|src| - 1];
    if x.Occupied? {
      ReinsertTurn(h, src, n);
    }
    if j < |init| {
      p, q := ReinsertKeepsOrder(h, init, n, i, j);
    } else {
      p := StoredBefore(h, src, n, i);
      LastGoesBehind(h, Reinsert(h, init, n), x.key, p);
      q := Find(h, Reinsert(h, init, n), x.key).index;
    }
  }

  lemma StoredBefore<T>(h: Hash, src: seq<Bucket<T>>, n: nat, i: nat) returns (p: nat)
    requires UniqueKeys(src) && |src| < n && i < |src| - 1 && src[i].Occupied? && src[|src| - 1].Occupied?
    ensures p < n && Reinsert(h, src[..|src| - 1], n)[p] == src[i]
  {
    var init := src[..|src| - 1];
    ReinsertTurn(h, src, n);
    assert init[i] == src[i];
    p := PairAt(Reinsert(h, init, n), src[i].key, src[i].value);
  }
}
