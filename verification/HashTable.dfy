/** The HashTable object of src/kvstore/HashTable.cpp: a bucket vector changed in place. */
module HashTableClass {
  import opened Wrappers
  import opened HashTableSpec
  import opened HashTableRefinement

  class HashTable<T> {
    const hash: Hash
    var buckets: seq<Bucket<T>>
    var sz: nat
    var bucketsz: nat

    function View(): Table<T>
      reads this
    {
      Table(buckets, sz)
    }

    ghost predicate Valid()
      reads this
    {
      bucketsz == |buckets| && Inv(hash, View())
    }

    /** The map the table stands for. */
    ghost function Map(): map<string, T>
      requires Valid()
      reads this
    {
      Contents(buckets)
    }

    /** A lookup of this key throws. */
    ghost predicate Stuck(key: string)
      requires Valid()
      reads this
    {
      key !in Map() && !HasEmpty(buckets)
    }

    constructor (hash: Hash)
      ensures Valid() && this.hash == hash && Map() == map[] && View() == NewTable()
    {
      this.hash := hash;
      buckets, sz, bucketsz := Blank(INITIAL_BUCKETS), 0, INITIAL_BUCKETS;
      new;
      NewTableInv<T>(hash);
    }

    /** find: the do-while probe loop. */
    method FindBucket(key: string) returns (r: Found)
      requires bucketsz == |buckets| > 0
      ensures r == Find(hash, buckets, key)
    {
      var raw := Home(hash, key, bucketsz);
      var idx := raw;
      var firstDel: Option<nat> := None;
      ghost var j := 0;
      while true
        invariant j < bucketsz && raw < bucketsz && idx == Pos(raw, j, bucketsz)
        invariant firstDel.Some? ==> firstDel.value < bucketsz
        invariant Find(hash, buckets, key) == Probe(buckets, raw, key, j, firstDel)
        decreases bucketsz - j
      {
        match buckets[idx] {
          case Empty =>
            if firstDel.None? { return At(idx); } else { return At(firstDel.value); }
          case Deleted =>
            if firstDel.None? { firstDel := Some(idx); }
          case Occupied(k, _) =>
            if k == key { return At(idx); }
        }
        idx := Advance(idx, bucketsz);
        j := j + 1;
        if idx == raw { return GaveUp; }
      }
    }

    /** get. */
    method Get(key: string) returns (threw: bool, value: Option<T>)
      requires Valid()
      ensures threw <==> Stuck(key)
      ensures !threw ==> value == if key in Map() then Some(Map()[key]) else None
      ensures Apply(hash, View(), HashTableRefinement.Get(key)).1 == if threw then Threw else Value(value)
    {
      FindSpec(hash, buckets, key);
      var p := FindBucket(key);
      threw, value := p.GaveUp?, None;
      if p.At? && buckets[p.index].Occupied? {
        value := Some(buckets[p.index].value);
      }
    }

    /** set. */
    method Set(key: string, value: T) returns (threw: bool)
      requires Valid()
      modifies this
      ensures Valid()
      ensures threw <==> old(Stuck(key))
      ensures threw ==> Stuck(key)
      ensures View() == Apply(hash, old(View()), HashTableRefinement.Set(key, value)).0
      ensures Map() == if threw then old(Map()) else old(Map())[key := value]
    {
      var p := FindBucket(key);
      FindSpec(hash, buckets, key);
      threw := p.GaveUp?;
      if threw { return; }
      SetAtSpec(hash, View(), p.index, key, value);
      if buckets[p.index].Occupied? {
        buckets := buckets[p.index := Occupied(key, value)];
      } else {
        PutContents(buckets, key, value, p.index);
        buckets := buckets[p.index := Occupied(key, value)];
        sz := sz + 1;
        if Overloaded(sz, bucketsz) {
          Rehash();
        }
      }
    }

    /** rehash: twice the buckets, every pair inserted again. */
    method Rehash()
      requires bucketsz == |buckets| > 0 && UniqueKeys(buckets)
      modifies this`buckets, this`bucketsz
      ensures buckets == Reinsert(hash, old(buckets), 2 * |old(buckets)|) && bucketsz == |buckets|
    {
      var oldbuckets := buckets;
      bucketsz := 2 * bucketsz;
      buckets := Blank(bucketsz);
      assert oldbuckets[..0] == [];
      for i := 0 to |oldbuckets|
        invariant bucketsz == |buckets| == 2 * |oldbuckets|
        invariant buckets == Reinsert(hash, oldbuckets[..i], bucketsz)
      {
        var node := oldbuckets[i];
        assert oldbuckets[..i + 1][..i] == oldbuckets[..i];
        if node.Occupied? {
          var p := FindBucket(node.key);
          NeverLost(oldbuckets, i);
          buckets := buckets[p.index := node];
        }
      }
      assert oldbuckets[..|oldbuckets|] == oldbuckets;
    }

    /** There is always room in the doubled table. */
    lemma NeverLost(src: seq<Bucket<T>>, i: nat)
      requires UniqueKeys(src) && i < |src|
      ensures src[i].Occupied? ==> Find(hash, Reinsert(hash, src[..i], 2 * |src|), src[i].key).At?
    {
      var b := Reinsert(hash, src[..i], 2 * |src|);
      ReinsertSpec(hash, src[..i], 2 * |src|);
      if !HasEmpty(b) {
        CountFull(b);
      }
      if src[i].Occupied? {
        FindSpec(hash, b, src[i].key);
      }
    }

    /** erase. */
    method Erase(key: string) returns (threw: bool, erased: bool)
      requires Valid()
      modifies this
      ensures Valid()
      ensures threw <==> old(Stuck(key))
      ensures threw ==> Stuck(key)
      ensures View() == Apply(hash, old(View()), HashTableRefinement.Erase(key)).0
      ensures Map() == if threw then old(Map()) else old(Map()) - {key}
      ensures !threw ==> erased == (key in old(Map()))
    {
      var t := FindBucket(key);
      FindSpec(hash, buckets, key);
      threw, erased := t.GaveUp?, false;
      if threw { return; }
      EraseRefines(hash, View(), key);
      if buckets[t.index].Occupied? {
        CountUpdate(buckets, t.index, Deleted);
        sz := sz - 1;
        buckets := buckets[t.index := Deleted];
        erased := true;
      }
    }

    /** checkexist. */
    method CheckExist(key: string) returns (threw: bool, b: bool)
      requires Valid()
      ensures threw <==> Stuck(key)
      ensures !threw ==> b == (key in Map())
    {
      FindSpec(hash, buckets, key);
      var p := FindBucket(key);
      threw, b := p.GaveUp?, p.At? && buckets[p.index].Occupied?;
    }
  }
}
