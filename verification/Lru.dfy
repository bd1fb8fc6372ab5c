/** The LRU object of src/kvstore/LRU.cpp: a linked list of keys and a hash table from each key to its list node.
    A list node has an identity, as a std::list iterator has. */
module LruClass {
  import opened Wrappers
  import opened HashTableSpec
  import opened HashTableRefinement
  import opened HashTableClass
  import opened LruSpec

  datatype ListNode = ListNode(id: nat, key: string)

  function KeysOf(lst: seq<ListNode>): (s: seq<string>)
    ensures |s| == |lst| && forall i :: 0 <= i < |lst| ==> s[i] == lst[i].key
  {
    seq(|lst|, i requires 0 <= i < |lst| => lst[i].key)
  }

  /** Where the node with this identity is; the length when it is gone. */
  function IndexOfNode(lst: seq<ListNode>, id: nat): (i: nat)
    ensures i <= |lst| && (i < |lst| ==> lst[i].id == id)
  {
    if lst == [] || lst[0].id == id then 0 else 1 + IndexOfNode(lst[1..], id)
  }

  /** list::erase. */
  function EraseNode(lst: seq<ListNode>, id: nat): seq<ListNode> {
    var i := IndexOfNode(lst, id);
    if i < |lst| then lst[..i] + lst[i + 1..] else lst
  }

  ghost predicate HasNode(lst: seq<ListNode>, k: string) {
    exists i :: 0 <= i < |lst| && lst[i].key == k
  }

  /** List and index hold the same keys without duplicates, and each index entry is the identity of its key's node. */
  ghost predicate Linked(lst: seq<ListNode>, m: map<string, nat>, nextId: nat) {
    && (forall i, j :: 0 <= i < j < |lst| ==> lst[i].key != lst[j].key && lst[i].id != lst[j].id)
    && (forall i :: 0 <= i < |lst| ==> lst[i].id < nextId && lst[i].key in m && m[lst[i].key] == lst[i].id)
    && (forall k {:trigger HasNode(lst, k)} :: k in m ==> HasNode(lst, k))
  }

  lemma {:induction false} IndexFound(lst: seq<ListNode>, i: nat)
    requires i < |lst| && forall j, k :: 0 <= j < k < |lst| ==> lst[j].id != lst[k].id
    ensures IndexOfNode(lst, lst[i].id) == i
  {
    if i == 0 {
    } else {
      IndexFound(lst[1..], i - 1);
    }
  }

  function RemoveAt(lst: seq<ListNode>, i: nat): (r: seq<ListNode>)
    requires i < |lst|
    ensures |r| == |lst| - 1
    ensures forall j :: 0 <= j < i ==> r[j] == lst[j]
    ensures forall j :: i <= j < |r| ==> r[j] == lst[j + 1]
  {
    lst[..i] + lst[i + 1..]
  }

  lemma RemoveAtLinked(lst: seq<ListNode>, m: map<string, nat>, nextId: nat, i: nat)
    requires Linked(lst, m, nextId) && i < |lst|
    ensures Linked(RemoveAt(lst, i), m - {lst[i].key}, nextId)
  {
    var r, x := RemoveAt(lst, i), lst[i].key;
    forall k | k in m - {x}
      ensures HasNode(r, k)
    {
      assert HasNode(lst, k);
      var j :| 0 <= j < |lst| && lst[j].key == k;
      assert r[if j < i then j else j - 1].key == k;
    }
  }

  lemma RemoveAtKeys(lst: seq<ListNode>, m: map<string, nat>, nextId: nat, i: nat)
    requires Linked(lst, m, nextId) && i < |lst|
    ensures KeysOf(RemoveAt(lst, i)) == Without(KeysOf(lst), lst[i].key)
  {
    WithoutAt(KeysOf(lst), i);
    assert KeysOf(RemoveAt(lst, i)) == KeysOf(lst)[..i] + KeysOf(lst)[i + 1..];
  }

  /** Erasing a key's node through its index entry. */
  lemma EraseLinked(lst: seq<ListNode>, m: map<string, nat>, nextId: nat, x: string)
    requires Linked(lst, m, nextId) && x in m
    ensures Linked(EraseNode(lst, m[x]), m - {x}, nextId)
    ensures KeysOf(EraseNode(lst, m[x])) == Without(KeysOf(lst), x)
    ensures |EraseNode(lst, m[x])| == |lst| - 1
  {
    var i := NodeOf(lst, m, nextId, x);
    RemoveAtLinked(lst, m, nextId, i);
    RemoveAtKeys(lst, m, nextId, i);
  }

  /** The index entry of a key leads to the key's node. */
  lemma NodeOf(lst: seq<ListNode>, m: map<string, nat>, nextId: nat, x: string) returns (i: nat)
    requires Linked(lst, m, nextId) && x in m
    ensures i < |lst| && lst[i].key == x && EraseNode(lst, m[x]) == RemoveAt(lst, i)
  {
    assert HasNode(lst, x);
    i :| 0 <= i < |lst| && lst[i].key == x;
    IndexFound(lst, i);
  }

  lemma AppendLinked(lst: seq<ListNode>, m: map<string, nat>, nextId: nat, x: string)
    requires Linked(lst, m, nextId) && x !in m
    ensures Linked(lst + [ListNode(nextId, x)], m[x := nextId], nextId + 1)
    ensures KeysOf(lst + [ListNode(nextId, x)]) == KeysOf(lst) + [x]
  {
    var r := lst + [ListNode(nextId, x)];
    forall k | k in m[x := nextId]
      ensures HasNode(r, k)
    {
      if k == x {
        assert r[|lst|].key == x;
      } else {
        assert HasNode(lst, k);
        var j :| 0 <= j < |lst| && lst[j].key == k;
        assert r[j].key == k;
      }
    }
  }

  /** Erase and push again: the key moves to the back with a new node. */
  lemma RefreshLinked(lst: seq<ListNode>, m: map<string, nat>, nextId: nat, x: string)
    requires Linked(lst, m, nextId) && x in m
    ensures var r := EraseNode(lst, m[x]) + [ListNode(nextId, x)];
            Linked(r, m[x := nextId], nextId + 1) && KeysOf(r) == Without(KeysOf(lst), x) + [x] && |r| == |lst|
  {
    EraseLinked(lst, m, nextId, x);
    AppendLinked(EraseNode(lst, m[x]), m - {x}, nextId, x);
    assert (m - {x})[x := nextId] == m[x := nextId];
  }

  lemma FrontLinked(lst: seq<ListNode>, m: map<string, nat>, nextId: nat)
    requires Linked(lst, m, nextId) && lst != []
    ensures Linked(lst[1..], m - {lst[0].key}, nextId) && lst[0].key in m
    ensures KeysOf(lst[1..]) == KeysOf(lst)[1..]
  {
    RemoveAtLinked(lst, m, nextId, 0);
    assert RemoveAt(lst, 0) == lst[1..];
  }

  lemma LinkedKeys(lst: seq<ListNode>, m: map<string, nat>, nextId: nat, x: string)
    requires Linked(lst, m, nextId)
    ensures x in m <==> x in KeysOf(lst)
  {
    if x in m {
      assert HasNode(lst, x);
      var i :| 0 <= i < |lst| && lst[i].key == x;
      assert KeysOf(lst)[i] == x;
    }
  }

  // ---- the object's state and what each call makes of it ----

  datatype LruState = LruState(lst: seq<ListNode>, nextId: nat, index: Table<nat>)

  /** The index can be probed. */
  predicate Usable(s: LruState) {
    |s.index.buckets| > 0
  }

  /** The keys, least recently touched first. */
  function Order(s: LruState): seq<string> {
    KeysOf(s.lst)
  }

  /** Erase the node, push the key again, and point the index at the new node. */
  function Refreshed(h: Hash, s: LruState, x: string, id: nat): (r: LruState)
    requires Usable(s)
    ensures Usable(r)
  {
    LruState(EraseNode(s.lst, id) + [ListNode(s.nextId, x)], s.nextId + 1,
             Apply(h, s.index, HashTableRefinement.Set(x, s.nextId)).0)
  }

  /** access; the flag is the exception. */
  function AccessState(h: Hash, s: LruState, x: string): (r: (LruState, bool))
    requires Usable(s)
    ensures Usable(r.0)
  {
    var it := Apply(h, s.index, Get(x)).1;
    if it.Threw? then (s, true)
    else if it.Value? && it.found.Some? then (Refreshed(h, s, x, it.found.value), false)
    else (s, false)
  }

  /** Add a new key, and evict the oldest when there are too many. */
  function Grown(h: Hash, s: LruState, x: string, max: nat): (r: (LruState, Option<string>))
    requires Usable(s)
    ensures Usable(r.0)
  {
    var lst, index := s.lst + [ListNode(s.nextId, x)], Apply(h, s.index, HashTableRefinement.Set(x, s.nextId)).0;
    if |lst| <= max then (LruState(lst, s.nextId + 1, index), None)
    else (LruState(lst[1..], s.nextId + 1, Apply(h, index, Erase(lst[0].key)).0), Some(lst[0].key))
  }

  /** set. */
  function SetState(h: Hash, s: LruState, x: string, max: nat): (r: (LruState, bool, Option<string>))
    requires Usable(s)
    ensures Usable(r.0)
  {
    var it := Apply(h, s.index, Get(x)).1;
    if it.Threw? then (s, true, None)
    else if it.Value? && it.found.Some? then (Refreshed(h, s, x, it.found.value), false, None)
    else
      var (r, evicted) := Grown(h, s, x, max);
      (r, false, evicted)
  }

  /** Erase the node and the index entry. */
  function Removed(h: Hash, s: LruState, x: string, id: nat): (r: LruState)
    requires Usable(s)
    ensures Usable(r)
  {
    LruState(EraseNode(s.lst, id), s.nextId, Apply(h, s.index, Erase(x)).0)
  }

  /** del. */
  function DelState(h: Hash, s: LruState, x: string): (r: (LruState, bool))
    requires Usable(s)
    ensures Usable(r.0)
  {
    var it := Apply(h, s.index, Get(x)).1;
    if it.Threw? then (s, true)
    else if it.Value? && it.found.Some? then (Removed(h, s, x, it.found.value), false)
    else (s, false)
  }

  ghost predicate LruOk(h: Hash, s: LruState, max: nat) {
    Inv(h, s.index) && Linked(s.lst, Contents(s.index.buckets), s.nextId) && |s.lst| <= max
  }

  /** A lookup in the index throws on this key. */
  ghost predicate IndexStuck(s: LruState, x: string)
    requires UniqueKeys(s.index.buckets)
  {
    x !in Contents(s.index.buckets) && !HasEmpty(s.index.buckets)
  }

  lemma RefreshedOk(h: Hash, s: LruState, x: string, max: nat)
    requires LruOk(h, s, max) && x in Contents(s.index.buckets)
    ensures var r := Refreshed(h, s, x, Contents(s.index.buckets)[x]);
            LruOk(h, r, max) && x in Order(s) && Order(r) == Without(Order(s), x) + [x]
  {
    RefreshLinked(s.lst, Contents(s.index.buckets), s.nextId, x);
    LinkedKeys(s.lst, Contents(s.index.buckets), s.nextId, x);
    ApplyRefines(h, s.index, HashTableRefinement.Set(x, s.nextId));
  }

  /** What the index answers about a key. */
  lemma IndexGet(h: Hash, s: LruState, x: string, max: nat)
    requires LruOk(h, s, max)
    ensures var m := Contents(s.index.buckets);
            Apply(h, s.index, Get(x)).1 == if IndexStuck(s, x) then Threw
                                           else Value(if x in m then Some(m[x]) else None)
  {
    ApplyRefines(h, s.index, Get(x));
  }

  lemma AccessOk(h: Hash, s: LruState, x: string, max: nat)
    requires LruOk(h, s, max)
    ensures var (r, threw) := AccessState(h, s, x);
            && LruOk(h, r, max) && (threw <==> IndexStuck(s, x)) && (threw ==> r == s)
            && Order(r) == if threw then Order(s) else Touched(Order(s), x)
  {
    IndexGet(h, s, x, max);
    LinkedKeys(s.lst, Contents(s.index.buckets), s.nextId, x);
    if x in Contents(s.index.buckets) {
      RefreshedOk(h, s, x, max);
    }
  }

  lemma SetOk(h: Hash, s: LruState, x: string, max: nat)
    requires LruOk(h, s, max)
    ensures var (r, threw, evicted) := SetState(h, s, x, max);
            && LruOk(h, r, max) && (threw <==> IndexStuck(s, x)) && (threw ==> r == s)
            && (!threw ==> (Order(r), evicted) == Inserted(Order(s), x, max))
  {
    IndexGet(h, s, x, max);
    LinkedKeys(s.lst, Contents(s.index.buckets), s.nextId, x);
    if x in Contents(s.index.buckets) {
      RefreshedOk(h, s, x, max);
    } else if !IndexStuck(s, x) {
      GrownOk(h, s, x, max);
    }
  }

  lemma GrownOk(h: Hash, s: LruState, x: string, max: nat)
    requires LruOk(h, s, max) && x !in Contents(s.index.buckets) && !IndexStuck(s, x)
    ensures var (r, evicted) := Grown(h, s, x, max);
            LruOk(h, r, max) && x !in Order(s) && (Order(r), evicted) == Inserted(Order(s), x, max)
  {
    var lst, index := s.lst + [ListNode(s.nextId, x)], Apply(h, s.index, HashTableRefinement.Set(x, s.nextId)).0;
    LinkedKeys(s.lst, Contents(s.index.buckets), s.nextId, x);
    AppendLinked(s.lst, Contents(s.index.buckets), s.nextId, x);
    ApplyRefines(h, s.index, HashTableRefinement.Set(x, s.nextId));
    if |lst| > max {
      FrontLinked(lst, Contents(index.buckets), s.nextId + 1);
      ApplyRefines(h, index, Erase(lst[0].key));
    }
  }

  lemma DelOk(h: Hash, s: LruState, x: string, max: nat)
    requires LruOk(h, s, max)
    ensures var (r, threw) := DelState(h, s, x);
            && LruOk(h, r, max) && (threw <==> IndexStuck(s, x)) && (threw ==> r == s && x !in Order(s))
            && Order(r) == if threw then Order(s) else Without(Order(s), x)
  {
    IndexGet(h, s, x, max);
    LinkedKeys(s.lst, Contents(s.index.buckets), s.nextId, x);
    if x in Contents(s.index.buckets) {
      RemovedOk(h, s, x, max);
    } else {
      WithoutAbsent(Order(s), x);
    }
  }

  lemma RemovedOk(h: Hash, s: LruState, x: string, max: nat)
    requires LruOk(h, s, max) && x in Contents(s.index.buckets)
    ensures var r := Removed(h, s, x, Contents(s.index.buckets)[x]);
            LruOk(h, r, max) && Order(r) == Without(Order(s), x)
  {
    EraseLinked(s.lst, Contents(s.index.buckets), s.nextId, x);
    ApplyRefines(h, s.index, Erase(x));
  }

  // ---- sequences of calls ----

  /** One call: the new state, and the call as it went. */
  function Invoke(h: Hash, s: LruState, op: LruOp, max: nat): (r: (LruState, LruOp))
    requires Usable(s)
    ensures Usable(r.0)
  {
    var (s', threw) := match op
                       case Access(x) => AccessState(h, s, x)
                       case Set(x) => (SetState(h, s, x, max).0, SetState(h, s, x, max).1)
                       case Del(x) => DelState(h, s, x)
                       case Failed(_) => (s, true);
    (s', if threw then Failed(op.key) else op)
  }

  function Calls(h: Hash, ops: seq<LruOp>, max: nat): (r: (LruState, seq<LruOp>))
    ensures Usable(r.0)
  {
    if ops == [] then (LruState([], 0, NewTable()), [])
    else
      var (s, went) := Calls(h, ops[..|ops| - 1], max);
      var (s', op) := Invoke(h, s, ops[|ops| - 1], max);
      (s', went + [op])
  }

  lemma InvokeOk(h: Hash, s: LruState, op: LruOp, max: nat)
    requires LruOk(h, s, max)
    ensures var (r, went) := Invoke(h, s, op, max);
            LruOk(h, r, max) && Order(r) == Step(Order(s), went, max).0
  {
    match op
    case Access(x) => AccessOk(h, s, x, max);
    case Set(x) => SetOk(h, s, x, max);
    case Del(x) => DelOk(h, s, x, max);
    case Failed(_) =>
  }

  /** Over every sequence of calls on a new LRU, throwing ones included: list and index stay linked, and the list is in
      the order of last touch. */
  lemma {:induction false} CallsByRecency(h: Hash, ops: seq<LruOp>, max: nat)
    ensures var (s, went) := Calls(h, ops, max);
            LruOk(h, s, max) && Order(s) == LruSpec.Run(went, max) && ByRecency(Order(s), went) && Unique(Order(s))
    decreases |ops|
  {
    var (s, went) := Calls(h, ops, max);
    if ops == [] {
      NewTableInv<nat>(h);
    } else {
      var init := ops[..|ops| - 1];
      CallsByRecency(h, init, max);
      InvokeOk(h, Calls(h, init, max).0, ops[|ops| - 1], max);
      assert went[..|went| - 1] == Calls(h, init, max).1;
    }
    RunByRecency(went, max);
  }

  // ---- the object ----

  class LRU {
    const maxsz: nat
    const hashFn: Hash
    var lst: seq<ListNode>
    var nextId: nat
    var hash: HashTable<nat>

    function View(): LruState
      reads this, hash
    {
      LruState(lst, nextId, hash.View())
    }

    ghost predicate Valid()
      reads this, hash
    {
      hash.Valid() && hash.hash == hashFn && LruOk(hashFn, View(), maxsz)
    }

    /** The keys, least recently touched first. */
    function Order(): seq<string>
      reads this
    {
      KeysOf(lst)
    }

    constructor (maxsz: nat, hashFn: Hash)
      ensures Valid() && fresh(hash) && this.maxsz == maxsz && this.hashFn == hashFn && Order() == []
      ensures View() == LruState([], 0, NewTable())
    {
      this.maxsz, this.hashFn := maxsz, hashFn;
      lst, nextId := [], 0;
      hash := new HashTable(hashFn);
    }

    /** The call throws at its first lookup, before anything changes. */
    ghost predicate Stuck(x: string)
      requires Valid()
      reads this, hash
    {
      IndexStuck(View(), x)
    }

    /** access. */
    method Access(x: string) returns (threw: bool)
      requires Valid()
      modifies this, hash
      ensures Valid() && hash == old(hash) && (View(), threw) == AccessState(hashFn, old(View()), x)
      ensures threw <==> old(Stuck(x))
      ensures Order() == if threw then old(Order()) else Touched(old(Order()), x)
    {
      AccessOk(hashFn, View(), x, maxsz);
      var it;
      threw, it := hash.Get(x);
      if threw || it.None? { return; }
      Refresh(x, it.value);
    }

    /** Erase the node, push the key again, and point the index at the new node. */
    method Refresh(x: string, id: nat)
      requires hash.Valid() && hash.hash == hashFn
      modifies this, hash
      ensures hash.Valid() && hash == old(hash) && View() == Refreshed(hashFn, old(View()), x, id)
    {
      lst := EraseNode(lst, id);
      lst := lst + [ListNode(nextId, x)];
      var threw := hash.Set(x, nextId);
      nextId := nextId + 1;
    }

    /** set: refresh a known key, or add it and evict the oldest when there are too many. */
    method Set(x: string) returns (threw: bool, evicted: Option<string>)
      requires Valid()
      modifies this, hash
      ensures Valid() && hash == old(hash) && (View(), threw, evicted) == SetState(hashFn, old(View()), x, maxsz)
      ensures threw <==> old(Stuck(x))
      ensures threw ==> Order() == old(Order())
      ensures !threw ==> (Order(), evicted) == Inserted(old(Order()), x, maxsz)
    {
      SetOk(hashFn, View(), x, maxsz);
      var it;
      threw, it := hash.Get(x);
      evicted := None;
      if threw { return; }
      if it.Some? {
        Refresh(x, it.value);
      } else {
        evicted := Insert(x);
      }
    }

    /** The second half of set. */
    method Insert(x: string) returns (evicted: Option<string>)
      requires hash.Valid() && hash.hash == hashFn
      modifies this, hash
      ensures hash.Valid() && hash == old(hash) && (View(), evicted) == Grown(hashFn, old(View()), x, maxsz)
    {
      evicted := None;
      lst := lst + [ListNode(nextId, x)];
      var t := hash.Set(x, nextId);
      nextId := nextId + 1;
      if |lst| > maxsz {
        var oldest := lst[0].key;
        lst := lst[1..];
        var t', e := hash.Erase(oldest);
        evicted := Some(oldest);
      }
    }

    /** del. */
    method Del(x: string) returns (threw: bool)
      requires Valid()
      modifies this, hash
      ensures Valid() && hash == old(hash) && (View(), threw) == DelState(hashFn, old(View()), x)
      ensures threw <==> old(Stuck(x))
      ensures Order() == if threw then old(Order()) else Without(old(Order()), x)
    {
      DelOk(hashFn, View(), x, maxsz);
      var it;
      threw, it := hash.Get(x);
      if threw || it.None? { return; }
      Remove(x, it.value);
    }

    method Remove(x: string, id: nat)
      requires hash.Valid() && hash.hash == hashFn
      modifies this, hash
      ensures hash.Valid() && hash == old(hash) && View() == Removed(hashFn, old(View()), x, id)
    {
      lst := EraseNode(lst, id);
      var t, e := hash.Erase(x);
    }

    /** clear. */
    method Clear()
      modifies this
      ensures Valid() && fresh(hash) && Order() == [] && hash.View() == NewTable()
    {
      lst := [];
      hash := new HashTable(hashFn);
    }
  }
}
