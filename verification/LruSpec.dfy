/** Recency order: what src/kvstore/LRU.cpp keeps, on plain key sequences, oldest first. */
module LruSpec {
  import opened Wrappers

  function Without(order: seq<string>, x: string): (r: seq<string>) {
    if order == [] then []
    else if order[|order| - 1] == x then Without(order[..|order| - 1], x)
    else Without(order[..|order| - 1], x) + [order[|order| - 1]]
  }

  function Touched(order: seq<string>, x: string): seq<string> {
    if x in order then Without(order, x) + [x] else order
  }

  /** set: the new order and the evicted key. */
  function Inserted(order: seq<string>, x: string, max: nat): (seq<string>, Option<string>) {
    if x in order then (Without(order, x) + [x], None)
    else if |order| + 1 > max then ((order + [x])[1..], Some((order + [x])[0]))
    else (order + [x], None)
  }

  /** A call, or one that threw and changed nothing. */
  datatype LruOp = Access(key: string) | Set(key: string) | Del(key: string) | Failed(key: string)

  predicate Touches(op: LruOp) {
    op.Access? || op.Set?
  }

  function Step(order: seq<string>, op: LruOp, max: nat): (seq<string>, Option<string>) {
    match op
    case Access(x) => (Touched(order, x), None)
    case Set(x) => Inserted(order, x, max)
    case Del(x) => (Without(order, x), None)
    case Failed(_) => (order, None)
  }

  function Run(ops: seq<LruOp>, max: nat): seq<string> {
    if ops == [] then [] else Step(Run(ops[..|ops| - 1], max), ops[|ops| - 1], max).0
  }

  // ---- the reference: time of last touch ----

  /** One more than the index of the last access or set of a key that did not throw; 0 when there is none. */
  function LastTouch(ops: seq<LruOp>, x: string): (t: nat)
    ensures t <= |ops|
  {
    if ops == [] then 0
    else if ops[|ops| - 1].key == x && Touches(ops[|ops| - 1]) then |ops|
    else LastTouch(ops[..|ops| - 1], x)
  }

  /** The keys held are in order of last touch, and each has been touched. */
  ghost predicate ByRecency(order: seq<string>, ops: seq<LruOp>) {
    && (forall i :: 0 <= i < |order| ==> LastTouch(ops, order[i]) > 0)
    && (forall i, j :: 0 <= i < j < |order| ==> LastTouch(ops, order[i]) < LastTouch(ops, order[j]))
  }

  ghost predicate Unique(order: seq<string>) {
    forall i, j :: 0 <= i < j < |order| ==> order[i] != order[j]
  }

  lemma {:induction false} UniqueFit(order: seq<string>, keys: set<string>)
    requires Unique(order) && forall k :: k in order ==> k in keys
    ensures |order| <= |keys|
  {
    if order == [] {
    } else {
      var init, x := order[..|order| - 1], order[|order| - 1];
      assert forall k :: k in init ==> k in order && k != x;
      UniqueFit(init, keys - {x});
    }
  }

  lemma RecencyUnique(order: seq<string>, ops: seq<LruOp>)
    requires ByRecency(order, ops)
    ensures Unique(order)
  {
  }

  // ---- removal ----

  lemma {:induction false} WithoutMembers(order: seq<string>, x: string, y: string)
    ensures y in Without(order, x) <==> y in order && y != x
  {
    if order == [] {
    } else {
      var init, z := order[..|order| - 1], order[|order| - 1];
      WithoutMembers(init, x, y);
      assert y in order <==> y in init || y == z;
    }
  }

  lemma {:induction false} WithoutSplit(a: seq<string>, b: seq<string>, x: string)
    ensures Without(a + b, x) == Without(a, x) + Without(b, x)
    decreases |b|
  {
    if b == [] {
      assert a + b == a;
      assert Without(a, x) + [] == Without(a, x);
    } else {
      assert (a + b)[..|a + b| - 1] == a + b[..|b| - 1];
      WithoutSplit(a, b[..|b| - 1], x);
    }
  }

  lemma {:induction false} WithoutAbsent(order: seq<string>, x: string)
    requires x !in order
    ensures Without(order, x) == order
  {
    if order == [] {
    } else {
      WithoutAbsent(order[..|order| - 1], x);
      assert order == order[..|order| - 1] + [order[|order| - 1]];
    }
  }

  /** Removing the one occurrence of a key leaves the rest in place. */
  lemma WithoutAt(order: seq<string>, i: nat)
    requires Unique(order) && i < |order|
    ensures Without(order, order[i]) == order[..i] + order[i + 1..]
  {
    var x, a, b := order[i], order[..i], order[i + 1..];
    assert order == a + [x] + b;
    WithoutSplit(a + [x], b, x);
    WithoutSplit(a, [x], x);
    WithoutAbsent(a, x);
    WithoutAbsent(b, x);
    assert [x][..0] == [];
    assert Without([x], x) == [];
  }

  // ---- one step ----

  lemma WithoutKeepsRecency(order: seq<string>, ops: seq<LruOp>, x: string)
    requires ByRecency(order, ops)
    ensures ByRecency(Without(order, x), ops) && |Without(order, x)| <= |order|
    ensures x in order ==> |Without(order, x)| == |order| - 1
  {
    RecencyUnique(order, ops);
    if x in order {
      var i :| 0 <= i < |order| && order[i] == x;
      WithoutAt(order, i);
    } else {
      WithoutAbsent(order, x);
    }
  }

  /** Time passes: an operation on another key changes nobody's last touch. */
  lemma OthersKeepTouch(ops: seq<LruOp>, op: LruOp, y: string)
    ensures LastTouch(ops + [op], y) == if op.key == y && Touches(op) then |ops| + 1 else LastTouch(ops, y)
  {
    assert (ops + [op])[..|ops|] == ops;
  }

  lemma StillByRecency(order: seq<string>, ops: seq<LruOp>, op: LruOp)
    requires ByRecency(order, ops) && (op.key !in order || !Touches(op))
    ensures ByRecency(order, ops + [op])
  {
    forall y | y in order
      ensures LastTouch(ops + [op], y) == LastTouch(ops, y)
    {
      OthersKeepTouch(ops, op, y);
    }
  }

  lemma PushedByRecency(order: seq<string>, ops: seq<LruOp>, op: LruOp)
    requires ByRecency(order, ops) && op.key !in order && Touches(op)
    ensures ByRecency(order + [op.key], ops + [op])
  {
    StillByRecency(order, ops, op);
    OthersKeepTouch(ops, op, op.key);
    forall i | 0 <= i < |order|
      ensures LastTouch(ops + [op], order[i]) < |ops| + 1
    {
      OthersKeepTouch(ops, op, order[i]);
    }
  }

  lemma StepByRecency(order: seq<string>, ops: seq<LruOp>, op: LruOp, max: nat)
    requires ByRecency(order, ops) && |order| <= max
    ensures ByRecency(Step(order, op, max).0, ops + [op]) && |Step(order, op, max).0| <= max
  {
    var x, rest := op.key, Without(order, op.key);
    WithoutKeepsRecency(order, ops, x);
    WithoutMembers(order, x, x);
    if op.Failed? {
      StillByRecency(order, ops, op);
    } else if op.Del? {
      StillByRecency(rest, ops, op);
    } else if x in order {
      PushedByRecency(rest, ops, op);
    } else if op.Access? {
      StillByRecency(order, ops, op);
    } else {
      PushedByRecency(order, ops, op);
    }
  }

  /** Over every run, calls that throw included: the keys are in order of last touch, without duplicates, and never more
      than the maximum. */
  lemma {:induction false} RunByRecency(ops: seq<LruOp>, max: nat)
    ensures ByRecency(Run(ops, max), ops) && Unique(Run(ops, max)) && |Run(ops, max)| <= max
  {
    if ops == [] {
    } else {
      var init, op := ops[..|ops| - 1], ops[|ops| - 1];
      RunByRecency(init, max);
      StepByRecency(Run(init, max), init, op, max);
      assert ops == init + [op];
    }
    RecencyUnique(Run(ops, max), ops);
  }

  /** Whatever is evicted is the least recently touched of all keys held, the new one included, and it is the only
      key to go. */
  lemma EvictsOldest(ops: seq<LruOp>, x: string, max: nat, y: string)
    requires Step(Run(ops, max), Set(x), max).1.Some?
    ensures var order, (order', e) := Run(ops, max), Step(Run(ops, max), Set(x), max);
            && (y in order || y == x ==>
                  LastTouch(ops + [Set(x)], e.value) <= LastTouch(ops + [Set(x)], y) && (y != e.value ==> y in order'))
            && (y in order' ==> y != e.value && (y in order || y == x))
            && |order| == max
  {
    var order := Run(ops, max);
    RunByRecency(ops, max);
    PushedByRecency(order, ops, Set(x));
    var all := order + [x];
    RecencyUnique(all, ops + [Set(x)]);
    if y in all {
      var i :| 0 <= i < |all| && all[i] == y;
      assert i > 0 ==> all[1..][i - 1] == y;
    }
    assert y in order || y == x <==> y in all;
  }
}
