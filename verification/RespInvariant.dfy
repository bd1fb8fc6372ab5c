/** What holds of the parser in every state it can reach, on any input. */
module RespInvariant {
  import opened Decimal
  import opened RespValue
  import opened RespMachine
  import opened RespRoundTrip

  /** Every stacked frame is a non-nil array still short of its declared count. */
  ghost predicate ValidStack(stack: seq<Frame>) {
    forall i :: 0 <= i < |stack| ==> Pending(stack[i])
  }

  ghost predicate Pending(f: Frame) {
    f.value.Array? && |f.value.elems| < f.total < U64 && AllWellFormed(f.value.elems)
  }

  /** The node kind and marker that each state expects. */
  ghost predicate NodeFits(state: ParseState, node: Frame) {
    var v, total := node.value, node.total;
    match state
    case WaitType => true
    case ReadSize =>
      v in {NilArray, NilBulk, Array([]), Bulk("")} && total < U64 && (v in {NilArray, NilBulk} ==> total == 0)
    case WaitLFSZ => v in {Array([]), Bulk("")} && total < U64
    case WaitNil => v in {NilArray, NilBulk}
    case WaitNilCR => v in {NilArray, NilBulk}
    case ReadLine => (v.Simple? || v.Err? || (v.Int? && SignFits(v.n, total))) && WellFormed(v)
    case WaitLF => !v.Array? && WellFormed(v)
    case ReadBulk => v.Bulk? && |v.data| <= total < U64
  }

  /** The sign marker of an integer being read: none before the first character, then plus or minus. */
  predicate SignFits(n: int, total: nat) {
    (total == 0 && n == 0) || (total == 1 && n >= 0) || (total == MINUS && n <= 0)
  }

  ghost predicate Valid(p: Parser) {
    ValidStack(p.stack) && AllWellFormed(p.queue) && NodeFits(p.state, p.node)
  }

  /** A carriage return right after '$' or '*', with no size between. */
  predicate EmptySize(p: Parser, c: char) {
    p.state == ReadSize && c == '\r' && (p.node.value.NilArray? || p.node.value.NilBulk?)
  }

  /** A digit that takes an integer outside 64 bits. */
  predicate Overflows(p: Parser, c: char) {
    && p.state == ReadLine && p.node.value.Int? && IsDigit(c)
    && var n, d := p.node.value.n, DigitValue(c);
       if p.node.total == MINUS then 10 * n - d < INT64_MIN else 10 * n + d > INT64_MAX
  }

  lemma {:induction false} PushValid(stack: seq<Frame>, queue: seq<Value>, f: Frame)
    requires ValidStack(stack) && AllWellFormed(queue)
    requires WellFormed(f.value) && (f.value.Array? ==> |f.value.elems| <= f.total < U64)
    ensures Push(stack, queue, f).Next? && Valid(Push(stack, queue, f).parser)
    decreases |stack|
  {
    if !(f.value.Array? && |f.value.elems| != f.total) && stack != [] {
      var rest, top := stack[..|stack| - 1], stack[|stack| - 1];
      assert Pending(top);
      var grown := Frame(Array(top.value.elems + [f.value]), top.total);
      assert AllWellFormed(grown.value.elems);
      if |grown.value.elems| == top.total {
        PushValid(rest, queue, grown);
      }
    }
  }

  /** One byte keeps the invariant; the type checks on the parser's own data never fire, and behaviour is
      undefined exactly on an empty size header or an integer overflow. */
  lemma StepValid(p: Parser, c: char)
    requires Valid(p)
    ensures Step(p, c).Next? ==> Valid(Step(p, c).parser)
    ensures Step(p, c).Threw? ==> Step(p, c).error == Malformed
    ensures Step(p, c).Undefined? <==> EmptySize(p, c) || Overflows(p, c)
  {
    if p.state == WaitLF || p.state == WaitLFSZ {
      if p.state == WaitLF || p.node.value.Array? {
        PushValid(p.stack, p.queue, p.node);
      }
    }
  }

  /** The bytes that the syntax allows next: a type; a size, which is -1 or digits; text, or an integer with at most one
      sign before its digits; the two bytes that end a line; as many bytes of data as announced. */
  predicate Expected(p: Parser, c: char) {
    var v := p.node.value;
    match p.state
    case WaitType => c in "+-:$*"
    case ReadSize => IsDigit(c) || c == '\r' || (c == '-' && (v.NilArray? || v.NilBulk?))
    case WaitNil => c == '1'
    case WaitNilCR => c == '\r'
    case WaitLFSZ => c == '\n'
    case WaitLF => c == '\n'
    case ReadLine => v.Int? ==> IsDigit(c) || c == '\r' || (c == '-' && p.node.total == 0)
    case ReadBulk => v.Bulk? && |v.data| == p.node.total ==> c == '\r'
  }

  /** A byte is a syntax error exactly when it is not one of these. */
  lemma RejectsExactly(p: Parser, c: char)
    requires Valid(p)
    ensures Step(p, c).Threw? <==> !Expected(p, c)
  {
    StepValid(p, c);
    if p.state == WaitLF || p.state == WaitLFSZ {
      if p.state == WaitLF || p.node.value.Array? {
        PushValid(p.stack, p.queue, p.node);
      }
    }
  }

  /** The last digit of an integer that has reached a tenth of the 64-bit range: up to 7 above zero, and 8 below. */
  lemma LastDigit(p: Parser, c: char)
    requires p.state == ReadLine && IsDigit(c)
    requires p.node in {Frame(Int(922337203685477580), 1), Frame(Int(-922337203685477580), MINUS)}
    ensures Step(p, c).Undefined? <==> c == '9' || (c == '8' && p.node.value.n > 0)
  {
  }

  /** The invariant over whole inputs, from any valid state. */
  lemma {:induction false} RunValid(p: Parser, s: string)
    requires Valid(p)
    ensures Run(p, s).Next? ==> Valid(Run(p, s).parser)
    ensures Run(p, s).Threw? ==> Run(p, s).error == Malformed
    ensures Run(p, s).Undefined? <==>
              exists k :: 0 <= k < |s| && Run(p, s[..k]).Next?
                          && (EmptySize(Run(p, s[..k]).parser, s[k]) || Overflows(Run(p, s[..k]).parser, s[k]))
    decreases |s|
  {
    if s == [] {
    } else {
      var init, c := s[..|s| - 1], s[|s| - 1];
      RunValid(p, init);
      forall k | 0 <= k < |init|
        ensures init[..k] == s[..k]
      {}
      if Run(p, init).Next? {
        StepValid(Run(p, init).parser, c);
      }
    }
  }

  /** The round trip holds for exactly the well-formed values: line-oriented text without a carriage return
      and sizes that fit in a size_t. */
  lemma RoundTripExactly(v: Value)
    ensures Run(Idle([], []), Encode(v)) == Next(Idle([], [v])) <==> WellFormed(v)
  {
    if WellFormed(v) {
      RoundTripInContext(v, [], []);
      DeliverToEmpty([], v);
      assert [] + [v] == [v];
    } else {
      RunValid(Idle([], []), Encode(v));
      assert [v][0] == v;
    }
  }

  // ---- the queue ----

  function Prepend(q: seq<Value>, o: Outcome): Outcome {
    if o.Next? then Next(o.parser.(queue := q + o.parser.queue)) else o
  }

  lemma {:induction false} PushFrame(stack: seq<Frame>, q: seq<Value>, queue: seq<Value>, f: Frame)
    ensures Push(stack, q + queue, f) == Prepend(q, Push(stack, queue, f))
    decreases |stack|
  {
    if f.value.Array? && |f.value.elems| != f.total {
    } else if stack == [] {
      assert q + queue + [f.value] == q + (queue + [f.value]);
    } else {
      var rest, top := stack[..|stack| - 1], stack[|stack| - 1];
      if top.value.Array? && |top.value.elems| + 1 == top.total {
        PushFrame(rest, q, queue, Frame(Array(top.value.elems + [f.value]), top.total));
      }
    }
  }

  lemma StepFrame(p: Parser, q: seq<Value>, c: char)
    ensures Step(p.(queue := q + p.queue), c) == Prepend(q, Step(p, c))
  {
    match p.state
    case WaitLF => PushFrame(p.stack, q, p.queue, p.node);
    case WaitLFSZ => PushFrame(p.stack, q, p.queue, p.node);
    case _ =>
  }

  /** Results already queued do not influence parsing: taking them out early or late is the same. */
  lemma {:induction false} QueueIndependence(p: Parser, q: seq<Value>, s: string)
    ensures Run(p.(queue := q + p.queue), s) == Prepend(q, Run(p, s))
    decreases |s|
  {
    if s == [] {
    } else {
      QueueIndependence(p, q, s[..|s| - 1]);
      var r := Run(p, s[..|s| - 1]);
      if r.Next? {
        StepFrame(r.parser, q, s[|s| - 1]);
      }
    }
  }

  /** Bytes only ever add results at the back of the queue. */
  lemma QueueGrows(p: Parser, s: string)
    requires Run(p, s).Next?
    ensures p.queue <= Run(p, s).parser.queue
  {
    QueueIndependence(p.(queue := []), p.queue, s);
    assert p.queue + [] == p.queue;
  }

  // ---- prefixes ----

  /** Between values with nothing pending: the only place where a value has just been completed. */
  predicate AtRest(p: Parser) {
    p.state == WaitType && p.stack == []
  }

  lemma {:induction false} PushProgress(stack: seq<Frame>, queue: seq<Value>, f: Frame)
    requires Push(stack, queue, f).Next? && AtRest(Push(stack, queue, f).parser)
    ensures |Push(stack, queue, f).parser.queue| > |queue|
    decreases |stack|
  {
    if !(f.value.Array? && |f.value.elems| != f.total) && stack != [] {
      var rest, top := stack[..|stack| - 1], stack[|stack| - 1];
      if |top.value.elems| + 1 == top.total {
        PushProgress(rest, queue, Frame(Array(top.value.elems + [f.value]), top.total));
      }
    }
  }

  lemma {:induction false} RestMeansResult(p: Parser, s: string)
    requires s != [] && Run(p, s).Next? && AtRest(Run(p, s).parser)
    ensures |Run(p, s).parser.queue| > |p.queue|
  {
    var init := s[..|s| - 1];
    var q := Run(p, init).parser;
    QueueGrows(p, init);
    PushProgress(q.stack, q.queue, q.node);
  }

  /** No proper prefix of an encoding delivers anything, and none of them is rejected. */
  lemma ProperPrefixYieldsNothing(v: Value, k: nat, queue: seq<Value>)
    requires WellFormed(v) && k < |Encode(v)|
    ensures Run(Idle([], queue), Encode(v)[..k]).Next?
    ensures Run(Idle([], queue), Encode(v)[..k]).parser.queue == queue
  {
    var p, pre, post := Idle([], queue), Encode(v)[..k], Encode(v)[k..];
    assert Encode(v) == pre + post;
    RoundTripInContext(v, [], queue);
    DeliverToEmpty(queue, v);
    PrefixQueue(p, pre, post, v);
  }

  /** If some bytes leave the parser at rest with one more result, a proper prefix left it without. */
  lemma PrefixQueue(p: Parser, pre: string, post: string, v: Value)
    requires AtRest(p) && post != [] && Run(p, pre + post) == Next(Idle([], p.queue + [v]))
    ensures Run(p, pre).Next? && Run(p, pre).parser.queue == p.queue
  {
    RunConcat(p, pre, post);
    var q := Run(p, pre).parser;
    QueueGrows(p, pre);
    QueueGrows(q, post);
    RestMeansResult(q, post);
  }

  /** The encoding is injective and prefix-free. */
  lemma PrefixFree(v: Value, w: Value)
    requires WellFormed(v) && WellFormed(w) && Encode(v) <= Encode(w)
    ensures v == w
  {
    var post := Encode(w)[|Encode(v)|..];
    assert Encode(w) == Encode(v) + post;
    RoundTripExactly(v);
    RoundTripExactly(w);
    RunConcat(Idle([], []), Encode(v), post);
    QueueGrows(Idle([], [v]), post);
    assert [v][0] == [w][0];
  }

  /** A log cut off anywhere still yields exactly the values whose bytes are all there: the whole ones before
      the cut, in order. */
  lemma TornStream(vs: seq<Value>, v: Value, k: nat, queue: seq<Value>)
    requires AllWellFormed(vs) && WellFormed(v) && k < |Encode(v)|
    ensures Run(Idle([], queue), EncodeAll(vs) + Encode(v)[..k]).Next?
    ensures Run(Idle([], queue), EncodeAll(vs) + Encode(v)[..k]).parser.queue == queue + vs
  {
    StreamRoundTrip(vs, queue);
    Then(Idle([], queue), EncodeAll(vs), Idle([], queue + vs), Encode(v)[..k]);
    ProperPrefixYieldsNothing(v, k, queue + vs);
  }
}
