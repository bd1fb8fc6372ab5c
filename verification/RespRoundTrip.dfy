/** Encoding followed by parsing: exactness in every parsing context, and what follows from it. */
module RespRoundTrip {
  import opened Decimal
  import opened RespValue
  import opened RespMachine

  /** The effect of completing one value on top of a pending stack. */
  function Deliver(stack: seq<Frame>, queue: seq<Value>, v: Value): Outcome {
    Push(stack, queue, Frame(v, if v.Array? then |v.elems| else 0))
  }

  lemma {:induction false} ReadLineText(p: Parser, s: string)
    requires p.state == ReadLine && (p.node.value == Simple("") || p.node.value == Err(""))
    requires '\r' !in s
    ensures Run(p, s) == Next(p.(node := p.node.(value := if p.node.value.Simple? then Simple(s) else Err(s))))
    decreases |s|
  {
    if s == [] {
    } else {
      var init := s[..|s| - 1];
      ReadLineText(p, init);
      assert s == init + [s[|s| - 1]];
    }
  }

  lemma {:induction false} ReadBulkText(p: Parser, s: string)
    requires p.state == ReadBulk && p.node.value == Bulk("") && |s| <= p.node.total
    ensures Run(p, s) == Next(p.(node := p.node.(value := Bulk(s))))
    decreases |s|
  {
    if s == [] {
    } else {
      var init := s[..|s| - 1];
      ReadBulkText(p, init);
      assert s == init + [s[|s| - 1]];
    }
  }

  /** The container an array or bulk header opens once a digit has been read. */
  function Opened(v: Value): Value {
    if v.NilArray? then Array([]) else Bulk("")
  }

  lemma {:induction false} ReadSizeDigits(p: Parser, s: string)
    requires p.state == ReadSize && (p.node == Frame(NilArray, 0) || p.node == Frame(NilBulk, 0))
    requires s != [] && AllDigits(s) && FromDigits(s) < U64
    ensures Run(p, s) == Next(p.(node := Frame(Opened(p.node.value), FromDigits(s))))
    decreases |s|
  {
    var init, c := s[..|s| - 1], s[|s| - 1];
    PrefixSmaller(s, |s| - 1);
    assert Run(p, init).Next? ==> Run(p, s) == Step(Run(p, init).parser, c);
    if init != [] {
      ReadSizeDigits(p, init);
      SizeDigit(p.(node := Frame(Opened(p.node.value), FromDigits(init))), c);
    } else {
      assert Run(p, init) == Next(p);
      assert FromDigits(init) == 0;
      SizeDigit(p, c);
    }
  }

  lemma SizeDigit(p: Parser, c: char)
    requires p.state == ReadSize && IsDigit(c) && 10 * p.node.total + DigitValue(c) < U64
    requires p.node.value in {NilArray, Array([]), NilBulk, Bulk("")}
    requires p.node.total > 0 ==> p.node.value in {Array([]), Bulk("")}
    ensures Step(p, c) == Next(p.(node := Frame(if p.node.value in {NilArray, Array([])} then Array([]) else Bulk(""),
                                               10 * p.node.total + DigitValue(c))))
  {
  }

  lemma {:induction false} ReadPositive(p: Parser, s: string)
    requires p.state == ReadLine && p.node == Frame(Int(0), 0)
    requires s != [] && AllDigits(s) && FromDigits(s) <= INT64_MAX
    ensures Run(p, s) == Next(p.(node := Frame(Int(FromDigits(s)), 1)))
    decreases |s|
  {
    var init := s[..|s| - 1];
    PrefixSmaller(s, |s| - 1);
    if init != [] {
      ReadPositive(p, init);
    } else {
      assert Run(p, init) == Next(p);
    }
  }

  lemma {:induction false} ReadNegative(p: Parser, s: string)
    requires p.state == ReadLine && p.node == Frame(Int(0), MINUS)
    requires AllDigits(s) && FromDigits(s) <= -INT64_MIN
    ensures Run(p, s) == Next(p.(node := Frame(Int(0 - FromDigits(s)), MINUS)))
    decreases |s|
  {
    if s == [] {
    } else {
      PrefixSmaller(s, |s| - 1);
      ReadNegative(p, s[..|s| - 1]);
    }
  }

  lemma RunLineEnd(p: Parser)
    requires p.state == ReadLine || (p.state == ReadBulk && p.node.value.Bulk? && |p.node.value.data| == p.node.total)
    ensures Run(p, CRLF) == Push(p.stack, p.queue, p.node)
  {
    RunTwo(p, '\r', '\n');
  }

  lemma LineValue(stack: seq<Frame>, queue: seq<Value>, v: Value)
    requires WellFormed(v) && (v.Simple? || v.Err?)
    ensures Run(Idle(stack, queue), Encode(v)) == Deliver(stack, queue, v)
  {
    var p := Idle(stack, queue);
    var c := if v.Simple? then '+' else '-';
    var q := Step(p, c).parser;
    assert Encode(v) == [c] + (v.text + CRLF);
    RunCons(p, c, v.text + CRLF);
    RunConcat(q, v.text, CRLF);
    ReadLineText(q, v.text);
    RunLineEnd(Run(q, v.text).parser);
  }

  lemma IntText(q: Parser, n: int64)
    requires q.state == ReadLine && q.node == Frame(Int(0), 0)
    ensures Run(q, SignedToString(n)) == Next(q.(node := Frame(Int(n), if n < 0 then MINUS else 1)))
  {
    if n < 0 {
      var m: int := 0 - n as int;
      ToStringRoundTrip(m);
      RunCons(q, '-', ToString(m));
      ReadNegative(q.(node := Frame(Int(0), MINUS)), ToString(m));
    } else {
      ToStringRoundTrip(n);
      ReadPositive(q, ToString(n));
    }
  }

  lemma IntValue(stack: seq<Frame>, queue: seq<Value>, n: int64)
    ensures Run(Idle(stack, queue), Encode(Int(n))) == Deliver(stack, queue, Int(n))
  {
    var p := Idle(stack, queue);
    var q := Parser(ReadLine, Frame(Int(0), 0), stack, queue);
    var text := SignedToString(n);
    IntText(q, n);
    RunLineEnd(Run(q, text).parser);
    RunConcat(q, text, CRLF);
    RunCons(p, ':', text + CRLF);
    assert Encode(Int(n)) == [':'] + (text + CRLF);
  }

  lemma NilValue(stack: seq<Frame>, queue: seq<Value>, v: Value)
    requires v.NilBulk? || v.NilArray?
    ensures Run(Idle(stack, queue), Encode(v)) == Deliver(stack, queue, v)
  {
    var p := Idle(stack, queue);
    var c := if v.NilBulk? then '$' else '*';
    var q := Step(p, c).parser;
    assert Encode(v) == [c] + (['-'] + (['1'] + CRLF));
    RunCons(p, c, ['-'] + (['1'] + CRLF));
    RunCons(q, '-', ['1'] + CRLF);
    RunCons(q.(state := WaitNil), '1', CRLF);
    RunTwo(q.(state := WaitNilCR), '\r', '\n');
  }

  /** A size header leaves the opened container waiting for its line feed. */
  lemma Header(stack: seq<Frame>, queue: seq<Value>, c: char, n: nat, rest: string)
    requires n < U64 && (c == '$' || c == '*')
    ensures Run(Idle(stack, queue), [c] + ToString(n) + CRLF + rest)
         == var v := if c == '$' then Bulk("") else Array([]);
            var r := OnSizeLF(Parser(WaitLFSZ, Frame(v, n), stack, queue), '\n');
            if r.Next? then Run(r.parser, rest) else r
  {
    var p := Idle(stack, queue);
    var q := Step(p, c).parser;
    var digits := ToString(n);
    assert [c] + digits + CRLF + rest == [c] + (digits + (CRLF + rest));
    RunCons(p, c, digits + (CRLF + rest));
    RunConcat(q, digits, CRLF + rest);
    ToStringRoundTrip(n);
    ReadSizeDigits(q, digits);
    var q' := Run(q, digits).parser;
    RunConcat(q', CRLF, rest);
    RunTwo(q', '\r', '\n');
  }

  lemma BulkValue(stack: seq<Frame>, queue: seq<Value>, d: string)
    requires |d| < U64
    ensures Run(Idle(stack, queue), Encode(Bulk(d))) == Deliver(stack, queue, Bulk(d))
  {
    Header(stack, queue, '$', |d|, d + CRLF);
    assert Encode(Bulk(d)) == ['$'] + ToString(|d|) + CRLF + (d + CRLF);
    var q := Parser(ReadBulk, Frame(Bulk(""), |d|), stack, queue);
    RunConcat(q, d, CRLF);
    ReadBulkText(q, d);
    RunLineEnd(Run(q, d).parser);
  }

  /** The round trip, in context: whatever is pending on the stack, feeding the encoding of a value between
      two values has exactly the effect of delivering that one value. */
  lemma {:induction false} RoundTripInContext(v: Value, stack: seq<Frame>, queue: seq<Value>)
    requires WellFormed(v)
    ensures Run(Idle(stack, queue), Encode(v)) == Deliver(stack, queue, v)
    decreases v
  {
    match v
    case Simple(_) => LineValue(stack, queue, v);
    case Err(_) => LineValue(stack, queue, v);
    case Int(n) => IntValue(stack, queue, n);
    case NilBulk => NilValue(stack, queue, v);
    case Bulk(d) => BulkValue(stack, queue, d);
    case NilArray => NilValue(stack, queue, v);
    case Array(es) =>
      assert "*" == ['*'];
      Header(stack, queue, '*', |es|, EncodeAll(es));
      if es != [] {
        Elements(es, [], es, stack, queue);
      }
  }

  /** Feeding the remaining elements of the array on top of the stack completes that array. */
  lemma {:induction false} Elements(es: seq<Value>, done: seq<Value>, all: seq<Value>,
                                    stack: seq<Frame>, queue: seq<Value>)
    requires es != [] && AllWellFormed(es) && done + es == all
    ensures Run(Idle(stack + [Frame(Array(done), |all|)], queue), EncodeAll(es)) == Deliver(stack, queue, Array(all))
    decreases es
  {
    var v, rest := es[0], es[1..];
    var done' := done + [v];
    assert done' + rest == all;
    var pending := stack + [Frame(Array(done), |all|)];
    RoundTripInContext(v, pending, queue);
    if rest == [] {
    } else {
      Elements(rest, done', all, stack, queue);
    }
    ElementsGlue(v, rest, Encode(v), EncodeAll(rest), done, done', all, stack, queue);
  }

  lemma ElementsGlue(v: Value, rest: seq<Value>, a: string, b: string,
                     done: seq<Value>, done': seq<Value>, all: seq<Value>, stack: seq<Frame>, queue: seq<Value>)
    requires done' == done + [v] && done' + rest == all
    requires var pending := stack + [Frame(Array(done), |all|)];
             Run(Idle(pending, queue), a) == Deliver(pending, queue, v)
    requires rest == [] ==> b == []
    requires rest != [] ==>
               Run(Idle(stack + [Frame(Array(done'), |all|)], queue), b) == Deliver(stack, queue, Array(all))
    ensures Run(Idle(stack + [Frame(Array(done), |all|)], queue), a + b) == Deliver(stack, queue, Array(all))
  {
    DeliverToTop(stack, queue, done, |all|, v);
    if rest == [] {
      assert a + b == a;
      assert done' == all;
    } else {
      assert |done'| != |all|;
      Then(Idle(stack + [Frame(Array(done), |all|)], queue), a, Idle(stack + [Frame(Array(done'), |all|)], queue), b);
    }
  }

  /** One more element for the array on top of the stack. */
  lemma DeliverToTop(stack: seq<Frame>, queue: seq<Value>, done: seq<Value>, n: nat, v: Value)
    ensures Deliver(stack + [Frame(Array(done), n)], queue, v)
         == if |done| + 1 == n then Deliver(stack, queue, Array(done + [v]))
            else Next(Idle(stack + [Frame(Array(done + [v]), n)], queue))
  {
    var pending := stack + [Frame(Array(done), n)];
    assert pending[..|pending| - 1] == stack;
  }

  lemma Then(p: Parser, a: string, q: Parser, b: string)
    requires Run(p, a) == Next(q)
    ensures Run(p, a + b) == Run(q, b)
  {
    RunConcat(p, a, b);
  }

  // ---- streams ----

  /** Concatenated encodings queue exactly the encoded values, in order. */
  lemma {:induction false} StreamRoundTrip(vs: seq<Value>, queue: seq<Value>)
    requires AllWellFormed(vs)
    ensures Run(Idle([], queue), EncodeAll(vs)) == Next(Idle([], queue + vs))
  {
    if vs == [] {
      assert queue + vs == queue;
    } else {
      var v, rest := vs[0], vs[1..];
      assert queue + [v] + rest == queue + vs;
      StreamRoundTrip(rest, queue + [v]);
      RoundTripInContext(v, [], queue);
      DeliverToEmpty(queue, v);
      Then(Idle([], queue), Encode(v), Idle([], queue + [v]), EncodeAll(rest));
    }
  }

  lemma DeliverToEmpty(queue: seq<Value>, v: Value)
    ensures Deliver([], queue, v) == Next(Idle([], queue + [v]))
  {
  }

  /** ... and so do they when the bytes arrive cut into chunks anywhere. */
  lemma StreamInChunks(vs: seq<Value>, chunks: seq<string>, queue: seq<Value>)
    requires AllWellFormed(vs) && Flatten(chunks) == EncodeAll(vs)
    ensures RunChunks(Idle([], queue), chunks) == Next(Idle([], queue + vs))
  {
    ChunkIndependence(Idle([], queue), chunks);
    StreamRoundTrip(vs, queue);
  }
}
