/** The byte-at-a-time push-down parser of src/resp/RespParser.cpp, as a transition function. */
module RespMachine {
  import opened Decimal
  import opened RespValue

  datatype ParseState =
    | WaitType | ReadSize | WaitLFSZ | WaitNil | WaitNilCR | ReadLine | WaitLF | ReadBulk

  /** A value under construction and the size (or sign marker) read for it. */
  datatype Frame = Frame(value: Value, total: nat)

  datatype Parser = Parser(state: ParseState, node: Frame, stack: seq<Frame>, queue: seq<Value>)

  /** Malformed is a syntax error; the other two are the type checks the code makes on its own data. */
  datatype ParseError = Malformed | Mismatch | StackError

  /** What one byte does: a next state, an exception, or undefined behaviour of the C++ program. */
  datatype Outcome = Next(parser: Parser) | Threw(error: ParseError) | Undefined

  /** RespState(): the default-constructed node. */
  const NoNode := Frame(NilArray, 0)

  /** The size_t value that marks a negative integer. */
  const MINUS: nat := U64 - 1

  /** A parser between two values. The moved-from node the code leaves behind is overwritten before it is
      read, so the model resets it. */
  function Idle(stack: seq<Frame>, queue: seq<Value>): Parser {
    Parser(WaitType, NoNode, stack, queue)
  }

  /** RespParser::push. */
  function Push(stack: seq<Frame>, queue: seq<Value>, f: Frame): Outcome
    decreases |stack|
  {
    if f.value.Array? && |f.value.elems| != f.total then
      Next(Idle(stack + [f], queue))
    else if stack == [] then
      Next(Idle([], queue + [f.value]))
    else
      var rest, top := stack[..|stack| - 1], stack[|stack| - 1];
      if top.value.NilArray? then Undefined
      else if !top.value.Array? then Threw(StackError)
      else
        var grown := Frame(Array(top.value.elems + [f.value]), top.total);
        if |grown.value.elems| == top.total then Push(rest, queue, grown)
        else Next(Idle(rest + [grown], queue))
  }

  function OnType(p: Parser, c: char): Outcome {
    if c == '+' then Next(p.(node := Frame(Simple(""), 0), state := ReadLine))
    else if c == '-' then Next(p.(node := Frame(Err(""), 0), state := ReadLine))
    else if c == ':' then Next(p.(node := Frame(Int(0), 0), state := ReadLine))
    else if c == '$' then Next(p.(node := Frame(NilBulk, 0), state := ReadSize))
    else if c == '*' then Next(p.(node := Frame(NilArray, 0), state := ReadSize))
    else Threw(Malformed)
  }

  function OnSize(p: Parser, c: char): Outcome {
    var v, total := p.node.value, p.node.total;
    if !(v.NilArray? || v.Array? || v.NilBulk? || v.Bulk?) then
      Threw(if c == '-' || c == '\r' || IsDigit(c) then Mismatch else Malformed)
    else if c == '-' then
      if v.Array? || v.Bulk? then Threw(Malformed) else Next(p.(state := WaitNil))
    else if c == '\r' then
      // reserve through an empty optional
      if v.NilArray? || v.NilBulk? then Undefined else Next(p.(state := WaitLFSZ))
    else if IsDigit(c) then
      var v' := if total != 0 then v else if v.NilArray? || v.Array? then Array([]) else Bulk("");
      Next(p.(node := Frame(v', (10 * total + DigitValue(c)) % U64)))
    else
      Threw(Malformed)
  }

  function OnSizeLF(p: Parser, c: char): Outcome {
    if c != '\n' then Threw(Malformed)
    else if p.node.value.NilArray? || p.node.value.Array? then Push(p.stack, p.queue, p.node)
    else if p.node.value.NilBulk? || p.node.value.Bulk? then Next(p.(state := ReadBulk))
    else Threw(Mismatch)
  }

  /** One more digit of an integer; signed overflow is undefined. */
  function OnDigit(p: Parser, n: int, d: nat): Outcome {
    var sign := if p.node.total == 0 then 1 else p.node.total;
    var n' := if sign == 1 then 10 * n + d else 10 * n - d;
    if INT64_MIN <= 10 * n <= INT64_MAX && INT64_MIN <= n' <= INT64_MAX
    then Next(p.(node := Frame(Int(n'), sign)))
    else Undefined
  }

  function OnLine(p: Parser, c: char): Outcome {
    if c == '\r' then Next(p.(state := WaitLF))
    else
      match p.node.value
      case Simple(s) => Next(p.(node := p.node.(value := Simple(s + [c]))))
      case Err(s) => Next(p.(node := p.node.(value := Err(s + [c]))))
      case Int(n) =>
        if c == '-' then
          if p.node.total == 0 then Next(p.(node := p.node.(total := MINUS))) else Threw(Malformed)
        else if IsDigit(c) then OnDigit(p, n, DigitValue(c))
        else Threw(Malformed)
      case _ => Threw(Mismatch)
  }

  function OnBulk(p: Parser, c: char): Outcome {
    match p.node.value
    case Bulk(s) =>
      if |s| == p.node.total then
        if c == '\r' then Next(p.(state := WaitLF)) else Threw(Malformed)
      else Next(p.(node := p.node.(value := Bulk(s + [c]))))
    case NilBulk => Undefined
    case _ => Threw(Mismatch)
  }

  /** The switch in RespParser::append for one byte. */
  function Step(p: Parser, c: char): Outcome {
    match p.state
    case WaitType => OnType(p, c)
    case ReadSize => OnSize(p, c)
    case WaitLFSZ => OnSizeLF(p, c)
    case WaitNil => if c == '1' then Next(p.(state := WaitNilCR)) else Threw(Malformed)
    case WaitNilCR => if c == '\r' then Next(p.(state := WaitLF)) else Threw(Malformed)
    case ReadLine => OnLine(p, c)
    case WaitLF => if c == '\n' then Push(p.stack, p.queue, p.node) else Threw(Malformed)
    case ReadBulk => OnBulk(p, c)
  }

  /** A whole string of bytes; the first fault ends the run. */
  function Run(p: Parser, s: string): Outcome {
    if s == [] then Next(p)
    else
      var r := Run(p, s[..|s| - 1]);
      if r.Next? then Step(r.parser, s[|s| - 1]) else r
  }

  lemma RunSnoc(p: Parser, s: string, c: char)
    ensures Run(p, s + [c]) == var r := Run(p, s); if r.Next? then Step(r.parser, c) else r
  {
    assert (s + [c])[..|s|] == s;
  }

  lemma {:induction false} RunConcat(p: Parser, a: string, b: string)
    ensures Run(p, a + b) == var r := Run(p, a); if r.Next? then Run(r.parser, b) else r
    decreases |b|
  {
    if b == [] {
      assert a + b == a;
    } else {
      var b', c := b[..|b| - 1], b[|b| - 1];
      assert a + b == (a + b') + [c];
      RunSnoc(p, a + b', c);
      RunConcat(p, a, b');
    }
  }

  lemma RunOne(p: Parser, c: char)
    ensures Run(p, [c]) == Step(p, c)
  {
    RunSnoc(p, [], c);
    assert [] + [c] == [c];
  }

  lemma RunCons(p: Parser, c: char, s: string)
    ensures Run(p, [c] + s) == var r := Step(p, c); if r.Next? then Run(r.parser, s) else r
  {
    RunOne(p, c);
    RunConcat(p, [c], s);
  }

  lemma RunTwo(p: Parser, c: char, d: char)
    ensures Run(p, [c, d]) == var r := Step(p, c); if r.Next? then Step(r.parser, d) else r
  {
    assert [c, d] == [c] + [d];
    RunSnoc(p, [c], d);
    RunOne(p, c);
  }

  // ---- chunks ----

  function Flatten(chunks: seq<string>): string {
    if chunks == [] then [] else Flatten(chunks[..|chunks| - 1]) + chunks[|chunks| - 1]
  }

  /** Calling append once per chunk. */
  function RunChunks(p: Parser, chunks: seq<string>): Outcome {
    if chunks == [] then Next(p)
    else
      var r := RunChunks(p, chunks[..|chunks| - 1]);
      if r.Next? then Run(r.parser, chunks[|chunks| - 1]) else r
  }

  /** Where the input is cut does not matter, for every starting state and every input. */
  lemma {:induction false} ChunkIndependence(p: Parser, chunks: seq<string>)
    ensures RunChunks(p, chunks) == Run(p, Flatten(chunks))
  {
    if chunks == [] {
    } else {
      var init := chunks[..|chunks| - 1];
      ChunkIndependence(p, init);
      RunConcat(p, Flatten(init), chunks[|chunks| - 1]);
    }
  }
}
