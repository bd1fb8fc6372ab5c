/** The parser object of src/resp/RespParser.cpp, proved against the transition function. */
module RespParserClass {
  import opened Wrappers
  import opened Decimal
  import opened RespValue
  import opened RespMachine

  datatype Status = Done | Failed(error: ParseError) | Undef

  class RespParser {
    var state: ParseState
    var node: Frame
    var stack: seq<Frame>
    var queue: seq<Value>

    function View(): Parser
      reads this
    {
      Parser(state, node, stack, queue)
    }

    constructor ()
      ensures View() == Idle([], [])
    {
      state, node, stack, queue := WaitType, NoNode, [], [];
    }

    /** push: deliver a frame, collapsing every array it completes. */
    method Push(f: Frame) returns (status: Status)
      modifies this
      ensures status != Failed(Malformed)
      ensures Agrees(status, RespMachine.Push(old(stack), old(queue), f))
      decreases |stack|
    {
      status := Done;
      if f.value.Array? && |f.value.elems| != f.total {
        stack := stack + [f];
      } else if stack == [] {
        queue := queue + [f.value];
      } else {
        var top := stack[|stack| - 1];
        if top.value.NilArray? {
          status := Undef;
          return;
        } else if !top.value.Array? {
          status := Failed(StackError);
          return;
        }
        var grown := Frame(Array(top.value.elems + [f.value]), top.total);
        stack := stack[..|stack| - 1];
        if |grown.value.elems| == grown.total {
          status := Push(grown);
          return;
        }
        stack := stack + [grown];
      }
      state, node := WaitType, NoNode;
    }

    /** A finished step left exactly the state the machine says; a fault is the machine's fault. */
    ghost predicate Agrees(status: Status, o: Outcome)
      reads this
    {
      match o
      case Next(p) => status == Done && View() == p
      case Threw(e) => status == Failed(e)
      case Undefined => status == Undef
    }

    /** One digit of a size header. */
    method SizeDigit(c: char)
      requires IsDigit(c) && (node.value.NilArray? || node.value.Array? || node.value.NilBulk? || node.value.Bulk?)
      modifies this`node
      ensures Next(View()) == OnSize(old(View()), c)
    {
      var value := node.value;
      if node.total == 0 {
        value := if value.NilArray? || value.Array? then Array([]) else Bulk("");
      }
      var total := node.total * 10 % U64;
      total := (total + DigitValue(c)) % U64;
      assert total == (10 * node.total + DigitValue(c)) % U64;
      node := Frame(value, total);
    }

    /** One byte of a line: text, or a sign or digit of an integer. */
    method LineByte(c: char) returns (status: Status)
      requires c != '\r'
      modifies this`node
      ensures Agrees(status, OnLine(old(View()), c))
      ensures status != Done ==> node == old(node)
    {
      status := Done;
      match node.value {
        case Simple(s) => node := node.(value := Simple(s + [c]));
        case Err(s) => node := node.(value := Err(s + [c]));
        case Int(n) =>
          if c == '-' {
            if node.total != 0 {
              return Failed(Malformed);
            }
            node := node.(total := MINUS);
          } else if IsDigit(c) {
            var sign := if node.total == 0 then 1 else node.total;
            var m: int := n * 10;
            if !(INT64_MIN <= m <= INT64_MAX) {
              return Undef;
            }
            m := if sign == 1 then m + DigitValue(c) else m - DigitValue(c);
            if !(INT64_MIN <= m <= INT64_MAX) {
              return Undef;
            }
            node := Frame(Int(m), sign);
          } else {
            return Failed(Malformed);
          }
        case _ => return Failed(Mismatch);
      }
    }

    /** The switch on one byte. A syntax error is thrown before anything changes. */
    method Consume(c: char) returns (status: Status)
      modifies this
      ensures Agrees(status, Step(old(View()), c))
      ensures status == Failed(Malformed) ==> View() == old(View())
    {
      status := Done;
      match state {
        case WaitType =>
          if c == '+' {
            node, state := Frame(Simple(""), 0), ReadLine;
          } else if c == '-' {
            node, state := Frame(Err(""), 0), ReadLine;
          } else if c == ':' {
            node, state := Frame(Int(0), 0), ReadLine;
          } else if c == '$' {
            node, state := Frame(NilBulk, 0), ReadSize;
          } else if c == '*' {
            node, state := Frame(NilArray, 0), ReadSize;
          } else {
            status := Failed(Malformed);
          }
        case ReadSize =>
          var nil := node.value.NilArray? || node.value.NilBulk?;
          var sized := nil || node.value.Array? || node.value.Bulk?;
          if c == '-' {
            if nil {
              state := WaitNil;
            } else {
              status := Failed(if sized then Malformed else Mismatch);
            }
          } else if c == '\r' {
            if nil {
              status := Undef;
            } else if sized {
              state := WaitLFSZ;
            } else {
              status := Failed(Mismatch);
            }
          } else if IsDigit(c) {
            if sized {
              SizeDigit(c);
            } else {
              status := Failed(Mismatch);
            }
          } else {
            status := Failed(Malformed);
          }
        case WaitLFSZ =>
          if c != '\n' {
            status := Failed(Malformed);
          } else if node.value.NilArray? || node.value.Array? {
            status := Push(node);
          } else if node.value.NilBulk? || node.value.Bulk? {
            state := ReadBulk;
          } else {
            status := Failed(Mismatch);
          }
        case WaitNil =>
          if c == '1' {
            state := WaitNilCR;
          } else {
            status := Failed(Malformed);
          }
        case WaitNilCR =>
          if c == '\r' {
            state := WaitLF;
          } else {
            status := Failed(Malformed);
          }
        case ReadLine =>
          if c == '\r' {
            state := WaitLF;
          } else {
            status := LineByte(c);
          }
        case WaitLF =>
          if c == '\n' {
            status := Push(node);
          } else {
            status := Failed(Malformed);
          }
        case ReadBulk =>
          if node.value.Bulk? {
            if |node.value.data| == node.total {
              if c == '\r' {
                state := WaitLF;
              } else {
                status := Failed(Malformed);
              }
            } else {
              node := node.(value := Bulk(node.value.data + [c]));
            }
          } else {
            status := if node.value.NilBulk? then Undef else Failed(Mismatch);
          }
      }
    }

    /** append: feed a chunk byte by byte; an exception ends the loop, and what was read before the offending byte
        stays read. */
    method Append(app: string) returns (status: Status)
      modifies this
      ensures Agrees(status, Run(old(View()), app))
      ensures status == Failed(Malformed) ==>
                exists k :: 0 <= k < |app| && Run(old(View()), app[..k]) == Next(View())
                            && Step(View(), app[k]) == Threw(Malformed)
    {
      status := Done;
      var i := 0;
      while i < |app|
        invariant i <= |app| && status == Done
        invariant Run(old(View()), app[..i]) == Next(View())
      {
        ghost var before := View();
        status := Consume(app[i]);
        RunSnoc(old(View()), app[..i], app[i]);
        assert app[..i + 1] == app[..i] + [app[i]];
        i := i + 1;
        if status != Done {
          FaultEnds(old(View()), app, i);
          return;
        }
      }
      assert app[..i] == app;
    }

    method HasResult() returns (b: bool)
      ensures b <==> queue != []
    {
      b := queue != [];
    }

    /** getResult: the oldest queued value, removed from the queue. */
    method GetResult() returns (r: Option<Value>)
      modifies this`queue
      ensures old(queue) == [] ==> r == None && queue == []
      ensures old(queue) != [] ==> r == Some(old(queue)[0]) && queue == old(queue)[1..]
    {
      if queue == [] {
        return None;
      }
      r := Some(queue[0]);
      queue := queue[1..];
    }

    method Reset()
      modifies this
      ensures View() == Idle([], [])
    {
      state, node, stack, queue := WaitType, NoNode, [], [];
    }
  }

  lemma FaultEnds(p: Parser, s: string, k: nat)
    requires k <= |s| && !Run(p, s[..k]).Next?
    ensures Run(p, s) == Run(p, s[..k])
  {
    assert s == s[..k] + s[k..];
    RunConcat(p, s[..k], s[k..]);
  }
}
