/** RESP values (src/resp/RespValue.h) and their encoding (src/resp/RespEncoder.cpp). */
module RespValue {
  import opened Decimal

  /** The five alternatives of the C++ variant; an optional payload that is absent has its own constructor. */
  datatype Value =
    | Simple(text: string)
    | Err(text: string)
    | Int(n: int64)
    | NilBulk
    | Bulk(data: string)
    | NilArray
    | Array(elems: seq<Value>)

  /** Line-oriented values may not contain the line terminator, and every size fits in a size_t. */
  predicate WellFormed(v: Value) {
    match v
    case Simple(s) => '\r' !in s
    case Err(s) => '\r' !in s
    case Int(_) => true
    case NilBulk => true
    case Bulk(s) => |s| < U64
    case NilArray => true
    case Array(es) => |es| < U64 && AllWellFormed(es)
  }

  predicate AllWellFormed(vs: seq<Value>) {
    forall i :: 0 <= i < |vs| ==> WellFormed(vs[i])
  }

  const CRLF := "\r\n"

  /** The bytes resp::encode produces. */
  function Encode(v: Value): (s: string)
    ensures |s| > 0
    decreases v
  {
    match v
    case Simple(t) => "+" + t + CRLF
    case Err(t) => "-" + t + CRLF
    case Int(n) => ":" + SignedToString(n) + CRLF
    case NilBulk => "$-1" + CRLF
    case Bulk(d) => "$" + ToString(|d|) + CRLF + d + CRLF
    case NilArray => "*-1" + CRLF
    case Array(es) => "*" + ToString(|es|) + CRLF + EncodeAll(es)
  }

  function EncodeAll(vs: seq<Value>): string
    decreases vs
  {
    if vs == [] then [] else Encode(vs[0]) + EncodeAll(vs[1..])
  }

  lemma {:induction false} EncodeAllSnoc(vs: seq<Value>, v: Value)
    ensures EncodeAll(vs + [v]) == EncodeAll(vs) + Encode(v)
  {
    if vs == [] {
      assert [v][1..] == [];
      assert vs + [v] == [v];
    } else {
      assert (vs + [v])[1..] == vs[1..] + [v];
      EncodeAllSnoc(vs[1..], v);
    }
  }
}
