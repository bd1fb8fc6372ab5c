/** The encoders of src/resp/RespEncoder.cpp: each appends to a string it is handed. */
module RespEncoder {
  import opened Decimal
  import opened RespValue

  method EncodeSimpleString(msg: string, str: string) returns (out: string)
    ensures out == str + Encode(Simple(msg))
  {
    out := str + "+";
    out := out + msg;
    out := out + CRLF;
  }

  method EncodeError(msg: string, str: string) returns (out: string)
    ensures out == str + Encode(Err(msg))
  {
    out := str + "-";
    out := out + msg;
    out := out + CRLF;
  }

  method EncodeInteger(n: int64, str: string) returns (out: string)
    ensures out == str + Encode(Int(n))
  {
    out := str + ":";
    out := out + SignedToString(n);
    out := out + CRLF;
  }

  method EncodeBulkString(v: Value, str: string) returns (out: string)
    requires v.NilBulk? || v.Bulk?
    ensures out == str + Encode(v)
  {
    out := str + "$";
    if v.NilBulk? {
      out := out + "-1\r\n";
      assert Encode(v) == "$" + "-1\r\n";
    } else {
      var d := v.data;
      assert Encode(v) == "$" + ToString(|d|) + CRLF + d + CRLF;
      out := out + ToString(|d|);
      out := out + CRLF;
      out := out + d;
      out := out + CRLF;
    }
  }

  method EncodeScalar(v: Value, str: string) returns (out: string)
    requires !v.NilArray? && !v.Array?
    ensures out == str + Encode(v)
  {
    if v.Simple? {
      out := EncodeSimpleString(v.text, str);
    } else if v.Err? {
      out := EncodeError(v.text, str);
    } else if v.Int? {
      out := EncodeInteger(v.n, str);
    } else {
      out := EncodeBulkString(v, str);
    }
  }

  /** encodeArray: a header, then every element in a loop that recurses on nested arrays. */
  method EncodeArray(v: Value, str: string) returns (out: string)
    requires v.NilArray? || v.Array?
    ensures out == str + Encode(v)
    decreases v
  {
    if v.NilArray? {
      out := str + "*-1\r\n";
      return;
    }
    out := str + "*";
    out := out + ToString(|v.elems|);
    out := out + CRLF;
    ghost var header := "*" + ToString(|v.elems|) + CRLF;
    assert EncodeAll(v.elems[..0]) == [];
    for i := 0 to |v.elems|
      invariant out == str + header + EncodeAll(v.elems[..i])
    {
      var e := v.elems[i];
      assert v.elems[..i + 1] == v.elems[..i] + [e];
      EncodeAllSnoc(v.elems[..i], e);
      if e.NilArray? || e.Array? {
        out := EncodeArray(e, out);
      } else {
        out := EncodeScalar(e, out);
      }
    }
    assert v.elems[..|v.elems|] == v.elems;
  }

  /** resp::encode. */
  method EncodeValue(v: Value) returns (out: string)
    ensures out == Encode(v)
  {
    if v.NilArray? || v.Array? {
      out := EncodeArray(v, "");
    } else {
      out := EncodeScalar(v, "");
    }
  }
}
