/** The formats written out: bytes that each encoder produces for given values. */
module Formats {
  import opened Decimal
  import opened RespValue
  import opened HashTableSpec
  import opened HashTableRefinement
  import opened Snapshot
  import opened Raft
  import opened RaftDisk

  lemma Digits()
    ensures ToString(0) == "0" && ToString(7) == "7" && ToString(15) == "15" && ToString(1024) == "1024"
    ensures SignedToString(-42) == "-42" && SignedToString(42) == "42"
  {
    assert ToString(1) == "1" && ToString(4) == "4" && ToString(5) == "5" && ToString(2) == "2";
    assert ToString(10) == "10" && ToString(102) == "102" && ToString(42) == "42";
  }

  /** Lines, and what stands for nothing. */
  lemma RespLines()
    ensures Encode(Simple("OK")) == "+OK\r\n"
    ensures Encode(Err("MOVED 7")) == "-MOVED 7\r\n"
    ensures Encode(Int(-42)) == ":-42\r\n"
    ensures Encode(NilBulk) == "$-1\r\n"
    ensures Encode(NilArray) == "*-1\r\n"
  {
    Digits();
  }

  /** Data of a given size, line ends included. */
  lemma RespData()
    ensures Encode(Bulk("a\r\nb")) == "$4\r\na\r\nb\r\n"
    ensures Encode(Bulk("")) == "$0\r\n\r\n"
    ensures Encode(Bulk("vv")) == "$2\r\nvv\r\n"
  {
    assert ToString(4) == "4" && ToString(0) == "0" && ToString(2) == "2";
  }

  lemma ThreeElements(es: seq<Value>)
    requires |es| == 3
    ensures Encode(Array(es)) == "*3\r\n" + EncodeAll(es)
  {
    assert ToString(3) == "3";
    ThreeHeader();
    assert Encode(Array(es)) == "*" + "3" + CRLF + EncodeAll(es);
  }

  lemma ThreeHeader()
    ensures "*" + "3" + CRLF == "*3\r\n"
  {
  }

  lemma NoElements()
    ensures Encode(Array([])) == "*0\r\n"
  {
    assert ToString(0) == "0";
  }

  /** A request as a client sends it. */
  lemma RequestBytes(es: seq<Value>)
    requires es == [Simple("SET"), Simple("k"), Bulk("vv")]
    ensures Encode(Array(es)) == "*3\r\n" + "+SET\r\n+k\r\n$2\r\nvv\r\n"
  {
    ThreeElements(es);
    RequestBody(es);
  }

  lemma RequestBody(es: seq<Value>)
    requires es == [Simple("SET"), Simple("k"), Bulk("vv")]
    ensures EncodeAll(es) == "+SET\r\n+k\r\n$2\r\nvv\r\n"
  {
    RespData();
    var two, one := es[1..], es[1..][1..];
    assert two == [Simple("k"), Bulk("vv")] && one == [Bulk("vv")] && one[1..] == [];
    assert EncodeAll(one) == "$2\r\nvv\r\n";
    assert Encode(two[0]) == "+k\r\n";
    assert EncodeAll(two) == "+k\r\n$2\r\nvv\r\n";
    assert Encode(es[0]) == "+SET\r\n";
  }

  function Bytes(ns: seq<nat>): (s: string)
    ensures |s| == |ns|
  {
    seq(|ns|, i requires 0 <= i < |ns| => (ns[i] % 256) as char)
  }

  /** A table of two buckets, the second of which holds a pair: bucket count, size, then index, key size, value size,
      key and value, all numbers in four bytes with the lowest first. */
  lemma SnapshotBytes()
    ensures Write(Table([Bucket.Empty, Occupied("k", Simple("v"))], 1))
         == Bytes([2, 0, 0, 0, 1, 0, 0, 0]) + (Bytes([1, 0, 0, 0, 1, 0, 0, 0, 4, 0, 0, 0]) + "k" + "+v\r\n")
    ensures Le32(0x01020304) == Bytes([4, 3, 2, 1])
  {
    var b := [Bucket.Empty, Occupied("k", Simple("v"))];
    assert Encode(Simple("v")) == "+v\r\n";
    assert Le32(1) == Bytes([1, 0, 0, 0]) && Le32(2) == Bytes([2, 0, 0, 0]) && Le32(4) == Bytes([4, 0, 0, 0]);
    assert Le32(2) + Le32(1) == Bytes([2, 0, 0, 0, 1, 0, 0, 0]);
    assert Le32(1) + Le32(1) + Le32(4) == Bytes([1, 0, 0, 0, 1, 0, 0, 0, 4, 0, 0, 0]);
    assert Record(1, b[1]) == Bytes([1, 0, 0, 0, 1, 0, 0, 0, 4, 0, 0, 0]) + "k" + "+v\r\n";
    assert WriteFrom(b, 2) == [];
    assert WriteFrom(b, 1) == Record(1, b[1]);
    assert WriteFrom(b, 0) == Record(1, b[1]);
  }

  /** The lines of a Raft log. */
  lemma RaftLogLines()
    ensures Spell([Entry(7, "SET k v"), Entry(15, "DEL k")]) == "7 SET k v\n15 DEL k\n"
  {
    Digits();
    var es := [Entry(7, "SET k v"), Entry(15, "DEL k")];
    assert es[..1] == [Entry(7, "SET k v")] && es[..1][..0] == [];
    assert Spell(es[..1]) == "7 SET k v\n";
    assert Line(es[1]) == "15 DEL k\n";
  }
}
