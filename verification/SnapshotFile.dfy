/** Writing and reading a table object's snapshot (src/kvstore/HashTable.cpp). */
module SnapshotFile {
  import opened Wrappers
  import opened RespValue
  import opened RespEncoder
  import opened RespMachine
  import opened RespParserClass
  import opened HashTableSpec
  import opened HashTableRefinement
  import opened HashTableClass
  import opened Snapshot

  datatype LoadStatus = LoadDone | LoadFailed | LoadOpen

  /** writetofile; the loop counter is a uint32_t. */
  method WriteToFile(t: HashTable<Value>) returns (file: string)
    requires t.bucketsz == |t.buckets| < U32
    ensures file == Write(t.View())
  {
    var header := Le32(t.bucketsz);
    header := header + Le32(t.sz);
    file := WriteBuckets(t.buckets, header);
  }

  /** The loop over the buckets. */
  method WriteBuckets(b: seq<Bucket<Value>>, header: string) returns (file: string)
    ensures file == header + WriteFrom(b, 0)
  {
    file := header;
    ghost var all := header + WriteFrom(b, 0);
    for i := 0 to |b|
      invariant all == file + WriteFrom(b, i)
    {
      file := WriteRecord(i, b[i], file, WriteFrom(b, i + 1));
    }
  }

  /** One turn of the loop; the bytes still to come are named only to state where it leaves off. */
  method WriteRecord(i: nat, node: Bucket<Value>, file: string, ghost rest: string) returns (out: string)
    ensures file + (Record(i, node) + rest) == out + rest
  {
    out := file;
    if node.Occupied? {
      var value := EncodeValue(node.value);
      out := out + Le32(i);
      out := out + Le32(|node.key|);
      out := out + Le32(|value|);
      out := out + node.key;
      out := out + value;
      assert out == file + Record(i, node);
    }
  }

  /** The bytes of one value, through a fresh parser. */
  method ParseValue(text: string) returns (status: LoadStatus, v: Value)
    ensures status == LoadDone ==> ParseOne(text) == Some(v)
    ensures status == LoadFailed ==> ParseOne(text) == None && !RespMachine.Run(Idle([], []), text).Undefined?
    ensures status == LoadOpen ==> RespMachine.Run(Idle([], []), text).Undefined?
  {
    v := NilArray;
    var parser := new RespParser();
    var s := parser.Append(text);
    if s.Undef? { return LoadOpen, v; }
    if s.Failed? { return LoadFailed, v; }
    var r := parser.GetResult();
    if r.None? { return LoadFailed, v; }
    return LoadDone, r.value;
  }

  /** One turn of the reading loop: a bucket filled from the front of the remaining bytes. */
  method ReadRecord(b: seq<Bucket<Value>>, s: string) returns (status: LoadStatus, b': seq<Bucket<Value>>, rest: string)
    ensures |b'| == |b|
    ensures ReadTurn(b, s) == match status
                              case LoadDone => Filled(b', rest)
                              case LoadFailed => Unparsed
                              case LoadOpen => Unknown
  {
    status, b', rest := LoadOpen, b, s;
    if |s| < 12 { return; }
    var idx, keysize, valuesize := FromLe32(s), FromLe32(s[4..]), FromLe32(s[8..]);
    if idx >= |b| || |s| < 12 + keysize + valuesize { return; }
    var key := if b[idx].Occupied? then b[idx].key else "";
    var value := if b[idx].Occupied? then b[idx].value else NilArray;
    if keysize > 0 {
      key := s[12..12 + keysize];
    }
    if valuesize > 0 {
      status, value := ParseValue(s[12 + keysize..12 + keysize + valuesize]);
      if status != LoadDone { return; }
    }
    status, b', rest := LoadDone, b[idx := Occupied(key, value)], s[12 + keysize + valuesize..];
  }

  /** readfromfile. */
  method ReadFromFile(t: HashTable<Value>, file: string) returns (status: LoadStatus)
    modifies t
    ensures match Read(file)
            case Loaded(table) => status == LoadDone && t.View() == table && t.bucketsz == |t.buckets|
            case Failed => status == LoadFailed
            case Open => status == LoadOpen
  {
    if |file| < 8 { return LoadOpen; }
    t.bucketsz := FromLe32(file);
    t.buckets := Blank(t.bucketsz);
    var validsz := FromLe32(file[4..]);
    t.sz := validsz;
    var rest, left := file[8..], validsz;
    ghost var result := Read(file);
    assert result == ReadRecords(t.buckets, rest, left, validsz);
    while left > 0
      invariant t.bucketsz == |t.buckets| && t.sz == validsz
      invariant result == ReadRecords(t.buckets, rest, left, validsz)
    {
      var b;
      status, b, rest := ReadRecord(t.buckets, rest);
      t.buckets := b;
      if status != LoadDone { return; }
      left := left - 1;
    }
    status := LoadDone;
  }

  /** Saving one table and loading the file into another: the second holds exactly the first one's pairs, bucket by
      bucket, if and only if every key fits in 32 bits of size and every value survives its encoding; and then it is the
      same table when the first had no tombstone. */
  method SaveAndLoad(t: HashTable<Value>, t2: HashTable<Value>) returns (status: LoadStatus)
    requires t.Valid() && t2 != t && t.bucketsz < U32 && ShortValues(t.buckets)
    modifies t2
    ensures status == LoadDone && t2.View() == Table(Scrub(t.buckets), t.sz) <==> AllReadable(t.buckets)
    ensures AllReadable(t.buckets) ==> t2.bucketsz == t.bucketsz && (NoDeleted(t.buckets) ==> t2.View() == t.View())
  {
    var file := WriteToFile(t);
    SnapshotExactly(t.View());
    status := ReadFromFile(t2, file);
    if NoDeleted(t.buckets) {
      NoTombstonesIdentical(t.View());
    }
  }
}
