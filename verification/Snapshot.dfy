/** The binary snapshot of a table (src/kvstore/HashTable.cpp, writetofile and readfromfile), as byte strings. */
module Snapshot {
  import opened Wrappers
  import opened Decimal
  import opened RespValue
  import opened RespMachine
  import opened RespRoundTrip
  import opened RespInvariant
  import opened HashTableSpec
  import opened HashTableRefinement

  const U32: nat := 0x1_0000_0000

  // ---- fixed-width integers ----

  function Byte(n: nat): (c: char)
    ensures FromByte(c) == n % 256
  {
    (n % 256) as char
  }

  /** Four bytes of a uint32_t, least significant first; larger values are truncated. */
  function Le32(n: nat): (s: string)
    ensures |s| == 4
  {
    [Byte(n), Byte(n / 0x100), Byte(n / 0x1_0000), Byte(n / 0x100_0000)]
  }

  function FromByte(c: char): nat {
    c as int % 256
  }

  function FromLe32(s: string): (n: nat)
    requires |s| >= 4
    ensures n < U32
  {
    FromByte(s[0]) + 0x100 * FromByte(s[1]) + 0x1_0000 * FromByte(s[2]) + 0x100_0000 * FromByte(s[3])
  }

  lemma FourDigits(n: nat)
    requires n < U32
    ensures n == n % 256 + 0x100 * (n / 0x100 % 256) + 0x1_0000 * (n / 0x1_0000 % 256)
                 + 0x100_0000 * (n / 0x100_0000 % 256)
  {
    var a, b, c := n / 0x100, n / 0x1_0000, n / 0x100_0000;
    assert n == 0x100 * a + n % 0x100;
    assert b == a / 0x100 && a == 0x100 * b + a % 0x100;
    assert c == b / 0x100 && b == 0x100 * c + b % 0x100;
    assert c < 0x100;
  }

  lemma Le32RoundTrip(n: nat, rest: string)
    requires n < U32
    ensures FromLe32(Le32(n) + rest) == n
  {
    var s := Le32(n) + rest;
    assert s[0] == Byte(n) && s[1] == Byte(n / 0x100) && s[2] == Byte(n / 0x1_0000) && s[3] == Byte(n / 0x100_0000);
    FourDigits(n);
  }

  // ---- writing ----

  function Record(i: nat, x: Bucket<Value>): string {
    if x.Occupied?
    then Le32(i) + Le32(|x.key|) + Le32(|Encode(x.value)|) + x.key + Encode(x.value)
    else []
  }

  function WriteFrom(b: seq<Bucket<Value>>, i: nat): string
    requires i <= |b|
    decreases |b| - i
  {
    if i == |b| then [] else Record(i, b[i]) + WriteFrom(b, i + 1)
  }

  function Write(t: Table<Value>): string {
    Le32(|t.buckets|) + Le32(t.sz) + WriteFrom(t.buckets, 0)
  }

  // ---- reading ----

  /** Loaded, an exception, or a file whose effect the code leaves open (short reads, an index out of range). */
  datatype ReadResult = Loaded(table: Table<Value>) | Failed | Open

  /** The first value a fresh parser gets out of the bytes of one value. */
  function ParseOne(text: string): Option<Value> {
    var r := RespMachine.Run(Idle([], []), text);
    if r.Next? && r.parser.queue != [] then Some(r.parser.queue[0]) else None
  }

  /** What one turn of the loop over the records does: a bucket is filled from the front of the bytes. */
  datatype Turn = Filled(buckets: seq<Bucket<Value>>, rest: string) | Unparsed | Unknown

  function ReadTurn(b: seq<Bucket<Value>>, s: string): Turn {
    if |s| < 12 then Unknown
    else
      var idx, keysize, valuesize := FromLe32(s), FromLe32(s[4..]), FromLe32(s[8..]);
      if idx >= |b| || |s| < 12 + keysize + valuesize then Unknown
      else
        var oldKey := if b[idx].Occupied? then b[idx].key else "";
        var oldValue := if b[idx].Occupied? then b[idx].value else NilArray;
        var key := if keysize > 0 then s[12..12 + keysize] else oldKey;
        var text := s[12 + keysize..12 + keysize + valuesize];
        var value := if valuesize > 0 then ParseOne(text) else Some(oldValue);
        if value.None? then (if RespMachine.Run(Idle([], []), text).Undefined? then Unknown else Unparsed)
        else Filled(b[idx := Occupied(key, value.value)], s[12 + keysize + valuesize..])
  }

  /** The loop over the records. */
  function ReadRecords(b: seq<Bucket<Value>>, s: string, count: nat, sz: nat): ReadResult
    decreases count
  {
    if count == 0 then Loaded(Table(b, sz))
    else
      match ReadTurn(b, s)
      case Filled(b', rest) => ReadRecords(b', rest, count - 1, sz)
      case Unparsed => Failed
      case Unknown => Open
  }

  function Read(s: string): ReadResult {
    if |s| < 8 then Open
    else ReadRecords(Blank(FromLe32(s)), s[8..], FromLe32(s[4..]), FromLe32(s[4..]))
  }

  // ---- the round trip ----

  /** Tombstones are not written, so they come back empty. */
  function Scrub(b: seq<Bucket<Value>>): (r: seq<Bucket<Value>>)
    ensures |r| == |b| && forall i :: 0 <= i < |b| ==> r[i] == if b[i].Deleted? then Empty else b[i]
  {
    seq(|b|, i requires 0 <= i < |b| => if b[i].Deleted? then Empty else b[i])
  }

  /** Sizes fit in 32 bits and values survive their own encoding. */
  ghost predicate Writable(x: Bucket<Value>) {
    x.Occupied? ==> |x.key| < U32 && |Encode(x.value)| < U32 && WellFormed(x.value)
  }

  lemma ParseOneEncoded(v: Value)
    requires WellFormed(v)
    ensures ParseOne(Encode(v)) == Some(v)
  {
    RoundTripExactly(v);
  }

  lemma Slices(a: string, b: string, c: string, key: string, text: string, rest: string)
    requires |a| == |b| == |c| == 4
    ensures var s := a + b + c + key + text + rest;
            && s == a + (b + (c + (key + (text + rest))))
            && s[4..] == b + (c + (key + (text + rest)))
            && s[8..] == c + (key + (text + rest))
            && s[12..12 + |key|] == key
            && s[12 + |key|..12 + |key| + |text|] == text
            && s[12 + |key| + |text|..] == rest
  {
    var s := a + b + c + key + text + rest;
    assert s == a + (b + (c + (key + (text + rest))));
    assert s[4..] == b + (c + (key + (text + rest)));
    assert s[8..] == c + (key + (text + rest));
    assert s[12..] == key + (text + rest);
    assert s[12..12 + |key|] == s[12..][..|key|];
    assert s[12 + |key|..] == text + rest;
    assert s[12 + |key|..12 + |key| + |text|] == s[12 + |key|..][..|text|];
  }

  /** One record read back. */
  lemma ReadOne(b: seq<Bucket<Value>>, i: nat, x: Bucket<Value>, rest: string)
    requires i < |b| < U32 && b[i].Empty? && x.Occupied? && Writable(x)
    ensures ReadTurn(b, Record(i, x) + rest) == Filled(b[i := x], rest)
  {
    var key, text := x.key, Encode(x.value);
    var a, k, v := Le32(i), Le32(|key|), Le32(|text|);
    var s := a + k + v + key + text + rest;
    assert Record(i, x) + rest == s;
    Slices(a, k, v, key, text, rest);
    Le32RoundTrip(i, k + (v + (key + (text + rest))));
    Le32RoundTrip(|key|, v + (key + (text + rest)));
    Le32RoundTrip(|text|, key + (text + rest));
    ParseOneEncoded(x.value);
  }

  /** The table while reading: the buckets before i restored, the others still empty. */
  function Partial(b: seq<Bucket<Value>>, i: nat): (r: seq<Bucket<Value>>)
    ensures |r| == |b|
  {
    seq(|b|, k requires 0 <= k < |b| => if k < i && !b[k].Deleted? then b[k] else Empty)
  }

  lemma PartialStep(b: seq<Bucket<Value>>, i: nat)
    requires i < |b|
    ensures Partial(b, i + 1) == if b[i].Occupied? then Partial(b, i)[i := b[i]] else Partial(b, i)
    ensures Partial(b, i)[i].Empty?
  {
  }

  lemma CountStep(b: seq<Bucket<Value>>, i: nat)
    requires i < |b|
    ensures Count(b[..i + 1]) == Count(b[..i]) + (if b[i].Occupied? then 1 else 0) <= Count(b)
  {
    assert b[..i + 1][..i] == b[..i];
    CountPrefix(b, i + 1);
  }

  /** The next bucket: its record, if it has one, is read back in its place. */
  lemma ReadNext(b: seq<Bucket<Value>>, i: nat, count: nat, sz: nat)
    requires i < |b| < U32 && Writable(b[i]) && (b[i].Occupied? ==> count > 0)
    ensures ReadRecords(Partial(b, i), WriteFrom(b, i), count, sz)
         == ReadRecords(Partial(b, i + 1), WriteFrom(b, i + 1), if b[i].Occupied? then count - 1 else count, sz)
  {
    PartialStep(b, i);
    if b[i].Occupied? {
      ReadOne(Partial(b, i), i, b[i], WriteFrom(b, i + 1));
    } else {
      assert WriteFrom(b, i) == WriteFrom(b, i + 1);
    }
  }

  lemma {:induction false} ReadBack(b: seq<Bucket<Value>>, i: nat, count: nat, sz: nat)
    requires i <= |b| < U32 && Count(b[..i]) + count == Count(b)
    requires forall k :: 0 <= k < |b| ==> Writable(b[k])
    ensures ReadRecords(Partial(b, i), WriteFrom(b, i), count, sz) == Loaded(Table(Scrub(b), sz))
    decreases |b| - i
  {
    if i == |b| {
      assert b[..i] == b;
      assert Partial(b, i) == Scrub(b);
    } else {
      CountStep(b, i);
      ReadNext(b, i, count, sz);
      ReadBack(b, i + 1, if b[i].Occupied? then count - 1 else count, sz);
    }
  }

  lemma {:induction false} CountPrefix(b: seq<Bucket<Value>>, i: nat)
    requires i <= |b|
    ensures Count(b[..i]) <= Count(b)
    decreases |b|
  {
    if i == |b| {
      assert b[..i] == b;
    } else {
      CountPrefix(b[..|b| - 1], i);
      assert b[..|b| - 1][..i] == b[..i];
    }
  }

  /** Reading a written table restores every pair at its own bucket index, and the size; tombstones come back as
      empty buckets. */
  lemma SnapshotRoundTrip(t: Table<Value>)
    requires |t.buckets| < U32 && t.sz == Count(t.buckets)
    requires forall k :: 0 <= k < |t.buckets| ==> Writable(t.buckets[k])
    ensures Read(Write(t)) == Loaded(Table(Scrub(t.buckets), t.sz))
  {
    HeaderRoundTrip(t);
    BodyRoundTrip(t);
  }

  lemma HeaderRoundTrip(t: Table<Value>)
    requires |t.buckets| < U32 && t.sz < U32
    ensures var s := Write(t);
            && |s| >= 8 && FromLe32(s) == |t.buckets| && FromLe32(s[4..]) == t.sz && s[8..] == WriteFrom(t.buckets, 0)
  {
    var n, body := |t.buckets|, WriteFrom(t.buckets, 0);
    var s := Write(t);
    assert s == Le32(n) + (Le32(t.sz) + body);
    assert s[4..] == Le32(t.sz) + body;
    assert s[8..] == body;
    Le32RoundTrip(n, Le32(t.sz) + body);
    Le32RoundTrip(t.sz, body);
  }

  lemma BodyRoundTrip(t: Table<Value>)
    requires |t.buckets| < U32 && t.sz == Count(t.buckets)
    requires forall k :: 0 <= k < |t.buckets| ==> Writable(t.buckets[k])
    ensures ReadRecords(Blank(|t.buckets|), WriteFrom(t.buckets, 0), t.sz, t.sz)
         == Loaded(Table(Scrub(t.buckets), t.sz))
  {
    assert Partial(t.buckets, 0) == Blank(|t.buckets|);
    assert t.buckets[..0] == [];
    ReadBack(t.buckets, 0, t.sz, t.sz);
  }

  /** What a table that was read can hold. */
  ghost predicate Readable(x: Bucket<Value>) {
    x.Occupied? ==> |x.key| < U32 && WellFormed(x.value)
  }

  lemma ParsedIsWellFormed(text: string)
    ensures ParseOne(text).Some? ==> WellFormed(ParseOne(text).value)
  {
    RunValid(Idle([], []), text);
  }

  ghost predicate AllReadable(b: seq<Bucket<Value>>) {
    forall k :: 0 <= k < |b| ==> Readable(b[k])
  }

  lemma TurnIsReadable(b: seq<Bucket<Value>>, s: string)
    requires AllReadable(b)
    ensures ReadTurn(b, s).Filled? ==> AllReadable(ReadTurn(b, s).buckets)
  {
    if ReadTurn(b, s).Filled? {
      var keysize, valuesize := FromLe32(s[4..]), FromLe32(s[8..]);
      assert Readable(b[FromLe32(s)]);
      ParsedIsWellFormed(s[12 + keysize..12 + keysize + valuesize]);
    }
  }

  lemma {:induction false} ReadIsReadable(b: seq<Bucket<Value>>, s: string, count: nat, sz: nat)
    requires AllReadable(b)
    ensures var r := ReadRecords(b, s, count, sz); r.Loaded? ==> AllReadable(r.table.buckets)
    decreases count
  {
    if count > 0 && ReadTurn(b, s).Filled? {
      TurnIsReadable(b, s);
      ReadIsReadable(ReadTurn(b, s).buckets, ReadTurn(b, s).rest, count - 1, sz);
    }
  }

  /** Values whose text is below 2^32 bytes long. */
  ghost predicate ShortValues(b: seq<Bucket<Value>>) {
    forall k :: 0 <= k < |b| && b[k].Occupied? ==> |Encode(b[k].value)| < U32
  }

  /** The round trip, exactly: reading a written table restores every pair at its own bucket index, and the size, if and
      only if every key is below 2^32 bytes long and every value survives its own encoding. */
  lemma SnapshotExactly(t: Table<Value>)
    requires |t.buckets| < U32 && t.sz == Count(t.buckets) && ShortValues(t.buckets)
    ensures Read(Write(t)) == Loaded(Table(Scrub(t.buckets), t.sz)) <==> AllReadable(t.buckets)
  {
    if AllReadable(t.buckets) {
      SnapshotRoundTrip(t);
    } else {
      ReadTable(Write(t));
      var k :| 0 <= k < |t.buckets| && !Readable(t.buckets[k]);
      assert Scrub(t.buckets)[k] == t.buckets[k];
    }
  }

  lemma ReadTable(s: string)
    ensures Read(s).Loaded? ==> AllReadable(Read(s).table.buckets)
  {
    if |s| >= 8 {
      ReadIsReadable(Blank(FromLe32(s)), s[8..], FromLe32(s[4..]), FromLe32(s[4..]));
    }
  }

  // ---- files that were not written by the code above ----

  /** What the bucket holds after a record: an empty key or value leaves what was there before. */
  function Overwritten(x: Bucket<Value>, key: string, value: Option<Value>): Bucket<Value> {
    Occupied(if key == "" && x.Occupied? then x.key else key,
             if value.Some? then value.value else if x.Occupied? then x.value else NilArray)
  }

  /** What a record of any key and text comes to: only the first value of the text counts, and malformed text is an
      exception or undefined, as the parser has it. */
  function TurnOf(b: seq<Bucket<Value>>, i: nat, key: string, text: string, rest: string): Turn
    requires i < |b|
  {
    var o := RespMachine.Run(Idle([], []), text);
    if text == "" then Filled(b[i := Overwritten(b[i], key, None)], rest)
    else if o.Undefined? then Unknown
    else if o.Threw? || o.parser.queue == [] then Unparsed
    else Filled(b[i := Overwritten(b[i], key, Some(o.parser.queue[0]))], rest)
  }

  lemma HeaderOf(i: nat, key: string, text: string, rest: string)
    requires i < U32 && |key| < U32 && |text| < U32
    ensures var s := Le32(i) + Le32(|key|) + Le32(|text|) + key + text + rest;
            && |s| == 12 + |key| + |text| + |rest|
            && FromLe32(s) == i && FromLe32(s[4..]) == |key| && FromLe32(s[8..]) == |text|
            && s[12..12 + |key|] == key && s[12 + |key|..12 + |key| + |text|] == text
            && s[12 + |key| + |text|..] == rest
  {
    var a, k, v := Le32(i), Le32(|key|), Le32(|text|);
    Slices(a, k, v, key, text, rest);
    Le32RoundTrip(i, k + (v + (key + (text + rest))));
    Le32RoundTrip(|key|, v + (key + (text + rest)));
    Le32RoundTrip(|text|, key + (text + rest));
  }

  /** One turn of the loop, on every record whose sizes are right. */
  lemma TurnExactly(b: seq<Bucket<Value>>, i: nat, key: string, text: string, rest: string)
    requires i < |b| < U32 && |key| < U32 && |text| < U32
    ensures ReadTurn(b, Le32(i) + Le32(|key|) + Le32(|text|) + key + text + rest) == TurnOf(b, i, key, text, rest)
  {
    HeaderOf(i, key, text, rest);
  }

  /** Bytes that begin like a record but hold less than its sizes say. */
  lemma ShortRecord(b: seq<Bucket<Value>>, i: nat, ks: nat, vs: nat, body: string)
    requires i < U32 && ks < U32 && vs < U32 && |body| < ks + vs
    ensures ReadTurn(b, Le32(i) + (Le32(ks) + (Le32(vs) + body))) == Unknown
  {
    var s := Le32(i) + (Le32(ks) + (Le32(vs) + body));
    assert s[4..] == Le32(ks) + (Le32(vs) + body);
    assert s[8..] == Le32(vs) + body;
    Le32RoundTrip(i, Le32(ks) + (Le32(vs) + body));
    Le32RoundTrip(ks, Le32(vs) + body);
    Le32RoundTrip(vs, body);
  }

  lemma CutRecord(i: nat, x: Bucket<Value>, n: nat)
    requires x.Occupied? && 12 <= n < |Record(i, x)|
    ensures var body := (x.key + Encode(x.value))[..n - 12];
            Record(i, x)[..n] == Le32(i) + (Le32(|x.key|) + (Le32(|Encode(x.value)|) + body))
  {
    CutAfterThree(Le32(i), Le32(|x.key|), Le32(|Encode(x.value)|), x.key, Encode(x.value), n);
  }

  lemma CutAfterThree(a: string, b: string, c: string, d: string, e: string, n: nat)
    requires |a| == |b| == |c| == 4 && 12 <= n <= 12 + |d + e|
    ensures (a + b + c + d + e)[..n] == a + (b + (c + (d + e)[..n - 12]))
  {
    var header, all := a + b + c, d + e;
    assert a + b + c + d + e == header + all;
    assert (header + all)[..n] == header + all[..n - 12];
    assert header + all[..n - 12] == a + (b + (c + all[..n - 12]));
  }

  /** A record cut short. */
  lemma TornRecord(b: seq<Bucket<Value>>, i: nat, x: Bucket<Value>, n: nat)
    requires i < |b| < U32 && x.Occupied? && Writable(x) && n < |Record(i, x)|
    ensures ReadTurn(b, Record(i, x)[..n]) == Unknown
  {
    if n >= 12 {
      CutRecord(i, x, n);
      ShortRecord(b, i, |x.key|, |Encode(x.value)|, (x.key + Encode(x.value))[..n - 12]);
    }
  }

  /** A cut within the next record, and one after it. */
  lemma TornHere(b: seq<Bucket<Value>>, i: nat, rest: string, count: nat, sz: nat, n: nat)
    requires i < |b| < U32 && b[i].Occupied? && Writable(b[i]) && count > 0 && n < |Record(i, b[i])|
    ensures ReadRecords(Partial(b, i), (Record(i, b[i]) + rest)[..n], count, sz) == Open
  {
    assert (Record(i, b[i]) + rest)[..n] == Record(i, b[i])[..n];
    TornRecord(Partial(b, i), i, b[i], n);
  }

  lemma TornLater(b: seq<Bucket<Value>>, i: nat, rest: string, count: nat, sz: nat, n: nat)
    requires i < |b| < U32 && b[i].Occupied? && Writable(b[i]) && count > 0
    requires |Record(i, b[i])| <= n <= |Record(i, b[i]) + rest|
    ensures ReadRecords(Partial(b, i), (Record(i, b[i]) + rest)[..n], count, sz)
         == ReadRecords(Partial(b, i + 1), rest[..n - |Record(i, b[i])|], count - 1, sz)
  {
    var r := Record(i, b[i]);
    PartialStep(b, i);
    assert (r + rest)[..n] == r + rest[..n - |r|];
    ReadOne(Partial(b, i), i, b[i], rest[..n - |r|]);
  }

  lemma TornNext(b: seq<Bucket<Value>>, i: nat, count: nat, sz: nat, n: nat)
    requires i < |b| < U32 && Writable(b[i]) && (b[i].Occupied? ==> count > 0) && n <= |WriteFrom(b, i)|
    ensures var m := |Record(i, b[i])|;
            && |WriteFrom(b, i)| == m + |WriteFrom(b, i + 1)|
            && ReadRecords(Partial(b, i), WriteFrom(b, i)[..n], count, sz)
               == if n < m then Open
                  else ReadRecords(Partial(b, i + 1), WriteFrom(b, i + 1)[..n - m],
                                   if b[i].Occupied? then count - 1 else count, sz)
  {
    var rest := WriteFrom(b, i + 1);
    if !b[i].Occupied? {
      PartialStep(b, i);
      assert WriteFrom(b, i) == rest;
    } else if n < |Record(i, b[i])| {
      TornHere(b, i, rest, count, sz, n);
    } else {
      TornLater(b, i, rest, count, sz, n);
    }
  }

  lemma {:induction false} TornBody(b: seq<Bucket<Value>>, i: nat, count: nat, sz: nat, n: nat)
    requires i <= |b| < U32 && Count(b[..i]) + count == Count(b) && n < |WriteFrom(b, i)|
    requires forall k :: 0 <= k < |b| ==> Writable(b[k])
    ensures ReadRecords(Partial(b, i), WriteFrom(b, i)[..n], count, sz) == Open
    decreases |b| - i
  {
    CountStep(b, i);
    TornNext(b, i, count, sz, n);
    var m := |Record(i, b[i])|;
    if n >= m {
      TornBody(b, i + 1, if b[i].Occupied? then count - 1 else count, sz, n - m);
    }
  }

  /** A snapshot file cut short anywhere is never taken for a table: the reads that come up short leave the numbers and
      buckets they were meant to fill undetermined. */
  lemma TornSnapshot(t: Table<Value>, n: nat)
    requires |t.buckets| < U32 && t.sz == Count(t.buckets) && n < |Write(t)|
    requires forall k :: 0 <= k < |t.buckets| ==> Writable(t.buckets[k])
    ensures Read(Write(t)[..n]) == Open
  {
    if n >= 8 {
      var s, body := Write(t)[..n], WriteFrom(t.buckets, 0);
      HeaderRoundTrip(t);
      assert s[8..] == body[..n - 8];
      assert s == Le32(|t.buckets|) + (Le32(t.sz) + body[..n - 8]);
      assert s[4..] == Le32(t.sz) + body[..n - 8];
      Le32RoundTrip(|t.buckets|, Le32(t.sz) + body[..n - 8]);
      Le32RoundTrip(t.sz, body[..n - 8]);
      assert Partial(t.buckets, 0) == Blank(|t.buckets|);
      assert t.buckets[..0] == [];
      TornBody(t.buckets, 0, t.sz, t.sz, n - 8);
    }
  }

  // ---- lookups after a reload ----

  /** What get answers on a bucket vector. */
  function Lookup(h: Hash, b: seq<Bucket<Value>>, key: string): Answer<Value>
    requires |b| > 0
  {
    Apply(h, Table(b, 0), Get(key)).1
  }

  /** No stored key's probe crosses a tombstone. */
  ghost predicate PathsClear(h: Hash, b: seq<Bucket<Value>>) {
    forall i, j :: 0 <= i < |b| && b[i].Occupied? && 0 <= j < Dist(Home(h, b[i].key, |b|), i, |b|) ==>
      !b[Pos(Home(h, b[i].key, |b|), j, |b|)].Deleted?
  }

  lemma LookupSpec(h: Hash, b: seq<Bucket<Value>>, key: string)
    requires ValidBuckets(h, b)
    ensures Lookup(h, b, key) == if key in Contents(b) then Value(Some(Contents(b)[key]))
                                 else if HasEmpty(b) then Value(None) else Answer.Threw
  {
    FindSpec(h, b, key);
  }

  lemma ScrubValid(h: Hash, b: seq<Bucket<Value>>)
    requires ValidBuckets(h, b) && PathsClear(h, b)
    ensures ValidBuckets(h, Scrub(b)) && Contents(Scrub(b)) == Contents(b)
    ensures HasEmpty(Scrub(b)) <==> HasEmpty(b) || !NoDeleted(b)
  {
    var r := Scrub(b);
    forall i | 0 <= i < |r| && r[i].Occupied?
      ensures Reaches(h, r, r[i].key, i)
    {
      assert Reaches(h, b, b[i].key, i);
    }
    forall key | key in Contents(b)
      ensures Stored(r, key)
    {
      var i :| 0 <= i < |b| && b[i].Occupied? && b[i].key == key;
      assert r[i] == b[i];
    }
    SameMap(r, Contents(b));
    if i :| 0 <= i < |b| && b[i].Empty? {
      assert r[i].Empty?;
    }
    if i :| 0 <= i < |b| && b[i].Deleted? {
      assert r[i].Empty?;
    }
  }

  /** A probe that meets an empty bucket before the key answers that the key is absent. */
  lemma {:induction false} ProbeStops(b: seq<Bucket<Value>>, home: nat, key: string, j: nat, e: nat)
    requires home < |b| && NoDeleted(b) && j <= e < |b| && b[Pos(home, e, |b|)].Empty?
    requires forall k :: 0 <= k < e ==> !(b[Pos(home, k, |b|)].Occupied? && b[Pos(home, k, |b|)].key == key)
    ensures var r := Probe(b, home, key, j, None);
            r.At? && !b[r.index].Occupied?
    decreases e - j
  {
    if j < e && !b[Pos(home, j, |b|)].Empty? {
      ProbeStops(b, home, key, j + 1, e);
    }
  }

  lemma BlockedKeyIsLost(h: Hash, b: seq<Bucket<Value>>, i: nat, j: nat)
    requires ValidBuckets(h, b) && i < |b| && b[i].Occupied?
    requires j < Dist(Home(h, b[i].key, |b|), i, |b|) && b[Pos(Home(h, b[i].key, |b|), j, |b|)].Deleted?
    ensures Lookup(h, b, b[i].key) == Value(Some(b[i].value)) && Lookup(h, Scrub(b), b[i].key) == Value(None)
  {
    var key, n := b[i].key, |b|;
    var home, r := Home(h, key, n), Scrub(b);
    forall k | 0 <= k < j
      ensures !(r[Pos(home, k, n)].Occupied? && r[Pos(home, k, n)].key == key)
    {
      assert Dist(home, Pos(home, k, n), n) == k;
    }
    ProbeStops(r, home, key, 0, j);
    LookupSpec(h, b, key);
    assert key in Contents(b);
  }

  lemma {:induction false} LongerThanAll(b: seq<Bucket<Value>>) returns (n: nat)
    ensures forall i :: 0 <= i < |b| && b[i].Occupied? ==> |b[i].key| < n
  {
    if b == [] {
      n := 0;
    } else {
      var m := LongerThanAll(b[..|b| - 1]);
      var x := b[|b| - 1];
      n := if x.Occupied? && |x.key| >= m then |x.key| + 1 else m;
      assert forall i :: 0 <= i < |b| - 1 ==> b[..|b| - 1][i] == b[i];
    }
  }

  lemma AbsentKey(b: seq<Bucket<Value>>) returns (key: string)
    requires UniqueKeys(b)
    ensures key !in Contents(b)
  {
    var n := LongerThanAll(b);
    key := seq(n, _ => '0');
    assert !Stored(b, key);
    StoredIsKey(b, key);
  }

  /** Every lookup agrees after a reload exactly when no stored key's probe path crosses a tombstone, and a table with
      tombstones still has an empty bucket. */
  lemma LookupsAgree(h: Hash, b: seq<Bucket<Value>>)
    requires ValidBuckets(h, b)
    ensures (forall key :: Lookup(h, Scrub(b), key) == Lookup(h, b, key)) <==>
            PathsClear(h, b) && (NoDeleted(b) || HasEmpty(b))
  {
    if PathsClear(h, b) {
      ScrubValid(h, b);
      forall key
        ensures Lookup(h, Scrub(b), key) == Lookup(h, b, key) <==> key in Contents(b) || NoDeleted(b) || HasEmpty(b)
      {
        LookupSpec(h, b, key);
        LookupSpec(h, Scrub(b), key);
        if NoDeleted(b) { assert Scrub(b) == b; }
      }
      var key := AbsentKey(b);
      assert Lookup(h, Scrub(b), key) == Lookup(h, b, key) <==> NoDeleted(b) || HasEmpty(b);
    } else {
      var i, j :| 0 <= i < |b| && b[i].Occupied? && 0 <= j < Dist(Home(h, b[i].key, |b|), i, |b|)
                  && b[Pos(Home(h, b[i].key, |b|), j, |b|)].Deleted?;
      BlockedKeyIsLost(h, b, i, j);
    }
  }

  /** Such a table is three calls away: of two keys with one home, the second moves on, and the first is erased. */
  function Crossed(h: Hash, a: string, va: Value, b: string, vb: Value): Table<Value> {
    HashTableRefinement.Run(h, NewTable<Value>(), [Set(a, va), Set(b, vb), Erase(a)]).0
  }

  lemma CrossedShape(h: Hash, a: string, va: Value, b: string, vb: Value)
    requires a != b && Home(h, a, INITIAL_BUCKETS) == Home(h, b, INITIAL_BUCKETS)
    ensures var p := Home(h, a, INITIAL_BUCKETS);
            var blank: seq<Bucket<Value>> := Blank(INITIAL_BUCKETS);
            Crossed(h, a, va, b, vb) == Table(blank[p := Deleted][Pos(p, 1, INITIAL_BUCKETS) := Occupied(b, vb)], 1)
  {
    var p, q := Home(h, a, INITIAL_BUCKETS), Pos(Home(h, a, INITIAL_BUCKETS), 1, INITIAL_BUCKETS);
    var t0 := NewTable<Value>();
    var t1 := Table(t0.buckets[p := Occupied(a, va)], 1);
    var t2 := Table(t1.buckets[q := Occupied(b, vb)], 2);
    assert Find(h, t0.buckets, a) == At(p) && Find(h, t2.buckets, a) == At(p);
    assert Pos(p, 0, INITIAL_BUCKETS) == p;
    assert Find(h, t1.buckets, b) == Probe(t1.buckets, p, b, 1, None) == At(q);
    RunThree(h, t0, Set(a, va), Set(b, vb), Erase(a));
    assert Apply(h, t0, Set(a, va)).0 == t1 && Apply(h, t1, Set(b, vb)).0 == t2;
  }

  lemma RunThree(h: Hash, t: Table<Value>, x: Op<Value>, y: Op<Value>, z: Op<Value>)
    requires |t.buckets| > 0
    ensures HashTableRefinement.Run(h, t, [x, y, z]).0 == Apply(h, Apply(h, Apply(h, t, x).0, y).0, z).0
  {
    assert [x, y, z] == [x, y] + [z] && [x, y] == [x] + [y] && [x] == [] + [x];
    HashTableRefinement.RunSnoc(h, t, [x, y], z);
    HashTableRefinement.RunSnoc(h, t, [x], y);
    HashTableRefinement.RunSnoc(h, t, [], x);
  }

  /** For every hash function: the second key is there before the snapshot is written, and gone after it is read. */
  lemma ReloadLosesKey(h: Hash, a: string, va: Value, b: string, vb: Value)
    requires a != b && Home(h, a, INITIAL_BUCKETS) == Home(h, b, INITIAL_BUCKETS) && Writable(Occupied(b, vb))
    ensures var t := Crossed(h, a, va, b, vb);
            && Lookup(h, t.buckets, b) == Value(Some(vb))
            && Read(Write(t)) == Loaded(Table(Scrub(t.buckets), 1)) && Lookup(h, Scrub(t.buckets), b) == Value(None)
  {
    var t := Crossed(h, a, va, b, vb);
    CrossedShape(h, a, va, b, vb);
    RunRefines(h, [Set(a, va), Set(b, vb), Erase(a)], 0);
    var p := Home(h, a, INITIAL_BUCKETS);
    var q := Pos(p, 1, INITIAL_BUCKETS);
    assert Dist(p, q, INITIAL_BUCKETS) == 1 && Pos(p, 0, INITIAL_BUCKETS) == p;
    BlockedKeyIsLost(h, t.buckets, q, 0);
    SnapshotRoundTrip(t);
  }

  /** In particular a table without tombstones comes back identical, under the same condition. */
  lemma NoTombstonesIdentical(t: Table<Value>)
    requires |t.buckets| < U32 && t.sz == Count(t.buckets) && NoDeleted(t.buckets) && ShortValues(t.buckets)
    ensures Read(Write(t)) == Loaded(t) <==> AllReadable(t.buckets)
  {
    SnapshotExactly(t);
    assert Scrub(t.buckets) == t.buckets;
  }
}
