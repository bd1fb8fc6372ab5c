/** HashTable::gethash (src/kvstore/HashTable.cpp). The theorems hold for every hash function; with this one, and the
    sixteen shards of the program, the store reaches the states in which calls fail. */
module StringHash {
  import opened Wrappers
  import opened RespValue
  import opened HashTableSpec
  import opened HashTableRefinement
  import opened Snapshot
  import opened Crowding
  import opened Mixer

  const SEED: nat := 2654435761
  const PRIME: nat := 16777619

  /** A char widened to uint32_t: from 128 on it is negative. */
  function Widen(c: char): nat {
    var n := c as int % 256;
    if n < 128 then n else n + 0xFFFF_FF00
  }

  /** One turn of the loop. */
  function Fold(h: nat, c: char): nat {
    Xor(h, Widen(c)) * PRIME % U32
  }

  function GetHash(key: string): nat {
    if key == [] then SEED else Fold(GetHash(key[..|key| - 1]), key[|key| - 1])
  }

  // ---- what the hash keeps of a key ----

  /** The signed value of a byte. */
  function Signed(c: char): (n: int)
    ensures -128 <= n < 128 && (c as int - n) % 256 == 0
  {
    var n := c as int % 256;
    if n < 128 then n else n - 256
  }

  /** A char is widened as the signed number it is: from 128 on to the top of the 32-bit range. */
  lemma WidensSigned(c: char)
    ensures Widen(c) == if Signed(c) < 0 then 0x1_0000_0000 + Signed(c) else Signed(c)
  {
  }

  lemma {:induction false} XorComm(a: nat, b: nat)
    ensures Xor(a, b) == Xor(b, a)
    decreases a + b
  {
    if a + b > 0 {
      XorComm(a / 2, b / 2);
    }
  }

  lemma ThirtyTwo()
    ensures Pow2(32) == U32
  {
    assert Pow2(2) == 4;
    Pow2Double(2, 2);
    Pow2Double(4, 4);
    Pow2Double(8, 8);
    Pow2Double(16, 16);
  }

  lemma WidenBound(h: nat, c: char)
    requires h < U32
    ensures Xor(h, Widen(c)) < U32
  {
    ThirtyTwo();
    XorBound(h, Widen(c), 32);
  }

  lemma Xor32(x: nat, y: nat)
    ensures Xor(Xor(x, y), y) == x
  {
    XorAssoc(x, y, y);
    XorZero(y);
    XorZero(x);
  }

  /** x * c % 2^32 undone, as TimesUndone does it for 64 bits. */
  lemma PrimeUndone(x: nat)
    requires x < 0x1_0000_0000
    ensures x * 16777619 % 0x1_0000_0000 * 0x359c449b % 0x1_0000_0000 == x
  {
    var y := x * 16777619;
    var q := y / 0x1_0000_0000;
    assert y % 0x1_0000_0000 == y - q * 0x1_0000_0000;
    assert 16777619 * 0x359c449b == 1 + 3513497 * 0x1_0000_0000;
    var k := x * 3513497 - q * 0x359c449b;
    assert y % 0x1_0000_0000 * 0x359c449b == x + 0x1_0000_0000 * k;
    Wraps(x, k);
  }

  lemma Wraps(x: nat, k: int)
    requires x < 0x1_0000_0000 && x + 0x1_0000_0000 * k >= 0
    ensures (x + 0x1_0000_0000 * k) % 0x1_0000_0000 == x
  {
  }

  /** One turn of the loop run backwards, with the inverse of the multiplier written out. */
  function Unfold(g: nat, c: char): nat {
    Xor(g * 0x359c449b % 0x1_0000_0000, if Signed(c) < 0 then 0x1_0000_0000 + Signed(c) else Signed(c))
  }

  lemma UnfoldFold(h: nat, c: char)
    requires h < U32
    ensures Unfold(Fold(h, c), c) == h && Fold(h, c) < U32
  {
    WidenBound(h, c);
    PrimeUndone(Xor(h, Widen(c)));
    Xor32(h, Widen(c));
    WidensSigned(c);
  }

  /** From the hash of a key its letters lead back, from last to first, to the fixed start value. */
  function Unhash(g: nat, key: string): nat
    decreases |key|
  {
    if key == [] then g else Unhash(Unfold(g, key[|key| - 1]), key[..|key| - 1])
  }

  lemma {:induction false} UnhashHash(key: string)
    ensures GetHash(key) < U32 && Unhash(GetHash(key), key) == 0x9e3779b1
    decreases |key|
  {
    if key != [] {
      UnhashHash(key[..|key| - 1]);
      UnfoldFold(GetHash(key[..|key| - 1]), key[|key| - 1]);
    }
  }

  /** The multiplication keeps different numbers apart. */
  lemma SameBefore(g: nat, h: nat, c: char, d: char)
    requires g < U32 && h < U32 && Fold(g, c) == Fold(h, d)
    ensures Xor(g, Widen(c)) == Xor(h, Widen(d))
  {
    WidenBound(g, c);
    WidenBound(h, d);
    PrimeUndone(Xor(g, Widen(c)));
    PrimeUndone(Xor(h, Widen(d)));
  }

  /** Hashes that are equal after one more letter: if the letter was the same so were the hashes before, and if these
      were the same so was the byte. */
  lemma FoldsAgree(g: nat, h: nat, c: char, d: char)
    requires g < U32 && h < U32
    ensures Fold(g, c) == Fold(h, d) ==> (c == d ==> g == h) && (g == h ==> (c as int - d as int) % 256 == 0)
  {
    if Fold(g, c) == Fold(h, d) {
      SameBefore(g, h, c, d);
      Xor32(g, Widen(c));
      Xor32(h, Widen(d));
      XorComm(g, Widen(c));
      XorComm(h, Widen(d));
      Xor32(Widen(c), g);
      Xor32(Widen(d), h);
    }
  }

  lemma HashSnoc(key: string, c: char)
    ensures GetHash(key + [c]) == Fold(GetHash(key), c) && GetHash(key) < U32
  {
    assert (key + [c])[..|key|] == key;
    UnhashHash(key);
  }

  /** Keys of one length that differ in a single byte never have the same hash. */
  lemma {:induction false} OneByteApart(a: string, c: char, d: char, b: string)
    requires (c as int - d as int) % 256 != 0
    ensures GetHash(a + [c] + b) != GetHash(a + [d] + b)
    decreases |b|
  {
    if b == [] {
      assert a + [c] + b == a + [c] && a + [d] + b == a + [d];
      HashSnoc(a, c);
      HashSnoc(a, d);
      FoldsAgree(GetHash(a), GetHash(a), c, d);
    } else {
      var b', e := b[..|b| - 1], b[|b| - 1];
      var x, y := a + [c] + b', a + [d] + b';
      assert a + [c] + b == x + [e] && a + [d] + b == y + [e];
      OneByteApart(a, c, d, b');
      HashSnoc(x, e);
      HashSnoc(y, e);
      FoldsAgree(GetHash(x), GetHash(y), e, e);
    }
  }

  // ---- one-letter keys in a new table ----

  /** An exclusive or, one bit at a time. */
  lemma Double(a: nat, b: nat, x: nat, y: nat)
    requires x < 2 && y < 2
    ensures Xor(2 * a + x, 2 * b + y) == 2 * Xor(a, b) + if x == y then 0 else 1
  {
    assert (2 * a + x) / 2 == a && (2 * b + y) / 2 == b;
  }

  function Flip(k: nat): nat {
    if k % 2 == 0 then k + 1 else k - 1
  }

  /** Two bits, of which the first number's are e. */
  lemma TwoBits(p: nat, q: nat, e: nat, k: nat)
    requires e < 2 && k < 4
    ensures Xor(4 * p + e, 4 * q + k) == 4 * Xor(p, q) + if e == 0 then k else Flip(k)
  {
    Double(2 * p, 2 * q + k / 2, e, k % 2);
    Double(p, q, 0, k / 2);
  }

  lemma FourBits(x: nat, y: nat, z: nat, k: nat)
    requires k < 16 && x == 4 * y + Flip(k % 4) && y == 4 * z + k / 4
    ensures x == 16 * z + Flip(k)
  {
  }

  lemma XorLow(p: nat, q: nat, a: nat, b: nat, k: nat)
    requires k < 16 && a == 4 * p && b == 4 * q + k / 4
    ensures Xor(4 * a + 1, 4 * b + k % 4) == 16 * Xor(p, q) + Flip(k)
  {
    TwoBits(a, b, 1, k % 4);
    TwoBits(p, q, 0, k / 4);
    FourBits(Xor(4 * a + 1, 4 * b + k % 4), Xor(a, b), Xor(p, q), k);
  }

  lemma Mod16(z: int, w: int)
    ensures (16 * z + w) % 16 == w % 16
  {
  }

  lemma TimesLow(x: nat, z: nat, r: nat)
    requires x == 16 * z + r
    ensures x * PRIME % U32 % 16 == 3 * r % 16
  {
    var y := x * PRIME;
    var q := y / U32;
    assert y == 16 * (z * PRIME + r * 1048601) + 3 * r;
    assert y % U32 == y - U32 * q;
    assert y % U32 == 16 * (z * PRIME + r * 1048601 - 0x1000_0000 * q) + 3 * r;
    Mod16(z * PRIME + r * 1048601 - 0x1000_0000 * q, 3 * r);
  }

  lemma LowOfFold(h: nat, p: nat, c: char, hi: nat, k: nat)
    requires h == 16 * p + 1 && c as int == 16 * hi + k < 128 && k < 16
    ensures Fold(h, c) % 16 == 3 * Flip(k) % 16
  {
    XorOneLetter(h, p, hi, k);
    assert Widen(c) == 16 * hi + k;
    TimesLow(Xor(h, 16 * hi + k), Xor(p, hi), Flip(k));
  }

  lemma XorOneLetter(h: nat, p: nat, hi: nat, k: nat)
    requires h == 16 * p + 1 && k < 16
    ensures Xor(h, 16 * hi + k) == 16 * Xor(p, hi) + Flip(k)
  {
    var a, b := 4 * p, 4 * hi + k / 4;
    SplitLow(p, hi, k, a, b);
    XorLow(p, hi, a, b, k);
  }

  lemma SplitLow(p: nat, hi: nat, k: nat, a: nat, b: nat)
    requires a == 4 * p && b == 4 * hi + k / 4
    ensures 4 * a + 1 == 16 * p + 1 && 4 * b + k % 4 == 16 * hi + k
  {
  }

  /** The bucket of a one-letter key in a new table. */
  lemma OneLetter(c: char, hi: nat, k: nat)
    requires c as int == 16 * hi + k < 128 && k < 16
    ensures Home(GetHash, [c], INITIAL_BUCKETS) == 3 * Flip(k) % 16
  {
    assert [c][..0] == [];
    var h := GetHash([]);
    assert GetHash([c]) == Fold(h, c);
    LowOfFold(h, 165902235, c, hi, k);
  }

  /** The keys that fill a new table from its first bucket to its last; all are single characters from ` to o. */
  function KeyFor(i: nat): string
    requires i < INITIAL_BUCKETS
  {
    [(96 + Flip(11 * i % 16)) as char]
  }

  lemma KeyForHome(i: nat)
    requires i < INITIAL_BUCKETS
    ensures Home(GetHash, KeyFor(i), INITIAL_BUCKETS) == i
  {
    var k := Flip(11 * i % 16);
    FlipTwice(11 * i % 16);
    TimesThree(i, 11 * i % 16, 11 * i / 16);
    OneLetter((96 + k) as char, 6, k);
  }

  lemma FlipTwice(r: nat)
    requires r < 16
    ensures Flip(Flip(r)) == r && Flip(r) < 16
  {
  }

  lemma TimesThree(i: nat, r: nat, q: nat)
    requires i < 16 && 11 * i == 16 * q + r
    ensures 3 * r % 16 == i
  {
    assert 3 * r == i + 16 * (2 * i - 3 * q);
  }

  /** A table used on its own, with this hash: after sixteen one-letter keys have been set and erased it holds nothing
      and throws on every call. (In the store these keys go to sixteen different shards.) */
  lemma ProgramTableThrows<T>(value: T, ops: seq<Op<T>>, k: nat)
    requires k < |ops|
    ensures var keys := seq(INITIAL_BUCKETS, i requires 0 <= i < INITIAL_BUCKETS => KeyFor(i));
            var t := Run(GetHash, NewTable<T>(), FillAndErase(keys, value)).0;
            UniqueKeys(t.buckets) && Contents(t.buckets) == map[] && Run(GetHash, t, ops).1[k].Threw?
  {
    var keys := seq(INITIAL_BUCKETS, i requires 0 <= i < INITIAL_BUCKETS => KeyFor(i));
    forall i | 0 <= i < |keys|
      ensures Home(GetHash, keys[i], INITIAL_BUCKETS) == i
    {
      KeyForHome(i);
    }
    EmptyTableThrows(GetHash, keys, value, ops, k);
  }

  /** And a reload can lose a key: the program stores a and q, which share a bucket, and erases a. */
  lemma ProgramReloadLosesKey(va: Value, vb: Value)
    requires Writable(Occupied("q", vb))
    ensures var t := Crossed(GetHash, "a", va, "q", vb);
            && Lookup(GetHash, t.buckets, "q") == HashTableRefinement.Value(Some(vb))
            && Read(Write(t)) == Loaded(Table(Scrub(t.buckets), 1))
            && Lookup(GetHash, Scrub(t.buckets), "q") == HashTableRefinement.Value(None)
  {
    OneLetter('a', 6, 1);
    OneLetter('q', 7, 1);
    ReloadLosesKey(GetHash, "a", va, "q", vb);
  }

  // ---- keys of one shard ----

  const SHARD_COUNT: nat := 16

  /** All keys of a shard have one home bucket in a table of sixteen, so no call throws before the table has grown. */
  lemma ProgramSmallTable<T>(ops: seq<Op<T>>, op: Op<T>, i: nat)
    requires i < SHARD_COUNT && forall k :: 0 <= k < |ops| ==> Home(GetHash, ops[k].key, SHARD_COUNT) == i
    requires |Run(GetHash, NewTable<T>(), ops).0.buckets| == INITIAL_BUCKETS
    ensures !Apply(GetHash, Run(GetHash, NewTable<T>(), ops).0, op).1.Threw?
  {
    OneHomeNeverThrows(GetHash, ops, op, i);
  }

  /** Equal low halves of a byte cancel out. */
  lemma TwoEqual(p: nat, q: nat, r: nat)
    requires r < 4
    ensures Xor(4 * p + r, 4 * q + r) == 4 * Xor(p, q)
  {
    Double(2 * p + r / 2, 2 * q + r / 2, r % 2, r % 2);
    Double(p, q, r / 2, r / 2);
  }

  lemma FourEqual(p: nat, q: nat, a: nat, b: nat, r: nat)
    requires r < 16 && a == 4 * p + r / 4 && b == 4 * q + r / 4
    ensures Xor(4 * a + r % 4, 4 * b + r % 4) == 16 * Xor(p, q)
  {
    TwoEqual(a, b, r % 4);
    TwoEqual(p, q, r / 4);
  }

  /** Five low bits, of which all but the highest are equal. */
  lemma FiveBits(p: nat, q: nat, u: nat, v: nat, r: nat, m: nat, n: nat)
    requires u < 2 && v < 2 && r < 16 && m == 4 * (2 * p + u) + r / 4 && n == 4 * (2 * q + v) + r / 4
    ensures Xor(4 * m + r % 4, 4 * n + r % 4) == 32 * Xor(p, q) + if u == v then 0 else 16
  {
    FourEqual(2 * p + u, 2 * q + v, m, n, r);
    Double(p, q, u, v);
  }

  lemma Mod32(z: int, w: int)
    ensures (32 * z + w) % 32 == w % 32
  {
  }

  lemma TimesHigh(x: nat, z: nat, r: nat)
    requires x == 32 * z + r && r in {0, 16}
    ensures x * PRIME % U32 % 32 == r
  {
    var y := x * PRIME;
    var q := y / U32;
    assert y == 32 * (z * PRIME) + r * PRIME;
    assert r * PRIME == if r == 0 then 0 else 32 * 8388809 + 16;
    assert y % U32 == y - U32 * q;
    var w := z * PRIME + (if r == 0 then 0 else 8388809) - 0x800_0000 * q;
    assert y % U32 == 32 * w + r;
    Mod32(w, r);
  }

  /** A second letter that brings the hash to 0 or to 16 modulo 32. */
  function SecondLetter(h: nat, far: bool): char {
    (96 + (h + (if far then 16 else 0)) % 32) as char
  }

  lemma FoldSecond(h: nat, far: bool)
    ensures Fold(h, SecondLetter(h, far)) % 32 == if far then 16 else 0
  {
    var p, x := h / 32, h % 32;
    var y := (h + (if far then 16 else 0)) % 32;
    assert y == if far then (x + 16) % 32 else x;
    assert Widen(SecondLetter(h, far)) == 96 + y;
    XorSecond(h, p, x, y, far);
    TimesHigh(Xor(h, 96 + y), Xor(p, 3), if far then 16 else 0);
  }

  /** h = 32 p + x meets 96 + y, where y is x or differs from it in its highest bit. */
  lemma XorSecond(h: nat, p: nat, x: nat, y: nat, far: bool)
    requires h == 32 * p + x && x < 32 && y == if far then (x + 16) % 32 else x
    ensures Xor(h, 96 + y) == 32 * Xor(p, 3) + if far then 16 else 0
  {
    var r, u, v := x % 16, x / 16, y / 16;
    var m, n := 4 * (2 * p + u) + r / 4, 4 * (2 * 3 + v) + r / 4;
    Split(p, x, y, far, r, u, v, m, n);
    FiveBits(p, 3, u, v, r, m, n);
  }

  lemma Split(p: nat, x: nat, y: nat, far: bool, r: nat, u: nat, v: nat, m: nat, n: nat)
    requires x < 32 && y == (if far then (x + 16) % 32 else x) && r == x % 16 && u == x / 16 && v == y / 16
    requires m == 4 * (2 * p + u) + r / 4 && n == 4 * (6 + v) + r / 4
    ensures u < 2 && v < 2 && (u == v <==> !far) && 4 * m + r % 4 == 32 * p + x && 4 * n + r % 4 == 96 + y
  {
  }

  /** Sixteen two-letter keys with hash 0 modulo 32, or 16. */
  function ShardKey(i: nat, far: bool): string
    requires i < 16
  {
    var c := ('a' as int + i) as char;
    [c, SecondLetter(GetHash([c]), far)]
  }

  function ShardKeys16(far: bool): (keys: seq<string>)
    ensures |keys| == 16 && forall i :: 0 <= i < 16 ==> keys[i] == ShardKey(i, far)
  {
    seq(16, i requires 0 <= i < 16 => ShardKey(i, far))
  }

  lemma ShardKeyHash(i: nat, far: bool)
    requires i < 16
    ensures GetHash(ShardKey(i, far)) % 32 == if far then 16 else 0
  {
    var c := ('a' as int + i) as char;
    var key := ShardKey(i, far);
    assert key[..1] == [c];
    FoldSecond(GetHash([c]), far);
  }

  lemma ShardKeysFit(far: bool)
    ensures Sixteen(GetHash, ShardKeys16(far), if far then 16 else 0)
    ensures forall i :: 0 <= i < 16 ==> Home(GetHash, ShardKeys16(far)[i], SHARD_COUNT) == 0
  {
    var keys := ShardKeys16(far);
    forall i | 0 <= i < 16
      ensures GetHash(keys[i]) % 32 == (if far then 16 else 0) && Home(GetHash, keys[i], SHARD_COUNT) == 0
    {
      ShardKeyHash(i, far);
      Sixteenth(GetHash(keys[i]), if far then 16 else 0);
    }
    forall i, j | 0 <= i < j < 16
      ensures keys[i] != keys[j]
    {
      assert keys[i][0] != keys[j][0];
    }
  }

  lemma Sixteenth(x: nat, r: nat)
    requires x % 32 == r && r in {0, 16}
    ensures x % 16 == 0
  {
    Mod16(2 * (x / 32) + (if r == 0 then 0 else 1), 0);
    assert x == 16 * (2 * (x / 32) + (if r == 0 then 0 else 1)) + 0;
  }
}
