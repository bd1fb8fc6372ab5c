/** The 64-bit mixing function of src/util/Cluster.cpp and the virtual points it generates. */
module Mixer {
  import opened Decimal

  // ---- unsigned operators ----

  /** a ^ b. */
  function Xor(a: nat, b: nat): nat {
    if a == 0 && b == 0 then 0
    else 2 * Xor(a / 2, b / 2) + (if a % 2 == b % 2 then 0 else 1)
  }

  /** a >> k. */
  function Shr(a: nat, k: nat): nat
    decreases k
  {
    if k == 0 then a else Shr(a / 2, k - 1)
  }

  function XorShift(x: nat, k: nat): nat {
    Xor(x, Shr(x, k))
  }

  /** a * c on uint64_t. */
  function Times(a: nat, c: nat): nat {
    a * c % U64
  }

  const MUL1: nat := 0xbf58476d1ce4e5b9
  const MUL2: nat := 0x94d049bb133111eb

  const SHIFT1: nat := 30
  const SHIFT2: nat := 27
  const SHIFT3: nat := 31

  /** Cluster::hash(uint64_t): xor-shifts and odd multiplications modulo 2^64. */
  function Mix(x: nat): nat {
    XorShift(Times(XorShift(Times(XorShift(x, SHIFT1), MUL1), SHIFT2), MUL2), SHIFT3)
  }

  // ---- the result is 64 bits wide ----

  function Pow2(n: nat): nat {
    if n == 0 then 1 else 2 * Pow2(n - 1)
  }

  lemma {:induction false} Pow2Double(n: nat, m: nat)
    ensures Pow2(n + m) == Pow2(n) * Pow2(m)
    decreases m
  {
    if m == 0 {
    } else {
      Pow2Double(n, m - 1);
      assert Pow2(n) * (2 * Pow2(m - 1)) == 2 * (Pow2(n) * Pow2(m - 1));
    }
  }

  lemma SixtyFour()
    ensures Pow2(64) == U64
  {
    assert Pow2(2) == 4;
    Pow2Double(2, 2);
    Pow2Double(4, 4);
    Pow2Double(8, 8);
    Pow2Double(16, 16);
    Pow2Double(32, 32);
  }

  lemma {:induction false} XorBound(a: nat, b: nat, n: nat)
    requires a < Pow2(n) && b < Pow2(n)
    ensures Xor(a, b) < Pow2(n)
    decreases n
  {
    if n == 0 {
    } else {
      XorBound(a / 2, b / 2, n - 1);
    }
  }

  lemma {:induction false} ShrSmaller(a: nat, k: nat)
    ensures Shr(a, k) <= a
    decreases k
  {
    if k == 0 {
    } else {
      ShrSmaller(a / 2, k - 1);
    }
  }

  lemma XorShiftBound(x: nat, k: nat)
    requires x < U64
    ensures XorShift(x, k) < U64
  {
    SixtyFour();
    ShrSmaller(x, k);
    XorBound(x, Shr(x, k), 64);
  }

  lemma MixBound(x: nat)
    ensures Mix(x) < U64
  {
    XorShiftBound(Times(XorShift(Times(XorShift(x, SHIFT1), MUL1), SHIFT2), MUL2), SHIFT3);
  }

  // ---- injectivity ----

  lemma {:induction false} ShrHalf(x: nat, k: nat)
    ensures Shr(x / 2, k) == Shr(x, k) / 2
    decreases k
  {
    if k == 0 {
    } else {
      ShrHalf(x / 2, k - 1);
    }
  }

  lemma XorHalf(a: nat, b: nat)
    ensures Xor(a, b) / 2 == Xor(a / 2, b / 2)
    ensures Xor(a, b) % 2 == if a % 2 == b % 2 then 0 else 1
  {
  }

  /** x ^ (x >> k) determines x: the upper bits first, then each lower one. */
  lemma {:induction false} XorShiftInjective(x: nat, y: nat, k: nat)
    requires k > 0 && XorShift(x, k) == XorShift(y, k)
    ensures x == y
    decreases x + y
  {
    if x + y > 0 {
      XorHalf(x, Shr(x, k));
      XorHalf(y, Shr(y, k));
      ShrHalf(x, k);
      ShrHalf(y, k);
      XorShiftInjective(x / 2, y / 2, k);
      assert Shr(x, k) == Shr(x / 2, k - 1) == Shr(y, k);
    }
  }

  lemma ModShift(x: nat, k: int)
    requires x < U64 && x + U64 * k >= 0
    ensures (x + U64 * k) % U64 == x
  {
  }

  /** A multiplier with an inverse modulo 2^64 can be undone. */
  lemma TimesUndone(x: nat, c: nat, d: nat, q: nat)
    requires x < U64 && c * d == 1 + q * U64
    ensures Times(Times(x, c), d) == x
  {
    var a, r := x * c / U64, Times(x, c);
    calc {
      r * d;
      (x * c - a * U64) * d;
      x * c * d - a * U64 * d;
      { assert x * c * d == x * (c * d); }
      x * (1 + q * U64) - a * U64 * d;
      { assert x * (1 + q * U64) == x + x * q * U64; }
      x + x * q * U64 - a * U64 * d;
      { assert x * q * U64 - a * U64 * d == U64 * (x * q - a * d); }
      x + U64 * (x * q - a * d);
    }
    ModShift(x, x * q - a * d);
  }

  const INV1: nat := 0x96de1b173f119089
  const INV2: nat := 0x319642b2d24d8ec3

  /** Both multipliers of the mixer have inverses. */
  lemma Inverses()
    ensures MUL1 * INV1 == 1 + 0x70c3bca78f27f46c * U64
    ensures MUL2 * INV2 == 1 + 0x1cd336eda85f1453 * U64
  {
  }

  lemma TimesInjective(x: nat, y: nat, c: nat)
    requires x < U64 && y < U64 && (c == MUL1 || c == MUL2) && Times(x, c) == Times(y, c)
    ensures x == y
  {
    Inverses();
    var d := if c == MUL1 then INV1 else INV2;
    var q: nat := if c == MUL1 then 0x70c3bca78f27f46c else 0x1cd336eda85f1453;
    TimesUndone(x, c, d, q);
    TimesUndone(y, c, d, q);
  }

  /** The mixer is injective on 64-bit values. */
  lemma MixInjective(x: nat, y: nat)
    requires x < U64 && y < U64
    ensures Mix(x) == Mix(y) ==> x == y
  {
    if Mix(x) == Mix(y) {
      var a, a' := XorShift(x, SHIFT1), XorShift(y, SHIFT1);
      var b, b' := Times(a, MUL1), Times(a', MUL1);
      var c, c' := XorShift(b, SHIFT2), XorShift(b', SHIFT2);
      var d, d' := Times(c, MUL2), Times(c', MUL2);
      XorShiftInjective(d, d', SHIFT3);
      XorShiftBound(b, SHIFT2);
      XorShiftBound(b', SHIFT2);
      TimesInjective(c, c', MUL2);
      XorShiftInjective(b, b', SHIFT2);
      XorShiftBound(x, SHIFT1);
      XorShiftBound(y, SHIFT1);
      TimesInjective(a, a', MUL1);
      XorShiftInjective(x, y, SHIFT1);
    }
  }

  // ---- the inverse ----

  lemma {:induction false} XorZero(a: nat)
    ensures Xor(a, 0) == a && Xor(a, a) == 0
  {
    if a > 0 {
      XorZero(a / 2);
    }
  }

  lemma {:induction false} XorAssoc(a: nat, b: nat, c: nat)
    ensures Xor(Xor(a, b), c) == Xor(a, Xor(b, c))
    decreases a + b + c
  {
    if a + b + c > 0 {
      XorHalf(a, b);
      XorHalf(b, c);
      XorHalf(Xor(a, b), c);
      XorHalf(a, Xor(b, c));
      XorAssoc(a / 2, b / 2, c / 2);
    }
  }

  lemma {:induction false} ShrXor(a: nat, b: nat, k: nat)
    ensures Shr(Xor(a, b), k) == Xor(Shr(a, k), Shr(b, k))
    decreases k
  {
    if k > 0 {
      XorHalf(a, b);
      ShrXor(a / 2, b / 2, k - 1);
    }
  }

  lemma {:induction false} ShrShr(a: nat, j: nat, k: nat)
    ensures Shr(Shr(a, j), k) == Shr(a, j + k)
    decreases j
  {
    if j > 0 {
      ShrShr(a / 2, j - 1, k);
    }
  }

  lemma {:induction false} ShrAll(a: nat, k: nat, n: nat)
    requires a < Pow2(n) && n <= k
    ensures Shr(a, k) == 0
    decreases k
  {
    if k > 0 {
      ShrAll(a / 2, k - 1, if n == 0 then 0 else n - 1);
    }
  }

  /** y ^ (y >> k) ^ (y >> 2k). */
  function Unshift(y: nat, k: nat): nat {
    Xor(Xor(y, Shr(y, k)), Shr(y, 2 * k))
  }

  /** Two neighbours cancel out. */
  lemma Cancel(a: nat, b: nat, c: nat)
    ensures Xor(Xor(a, b), Xor(b, c)) == Xor(a, c)
  {
    XorAssoc(a, b, Xor(b, c));
    XorAssoc(b, b, c);
    XorZero(b);
    XorLeftZero(c);
  }

  lemma {:induction false} XorLeftZero(a: nat)
    ensures Xor(0, a) == a
  {
    if a > 0 {
      XorLeftZero(a / 2);
    }
  }

  /** The shifts of a number with 64 bits, when three of them leave nothing. */
  lemma Shifts(x: nat, k: nat)
    requires x < U64 && 64 <= 3 * k
    ensures Shr(Shr(x, k), k) == Shr(x, 2 * k) && Shr(Shr(x, 2 * k), k) == 0 && Shr(Shr(x, k), 2 * k) == 0
  {
    ShrShr(x, k, k);
    ShrShr(x, k, 2 * k);
    ShrShr(x, 2 * k, k);
    SixtyFour();
    ShrAll(x, 3 * k, 64);
  }

  /** From a third of the width on, three terms undo the shift, on either side. */
  lemma UnshiftInverts(x: nat, k: nat)
    requires x < U64 && 64 <= 3 * k
    ensures Unshift(XorShift(x, k), k) == x && XorShift(Unshift(x, k), k) == x
  {
    var a, b := Shr(x, k), Shr(x, 2 * k);
    Shifts(x, k);
    UnshiftLeft(x, k, a, b);
    UnshiftRight(x, k, a, b);
  }

  lemma UnshiftLeft(x: nat, k: nat, a: nat, b: nat)
    requires a == Shr(x, k) && b == Shr(x, 2 * k) && Shr(a, k) == b && Shr(a, 2 * k) == 0
    ensures Unshift(XorShift(x, k), k) == x
  {
    ShrXor(x, a, k);
    ShrXor(x, a, 2 * k);
    Cancel(x, a, b);
    XorZero(b);
    XorAssoc(x, b, b);
    XorZero(x);
  }

  lemma UnshiftRight(x: nat, k: nat, a: nat, b: nat)
    requires a == Shr(x, k) && b == Shr(x, 2 * k) && Shr(a, k) == b && Shr(b, k) == 0
    ensures XorShift(Unshift(x, k), k) == x
  {
    ShrXor(Xor(x, a), b, k);
    ShrXor(x, a, k);
    XorZero(Xor(a, b));
    XorAssoc(x, a, b);
    XorAssoc(x, Xor(a, b), Xor(a, b));
    XorZero(x);
  }

  /** The mixer run backwards, with every shift and multiplier written out. */
  function Unmix(y: nat): nat {
    Unshift(Times(Unshift(Times(Unshift(y, 31), 0x319642b2d24d8ec3), 27), 0x96de1b173f119089), 30)
  }

  lemma UnshiftBound(y: nat, k: nat)
    requires y < U64
    ensures Unshift(y, k) < U64
  {
    SixtyFour();
    XorShiftBound(y, k);
    ShrSmaller(y, 2 * k);
    XorBound(XorShift(y, k), Shr(y, 2 * k), 64);
  }

  lemma TimesInverts(x: nat)
    requires x < U64
    ensures Times(Times(x, 0xbf58476d1ce4e5b9), 0x96de1b173f119089) == x
    ensures Times(Times(x, 0x96de1b173f119089), 0xbf58476d1ce4e5b9) == x
    ensures Times(Times(x, 0x94d049bb133111eb), 0x319642b2d24d8ec3) == x
    ensures Times(Times(x, 0x319642b2d24d8ec3), 0x94d049bb133111eb) == x
  {
    TimesUndone(x, 0xbf58476d1ce4e5b9, 0x96de1b173f119089, 0x70c3bca78f27f46c);
    TimesUndone(x, 0x96de1b173f119089, 0xbf58476d1ce4e5b9, 0x70c3bca78f27f46c);
    TimesUndone(x, 0x94d049bb133111eb, 0x319642b2d24d8ec3, 0x1cd336eda85f1453);
    TimesUndone(x, 0x319642b2d24d8ec3, 0x94d049bb133111eb, 0x1cd336eda85f1453);
  }

  /** The mixer is a bijection on 64-bit values, and Unmix is its inverse. */
  lemma UnmixMix(x: nat)
    requires x < U64
    ensures Unmix(Mix(x)) == x
  {
    var a := XorShift(x, 30);
    var c := XorShift(Times(a, 0xbf58476d1ce4e5b9), 27);
    var d := Times(c, 0x94d049bb133111eb);
    assert Mix(x) == XorShift(d, 31);
    XorShiftBound(x, 30);
    XorShiftBound(Times(a, 0xbf58476d1ce4e5b9), 27);
    UnshiftInverts(d, 31);
    TimesInverts(c);
    UnshiftInverts(Times(a, 0xbf58476d1ce4e5b9), 27);
    TimesInverts(a);
    UnshiftInverts(x, 30);
  }

  lemma MixUnmix(y: nat)
    requires y < U64
    ensures Unmix(y) < U64 && Mix(Unmix(y)) == y
  {
    var d := Unshift(y, 31);
    var c := Times(d, 0x319642b2d24d8ec3);
    var b := Unshift(c, 27);
    var a := Times(b, 0x96de1b173f119089);
    assert Unmix(y) == Unshift(a, 30);
    UnshiftBound(y, 31);
    UnshiftBound(c, 27);
    UnshiftBound(a, 30);
    UnshiftInverts(a, 30);
    TimesInverts(b);
    UnshiftInverts(c, 27);
    TimesInverts(d);
    UnshiftInverts(y, 31);
  }
}
