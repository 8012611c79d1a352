/**
 * Fixed-width C integers and the bitwise operators the driver uses, stated on
 * unbounded naturals.  `And` and `Or` are defined bit by bit; the lemmas below
 * connect them to ordinary arithmetic so that packed register words can be
 * reasoned about with `+`, `/` and `%`.
 */
module Bits {

  /** A C `uint8_t`. */
  type Byte = x: int | 0 <= x < 256

  /** A C `uint16_t`. */
  type Half = x: int | 0 <= x < 0x1_0000

  /** A C `uint32_t`. */
  type Word = x: int | 0 <= x < 0x1_0000_0000

  /**
   * Conversion of an integer to `uint8_t` (`static_cast<uint8_t>`): the value
   * modulo 256, which is also what two's complement truncation gives for
   * negative arguments.
   */
  function U8(x: int): (b: Byte)
    ensures 0 <= x < 256 ==> b == x
    ensures (x - b) % 256 == 0
  {
    x % 256
  }

  /** Conversion of an integer to `uint32_t`. */
  function U32(x: int): (w: Word)
    ensures 0 <= x < 0x1_0000_0000 ==> w == x
    ensures (x - w) % 0x1_0000_0000 == 0
  {
    x % 0x1_0000_0000
  }

  /** `p` is a power of two. */
  predicate IsPow2(p: nat)
    decreases p
  {
    p == 1 || (p >= 2 && p % 2 == 0 && IsPow2(p / 2))
  }

  /** Bitwise `&` of two naturals. */
  function And(a: nat, b: nat): nat
    decreases a
  {
    if a == 0 || b == 0 then 0
    else 2 * And(a / 2, b / 2) + (if a % 2 == 1 && b % 2 == 1 then 1 else 0)
  }

  /** Bitwise `|` of two naturals. */
  function Or(a: nat, b: nat): nat
    decreases a
  {
    if a == 0 then b
    else if b == 0 then a
    else 2 * Or(a / 2, b / 2) + (if a % 2 == 1 || b % 2 == 1 then 1 else 0)
  }

  lemma {:induction false} AndComm(a: nat, b: nat)
    ensures And(a, b) == And(b, a)
    decreases a
  {
    if a != 0 && b != 0 {
      AndComm(a / 2, b / 2);
    }
  }

  lemma {:induction false} OrComm(a: nat, b: nat)
    ensures Or(a, b) == Or(b, a)
    decreases a
  {
    if a != 0 && b != 0 {
      OrComm(a / 2, b / 2);
    }
  }

  /** Each bit set in `And(a, b)` is set in `a`, so the result never exceeds `a`. */
  lemma {:induction false} AndBelow(a: nat, b: nat)
    ensures And(a, b) <= a && And(a, b) <= b
    decreases a
  {
    if a != 0 && b != 0 {
      AndBelow(a / 2, b / 2);
    }
  }

  /** Masking twice with the same mask is masking once. */
  lemma {:induction false} AndIdempotent(a: nat, m: nat)
    ensures And(And(a, m), m) == And(a, m)
    decreases a
  {
    if a != 0 && m != 0 {
      AndIdempotent(a / 2, m / 2);
      var r := And(a / 2, m / 2);
      var bit := if a % 2 == 1 && m % 2 == 1 then 1 else 0;
      assert And(a, m) == 2 * r + bit;
      if 2 * r + bit != 0 {
        assert (2 * r + bit) / 2 == r;
        assert (2 * r + bit) % 2 == bit;
      }
    }
  }

  /** `Or` adds the two operands and takes away the bits they share. */
  lemma {:induction false} OrPlusAnd(a: nat, b: nat)
    ensures Or(a, b) + And(a, b) == a + b
    decreases a
  {
    if a != 0 && b != 0 {
      OrPlusAnd(a / 2, b / 2);
    }
  }

  /** Operands without a common bit: `|` is `+`. */
  lemma OrDisjoint(a: nat, b: nat)
    requires And(a, b) == 0
    ensures Or(a, b) == a + b
  {
    OrPlusAnd(a, b);
  }

  /** A value below a power of two shares no bit with a multiple of it. */
  lemma {:induction false} AndBelowMultiple(lo: nat, c: nat, p: nat)
    requires IsPow2(p) && lo < p
    ensures And(lo, c * p) == 0
    decreases p
  {
    if p != 1 && lo != 0 && c != 0 {
      var h := p / 2;
      assert c * p == 2 * (c * h);
      assert (c * p) / 2 == c * h;
      assert (c * p) % 2 == 0;
      AndBelowMultiple(lo / 2, c, h);
    }
  }

  /** `lo | c << k` with `lo < 2^k` is `lo + c * 2^k`. */
  lemma OrBelowMultiple(lo: nat, c: nat, p: nat)
    requires IsPow2(p) && lo < p
    ensures Or(lo, c * p) == lo + c * p
    ensures Or(c * p, lo) == lo + c * p
  {
    AndBelowMultiple(lo, c, p);
    OrDisjoint(lo, c * p);
    OrComm(lo, c * p);
  }

  /** Division and remainder by `2 * p` through division by 2 first. */
  lemma DivModTwice(a: nat, p: nat)
    requires p > 0
    ensures a % (2 * p) == 2 * ((a / 2) % p) + a % 2
    ensures a / (2 * p) == (a / 2) / p
  {
    var q, r := a / 2, a % 2;
    var q2, r2 := q / p, q % p;
    assert a == 2 * q + r;
    assert q == p * q2 + r2;
    assert a == (2 * p) * q2 + (2 * r2 + r);
    assert 0 <= 2 * r2 + r < 2 * p;
    DivModUnique(a, 2 * p, q2, 2 * r2 + r);
  }

  lemma DivModUnique(a: int, d: int, q: int, r: int)
    requires d > 0 && a == d * q + r && 0 <= r < d
    ensures a / d == q && a % d == r
  {
    var q', r' := a / d, a % d;
    if q' < q {
      MulAtLeast(d, q - q');
    } else if q < q' {
      MulAtLeast(d, q' - q);
    }
  }

  lemma {:induction false} MulAtLeast(d: int, e: int)
    requires d > 0 && e >= 1
    ensures d * e >= d
    decreases e
  {
    if e > 1 {
      MulAtLeast(d, e - 1);
      assert d * e == d * (e - 1) + d;
    }
  }

  /** Masking with `2^k - 1` keeps the low `k` bits. */
  lemma {:induction false} AndLowMask(a: nat, p: nat)
    requires IsPow2(p)
    ensures And(a, p - 1) == a % p
    decreases p
  {
    if p != 1 {
      var h := p / 2;
      if a != 0 {
        var m := p - 1;
        assert And(a, m) == 2 * And(a / 2, h - 1) + a % 2 by {
          assert m / 2 == h - 1 && m % 2 == 1;
        }
        AndLowMask(a / 2, h);
        DivModTwice(a, h);
        assert 2 * h == p;
      }
    }
  }

  /** A value has no bit at or above `p` (inside `n` bits) exactly when it is below `p`. */
  lemma {:induction false} HighBitsClear(b: nat, p: nat, n: nat)
    requires IsPow2(p) && IsPow2(n) && p <= n && b < n
    ensures And(b, n - p) == 0 <==> b < p
    decreases p
  {
    if p == 1 {
      AndLowMask(b, n);
      DivModUnique(b, n, 0, b);
    } else if p == n {
      AndBelow(b, n - p);
    } else if b == 0 {
      AndBelow(b, n - p);
    } else {
      assert p % 2 == 0 && IsPow2(p / 2);
      assert n % 2 == 0 && IsPow2(n / 2);
      var m := n - p;
      assert m / 2 == n / 2 - p / 2 && m % 2 == 0;
      assert And(b, m) == 2 * And(b / 2, m / 2);
      HighBitsClear(b / 2, p / 2, n / 2);
      assert b < p <==> b / 2 < p / 2;
    }
  }

  /** Shifting right by a power of two commutes with `&`. */
  lemma {:induction false} AndDiv(a: nat, b: nat, p: nat)
    requires IsPow2(p)
    ensures a / p >= 0 && b / p >= 0
    ensures And(a, b) / p == And(a / p, b / p)
    decreases p
  {
    DivNat(a, p);
    DivNat(b, p);
    if p != 1 {
      var h := p / 2;
      AndDiv(a / 2, b / 2, h);
      DivModTwice(a, h);
      DivModTwice(b, h);
      DivModTwice(And(a, b), h);
      AndHalf(a, b);
    }
  }

  /** Keeping the low bits commutes with `&`. */
  lemma {:induction false} AndMod(a: nat, b: nat, p: nat)
    requires IsPow2(p)
    ensures And(a, b) % p == And(a % p, b % p)
    decreases p
  {
    if p != 1 {
      var h := p / 2;
      AndMod(a / 2, b / 2, h);
      DivModTwice(a, h);
      DivModTwice(b, h);
      DivModTwice(And(a, b), h);
      AndHalf(a, b);
      AndHalf(a % p, b % p);
      assert (a % p) / 2 == (a / 2) % h && (a % p) % 2 == a % 2;
      assert (b % p) / 2 == (b / 2) % h && (b % p) % 2 == b % 2;
    }
  }

  /** Shifting right by a power of two commutes with `|`. */
  lemma {:induction false} OrDiv(a: nat, b: nat, p: nat)
    requires IsPow2(p)
    ensures a / p >= 0 && b / p >= 0
    ensures Or(a, b) / p == Or(a / p, b / p)
    decreases p
  {
    DivNat(a, p);
    DivNat(b, p);
    if p != 1 {
      var h := p / 2;
      OrDiv(a / 2, b / 2, h);
      DivModTwice(a, h);
      DivModTwice(b, h);
      DivModTwice(Or(a, b), h);
      OrHalf(a, b);
    }
  }

  /** Keeping the low bits commutes with `|`. */
  lemma {:induction false} OrMod(a: nat, b: nat, p: nat)
    requires IsPow2(p)
    ensures Or(a, b) % p == Or(a % p, b % p)
    decreases p
  {
    if p != 1 {
      var h := p / 2;
      OrMod(a / 2, b / 2, h);
      DivModTwice(a, h);
      DivModTwice(b, h);
      DivModTwice(Or(a, b), h);
      OrHalf(a, b);
      OrHalf(a % p, b % p);
      assert (a % p) / 2 == (a / 2) % h && (a % p) % 2 == a % 2;
      assert (b % p) / 2 == (b / 2) % h && (b % p) % 2 == b % 2;
    }
  }

  /** Division of a natural by a positive number is a natural. */
  lemma DivNat(a: nat, p: nat)
    requires IsPow2(p)
    ensures a / p >= 0
  {
    var q := a / p;
    if q < 0 {
      MulAtLeast(p, -q);
      assert false;
    }
  }

  /** `&` one bit at a time: the bit below and the rest above it. */
  lemma AndHalf(a: nat, b: nat)
    ensures And(a, b) / 2 == And(a / 2, b / 2)
    ensures And(a, b) % 2 == (if a % 2 == 1 && b % 2 == 1 then 1 else 0)
  {
    if a == 0 || b == 0 {
      AndBelow(a / 2, b / 2);
    }
  }

  /** `|` one bit at a time: the bit below and the rest above it. */
  lemma OrHalf(a: nat, b: nat)
    ensures Or(a, b) / 2 == Or(a / 2, b / 2)
    ensures Or(a, b) % 2 == (if a % 2 == 1 || b % 2 == 1 then 1 else 0)
  {
  }

  /** `|` of two values below a power of two stays below it. */
  lemma {:induction false} OrBelow(a: nat, b: nat, p: nat)
    requires IsPow2(p) && a < p && b < p
    ensures Or(a, b) < p
    decreases p
  {
    if a != 0 && b != 0 {
      OrBelow(a / 2, b / 2, p / 2);
    }
  }

  /** `|` is zero exactly when both operands are. */
  lemma OrZero(a: nat, b: nat)
    ensures Or(a, b) == 0 <==> a == 0 && b == 0
  {
    OrPlusAnd(a, b);
    AndBelow(a, b);
  }

  lemma FieldParts(a: nat, k: nat, p: nat)
    requires IsPow2(p) && IsPow2(k + 1)
    ensures And(a, k * p) / p == (a / p) % (k + 1) && And(a, k * p) % p == 0
  {
    var m := k * p;
    MulDivExact(k, p);
    AndDiv(a, m, p);
    AndMod(a, m, p);
    AndBelow(a % p, 0);
    AndLowMask(a / p, k + 1);
  }

  lemma MulDivExact(k: nat, p: nat)
    requires p > 0
    ensures (k * p) / p == k && (k * p) % p == 0
  {
    DivModUnique(k * p, p, k, 0);
  }

  /** A number is its quotient times the divisor plus its remainder. */
  lemma Recombine(z: nat, p: nat, v: nat, r: nat)
    requires IsPow2(p) && z / p == v && z % p == r
    ensures z == v * p + r
  {
    DivModParts(z, p);
  }

  lemma DivModParts(z: nat, p: nat)
    requires p > 0
    ensures z == p * (z / p) + z % p
  {
  }

  /**
   * The digit `d` of base `b` found at position `p` of a number `w` whose
   * digits below and above it are `lo` and `hi`.
   */
  lemma DigitAt(w: nat, lo: nat, d: nat, hi: nat, p: nat, b: nat)
    requires 0 < p && lo < p && d < b && w == lo + d * p + hi * (b * p)
    ensures w / p == d + b * hi && (w / p) % b == d
  {
    assert w == p * (d + b * hi) + lo;
    DivModUnique(w, p, d + b * hi, lo);
    DivModUnique(d + b * hi, b, hi, d);
  }

  /** Twice a power of two is one. */
  lemma Pow2Double(p: nat)
    requires IsPow2(p)
    ensures IsPow2(2 * p)
  {
    assert (2 * p) / 2 == p;
  }

  /** The powers of two up to 2^8 that the field masks use. */
  lemma Pow2Byte()
    ensures IsPow2(0x8) && IsPow2(0x10) && IsPow2(0x20) && IsPow2(0x40) && IsPow2(0x80) && IsPow2(0x100)
  {
    Pow2Double(0x1);
    Pow2Double(0x2);
    Pow2Double(0x4);
    Pow2Double(0x8);
    Pow2Double(0x10);
    Pow2Double(0x20);
    Pow2Double(0x40);
    Pow2Double(0x80);
  }

  /** The powers of two above 2^8 that the register layouts use. */
  lemma Pow2Large()
    ensures IsPow2(0x1000) && IsPow2(0x8000) && IsPow2(0x1_0000)
    ensures IsPow2(0x10_0000) && IsPow2(0x20_0000) && IsPow2(0x40_0000) && IsPow2(0x80_0000)
    ensures IsPow2(0x100_0000) && IsPow2(0x1000_0000) && IsPow2(0x4000_0000) && IsPow2(0x8000_0000)
    ensures IsPow2(0x1_0000_0000)
  {
    Pow2Double(0x1);
    Pow2Double(0x2);
    Pow2Double(0x4);
    Pow2Double(0x8);
    Pow2Double(0x10);
    Pow2Double(0x20);
    Pow2Double(0x40);
    Pow2Double(0x80);
    Pow2Double(0x100);
    Pow2Double(0x200);
    Pow2Double(0x400);
    Pow2Double(0x800);
    Pow2Double(0x1000);
    Pow2Double(0x2000);
    Pow2Double(0x4000);
    Pow2Double(0x8000);
    Pow2Double(0x10000);
    Pow2Double(0x20000);
    Pow2Double(0x40000);
    Pow2Double(0x80000);
    Pow2Double(0x100000);
    Pow2Double(0x200000);
    Pow2Double(0x400000);
    Pow2Double(0x800000);
    Pow2Double(0x1000000);
    Pow2Double(0x2000000);
    Pow2Double(0x4000000);
    Pow2Double(0x8000000);
    Pow2Double(0x10000000);
    Pow2Double(0x20000000);
    Pow2Double(0x40000000);
    Pow2Double(0x80000000);
  }

  /**
   * `(lo + h * q) | c * p`, where `c * p` lies between the low part `lo` and
   * the high part `h * q`, adds the middle field in.
   */
  lemma OrInsert(x: nat, y: nat, lo: nat, c: nat, h: nat, p: nat, q: nat)
    requires IsPow2(p) && IsPow2(q) && p <= q && lo < p && y == c * p && y < q && x == lo + h * q
    ensures Or(x, y) == x + y
  {
    OrInsertSplit(x, y, lo, h, q);
    assert Or(h, 0) == h;
    OrBelowMultiple(lo, c, p);
  }

  lemma OrInsertSplit(x: nat, y: nat, lo: nat, h: nat, q: nat)
    requires IsPow2(q) && lo < q && y < q && x == lo + h * q
    ensures Or(x, y) == Or(h, 0) * q + Or(lo, y)
  {
    DivModUnique(x, q, h, lo);
    DivModUnique(y, q, 0, y);
    OrDiv(x, y, q);
    OrMod(x, y, q);
    Recombine(Or(x, y), q, Or(h, 0), Or(lo, y));
  }

  /** `x | lo` where `x` is a multiple of a power of two above `lo`: `|` is `+`. */
  lemma OrAbove(x: nat, lo: nat, c: nat, p: nat)
    requires IsPow2(p) && lo < p && x == c * p
    ensures Or(x, lo) == x + lo && Or(lo, x) == x + lo
  {
    OrBelowMultiple(lo, c, p);
  }

  /** A value `x` known to be `lo | c * p`, with `lo` below `p`, is their sum. */
  lemma OrAdd(x: nat, lo: nat, c: nat, p: nat)
    requires IsPow2(p) && lo < p && x == Or(lo, c * p)
    ensures x == lo + c * p
  {
    OrBelowMultiple(lo, c, p);
  }
}
