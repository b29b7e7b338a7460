/**
 * Integer and bit-level helpers of the cache engine's utility section:
 * powers of two, the integer ceiling log2 and ceiling division used by
 * cacheInit, and bitwise AND / OR on natural numbers so that the address
 * masks and the encoder can be written with the operators the C code uses.
 */
module Bits {

  /** 2^n. */
  function Pow2(n: nat): (r: nat)
    ensures r >= 1
  {
    if n == 0 then 1 else 2 * Pow2(n - 1)
  }

  lemma {:induction false} Pow2Add(a: nat, b: nat)
    ensures Pow2(a + b) == Pow2(a) * Pow2(b)
  {
    if a > 0 {
      Pow2Add(a - 1, b);
      assert Pow2(a + b) == 2 * Pow2(a - 1 + b);
    }
  }

  lemma {:induction false} Pow2Monotone(a: nat, b: nat)
    requires a <= b
    ensures Pow2(a) <= Pow2(b)
  {
    if a < b {
      Pow2Monotone(a, b - 1);
    }
  }

  /** x is a positive power of two. */
  predicate IsPow2(x: int)
    decreases if x < 0 then 0 else x
  {
    x == 1 || (x > 1 && x % 2 == 0 && IsPow2(x / 2))
  }

  /**
   * The smallest k with x <= 2^k: the integer meaning of the
   * ceil(log(x)/log(2)) macro CLOG2.
   */
  function CeilLog2(x: nat): (k: nat)
    ensures x <= Pow2(k)
    ensures k == 0 || Pow2(k - 1) < x
    decreases x
  {
    if x <= 1 then 0 else 1 + CeilLog2((x + 1) / 2)
  }

  /** For a power of two, the ceiling log2 is exact. */
  lemma {:induction false} CeilLog2OfPow2(x: nat)
    requires IsPow2(x)
    ensures Pow2(CeilLog2(x)) == x
    decreases x
  {
    if x > 1 {
      assert (x + 1) / 2 == x / 2;
      CeilLog2OfPow2(x / 2);
    }
  }

  lemma {:induction false} Pow2IsPow2(k: nat)
    ensures IsPow2(Pow2(k))
  {
    if k > 0 {
      Pow2IsPow2(k - 1);
      assert Pow2(k) / 2 == Pow2(k - 1);
    }
  }

  /** ceil(a / b) for positive b, as the integer division the C computes through doubles. */
  function CeilDiv(a: nat, b: nat): (q: nat)
    requires b > 0
    ensures q * b >= a
    ensures q * b < a + b
  {
    var q := (a + b - 1) / b;
    assert a + b - 1 == q * b + (a + b - 1) % b;
    q
  }

  /** One block fewer than the ceiling no longer covers a; a positive a needs at least one. */
  lemma CeilDivBounds(a: nat, b: nat)
    requires b > 0
    ensures (CeilDiv(a, b) - 1) * b < a
    ensures a > 0 ==> CeilDiv(a, b) >= 1
  {
    var q := CeilDiv(a, b);
    assert (q - 1) * b == q * b - b;
  }

  /** q = ceil(a / b) blocks of b cover a, and q - 1 do not. */
  lemma CeilDivCovers(a: nat, b: nat, q: nat)
    requires b > 0 && q == CeilDiv(a, b)
    ensures q * b >= a > (q - 1) * b
  {
    CeilDivBounds(a, b);
  }

  /** A positive a that fits in one block of b needs exactly one. */
  lemma CeilDivOne(a: nat, b: nat)
    requires 0 < a <= b
    ensures CeilDiv(a, b) == 1
  {
    var n := CeilDiv(a, b);
    CeilDivBounds(a, b);
    if n >= 2 {
      MulLeMono(1, n - 1, b);
    }
  }

  /** Quotient and remainder are unique (Euclidean division). */
  lemma DivModUnique(x: nat, d: nat, q: nat, r: nat)
    requires d > 0 && r < d && x == q * d + r
    ensures x / d == q && x % d == r
  {
    var q0, r0 := x / d, x % d;
    assert x == q0 * d + r0;
    assert (q - q0) * d == r0 - r by {
      assert q * d - q0 * d == r0 - r;
    }
    if q0 < q {
      MulAtLeast(q - q0, d);
    } else if q0 > q {
      MulAtLeast(q0 - q, d);
    }
  }

  lemma MulAtLeast(k: int, d: nat)
    requires k >= 1
    ensures k * d >= d
  {
  }

  lemma MulLeMono(x: nat, y: nat, k: nat)
    requires x <= y
    ensures x * k <= y * k
  {
  }

  /** A two-digit number in mixed radix stays below the product of the radices. */
  lemma DigitBound(x: nat, rx: nat, y: nat, ry: nat)
    requires x < rx && y < ry
    ensures x * ry + y < rx * ry
  {
    MulLeMono(x, rx - 1, ry);
  }

  /** a below p * q means a / p below q. */
  lemma DivBelow(a: nat, p: nat, q: nat)
    requires p > 0 && a < p * q
    ensures a / p < q
  {
    var d := a / p;
    assert a == d * p + a % p;
    if d >= q {
      MulLeMono(q, d, p);
    }
  }

  /** A value below the modulus is its own remainder. */
  lemma ModSmall(x: nat, d: nat)
    requires x < d
    ensures x % d == x
  {
    DivModUnique(x, d, 0, x);
  }

  /** Dividing by a then by b is dividing by a * b. */
  lemma DivDiv(x: nat, a: nat, b: nat)
    requires a > 0 && b > 0
    ensures x / a / b == x / (a * b)
  {
    var q1, r1 := x / a, x % a;
    DivMod(x, a);
    var q2, r2 := q1 / b, q1 % b;
    DivMod(q1, b);
    Expand(q1, q2, b, r2, a);
    Below(r1, r2, a, b);
    DivModUnique(x, a * b, q2, r2 * a + r1);
  }

  /** Euclidean division of a natural by a positive divisor. */
  lemma DivMod(x: nat, d: nat)
    requires d > 0
    ensures x == (x / d) * d + x % d && 0 <= x % d < d && 0 <= x / d <= x
  {
    var q, r := x / d, x % d;
    assert x == q * d + r;
    if q > x {
      MulAtLeast(d, q);
    }
  }

  lemma Expand(q1: int, q2: int, b: int, r2: int, a: int)
    requires q1 == q2 * b + r2
    ensures q1 * a == q2 * (a * b) + r2 * a
  {
    calc {
      q1 * a;
      == (q2 * b + r2) * a;
      == q2 * b * a + r2 * a;
      == q2 * (a * b) + r2 * a;
    }
  }

  /** A two-digit remainder stays below the product of the divisors. */
  lemma Below(r1: nat, r2: nat, a: nat, b: nat)
    requires r1 < a && r2 < b
    ensures r2 * a + r1 < a * b
  {
    MulLeMono(r2, b - 1, a);
    assert (b - 1) * a == b * a - a;
  }

  /** x mod 2P splits into the low bit and (x/2) mod P. */
  lemma ModDouble(x: nat, p: nat)
    requires p > 0
    ensures x % (2 * p) == 2 * ((x / 2) % p) + x % 2
  {
    var h := x / 2;
    assert x == 2 * h + x % 2;
    assert h == (h / p) * p + h % p;
    assert x == (h / p) * (2 * p) + (2 * (h % p) + x % 2);
    DivModUnique(x, 2 * p, h / p, 2 * (h % p) + x % 2);
  }

  /** Bitwise AND of two naturals (the C operator &). */
  function And(a: nat, b: nat): nat
    decreases a
  {
    if a == 0 || b == 0 then 0
    else 2 * And(a / 2, b / 2) + (if a % 2 == 1 && b % 2 == 1 then 1 else 0)
  }

  /** Bitwise OR of two naturals (the C operator |). */
  function Or(a: nat, b: nat): nat
    decreases a + b
  {
    if a == 0 then b
    else if b == 0 then a
    else 2 * Or(a / 2, b / 2) + (if a % 2 == 1 || b % 2 == 1 then 1 else 0)
  }

  /** a << k. */
  function Shl(a: nat, k: nat): nat {
    a * Pow2(k)
  }

  /** a >> k on an unsigned value. */
  function Shr(a: nat, k: nat): nat {
    DivMod(a, Pow2(k));
    a / Pow2(k)
  }

  lemma {:induction false} AndComm(a: nat, b: nat)
    ensures And(a, b) == And(b, a)
    decreases a
  {
    if a != 0 && b != 0 {
      AndComm(a / 2, b / 2);
    }
  }

  lemma {:induction false} OrComm(a: nat, b: nat)
    ensures Or(a, b) == Or(b, a)
    decreases a + b
  {
    if a != 0 && b != 0 {
      OrComm(a / 2, b / 2);
    }
  }

  /** Masking with the low-n-bits mask keeps x mod 2^n. */
  lemma {:induction false} AndLowMask(x: nat, n: nat)
    ensures And(x, Pow2(n) - 1) == x % Pow2(n)
  {
    var m := Pow2(n) - 1;
    if n == 0 {
      assert m == 0;
      ModSmall(0, 1);
      assert x % 1 == 0 by { DivModUnique(x, 1, x, 0); }
    } else if x == 0 {
      ModSmall(0, Pow2(n));
    } else {
      var h := Pow2(n - 1);
      assert Pow2(n) == 2 * h;
      assert m / 2 == h - 1 && m % 2 == 1;
      AndLowMask(x / 2, n - 1);
      assert And(x, m) == 2 * And(x / 2, h - 1) + x % 2;
      ModDouble(x, h);
    }
  }

  /** OR of a value shifted left by k with a value below 2^k is their sum: the fields do not overlap. */
  lemma {:induction false} OrShifted(a: nat, k: nat, b: nat)
    requires b < Pow2(k)
    ensures Or(a * Pow2(k), b) == a * Pow2(k) + b
  {
    if k > 0 && a != 0 && b != 0 {
      var x := a * Pow2(k);
      assert x == 2 * (a * Pow2(k - 1));
      assert x / 2 == a * Pow2(k - 1);
      assert x % 2 == 0;
      OrShifted(a, k - 1, b / 2);
    }
  }

  /**
   * The loop `for i < nBits: mask |= 1 << i` of utilCreateMask: the low nBits
   * bits set, nothing for a non-positive count.
   */
  function CreateMask(nBits: int): (mask: nat)
    ensures nBits <= 0 ==> mask == 0
    ensures nBits >= 0 ==> mask == Pow2(nBits) - 1
    decreases if nBits < 0 then 0 else nBits
  {
    if nBits <= 0 then 0
    else
      var lower := CreateMask(nBits - 1);
      OrComm(lower, Shl(1, nBits - 1));
      OrShifted(1, nBits - 1, lower);
      Or(lower, Shl(1, nBits - 1))
  }

  /** utilShiftAndMask: (input >> shiftValue) & mask. */
  function ShiftAndMask(input: nat, shiftValue: nat, mask: nat): nat {
    And(Shr(input, shiftValue), mask)
  }
}
