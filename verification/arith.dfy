/** Integer facts the codec relies on: powers of two, the unsigned 64-bit
    wrap-around of the C++ `uint64_t` arithmetic, and the division/remainder
    identities behind "split a value into bit groups and put it back". */
module Arith {

  /** An 8-bit unsigned value used as a number (file bytes, characters). */
  type byte = x: int | 0 <= x < 256

  /** 2^64, the modulus of `uint64_t` / `size_t` arithmetic. */
  const U64: nat := 0x1_0000_0000_0000_0000

  function Pow2(n: nat): (r: nat)
    ensures r >= 1
  {
    if n == 0 then 1 else 2 * Pow2(n - 1)
  }

  /** Unsigned 64-bit wrap-around of an exact integer result. */
  function Wrap64(x: int): (r: nat)
    ensures r < U64
    ensures 0 <= x < U64 ==> r == x
    ensures x < 0 && 0 <= x + U64 ==> r == x + U64
  {
    x % U64
  }

  lemma {:induction false} Pow2Add(a: nat, b: nat)
    ensures Pow2(a + b) == Pow2(a) * Pow2(b)
    decreases b
  {
    if b > 0 {
      Pow2Add(a, b - 1);
      assert Pow2(a + b) == 2 * Pow2(a + b - 1);
    }
  }

  /** 2^8 and 2^64, built up by doubling exponents. */
  lemma Pow2Word()
    ensures Pow2(8) == 256
    ensures Pow2(64) == U64
  {
    assert Pow2(2) == 4;
    Pow2Add(2, 2);
    assert Pow2(4) == 16;
    Pow2Add(4, 4);
    assert Pow2(8) == 256;
    Pow2Add(8, 8);
    assert Pow2(16) == 0x1_0000;
    Pow2Add(16, 16);
    assert Pow2(32) == 0x1_0000_0000;
    Pow2Add(32, 32);
  }

  lemma MulAtLeast(d: int, x: int)
    requires d > 0 && x >= 1
    ensures d * x >= d
  {
    assert d * x == d * (x - 1) + d;
    MulNonNeg(d, x - 1);
  }

  lemma MulNonNeg(a: int, b: int)
    requires a >= 0 && b >= 0
    ensures a * b >= 0
  {
  }

  lemma MulMono(a: int, b: int, c: int)
    requires a >= 0 && b <= c
    ensures a * b <= a * c
  {
    assert a * c - a * b == a * (c - b);
    MulNonNeg(a, c - b);
  }

  /** Quotient and remainder are determined by `a == d*q + r, 0 <= r < d`. */
  lemma DivModUnique(a: int, d: int, q: int, r: int)
    requires 0 < d && 0 <= r < d && a == d * q + r
    ensures a / d == q && a % d == r
  {
    var q0, r0 := a / d, a % d;
    assert d * q0 + r0 == d * q + r;
    assert d * (q0 - q) == r - r0;
    if q0 > q {
      MulAtLeast(d, q0 - q);
    } else if q0 < q {
      assert d * (q - q0) == r0 - r;
      MulAtLeast(d, q - q0);
    }
  }

  /** Adding a multiple of the divisor shifts the quotient and keeps the remainder. */
  lemma DivAddMul(a: nat, d: nat, t: nat)
    requires d > 0
    ensures (a + d * t) / d == a / d + t
    ensures (a + d * t) % d == a % d
  {
    var q, r := a / d, a % d;
    assert a + d * t == d * (q + t) + r by {
      assert d * (q + t) == d * q + d * t;
    }
    DivModUnique(a + d * t, d, q + t, r);
  }

  /** The digit of `lo + g*b` in position `b` is `g` when `lo` is below `b`. */
  lemma TopDigit(lo: nat, g: nat, b: nat, q: nat)
    requires b > 0 && q > 0 && lo < b && g < q
    ensures ((lo + g * b) / b) % q == g
  {
    assert g * b == b * g;
    DivAddMul(lo, b, g);
    DivModUnique(lo, b, 0, lo);
    DivModUnique(g, q, 0, g);
  }

  /** Adding a multiple of `p*q*r` does not change the digit in position `p`. */
  lemma LowDigit(lo: nat, g: nat, p: nat, q: nat, r: nat)
    requires p > 0 && q > 0 && r > 0
    ensures ((lo + g * (p * q * r)) / p) % q == (lo / p) % q
  {
    assert g * (p * q * r) == p * (q * (g * r));
    DivAddMul(lo, p, q * (g * r));
    DivAddMul(lo / p, q, g * r);
  }

  /** The remainder modulo `b*c` is the remainder modulo `b` plus `b` times
      the next digit in base `c`. */
  lemma ModMul(a: nat, b: nat, c: nat)
    requires b > 0 && c > 0
    ensures a % (b * c) == a % b + b * ((a / b) % c)
  {
    var q, r := a / b, a % b;
    var q2, r2 := q / c, q % c;
    assert a == b * q + r;
    assert q == c * q2 + r2;
    assert b * q == (b * c) * q2 + b * r2 by {
      assert b * (c * q2 + r2) == (b * c) * q2 + b * r2;
    }
    MulMono(b, r2, c - 1);
    assert b * (c - 1) == b * c - b;
    MulNonNeg(b, r2);
    DivModUnique(a, b * c, q2, b * r2 + r);
  }

  /** `x <= y / d` (floor division) exactly when `d * x <= y`. */
  lemma FloorDivBound(x: int, y: int, d: int)
    requires d > 0
    ensures x <= y / d <==> d * x <= y
  {
    var q, r := y / d, y % d;
    assert y == d * q + r;
    if x <= q {
      MulMono(d, x, q);
    } else {
      MulMono(d, q + 1, x);
    }
  }
}
