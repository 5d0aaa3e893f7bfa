/** C's unsigned integers as naturals, with the bit operators the simulator applies to them.

A `uint32_t` is a `Word`, a `uint8_t` a `Byte`. `&`, `|` and `^` are defined one binary digit at a
time; the lemmas say what each of the simulator's idioms (mask, disjoint or, top-bit flip) means as
arithmetic. */
module Bits {

  const MODULUS: int := 0x1_0000_0000

  type Word = x: int | 0 <= x < 0x1_0000_0000
  type Byte = x: int | 0 <= x < 0x100

  function Pow2(n: nat): (p: nat)
    ensures p >= 1
  {
    if n == 0 then 1 else 2 * Pow2(n - 1)
  }

  function And(x: nat, y: nat): nat
    decreases x + y
  {
    if x == 0 && y == 0 then 0
    else 2 * And(x / 2, y / 2) + (if x % 2 == 1 && y % 2 == 1 then 1 else 0)
  }

  function Or(x: nat, y: nat): nat
    decreases x + y
  {
    if x == 0 && y == 0 then 0
    else 2 * Or(x / 2, y / 2) + (if x % 2 == 1 || y % 2 == 1 then 1 else 0)
  }

  function Xor(x: nat, y: nat): nat
    decreases x + y
  {
    if x == 0 && y == 0 then 0
    else 2 * Xor(x / 2, y / 2) + (if x % 2 != y % 2 then 1 else 0)
  }

  /** `x >> n`: drop `n` digits. */
  function Shr(x: nat, n: nat): (r: nat)
    ensures r <= x
    decreases n
  {
    if n == 0 then x else Shr(x / 2, n - 1)
  }

  /** The low `n` digits of `x`. */
  function Low(x: nat, n: nat): nat
    decreases n
  {
    if n == 0 then 0 else 2 * Low(x / 2, n - 1) + x % 2
  }

  /** `x << n` before any truncation. */
  function Shl(x: nat, n: nat): nat {
    x * Pow2(n)
  }

  /** The low 32 bits: conversion to `uint32_t`. */
  function Wrap(v: int): Word {
    v % 0x1_0000_0000
  }

  /** Binary digit `i` of `x`. */
  predicate Bit(x: nat, i: nat) {
    if i == 0 then x % 2 == 1 else Bit(x / 2, i - 1)
  }

  // ----- The operators work digit by digit -----

  lemma AndHalves(x: nat, y: nat)
    ensures And(x, y) / 2 == And(x / 2, y / 2) && And(x, y) % 2 == if x % 2 == 1 && y % 2 == 1 then 1 else 0
  {
  }

  lemma OrHalves(x: nat, y: nat)
    ensures Or(x, y) / 2 == Or(x / 2, y / 2) && Or(x, y) % 2 == if x % 2 == 1 || y % 2 == 1 then 1 else 0
  {
  }

  lemma XorHalves(x: nat, y: nat)
    ensures Xor(x, y) / 2 == Xor(x / 2, y / 2) && Xor(x, y) % 2 == if x % 2 != y % 2 then 1 else 0
  {
  }

  lemma {:induction false} OperatorDigits(x: nat, y: nat, i: nat)
    ensures Bit(And(x, y), i) == (Bit(x, i) && Bit(y, i))
    ensures Bit(Or(x, y), i) == (Bit(x, i) || Bit(y, i))
    ensures Bit(Xor(x, y), i) == (Bit(x, i) != Bit(y, i))
  {
    hide And, Or, Xor;
    AndHalves(x, y);
    OrHalves(x, y);
    XorHalves(x, y);
    if i > 0 {
      OperatorDigits(x / 2, y / 2, i - 1);
    }
  }

  /** A number is determined by its digits, so `OperatorDigits` pins down all three operators. */
  lemma {:induction false} DigitsDetermine(x: nat, y: nat)
    requires forall i: nat :: Bit(x, i) == Bit(y, i)
    ensures x == y
    decreases x + y
  {
    if x != 0 || y != 0 {
      assert Bit(x, 0) == Bit(y, 0);
      forall i: nat
        ensures Bit(x / 2, i) == Bit(y / 2, i)
      {
        assert Bit(x, i + 1) == Bit(y, i + 1);
      }
      DigitsDetermine(x / 2, y / 2);
    }
  }

  // ----- Division by powers of two -----

  /** The powers up to 2^32, for use with constant shift amounts. */
  lemma Powers()
    ensures Pow2(0) == 0x1 && Pow2(1) == 0x2 && Pow2(2) == 0x4 && Pow2(3) == 0x8
    ensures Pow2(4) == 0x10 && Pow2(5) == 0x20 && Pow2(6) == 0x40 && Pow2(7) == 0x80
    ensures Pow2(8) == 0x100 && Pow2(9) == 0x200 && Pow2(10) == 0x400 && Pow2(11) == 0x800
    ensures Pow2(12) == 0x1000 && Pow2(13) == 0x2000 && Pow2(14) == 0x4000 && Pow2(15) == 0x8000
    ensures Pow2(16) == 0x10000 && Pow2(17) == 0x20000 && Pow2(18) == 0x40000 && Pow2(19) == 0x80000
    ensures Pow2(20) == 0x100000 && Pow2(21) == 0x200000 && Pow2(22) == 0x400000 && Pow2(23) == 0x800000
    ensures Pow2(24) == 0x1000000 && Pow2(25) == 0x2000000 && Pow2(26) == 0x4000000 && Pow2(27) == 0x8000000
    ensures Pow2(28) == 0x10000000 && Pow2(29) == 0x20000000 && Pow2(30) == 0x40000000 && Pow2(31) == 0x80000000
    ensures Pow2(32) == 0x100000000
  {
    assert Pow2(8) == 0x100;
    assert Pow2(16) == 0x1_0000;
    assert Pow2(24) == 0x100_0000;
  }

  lemma DivModUnique(x: int, d: int, q: int, r: int)
    requires 0 <= r < d && x == d * q + r
    ensures x / d == q && x % d == r
  {
    var k := x / d - q;
    assert d * k == r - x % d;
    if k >= 1 {
      MulAtLeast(d, k);
    } else if k <= -1 {
      MulAtLeast(d, -k);
    }
  }

  lemma MulAtLeast(d: int, k: int)
    requires d > 0 && k >= 1
    ensures d * k >= d
  {
  }

  lemma Distribute(c: int, p: int, q: int, m: int)
    ensures c * (p * q + m) == (c * p) * q + c * m
  {
  }

  lemma MoveFactor(c: int, a: int, p: int)
    ensures a * (c * p) == c * (a * p)
  {
  }

  lemma BelowProduct(c: nat, p: nat, m: nat, b: nat)
    requires m < p && b < c
    ensures c * m + b < c * p
  {
    assert c * p == c * m + c * (p - m);
    MulAtLeast(c, p - m);
  }

  /** Dividing twice is dividing by the product. */
  lemma DivDiv(x: nat, c: nat, p: nat)
    requires c > 0 && p > 0
    ensures c * p > 0 && x / (c * p) == x / c / p && x % (c * p) == c * (x / c % p) + x % c
  {
    var h, b := x / c, x % c;
    var q, m := h / p, h % p;
    MulAtLeast(c, p);
    BelowProduct(c, p, m, b);
    assert c * h == (c * p) * q + c * m by {
      assert h == p * q + m;
      Distribute(c, p, q, m);
    }
    assert x == c * h + b;
    DivModUnique(x, c * p, q, c * m + b);
  }

  lemma {:induction false} PowSum(a: nat, b: nat)
    ensures Pow2(a + b) == Pow2(a) * Pow2(b)
  {
    if a > 0 {
      PowSum(a - 1, b);
    }
  }

  lemma {:induction false} ShrIsQuotient(x: nat, n: nat)
    ensures Shr(x, n) == x / Pow2(n)
    ensures Low(x, n) == x % Pow2(n)
    decreases n
  {
    if n > 0 {
      ShrIsQuotient(x / 2, n - 1);
      DivDiv(x, 2, Pow2(n - 1));
    }
  }

  lemma {:induction false} ShrShr(x: nat, m: nat, n: nat)
    ensures Shr(Shr(x, m), n) == Shr(x, m + n)
    decreases m
  {
    if m > 0 {
      ShrShr(x / 2, m - 1, n);
    }
  }

  lemma ModMod(a: int, m: int, k: int)
    requires m > 0 && k > 0
    ensures m * k > 0 && a % (m * k) % m == a % m
  {
    MulAtLeast(m, k);
    var q, r := a / (m * k), a % (m * k);
    var q', r' := r / m, r % m;
    Distribute(m, k, q, q');
    assert a == (m * k) * q + r && r == m * q' + r';
    DivModUnique(a, m, k * q + q', r');
  }

  // ----- What the simulator's idioms mean -----

  lemma {:induction false} AndZero(x: nat)
    ensures And(x, 0) == 0
    decreases x
  {
    if x > 0 {
      AndZero(x / 2);
    }
  }

  lemma {:induction false} OrZero(x: nat)
    ensures Or(x, 0) == x && Or(0, x) == x && Xor(x, 0) == x
    decreases x
  {
    if x > 0 {
      OrZero(x / 2);
    }
  }

  /** `x & ((1 << n) - 1)` keeps the low `n` digits. */
  lemma {:induction false} MaskLow(x: nat, n: nat)
    ensures And(x, Pow2(n) - 1) == Low(x, n)
    decreases n
  {
    if n == 0 {
      AndZero(x);
    } else {
      assert (2 * Pow2(n - 1) - 1) / 2 == Pow2(n - 1) - 1;
      MaskLow(x / 2, n - 1);
    }
  }

  /** Masking with `m << k` is masking the shifted number with `m`. */
  lemma {:induction false} MaskShifted(x: nat, k: nat, m: nat)
    ensures And(x, m * Pow2(k)) == And(Shr(x, k), m) * Pow2(k)
    decreases k
  {
    hide And;
    if k > 0 {
      var p := Pow2(k - 1);
      var r := And(Shr(x / 2, k - 1), m);
      MoveFactor(2, m, p);
      MoveFactor(2, r, p);
      MaskShifted(x / 2, k - 1, m);
      AndEven(x, m * p);
    }
  }

  lemma AndEven(x: nat, y: nat)
    ensures And(x, 2 * y) == 2 * And(x / 2, y)
  {
    assert 2 * y / 2 == y;
  }

  /** `x & (((1 << n) - 1) << k)` keeps the digits `k` to `k + n - 1` in place. */
  lemma MaskField(x: nat, k: nat, n: nat)
    ensures And(x, (Pow2(n) - 1) * Pow2(k)) == Low(Shr(x, k), n) * Pow2(k)
  {
    MaskShifted(x, k, Pow2(n) - 1);
    MaskLow(Shr(x, k), n);
  }

  /** `(x >> s) & mask`, for a mask of `n` ones starting at bit `k`, in terms of constants:
      `d = 2^(s+k)` and `m = 2^n`. */
  lemma Piece(x: nat, s: nat, k: nat, n: nat, d: nat, m: nat, mask: nat)
    requires d == Pow2(s + k) && m == Pow2(n) && mask == (m - 1) * Pow2(k)
    ensures And(Shr(x, s), mask) == x / d % m * Pow2(k)
  {
    MaskField(Shr(x, s), k, n);
    ShrShr(x, s, k);
    ShrIsQuotient(x, s + k);
    ShrIsQuotient(Shr(x, s + k), n);
  }

  lemma Quotient(x: nat, s: nat, d: nat)
    requires d == Pow2(s)
    ensures Shr(x, s) == x / d
  {
    ShrIsQuotient(x, s);
  }

  /** `(a << k) | b` is a sum when `b` fits below bit `k`. */
  lemma {:induction false} OrDisjoint(a: nat, b: nat, k: nat)
    requires b < Pow2(k)
    ensures Or(a * Pow2(k), b) == a * Pow2(k) + b
    decreases k
  {
    if k == 0 {
      OrZero(a);
    } else {
      var p := Pow2(k - 1);
      assert a * Pow2(k) == 2 * (a * p);
      OrDisjoint(a, b / 2, k - 1);
    }
  }

  lemma {:induction false} OrCommutes(x: nat, y: nat)
    ensures Or(x, y) == Or(y, x)
    decreases x + y
  {
    if x != 0 || y != 0 {
      OrCommutes(x / 2, y / 2);
    }
  }

  /** Flipping the top bit of a `k + 1`-bit number. */
  lemma {:induction false} XorTop(x: nat, k: nat)
    requires x < Pow2(k + 1)
    ensures Xor(x, Pow2(k)) == if x < Pow2(k) then x + Pow2(k) else x - Pow2(k)
    decreases k
  {
    if k == 0 {
      assert x == 0 || x == 1;
    } else {
      var p := Pow2(k - 1);
      assert Pow2(k) / 2 == p && Pow2(k) % 2 == 0;
      XorTop(x / 2, k - 1);
    }
  }

  lemma {:induction false} OperatorBound(x: nat, y: nat, k: nat)
    requires x < Pow2(k) && y < Pow2(k)
    ensures And(x, y) < Pow2(k) && Or(x, y) < Pow2(k) && Xor(x, y) < Pow2(k)
    decreases k
  {
    if k == 0 {
    } else {
      OperatorBound(x / 2, y / 2, k - 1);
    }
  }

  lemma Operators32(x: Word, y: Word)
    ensures And(x, y) < MODULUS && Or(x, y) < MODULUS && Xor(x, y) < MODULUS
  {
    Powers();
    OperatorBound(x, y, 32);
  }

  lemma {:induction false} AndSelf(x: nat)
    ensures And(x, x) == x
    decreases x
  {
    if x > 0 {
      AndSelf(x / 2);
    }
  }

  ghost predicate IsPowerOfTwo(x: nat) {
    exists k: nat :: x == Pow2(k)
  }

  /** `x & (x - 1)` clears the lowest one, so nothing is left exactly of powers of two. */
  lemma {:induction false} PowerOfTwo(x: nat)
    requires x > 0
    ensures And(x, x - 1) == 0 <==> IsPowerOfTwo(x)
    decreases x
  {
    if x == 1 {
      AndZero(1);
      assert 1 == Pow2(0);
    } else if x % 2 == 1 {
      AndSelf(x / 2);
    } else {
      PowerOfTwo(x / 2);
      assert (x - 1) / 2 == x / 2 - 1;
      if IsPowerOfTwo(x / 2) {
        var k: nat :| x / 2 == Pow2(k);
        assert x == Pow2(k + 1);
      }
      if IsPowerOfTwo(x) {
        var k: nat :| x == Pow2(k);
        assert x / 2 == Pow2(k - 1);
      }
    }
  }
}
