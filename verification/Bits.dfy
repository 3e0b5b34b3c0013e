/**
  Machine words as integers.  A word of width n is a value in [0, Pow2(n)); a signed value is
  any integer, read in two's complement.  `Bit(v, i)` is bit i of v, for negative v too, and
  every operation of src/asm/bits.h and of the C++ expressions modelled elsewhere is
  characterised by the bits of its result, so that equalities between words are proved bit by
  bit (`SameBits`).
 */
module Bits {

  function Pow2(n: nat): (p: int)
    ensures p >= 1
  {
    if n == 0 then 1 else 2 * Pow2(n - 1)
  }

  lemma {:induction false} Pow2Add(m: nat, n: nat)
    ensures Pow2(m + n) == Pow2(m) * Pow2(n)
  {
    if m > 0 {
      Pow2Add(m - 1, n);
      assert 2 * (Pow2(m - 1) * Pow2(n)) == (2 * Pow2(m - 1)) * Pow2(n);
    }
  }

  lemma {:induction false} Pow2Mono(m: nat, n: nat)
    requires m <= n
    ensures Pow2(m) <= Pow2(n)
    decreases n
  {
    if m < n { Pow2Mono(m, n - 1); }
  }

  lemma Pow2Values()
    ensures Pow2(1) == 2 && Pow2(2) == 4 && Pow2(3) == 8 && Pow2(4) == 0x10
    ensures Pow2(5) == 0x20 && Pow2(6) == 0x40 && Pow2(7) == 0x80
    ensures Pow2(8) == 0x100 && Pow2(11) == 0x800 && Pow2(12) == 0x1000 && Pow2(13) == 0x2000
    ensures Pow2(16) == 0x1_0000 && Pow2(20) == 0x10_0000 && Pow2(21) == 0x20_0000
    ensures Pow2(24) == 0x100_0000
    ensures Pow2(31) == 0x8000_0000 && Pow2(32) == 0x1_0000_0000
    ensures Pow2(63) == 0x8000_0000_0000_0000 && Pow2(64) == 0x1_0000_0000_0000_0000
  {
    hide Pow2;
    Pow2Small();
    Pow2Add(5, 6);
    Pow2Add(6, 6);
    Pow2Add(1, 12);
    Pow2Add(8, 8);
    Pow2Add(16, 4);
    Pow2Add(1, 20);
    Pow2Add(16, 8);
    Pow2Add(16, 16);
    Pow2Add(1, 31);
    Pow2Add(32, 32);
    Pow2Add(1, 63);
  }

  lemma Pow2Small()
    ensures Pow2(1) == 2 && Pow2(2) == 4 && Pow2(3) == 8 && Pow2(4) == 0x10
    ensures Pow2(5) == 0x20 && Pow2(6) == 0x40 && Pow2(7) == 0x80 && Pow2(8) == 0x100
  {
    hide Pow2;
    Pow2One();
    Pow2Add(1, 1);
    Pow2Add(1, 2);
    Pow2Add(2, 2);
    Pow2Add(1, 4);
    Pow2Add(2, 4);
    Pow2Add(3, 4);
    Pow2Add(4, 4);
  }

  lemma Pow2One()
    ensures Pow2(1) == 2
  {}

  /** Bit i of the two's complement representation of v. */
  predicate Bit(v: int, i: nat)
    decreases i
  {
    if i == 0 then v % 2 == 1 else Bit(v / 2, i - 1)
  }

  /** Bitwise operators on words. */
  function And(x: nat, y: nat): nat
    decreases x
  {
    if x == 0 then 0 else 2 * And(x / 2, y / 2) + (if x % 2 == 1 && y % 2 == 1 then 1 else 0)
  }

  function Or(x: nat, y: nat): nat
    decreases x + y
  {
    if x == 0 && y == 0 then 0
    else 2 * Or(x / 2, y / 2) + (if x % 2 == 1 || y % 2 == 1 then 1 else 0)
  }

  function Xor(x: nat, y: nat): nat
    decreases x + y
  {
    if x == 0 && y == 0 then 0
    else 2 * Xor(x / 2, y / 2) + (if (x % 2 == 1) != (y % 2 == 1) then 1 else 0)
  }

  lemma {:induction false} ZeroBits(i: nat)
    ensures !Bit(0, i)
  {
    if i > 0 { ZeroBits(i - 1); }
  }

  lemma {:induction false} BitAnd(x: nat, y: nat, i: nat)
    ensures Bit(And(x, y), i) == (Bit(x, i) && Bit(y, i))
    decreases i
  {
    if x == 0 { ZeroBits(i); }
    else if i > 0 { BitAnd(x / 2, y / 2, i - 1); }
  }

  lemma {:induction false} BitOr(x: nat, y: nat, i: nat)
    ensures Bit(Or(x, y), i) == (Bit(x, i) || Bit(y, i))
    decreases i
  {
    if i > 0 {
      if x == 0 && y == 0 { ZeroBits(i); } else { BitOr(x / 2, y / 2, i - 1); }
    }
  }

  lemma {:induction false} BitXor(x: nat, y: nat, i: nat)
    ensures Bit(Xor(x, y), i) == (Bit(x, i) != Bit(y, i))
    decreases i
  {
    if i > 0 {
      if x == 0 && y == 0 { ZeroBits(i); } else { BitXor(x / 2, y / 2, i - 1); }
    }
  }

  /** The low n bits of v as an unsigned word: conversion to an n-bit unsigned type. */
  function Unsigned(n: nat, v: int): (r: nat)
    ensures r < Pow2(n)
    decreases n
  {
    if n == 0 then 0 else 2 * Unsigned(n - 1, v / 2) + v % 2
  }

  /** Arithmetic shift right by k: v >> k, rounding towards minus infinity. */
  function Shr(v: int, k: nat): int
    decreases k
  {
    if k == 0 then v else Shr(v / 2, k - 1)
  }

  /** Shift left, before any truncation: v << k, the product of v and 2^k. */
  function Shl(v: int, k: nat): int
    decreases k
  {
    if k == 0 then v else 2 * Shl(v, k - 1)
  }

  /** The definitions, one step at a time. */
  lemma ShlStep(v: int, k: nat)
    ensures Shl(v, k + 1) == 2 * Shl(v, k) && Pow2(k + 1) == 2 * Pow2(k)
  {}

  lemma AndStep(x: nat, y: nat)
    ensures And(x, y) == 2 * And(x / 2, y / 2) + (if x % 2 == 1 && y % 2 == 1 then 1 else 0)
  {}

  lemma {:induction false} ShlIsMul(v: int, k: nat)
    ensures Shl(v, k) == v * Pow2(k)
  {
    if k > 0 { ShlIsMul(v, k - 1); }
  }

  lemma {:induction false} ShlAdd(a: int, b: int, k: nat)
    ensures Shl(a + b, k) == Shl(a, k) + Shl(b, k)
  {
    if k > 0 { ShlAdd(a, b, k - 1); }
  }

  lemma {:induction false} ShlSub(a: int, b: int, k: nat)
    ensures Shl(a - b, k) == Shl(a, k) - Shl(b, k)
  {
    if k > 0 { ShlSub(a, b, k - 1); }
  }

  lemma {:induction false} ShlShl(a: int, j: nat, k: nat)
    ensures Shl(Shl(a, j), k) == Shl(a, j + k)
    decreases k
  {
    if k > 0 { ShlShl(a, j, k - 1); }
  }

  lemma {:induction false} ShlMul(a: int, b: int, k: nat)
    ensures Shl(a, k) * b == Shl(a * b, k)
    ensures b * Shl(a, k) == Shl(a * b, k)
  {
    if k > 0 {
      ShlMul(a, b, k - 1);
      assert (2 * Shl(a, k - 1)) * b == 2 * (Shl(a, k - 1) * b);
    }
  }

  /** Shifting is monotone and strict, so it can be undone. */
  lemma {:induction false} ShlOrder(a: int, b: int, k: nat)
    ensures a < b ==> Shl(a, k) + Pow2(k) <= Shl(b, k)
    ensures a == b ==> Shl(a, k) == Shl(b, k)
  {
    if k > 0 { ShlOrder(a, b, k - 1); }
  }

  lemma {:induction false} ShlPow2(j: nat, k: nat)
    ensures Shl(Pow2(j), k) == Pow2(j + k) && Shl(1, k) == Pow2(k) && Shl(0, k) == 0 && Shl(-1, k) == -Pow2(k)
    decreases k
  {
    if k > 0 { ShlPow2(j, k - 1); }
  }

  lemma ShlBound(a: nat, j: nat, k: nat)
    requires a < Pow2(j)
    ensures 0 <= Shl(a, k) <= Pow2(j + k) - Pow2(k)
  {
    ShlPow2(j, k);
    ShlOrder(a, Pow2(j), k);
    ShlOrder(0, a, k);
  }

  /** The two halves of v at bit k determine v ... */
  lemma {:induction false} Split(v: int, k: nat)
    ensures v == Shl(Shr(v, k), k) + Unsigned(k, v)
    decreases k
  {
    if k > 0 { Split(v / 2, k - 1); }
  }

  /** ... and are the only such pair. */
  lemma {:induction false} SplitUnique(v: int, k: nat, q: int, r: int)
    requires v == Shl(q, k) + r && 0 <= r < Pow2(k)
    ensures Shr(v, k) == q && Unsigned(k, v) == r
    decreases k
  {
    if k > 0 { SplitUnique(v / 2, k - 1, q, r / 2); }
  }

  lemma UnsignedSmall(n: nat, v: int)
    requires 0 <= v < Pow2(n)
    ensures Unsigned(n, v) == v && Shr(v, n) == 0
  {
    ShlPow2(0, n);
    SplitUnique(v, n, 0, v);
  }

  lemma UnsignedStep(n: nat, v: int)
    ensures Unsigned(n + 1, v) == 2 * Unsigned(n, v / 2) + v % 2
  {}

  /** Truncating twice is truncating to the narrower width. */
  lemma {:induction false} TruncateTwice(a: nat, b: nat, v: int)
    requires a <= b
    ensures Unsigned(a, Unsigned(b, v)) == Unsigned(a, v)
    decreases a
  {
    hide Unsigned, Pow2;
    if a == 0 {
      NoBits(v);
      NoBits(Unsigned(b, v));
    } else {
      UnsignedStep(b - 1, v);
      UnsignedStep(a - 1, v);
      UnsignedStep(a - 1, Unsigned(b, v));
      TruncateTwice(a - 1, b - 1, v / 2);
    }
  }

  /** A truncation in two pieces. */
  lemma {:induction false} Join(k: nat, m: nat, d: int)
    ensures Unsigned(k + m, d) == Unsigned(k, d) + Shl(Unsigned(m, Shr(d, k)), k)
    decreases k
  {
    if k > 0 { Join(k - 1, m, d / 2); }
  }

  lemma {:induction false} ShrNonNegative(v: nat, k: nat)
    ensures Shr(v, k) >= 0
    decreases k
  {
    if k > 0 { ShrNonNegative(v / 2, k - 1); }
  }

  lemma {:induction false} ShrBound(x: nat, j: nat, k: nat)
    requires x < Pow2(j + k)
    ensures 0 <= Shr(x, k) < Pow2(j)
    decreases k
  {
    if k > 0 { ShrBound(x / 2, j, k - 1); }
  }

  lemma NoBits(v: int)
    ensures Unsigned(0, v) == 0
  {}

  lemma ZeroIsZero(n: nat)
    ensures Unsigned(n, 0) == 0
  {
    UnsignedSmall(n, 0);
  }

  /** The shifts and truncations are division with remainder by powers of two. */
  lemma DivMod(v: int, k: nat)
    ensures Shr(v, k) == v / Pow2(k) && Unsigned(k, v) == v % Pow2(k)
  {
    Split(v, k);
    ShlIsMul(Shr(v, k), k);
    DivUnique(v, Pow2(k), Shr(v, k), Unsigned(k, v));
  }

  /** Quotient and remainder are the only pair with a remainder in range. */
  lemma DivUnique(x: int, d: int, q: int, r: int)
    requires 0 <= r < d
    requires x == q * d + r
    ensures x / d == q && x % d == r
  {
    var q', r' := x / d, x % d;
    assert q * d + r == q' * d + r';
    assert d * (q - q') == r' - r;
    if q - q' >= 1 {
      MulMono(d, 1, q - q');
      assert false;
    } else if q - q' <= -1 {
      MulMono(d, q - q', -1);
      assert false;
    }
  }

  lemma MulMono(a: int, x: int, y: int)
    requires 0 <= a && x <= y
    ensures a * x <= a * y
  {}

  // Shifts, truncation and masks.

  lemma {:induction false} BitShl(x: int, k: nat, i: nat)
    ensures Bit(Shl(x, k), i) == (i >= k && Bit(x, i - k))
  {
    if k > 0 && i > 0 { BitShl(x, k - 1, i - 1); }
  }

  lemma {:induction false} BitShr(x: int, k: nat, i: nat)
    ensures Bit(Shr(x, k), i) == Bit(x, i + k)
    decreases k
  {
    if k > 0 { BitShr(x / 2, k - 1, i); }
  }

  lemma {:induction false} BitUnsigned(n: nat, x: int, i: nat)
    ensures Bit(Unsigned(n, x), i) == (i < n && Bit(x, i))
    decreases n
  {
    if n == 0 { ZeroBits(i); }
    else if i > 0 { BitUnsigned(n - 1, x / 2, i - 1); }
  }

  /** No bit of an n-bit word is set at or above n. */
  lemma {:induction false} HighBits(x: nat, n: nat, i: nat)
    requires x < Pow2(n) && n <= i
    ensures !Bit(x, i)
  {
    if n == 0 { ZeroBits(i); } else { HighBits(x / 2, n - 1, i - 1); }
  }

  /** Words are equal when their bits are. */
  lemma {:induction false} SameBits(x: nat, y: nat, n: nat)
    requires x < Pow2(n) && y < Pow2(n)
    requires forall i: nat :: i < n ==> Bit(x, i) == Bit(y, i)
    ensures x == y
  {
    if n > 0 {
      assert Bit(x, 0) == Bit(y, 0);
      forall i: nat | i < n - 1 ensures Bit(x / 2, i) == Bit(y / 2, i) {
        assert Bit(x, i + 1) == Bit(y, i + 1);
      }
      SameBits(x / 2, y / 2, n - 1);
    }
  }

  /** A word none of whose bits at or above n is set is an n-bit word. */
  lemma {:induction false} BoundedByBits(x: nat, n: nat)
    requires forall i: nat :: n <= i ==> !Bit(x, i)
    ensures x < Pow2(n)
    decreases x
  {
    if x > 0 {
      if n == 0 {
        assert !Bit(x, 0);
        forall i: nat ensures !Bit(x / 2, i) { assert !Bit(x, i + 1); }
        BoundedByBits(x / 2, 0);
      } else {
        forall i: nat | n - 1 <= i ensures !Bit(x / 2, i) { assert !Bit(x, i + 1); }
        BoundedByBits(x / 2, n - 1);
      }
    }
  }

  lemma {:induction false} MaskBits(n: nat, i: nat)
    ensures Bit(Pow2(n) - 1, i) == (i < n)
  {
    if n == 0 { ZeroBits(i); }
    else {
      assert (Pow2(n) - 1) / 2 == Pow2(n - 1) - 1;
      if i > 0 { MaskBits(n - 1, i - 1); }
    }
  }

  /** Masking with n ones is truncation to n bits. */
  lemma {:induction false} AndMask(x: nat, n: nat)
    ensures And(x, Pow2(n) - 1) == Unsigned(n, x)
    decreases n
  {
    if n == 0 { AndZero(x); }
    else {
      assert (Pow2(n) - 1) / 2 == Pow2(n - 1) - 1;
      AndMask(x / 2, n - 1);
    }
  }

  lemma {:induction false} AndZero(x: nat)
    ensures And(x, 0) == 0
  {
    if x > 0 { AndZero(x / 2); }
  }

  /** The bitwise complement of an n-bit word. */
  function Not(n: nat, x: nat): (r: nat)
    requires x < Pow2(n)
  {
    Pow2(n) - 1 - x
  }

  lemma {:induction false} BitNot(n: nat, x: nat, i: nat)
    requires x < Pow2(n)
    ensures Bit(Not(n, x), i) == (i < n && !Bit(x, i))
  {
    if n == 0 { ZeroBits(i); }
    else {
      assert Not(n, x) / 2 == Not(n - 1, x / 2);
      if i > 0 { BitNot(n - 1, x / 2, i - 1); }
    }
  }

  /** Masking with the complement of k ones clears the low k bits. */
  lemma ClearLow(n: nat, k: nat, x: nat)
    requires k <= n && x < Pow2(n) && Pow2(k) - 1 < Pow2(n)
    ensures And(x, Not(n, Pow2(k) - 1)) == x - Unsigned(k, x)
  {
    hide And, Not, Bit, Pow2, Shl, Shr, Unsigned;
    var mask, r := Not(n, Pow2(k) - 1), x - Unsigned(k, x);
    Split(x, k);
    ShlPow2(0, k);
    ShlOrder(Shr(x, k), 0, k);
    ShlOrder(0, Shr(x, k), k);
    AndBound(x, mask, n);
    forall i: nat | i < n ensures Bit(And(x, mask), i) == Bit(r, i) {
      BitAnd(x, mask, i);
      BitNot(n, Pow2(k) - 1, i);
      MaskBits(k, i);
      BitShl(Shr(x, k), k, i);
      if i >= k { BitShr(x, k, i - k); }
    }
    SameBits(And(x, mask), r, n);
  }

  lemma XorZero(y: nat)
    ensures Xor(0, y) == y
  {}

  lemma {:induction false} XorOnes(n: nat, y: nat)
    requires y < Pow2(n)
    ensures Xor(Pow2(n) - 1, y) == Not(n, y)
  {
    if n > 0 {
      assert (Pow2(n) - 1) / 2 == Pow2(n - 1) - 1;
      XorOnes(n - 1, y / 2);
    }
  }

  lemma {:induction false} AndBound(x: nat, y: nat, n: nat)
    requires x < Pow2(n) || y < Pow2(n)
    ensures And(x, y) < Pow2(n)
  {
    forall i: nat | n <= i ensures !Bit(And(x, y), i) {
      BitAnd(x, y, i);
      if x < Pow2(n) { HighBits(x, n, i); } else { HighBits(y, n, i); }
    }
    BoundedByBits(And(x, y), n);
  }

  lemma {:induction false} OrBound(x: nat, y: nat, n: nat)
    requires x < Pow2(n) && y < Pow2(n)
    ensures Or(x, y) < Pow2(n)
  {
    forall i: nat | n <= i ensures !Bit(Or(x, y), i) {
      BitOr(x, y, i);
      HighBits(x, n, i);
      HighBits(y, n, i);
    }
    BoundedByBits(Or(x, y), n);
  }

  // Two's complement.

  /** The signed reading of the low n bits of v: C++ conversion to an n-bit signed type, and the
      `sign_extend` of src/asm/types.h. */
  function Signed(n: nat, v: int): (r: int)
    requires n > 0
    ensures -Pow2(n - 1) <= r < Pow2(n - 1)
  {
    var u := Unsigned(n, v);
    if u < Pow2(n - 1) then u else u - Pow2(n)
  }

  predicate FitsSigned(n: nat, v: int)
    requires n > 0
  {
    -Pow2(n - 1) <= v < Pow2(n - 1)
  }

  lemma SignedIdentity(n: nat, v: int)
    requires n > 0
    ensures FitsSigned(n, v) <==> Signed(n, v) == v
  {
    if FitsSigned(n, v) {
      ShlPow2(0, n);
      if v >= 0 { SplitUnique(v, n, 0, v); } else { SplitUnique(v, n, -1, v + Pow2(n)); }
    }
  }

  /** Congruence modulo 2^n. */
  predicate Cong(n: nat, x: int, y: int) {
    Unsigned(n, x) == Unsigned(n, y)
  }

  lemma CongRefl(n: nat, x: int)
    ensures Cong(n, x, x)
  {}

  lemma CongNarrow(a: nat, b: nat, x: int, y: int)
    requires a <= b && Cong(b, x, y)
    ensures Cong(a, x, y)
  {
    hide Unsigned;
    TruncateTwice(a, b, x);
    TruncateTwice(a, b, y);
  }

  lemma CongIntro(n: nat, x: int, y: int, k: int)
    requires x - y == Shl(k, n)
    ensures Cong(n, x, y)
  {
    Split(y, n);
    ShlAdd(Shr(y, n), k, n);
    SplitUnique(x, n, Shr(y, n) + k, Unsigned(n, y));
  }

  lemma CongElim(n: nat, x: int, y: int) returns (k: int)
    requires Cong(n, x, y)
    ensures x - y == Shl(k, n)
  {
    k := Shr(x, n) - Shr(y, n);
    Split(x, n);
    Split(y, n);
    ShlSub(Shr(x, n), Shr(y, n), n);
  }

  lemma CongSelf(n: nat, x: int)
    ensures Cong(n, Unsigned(n, x), x)
  {
    UnsignedSmall(n, Unsigned(n, x));
  }

  lemma CongSigned(n: nat, x: int)
    requires n > 0
    ensures Cong(n, Signed(n, x), x)
  {
    CongSelf(n, x);
    if Unsigned(n, x) >= Pow2(n - 1) {
      ShlPow2(0, n);
      CongIntro(n, Signed(n, x), Unsigned(n, x), -1);
    }
  }

  lemma CongAdd(n: nat, x: int, y: int, u: int, v: int)
    requires Cong(n, x, y) && Cong(n, u, v)
    ensures Cong(n, x + u, y + v)
  {
    var j := CongElim(n, x, y);
    var k := CongElim(n, u, v);
    ShlAdd(j, k, n);
    CongIntro(n, x + u, y + v, j + k);
  }

  lemma CongSub(n: nat, x: int, y: int, u: int, v: int)
    requires Cong(n, x, y) && Cong(n, u, v)
    ensures Cong(n, x - u, y - v)
  {
    CongMul(n, u, v, -1);
    CongAdd(n, x, y, -u, -v);
  }

  lemma CongMul(n: nat, x: int, y: int, c: int)
    requires Cong(n, x, y)
    ensures Cong(n, x * c, y * c)
  {
    var k := CongElim(n, x, y);
    ShlMul(k, c, n);
    assert x * c - y * c == (x - y) * c;
    CongIntro(n, x * c, y * c, k * c);
  }

  /** Two congruent values in one signed range are equal. */
  lemma CongUnique(n: nat, x: int, y: int)
    requires n > 0 && FitsSigned(n, x) && FitsSigned(n, y) && Cong(n, x, y)
    ensures x == y
  {
    SignedIdentity(n, x);
    SignedIdentity(n, y);
  }

  /** Sign extension copies bit n-1 into every higher position. */
  lemma BitSigned(n: nat, v: int, i: nat)
    requires n > 0
    ensures Bit(Signed(n, v), i) == Bit(v, if i < n then i else n - 1)
  {
    var u := Unsigned(n, v);
    BitUnsigned(n, v, n - 1);
    TopBit(n, u);
    BitUnsigned(n, v, i);
    if u >= Pow2(n - 1) { BitSubPow(n, u, i); }
  }

  /** Bit n-1 of an n-bit word is its comparison with 2^(n-1). */
  lemma {:induction false} TopBit(n: nat, u: nat)
    requires n > 0 && u < Pow2(n)
    ensures Bit(u, n - 1) <==> u >= Pow2(n - 1)
  {
    if n > 1 { TopBit(n - 1, u / 2); }
  }

  lemma {:induction false} BitSubPow(n: nat, u: nat, i: nat)
    requires u < Pow2(n)
    ensures Bit(u - Pow2(n), i) == (n <= i || Bit(u, i))
  {
    if n == 0 {
      assert u == 0;
      MinusOneBits(i);
    } else {
      assert (u - Pow2(n)) / 2 == u / 2 - Pow2(n - 1);
      if i > 0 { BitSubPow(n - 1, u / 2, i - 1); }
    }
  }

  lemma {:induction false} MinusOneBits(i: nat)
    ensures Bit(-1, i)
  {
    if i > 0 { MinusOneBits(i - 1); }
  }
}
