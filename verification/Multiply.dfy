/**
  Multi-word multiplication: the multiply-high functions of src/asm/alu.h and the full-product
  tower of src/app/test-mul.cc, for machine words of any even width 2h.

  A word type U of the source is the range [0, Pow2(2h)); `qb` is h.  Every C++ assignment to a U
  is a reduction modulo Pow2(2h), written out with `Unsigned`.  The product of two words is
  exact in twice the width, so the reference is integer multiplication.
 */
module Multiply {
  import opened Bits

  /** A two-word result, R(hi, lo) in the source. */
  datatype Product = Product(hi: nat, lo: nat)

  function FromBool(b: bool): nat { if b then 1 else 0 }

  /** The double-width value that a pair of words denotes. */
  function Value(h: nat, p: Product): int {
    Shl(p.hi, 2 * h) + p.lo
  }

  ghost predicate IsPair(h: nat, p: Product) {
    p.hi < Pow2(2 * h) && p.lo < Pow2(2 * h)
  }

  // ---------------------------------------------------------------------------------------------
  // Carry propagation: Babbage's four partial products

  /** The carry step shared by every routine: from the four partial products to (hi, lo). */
  function Combine(h: nat, z0: nat, z1: nat, z2: nat, z3: nat): Product {
    var z4 := Unsigned(2 * h, z1 + z2);
    var c1 := FromBool(z4 < z1);
    var lo := Unsigned(2 * h, z0 + Unsigned(2 * h, Shl(z4, h)));
    var c2 := FromBool(lo < z0);
    var hi := Unsigned(2 * h, z3 + Shr(z4, h) + Shl(c1, h) + c2);
    Product(hi, lo)
  }

  /** A one-bit carry is exactly the comparison of the truncated sum with an addend. */
  lemma CarryOut(n: nat, a: nat, b: nat)
    requires a < Pow2(n) && b < Pow2(n)
    ensures a + b == Unsigned(n, a + b) + Shl(FromBool(Unsigned(n, a + b) < a), n)
  {
    hide Unsigned;
    ShlPow2(0, n);
    if a + b < Pow2(n) {
      SplitUnique(a + b, n, 0, a + b);
    } else {
      SplitUnique(a + b, n, 1, a + b - Pow2(n));
    }
  }

  /** No bit of the sum of the partial products is lost, whatever the partial products are, as
      long as the total fits in two words. */
  lemma CombineExact(h: nat, z0: nat, z1: nat, z2: nat, z3: nat)
    requires z0 < Pow2(2 * h) && z1 < Pow2(2 * h) && z2 < Pow2(2 * h)
    requires z0 + Shl(z1 + z2, h) + Shl(z3, 2 * h) < Pow2(4 * h)
    ensures IsPair(h, Combine(h, z0, z1, z2, z3))
    ensures Value(h, Combine(h, z0, z1, z2, z3)) == z0 + Shl(z1 + z2, h) + Shl(z3, 2 * h)
  {
    hide Pow2, Shl, Shr, Unsigned;
    var z4 := Unsigned(2 * h, z1 + z2);
    var c1 := FromBool(z4 < z1);
    CarryOut(2 * h, z1, z2);
    var a, d := Shr(z4, h), Unsigned(h, z4);
    MiddleWord(h, z4);
    var lo := Unsigned(2 * h, z0 + Shl(d, h));
    var c2 := FromBool(lo < z0);
    CarryOut(2 * h, z0, Shl(d, h));
    var s := z3 + a + Shl(c1, h) + c2;
    Assemble(h, z0, z1 + z2, z3, z4, c1, a, d, lo, c2);
    assert s >= 0 by { ShlPow2(0, h); }
    ShlPow2(2 * h, 2 * h);
    ShlOrder(s, Pow2(2 * h), 2 * h);
    ShlOrder(Pow2(2 * h), s, 2 * h);
    UnsignedSmall(2 * h, s);
  }

  /** Shifting the middle word left drops its high half and keeps its low half. */
  lemma MiddleWord(h: nat, z4: nat)
    requires z4 < Pow2(2 * h)
    ensures z4 == Shl(Shr(z4, h), h) + Unsigned(h, z4) && Shr(z4, h) >= 0
    ensures Unsigned(2 * h, Shl(z4, h)) == Shl(Unsigned(h, z4), h)
    ensures 0 <= Shl(Unsigned(h, z4), h) < Pow2(2 * h)
  {
    var a, d := Shr(z4, h), Unsigned(h, z4);
    Split(z4, h);
    ShrNonNegative(z4, h);
    ShlAdd(Shl(a, h), d, h);
    ShlShl(a, h, h);
    ShlBound(d, h, h);
    SplitUnique(Shl(z4, h), 2 * h, a, Shl(d, h));
  }

  /** The four partial products regrouped by word. */
  lemma Assemble(h: nat, z0: int, zm: int, z3: int, z4: int, c1: int, a: int, d: int, lo: int, c2: int)
    requires zm == z4 + Shl(c1, 2 * h) && z4 == Shl(a, h) + d
    requires z0 + Shl(d, h) == lo + Shl(c2, 2 * h)
    ensures z0 + Shl(zm, h) + Shl(z3, 2 * h) == Shl(z3 + a + Shl(c1, h) + c2, 2 * h) + lo
  {
    ShlAdd(z4, Shl(c1, 2 * h), h);
    ShlAdd(Shl(a, h), d, h);
    ShlShl(a, h, h);
    ShlShl(c1, 2 * h, h);
    ShlShl(c1, h, 2 * h);
    ShlAdd(z3 + a + Shl(c1, h), c2, 2 * h);
    ShlAdd(z3 + a, Shl(c1, h), 2 * h);
    ShlAdd(z3, a, 2 * h);
  }

  // ---------------------------------------------------------------------------------------------
  // Half-word products

  /** Masking the two halves of a word out of it loses nothing. */
  lemma HalvesExact(h: nat, x: nat)
    requires x < Pow2(2 * h)
    ensures 0 <= Shr(x, h) < Pow2(h)
    ensures And(x, Pow2(h) - 1) == Unsigned(h, x)
    ensures And(Shr(x, h), Pow2(h) - 1) == Shr(x, h)
    ensures x == Shl(Shr(x, h), h) + Unsigned(h, x)
  {
    Split(x, h);
    ShrNonNegative(x, h);
    ShrBound(x, h, h);
    AndMask(x, h);
    AndMask(Shr(x, h), h);
    UnsignedSmall(h, Shr(x, h));
  }

  /** Schoolbook identity for the four half-word products. */
  lemma HalfProducts(h: nat, x0: nat, x1: nat, y0: nat, y1: nat)
    ensures (Shl(x1, h) + x0) * (Shl(y1, h) + y0)
         == x0 * y0 + Shl(x1 * y0 + x0 * y1, h) + Shl(x1 * y1, 2 * h)
  {
    var u, v := Shl(x1, h), Shl(y1, h);
    Foil(u, x0, v, y0);
    ShlMul(x1, y0, h);
    ShlMul(y1, x0, h);
    ShlMul(x1, v, h);
    ShlMul(y1, x1, h);
    ShlShl(x1 * y1, h, h);
    ShlAdd(x1 * y0, x0 * y1, h);
  }

  lemma Foil(a: int, b: int, c: int, d: int)
    ensures (a + b) * (c + d) == a * c + a * d + b * c + b * d
  {
    Distribute(a, b, c + d);
    Distribute(c, d, a);
    Distribute(c, d, b);
  }

  lemma Distribute(a: int, b: int, c: int)
    ensures (a + b) * c == a * c + b * c && c * (a + b) == c * a + c * b
  {}

  lemma SmallProduct(n: nat, p: nat, q: nat)
    requires p < Pow2(n) && q < Pow2(n)
    ensures p * q < Pow2(2 * n)
  {
    hide *;
    ShiftedBound(p, q, n);
    ShlBound(p, n, n);
  }

  lemma {:induction false} ShiftedBound(p: nat, q: nat, n: nat)
    requires q < Pow2(n)
    ensures p * q + p <= Shl(p, n)
    decreases n
  {
    if n == 0 {
      assert q == 0 && p * q == 0;
    } else {
      hide Shl, Pow2;
      ShlStep(p, n - 1);
      ShiftedBound(p, q / 2, n - 1);
      HalfOf(p, q);
    }
  }

  lemma HalfOf(p: nat, q: nat)
    ensures p * q <= 2 * (p * (q / 2)) + p
  {
    assert p * q == 2 * (p * (q / 2)) + p * (q % 2);
  }

  /** Combining the exact products of the halves gives the product of the words. */
  lemma BabbageExact(h: nat, x: nat, y: nat, z0: nat, z1: nat, z2: nat, z3: nat)
    requires x < Pow2(2 * h) && y < Pow2(2 * h)
    requires z0 == Unsigned(h, x) * Unsigned(h, y) && z1 == Shr(x, h) * Unsigned(h, y)
    requires z2 == Unsigned(h, x) * Shr(y, h) && z3 == Shr(x, h) * Shr(y, h)
    ensures z0 < Pow2(2 * h) && z1 < Pow2(2 * h) && z2 < Pow2(2 * h) && z3 < Pow2(2 * h)
    ensures IsPair(h, Combine(h, z0, z1, z2, z3)) && Value(h, Combine(h, z0, z1, z2, z3)) == x * y
  {
    hide Pow2, Shl, Shr, Unsigned, Combine, Value;
    HalvesExact(h, x);
    HalvesExact(h, y);
    HalfBounds(h, Unsigned(h, x), Shr(x, h), Unsigned(h, y), Shr(y, h));
    assert z0 + Shl(z1 + z2, h) + Shl(z3, 2 * h) == x * y by {
      HalfProducts(h, Unsigned(h, x), Shr(x, h), Unsigned(h, y), Shr(y, h));
    }
    SmallProduct(2 * h, x, y);
    CombineExact(h, z0, z1, z2, z3);
  }

  lemma HalfBounds(h: nat, x0: nat, x1: nat, y0: nat, y1: nat)
    requires x0 < Pow2(h) && x1 < Pow2(h) && y0 < Pow2(h) && y1 < Pow2(h)
    ensures x0 * y0 < Pow2(2 * h) && x1 * y0 < Pow2(2 * h) && x0 * y1 < Pow2(2 * h) && x1 * y1 < Pow2(2 * h)
  {
    SmallProduct(h, x0, y0);
    SmallProduct(h, x1, y0);
    SmallProduct(h, x0, y1);
    SmallProduct(h, x1, y1);
  }

  /** The four half-word products of two words, combined. */
  function FullProduct(h: nat, x: nat, y: nat): Product
    requires x < Pow2(2 * h) && y < Pow2(2 * h)
  {
    var mask := Pow2(h) - 1;
    HalvesExact(h, x);
    HalvesExact(h, y);
    var x0, x1 := And(x, mask), And(Shr(x, h), mask);
    var y0, y1 := And(y, mask), And(Shr(y, h), mask);
    Combine(h, Unsigned(2 * h, x0 * y0), Unsigned(2 * h, x1 * y0),
            Unsigned(2 * h, x0 * y1), Unsigned(2 * h, x1 * y1))
  }

  lemma FullProductExact(h: nat, x: nat, y: nat)
    requires x < Pow2(2 * h) && y < Pow2(2 * h)
    ensures IsPair(h, FullProduct(h, x, y))
    ensures Value(h, FullProduct(h, x, y)) == x * y
  {
    hide Pow2, Shl, Shr, Unsigned, Combine, And, Value;
    HalvesExact(h, x);
    HalvesExact(h, y);
    var z0, z1 := Unsigned(h, x) * Unsigned(h, y), Shr(x, h) * Unsigned(h, y);
    var z2, z3 := Unsigned(h, x) * Shr(y, h), Shr(x, h) * Shr(y, h);
    BabbageExact(h, x, y, z0, z1, z2, z3);
    UnsignedSmall(2 * h, z0);
    UnsignedSmall(2 * h, z1);
    UnsignedSmall(2 * h, z2);
    UnsignedSmall(2 * h, z3);
  }

  // ---------------------------------------------------------------------------------------------
  // Sign fix-up

  /** Branch-free absolute value: (~xs + 1) ^ (x - xs). */
  function Magnitude(n: nat, x: int): nat
    requires n > 0
  {
    var xs := FromBool(x < 0);
    assert xs < Pow2(n) by { Pow2Mono(1, n); }
    Xor(Unsigned(n, Not(n, xs) + 1), Unsigned(n, x - xs))
  }

  lemma MagnitudeIsAbs(n: nat, x: int)
    requires n > 0 && FitsSigned(n, x)
    ensures Magnitude(n, x) == (if x < 0 then -x else x) < Pow2(n)
  {
    hide Magnitude;
    if x < 0 { NegativeMagnitude(n, x); } else { NonNegativeMagnitude(n, x); }
  }

  lemma NonNegativeMagnitude(n: nat, x: int)
    requires n > 0 && FitsSigned(n, x) && x >= 0
    ensures Magnitude(n, x) == x
  {
    hide Pow2, Unsigned, Xor, Shl;
    assert Unsigned(n, Not(n, 0) + 1) == 0 by {
      ShlPow2(0, n);
      SplitUnique(Pow2(n), n, 1, 0);
    }
    assert Unsigned(n, x - 0) == x by { WideEnough(n, x); UnsignedSmall(n, x); }
    XorZero(x);
  }

  lemma WideEnough(n: nat, x: int)
    requires n > 0 && FitsSigned(n, x)
    ensures x < Pow2(n)
  {}

  lemma NegativeMagnitude(n: nat, x: int)
    requires n > 0 && FitsSigned(n, x) && x < 0
    ensures Magnitude(n, x) == -x
  {
    hide Unsigned, Xor;
    var u := x - 1 + Pow2(n);
    assert Unsigned(n, x - 1) == u by {
      ShlPow2(0, n);
      SplitUnique(x - 1, n, -1, u);
    }
    assert Unsigned(n, Not(n, 1) + 1) == Pow2(n) - 1 by { UnsignedSmall(n, Pow2(n) - 1); }
    XorOnes(n, u);
  }

  /** Conditional negation of a two-word value: subtract rs with borrow, then xor with -rs. */
  function Negate(h: nat, p: Product, rs: nat): Product
  {
    var l2 := Unsigned(2 * h, p.lo - rs);
    var hb := FromBool(l2 > p.lo);
    var h2 := Unsigned(2 * h, p.hi - hb);
    var sign := Unsigned(2 * h, 0 - rs);
    Product(Xor(sign, h2), Xor(sign, l2))
  }

  /** Subtracting one bit: the truncated difference exceeds the minuend exactly on a borrow. */
  lemma BorrowOut(n: nat, a: nat, c: nat)
    requires n > 0 && a < Pow2(n) && c <= 1
    ensures Unsigned(n, a - c) == if a < c then Pow2(n) - 1 else a - c
    ensures FromBool(Unsigned(n, a - c) > a) == FromBool(a < c)
  {
    if a < c {
      ShlPow2(0, n);
      SplitUnique(-1, n, -1, Pow2(n) - 1);
      Pow2Mono(1, n);
    } else {
      UnsignedSmall(n, a - c);
    }
  }

  /** The fix-up is two's complement negation of the double word, zero included. */
  lemma NegateExact(h: nat, p: Product, rs: nat)
    requires h > 0 && IsPair(h, p) && rs <= 1
    ensures IsPair(h, Negate(h, p, rs))
    ensures Value(h, Negate(h, p, rs)) == Unsigned(4 * h, if rs == 1 then 0 - Value(h, p) else Value(h, p))
  {
    hide Shl, Pow2, Unsigned, Xor;
    var hb := FromBool(p.lo < rs);
    var l2, h2 := Unsigned(2 * h, p.lo - rs), Unsigned(2 * h, p.hi - hb);
    assert Negate(h, p, rs) == Product(Xor(Unsigned(2 * h, 0 - rs), h2), Xor(Unsigned(2 * h, 0 - rs), l2)) by {
      BorrowOut(2 * h, p.lo, rs);
    }
    if rs == 0 {
      UnsignedSmall(2 * h, 0);
      UnsignedSmall(2 * h, p.lo);
      UnsignedSmall(2 * h, p.hi);
      XorZero(p.hi);
      XorZero(p.lo);
      PairBound(h, p);
      UnsignedSmall(4 * h, Value(h, p));
    } else {
      BorrowOut(2 * h, 0, 1);
      XorOnes(2 * h, h2);
      XorOnes(2 * h, l2);
      BorrowOut(2 * h, p.lo, 1);
      BorrowOut(2 * h, p.hi, hb);
      Complement(h, p, h2, l2);
    }
  }

  lemma PairBound(h: nat, p: Product)
    requires IsPair(h, p)
    ensures 0 <= Value(h, p) < Pow2(4 * h)
  {
    ShlBound(p.hi, 2 * h, 2 * h);
  }

  /** Complementing both words of the decremented double word negates it. */
  lemma Complement(h: nat, p: Product, h2: nat, l2: nat)
    requires IsPair(h, p) && h2 < Pow2(2 * h) && l2 < Pow2(2 * h)
    requires l2 == if p.lo == 0 then Pow2(2 * h) - 1 else p.lo - 1
    requires h2 == if p.lo != 0 then p.hi else if p.hi == 0 then Pow2(2 * h) - 1 else p.hi - 1
    ensures Value(h, Product(Pow2(2 * h) - 1 - h2, Pow2(2 * h) - 1 - l2)) == Unsigned(4 * h, 0 - Value(h, p))
  {
    hide Shl, Unsigned;
    var m := Pow2(2 * h);
    var r := Product(m - 1 - h2, m - 1 - l2);
    PairBound(h, r);
    ShlPow2(2 * h, 2 * h);
    ShlPow2(0, 4 * h);
    ShlSub(m - 1, h2, 2 * h);
    ShlSub(m, 1, 2 * h);
    if p.lo == 0 && p.hi == 0 {
      SplitUnique(0 - Value(h, p), 4 * h, 0, Value(h, r));
    } else {
      if p.lo == 0 { ShlSub(p.hi, 1, 2 * h); }
      SplitUnique(0 - Value(h, p), 4 * h, -1, Value(h, r));
    }
  }

  /** A double word congruent to a value that fits is that value, its high word read as signed. */
  lemma SignedValue(h: nat, p: Product, v: int)
    requires h > 0 && IsPair(h, p)
    requires FitsSigned(4 * h, v)
    requires Value(h, p) == Unsigned(4 * h, v)
    ensures Shl(Signed(2 * h, p.hi), 2 * h) + p.lo == v
  {
    hide Shl, Unsigned;
    var m, k := Pow2(2 * h), Pow2(2 * h - 1);
    UnsignedSmall(2 * h, p.hi);
    SignedIdentity(4 * h, v);
    ShlPow2(2 * h, 2 * h);
    ShlPow2(2 * h - 1, 2 * h);
    ShlOrder(p.hi, k, 2 * h);
    ShlOrder(k, p.hi, 2 * h);
    ShlSub(p.hi, m, 2 * h);
  }

  /** Negating the product of the magnitudes gives the signed product.  The routines differ only
      in how they obtain the product of the magnitudes. */
  lemma SignFixup(h: nat, x: int, y: int, p: Product, rs: nat)
    requires h > 0 && FitsSigned(4 * h, x * y)
    requires rs == FromBool((x < 0) != (y < 0))
    requires IsPair(h, p) && Value(h, p) == (if x < 0 then -x else x) * (if y < 0 then -y else y)
    ensures var r := Negate(h, p, rs);
            IsPair(h, r) && Shl(Signed(2 * h, r.hi), 2 * h) + r.lo == x * y
  {
    NegateExact(h, p, rs);
    SignOfProduct(x, y);
    SignedValue(h, Negate(h, p, rs), x * y);
  }

  lemma SignOfProduct(x: int, y: int)
    ensures var a, b := if x < 0 then -x else x, if y < 0 then -y else y;
            x * y == if (x < 0) != (y < 0) then 0 - a * b else a * b
  {}

  /** The sign of a signed by signed product, xs ^ ys. */
  function ProductSign(x: int, y: int): nat {
    Xor(FromBool(x < 0), FromBool(y < 0))
  }

  lemma ProductSignIs(x: int, y: int)
    ensures ProductSign(x, y) == FromBool((x < 0) != (y < 0))
  {
    assert Xor(1, 1) == 0 && Xor(0, 1) == 1 && Xor(1, 0) == 1 && Xor(0, 0) == 0;
  }

  /** A product of two signed words, and of a signed by an unsigned word, fits in two words. */
  lemma ProductFits(h: nat, x: int, y: int)
    requires h > 0 && FitsSigned(2 * h, x) && -Pow2(2 * h - 1) <= y < Pow2(2 * h)
    ensures FitsSigned(4 * h, x * y)
  {
    Pow2Add(2 * h, 2 * h - 1);
    ProductRange(Pow2(2 * h), Pow2(2 * h - 1), x, y);
  }

  lemma ProductRange(m: int, k: int, x: int, y: int)
    requires m == 2 * k && k > 0 && -k <= x < k && -k <= y < m
    ensures -(m * k) <= x * y < m * k
  {
    var a, b := if x < 0 then -x else x, if y < 0 then -y else y;
    SignOfProduct(x, y);
    AbsProduct(m, k, a, b);
  }

  lemma AbsProduct(m: int, k: int, a: int, b: int)
    requires 0 <= a <= k && 0 <= b < m && k > 0
    ensures 0 <= a * b < m * k
  {
    MulMono(a, 0, b);
    MulMono(a, b, m - 1);
    MulMono(m - 1, a, k);
    Distribute(m, -1, k);
  }

  // ---------------------------------------------------------------------------------------------
  // src/asm/alu.h: multiply high

  /** The high word of an exact two-word result is the floored quotient by 2^2h. */
  lemma HighWord(h: nat, hi: int, lo: nat, v: int)
    requires lo < Pow2(2 * h) && v == Shl(hi, 2 * h) + lo
    ensures v / Pow2(2 * h) == hi
  {
    SplitUnique(v, 2 * h, hi, lo);
    DivMod(v, 2 * h);
  }

  /** mulhu: the high word of the unsigned product. */
  function MulHighUnsigned(h: nat, x: nat, y: nat): (r: nat)
    requires x < Pow2(2 * h) && y < Pow2(2 * h)
    ensures r == (x * y) / Pow2(2 * h)
  {
    var p := FullProduct(h, x, y);
    FullProductExact(h, x, y);
    HighWord(h, p.hi, p.lo, x * y);
    p.hi
  }

  /** mulh: the high word of the signed product. */
  function MulHigh(h: nat, x: int, y: int): (r: int)
    requires h > 0 && FitsSigned(2 * h, x) && FitsSigned(2 * h, y)
    ensures r == (x * y) / Pow2(2 * h)
  {
    MagnitudeIsAbs(2 * h, x);
    MagnitudeIsAbs(2 * h, y);
    var xu, yu := Magnitude(2 * h, x), Magnitude(2 * h, y);
    var p := FullProduct(h, xu, yu);
    FullProductExact(h, xu, yu);
    ProductSignIs(x, y);
    ProductFits(h, x, y);
    SignFixup(h, x, y, p, ProductSign(x, y));
    var r := Negate(h, p, ProductSign(x, y));
    HighWord(h, Signed(2 * h, r.hi), r.lo, x * y);
    Signed(2 * h, r.hi)
  }

  /** mulhsu: the high word of the signed by unsigned product. */
  function MulHighSignedUnsigned(h: nat, x: int, y: nat): (r: int)
    requires h > 0 && FitsSigned(2 * h, x) && y < Pow2(2 * h)
    ensures r == (x * y) / Pow2(2 * h)
  {
    MagnitudeIsAbs(2 * h, x);
    var xu := Magnitude(2 * h, x);
    var p := FullProduct(h, xu, y);
    FullProductExact(h, xu, y);
    ProductFits(h, x, y);
    SignFixup(h, x, y, p, FromBool(x < 0));
    var r := Negate(h, p, FromBool(x < 0));
    HighWord(h, Signed(2 * h, r.hi), r.lo, x * y);
    Signed(2 * h, r.hi)
  }

  // ---------------------------------------------------------------------------------------------
  // src/app/test-mul.cc: the full-product tower

  /** Bits of the operand type at a level of the tower: u8, u16, u32, u64, ... */
  function Width(level: nat): (w: nat)
    ensures w % 2 == 0 && w >= 8
  {
    if level == 0 then 8 else 2 * Width(level - 1)
  }

  /** The shift-add base case: w/2 rounds of two steps over a 2w-bit accumulator. */
  method ShiftAdd(w: nat, x: nat, y: nat) returns (p: Product)
    requires w > 0 && w % 2 == 0 && x < Pow2(w) && y < Pow2(w)
    ensures p.hi < Pow2(w) && p.lo < Pow2(w)
    ensures Shl(p.hi, w) + p.lo == x * y
  {
    hide Pow2, Shl, Shr, Unsigned, And;
    var r, xx, yy := 0, x, y;
    var i := 0;
    ShiftNothing(x, y);
    while i < w / 2
      invariant 0 <= i <= w / 2
      invariant yy >= 0 && xx == Shl(x, 2 * i) && yy == Shr(y, 2 * i)
      invariant r == x * Unsigned(2 * i, y)
    {
      r := Accumulate(w, x, y, 2 * i, r, xx, yy);
      xx, yy := Unsigned(2 * w, Shl(xx, 1)), Shr(yy, 1);
      r := Accumulate(w, x, y, 2 * i + 1, r, xx, yy);
      xx, yy := Unsigned(2 * w, Shl(xx, 1)), Shr(yy, 1);
      i := i + 1;
    }
    UnsignedSmall(w, y);
    SmallProduct(w, x, y);
    ShrBound(r, w, w);
    Split(r, w);
    AndMask(r, w);
    p := Product(Shr(r, w), And(r, Pow2(w) - 1));
  }

  lemma ShiftNothing(x: int, y: int)
    ensures Shl(x, 0) == x && Shr(y, 0) == y && Unsigned(0, y) == 0
  {}

  /** One step at bit k: add the shifted multiplicand when bit k of y is set. */
  method Accumulate(w: nat, ghost x: nat, ghost y: nat, ghost k: nat, r: nat, xx: nat, yy: nat) returns (r': nat)
    requires x < Pow2(w) && y < Pow2(w) && k < w
    requires r == x * Unsigned(k, y) && xx == Shl(x, k) && yy == Shr(y, k)
    ensures r' == x * Unsigned(k + 1, y)
    ensures Unsigned(2 * w, Shl(xx, 1)) == Shl(x, k + 1)
    ensures Shr(yy, 1) == Shr(y, k + 1) >= 0
  {
    ShiftFits(w, x, k);
    ShiftFits(w, x, k + 1);
    ShlShl(x, k, 1);
    ShrOnce(y, k);
    NextProduct(w, x, y, k);
    SelectMask(w, xx, yy);
    r' := Unsigned(2 * w, r + And(xx, Not(2 * w, Unsigned(2 * w, And(yy, 1) - 1))));
  }

  /** The mask ~((y & 1) - 1) keeps xx when the low bit of y is set and clears it otherwise. */
  lemma SelectMask(w: nat, xx: nat, yy: nat)
    requires xx < Pow2(2 * w)
    ensures And(xx, Not(2 * w, Unsigned(2 * w, And(yy, 1) - 1))) == if yy % 2 == 1 then xx else 0
  {
    AndMask(yy, 1);
    assert Pow2(1) - 1 == 1 && Unsigned(1, yy) == yy % 2;
    if yy % 2 == 1 {
      UnsignedSmall(2 * w, 0);
      AndMask(xx, 2 * w);
      UnsignedSmall(2 * w, xx);
    } else {
      ShlPow2(0, 2 * w);
      SplitUnique(-1, 2 * w, -1, Pow2(2 * w) - 1);
      AndZero(xx);
    }
  }

  lemma ShiftFits(w: nat, x: nat, k: nat)
    requires x < Pow2(w) && k <= w
    ensures 0 <= Shl(x, k) < Pow2(2 * w)
    ensures Unsigned(2 * w, Shl(x, k)) == Shl(x, k)
  {
    hide Pow2, Shl, Shr, Unsigned;
    ShlBound(x, w, k);
    Pow2Mono(w + k, 2 * w);
    UnsignedSmall(2 * w, Shl(x, k));
  }

  lemma {:induction false} ShrOnce(y: nat, k: nat)
    ensures Shr(y, k + 1) >= 0 && Shr(Shr(y, k), 1) == Shr(y, k + 1)
    decreases k
  {
    if k > 0 { ShrOnce(y / 2, k - 1); }
  }

  /** The truncation of y grows by bit k, and the partial product with it. */
  lemma NextProduct(w: nat, x: nat, y: nat, k: nat)
    requires x < Pow2(w) && k < w
    ensures x * Unsigned(k + 1, y) == x * Unsigned(k, y) + if Shr(y, k) % 2 == 1 then Shl(x, k) else 0
    ensures Unsigned(2 * w, x * Unsigned(k + 1, y)) == x * Unsigned(k + 1, y)
  {
    hide Pow2, Shl, Shr, Unsigned;
    LowBit(y, k);
    if Shr(y, k) % 2 == 1 {
      Distribute(Unsigned(k, y), Pow2(k), x);
      ShlIsMul(x, k);
    }
    Pow2Mono(k + 1, w);
    SmallProduct(w, x, Unsigned(k + 1, y));
    UnsignedSmall(2 * w, x * Unsigned(k + 1, y));
  }

  lemma {:induction false} LowBit(y: int, k: nat)
    ensures Unsigned(k + 1, y) == Unsigned(k, y) + if Shr(y, k) % 2 == 1 then Pow2(k) else 0
    decreases k
  {
    if k > 0 { LowBit(y / 2, k - 1); }
  }

  /** mulu: shift-add at the two bottom levels, Babbage's step above, at any height. */
  method MulUnsigned(level: nat, x: nat, y: nat) returns (p: Product)
    requires x < Pow2(Width(level)) && y < Pow2(Width(level))
    ensures p.hi < Pow2(Width(level)) && p.lo < Pow2(Width(level))
    ensures Shl(p.hi, Width(level)) + p.lo == x * y
    decreases level
  {
    if level <= 1 {
      p := ShiftAdd(Width(level), x, y);
    } else {
      p := Babbage(level, x, y);
    }
  }

  /** The inner part of mulu, mul and mulsu: four products from the level below, combined. */
  method Babbage(level: nat, x: nat, y: nat) returns (p: Product)
    requires level >= 1 && x < Pow2(Width(level)) && y < Pow2(Width(level))
    ensures IsPair(Width(level - 1), p) && Value(Width(level - 1), p) == x * y
    decreases level, 0
  {
    hide Pow2, Shl, Shr, Unsigned, And, Combine, Value;
    var h := Width(level - 1);
    var mask := Pow2(h) - 1;
    HalvesExact(h, x);
    HalvesExact(h, y);
    var x0, x1 := And(x, mask), And(Shr(x, h), mask);
    var y0, y1 := And(y, mask), And(Shr(y, h), mask);
    var z0 := MulUnsigned(level - 1, x0, y0);
    var z1 := MulUnsigned(level - 1, x1, y0);
    var z2 := MulUnsigned(level - 1, x0, y1);
    var z3 := MulUnsigned(level - 1, x1, y1);
    var w0, w1, w2, w3 := Word(h, z0), Word(h, z1), Word(h, z2), Word(h, z3);
    BabbageExact(h, x, y, w0, w1, w2, w3);
    p := Combine(h, w0, w1, w2, w3);
  }

  /** The conversion from a pair of half words to the word it denotes. */
  function Word(h: nat, p: Product): (r: nat)
    ensures r == Shl(p.hi, h) + p.lo
  {
    ShlPow2(0, h);
    ShlOrder(0, p.hi, h);
    Shl(p.hi, h) + p.lo
  }

  /** mul: the full signed product, its high word read as signed. */
  method MulSigned(level: nat, x: int, y: int) returns (p: Product)
    requires level >= 1 && FitsSigned(Width(level), x) && FitsSigned(Width(level), y)
    ensures p.hi < Pow2(Width(level)) && p.lo < Pow2(Width(level))
    ensures Shl(Signed(Width(level), p.hi), Width(level)) + p.lo == x * y
  {
    var h := Width(level - 1);
    MagnitudeIsAbs(2 * h, x);
    MagnitudeIsAbs(2 * h, y);
    var z := Babbage(level, Magnitude(2 * h, x), Magnitude(2 * h, y));
    ProductSignIs(x, y);
    ProductFits(h, x, y);
    SignFixup(h, x, y, z, ProductSign(x, y));
    p := Negate(h, z, ProductSign(x, y));
  }

  /** mulsu: the full signed by unsigned product. */
  method MulSignedUnsigned(level: nat, x: int, y: nat) returns (p: Product)
    requires level >= 1 && FitsSigned(Width(level), x) && y < Pow2(Width(level))
    ensures p.hi < Pow2(Width(level)) && p.lo < Pow2(Width(level))
    ensures Shl(Signed(Width(level), p.hi), Width(level)) + p.lo == x * y
  {
    var h := Width(level - 1);
    MagnitudeIsAbs(2 * h, x);
    var z := Babbage(level, Magnitude(2 * h, x), y);
    ProductFits(h, x, y);
    SignFixup(h, x, y, z, FromBool(x < 0));
    p := Negate(h, z, FromBool(x < 0));
  }
}
