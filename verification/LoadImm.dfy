/**
  Constant materialisation: assembler::load_imm and load_imm_r (src/asm/assembler.cc) with the bit
  tricks of src/asm/bits.h they rest on, and the value that the emitted code computes when it is
  executed on a 64-bit register file.

  The build uses -fwrapv, so 64-bit signed arithmetic wraps.
 */
module LoadImm {
  import opened Bits

  // ---------------------------------------------------------------------------------------------
  // src/asm/bits.h

  /** bitextend(val, b): extend bit b-1 upwards. */
  function BitExtend(val: int, b: nat): int
    requires 0 < b <= 63
  {
    var mask := Pow2(b - 1);
    var low := And(Unsigned(64, val), Pow2(b) - 1);
    Xor(low, mask) - mask
  }

  /** The xor and subtract trick is sign extension. */
  lemma BitExtendIsSigned(val: int, b: nat)
    requires 0 < b <= 63
    ensures BitExtend(val, b) == Signed(b, val)
  {
    hide And, Unsigned, Xor;
    AndMask(Unsigned(64, val), b);
    TruncateTwice(b, 64, val);
    XorTop(b, Unsigned(b, val));
  }

  lemma {:induction false} XorTop(b: nat, u: nat)
    requires 0 < b && u < Pow2(b)
    ensures Xor(u, Pow2(b - 1)) == if u < Pow2(b - 1) then u + Pow2(b - 1) else u - Pow2(b - 1)
  {
    if b > 1 {
      XorTop(b - 1, u / 2);
      assert Pow2(b - 1) % 2 == 0 && Pow2(b - 1) / 2 == Pow2(b - 2);
    } else {
      assert Xor(0, 1) == 1 && Xor(1, 1) == 0;
    }
  }

  /** The number of trailing zeros of the low n bits. */
  function TrailingZeros(n: nat, x: int): (c: nat)
    ensures c <= n
    decreases n
  {
    if n == 0 || x % 2 == 1 then 0 else 1 + TrailingZeros(n - 1, x / 2)
  }

  /** ctz: counts in constant time, one step per bit. */
  method Ctz(x: nat) returns (count: nat)
    ensures count == TrailingZeros(64, x)
  {
    count := 0;
    var found := false;
    var i := 0;
    while i < 64
      invariant 0 <= i <= 64
      invariant found ==> count == TrailingZeros(64, x)
      invariant !found ==> count == i && TrailingZeros(64, x) == i + TrailingZeros(64 - i, Shr(x, i))
    {
      ShiftStep(x, i);
      found := found || Bit(x, i);
      if !found { count := count + 1; }
      i := i + 1;
    }
  }

  lemma {:induction false} ShiftStep(x: int, i: nat)
    ensures Shr(x, i) % 2 == 1 <==> Bit(x, i)
    ensures Shr(x, i) / 2 == Shr(x, i + 1)
    decreases i
  {
    if i > 0 { ShiftStep(x / 2, i - 1); }
  }

  /** The trailing bits are zero and the bit above them is one. */
  lemma {:induction false} TrailingZerosMeans(n: nat, x: int)
    ensures Unsigned(TrailingZeros(n, x), x) == 0
    ensures TrailingZeros(n, x) < n ==> Shr(x, TrailingZeros(n, x)) % 2 == 1
    ensures TrailingZeros(n, x) == n <==> Unsigned(n, x) == 0
    decreases n
  {
    if n > 0 && x % 2 == 0 { TrailingZerosMeans(n - 1, x / 2); }
  }

  /** ispow2(val) on a 64-bit value: val && !(val & (val - 1)). */
  predicate IsPow2(val: int) {
    var u := Unsigned(64, val);
    u != 0 && And(u, u - 1) == 0
  }

  lemma {:induction false} PowerOfTwo(u: nat, n: nat)
    requires 0 < u < Pow2(n)
    ensures And(u, u - 1) == 0 <==> u == Pow2(TrailingZeros(n, u))
    ensures TrailingZeros(n, u) < n
    decreases n
  {
    if u % 2 == 1 {
      assert (u - 1) / 2 == u / 2;
      if u > 1 { AndSelf(u / 2); }
    } else {
      assert (u - 1) / 2 == u / 2 - 1 && (u - 1) % 2 == 1;
      PowerOfTwo(u / 2, n - 1);
    }
  }

  lemma {:induction false} AndSelf(x: nat)
    ensures And(x, x) == x
  {
    if x > 0 { AndSelf(x / 2); }
  }

  // ---------------------------------------------------------------------------------------------
  // The instructions used and their meaning

  datatype Inst =
    | Lui(rd: nat, imm: int)
    | Addi(rd: nat, rs1: nat, imm: int)
    | Slli(rd: nat, rs1: nat, shamt: nat)

  /** The integer registers, each an unsigned 64-bit word; x0 reads as zero. */
  type Regs = seq<int>

  ghost predicate ValidRegs(x: Regs) {
    |x| == 32 && x[0] == 0 && forall i :: 0 <= i < 32 ==> 0 <= x[i] < Pow2(64)
  }

  function Write(x: Regs, rd: nat, v: int): Regs
    requires rd < |x|
  {
    if rd == 0 then x else x[rd := Unsigned(64, v)]
  }

  predicate ValidInst(i: Inst) {
    match i
    case Lui(rd, imm) => rd < 32 && FitsSigned(32, imm) && Unsigned(12, imm) == 0
    case Addi(rd, rs1, imm) => rd < 32 && rs1 < 32 && FitsSigned(12, imm)
    case Slli(rd, rs1, shamt) => rd < 32 && rs1 < 32 && shamt < 64
  }

  function Execute(i: Inst, x: Regs): Regs
    requires |x| == 32 && ValidInst(i)
  {
    match i
    case Lui(rd, imm) => Write(x, rd, imm)
    case Addi(rd, rs1, imm) => Write(x, rd, x[rs1] + imm)
    case Slli(rd, rs1, shamt) => Write(x, rd, Shl(x[rs1], shamt))
  }

  ghost predicate ValidCode(code: seq<Inst>) {
    forall k :: 0 <= k < |code| ==> ValidInst(code[k])
  }

  function Run(code: seq<Inst>, x: Regs): (r: Regs)
    requires |x| == 32 && ValidCode(code)
    ensures |r| == 32
  {
    if code == [] then x else Execute(code[|code| - 1], Run(code[..|code| - 1], x))
  }

  // ---------------------------------------------------------------------------------------------
  // load_imm

  predicate Fits32(val: int) {
    Shr(val, 31) == 0 || Shr(val, 31) == -1
  }

  /** The lower part that the last addi contributes, and what is left for the recursion. */
  function Low(val: int): int { BitExtend(val, 12) }
  function High(val: int): int { Signed(64, val - Low(val)) }
  function ShiftAmount(val: int): nat { 12 + TrailingZeros(64, Shr(Unsigned(64, High(val)), 12)) }
  function Next(val: int): int { Shr(High(val), ShiftAmount(val)) }

  function Abs(v: int): nat { if v < 0 then -v else v }

  lemma Fits32Means(val: int)
    ensures Fits32(val) <==> FitsSigned(32, val)
  {
    hide Shr, Shl, Unsigned, Pow2;
    Pow2Values();
    Split(val, 31);
    ShlPow2(0, 31);
    var q := Shr(val, 31);
    ShlOrder(q, 0, 31);
    ShlOrder(0, q, 31);
    ShlOrder(q, -1, 31);
    ShlOrder(-1, q, 31);
  }

  /** The lower part fits an addi, the rest is a multiple of 4096, and they add up. */
  lemma Parts(val: int)
    ensures FitsSigned(12, Low(val)) && Cong(64, High(val) + Low(val), val)
    ensures Unsigned(12, High(val)) == 0 && Unsigned(12, val - Low(val)) == 0
  {
    hide Unsigned, BitExtend, Signed, Pow2, Cong;
    BitExtendIsSigned(val, 12);
    CongSigned(64, val - Low(val));
    CongRefl(64, Low(val));
    CongAdd(64, High(val), val - Low(val), Low(val), Low(val));
    CongSigned(12, val);
    CongRefl(12, val);
    CongSub(12, val, val, Low(val), val);
    assert val - val == 0;
    CongNarrow(12, 64, High(val), val - Low(val));
    CongToZero(12, High(val), val - Low(val));
    CongToZero(12, val - Low(val), 0);
  }

  lemma CongToZero(n: nat, x: int, y: int)
    requires Cong(n, x, y) && Cong(n, y, 0)
    ensures Unsigned(n, x) == 0
  {
    ZeroIsZero(n);
  }

  /** Shifting out the trailing zeros of the rest loses nothing. */
  lemma ShiftIsExact(val: int)
    requires High(val) != 0
    ensures ShiftAmount(val) < 64 && Shl(Next(val), ShiftAmount(val)) == High(val)
  {
    hide Shr, Shl, TrailingZeros, Signed, Pow2, Unsigned, Low;
    Parts(val);
    var hi := High(val);
    var u := Unsigned(64, hi);
    var c := TrailingZeros(64, Shr(u, 12));
    TrailingZerosMeans(64, Shr(u, 12));
    SignedOfZero(hi);
    TruncateTwice(12, 64, hi);
    TopIsFree(u, c);
    TruncateJoin(12, c, hi, u);
    Split(hi, 12 + c);
  }

  lemma SignedOfZero(v: int)
    requires FitsSigned(64, v) && v != 0
    ensures Unsigned(64, v) != 0
  {
    hide Unsigned, Pow2;
    SignedIdentity(64, v);
    Pow2Values();
  }

  /** A nonzero 64-bit word with twelve zeros at the bottom has at most 51 more. */
  lemma TopIsFree(u: nat, c: nat)
    requires 0 < u < Pow2(64)
    requires c == TrailingZeros(64, Shr(u, 12)) && Unsigned(12, u) == 0
    ensures c < 52
  {
    hide Unsigned, Shr, Shl, TrailingZeros, Pow2;
    var t := Shr(u, 12);
    Split(u, 12);
    ShrBound(u, 52, 12);
    TrailingZerosMeans(64, t);
    if c >= 52 {
      TruncateTwice(52, c, t);
      UnsignedSmall(52, t);
      ZeroIsZero(52);
      ShlPow2(0, 12);
    }
  }

  lemma TruncateJoin(a: nat, c: nat, hi: int, u: nat)
    requires u == Unsigned(64, hi) && a + c <= 64 && Unsigned(a, hi) == 0 && Unsigned(c, Shr(u, a)) == 0
    ensures Unsigned(a + c, hi) == 0
  {
    hide Unsigned, Shr, Shl;
    Join(a, c, u);
    TruncateTwice(a + c, 64, hi);
    TruncateTwice(a, 64, hi);
    ShlPow2(0, a);
  }

  /** The recursion moves to a value of smaller magnitude that still fits 64 bits. */
  lemma Descends(val: int)
    requires FitsSigned(64, val) && !Fits32(val)
    ensures High(val) != 0 && ShiftAmount(val) < 64
    ensures Abs(Next(val)) < Abs(val) && FitsSigned(64, Next(val))
    ensures Shl(Next(val), ShiftAmount(val)) == High(val)
  {
    hide High, Next, ShiftAmount, Low, Pow2, Shl, Fits32;
    Pow2Values();
    Fits32Means(val);
    HighMagnitude(val);
    ShiftIsExact(val);
    ShrinksBy12(Next(val), ShiftAmount(val), High(val));
  }

  lemma HighMagnitude(val: int)
    requires FitsSigned(64, val) && !FitsSigned(32, val)
    ensures High(val) != 0 && Abs(High(val)) <= Abs(val) + 2048 + 4096
    ensures ShiftAmount(val) >= 12
  {
    hide Unsigned, BitExtend, Pow2, TrailingZeros, Shl, Shr;
    Pow2Values();
    Parts(val);
    var d := val - Low(val);
    Split(d, 12);
    ShlIsMul(Shr(d, 12), 12);
    assert -2048 <= Low(val) < 2048;
    SignedIdentity(64, d);
    if !FitsSigned(64, d) {
      UnsignedSmall(64, d);
    }
  }

  lemma ShrinksBy12(x: int, s: nat, y: int)
    requires s >= 12 && Shl(x, s) == y
    ensures 4096 * Abs(x) <= Abs(y)
  {
    hide Shl, Pow2;
    Pow2Values();
    Pow2Mono(12, s);
    ShlIsMul(x, s);
    if x >= 0 { MulMono(x, 4096, Pow2(s)); } else { MulMono(-x, 4096, Pow2(s)); }
  }

  // ---------------------------------------------------------------------------------------------
  // The only such step

  /** val is an odd number shifted left by at least 12, plus what fits an addi, in 64 bits. */
  ghost predicate Decomposes(val: int, odd: int, shift: nat, low: int) {
    && odd % 2 == 1 && 12 <= shift && FitsSigned(12, low)
    && FitsSigned(64, Shl(odd, shift)) && Cong(64, Shl(odd, shift) + low, val)
  }

  /** What load_imm_r recurses on, shifts by and adds is the only decomposition of the value. */
  lemma StepIsUnique(val: int, odd: int, shift: nat, low: int)
    requires FitsSigned(64, val) && !Fits32(val)
    ensures Decomposes(val, odd, shift, low) <==> odd == Next(val) && shift == ShiftAmount(val) && low == Low(val)
  {
    hide High, Next, ShiftAmount, Low, Pow2, Shl, Fits32, Signed, Unsigned;
    Descends(val);
    Parts(val);
    NextIsOdd(val);
    HighIsSigned(val);
    if Decomposes(val, odd, shift, low) {
      LowIsUnique(val, Shl(odd, shift), low, shift, odd);
      CongRefl(64, low);
      CongSub(64, Shl(odd, shift) + low, val, low, low);
      CongSub(64, High(val) + Low(val), val, low, low);
      assert Shl(odd, shift) + low - low == Shl(odd, shift) && High(val) + Low(val) - low == High(val);
      CongUnique(64, Shl(odd, shift), High(val));
      OddPart(odd, shift, Next(val), ShiftAmount(val));
    }
  }

  lemma HighIsSigned(val: int)
    requires FitsSigned(64, val) && !Fits32(val)
    ensures FitsSigned(64, High(val)) && ShiftAmount(val) >= 12
  {
    hide Pow2, Unsigned, Low, TrailingZeros;
  }

  /** The recursion shifts out all zeros. */
  lemma NextIsOdd(val: int)
    requires FitsSigned(64, val) && !Fits32(val)
    ensures Next(val) % 2 == 1
  {
    hide Shr, Shl, TrailingZeros, Signed, Pow2, Unsigned, Low, Bit, Fits32;
    Descends(val);
    Parts(val);
    var hi := High(val);
    var u := Unsigned(64, hi);
    var c := TrailingZeros(64, Shr(u, 12));
    TrailingZerosMeans(64, Shr(u, 12));
    SignedOfZero(hi);
    TruncateTwice(12, 64, hi);
    TopIsFree(u, c);
    ShiftStep(Shr(u, 12), c);
    ShiftStep(hi, 12 + c);
    BitShr(u, 12, c);
    BitUnsigned(64, hi, 12 + c);
    ShrParity(Shr(u, 12), c);
    assert c + 12 == 12 + c;
  }

  lemma ShrParity(x: int, i: nat)
    ensures Shr(x, i) % 2 == 1 <==> Bit(x, i)
  {
    ShiftStep(x, i);
  }

  /** A multiple of 4096 leaves the low part to the rest. */
  lemma LowIsUnique(val: int, high: int, low: int, shift: nat, odd: int)
    requires Cong(64, high + low, val) && FitsSigned(12, low) && high == Shl(odd, shift) && shift >= 12
    ensures low == Low(val)
  {
    hide Unsigned, Pow2, Shl, Signed;
    BitExtendIsSigned(val, 12);
    CongSigned(12, val);
    CongNarrow(12, 64, high + low, val);
    ShlShl(odd, shift - 12, 12);
    CongIntro(12, high + low, low, Shl(odd, shift - 12));
    CongUnique(12, low, Signed(12, val));
  }

  /** A number has one odd part. */
  lemma {:induction false} OddPart(a: int, j: nat, b: int, k: nat)
    requires a % 2 == 1 && b % 2 == 1 && Shl(a, j) == Shl(b, k)
    ensures a == b && j == k
    decreases j
  {
    if j > 0 && k > 0 { OddPart(a, j - 1, b, k - 1); }
  }

  // ---------------------------------------------------------------------------------------------
  // The emitted code

  /** The multiple of 4096 at or below val, for lui. */
  function Upper(val: int): int { Shl(Shr(val, 12), 12) }

  /** load_imm_r */
  function RecursiveCode(rd: nat, val: int): seq<Inst>
    requires FitsSigned(64, val)
    decreases Abs(val)
  {
    if Fits32(val) then
      var rest := val - Upper(val);
      [Lui(rd, Upper(val))] + (if rest != 0 then [Addi(rd, rd, BitExtend(rest, 12))] else [])
    else
      Descends(val);
      var shift := ShiftAmount(val);
      RecursiveCode(rd, Next(val)) + [Slli(rd, rd, shift)]
      + (if Low(val) != 0 then [Addi(rd, rd, BitExtend(Low(val), 12))] else [])
  }

  /** load_imm */
  function Code(rd: nat, val: int): seq<Inst>
    requires FitsSigned(64, val)
  {
    if -2048 <= val <= 2047 then [Addi(rd, 0, val)]
    else if IsPow2(val) then [Addi(rd, 0, 1), Slli(rd, rd, TrailingZeros(64, Unsigned(64, val)))]
    else RecursiveCode(rd, val)
  }

  /** The value that reaches the 32-bit base case, and the total shift applied to it. */
  function Residue(val: int): int
    requires FitsSigned(64, val)
    decreases Abs(val)
  {
    if Fits32(val) then val else Descends(val); Residue(Next(val))
  }

  function TotalShift(val: int): nat
    requires FitsSigned(64, val)
    decreases Abs(val)
  {
    if Fits32(val) then 0 else Descends(val); TotalShift(Next(val)) + ShiftAmount(val)
  }

  /** The base case adds a sign-extended low part without compensating the upper part, so it is
      4096 short when bit 11 is set; the shift scales that error. */
  function Shortfall(val: int): int
    requires FitsSigned(64, val)
  {
    if Bit(Residue(val), 11) then Shl(4096, TotalShift(val)) else 0
  }

  // ---------------------------------------------------------------------------------------------
  // Executing it

  lemma RunSnoc(code: seq<Inst>, i: Inst, x: Regs)
    requires |x| == 32 && ValidCode(code) && ValidInst(i)
    ensures ValidCode(code + [i]) && Run(code + [i], x) == Execute(i, Run(code, x))
  {
    assert (code + [i])[..|code|] == code;
  }

  /** The low part of a multiple-of-4096 split. */
  lemma UpperRest(val: int)
    ensures val - Upper(val) == Unsigned(12, val) && Unsigned(12, Upper(val)) == 0
  {
    hide Shl, Shr, Unsigned, Pow2;
    Split(val, 12);
    ShlPow2(0, 12);
    Pow2Values();
    SplitUnique(Upper(val), 12, Shr(val, 12), 0);
  }

  lemma UpperFits(val: int)
    requires FitsSigned(32, val)
    ensures FitsSigned(32, Upper(val))
  {
    hide Shl, Shr, Unsigned, Pow2;
    UpperRest(val);
    Pow2Values();
    Split(val, 12);
    ShlIsMul(Shr(val, 12), 12);
  }

  /** The base case computes val, less 4096 when bit 11 of val is set. */
  lemma BaseValue(val: int)
    ensures Upper(val) + Signed(12, val - Upper(val)) == val - (if Bit(val, 11) then 4096 else 0)
    ensures val == Upper(val) ==> !Bit(val, 11)
  {
    hide Shl, Shr, Unsigned, Pow2, Bit, Upper;
    UpperRest(val);
    Pow2Values();
    var u := Unsigned(12, val);
    UnsignedSmall(12, u);
    TopBit(12, u);
    BitUnsigned(12, val, 11);
  }

  lemma WriteValue(x: Regs, rd: nat, v: int)
    requires ValidRegs(x) && rd < 32
    ensures ValidRegs(Write(x, rd, v))
    ensures rd != 0 ==> Write(x, rd, v)[rd] == Unsigned(64, v)
    ensures forall j :: 0 <= j < 32 && j != rd ==> Write(x, rd, v)[j] == x[j]
  {
    hide Unsigned, Pow2;
  }

  /** Only rd changes, and it holds the given value modulo 2^64. */
  ghost predicate Loads(x: Regs, r: Regs, rd: nat, v: int) {
    && ValidRegs(r) && |x| == 32
    && (rd < 32 && 0 < rd ==> r[rd] == Unsigned(64, v))
    && forall j :: 0 <= j < 32 && j != rd ==> r[j] == x[j]
  }

  lemma ThenAddi(x: Regs, r: Regs, rd: nat, v: int, imm: int)
    requires ValidRegs(x) && Loads(x, r, rd, v) && rd < 32 && FitsSigned(12, imm)
    ensures Loads(x, Execute(Addi(rd, rd, imm), r), rd, v + imm)
  {
    hide Unsigned, Pow2;
    WriteValue(r, rd, r[rd] + imm);
    if rd != 0 {
      CongSelf(64, v);
      CongRefl(64, imm);
      CongAdd(64, Unsigned(64, v), v, imm, imm);
    }
  }

  lemma ThenSlli(x: Regs, r: Regs, rd: nat, v: int, shamt: nat)
    requires ValidRegs(x) && Loads(x, r, rd, v) && rd < 32 && shamt < 64
    ensures Loads(x, Execute(Slli(rd, rd, shamt), r), rd, Shl(v, shamt))
  {
    hide Unsigned, Pow2, Shl;
    WriteValue(r, rd, Shl(r[rd], shamt));
    if rd != 0 {
      CongSelf(64, v);
      CongMul(64, Unsigned(64, v), v, Pow2(shamt));
      ShlIsMul(Unsigned(64, v), shamt);
      ShlIsMul(v, shamt);
    }
  }

  /** The code of the base case. */
  lemma BaseCode(rd: nat, val: int)
    requires FitsSigned(64, val) && Fits32(val)
    ensures var lui, addi := Lui(rd, Upper(val)), Addi(rd, rd, BitExtend(val - Upper(val), 12));
            RecursiveCode(rd, val) == if val != Upper(val) then [lui] + [addi] else [lui]
  {
    hide Fits32, Upper, BitExtend, FitsSigned;
  }

  lemma BaseValid(rd: nat, val: int)
    requires Fits32(val) && rd < 32
    ensures ValidInst(Lui(rd, Upper(val))) && ValidInst(Addi(rd, rd, BitExtend(val - Upper(val), 12)))
    ensures BitExtend(val - Upper(val), 12) == Signed(12, val - Upper(val))
    ensures FitsSigned(12, Signed(12, val - Upper(val)))
  {
    hide Unsigned, Pow2, BitExtend, Upper, Fits32, Signed;
    Fits32Means(val);
    UpperFits(val);
    UpperRest(val);
    BitExtendIsSigned(val - Upper(val), 12);
  }

  lemma BaseLoads(rd: nat, val: int, x: Regs)
    requires FitsSigned(64, val) && Fits32(val) && rd < 32 && ValidRegs(x)
    ensures ValidCode(RecursiveCode(rd, val))
    ensures Loads(x, Run(RecursiveCode(rd, val), x), rd, val - Shortfall(val))
  {
    hide Unsigned, Pow2, Bit, BitExtend, Upper, Fits32, Signed, RecursiveCode, Shortfall, FitsSigned, Run, ValidInst;
    BaseCode(rd, val);
    BaseValid(rd, val);
    BaseShortfall(val);
    BaseValue(val);
    var lui, addi := Lui(rd, Upper(val)), Addi(rd, rd, Signed(12, val - Upper(val)));
    WriteValue(x, rd, Upper(val));
    RunSnoc([], lui, x);
    RunNothing(x);
    assert [] + [lui] == [lui];
    var r := Run([lui], x);
    assert Loads(x, r, rd, Upper(val));
    if val != Upper(val) {
      RunSnoc([lui], addi, x);
      ThenAddi(x, r, rd, Upper(val), Signed(12, val - Upper(val)));
    }
  }

  lemma BaseShortfall(val: int)
    requires FitsSigned(64, val) && Fits32(val)
    ensures Shortfall(val) == if Bit(val, 11) then 4096 else 0
  {
    hide Bit;
  }

  lemma StepLoads(rd: nat, val: int, x: Regs)
    requires FitsSigned(64, val) && !Fits32(val) && rd < 32 && ValidRegs(x)
    requires FitsSigned(64, Next(val)) && ValidCode(RecursiveCode(rd, Next(val)))
    requires Loads(x, Run(RecursiveCode(rd, Next(val)), x), rd, Next(val) - Shortfall(Next(val)))
    ensures ValidCode(RecursiveCode(rd, val))
    ensures Loads(x, Run(RecursiveCode(rd, val), x), rd, val - Shortfall(val))
  {
    hide Unsigned, Pow2, Shl, Shr, Bit, BitExtend, Low, High, ShiftAmount, Next, Fits32, Shortfall, Signed;
    Descends(val);
    Parts(val);
    StepCode(rd, val);
    var inner, shift := RecursiveCode(rd, Next(val)), ShiftAmount(val);
    var r := Run(inner, x);
    var v := Next(val) - Shortfall(Next(val));
    RunSnoc(inner, Slli(rd, rd, shift), x);
    ThenSlli(x, r, rd, v, shift);
    var r2 := Execute(Slli(rd, rd, shift), r);
    StepShortfall(val);
    ShlSub(Next(val), Shortfall(Next(val)), shift);
    assert Shl(v, shift) == High(val) - Shortfall(val);
    SumIsCongruent(val);
    if Low(val) != 0 {
      RunSnoc(inner + [Slli(rd, rd, shift)], Addi(rd, rd, Low(val)), x);
      ThenAddi(x, r2, rd, Shl(v, shift), Low(val));
    } else {
      assert RecursiveCode(rd, val) == inner + [Slli(rd, rd, shift)];
    }
  }

  lemma StepCode(rd: nat, val: int)
    requires FitsSigned(64, val) && !Fits32(val)
    ensures FitsSigned(64, Next(val))
    ensures RecursiveCode(rd, val) == RecursiveCode(rd, Next(val)) + [Slli(rd, rd, ShiftAmount(val))]
                                      + if Low(val) != 0 then [Addi(rd, rd, Low(val))] else []
  {
    hide Unsigned, Pow2, Shl, Shr, BitExtend, Low, High, ShiftAmount, Next, Fits32, Signed;
    Descends(val);
    Parts(val);
    BitExtendIsSigned(Low(val), 12);
    SignedIdentity(12, Low(val));
  }

  lemma StepShortfall(val: int)
    requires FitsSigned(64, val) && !Fits32(val)
    ensures FitsSigned(64, Next(val)) && Shortfall(val) == Shl(Shortfall(Next(val)), ShiftAmount(val))
  {
    hide Pow2, Shl, Shr, Bit, High, ShiftAmount, Next, Fits32;
    Descends(val);
    ShlShl(4096, TotalShift(Next(val)), ShiftAmount(val));
    ShlPow2(0, ShiftAmount(val));
  }

  lemma SumIsCongruent(val: int)
    requires FitsSigned(64, val)
    ensures Unsigned(64, High(val) - Shortfall(val) + Low(val)) == Unsigned(64, val - Shortfall(val))
  {
    hide Unsigned, Shortfall, High, Low, Pow2;
    Parts(val);
    CongRefl(64, Shortfall(val));
    CongSub(64, High(val) + Low(val), val, Shortfall(val), Shortfall(val));
    assert High(val) + Low(val) - Shortfall(val) == High(val) - Shortfall(val) + Low(val);
  }

  /** Running load_imm_r's code loads val - Shortfall(val). */
  lemma {:induction false} RecursiveCodeLoads(rd: nat, val: int, x: Regs)
    requires FitsSigned(64, val) && rd < 32 && ValidRegs(x)
    ensures ValidCode(RecursiveCode(rd, val))
    ensures Loads(x, Run(RecursiveCode(rd, val), x), rd, val - Shortfall(val))
    decreases Abs(val)
  {
    hide RecursiveCode, Shortfall, Loads, Next, Fits32, Pow2, Shl, High, ShiftAmount;
    if Fits32(val) {
      BaseLoads(rd, val, x);
    } else {
      Descends(val);
      RecursiveCodeLoads(rd, Next(val), x);
      StepLoads(rd, val, x);
    }
  }

  /** load_imm, for every 64-bit value: small values and powers of two are loaded exactly; every
      other value is loaded short by the scaled error of the base case. */
  lemma CodeLoads(rd: nat, val: int, x: Regs)
    requires FitsSigned(64, val) && rd < 32 && ValidRegs(x)
    ensures ValidCode(Code(rd, val))
    ensures Loads(x, Run(Code(rd, val), x), rd,
                  if -2048 <= val <= 2047 || IsPow2(val) then val else val - Shortfall(val))
  {
    hide Unsigned, Pow2, Shl, Shr, Shortfall, IsPow2, RecursiveCode, TrailingZeros;
    Pow2Values();
    if -2048 <= val <= 2047 {
      WriteValue(x, rd, val);
      RunSnoc([], Addi(rd, 0, val), x);
      assert [] + [Addi(rd, 0, val)] == [Addi(rd, 0, val)];
    } else if IsPow2(val) {
      PowerLoads(rd, val, x);
    } else {
      RecursiveCodeLoads(rd, val, x);
    }
  }

  lemma PowerLoads(rd: nat, val: int, x: Regs)
    requires FitsSigned(64, val) && !(-2048 <= val <= 2047) && IsPow2(val) && rd < 32 && ValidRegs(x)
    ensures ValidCode(Code(rd, val)) && Loads(x, Run(Code(rd, val), x), rd, val)
  {
    hide Pow2, Shl, Shr, TrailingZeros, Unsigned, And, Run, Execute, ValidInst, Loads;
    var u := Unsigned(64, val);
    PowerOfTwo(u, 64);
    var k := TrailingZeros(64, u);
    OneThenShift(rd, k, x);
    ShlPow2(0, k);
    CongSelf(64, val);
    LoadsCong(x, Run(Code(rd, val), x), rd, u, val);
  }

  lemma LoadsCong(x: Regs, r: Regs, rd: nat, v: int, w: int)
    requires Loads(x, r, rd, v) && Cong(64, v, w)
    ensures Loads(x, r, rd, w)
  {
    hide Unsigned, ValidRegs;
  }

  lemma OneThenShift(rd: nat, k: nat, x: Regs)
    requires rd < 32 && k < 64 && ValidRegs(x)
    ensures ValidCode([Addi(rd, 0, 1), Slli(rd, rd, k)])
    ensures Loads(x, Run([Addi(rd, 0, 1), Slli(rd, rd, k)], x), rd, Shl(1, k))
  {
    hide Pow2, Shl, Unsigned, Run;
    Pow2Values();
    var one, slli := Addi(rd, 0, 1), Slli(rd, rd, k);
    WriteValue(x, rd, 1);
    RunSnoc([], one, x);
    RunNothing(x);
    RunSnoc([one], slli, x);
    assert [] + [one] == [one] && [one] + [slli] == [one, slli];
    ThenSlli(x, Run([one], x), rd, 1, k);
  }

  lemma RunNothing(x: Regs)
    requires |x| == 32
    ensures ValidCode([]) && Run([], x) == x
  {}

  /** load_imm loads exactly the value asked for if and only if the value is small, or a power of
      two, or bit 11 of its residue is clear, or the error is shifted out of the register. */
  lemma ExactlyWhen(rd: nat, val: int, x: Regs)
    requires FitsSigned(64, val) && 0 < rd < 32 && ValidRegs(x)
    ensures ValidCode(Code(rd, val))
    ensures Run(Code(rd, val), x)[rd] == Unsigned(64, val)
       <==> -2048 <= val <= 2047 || IsPow2(val) || !Bit(Residue(val), 11) || TotalShift(val) >= 52
  {
    hide Unsigned, Pow2, Shl, Code, Residue, TotalShift, IsPow2, Bit;
    CodeLoads(rd, val, x);
    if !(-2048 <= val <= 2047 || IsPow2(val)) { ShortfallMatters(val); }
  }

  /** An odd number that fits 32 signed bits, shifted beyond them: the code loads it, or 4096 less than it
      when its bit 11 is set, shifted. */
  lemma ShiftedLoads(rd: nat, r: int, s: nat, x: Regs)
    requires r % 2 == 1 && FitsSigned(32, r) && 12 <= s && FitsSigned(64, Shl(r, s)) && !FitsSigned(32, Shl(r, s))
    requires !IsPow2(Shl(r, s)) && 0 < rd < 32 && ValidRegs(x)
    ensures ValidCode(Code(rd, Shl(r, s)))
    ensures Run(Code(rd, Shl(r, s)), x)[rd] == Unsigned(64, Shl(if Bit(r, 11) then r - 4096 else r, s))
  {
    hide Unsigned, Pow2, Shl, Code, IsPow2, Bit, Fits32, Next, ShiftAmount, Low, Signed;
    Pow2Values();
    var val := Shl(r, s);
    Fits32Means(val);
    Fits32Means(r);
    CongRefl(64, val);
    StepIsUnique(val, r, s, 0);
    CodeLoads(rd, val, x);
    OneStep(val, r, s);
    ShlSub(r, 4096, s);
  }

  lemma OneStep(val: int, r: int, s: nat)
    requires FitsSigned(64, val) && !Fits32(val) && r == Next(val) && s == ShiftAmount(val) && Fits32(r)
    ensures Shortfall(val) == if Bit(r, 11) then Shl(4096, s) else 0
  {
    hide Pow2, Shl, Bit, Fits32, Next, ShiftAmount;
    Descends(val);
    assert TotalShift(Next(val)) == 0 && Residue(Next(val)) == Next(val);
  }

  // ---------------------------------------------------------------------------------------------
  // How long the code is

  /** Magnitudes from which k steps reach 32 bits. */
  function Reach(k: nat): nat
    requires k < 4
  {
    if k == 0 then 0x7fff_ffff else if k == 1 then 0x200_0000_0000 else if k == 2 then 0x10_0000_0000_0000
    else 0x8000_0000_0000_0000
  }

  lemma {:induction false} RecursionIsShort(rd: nat, val: int, k: nat)
    requires FitsSigned(64, val) && k < 4 && Abs(val) <= Reach(k)
    ensures |RecursiveCode(rd, val)| <= 2 + 2 * k
    decreases k
  {
    hide Next, High, Low, ShiftAmount, Fits32, Shl, Shr, Upper, BitExtend, Pow2;
    Pow2Values();
    Fits32Means(val);
    if !Fits32(val) {
      Descends(val);
      HighMagnitude(val);
      ShrinksBy12(Next(val), ShiftAmount(val), High(val));
      RecursionIsShort(rd, Next(val), k - 1);
      StepCode(rd, val);
    }
  }

  /** Every 64-bit value takes at most eight instructions. */
  lemma CodeIsShort(rd: nat, val: int)
    requires FitsSigned(64, val)
    ensures 0 < |Code(rd, val)| <= 8
  {
    hide RecursiveCode, IsPow2, TrailingZeros, Unsigned, Pow2;
    Pow2Values();
    RecursionIsShort(rd, val, 3);
    SomeCode(rd, val);
  }

  lemma SomeCode(rd: nat, val: int)
    requires FitsSigned(64, val)
    ensures RecursiveCode(rd, val) != []
  {
    hide Next, High, Low, ShiftAmount, Fits32, Shl, Shr, Upper, BitExtend, Pow2;
  }

  /** One instruction is enough exactly for what fits an addi and for what a lui alone can load, but
      for powers of two. */
  lemma OneInstructionWhen(rd: nat, val: int)
    requires FitsSigned(64, val)
    ensures |Code(rd, val)| == 1
       <==> -2048 <= val <= 2047 || (!IsPow2(val) && FitsSigned(32, val) && Unsigned(12, val) == 0)
  {
    hide RecursiveCode, IsPow2, TrailingZeros, Unsigned, Pow2, Fits32, Upper, Next, ShiftAmount, Low, BitExtend;
    Fits32Means(val);
    if Fits32(val) {
      BaseCode(rd, val);
      UpperRest(val);
    } else {
      StepCode(rd, val);
      SomeCode(rd, Next(val));
    }
  }

  /** No instruction of the code adds zero in place. */
  ghost predicate NoIdle(code: seq<Inst>, rd: nat) {
    forall k :: 0 <= k < |code| ==> code[k] != Addi(rd, rd, 0)
  }

  lemma {:induction false} RecursionIsNotIdle(rd: nat, val: int)
    requires FitsSigned(64, val)
    ensures NoIdle(RecursiveCode(rd, val), rd)
    decreases Abs(val)
  {
    hide Next, High, Low, ShiftAmount, Fits32, Shl, Shr, Upper, BitExtend, Pow2, RecursiveCode, FitsSigned, Signed;
    if Fits32(val) {
      BaseCode(rd, val);
      UpperRest(val);
      BitExtendIsSigned(val - Upper(val), 12);
      if val != Upper(val) { RestIsNotZero(val - Upper(val), val); }
    } else {
      Descends(val);
      RecursionIsNotIdle(rd, Next(val));
      StepCode(rd, val);
    }
  }

  lemma RestIsNotZero(rest: int, val: int)
    requires rest == Unsigned(12, val) && rest != 0
    ensures Signed(12, rest) != 0
  {
    hide Unsigned, Pow2;
    Pow2Values();
    UnsignedSmall(12, rest);
  }

  lemma CodeIsNotIdle(rd: nat, val: int)
    requires FitsSigned(64, val) && rd > 0
    ensures NoIdle(Code(rd, val), rd)
  {
    hide RecursiveCode, IsPow2, TrailingZeros, Unsigned, Pow2;
    RecursionIsNotIdle(rd, val);
  }

  lemma ShortfallMatters(val: int)
    requires FitsSigned(64, val)
    ensures Unsigned(64, val - Shortfall(val)) == Unsigned(64, val) <==> !Bit(Residue(val), 11) || TotalShift(val) >= 52
  {
    hide Unsigned, Pow2, Shl, Residue, TotalShift, Bit;
    var e, s := Shortfall(val), TotalShift(val);
    if Bit(Residue(val), 11) {
      PowerShift(s);
      CongRefl(64, val);
      CongRefl(64, val - e);
      if s >= 52 {
        CongSub(64, val, val, e, 0);
      } else if Cong(64, val - e, val) {
        Difference(val, e);
      }
    }
  }

  lemma Difference(val: int, e: int)
    requires Cong(64, val - e, val)
    ensures Cong(64, e, 0)
  {
    hide Unsigned;
    CongRefl(64, val);
    CongSub(64, val, val, val - e, val);
    assert val - (val - e) == e && val - val == 0;
  }

  lemma PowerShift(s: nat)
    ensures Cong(64, Shl(4096, s), 0) <==> s >= 52
  {
    hide Unsigned, Pow2, Shl;
    Pow2Values();
    ShlPow2(12, s);
    ZeroIsZero(64);
    if s >= 52 {
      ShlPow2(64, s - 52);
      ShlPow2(s - 52, 64);
      CongIntro(64, Shl(4096, s), 0, Pow2(s - 52));
    } else {
      Pow2Mono(12 + s, 63);
      UnsignedSmall(64, Pow2(12 + s));
    }
  }

  /** 0x1800 needs lui 2 and addi -2048, but gets lui 1. */
  lemma LoadImmIsNotExact(x: Regs)
    requires ValidRegs(x)
    ensures FitsSigned(64, 0x1800) && ValidCode(Code(1, 0x1800))
    ensures Run(Code(1, 0x1800), x)[1] == 0x800
  {
    hide Unsigned, Pow2, Shl, Shr, Code, Residue, TotalShift, IsPow2, Bit;
    Pow2Values();
    Fits32Means(0x1800);
    CodeLoads(1, 0x1800, x);
    NotPow2();
    BaseShortfall(0x1800);
    BitEleven();
    UnsignedSmall(64, 0x800);
  }

  lemma NotPow2()
    ensures !IsPow2(0x1800)
  {
    hide Unsigned, Pow2;
    Pow2Values();
    UnsignedSmall(64, 0x1800);
    assert And(0x1800, 0x17ff) == 0x1000;
  }

  lemma BitEleven()
    ensures Bit(0x1800, 11)
  {}
}
