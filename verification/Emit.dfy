/**
  From instructions to bytes and back: the emit_* functions of src/asm/jit.cc, which encode_inst
  combines from match bits and operands, the emission loop of load_imm into a section, and the
  disassembly of what was emitted.
 */
module Emit {
  import opened Bits
  import opened Options
  import opened Operands
  import opened OperandTable
  import opened Codecs
  import opened CodecRoundTrip
  import opened BaseFormats
  import opened InstBuffer
  import opened LoadImm
  import Layouts
  import CodecLayouts

  /** rv_inst_match and rv_inst_codec of the three instructions. */
  function MatchOf(i: Inst): nat {
    match i
    case Lui(_, _) => 0x37
    case Addi(_, _, _) => 0x13
    case Slli(_, _, _) => 0x1013
  }

  function FormatOf(i: Inst): Format {
    match i
    case Lui(_, _) => U
    case Addi(_, _, _) => I
    case Slli(_, _, _) => I_SH7
  }

  const ZERO := Decoded(0, 0, 0, 0, 0, 0, 0, 0, 0, 0)

  /** The decode record that emit_lui, emit_addi and emit_slli fill in. */
  function Record(i: Inst): Decoded {
    match i
    case Lui(rd, imm) => ZERO.(rd := rd, imm := imm)
    case Addi(rd, rs1, imm) => ZERO.(rd := rd, rs1 := rs1, imm := imm)
    case Slli(rd, rs1, shamt) => ZERO.(rd := rd, rs1 := rs1, imm := shamt)
  }

  /** encode_inst */
  function Word(i: Inst): nat {
    Or(MatchOf(i), EncodeFormat(FormatOf(i), Record(i)))
  }

  /** The n-bit field of a word at bit lo. */
  function FieldAt(w: nat, lo: nat, n: nat): nat {
    Unsigned(n, Shr(w, lo))
  }

  /** Decoding restricted to the three instructions, by the opcode fields that meta/opcodes gives. */
  function Disassemble(w: nat): Option<Inst> {
    if FieldAt(w, 0, 7) == 0x37 then
      var d := DecodeFormat(U, w, ZERO);
      if d.rd >= 0 then Some(Lui(d.rd, d.imm)) else None
    else if FieldAt(w, 0, 7) == 0x13 && FieldAt(w, 12, 3) == 0 then
      var d := DecodeFormat(I, w, ZERO);
      if d.rd >= 0 && d.rs1 >= 0 then Some(Addi(d.rd, d.rs1, d.imm)) else None
    else if FieldAt(w, 0, 7) == 0x13 && FieldAt(w, 12, 3) == 1 && FieldAt(w, 27, 5) == 0 then
      var d := DecodeFormat(I_SH7, w, ZERO);
      if d.rd >= 0 && d.rs1 >= 0 && d.imm >= 0 then Some(Slli(d.rd, d.rs1, d.imm)) else None
    else None
  }

  // ---------------------------------------------------------------------------------------------
  // A word read back

  lemma {:induction false} SameField(v: nat, w: nat, lo: nat, n: nat)
    requires forall k: nat :: lo <= k < lo + n ==> Bit(v, k) == Bit(w, k)
    ensures FieldAt(v, lo, n) == FieldAt(w, lo, n)
  {
    hide Bit, Unsigned, Shr;
    forall i: nat | i < n ensures Bit(FieldAt(v, lo, n), i) == Bit(FieldAt(w, lo, n), i) {
      BitUnsigned(n, Shr(v, lo), i);
      BitUnsigned(n, Shr(w, lo), i);
      BitShr(v, lo, i);
      BitShr(w, lo, i);
    }
    SameBits(FieldAt(v, lo, n), FieldAt(w, lo, n), n);
  }

  lemma RecordInRange(i: Inst)
    requires ValidInst(i)
    ensures InRange(FormatOf(i), Record(i))
  {
    hide Fits, Unsigned, Pow2;
    Pow2Values();
    RegisterRange(i.rd);
    ImmediateRange(Record(i).imm);
    if !i.Lui? { RegisterRange(i.rs1); }
  }

  lemma FormatsOk(i: Inst)
    ensures FormatOk(FormatOf(i)) && FormatOf(i).asserts == []
  {
    hide FormatOk;
    UFormat();
    IFormat();
    ISh7Format();
  }

  /** The match bits stay clear of the operands. */
  lemma MatchIsClear(i: Inst, k: nat)
    ensures OperandBit(FormatOf(i), k) ==> !Bit(MatchOf(i), k)
  {
    hide Bit, OperandBit, Pow2, U, I, I_SH7;
    FormatBits(k);
    Pow2Values();
    if OperandBit(FormatOf(i), k) {
      if i.Slli? {
        if k >= 13 { HighBits(MatchOf(i), 13, k); } else { SlliBits(k); }
      } else {
        HighBits(MatchOf(i), 7, k);
      }
    }
  }

  lemma SlliBits(k: nat)
    requires 7 <= k < 12
    ensures !Bit(0x1013, k)
  {
    hide Bit, Shl, Shr, Unsigned, Pow2;
    Pow2Values();
    ShlIsMul(0x20, 7);
    ShlIsMul(1, 5);
    SplitUnique(0x1013, 7, 0x20, 0x13);
    BitShr(0x1013, 7, k - 7);
    BitShl(1, 5, k - 7);
  }

  /** Outside the operand bits the word is the match word. */
  lemma WordBits(i: Inst, k: nat)
    ensures !OperandBit(FormatOf(i), k) ==> Bit(Word(i), k) == Bit(MatchOf(i), k)
    ensures CarriesRecord(FormatOf(i), Word(i), Record(i)) && Word(i) < Pow2(32)
  {
    hide Bit, OperandBit, Pow2, FormatOf, EncodeFormat, CarriesRecord, Record;
    Pow2Values();
    forall j: nat | OperandBit(FormatOf(i), j) ensures !Bit(MatchOf(i), j) { MatchIsClear(i, j); }
    OrdInBits(FormatOf(i), MatchOf(i), Record(i), k);
  }

  lemma WordFields(i: Inst)
    ensures FieldAt(Word(i), 0, 7) == FieldAt(MatchOf(i), 0, 7)
    ensures !i.Lui? ==> FieldAt(Word(i), 12, 3) == FieldAt(MatchOf(i), 12, 3)
    ensures i.Slli? ==> FieldAt(Word(i), 27, 5) == FieldAt(MatchOf(i), 27, 5)
  {
    hide Bit, OperandBit, Pow2, FieldAt, MatchOf, Word, U, I, I_SH7, CarriesRecord;
    forall k: nat | k < 32 && !OperandBit(FormatOf(i), k)
      ensures Bit(Word(i), k) == Bit(MatchOf(i), k)
    {
      WordBits(i, k);
    }
    forall k: nat | 0 <= k < 7 || (12 <= k < 15 && !i.Lui?) || (27 <= k < 32 && i.Slli?)
      ensures !OperandBit(FormatOf(i), k)
    {
      FormatBits(k);
    }
    SameField(Word(i), MatchOf(i), 0, 7);
    if !i.Lui? { SameField(Word(i), MatchOf(i), 12, 3); }
    if i.Slli? { SameField(Word(i), MatchOf(i), 27, 5); }
  }

  /** A field of a word that is split at the field's ends. */
  lemma FieldIs(w: nat, lo: nat, n: nat, top: int, v: nat, low: nat)
    requires v < Pow2(n) && low < Pow2(lo) && w == Shl(Shl(top, n) + v, lo) + low
    ensures FieldAt(w, lo, n) == v
  {
    hide Shl, Shr, Unsigned, Pow2;
    SplitUnique(w, lo, Shl(top, n) + v, low);
    SplitUnique(Shl(top, n) + v, n, top, v);
  }

  lemma MatchFields()
    ensures FieldAt(0x37, 0, 7) == 0x37 && FieldAt(0x13, 0, 7) == 0x13 && FieldAt(0x1013, 0, 7) == 0x13
    ensures FieldAt(0x13, 12, 3) == 0 && FieldAt(0x1013, 12, 3) == 1 && FieldAt(0x1013, 27, 5) == 0
  {
    hide FieldAt, Shl, Pow2;
    Pow2Values();
    Pow2Mono(13, 27);
    ShlIsMul(0, 7); ShlIsMul(0x20, 7); ShlIsMul(0, 3); ShlIsMul(0, 5);
    ShlIsMul(0, 12); ShlIsMul(1, 12); ShlIsMul(0, 27);
    NoShiftLeft(0x37); NoShiftLeft(0x13); NoShiftLeft(0x1013);
    FieldIs(0x37, 0, 7, 0, 0x37, 0);
    FieldIs(0x13, 0, 7, 0, 0x13, 0);
    FieldIs(0x1013, 0, 7, 0x20, 0x13, 0);
    FieldIs(0x13, 12, 3, 0, 0, 0x13);
    FieldIs(0x1013, 12, 3, 0, 1, 0x13);
    FieldIs(0x1013, 27, 5, 0, 0, 0x1013);
  }

  lemma NoShiftLeft(v: int)
    ensures Shl(v, 0) == v && Pow2(0) == 1
  {}

  lemma LengthIsFour(w: nat)
    requires FieldAt(w, 0, 7) == 0x37 || FieldAt(w, 0, 7) == 0x13
    ensures InstLength(w) == 4
  {
    hide And, Unsigned;
    UnsignedSmall7();
    LengthTests(w, FieldAt(w, 0, 7));
    SmallAnds();
    NoShift(w);
  }

  lemma UnsignedSmall7()
    ensures Unsigned(7, 0x37) == 0x37 && Unsigned(7, 0x13) == 0x13
  {
    hide Unsigned;
    Pow2Values();
    UnsignedSmall(7, 0x37);
    UnsignedSmall(7, 0x13);
  }

  lemma SmallAnds()
    ensures And(0x37, 0x3) == 0x3 && And(0x37, 0x1c) == 0x14 && And(0x13, 0x3) == 0x3 && And(0x13, 0x1c) == 0x10
  {
    hide And;
    AndStep(0x37, 0x3); AndStep(0x1b, 1); AndZero(0xd);
    AndStep(0x37, 0x1c); AndStep(0x1b, 0xe); AndStep(0xd, 7); AndStep(6, 3); AndStep(3, 1); AndZero(1);
    AndStep(0x13, 0x3); AndStep(9, 1); AndZero(4);
    AndStep(0x13, 0x1c); AndStep(9, 0xe); AndStep(4, 7); AndStep(2, 3); AndStep(1, 1); AndZero(0);
  }

  /** The fields of the record that the decoder restores. */
  lemma DecodedRecord(i: Inst)
    requires ValidInst(i)
    ensures var d := DecodeFormat(FormatOf(i), Word(i), ZERO);
            d.rd == Record(i).rd && d.imm == Record(i).imm && d.rs1 == Record(i).rs1
  {
    hide FormatOk, Pow2, Word, CarriesRecord, InRange, DecodeFormat, FormatOf, Record;
    Pow2Mono(32, 64);
    RecordInRange(i);
    FormatsOk(i);
    WordBits(i, 0);
    FormatRoundTrip(FormatOf(i), Word(i), Record(i), ZERO);
    FormatFields(FormatOf(i), i);
  }

  lemma FormatFields(f: Format, i: Inst)
    requires f == FormatOf(i)
    ensures |f.decoder| == 4 && f.decoder[0].field == Rd && f.decoder[1].field == Rs1 && f.decoder[3].field == Imm
  {}

  lemma DisassembleUpper(w: nat, rd: nat, imm: int)
    requires FieldAt(w, 0, 7) == 0x37
    requires var d := DecodeFormat(U, w, ZERO); d.rd == rd && d.imm == imm
    ensures Disassemble(w) == Some(Lui(rd, imm))
  {
    hide FieldAt, DecodeFormat, U, I, I_SH7;
  }

  lemma DisassembleAddi(w: nat, rd: nat, rs1: nat, imm: int)
    requires FieldAt(w, 0, 7) == 0x13 && FieldAt(w, 12, 3) == 0
    requires var d := DecodeFormat(I, w, ZERO); d.rd == rd && d.rs1 == rs1 && d.imm == imm
    ensures Disassemble(w) == Some(Addi(rd, rs1, imm))
  {
    hide FieldAt, DecodeFormat, U, I, I_SH7;
  }

  lemma DisassembleSlli(w: nat, rd: nat, rs1: nat, shamt: nat)
    requires FieldAt(w, 0, 7) == 0x13 && FieldAt(w, 12, 3) == 1 && FieldAt(w, 27, 5) == 0
    requires var d := DecodeFormat(I_SH7, w, ZERO); d.rd == rd && d.rs1 == rs1 && d.imm == shamt
    ensures Disassemble(w) == Some(Slli(rd, rs1, shamt))
  {
    hide FieldAt, DecodeFormat, U, I, I_SH7;
  }

  /** Every instruction that load_imm emits is four bytes long and reads back as itself. */
  lemma WordRoundTrip(i: Inst)
    requires ValidInst(i)
    ensures Disassemble(Word(i)) == Some(i)
    ensures InstLength(Word(i)) == 4 && WellFormedInst(Word(i))
  {
    hide *;
    WordIsFour(i);
    WordFields(i);
    MatchFields();
    MatchCases(i);
    DecodedRecord(i);
    RecordCases(i);
    match i {
      case Lui(rd, imm) => DisassembleUpper(Word(i), rd, imm);
      case Addi(rd, rs1, imm) => DisassembleAddi(Word(i), rd, rs1, imm);
      case Slli(rd, rs1, shamt) => DisassembleSlli(Word(i), rd, rs1, shamt);
    }
  }

  lemma RecordCases(i: Inst)
    ensures Record(i).rd == i.rd
    ensures i.Lui? ==> FormatOf(i) == U && Record(i).imm == i.imm
    ensures i.Addi? ==> FormatOf(i) == I && Record(i).rs1 == i.rs1 && Record(i).imm == i.imm
    ensures i.Slli? ==> FormatOf(i) == I_SH7 && Record(i).rs1 == i.rs1 && Record(i).imm == i.shamt
  {
    hide U, I, I_SH7;
  }

  lemma WordIsFour(i: Inst)
    ensures InstLength(Word(i)) == 4 && WellFormedInst(Word(i))
  {
    hide *;
    WordFields(i);
    MatchFields();
    MatchCases(i);
    LengthIsFour(Word(i));
    WordBits(i, 0);
    FourBytes(Word(i));
  }

  lemma FourBytes(w: nat)
    requires InstLength(w) == 4 && w < Pow2(32)
    ensures WellFormedInst(w)
  {
    hide Pow2, InstLength;
  }

  lemma MatchCases(i: Inst)
    ensures i.Lui? ==> MatchOf(i) == 0x37
    ensures i.Addi? ==> MatchOf(i) == 0x13
    ensures i.Slli? ==> MatchOf(i) == 0x1013
  {}

  /** Match and operands share no bit, so they add up. */
  lemma WordAddsUp(i: Inst)
    ensures Word(i) == MatchOf(i) + EncodeFormat(FormatOf(i), Record(i))
  {
    hide Bit, Or, OperandBit, EncodeFormat, FormatOf, MatchOf, Record;
    var m, e := MatchOf(i), EncodeFormat(FormatOf(i), Record(i));
    forall k: nat ensures !(Bit(m, k) && Bit(e, k)) {
      if Bit(e, k) {
        EncodesOnlyOperands(FormatOf(i), Record(i), k);
        MatchIsClear(i, k);
      }
    }
    forall k: nat ensures Bit(Or(m, e), k) == Bit(m + e, k) {
      BitOr(m, e, k);
      Layouts.SumBit(m, e, k);
    }
    EqualBits(Or(m, e), m + e);
  }

  lemma Places()
    ensures Pow2(5) == 0x20 && Pow2(7) == 0x80 && Pow2(15) == 0x8000 && Pow2(20) == 0x10_0000 && Pow2(64) > 0
  {
    hide Pow2;
    Pow2Values();
    Pow2Add(7, 8);
  }

  /** lui: the opcode, rd from bit 7 up, and the upper 20 bits of the immediate where they are. */
  lemma LuiWord(rd: nat, imm: int)
    requires ValidInst(Lui(rd, imm))
    ensures Word(Lui(rd, imm)) == 0x37 + rd * 0x80 + Unsigned(32, imm)
  {
    hide U, EncodeFormat, DecodeFormat, Layouts.Part, Pow2, Word, Unsigned;
    var i := Lui(rd, imm);
    Places();
    WordAddsUp(i);
    CodecLayouts.ULayout(Record(i), 0, ZERO);
    Layouts.PartIs(rd, 5, 7);
    UpperPlace(imm);
  }

  lemma UpperPlace(imm: int)
    requires Unsigned(12, imm) == 0
    ensures Layouts.Part(imm, 31, 12, 12) == Unsigned(32, imm)
  {
    hide Unsigned, Shl, Shr;
    Join(12, 20, imm);
  }

  /** addi: the opcode, rd from bit 7 up, rs1 from bit 15 up and the immediate from bit 20 up. */
  lemma AddiWord(rd: nat, rs1: nat, imm: int)
    requires ValidInst(Addi(rd, rs1, imm))
    ensures Word(Addi(rd, rs1, imm)) == 0x13 + rd * 0x80 + rs1 * 0x8000 + Unsigned(12, imm) * 0x10_0000
  {
    hide I, EncodeFormat, DecodeFormat, Layouts.Part, Pow2, Word, Unsigned;
    var i := Addi(rd, rs1, imm);
    Places();
    WordAddsUp(i);
    CodecLayouts.ILayout(Record(i), 0, ZERO);
    Layouts.PartIs(rd, 5, 7);
    Layouts.PartIs(rs1, 5, 15);
    LowPlace(imm);
  }

  lemma LowPlace(imm: int)
    ensures Layouts.Part(imm, 11, 0, 20) == Unsigned(12, imm) * Pow2(20)
  {
    hide Unsigned, Shl, Pow2;
    NoShift(imm);
    ShlIsMul(Unsigned(12, imm), 20);
  }

  /** slli: the opcode with funct3, and the same places. */
  lemma SlliWord(rd: nat, rs1: nat, shamt: nat)
    requires ValidInst(Slli(rd, rs1, shamt))
    ensures Word(Slli(rd, rs1, shamt)) == 0x1013 + rd * 0x80 + rs1 * 0x8000 + shamt * 0x10_0000
  {
    hide I_SH7, EncodeFormat, DecodeFormat, Layouts.Part, Pow2, Word;
    var i := Slli(rd, rs1, shamt);
    Places();
    Pow2Values();
    WordAddsUp(i);
    CodecLayouts.ISh7Layout(Record(i), 0, ZERO);
    Layouts.PartIs(rd, 5, 7);
    Layouts.PartIs(rs1, 5, 15);
    Layouts.PartIs(shamt, 7, 20);
  }

  // ---------------------------------------------------------------------------------------------
  // Emission

  function Words(code: seq<Inst>): seq<nat> {
    if code == [] then [] else [Word(code[0])] + Words(code[1..])
  }

  /** The bytes of a piece of code. */
  function Emitted(code: seq<Inst>): seq<nat> {
    Stream(Words(code))
  }

  lemma {:induction false} EmittedAppend(a: seq<Inst>, b: seq<Inst>)
    ensures Emitted(a + b) == Emitted(a) + Emitted(b)
  {
    hide *;
    if a == [] {
      assert a + b == b;
      EmittedNothing();
    } else {
      var all := a + b;
      assert all[0] == a[0] && all[1..] == a[1..] + b;
      EmittedAppend(a[1..], b);
      EmittedCons(all);
      EmittedCons(a);
    }
  }

  lemma EmittedNothing()
    ensures Emitted([]) == []
  {}

  lemma EmittedCons(a: seq<Inst>)
    requires a != []
    ensures Emitted(a) == InstBytes(Word(a[0])) + Emitted(a[1..])
  {
    hide Word, InstBytes;
    assert Words(a)[1..] == Words(a[1..]);
  }

  lemma EmittedOne(i: Inst)
    ensures Emitted([i]) == InstBytes(Word(i))
  {
    hide Word, InstBytes;
    EmittedCons([i]);
    assert [i][1..] == [];
  }

  /** add_inst(emit_...); the operands are valid, so no emit function gives up. */
  method EmitOne(sec: Section, i: Inst)
    requires ValidInst(i)
    modifies sec
    ensures sec.buf == old(sec.buf) + Emitted([i])
  {
    hide *;
    EmittedOne(i);
    sec.AddInst(Word(i));
  }

  /** The base case of load_imm_r: lui, and addi for what is left. */
  lemma BaseEmitted(rd: nat, val: int)
    requires FitsSigned(64, val) && rd < 32 && Fits32(val)
    ensures var upper, rest := Upper(val), val - Upper(val);
            var addi := Addi(rd, rd, BitExtend(rest, 12));
            && ValidInst(Lui(rd, upper)) && ValidInst(addi)
            && Emitted(RecursiveCode(rd, val)) == Emitted([Lui(rd, upper)]) + if rest != 0 then Emitted([addi]) else []
  {
    hide Fits32, Upper, BitExtend, Signed, Emitted, Unsigned, Pow2, Shl, Shr;
    Fits32Means(val);
    UpperFits(val);
    UpperRest(val);
    var rest := val - Upper(val);
    BitExtendIsSigned(rest, 12);
    var lui, addi := Lui(rd, Upper(val)), Addi(rd, rd, BitExtend(rest, 12));
    if rest != 0 {
      EmittedAppend([lui], [addi]);
    } else {
      assert RecursiveCode(rd, val) == [lui];
    }
  }

  /** Its recursive case: the code of the rest, slli, and addi for the low part. */
  lemma StepEmitted(rd: nat, val: int)
    requires FitsSigned(64, val) && rd < 32 && !Fits32(val)
    ensures FitsSigned(64, Next(val)) && Abs(Next(val)) < Abs(val)
    ensures var slli, addi := Slli(rd, rd, ShiftAmount(val)), Addi(rd, rd, BitExtend(Low(val), 12));
            && ValidInst(slli) && ValidInst(addi)
            && Emitted(RecursiveCode(rd, val))
            == Emitted(RecursiveCode(rd, Next(val))) + Emitted([slli]) + if Low(val) != 0 then Emitted([addi]) else []
  {
    hide Fits32, BitExtend, Signed, Emitted, Unsigned, Pow2, Shl, Shr, Low, High, Next, ShiftAmount;
    Descends(val);
    BitExtendIsSigned(Low(val), 12);
    var inner := RecursiveCode(rd, Next(val));
    var slli, addi := Slli(rd, rd, ShiftAmount(val)), Addi(rd, rd, BitExtend(Low(val), 12));
    EmittedAppend(inner, [slli]);
    if Low(val) != 0 {
      EmittedAppend(inner + [slli], [addi]);
    } else {
      assert RecursiveCode(rd, val) == inner + [slli];
    }
  }

  /** load_imm_r */
  method LoadImmR(sec: Section, rd: nat, val: int)
    requires FitsSigned(64, val) && rd < 32
    modifies sec
    ensures sec.buf == old(sec.buf) + Emitted(RecursiveCode(rd, val))
    decreases Abs(val)
  {
    hide *;
    ghost var before := sec.buf;
    if Fits32(val) {
      BaseEmitted(rd, val);
      var upper := Upper(val);
      EmitOne(sec, Lui(rd, upper));
      var rest := val - upper;
      if rest != 0 { EmitOne(sec, Addi(rd, rd, BitExtend(rest, 12))); }
    } else {
      StepEmitted(rd, val);
      var lo, shift := Low(val), ShiftAmount(val);
      LoadImmR(sec, rd, Next(val));
      EmitOne(sec, Slli(rd, rd, shift));
      if lo != 0 { EmitOne(sec, Addi(rd, rd, BitExtend(lo, 12))); }
    }
  }

  /** The short paths of load_imm. */
  lemma ShortEmitted(rd: nat, val: int)
    requires FitsSigned(64, val) && rd < 32
    ensures var one, slli := Addi(rd, 0, 1), Slli(rd, rd, TrailingZeros(64, Unsigned(64, val)));
            && ValidInst(one) && Code(rd, val) == (
                 if -2048 <= val <= 2047 then [Addi(rd, 0, val)]
                 else if IsPow2(val) then [one, slli]
                 else RecursiveCode(rd, val))
            && (-2048 <= val <= 2047 ==> ValidInst(Addi(rd, 0, val)))
            && (IsPow2(val) ==> ValidInst(slli))
            && Emitted([one, slli]) == Emitted([one]) + Emitted([slli])
  {
    hide Unsigned, Pow2, TrailingZeros, And, Emitted, RecursiveCode;
    Pow2Values();
    var one, slli := Addi(rd, 0, 1), Slli(rd, rd, TrailingZeros(64, Unsigned(64, val)));
    EmittedAppend([one], [slli]);
    assert [one] + [slli] == [one, slli];
    if IsPow2(val) { PowerOfTwo(Unsigned(64, val), 64); }
  }

  /** load_imm */
  method LoadImmediate(sec: Section, rd: nat, val: int)
    requires FitsSigned(64, val) && rd < 32
    modifies sec
    ensures sec.buf == old(sec.buf) + Emitted(Code(rd, val))
  {
    hide *;
    ShortEmitted(rd, val);
    if -2048 <= val <= 2047 {
      EmitOne(sec, Addi(rd, 0, val));
    } else if IsPow2(val) {
      EmitOne(sec, Addi(rd, 0, 1));
      var count := Ctz(Unsigned(64, val));
      EmitOne(sec, Slli(rd, rd, count));
    } else {
      LoadImmR(sec, rd, val);
    }
  }

  function DisassembleAll(ws: seq<nat>): Option<seq<Inst>> {
    if ws == [] then Some([])
    else match (Disassemble(ws[0]), DisassembleAll(ws[1..]))
      case (Some(i), Some(rest)) => Some([i] + rest)
      case _ => None
  }

  lemma DisassembleCons(w: nat, ws: seq<nat>, i: Inst, code: seq<Inst>)
    requires Disassemble(w) == Some(i) && DisassembleAll(ws) == Some(code)
    ensures DisassembleAll([w] + ws) == Some([i] + code)
  {
    hide Disassemble;
    assert ([w] + ws)[1..] == ws;
  }

  lemma {:induction false} CodeRoundTrip(code: seq<Inst>)
    requires ValidCode(code)
    ensures DisassembleAll(Words(code)) == Some(code)
  {
    hide Word, Disassemble, ValidInst, DisassembleAll;
    if code == [] {
      NothingToDisassemble();
    } else {
      WordRoundTrip(code[0]);
      CodeRoundTrip(code[1..]);
      DisassembleCons(Word(code[0]), Words(code[1..]), code[0], code[1..]);
      assert code == [code[0]] + code[1..];
    }
  }

  lemma NothingToDisassemble()
    ensures DisassembleAll([]) == Some([])
  {}

  lemma {:induction false} WordsWellFormed(code: seq<Inst>)
    requires ValidCode(code)
    ensures forall k :: 0 <= k < |Words(code)| ==> WellFormedInst(Words(code)[k])
  {
    hide Word, Disassemble, ValidInst, WellFormedInst, InstLength;
    if code != [] {
      WordRoundTrip(code[0]);
      WordsWellFormed(code[1..]);
    }
  }

  /** End to end: sweep the bytes that load_imm wrote, disassemble and run them.  The other registers
      are untouched and rd gets the value asked for, less the shortfall of the recursive path. */
  method AssembleAndRun(rd: nat, val: int, x: Regs, after: seq<nat>) returns (y: Regs)
    requires FitsSigned(64, val) && rd < 32 && ValidRegs(x) && |after| >= 8
    ensures Loads(x, y, rd, if -2048 <= val <= 2047 || IsPow2(val) then val else val - Shortfall(val))
  {
    hide Words, Stream, IsPow2, Pow2, Unsigned, Shortfall, Code, WellFormedInst, Run, Loads, Disassemble,
         DisassembleAll, ValidInst;
    CodeLoads(rd, val, x);
    ghost var code := Code(rd, val);
    CodeRoundTrip(code);
    WordsWellFormed(code);
    var sec := new Section();
    LoadImmediate(sec, rd, val);
    assert [] + Stream(Words(code)) == Stream(Words(code));
    var mem := sec.buf + after;
    assert mem[..|sec.buf|] == Stream(Words(code));
    var found := Sweep(mem, Words(code), |sec.buf|);
    y := Run(DisassembleAll(found).value, x);
  }
}
