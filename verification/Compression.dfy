/**
  Compression: compress_inst_rv32, _rv64 and _rv128 (src/asm/codec.h) replace an instruction by a compressed
  one when a list of constraints holds (src/asm/meta.cc, from meta/compression).  For every list, the
  records that survive the compressed encoding are compared with the records that the list accepts.
 */
module Compression {
  import opened Bits
  import opened Operands
  import opened OperandTable
  import opened Codecs
  import opened CodecRoundTrip
  import opened BaseFormats
  import opened Constraints

  /** The rows of the table, but for those that share codecs and constraints with another one: c.flw is like
      c.lw, c.fld like c.ld, c.fsw and c.fsd like c.sw and c.sd, c.fswsp and c.fsdsp like c.swsp and c.sdsp,
      c.srai like c.srli, c.bnez like c.beqz, and c.xor, c.or, c.and, c.subw and c.addw like c.sub. */
  datatype Rvc =
    | C_ADDI4SPN | C_LW | C_LD | C_LQ | C_SW | C_SD | C_SQ | C_NOP | C_ADDI | C_ADDIW | C_LI | C_LUI
    | C_ADDI16SP | C_SRLI32 | C_SRLI64 | C_SLLI32 | C_SLLI64 | C_ANDI | C_SUB | C_ADD | C_MV | C_JR | C_JALR
    | C_J | C_JAL | C_BEQZ | C_EBREAK | C_LWSP | C_FLWSP | C_LDSP | C_FLDSP | C_LQSP | C_SWSP | C_SDSP
    | C_SQSP

  /** The codec of the instruction, the codec of the compressed instruction, and the constraints. */
  datatype Compressed = Compressed(base: Format, codec: Format, constraints: seq<Constraint>)

  function RowOf(c: Rvc): Compressed {
    match c
    case C_ADDI4SPN => Compressed(I, CIW_4SPN, [Imm10, ImmX4, ImmNz, RdB3, Rs1EqSp])
    case C_LW => Compressed(I, CL_LW, [Imm7, ImmX4, RdB3, Rs1B3])
    case C_LD => Compressed(I, CL_LD, [Imm8, ImmX8, RdB3, Rs1B3])
    case C_LQ => Compressed(I, CL_LQ, [Imm9, ImmX16])
    case C_SW => Compressed(Codecs.S, CS_SW, [Imm7, ImmX4, Rs1B3, Rs2B3])
    case C_SD => Compressed(Codecs.S, CS_SD, [Imm8, ImmX8, Rs1B3, Rs2B3])
    case C_SQ => Compressed(Codecs.S, CS_SQ, [Imm9, ImmX16])
    case C_NOP => Compressed(I, CI_NONE, [RdEqX0, Rs1EqX0, Rs2EqX0])
    case C_ADDI => Compressed(I, CI, [Simm6, RdNeX0, RdEqRs1])
    case C_ADDIW => Compressed(I, CI, [Imm6, RdNeX0, RdEqRs1])
    case C_LI => Compressed(I, CI_LI, [Imm6, RdNeX0, Rs1EqX0])
    case C_LUI => Compressed(U, CI_LUI, [Imm18, ImmNz, RdNeX0X2])
    case C_ADDI16SP => Compressed(I, CI_16SP, [Imm10, ImmX4, ImmNz, RdEqSp, Rs1EqSp])
    case C_SRLI32 => Compressed(I_SH5, CB_SH5, [ImmNz, RdEqRs1, RdB3, Rs1B3])
    case C_SRLI64 => Compressed(I_SH6, CB_SH6, [ImmNz, RdEqRs1, RdB3, Rs1B3])
    case C_SLLI32 => Compressed(I_SH5, CI_SH5, [ImmNz, RdNeX0, RdEqRs1])
    case C_SLLI64 => Compressed(I_SH6, CI_SH6, [ImmNz, RdNeX0, RdEqRs1])
    case C_ANDI => Compressed(I, CB_IMM, [ImmNz, RdEqRs1, RdB3, Rs1B3])
    case C_SUB => Compressed(R, CS, [RdEqRs1, RdB3, Rs1B3, Rs2B3])
    case C_ADD => Compressed(R, CR, [RdEqRs1, RdNeX0, Rs2NeX0])
    case C_MV => Compressed(I, CR_MV, [ImmEqZero, RdNeX0])
    case C_JR => Compressed(I, CR_JR, [RdEqX0, Rs1NeX0])
    case C_JALR => Compressed(I, CR_JALR, [RdEqRa, Rs1NeX0])
    case C_J => Compressed(UJ, CJ, [Imm12, ImmX2, RdEqX0])
    case C_JAL => Compressed(UJ, CJ_JAL, [Imm12, ImmX2, RdEqRa])
    case C_BEQZ => Compressed(SB, CB, [Imm9, ImmX2, Rs1B3, Rs2EqX0])
    case C_EBREAK => Compressed(NONE, CI_NONE, [])
    case C_LWSP => Compressed(I, CI_LWSP, [Imm8, ImmX4, RdNeX0, Rs1EqSp])
    case C_FLWSP => Compressed(I, CI_LWSP, [Imm8, ImmX4, Rs1EqSp])
    case C_LDSP => Compressed(I, CI_LDSP, [Imm9, ImmX8, RdNeX0, Rs1EqSp])
    case C_FLDSP => Compressed(I, CI_LDSP, [Imm9, ImmX8, Rs1EqSp])
    case C_LQSP => Compressed(I, CI_LQSP, [Imm10, ImmX16, Rs1EqSp])
    case C_SWSP => Compressed(Codecs.S, CSS_SWSP, [Imm8, ImmX4, Rs1EqSp])
    case C_SDSP => Compressed(Codecs.S, CSS_SDSP, [Imm9, ImmX8, Rs1EqSp])
    case C_SQSP => Compressed(Codecs.S, CSS_SQSP, [Imm10, ImmX16, Rs1EqSp])
  }

  /** The encoder's asserts hold, and whatever word carries the encoded record is decoded to the record. */
  ghost predicate Survives(f: Format, d: Decoded) {
    && AssertsHold(f.asserts, d)
    && forall w: nat, before: Decoded :: w < Pow2(64) && CarriesRecord(f, w, d) ==>
         Restores(f, DecodeFormat(f, w, before), d)
  }

  /** What the constraints of a row fail to check. */
  predicate Kept(c: Rvc, d: Decoded) {
    match c
    case C_ADDI4SPN | C_LW | C_LD | C_SW | C_SD | C_LWSP | C_FLWSP | C_LDSP | C_FLDSP | C_LQSP | C_SWSP | C_SDSP |
      C_SQSP => 0 <= d.imm
    case C_LQ => 0 <= d.imm && 8 <= d.rd < 16 && 8 <= d.rs1 < 16
    case C_SQ => 0 <= d.imm && 8 <= d.rs1 < 16 && 8 <= d.rs2 < 16
    case C_NOP | C_JR | C_JALR => d.imm == 0
    case C_ADDI | C_SRLI32 | C_SRLI64 | C_SLLI32 | C_SLLI64 | C_ADD | C_MV | C_EBREAK => true
    case C_ADDIW | C_LI | C_ANDI => -32 <= d.imm < 32
    case C_LUI => -0x2_0000 <= d.imm < 0x2_0000
    case C_ADDI16SP => -512 <= d.imm < 512 && d.imm % 16 == 0
    case C_SUB => d.rs2 == d.rd
    case C_J | C_JAL => -2048 <= d.imm < 2048
    case C_BEQZ => -256 <= d.imm < 256
  }

  /** Records that survive and that the constraints refuse, because the code point is a hint, reserved or
      another instruction. */
  predicate Excluded(c: Rvc, d: Decoded) {
    match c
    case C_ADDI4SPN | C_ADDI16SP | C_SRLI32 | C_SRLI64 | C_ANDI => d.imm == 0
    case C_LW | C_LD | C_LQ | C_SW | C_SD | C_SQ | C_NOP | C_SUB | C_J | C_JAL | C_BEQZ | C_EBREAK | C_FLWSP |
      C_FLDSP | C_LQSP | C_SWSP | C_SDSP | C_SQSP => false
    case C_ADDI | C_ADDIW | C_LI | C_MV | C_LWSP | C_LDSP => d.rd == 0
    case C_LUI => d.imm == 0 || d.rd == 0 || d.rd == 2
    case C_SLLI32 | C_SLLI64 => d.imm == 0 || d.rd == 0
    case C_ADD => d.rd == 0 || d.rs2 == 0
    case C_JR | C_JALR => d.rs1 == 0
  }

  // ---------------------------------------------------------------------------------------------
  // Records that survive

  lemma SurvivesWhen(f: Format, d: Decoded)
    requires FormatOk(f)
    ensures Survives(f, d) <==> AssertsHold(f.asserts, d) && InRange(f, d)
  {
    hide FormatOk, AssertsHold, CarriesRecord, Restores, InRange, DecodeFormat, EncodeFormat, Pow2;
    if AssertsHold(f.asserts, d) {
      var w := EncodeFormat(f, d);
      OwnWord(f, d);
      FormatRoundTrip(f, w, d, LOW);
      if InRange(f, d) {
        forall w: nat, before: Decoded | w < Pow2(64) && CarriesRecord(f, w, d)
          ensures Restores(f, DecodeFormat(f, w, before), d)
        {
          FormatRoundTrip(f, w, d, before);
        }
      }
    }
  }

  /** CS restores rs2 only if it is rd. */
  lemma CsSurvivesWhen(d: Decoded)
    ensures Survives(CS, d) <==> AssertsHold(CS.asserts, d) && InRange(CS, d) && d.rs2 == d.rd
  {
    hide AssertsHold, CarriesRecord, Restores, InRange, DecodeFormat, EncodeFormat, Pow2, CS;
    if AssertsHold(CS.asserts, d) {
      var w := EncodeFormat(CS, d);
      OwnWord(CS, d);
      CsRoundTrip(w, d, LOW);
      if InRange(CS, d) && d.rs2 == d.rd {
        forall w: nat, before: Decoded | w < Pow2(64) && CarriesRecord(CS, w, d)
          ensures Restores(CS, DecodeFormat(CS, w, before), d)
        {
          CsRoundTrip(w, d, before);
        }
      }
    }
  }

  /** The encoding itself carries the record. */
  lemma OwnWord(f: Format, d: Decoded)
    ensures EncodeFormat(f, d) < Pow2(64) && CarriesRecord(f, EncodeFormat(f, d), d)
  {
    hide Pow2, EncodeSlots, Strips, Spec, Bit, InstBit;
    EncodingBound(f.encoder, d);
  }

  lemma FourInRange(f: Format, d: Decoded)
    requires |f.decoder| == 4
    ensures InRange(f, d) <==>
      && FieldInRange(f.decoder[0], d) && FieldInRange(f.decoder[1], d)
      && FieldInRange(f.decoder[2], d) && FieldInRange(f.decoder[3], d)
  {
    hide FieldInRange;
  }

  lemma Asserts0(f: Format, d: Decoded)
    requires |f.asserts| == 0
    ensures AssertsHold(f.asserts, d)
  {}

  lemma Asserts1(f: Format, d: Decoded)
    requires |f.asserts| == 1
    ensures AssertsHold(f.asserts, d) <==> Holds1(f.asserts[0], d)
  {
    hide Holds1;
  }

  lemma Asserts2(f: Format, d: Decoded)
    requires |f.asserts| == 2
    ensures AssertsHold(f.asserts, d) <==> Holds1(f.asserts[0], d) && Holds1(f.asserts[1], d)
  {
    hide Holds1;
  }

  lemma Asserts3(f: Format, d: Decoded)
    requires |f.asserts| == 3
    ensures AssertsHold(f.asserts, d)
       <==> Holds1(f.asserts[0], d) && Holds1(f.asserts[1], d) && Holds1(f.asserts[2], d)
  {
    hide Holds1;
  }

  lemma Meets0(cs: seq<Constraint>, d: Decoded)
    requires |cs| == 0
    ensures MeetsAll(cs, d)
  {}

  lemma Meets2(cs: seq<Constraint>, d: Decoded)
    requires |cs| == 2
    ensures MeetsAll(cs, d) <==> Meets(cs[0], d) && Meets(cs[1], d)
  {
    hide Meets;
  }

  lemma Meets3(cs: seq<Constraint>, d: Decoded)
    requires |cs| == 3
    ensures MeetsAll(cs, d) <==> Meets(cs[0], d) && Meets(cs[1], d) && Meets(cs[2], d)
  {
    hide Meets;
  }

  lemma Meets4(cs: seq<Constraint>, d: Decoded)
    requires |cs| == 4
    ensures MeetsAll(cs, d) <==> Meets(cs[0], d) && Meets(cs[1], d) && Meets(cs[2], d) && Meets(cs[3], d)
  {
    hide Meets;
  }

  lemma Meets5(cs: seq<Constraint>, d: Decoded)
    requires |cs| == 5
    ensures MeetsAll(cs, d)
       <==> Meets(cs[0], d) && Meets(cs[1], d) && Meets(cs[2], d) && Meets(cs[3], d) && Meets(cs[4], d)
  {
    hide Meets;
  }

  // ---------------------------------------------------------------------------------------------
  // Ranges of the operands

  lemma MorePowers()
    ensures Pow2(0) == 1 && Pow2(9) == 0x200 && Pow2(10) == 0x400 && Pow2(17) == 0x2_0000 && Pow2(18) == 0x4_0000
  {
    hide Pow2;
    Pow2Values();
    Pow2Add(1, 8);
    Pow2Add(2, 8);
    Pow2Add(1, 16);
    Pow2Add(2, 16);
    NoPower();
  }

  lemma NoPower()
    ensures Pow2(0) == 1
  {}

  /** An operand of all bits from `low` up represents the multiples of 2^low in its range. */
  lemma RangeIs(name: OperandName, op: Operand, low: nat, v: int)
    requires Spec(name) == op && 0 < op.width && low <= op.width
    requires forall b: nat :: ImmBit(Strips(op.segments), b) <==> low <= b < op.width
    ensures Fits(name, v) <==>
      (if op.signed then FitsSigned(op.width, v) else 0 <= v < Pow2(op.width)) && v % Pow2(low) == 0
  {
    hide Fits, Spec, Strips, Pow2, Unsigned, ImmBit;
    FitsWhen(name, op, low, v);
    DivMod(v, low);
  }

  lemma RdRange(v: int)
    ensures Fits(OpCrs1rd, v) <==> 0 <= v < 0x20
    ensures Fits(OpCrd, v) <==> 0 <= v < 0x20
    ensures Fits(OpCrs1, v) <==> 0 <= v < 0x20
  {
    hide Fits, Spec, Strips, WellFormed, Pow2, Unsigned;
    RunsWellFormed(); Pow2Values(); MorePowers();
    var s := Strips(RD.segments);
    assert s[0] == Strip(7, 0, 5);
    forall b: nat ensures ImmBit(s, b) <==> 0 <= b < 5 {}
    SpecIs(OpCrs1rd); RangeIs(OpCrs1rd, RD, 0, v);
    SpecIs(OpCrd); RangeIs(OpCrd, RD, 0, v);
    SpecIs(OpCrs1); RangeIs(OpCrs1, RD, 0, v);
  }

  lemma Rs2Range(v: int)
    ensures Fits(OpShamt5, v) <==> 0 <= v < 0x20
  {
    hide Fits, Spec, Strips, WellFormed, Pow2, Unsigned;
    RunsWellFormed(); Pow2Values(); MorePowers();
    var s := Strips(RS2.segments);
    assert s[0] == Strip(20, 0, 5);
    forall b: nat ensures ImmBit(s, b) <==> 0 <= b < 5 {}
    SpecIs(OpShamt5); RangeIs(OpShamt5, RS2, 0, v);
  }

  lemma Shamt6Range(v: int)
    ensures Fits(OpShamt6, v) <==> 0 <= v < 0x40
  {
    hide Fits, Spec, Strips, WellFormed, Pow2, Unsigned;
    RunsWellFormed(); Pow2Values(); MorePowers();
    var s := Strips(SHAMT6.segments);
    assert s[0] == Strip(20, 0, 6);
    forall b: nat ensures ImmBit(s, b) <==> 0 <= b < 6 {}
    SpecIs(OpShamt6); RangeIs(OpShamt6, SHAMT6, 0, v);
  }

  lemma Crs2Range(v: int)
    ensures Fits(OpCimmsh5, v) <==> 0 <= v < 0x20
    ensures Fits(OpCrs2, v) <==> 0 <= v < 0x20
  {
    hide Fits, Spec, Strips, WellFormed, Pow2, Unsigned;
    RunsWellFormed(); Pow2Values(); MorePowers();
    var s := Strips(CRS2.segments);
    assert s[0] == Strip(2, 0, 5);
    forall b: nat ensures ImmBit(s, b) <==> 0 <= b < 5 {}
    SpecIs(OpCimmsh5); RangeIs(OpCimmsh5, CRS2, 0, v);
    SpecIs(OpCrs2); RangeIs(OpCrs2, CRS2, 0, v);
  }

  lemma Cimmsh6Range(v: int)
    ensures Fits(OpCimmsh6, v) <==> 0 <= v < 0x40
  {
    hide Fits, Spec, Strips, WellFormed, Pow2, Unsigned;
    Cimmsh6Wiring(); Pow2Values(); MorePowers();
    var s := Strips(CIMMSH6.segments);
    assert s[0] == Strip(12, 5, 1) && s[1] == Strip(2, 0, 5);
    forall b: nat ensures ImmBit(s, b) <==> 0 <= b < 6 {}
    SpecIs(OpCimmsh6); RangeIs(OpCimmsh6, CIMMSH6, 0, v);
  }

  lemma CimmiRange(v: int)
    ensures Fits(OpCimmi, v) <==> -0x20 <= v < 0x20
  {
    hide Fits, Spec, Strips, WellFormed, Pow2, Unsigned;
    CimmiWiring(); Pow2Values(); MorePowers();
    var s := Strips(CIMMI.segments);
    assert s[0] == Strip(12, 5, 1) && s[1] == Strip(2, 0, 5);
    forall b: nat ensures ImmBit(s, b) <==> 0 <= b < 6 {}
    SpecIs(OpCimmi); RangeIs(OpCimmi, CIMMI, 0, v);
  }

  lemma CimmuiRange(v: int)
    ensures Fits(OpCimmui, v) <==> -0x20000 <= v < 0x20000 && v % 4096 == 0
  {
    hide Fits, Spec, Strips, WellFormed, Pow2, Unsigned;
    CimmuiWiring(); Pow2Values(); MorePowers();
    var s := Strips(CIMMUI.segments);
    assert s[0] == Strip(12, 17, 1) && s[1] == Strip(2, 12, 5);
    forall b: nat ensures ImmBit(s, b) <==> 12 <= b < 18 {}
    SpecIs(OpCimmui); RangeIs(OpCimmui, CIMMUI, 12, v);
  }

  lemma CimmlwspRange(v: int)
    ensures Fits(OpCimmlwsp, v) <==> 0 <= v < 0x100 && v % 4 == 0
  {
    hide Fits, Spec, Strips, WellFormed, Pow2, Unsigned;
    CimmlwspWiring(); Pow2Values(); MorePowers();
    var s := Strips(CIMMLWSP.segments);
    assert s[0] == Strip(12, 5, 1) && s[1] == Strip(4, 2, 3) && s[2] == Strip(2, 6, 2);
    forall b: nat ensures ImmBit(s, b) <==> 2 <= b < 8 {}
    SpecIs(OpCimmlwsp); RangeIs(OpCimmlwsp, CIMMLWSP, 2, v);
  }

  lemma CimmldspRange(v: int)
    ensures Fits(OpCimmldsp, v) <==> 0 <= v < 0x200 && v % 8 == 0
  {
    hide Fits, Spec, Strips, WellFormed, Pow2, Unsigned;
    CimmldspWiring(); Pow2Values(); MorePowers();
    var s := Strips(CIMMLDSP.segments);
    assert s[0] == Strip(12, 5, 1) && s[1] == Strip(5, 3, 2) && s[2] == Strip(2, 6, 3);
    forall b: nat ensures ImmBit(s, b) <==> 3 <= b < 9 {}
    SpecIs(OpCimmldsp); RangeIs(OpCimmldsp, CIMMLDSP, 3, v);
  }

  lemma CimmlqspRange(v: int)
    ensures Fits(OpCimmlqsp, v) <==> 0 <= v < 0x400 && v % 16 == 0
  {
    hide Fits, Spec, Strips, WellFormed, Pow2, Unsigned;
    CimmlqspWiring(); Pow2Values(); MorePowers();
    var s := Strips(CIMMLQSP.segments);
    assert s[0] == Strip(12, 5, 1) && s[1] == Strip(6, 4, 1) && s[2] == Strip(2, 6, 4);
    forall b: nat ensures ImmBit(s, b) <==> 4 <= b < 10 {}
    SpecIs(OpCimmlqsp); RangeIs(OpCimmlqsp, CIMMLQSP, 4, v);
  }

  lemma Cimm16spRange(v: int)
    ensures Fits(OpCimm16sp, v) <==> -0x200 <= v < 0x200 && v % 16 == 0
  {
    hide Fits, Spec, Strips, WellFormed, Pow2, Unsigned;
    Cimm16spWiring(); Pow2Values(); MorePowers();
    var s := Strips(CIMM16SP.segments);
    assert s[0] == Strip(12, 9, 1) && s[1] == Strip(6, 4, 1) && s[2] == Strip(5, 6, 1) && s[3] == Strip(3, 7, 2) &&
      s[4] == Strip(2, 5, 1);
    forall b: nat ensures ImmBit(s, b) <==> 4 <= b < 10 {}
    SpecIs(OpCimm16sp); RangeIs(OpCimm16sp, CIMM16SP, 4, v);
  }

  lemma CimmjRange(v: int)
    ensures Fits(OpCimmj, v) <==> -0x800 <= v < 0x800 && v % 2 == 0
  {
    hide Fits, Spec, Strips, WellFormed, Pow2, Unsigned;
    CimmjWiring(); Pow2Values(); MorePowers();
    var s := Strips(CIMMJ.segments);
    assert s[0] == Strip(12, 11, 1) && s[1] == Strip(11, 4, 1) && s[2] == Strip(9, 8, 2) &&
      s[3] == Strip(8, 10, 1) && s[4] == Strip(7, 6, 1) && s[5] == Strip(6, 7, 1) && s[6] == Strip(3, 1, 3) &&
      s[7] == Strip(2, 5, 1);
    forall b: nat ensures ImmBit(s, b) <==> 1 <= b < 12 {}
    SpecIs(OpCimmj); RangeIs(OpCimmj, CIMMJ, 1, v);
  }

  lemma CimmbRange(v: int)
    ensures Fits(OpCimmb, v) <==> -0x100 <= v < 0x100 && v % 2 == 0
  {
    hide Fits, Spec, Strips, WellFormed, Pow2, Unsigned;
    CimmbWiring(); Pow2Values(); MorePowers();
    var s := Strips(CIMMB.segments);
    assert s[0] == Strip(12, 8, 1) && s[1] == Strip(10, 3, 2) && s[2] == Strip(5, 6, 2) &&
      s[3] == Strip(3, 1, 2) && s[4] == Strip(2, 5, 1);
    forall b: nat ensures ImmBit(s, b) <==> 1 <= b < 9 {}
    SpecIs(OpCimmb); RangeIs(OpCimmb, CIMMB, 1, v);
  }

  lemma CimmswspRange(v: int)
    ensures Fits(OpCimmswsp, v) <==> 0 <= v < 0x100 && v % 4 == 0
  {
    hide Fits, Spec, Strips, WellFormed, Pow2, Unsigned;
    CimmswspWiring(); Pow2Values(); MorePowers();
    var s := Strips(CIMMSWSP.segments);
    assert s[0] == Strip(9, 2, 4) && s[1] == Strip(7, 6, 2);
    forall b: nat ensures ImmBit(s, b) <==> 2 <= b < 8 {}
    SpecIs(OpCimmswsp); RangeIs(OpCimmswsp, CIMMSWSP, 2, v);
  }

  lemma CimmsdspRange(v: int)
    ensures Fits(OpCimmsdsp, v) <==> 0 <= v < 0x200 && v % 8 == 0
  {
    hide Fits, Spec, Strips, WellFormed, Pow2, Unsigned;
    CimmsdspWiring(); Pow2Values(); MorePowers();
    var s := Strips(CIMMSDSP.segments);
    assert s[0] == Strip(10, 3, 3) && s[1] == Strip(7, 6, 3);
    forall b: nat ensures ImmBit(s, b) <==> 3 <= b < 9 {}
    SpecIs(OpCimmsdsp); RangeIs(OpCimmsdsp, CIMMSDSP, 3, v);
  }

  lemma CimmsqspRange(v: int)
    ensures Fits(OpCimmsqsp, v) <==> 0 <= v < 0x400 && v % 16 == 0
  {
    hide Fits, Spec, Strips, WellFormed, Pow2, Unsigned;
    CimmsqspWiring(); Pow2Values(); MorePowers();
    var s := Strips(CIMMSQSP.segments);
    assert s[0] == Strip(11, 4, 2) && s[1] == Strip(7, 6, 4);
    forall b: nat ensures ImmBit(s, b) <==> 4 <= b < 10 {}
    SpecIs(OpCimmsqsp); RangeIs(OpCimmsqsp, CIMMSQSP, 4, v);
  }

  lemma Cimm4spnRange(v: int)
    ensures Fits(OpCimm4spn, v) <==> 0 <= v < 0x400 && v % 4 == 0
  {
    hide Fits, Spec, Strips, WellFormed, Pow2, Unsigned;
    Cimm4spnWiring(); Pow2Values(); MorePowers();
    var s := Strips(CIMM4SPN.segments);
    assert s[0] == Strip(11, 4, 2) && s[1] == Strip(7, 6, 4) && s[2] == Strip(6, 2, 1) && s[3] == Strip(5, 3, 1);
    forall b: nat ensures ImmBit(s, b) <==> 2 <= b < 10 {}
    SpecIs(OpCimm4spn); RangeIs(OpCimm4spn, CIMM4SPN, 2, v);
  }

  lemma CimmwRange(v: int)
    ensures Fits(OpCimmw, v) <==> 0 <= v < 0x80 && v % 4 == 0
  {
    hide Fits, Spec, Strips, WellFormed, Pow2, Unsigned;
    CimmwWiring(); Pow2Values(); MorePowers();
    var s := Strips(CIMMW.segments);
    assert s[0] == Strip(10, 3, 3) && s[1] == Strip(6, 2, 1) && s[2] == Strip(5, 6, 1);
    forall b: nat ensures ImmBit(s, b) <==> 2 <= b < 7 {}
    SpecIs(OpCimmw); RangeIs(OpCimmw, CIMMW, 2, v);
  }

  lemma CimmdRange(v: int)
    ensures Fits(OpCimmd, v) <==> 0 <= v < 0x100 && v % 8 == 0
  {
    hide Fits, Spec, Strips, WellFormed, Pow2, Unsigned;
    CimmdWiring(); Pow2Values(); MorePowers();
    var s := Strips(CIMMD.segments);
    assert s[0] == Strip(10, 3, 3) && s[1] == Strip(5, 6, 2);
    forall b: nat ensures ImmBit(s, b) <==> 3 <= b < 8 {}
    SpecIs(OpCimmd); RangeIs(OpCimmd, CIMMD, 3, v);
  }

  lemma CimmqRange(v: int)
    ensures Fits(OpCimmq, v) <==> 0 <= v < 0x200 && v % 16 == 0
  {
    hide Fits, Spec, Strips, WellFormed, Pow2, Unsigned;
    CimmqWiring(); Pow2Values(); MorePowers();
    var s := Strips(CIMMQ.segments);
    assert s[0] == Strip(11, 4, 2) && s[1] == Strip(10, 8, 1) && s[2] == Strip(5, 6, 2);
    forall b: nat ensures ImmBit(s, b) <==> 4 <= b < 9 {}
    SpecIs(OpCimmq); RangeIs(OpCimmq, CIMMQ, 4, v);
  }

  lemma Sixteen(v: int)
    ensures v % 16 == 0 ==> v % 4 == 0
  {}

  // ---------------------------------------------------------------------------------------------
  // The rows

  lemma RowAddi4spn(d: Decoded)
    requires InRange(I, d)
    ensures MeetsAll([Imm10, ImmX4, ImmNz, RdB3, Rs1EqSp], d) ==> (Survives(CIW_4SPN, d) <==> 0 <= d.imm)
    ensures Survives(CIW_4SPN, d) && d.imm != 0 ==> MeetsAll([Imm10, ImmX4, ImmNz, RdB3, Rs1EqSp], d)
  {
    hide Fits, Survives, MeetsAll, InRange, AssertsHold, FormatOk, Pow2, Unsigned;
    Ciw4spnFormat(); SurvivesWhen(CIW_4SPN, d);
    FourInRange(I, d); FourInRange(CIW_4SPN, d); Asserts1(CIW_4SPN, d);
    RegisterRange(d.rd); RegisterRange(d.rs1); ImmediateRange(d.imm); CompactFits(OpCrdq, d.rd - 8);
    Cimm4spnRange(d.imm);
    Meets5([Imm10, ImmX4, ImmNz, RdB3, Rs1EqSp], d);
  }

  lemma RowLw(d: Decoded)
    requires InRange(I, d)
    ensures MeetsAll([Imm7, ImmX4, RdB3, Rs1B3], d) ==> (Survives(CL_LW, d) <==> 0 <= d.imm)
    ensures Survives(CL_LW, d) ==> MeetsAll([Imm7, ImmX4, RdB3, Rs1B3], d)
  {
    hide Fits, Survives, MeetsAll, InRange, AssertsHold, FormatOk, Pow2, Unsigned;
    ClLwFormat(); SurvivesWhen(CL_LW, d);
    FourInRange(I, d); FourInRange(CL_LW, d); Asserts0(CL_LW, d);
    RegisterRange(d.rd); RegisterRange(d.rs1); ImmediateRange(d.imm); CompactFits(OpCrdq, d.rd - 8);
    CompactFits(OpCrs1q, d.rs1 - 8); CimmwRange(d.imm);
    Meets4([Imm7, ImmX4, RdB3, Rs1B3], d);
  }

  lemma RowLd(d: Decoded)
    requires InRange(I, d)
    ensures MeetsAll([Imm8, ImmX8, RdB3, Rs1B3], d) ==> (Survives(CL_LD, d) <==> 0 <= d.imm)
    ensures Survives(CL_LD, d) ==> MeetsAll([Imm8, ImmX8, RdB3, Rs1B3], d)
  {
    hide Fits, Survives, MeetsAll, InRange, AssertsHold, FormatOk, Pow2, Unsigned;
    ClLdFormat(); SurvivesWhen(CL_LD, d);
    FourInRange(I, d); FourInRange(CL_LD, d); Asserts0(CL_LD, d);
    RegisterRange(d.rd); RegisterRange(d.rs1); ImmediateRange(d.imm); CompactFits(OpCrdq, d.rd - 8);
    CompactFits(OpCrs1q, d.rs1 - 8); CimmdRange(d.imm);
    Meets4([Imm8, ImmX8, RdB3, Rs1B3], d);
  }

  lemma RowLq(d: Decoded)
    requires InRange(I, d)
    ensures MeetsAll([Imm9, ImmX16], d) ==> (Survives(CL_LQ, d) <==> 0 <= d.imm && 8 <= d.rd < 16 && 8 <= d.rs1 < 16)
    ensures Survives(CL_LQ, d) ==> MeetsAll([Imm9, ImmX16], d)
  {
    hide Fits, Survives, MeetsAll, InRange, AssertsHold, FormatOk, Pow2, Unsigned;
    ClLqFormat(); SurvivesWhen(CL_LQ, d);
    FourInRange(I, d); FourInRange(CL_LQ, d); Asserts0(CL_LQ, d);
    RegisterRange(d.rd); RegisterRange(d.rs1); ImmediateRange(d.imm); CompactFits(OpCrdq, d.rd - 8);
    CompactFits(OpCrs1q, d.rs1 - 8); CimmqRange(d.imm);
    Meets2([Imm9, ImmX16], d);
  }

  lemma RowSw(d: Decoded)
    requires InRange(Codecs.S, d)
    ensures MeetsAll([Imm7, ImmX4, Rs1B3, Rs2B3], d) ==> (Survives(CS_SW, d) <==> 0 <= d.imm)
    ensures Survives(CS_SW, d) ==> MeetsAll([Imm7, ImmX4, Rs1B3, Rs2B3], d)
  {
    hide Fits, Survives, MeetsAll, InRange, AssertsHold, FormatOk, Pow2, Unsigned;
    CsSwFormat(); SurvivesWhen(CS_SW, d);
    FourInRange(Codecs.S, d); FourInRange(CS_SW, d); Asserts0(CS_SW, d);
    RegisterRange(d.rs1); RegisterRange(d.rs2); StoreRange(d.imm); CompactFits(OpCrs1q, d.rs1 - 8);
    CompactFits(OpCrs2q, d.rs2 - 8); CimmwRange(d.imm);
    Meets4([Imm7, ImmX4, Rs1B3, Rs2B3], d);
  }

  lemma RowSd(d: Decoded)
    requires InRange(Codecs.S, d)
    ensures MeetsAll([Imm8, ImmX8, Rs1B3, Rs2B3], d) ==> (Survives(CS_SD, d) <==> 0 <= d.imm)
    ensures Survives(CS_SD, d) ==> MeetsAll([Imm8, ImmX8, Rs1B3, Rs2B3], d)
  {
    hide Fits, Survives, MeetsAll, InRange, AssertsHold, FormatOk, Pow2, Unsigned;
    CsSdFormat(); SurvivesWhen(CS_SD, d);
    FourInRange(Codecs.S, d); FourInRange(CS_SD, d); Asserts0(CS_SD, d);
    RegisterRange(d.rs1); RegisterRange(d.rs2); StoreRange(d.imm); CompactFits(OpCrs1q, d.rs1 - 8);
    CompactFits(OpCrs2q, d.rs2 - 8); CimmdRange(d.imm);
    Meets4([Imm8, ImmX8, Rs1B3, Rs2B3], d);
  }

  lemma RowSq(d: Decoded)
    requires InRange(Codecs.S, d)
    ensures MeetsAll([Imm9, ImmX16], d) ==> (Survives(CS_SQ, d) <==> 0 <= d.imm && 8 <= d.rs1 < 16 && 8 <= d.rs2 < 16)
    ensures Survives(CS_SQ, d) ==> MeetsAll([Imm9, ImmX16], d)
  {
    hide Fits, Survives, MeetsAll, InRange, AssertsHold, FormatOk, Pow2, Unsigned;
    CsSqFormat(); SurvivesWhen(CS_SQ, d);
    FourInRange(Codecs.S, d); FourInRange(CS_SQ, d); Asserts0(CS_SQ, d);
    RegisterRange(d.rs1); RegisterRange(d.rs2); StoreRange(d.imm); CompactFits(OpCrs1q, d.rs1 - 8);
    CompactFits(OpCrs2q, d.rs2 - 8); CimmqRange(d.imm);
    Meets2([Imm9, ImmX16], d);
  }

  lemma RowNop(d: Decoded)
    requires InRange(I, d)
    ensures MeetsAll([RdEqX0, Rs1EqX0, Rs2EqX0], d) ==> (Survives(CI_NONE, d) <==> d.imm == 0)
    ensures Survives(CI_NONE, d) ==> MeetsAll([RdEqX0, Rs1EqX0, Rs2EqX0], d)
  {
    hide Fits, Survives, MeetsAll, InRange, AssertsHold, FormatOk, Pow2, Unsigned;
    CiNoneFormat(); SurvivesWhen(CI_NONE, d);
    FourInRange(I, d); FourInRange(CI_NONE, d); Asserts3(CI_NONE, d);
    RegisterRange(d.rd); RegisterRange(d.rs1); ImmediateRange(d.imm);
    Meets3([RdEqX0, Rs1EqX0, Rs2EqX0], d);
  }

  lemma RowAddi(d: Decoded)
    requires InRange(I, d)
    ensures MeetsAll([Simm6, RdNeX0, RdEqRs1], d) ==> Survives(CI, d)
    ensures Survives(CI, d) && d.rd != 0 ==> MeetsAll([Simm6, RdNeX0, RdEqRs1], d)
  {
    hide Fits, Survives, MeetsAll, InRange, AssertsHold, FormatOk, Pow2, Unsigned;
    CiFormat(); SurvivesWhen(CI, d);
    FourInRange(I, d); FourInRange(CI, d); Asserts1(CI, d);
    RegisterRange(d.rd); RegisterRange(d.rs1); ImmediateRange(d.imm); RdRange(d.rd); RdRange(d.rs1);
    CimmiRange(d.imm);
    Meets3([Simm6, RdNeX0, RdEqRs1], d);
  }

  lemma RowAddiw(d: Decoded)
    requires InRange(I, d)
    ensures MeetsAll([Imm6, RdNeX0, RdEqRs1], d) ==> (Survives(CI, d) <==> -32 <= d.imm < 32)
    ensures Survives(CI, d) && d.rd != 0 ==> MeetsAll([Imm6, RdNeX0, RdEqRs1], d)
  {
    hide Fits, Survives, MeetsAll, InRange, AssertsHold, FormatOk, Pow2, Unsigned;
    CiFormat(); SurvivesWhen(CI, d);
    FourInRange(I, d); FourInRange(CI, d); Asserts1(CI, d);
    RegisterRange(d.rd); RegisterRange(d.rs1); ImmediateRange(d.imm); RdRange(d.rd); RdRange(d.rs1);
    CimmiRange(d.imm);
    Meets3([Imm6, RdNeX0, RdEqRs1], d);
  }

  lemma RowLi(d: Decoded)
    requires InRange(I, d)
    ensures MeetsAll([Imm6, RdNeX0, Rs1EqX0], d) ==> (Survives(CI_LI, d) <==> -32 <= d.imm < 32)
    ensures Survives(CI_LI, d) && d.rd != 0 ==> MeetsAll([Imm6, RdNeX0, Rs1EqX0], d)
  {
    hide Fits, Survives, MeetsAll, InRange, AssertsHold, FormatOk, Pow2, Unsigned;
    CiLiFormat(); SurvivesWhen(CI_LI, d);
    FourInRange(I, d); FourInRange(CI_LI, d); Asserts1(CI_LI, d);
    RegisterRange(d.rd); RegisterRange(d.rs1); ImmediateRange(d.imm); RdRange(d.rd); CimmiRange(d.imm);
    Meets3([Imm6, RdNeX0, Rs1EqX0], d);
  }

  lemma RowLui(d: Decoded)
    requires InRange(U, d)
    ensures MeetsAll([Imm18, ImmNz, RdNeX0X2], d) ==> (Survives(CI_LUI, d) <==> -0x2_0000 <= d.imm < 0x2_0000)
    ensures Survives(CI_LUI, d) && !(d.imm == 0 || d.rd == 0 || d.rd == 2) ==> MeetsAll([Imm18, ImmNz, RdNeX0X2], d)
  {
    hide Fits, Survives, MeetsAll, InRange, AssertsHold, FormatOk, Pow2, Unsigned;
    CiLuiFormat(); SurvivesWhen(CI_LUI, d);
    FourInRange(U, d); FourInRange(CI_LUI, d); Asserts1(CI_LUI, d);
    Pow2Values(); DivMod(d.imm, 12);
    RegisterRange(d.rd); ImmediateRange(d.imm); RdRange(d.rd); CimmuiRange(d.imm);
    Meets3([Imm18, ImmNz, RdNeX0X2], d);
  }

  lemma RowAddi16sp(d: Decoded)
    requires InRange(I, d)
    ensures MeetsAll([Imm10, ImmX4, ImmNz, RdEqSp, Rs1EqSp], d) ==>
      (Survives(CI_16SP, d) <==> -512 <= d.imm < 512 && d.imm % 16 == 0)
    ensures Survives(CI_16SP, d) && d.imm != 0 ==> MeetsAll([Imm10, ImmX4, ImmNz, RdEqSp, Rs1EqSp], d)
  {
    hide Fits, Survives, MeetsAll, InRange, AssertsHold, FormatOk, Pow2, Unsigned;
    Ci16spFormat(); SurvivesWhen(CI_16SP, d);
    FourInRange(I, d); FourInRange(CI_16SP, d); Asserts2(CI_16SP, d);
    Sixteen(d.imm);
    RegisterRange(d.rd); RegisterRange(d.rs1); ImmediateRange(d.imm); Cimm16spRange(d.imm);
    Meets5([Imm10, ImmX4, ImmNz, RdEqSp, Rs1EqSp], d);
  }

  lemma RowSrli32(d: Decoded)
    requires InRange(I_SH5, d)
    ensures MeetsAll([ImmNz, RdEqRs1, RdB3, Rs1B3], d) ==> Survives(CB_SH5, d)
    ensures Survives(CB_SH5, d) && d.imm != 0 ==> MeetsAll([ImmNz, RdEqRs1, RdB3, Rs1B3], d)
  {
    hide Fits, Survives, MeetsAll, InRange, AssertsHold, FormatOk, Pow2, Unsigned;
    CbSh5Format(); SurvivesWhen(CB_SH5, d);
    FourInRange(I_SH5, d); FourInRange(CB_SH5, d); Asserts1(CB_SH5, d);
    RegisterRange(d.rd); RegisterRange(d.rs1); Rs2Range(d.imm); CompactFits(OpCrs1rdq, d.rd - 8);
    CompactFits(OpCrs1rdq, d.rs1 - 8); Crs2Range(d.imm);
    Meets4([ImmNz, RdEqRs1, RdB3, Rs1B3], d);
  }

  lemma RowSrli64(d: Decoded)
    requires InRange(I_SH6, d)
    ensures MeetsAll([ImmNz, RdEqRs1, RdB3, Rs1B3], d) ==> Survives(CB_SH6, d)
    ensures Survives(CB_SH6, d) && d.imm != 0 ==> MeetsAll([ImmNz, RdEqRs1, RdB3, Rs1B3], d)
  {
    hide Fits, Survives, MeetsAll, InRange, AssertsHold, FormatOk, Pow2, Unsigned;
    CbSh6Format(); SurvivesWhen(CB_SH6, d);
    FourInRange(I_SH6, d); FourInRange(CB_SH6, d); Asserts1(CB_SH6, d);
    RegisterRange(d.rd); RegisterRange(d.rs1); Shamt6Range(d.imm); CompactFits(OpCrs1rdq, d.rd - 8);
    CompactFits(OpCrs1rdq, d.rs1 - 8); Cimmsh6Range(d.imm);
    Meets4([ImmNz, RdEqRs1, RdB3, Rs1B3], d);
  }

  lemma RowSlli32(d: Decoded)
    requires InRange(I_SH5, d)
    ensures MeetsAll([ImmNz, RdNeX0, RdEqRs1], d) ==> Survives(CI_SH5, d)
    ensures Survives(CI_SH5, d) && !(d.imm == 0 || d.rd == 0) ==> MeetsAll([ImmNz, RdNeX0, RdEqRs1], d)
  {
    hide Fits, Survives, MeetsAll, InRange, AssertsHold, FormatOk, Pow2, Unsigned;
    CiSh5Format(); SurvivesWhen(CI_SH5, d);
    FourInRange(I_SH5, d); FourInRange(CI_SH5, d); Asserts1(CI_SH5, d);
    RegisterRange(d.rd); RegisterRange(d.rs1); Rs2Range(d.imm); RdRange(d.rd); RdRange(d.rs1); Crs2Range(d.imm);
    Meets3([ImmNz, RdNeX0, RdEqRs1], d);
  }

  lemma RowSlli64(d: Decoded)
    requires InRange(I_SH6, d)
    ensures MeetsAll([ImmNz, RdNeX0, RdEqRs1], d) ==> Survives(CI_SH6, d)
    ensures Survives(CI_SH6, d) && !(d.imm == 0 || d.rd == 0) ==> MeetsAll([ImmNz, RdNeX0, RdEqRs1], d)
  {
    hide Fits, Survives, MeetsAll, InRange, AssertsHold, FormatOk, Pow2, Unsigned;
    CiSh6Format(); SurvivesWhen(CI_SH6, d);
    FourInRange(I_SH6, d); FourInRange(CI_SH6, d); Asserts1(CI_SH6, d);
    RegisterRange(d.rd); RegisterRange(d.rs1); Shamt6Range(d.imm); RdRange(d.rd); RdRange(d.rs1);
    Cimmsh6Range(d.imm);
    Meets3([ImmNz, RdNeX0, RdEqRs1], d);
  }

  lemma RowAndi(d: Decoded)
    requires InRange(I, d)
    ensures MeetsAll([ImmNz, RdEqRs1, RdB3, Rs1B3], d) ==> (Survives(CB_IMM, d) <==> -32 <= d.imm < 32)
    ensures Survives(CB_IMM, d) && d.imm != 0 ==> MeetsAll([ImmNz, RdEqRs1, RdB3, Rs1B3], d)
  {
    hide Fits, Survives, MeetsAll, InRange, AssertsHold, FormatOk, Pow2, Unsigned;
    CbImmFormat(); SurvivesWhen(CB_IMM, d);
    FourInRange(I, d); FourInRange(CB_IMM, d); Asserts1(CB_IMM, d);
    RegisterRange(d.rd); RegisterRange(d.rs1); ImmediateRange(d.imm); CompactFits(OpCrs1rdq, d.rd - 8);
    CompactFits(OpCrs1rdq, d.rs1 - 8); CimmiRange(d.imm);
    Meets4([ImmNz, RdEqRs1, RdB3, Rs1B3], d);
  }

  lemma RowSub(d: Decoded)
    requires InRange(R, d)
    ensures MeetsAll([RdEqRs1, RdB3, Rs1B3, Rs2B3], d) ==> (Survives(CS, d) <==> d.rs2 == d.rd)
    ensures Survives(CS, d) ==> MeetsAll([RdEqRs1, RdB3, Rs1B3, Rs2B3], d)
  {
    hide Fits, Survives, MeetsAll, InRange, AssertsHold, FormatOk, Pow2, Unsigned;
    CsSurvivesWhen(d);
    FourInRange(R, d); CsInRange(d); Asserts1(CS, d);
    RegisterRange(d.rd); RegisterRange(d.rs1); RegisterRange(d.rs2);
    Meets4([RdEqRs1, RdB3, Rs1B3, Rs2B3], d);
  }

  lemma RowAdd(d: Decoded)
    requires InRange(R, d)
    ensures MeetsAll([RdEqRs1, RdNeX0, Rs2NeX0], d) ==> Survives(CR, d)
    ensures Survives(CR, d) && !(d.rd == 0 || d.rs2 == 0) ==> MeetsAll([RdEqRs1, RdNeX0, Rs2NeX0], d)
  {
    hide Fits, Survives, MeetsAll, InRange, AssertsHold, FormatOk, Pow2, Unsigned;
    CrFormat(); SurvivesWhen(CR, d);
    FourInRange(R, d); FourInRange(CR, d); Asserts1(CR, d);
    RegisterRange(d.rd); RegisterRange(d.rs1); RegisterRange(d.rs2); RdRange(d.rd); RdRange(d.rs1);
    Crs2Range(d.rs2);
    Meets3([RdEqRs1, RdNeX0, Rs2NeX0], d);
  }

  lemma RowMv(d: Decoded)
    requires InRange(I, d)
    ensures MeetsAll([ImmEqZero, RdNeX0], d) ==> Survives(CR_MV, d)
    ensures Survives(CR_MV, d) && d.rd != 0 ==> MeetsAll([ImmEqZero, RdNeX0], d)
  {
    hide Fits, Survives, MeetsAll, InRange, AssertsHold, FormatOk, Pow2, Unsigned;
    CrMvFormat(); SurvivesWhen(CR_MV, d);
    FourInRange(I, d); FourInRange(CR_MV, d); Asserts1(CR_MV, d);
    RegisterRange(d.rd); RegisterRange(d.rs1); ImmediateRange(d.imm); RdRange(d.rd); Crs2Range(d.rs1);
    Meets2([ImmEqZero, RdNeX0], d);
  }

  lemma RowJr(d: Decoded)
    requires InRange(I, d)
    ensures MeetsAll([RdEqX0, Rs1NeX0], d) ==> (Survives(CR_JR, d) <==> d.imm == 0)
    ensures Survives(CR_JR, d) && d.rs1 != 0 ==> MeetsAll([RdEqX0, Rs1NeX0], d)
  {
    hide Fits, Survives, MeetsAll, InRange, AssertsHold, FormatOk, Pow2, Unsigned;
    CrJrFormat(); SurvivesWhen(CR_JR, d);
    FourInRange(I, d); FourInRange(CR_JR, d); Asserts1(CR_JR, d);
    RegisterRange(d.rd); RegisterRange(d.rs1); ImmediateRange(d.imm); RdRange(d.rs1);
    Meets2([RdEqX0, Rs1NeX0], d);
  }

  lemma RowJalr(d: Decoded)
    requires InRange(I, d)
    ensures MeetsAll([RdEqRa, Rs1NeX0], d) ==> (Survives(CR_JALR, d) <==> d.imm == 0)
    ensures Survives(CR_JALR, d) && d.rs1 != 0 ==> MeetsAll([RdEqRa, Rs1NeX0], d)
  {
    hide Fits, Survives, MeetsAll, InRange, AssertsHold, FormatOk, Pow2, Unsigned;
    CrJalrFormat(); SurvivesWhen(CR_JALR, d);
    FourInRange(I, d); FourInRange(CR_JALR, d); Asserts1(CR_JALR, d);
    RegisterRange(d.rd); RegisterRange(d.rs1); ImmediateRange(d.imm); RdRange(d.rs1);
    Meets2([RdEqRa, Rs1NeX0], d);
  }

  lemma RowJ(d: Decoded)
    requires InRange(UJ, d)
    ensures MeetsAll([Imm12, ImmX2, RdEqX0], d) ==> (Survives(CJ, d) <==> -2048 <= d.imm < 2048)
    ensures Survives(CJ, d) ==> MeetsAll([Imm12, ImmX2, RdEqX0], d)
  {
    hide Fits, Survives, MeetsAll, InRange, AssertsHold, FormatOk, Pow2, Unsigned;
    CjFormat(); SurvivesWhen(CJ, d);
    FourInRange(UJ, d); FourInRange(CJ, d); Asserts0(CJ, d);
    RegisterRange(d.rd); JumpRange(d.imm); CimmjRange(d.imm);
    Meets3([Imm12, ImmX2, RdEqX0], d);
  }

  lemma RowJal(d: Decoded)
    requires InRange(UJ, d)
    ensures MeetsAll([Imm12, ImmX2, RdEqRa], d) ==> (Survives(CJ_JAL, d) <==> -2048 <= d.imm < 2048)
    ensures Survives(CJ_JAL, d) ==> MeetsAll([Imm12, ImmX2, RdEqRa], d)
  {
    hide Fits, Survives, MeetsAll, InRange, AssertsHold, FormatOk, Pow2, Unsigned;
    CjJalFormat(); SurvivesWhen(CJ_JAL, d);
    FourInRange(UJ, d); FourInRange(CJ_JAL, d); Asserts0(CJ_JAL, d);
    RegisterRange(d.rd); JumpRange(d.imm); CimmjRange(d.imm);
    Meets3([Imm12, ImmX2, RdEqRa], d);
  }

  lemma RowBeqz(d: Decoded)
    requires InRange(SB, d)
    ensures MeetsAll([Imm9, ImmX2, Rs1B3, Rs2EqX0], d) ==> (Survives(CB, d) <==> -256 <= d.imm < 256)
    ensures Survives(CB, d) ==> MeetsAll([Imm9, ImmX2, Rs1B3, Rs2EqX0], d)
  {
    hide Fits, Survives, MeetsAll, InRange, AssertsHold, FormatOk, Pow2, Unsigned;
    CbFormat(); SurvivesWhen(CB, d);
    FourInRange(SB, d); FourInRange(CB, d); Asserts0(CB, d);
    RegisterRange(d.rs1); RegisterRange(d.rs2); BranchRange(d.imm); CompactFits(OpCrs1q, d.rs1 - 8);
    CimmbRange(d.imm);
    Meets4([Imm9, ImmX2, Rs1B3, Rs2EqX0], d);
  }

  lemma RowEbreak(d: Decoded)
    requires InRange(NONE, d)
    ensures MeetsAll([], d) ==> Survives(CI_NONE, d)
    ensures Survives(CI_NONE, d) ==> MeetsAll([], d)
  {
    hide Fits, Survives, MeetsAll, InRange, AssertsHold, FormatOk, Pow2, Unsigned;
    CiNoneFormat(); SurvivesWhen(CI_NONE, d);
    FourInRange(NONE, d); FourInRange(CI_NONE, d); Asserts3(CI_NONE, d);
    Meets0([], d);
  }

  lemma RowLwsp(d: Decoded)
    requires InRange(I, d)
    ensures MeetsAll([Imm8, ImmX4, RdNeX0, Rs1EqSp], d) ==> (Survives(CI_LWSP, d) <==> 0 <= d.imm)
    ensures Survives(CI_LWSP, d) && d.rd != 0 ==> MeetsAll([Imm8, ImmX4, RdNeX0, Rs1EqSp], d)
  {
    hide Fits, Survives, MeetsAll, InRange, AssertsHold, FormatOk, Pow2, Unsigned;
    CiLwspFormat(); SurvivesWhen(CI_LWSP, d);
    FourInRange(I, d); FourInRange(CI_LWSP, d); Asserts1(CI_LWSP, d);
    RegisterRange(d.rd); RegisterRange(d.rs1); ImmediateRange(d.imm); RdRange(d.rd); CimmlwspRange(d.imm);
    Meets4([Imm8, ImmX4, RdNeX0, Rs1EqSp], d);
  }

  lemma RowFlwsp(d: Decoded)
    requires InRange(I, d)
    ensures MeetsAll([Imm8, ImmX4, Rs1EqSp], d) ==> (Survives(CI_LWSP, d) <==> 0 <= d.imm)
    ensures Survives(CI_LWSP, d) ==> MeetsAll([Imm8, ImmX4, Rs1EqSp], d)
  {
    hide Fits, Survives, MeetsAll, InRange, AssertsHold, FormatOk, Pow2, Unsigned;
    CiLwspFormat(); SurvivesWhen(CI_LWSP, d);
    FourInRange(I, d); FourInRange(CI_LWSP, d); Asserts1(CI_LWSP, d);
    RegisterRange(d.rd); RegisterRange(d.rs1); ImmediateRange(d.imm); RdRange(d.rd); CimmlwspRange(d.imm);
    Meets3([Imm8, ImmX4, Rs1EqSp], d);
  }

  lemma RowLdsp(d: Decoded)
    requires InRange(I, d)
    ensures MeetsAll([Imm9, ImmX8, RdNeX0, Rs1EqSp], d) ==> (Survives(CI_LDSP, d) <==> 0 <= d.imm)
    ensures Survives(CI_LDSP, d) && d.rd != 0 ==> MeetsAll([Imm9, ImmX8, RdNeX0, Rs1EqSp], d)
  {
    hide Fits, Survives, MeetsAll, InRange, AssertsHold, FormatOk, Pow2, Unsigned;
    CiLdspFormat(); SurvivesWhen(CI_LDSP, d);
    FourInRange(I, d); FourInRange(CI_LDSP, d); Asserts1(CI_LDSP, d);
    RegisterRange(d.rd); RegisterRange(d.rs1); ImmediateRange(d.imm); RdRange(d.rd); CimmldspRange(d.imm);
    Meets4([Imm9, ImmX8, RdNeX0, Rs1EqSp], d);
  }

  lemma RowFldsp(d: Decoded)
    requires InRange(I, d)
    ensures MeetsAll([Imm9, ImmX8, Rs1EqSp], d) ==> (Survives(CI_LDSP, d) <==> 0 <= d.imm)
    ensures Survives(CI_LDSP, d) ==> MeetsAll([Imm9, ImmX8, Rs1EqSp], d)
  {
    hide Fits, Survives, MeetsAll, InRange, AssertsHold, FormatOk, Pow2, Unsigned;
    CiLdspFormat(); SurvivesWhen(CI_LDSP, d);
    FourInRange(I, d); FourInRange(CI_LDSP, d); Asserts1(CI_LDSP, d);
    RegisterRange(d.rd); RegisterRange(d.rs1); ImmediateRange(d.imm); RdRange(d.rd); CimmldspRange(d.imm);
    Meets3([Imm9, ImmX8, Rs1EqSp], d);
  }

  lemma RowLqsp(d: Decoded)
    requires InRange(I, d)
    ensures MeetsAll([Imm10, ImmX16, Rs1EqSp], d) ==> (Survives(CI_LQSP, d) <==> 0 <= d.imm)
    ensures Survives(CI_LQSP, d) ==> MeetsAll([Imm10, ImmX16, Rs1EqSp], d)
  {
    hide Fits, Survives, MeetsAll, InRange, AssertsHold, FormatOk, Pow2, Unsigned;
    CiLqspFormat(); SurvivesWhen(CI_LQSP, d);
    FourInRange(I, d); FourInRange(CI_LQSP, d); Asserts1(CI_LQSP, d);
    RegisterRange(d.rd); RegisterRange(d.rs1); ImmediateRange(d.imm); RdRange(d.rd); CimmlqspRange(d.imm);
    Meets3([Imm10, ImmX16, Rs1EqSp], d);
  }

  lemma RowSwsp(d: Decoded)
    requires InRange(Codecs.S, d)
    ensures MeetsAll([Imm8, ImmX4, Rs1EqSp], d) ==> (Survives(CSS_SWSP, d) <==> 0 <= d.imm)
    ensures Survives(CSS_SWSP, d) ==> MeetsAll([Imm8, ImmX4, Rs1EqSp], d)
  {
    hide Fits, Survives, MeetsAll, InRange, AssertsHold, FormatOk, Pow2, Unsigned;
    CssSwspFormat(); SurvivesWhen(CSS_SWSP, d);
    FourInRange(Codecs.S, d); FourInRange(CSS_SWSP, d); Asserts1(CSS_SWSP, d);
    RegisterRange(d.rs1); RegisterRange(d.rs2); StoreRange(d.imm); Crs2Range(d.rs2); CimmswspRange(d.imm);
    Meets3([Imm8, ImmX4, Rs1EqSp], d);
  }

  lemma RowSdsp(d: Decoded)
    requires InRange(Codecs.S, d)
    ensures MeetsAll([Imm9, ImmX8, Rs1EqSp], d) ==> (Survives(CSS_SDSP, d) <==> 0 <= d.imm)
    ensures Survives(CSS_SDSP, d) ==> MeetsAll([Imm9, ImmX8, Rs1EqSp], d)
  {
    hide Fits, Survives, MeetsAll, InRange, AssertsHold, FormatOk, Pow2, Unsigned;
    CssSdspFormat(); SurvivesWhen(CSS_SDSP, d);
    FourInRange(Codecs.S, d); FourInRange(CSS_SDSP, d); Asserts1(CSS_SDSP, d);
    RegisterRange(d.rs1); RegisterRange(d.rs2); StoreRange(d.imm); Crs2Range(d.rs2); CimmsdspRange(d.imm);
    Meets3([Imm9, ImmX8, Rs1EqSp], d);
  }

  lemma RowSqsp(d: Decoded)
    requires InRange(Codecs.S, d)
    ensures MeetsAll([Imm10, ImmX16, Rs1EqSp], d) ==> (Survives(CSS_SQSP, d) <==> 0 <= d.imm)
    ensures Survives(CSS_SQSP, d) ==> MeetsAll([Imm10, ImmX16, Rs1EqSp], d)
  {
    hide Fits, Survives, MeetsAll, InRange, AssertsHold, FormatOk, Pow2, Unsigned;
    CssSqspFormat(); SurvivesWhen(CSS_SQSP, d);
    FourInRange(Codecs.S, d); FourInRange(CSS_SQSP, d); Asserts1(CSS_SQSP, d);
    RegisterRange(d.rs1); RegisterRange(d.rs2); StoreRange(d.imm); Crs2Range(d.rs2); CimmsqspRange(d.imm);
    Meets3([Imm10, ImmX16, Rs1EqSp], d);
  }

  /** For every row and every record of an instruction that it compresses: a record that the constraints
      accept survives if and only if it is kept, and a record that survives is accepted unless it
      is excluded. */
  lemma RowExactly(c: Rvc, d: Decoded)
    requires InRange(RowOf(c).base, d)
    ensures MeetsAll(RowOf(c).constraints, d) ==> (Survives(RowOf(c).codec, d) <==> Kept(c, d))
    ensures Survives(RowOf(c).codec, d) && !Excluded(c, d) ==> MeetsAll(RowOf(c).constraints, d)
  {
    hide Survives, InRange, MeetsAll;
    match c {
      case C_ADDI4SPN => RowAddi4spn(d);
      case C_LW => RowLw(d);
      case C_LD => RowLd(d);
      case C_LQ => RowLq(d);
      case C_SW => RowSw(d);
      case C_SD => RowSd(d);
      case C_SQ => RowSq(d);
      case C_NOP => RowNop(d);
      case C_ADDI => RowAddi(d);
      case C_ADDIW => RowAddiw(d);
      case C_LI => RowLi(d);
      case C_LUI => RowLui(d);
      case C_ADDI16SP => RowAddi16sp(d);
      case C_SRLI32 => RowSrli32(d);
      case C_SRLI64 => RowSrli64(d);
      case C_SLLI32 => RowSlli32(d);
      case C_SLLI64 => RowSlli64(d);
      case C_ANDI => RowAndi(d);
      case C_SUB => RowSub(d);
      case C_ADD => RowAdd(d);
      case C_MV => RowMv(d);
      case C_JR => RowJr(d);
      case C_JALR => RowJalr(d);
      case C_J => RowJ(d);
      case C_JAL => RowJal(d);
      case C_BEQZ => RowBeqz(d);
      case C_EBREAK => RowEbreak(d);
      case C_LWSP => RowLwsp(d);
      case C_FLWSP => RowFlwsp(d);
      case C_LDSP => RowLdsp(d);
      case C_FLDSP => RowFldsp(d);
      case C_LQSP => RowLqsp(d);
      case C_SWSP => RowSwsp(d);
      case C_SDSP => RowSdsp(d);
      case C_SQSP => RowSqsp(d);
    }
  }

  // ---------------------------------------------------------------------------------------------
  // Choosing a row

  /** The rows of one operation, in the order of its table. */
  function Candidates(cs: seq<Rvc>): (rows: seq<Constraints.Row>)
    ensures |rows| == |cs| && forall i :: 0 <= i < |cs| ==> rows[i].constraints == RowOf(cs[i]).constraints
  {
    seq(|cs|, i requires 0 <= i < |cs| => Constraints.Row(i, RowOf(cs[i]).constraints))
  }

  /** Whatever rows an operation has: the first that accepts the record keeps it exactly if its own
      condition holds. */
  lemma CompressKeepsWhen(cs: seq<Rvc>, d: Decoded)
    ensures var k := FirstMatch(Candidates(cs), d);
            k < |cs| && InRange(RowOf(cs[k]).base, d) ==> (Survives(RowOf(cs[k]).codec, d) <==> Kept(cs[k], d))
  {
    hide FirstMatch, Survives, InRange, MeetsAll, RowOf, Kept;
    var k := FirstMatch(Candidates(cs), d);
    if k < |cs| && InRange(RowOf(cs[k]).base, d) { RowExactly(cs[k], d); }
  }

  /** addi on RV64. */
  const ADDI := [C_ADDI4SPN, C_NOP, C_ADDI, C_LI, C_ADDI16SP, C_MV]

  /** addi a0, x0, 40 becomes c.li, which holds -32 to 31. */
  lemma LiLosesForty()
    ensures var d := Decoded(10, 0, 0, 0, 40, 0, 0, 0, 0, 0);
            && InRange(I, d) && FirstMatch(Candidates(ADDI), d) == 3 && !Survives(CI_LI, d)
  {
    hide Survives, InRange, FirstMatch, MeetsAll, Fits, Pow2;
    var d := Decoded(10, 0, 0, 0, 40, 0, 0, 0, 0, 0);
    IsAddi(d);
    Refused(0, 4, d);
    Refused(1, 0, d);
    Refused(2, 0, d);
    Meets3(RowOf(C_LI).constraints, d);
    MatchIs(Candidates(ADDI), d, 3);
    RowExactly(C_LI, d);
  }

  /** addi sp, sp, 36 becomes c.addi16sp, which holds multiples of 16. */
  lemma AdjustLosesThirtySix()
    ensures var d := Decoded(2, 2, 0, 0, 36, 0, 0, 0, 0, 0);
            && InRange(I, d) && FirstMatch(Candidates(ADDI), d) == 4 && !Survives(CI_16SP, d)
  {
    hide Survives, InRange, FirstMatch, MeetsAll, Fits, Pow2;
    var d := Decoded(2, 2, 0, 0, 36, 0, 0, 0, 0, 0);
    IsAddi(d);
    Refused(0, 3, d);
    Refused(1, 0, d);
    Refused(2, 0, d);
    Refused(3, 2, d);
    Meets5(RowOf(C_ADDI16SP).constraints, d);
    MatchIs(Candidates(ADDI), d, 4);
    RowExactly(C_ADDI16SP, d);
  }

  /** jalr x0, 8(a0) becomes c.jr, which has no offset. */
  lemma JrLosesOffset()
    ensures var d := Decoded(0, 10, 0, 0, 8, 0, 0, 0, 0, 0);
            && InRange(I, d) && FirstMatch(Candidates([C_JR, C_JALR]), d) == 0 && !Survives(CR_JR, d)
  {
    hide Survives, InRange, FirstMatch, MeetsAll, Fits, Pow2;
    var d := Decoded(0, 10, 0, 0, 8, 0, 0, 0, 0, 0);
    IsAddi(d);
    Meets2(RowOf(C_JR).constraints, d);
    MatchIs(Candidates([C_JR, C_JALR]), d, 0);
    RowExactly(C_JR, d);
  }

  lemma IsAddi(d: Decoded)
    requires 0 <= d.rd < 32 && 0 <= d.rs1 < 32 && d.rs2 == 0 && -2048 <= d.imm < 2048
    ensures InRange(I, d)
  {
    hide Fits, InRange, Pow2, Unsigned;
    Pow2Values();
    FourInRange(I, d);
    RegisterRange(d.rd);
    RegisterRange(d.rs1);
    ImmediateRange(d.imm);
  }

  /** One constraint of the row does not hold. */
  lemma Refused(k: nat, i: nat, d: Decoded)
    requires k < |ADDI| && i < |RowOf(ADDI[k]).constraints| && !Meets(RowOf(ADDI[k]).constraints[i], d)
    ensures !MeetsAll(Candidates(ADDI)[k].constraints, d)
  {
    hide Meets, RowOf;
  }
}
