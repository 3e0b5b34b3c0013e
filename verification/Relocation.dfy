/**
  Relocation of one site (assembler::relocate and reencode_inst, src/asm/assembler.cc): the value
  that each relocation type computes, the instruction that is written back, and what the patched
  instructions do when executed.

  The generated decoder and match tables are the parameter `isa`; `Understood` says what is needed
  of them at the words that are relocated.
 */
module Relocation {
  import opened Bits
  import opened Operands
  import opened OperandTable
  import opened Codecs
  import opened CodecRoundTrip
  import opened BaseFormats
  import opened InstBuffer
  import LoadImm

  datatype Kind =
    | Jal | Branch
    | Hi20 | Lo12I | Lo12S
    | PcrelHi20 | PcrelLo12I | PcrelLo12S
    | Call | Abs32 | Abs64 | Other

  // ---------------------------------------------------------------------------------------------
  // Upper and lower parts

  /** int upper = ((x + 0x800) >> 12) << 12, in size_t, then converted to int */
  function UpperPart(x: int): int {
    Signed(32, Shl(Shr(Unsigned(64, x + 0x800), 12), 12))
  }

  /** int lower = x - upper */
  function LowerPart(x: int): int {
    Signed(32, x - UpperPart(x))
  }

  /** The upper part is the rounded value, whatever the width of size_t. */
  lemma UpperIsRounded(x: int)
    ensures UpperPart(x) == Signed(32, x + 0x800 - Unsigned(12, x + 0x800))
  {
    hide Unsigned, Shl, Shr, Pow2;
    var y := x + 0x800;
    var u := Unsigned(64, y);
    Split(u, 12);
    TruncateTwice(12, 64, y);
    CongSelf(64, y);
    CongRefl(64, Unsigned(12, y));
    CongSub(64, u, y, Unsigned(12, y), Unsigned(12, y));
    CongNarrow(32, 64, u - Unsigned(12, y), y - Unsigned(12, y));
  }

  /** For every value: the lower part is the signed distance to the nearest multiple of 4096. */
  lemma LowerIsDistance(x: int)
    ensures LowerPart(x) == Unsigned(12, x + 0x800) - 0x800
    ensures -2048 <= LowerPart(x) <= 2047
  {
    hide Unsigned, Shl, Shr, Pow2, UpperPart;
    Pow2Values();
    var y := x + 0x800;
    var h := y - Unsigned(12, y);
    UpperIsRounded(x);
    CongSigned(32, h);
    CongRefl(32, x);
    CongSub(32, x, x, UpperPart(x), h);
    SignedIdentity(32, x - h);
  }

  /** The parts fit their instructions and add up modulo 2^32; they add up exactly if and only if the
      value plus 0x800 fits 32 signed bits. */
  lemma PartsAddUp(x: int)
    ensures -2048 <= LowerPart(x) <= 2047
    ensures FitsSigned(32, UpperPart(x)) && Unsigned(12, UpperPart(x)) == 0
    ensures Cong(32, UpperPart(x) + LowerPart(x), x)
    ensures UpperPart(x) + LowerPart(x) == x <==> FitsSigned(32, x + 0x800)
  {
    hide Unsigned, Shl, Shr, Pow2, UpperPart, LowerPart, Signed;
    Pow2Values();
    var y := x + 0x800;
    var h := y - Unsigned(12, y);
    UpperIsRounded(x);
    LowerIsDistance(x);
    RoundedIsMultiple(y);
    CongSigned(32, h);
    CongNarrow(12, 32, Signed(32, h), h);
    CongRefl(32, LowerPart(x));
    CongAdd(32, UpperPart(x), h, LowerPart(x), LowerPart(x));
    assert h + LowerPart(x) == x;
    SignedIdentity(32, h);
  }

  lemma RoundedIsMultiple(y: int)
    ensures Unsigned(12, y - Unsigned(12, y)) == 0
    ensures FitsSigned(32, y) <==> FitsSigned(32, y - Unsigned(12, y))
  {
    hide Unsigned, Shl, Shr, Pow2;
    Pow2Values();
    Split(y, 12);
    ShlIsMul(Shr(y, 12), 12);
    SplitUnique(y - Unsigned(12, y), 12, Shr(y, 12), 0);
  }

  /** The parts depend only on the value modulo 2^64. */
  lemma PartsWrap(x: int, y: int)
    requires Cong(64, x, y)
    ensures UpperPart(x) == UpperPart(y) && LowerPart(x) == LowerPart(y)
  {
    hide Unsigned, Shl, Shr, Pow2;
    CongRefl(64, 0x800);
    CongAdd(64, x, y, 0x800, 0x800);
    var u := UpperPart(x);
    CongRefl(64, u);
    CongSub(64, x, y, u, u);
    CongNarrow(32, 64, x - u, y - u);
  }

  /** On a 64-bit machine the sum is congruent to the value if and only if the value, read as a signed
      64-bit number, plus 0x800 fits 32 signed bits. */
  lemma PartsOn64(x: int)
    ensures Cong(64, UpperPart(x) + LowerPart(x), x) <==> FitsSigned(32, Signed(64, x) + 0x800)
  {
    hide Unsigned, Pow2, UpperPart, LowerPart, Signed;
    Pow2Values();
    var y := Signed(64, x);
    CongSigned(64, x);
    PartsWrap(x, y);
    PartsAddUp(y);
    var sum := UpperPart(x) + LowerPart(x);
    if Cong(64, sum, x) { CongUnique(64, sum, y); }
  }

  // ---------------------------------------------------------------------------------------------
  // Re-encoding

  /** What the generated tables say of an instruction word: the operand fields that decode_inst_rv64
      finds, and, of the operation it ends up with after decompression, the codec and the match word. */
  datatype Isa = Isa(codec: nat -> Format, matchBits: nat -> nat, record: nat -> Decoded)

  const BLANK := Decoded(0, 0, 0, 0, 0, 0, 0, 0, 0, 0)

  predicate BaseFormat(f: Format) {
    f == U || f == UJ || f == I || f == Codecs.S || f == SB
  }

  /** The operand that holds the immediate. */
  function ImmOperand(f: Format): OperandName
    requires BaseFormat(f)
  {
    if f == U then OpImm20 else if f == UJ then OpJimm20 else if f == I then OpImm12
    else if f == Codecs.S then OpSimm12 else OpSbimm12
  }

  ghost predicate ImmediateBit(f: Format, k: int)
    requires BaseFormat(f)
  {
    InstBit(Strips(Spec(ImmOperand(f)).segments), k)
  }

  ghost predicate SameOpcode(f: Format, v: nat, w: nat) {
    forall k: nat :: k < 32 && !OperandBit(f, k) ==> Bit(v, k) == Bit(w, k)
  }

  /** A four-byte instruction of a base format whose match word is made of exactly its non-operand
      bits, and the tables look at nothing else. */
  ghost predicate Understood(isa: Isa, w: nat) {
    var f, m := isa.codec(w), isa.matchBits(w);
    && w < Pow2(32) && InstLength(w) == 4 && BaseFormat(f) && m < Pow2(32)
    && isa.record(w) == DecodeFormat(f, w, BLANK)
    && (forall k: nat :: k < 32 ==> (Bit(m, k) <==> !OperandBit(f, k) && Bit(w, k)))
    && forall v: nat :: v < Pow2(32) && SameOpcode(f, w, v) ==>
         isa.codec(v) == f && isa.matchBits(v) == m && isa.record(v) == DecodeFormat(f, v, BLANK)
  }

  /** decode_inst_rv64, then dec.imm = imm (an int32_t), then encode_inst */
  function Reencode(isa: Isa, w: nat, imm: int): nat {
    Or(isa.matchBits(w), EncodeFormat(isa.codec(w), isa.record(w).(imm := Signed(32, imm))))
  }

  /** The record the tables decode a word to. */
  function Fields(isa: Isa, w: nat): Decoded {
    isa.record(w)
  }

  lemma BaseFormatOk(f: Format)
    requires BaseFormat(f)
    ensures FormatOk(f) && f.asserts == []
  {
    hide FormatOk;
    UFormat();
    UjFormat();
    IFormat();
    SFormat();
    SbFormat();
  }

  /** Where the fields of a base format are assigned, and where the immediate is encoded. */
  lemma BaseFields(f: Format)
    requires BaseFormat(f)
    ensures |f.decoder| == 4 && f.decoder[0].field == Rd && f.decoder[1].field == Rs1 && f.decoder[2].field == Rs2
    ensures f.decoder[3] == Assign(Imm, From(ImmOperand(f), 0))
  {}

  /** Every slot of the encoder but the immediate is read back by an assignment of the decoder. */
  lemma BaseSlots(f: Format, i: nat) returns (j: nat)
    requires BaseFormat(f) && i < |f.encoder|
    ensures f.encoder[i].bias == 0 && j < |f.decoder|
    ensures f.decoder[j] == Assign(f.encoder[i].field, From(f.encoder[i].name, 0))
    ensures f.encoder[i].field == Imm ==> f.encoder[i].name == ImmOperand(f)
  {
    if f == U || f == UJ {
      j := if i == 0 then 0 else 3;
    } else if f == I {
      j := if i == 0 then 0 else if i == 1 then 1 else 3;
    } else {
      j := if i == 0 then 1 else if i == 1 then 2 else 3;
    }
  }

  lemma LowBitsAreOpcode(f: Format, k: int)
    requires BaseFormat(f) && OperandBit(f, k)
    ensures 7 <= k < 32
  {
    hide OperandBit, U, UJ, I, Codecs.S, SB;
    FormatBits(k);
  }

  lemma MatchCarries(isa: Isa, w: nat, d: Decoded, k: nat)
    requires Understood(isa, w)
    ensures var f, v := isa.codec(w), Or(isa.matchBits(w), EncodeFormat(isa.codec(w), d));
            && v < Pow2(32) && CarriesRecord(f, v, d)
            && (!OperandBit(f, k) && k < 32 ==> Bit(v, k) == Bit(w, k))
  {
    hide Bit, OperandBit, Pow2, CarriesRecord, EncodeFormat, BaseFormat, SameOpcode, InstLength;
    var f, m := isa.codec(w), isa.matchBits(w);
    forall j: nat | OperandBit(f, j) ensures !Bit(m, j) { LowBitsAreOpcode(f, j); }
    OrdInBits(f, m, d, k);
  }

  /** The new word is understood as the same instruction. */
  lemma ReencodedOpcode(isa: Isa, w: nat, imm: int)
    requires Understood(isa, w)
    ensures var v := Reencode(isa, w, imm);
            && v < Pow2(32) && SameOpcode(isa.codec(w), w, v) && Understood(isa, v)
            && isa.codec(v) == isa.codec(w) && isa.matchBits(v) == isa.matchBits(w)
  {
    hide Bit, OperandBit, Pow2, CarriesRecord, EncodeFormat, DecodeFormat, BaseFormat, InstLength, Signed;
    var f, v := isa.codec(w), Reencode(isa, w, imm);
    forall k: nat | k < 32 && !OperandBit(f, k) ensures Bit(w, k) == Bit(v, k) {
      MatchCarries(isa, w, DecodeFormat(f, w, BLANK).(imm := Signed(32, imm)), k);
    }
    MatchCarries(isa, w, DecodeFormat(f, w, BLANK).(imm := Signed(32, imm)), 0);
    SameLength(f, w, v);
    StillUnderstood(isa, w, v);
  }

  lemma StillUnderstood(isa: Isa, w: nat, v: nat)
    requires Understood(isa, w) && v < Pow2(32) && SameOpcode(isa.codec(w), w, v) && InstLength(v) == 4
    ensures Understood(isa, v)
  {
    hide Bit, OperandBit, Pow2, BaseFormat, InstLength;
    var f := isa.codec(w);
    forall u: nat | u < Pow2(32) && SameOpcode(f, v, u) ensures SameOpcode(f, w, u) {
      forall k: nat | k < 32 && !OperandBit(f, k) ensures Bit(w, k) == Bit(u, k) {
        assert Bit(w, k) == Bit(v, k);
        assert Bit(v, k) == Bit(u, k);
      }
    }
    assert isa.codec(v) == f && isa.matchBits(v) == isa.matchBits(w);
    forall k: nat | k < 32 ensures Bit(isa.matchBits(v), k) <==> !OperandBit(f, k) && Bit(v, k) {
      assert !OperandBit(f, k) ==> Bit(w, k) == Bit(v, k);
    }
  }

  /** The length code is in the opcode. */
  lemma SameLength(f: Format, w: nat, v: nat)
    requires BaseFormat(f) && SameOpcode(f, w, v)
    ensures InstLength(w) == InstLength(v)
  {
    hide Bit, OperandBit, Unsigned, And, BaseFormat, Pow2;
    forall k: nat | k < 7 ensures Bit(Unsigned(7, w), k) == Bit(Unsigned(7, v), k) {
      if OperandBit(f, k) { LowBitsAreOpcode(f, k); }
      BitUnsigned(7, w, k);
      BitUnsigned(7, v, k);
    }
    SameBits(Unsigned(7, w), Unsigned(7, v), 7);
    LengthTests(w, v);
  }

  /** Register fields come back unchanged, and the immediate comes back as computed exactly when its
      operand can represent it. */
  lemma ReencodedFields(isa: Isa, w: nat, imm: int)
    requires Understood(isa, w)
    ensures var v := Reencode(isa, w, imm);
            && Fields(isa, v).rd == Fields(isa, w).rd
            && Fields(isa, v).rs1 == Fields(isa, w).rs1
            && Fields(isa, v).rs2 == Fields(isa, w).rs2
            && (Fields(isa, v).imm == Signed(32, imm) <==> Fits(ImmOperand(isa.codec(w)), Signed(32, imm)))
  {
    hide Pow2, CarriesRecord, EncodeFormat, DecodeFormat, BaseFormat, InstLength, Signed, FormatOk, Reencode, Fits,
         OperandBit, ImmOperand;
    var f, v := isa.codec(w), Reencode(isa, w, imm);
    var d := DecodeFormat(f, w, BLANK).(imm := Signed(32, imm));
    ReencodeIs(isa, w, imm);
    ReencodedOpcode(isa, w, imm);
    MatchCarries(isa, w, d, 0);
    BaseFormatOk(f);
    BaseFields(f);
    Pow2Mono(32, 64);
    RegisterKept(f, w, v, d, 0);
    RegisterKept(f, w, v, d, 1);
    RegisterKept(f, w, v, d, 2);
    FormatField(f, v, d, BLANK, 3);
  }

  lemma ReencodeIs(isa: Isa, w: nat, imm: int)
    requires Understood(isa, w)
    ensures var d := DecodeFormat(isa.codec(w), w, BLANK).(imm := Signed(32, imm));
            Reencode(isa, w, imm) == Or(isa.matchBits(w), EncodeFormat(isa.codec(w), d))
  {
    hide EncodeFormat, DecodeFormat, BaseFormat, InstLength, Pow2, Signed, SameOpcode, Bit, OperandBit;
  }

  /** A register field of a decoded record is in range, so it survives. */
  lemma RegisterKept(f: Format, w: nat, v: nat, d: Decoded, j: nat)
    requires FormatOk(f) && f.asserts == [] && w < Pow2(64) && v < Pow2(64) && CarriesRecord(f, v, d)
    requires j < |f.decoder| && d == DecodeFormat(f, w, BLANK).(imm := d.imm) && f.decoder[j].field != Imm
    ensures Get(DecodeFormat(f, v, BLANK), f.decoder[j].field) == Get(DecodeFormat(f, w, BLANK), f.decoder[j].field)
  {
    hide Pow2, CarriesRecord, DecodeFormat, FormatOk, Fits;
    DecodedInRange(f, w, BLANK);
    var before := DecodeFormat(f, w, BLANK);
    assert FieldInRange(f.decoder[j], before);
    assert Get(d, f.decoder[j].field) == Get(before, f.decoder[j].field);
    assert FieldInRange(f.decoder[j], d);
    FormatField(f, v, d, BLANK, j);
  }

  /** No bit outside the immediate changes. */
  lemma ReencodedBits(isa: Isa, w: nat, imm: int, k: nat)
    requires Understood(isa, w) && k < 32 && !ImmediateBit(isa.codec(w), k)
    ensures Bit(Reencode(isa, w, imm), k) == Bit(w, k)
  {
    hide Pow2, EncodeFormat, DecodeFormat, BaseFormat, InstLength, Signed, FormatOk, Reencode, Bit, Spec, Strips,
         InstBit, ImmOperand;
    var f, v := isa.codec(w), Reencode(isa, w, imm);
    var d := DecodeFormat(f, w, BLANK).(imm := Signed(32, imm));
    ReencodeIs(isa, w, imm);
    MatchCarries(isa, w, d, k);
    if OperandBit(f, k) {
      var i :| 0 <= i < |f.encoder| && SlotBit(f.encoder[i], k);
      SlotKept(f, w, d, i, k);
    }
  }

  lemma SlotKept(f: Format, w: nat, d: Decoded, i: nat, k: nat)
    requires BaseFormat(f) && w < Pow2(32) && i < |f.encoder| && d == DecodeFormat(f, w, BLANK).(imm := d.imm)
    requires SlotBit(f.encoder[i], k) && !ImmediateBit(f, k)
    ensures Bit(EncodeFormat(f, d), k) == Bit(w, k)
  {
    hide Pow2, DecodeFormat, BaseFormat, Bit, Spec, Strips, InstBit, ImmOperand, SlotsApart, WellFormed, Encode,
         Decode, EncodeSlots;
    BaseFormatOk(f);
    var j := BaseSlots(f, i);
    var name := f.encoder[i].name;
    SlotIsHeld(f.encoder, d, i, k);
    DecodedField(f, w, j);
    AllWellFormed(name);
    Pow2Mono(32, 64);
    Shape(Spec(name));
    DecodeThenEncode(Spec(name), w, k);
  }

  lemma DecodedField(f: Format, w: nat, j: nat)
    requires FormatOk(f) && j < |f.decoder|
    ensures Get(DecodeFormat(f, w, BLANK), f.decoder[j].field) == SourceValue(f.decoder[j].source, w)
  {
    hide SourceValue, AllFedBy, DecodeAssigns, Get, SlotsApart;
    var feed: seq<nat> :| AllFedBy(f, f.decoder, feed);
    FedLength(f, f.decoder, feed);
    DecodeGets(f, f.decoder, feed, w, BLANK, j);
  }

  // ---------------------------------------------------------------------------------------------
  // Jumps and branches

  /** The decoded immediate is always representable; so it is the asked displacement exactly when
      that is representable. */
  lemma DisplacementExact(isa: Isa, w: nat, x: int)
    requires Understood(isa, w)
    ensures Fields(isa, Reencode(isa, w, x)).imm == x <==> Fits(ImmOperand(isa.codec(w)), x)
  {
    hide Pow2, DecodeFormat, BaseFormat, InstLength, Signed, FormatOk, Reencode, Fits, OperandBit, ImmOperand,
         Fields, SameOpcode;
    var f, v := isa.codec(w), Reencode(isa, w, x);
    ReencodedFields(isa, w, x);
    ReencodedOpcode(isa, w, x);
    ImmediateFits(isa, v);
    if Fits(ImmOperand(f), x) {
      FittingIsShort(f, x);
      SignedIdentity(32, x);
    }
  }

  lemma ImmediateFits(isa: Isa, v: nat)
    requires Understood(isa, v)
    ensures Fits(ImmOperand(isa.codec(v)), Fields(isa, v).imm)
  {
    hide Pow2, DecodeFormat, BaseFormat, InstLength, FormatOk, Fits, OperandBit, ImmOperand;
    var f := isa.codec(v);
    BaseFormatOk(f);
    BaseFields(f);
    Pow2Mono(32, 64);
    DecodedInRange(f, v, BLANK);
    assert FieldInRange(f.decoder[3], Fields(isa, v));
  }

  lemma FittingIsShort(f: Format, x: int)
    requires BaseFormat(f) && Fits(ImmOperand(f), x)
    ensures FitsSigned(32, x)
  {
    hide U, UJ, I, Codecs.S, SB, Fits, Pow2, Unsigned;
    Pow2Values();
    ImmediateRange(x);
    JumpRange(x);
    BranchRange(x);
    StoreRange(x);
  }

  /** Where a jal, or a taken branch, at pc goes. */
  function JumpTarget(isa: Isa, w: nat, pc: int): int {
    Unsigned(64, pc + Fields(isa, w).imm)
  }

  /** The displacement can be encoded in the instruction. */
  predicate InJumpRange(f: Format, x: int) {
    x % 2 == 0 && FitsSigned(if f == UJ then 21 else 13, x)
  }

  /** A relocated jump or branch reaches its label if and only if the displacement, read as a signed 64-bit
      number, is even and in the range of the instruction. */
  lemma JumpReaches(isa: Isa, w: nat, target: int, site: int)
    requires Understood(isa, w) && (isa.codec(w) == UJ || isa.codec(w) == SB)
    ensures JumpTarget(isa, Reencode(isa, w, target - site), site) == Unsigned(64, target)
       <==> InJumpRange(isa.codec(w), Signed(64, target - site))
  {
    hide Reencode, Unsigned, Signed, Fields, FitsSigned, Understood, InJumpRange, UJ, SB;
    var x, y := target - site, Signed(64, target - site);
    CongSigned(64, x);
    ReencodeWraps(isa, w, x, y);
    DisplacementRead(isa, w, y);
    SignedFits(x);
    SameDestination(site, Fields(isa, Reencode(isa, w, y)).imm, y);
    SameSum(64, site, x, y);
    assert site + x == target;
  }

  /** The displacement reads back exactly when it is in range; in any case 32 bits do. */
  lemma DisplacementRead(isa: Isa, w: nat, y: int)
    requires Understood(isa, w) && (isa.codec(w) == UJ || isa.codec(w) == SB)
    ensures Fields(isa, Reencode(isa, w, y)).imm == y <==> InJumpRange(isa.codec(w), y)
    ensures FitsSigned(32, Fields(isa, Reencode(isa, w, y)).imm)
  {
    hide Pow2, BaseFormat, InstLength, Reencode, Fits, OperandBit, SameOpcode, UJ, SB, U, I, Codecs.S;
    hide Fields, FitsSigned, Understood;
    var v := Reencode(isa, w, y);
    DisplacementExact(isa, w, y);
    JumpRange(y);
    BranchRange(y);
    JumpFormats();
    ReencodedOpcode(isa, w, y);
    ImmediateFits(isa, v);
    FittingIsShort(isa.codec(v), Fields(isa, v).imm);
  }

  lemma SignedFits(x: int)
    ensures FitsSigned(64, Signed(64, x))
  {
    hide Unsigned, Pow2;
  }

  /** The immediate matters modulo 2^32 only. */
  lemma ReencodeWraps(isa: Isa, w: nat, x: int, y: int)
    requires Cong(64, x, y)
    ensures Reencode(isa, w, x) == Reencode(isa, w, y)
  {
    hide Unsigned, Pow2, EncodeFormat, Or;
    CongNarrow(32, 64, x, y);
  }

  /** Two displacements lead to one place only if they are equal. */
  lemma SameDestination(site: int, x: int, y: int)
    requires FitsSigned(32, x) && FitsSigned(64, y)
    ensures Unsigned(64, site + x) == Unsigned(64, site + y) <==> x == y
  {
    hide Unsigned, Pow2;
    Pow2Values();
    SameSum(64, site, x, y);
    if Cong(64, x, y) { CongUnique(64, x, y); }
  }

  lemma JumpFormats()
    ensures BaseFormat(UJ) && ImmOperand(UJ) == OpJimm20 && BaseFormat(SB) && ImmOperand(SB) == OpSbimm12 && UJ != SB
    ensures BaseFormat(U) && ImmOperand(U) == OpImm20 && BaseFormat(I) && ImmOperand(I) == OpImm12
    ensures BaseFormat(Codecs.S) && ImmOperand(Codecs.S) == OpSimm12
  {}

  /** Adding the same value neither makes nor breaks congruence. */
  lemma SameSum(n: nat, b: int, x: int, y: int)
    ensures Cong(n, b + x, b + y) <==> Cong(n, x, y)
  {
    hide Unsigned;
    CongRefl(n, b);
    if Cong(n, x, y) { CongAdd(n, b, b, x, y); }
    if Cong(n, b + x, b + y) { CongSub(n, b + x, b + y, b, b); }
  }

  // ---------------------------------------------------------------------------------------------
  // Pairs of an upper and a lower instruction

  /** lui (base 0) or auipc (base pc) */
  function ExecUpper(x: LoadImm.Regs, base: int, d: Decoded): LoadImm.Regs
    requires 0 <= d.rd < |x|
  {
    LoadImm.Write(x, d.rd, base + d.imm)
  }

  /** The sum that addi writes, that a load or store accesses, and that jalr jumps to after clearing
      its lowest bit. */
  function Address(x: LoadImm.Regs, d: Decoded): int
    requires 0 <= d.rs1 < |x|
  {
    Unsigned(64, x[d.rs1] + d.imm)
  }

  /** The relocated immediates are the two parts. */
  lemma PairImmediates(isa: Isa, w1: nat, w2: nat, x: int)
    requires Understood(isa, w1) && isa.codec(w1) == U
    requires Understood(isa, w2) && (isa.codec(w2) == I || isa.codec(w2) == Codecs.S)
    ensures Fields(isa, Reencode(isa, w1, UpperPart(x))).imm == UpperPart(x)
    ensures Fields(isa, Reencode(isa, w2, LowerPart(x))).imm == LowerPart(x)
  {
    hide Pow2, BaseFormat, InstLength, Reencode, Fits, OperandBit, SameOpcode, UJ, SB, U, I, Codecs.S, Unsigned,
         Fields, UpperPart, LowerPart;
    Pow2Values();
    JumpFormats();
    PartsAddUp(x);
    DisplacementExact(isa, w1, UpperPart(x));
    DisplacementExact(isa, w2, LowerPart(x));
    ImmediateRange(UpperPart(x));
    ImmediateRange(LowerPart(x));
    StoreRange(LowerPart(x));
  }

  /** The address that an upper instruction and a lower instruction on its register compute. */
  function PairAddress(isa: Isa, v1: nat, v2: nat, regs: LoadImm.Regs, base: int): int
    requires 0 <= Fields(isa, v1).rd < |regs| && 0 <= Fields(isa, v2).rs1 < |regs|
  {
    Address(ExecUpper(regs, base, Fields(isa, v1)), Fields(isa, v2))
  }

  /** The second instruction reads the register that the first one writes, and it is not x0. */
  ghost predicate Chained(isa: Isa, v1: nat, v2: nat) {
    0 < Fields(isa, v1).rd == Fields(isa, v2).rs1 < 32
  }

  /** The pair computes the target modulo 2^32, and modulo 2^64 if and only if its distance from the base,
      read as a signed 64-bit number, plus 0x800 fits 32 signed bits. */
  ghost predicate Computes(isa: Isa, v1: nat, v2: nat, regs: LoadImm.Regs, base: int, target: int) {
    && Chained(isa, v1, v2) && |regs| == 32
    && Cong(32, PairAddress(isa, v1, v2, regs, base), target)
    && (Cong(64, PairAddress(isa, v1, v2, regs, base), target) <==>
         FitsSigned(32, Signed(64, target - base) + 0x800))
  }

  ghost predicate UpperThenLower(isa: Isa, w1: nat, w2: nat) {
    isa.codec(w1) == U && (isa.codec(w2) == I || isa.codec(w2) == Codecs.S) && Chained(isa, w1, w2)
  }

  /** Running a relocated pair.  With base 0 this is HI20 and LO12; with base the address of the auipc it is
      the PCREL pair and CALL. */
  lemma PairReaches(isa: Isa, w1: nat, w2: nat, v1: nat, v2: nat, regs: LoadImm.Regs, base: int, target: int)
    requires Understood(isa, w1) && Understood(isa, w2) && UpperThenLower(isa, w1, w2)
    requires LoadImm.ValidRegs(regs)
    requires v1 == Reencode(isa, w1, UpperPart(target - base)) && v2 == Reencode(isa, w2, LowerPart(target - base))
    ensures Computes(isa, v1, v2, regs, base, target)
  {
    hide Pow2, BaseFormat, InstLength, Reencode, OperandBit, SameOpcode, U, I, Codecs.S, Unsigned, Fields, UpperPart,
         LowerPart, Understood, Signed;
    var x := target - base;
    ReencodedFields(isa, w1, UpperPart(x));
    ReencodedFields(isa, w2, LowerPart(x));
    PairImmediates(isa, w1, w2, x);
    var sum := UpperPart(x) + LowerPart(x);
    WrittenSum(regs, base, Fields(isa, v1), Fields(isa, v2));
    CongSelf(64, base + sum);
    CongNarrow(32, 64, Unsigned(64, base + sum), base + sum);
    PartsOn64(x);
    SameSum(64, base, sum, x);
    PartsAddUp(x);
    SameSum(32, base, sum, x);
    assert base + x == target;
  }

  lemma WrittenSum(regs: LoadImm.Regs, base: int, d1: Decoded, d2: Decoded)
    requires LoadImm.ValidRegs(regs) && 0 < d1.rd == d2.rs1 < 32
    ensures Address(ExecUpper(regs, base, d1), d2) == Unsigned(64, base + (d1.imm + d2.imm))
  {
    hide Unsigned, Pow2;
    CongSelf(64, base + d1.imm);
    CongRefl(64, d2.imm);
    CongAdd(64, Unsigned(64, base + d1.imm), base + d1.imm, d2.imm, d2.imm);
    assert base + d1.imm + d2.imm == base + (d1.imm + d2.imm);
  }

  // ---------------------------------------------------------------------------------------------
  // The bytes of a site

  function SiteLength(kind: Kind): nat {
    match kind
    case Call | Abs64 => 8
    case Other => 0
    case _ => 4
  }

  /** The immediate that relocate puts into the instruction at the site, for a target at `target` and
      a base at `pc`. */
  function Value(kind: Kind, target: int, pc: int): int {
    match kind
    case Hi20 => UpperPart(target)
    case Lo12I | Lo12S => LowerPart(target)
    case PcrelHi20 | Call => UpperPart(target - pc)
    case PcrelLo12I | PcrelLo12S => LowerPart(target - pc)
    case _ => target - pc
  }

  /** inst_fetch where two or four bytes are in place: a two-byte instruction is masked to its length. */
  function FetchShort(mem: seq<nat>, at: nat): (f: Fetched)
    requires at + 4 <= |mem|
    ensures f.offset == 2 || f.offset == 4
  {
    var w := Load(mem, at, 4);
    if InstLength(w) == 2 then Fetched(And(w, 0xffff), 2) else Fetched(w, 4)
  }

  /** The instruction there is two or four bytes long. */
  predicate Short(mem: seq<nat>, at: nat)
    requires at + 4 <= |mem|
  {
    InstLength(Load(mem, at, 4)) == 2 || InstLength(Load(mem, at, 4)) == 4
  }

  lemma FetchShortIsFetch(mem: seq<nat>, at: nat)
    requires at + 8 <= |mem| && Short(mem, at)
    ensures Fetch(mem, at) == FetchShort(mem, at)
  {
    hide And, Load;
  }

  function Splice(buf: seq<nat>, at: nat, bytes: seq<nat>): (r: seq<nat>)
    requires at + |bytes| <= |buf|
    ensures |r| == |buf|
  {
    buf[..at] + bytes + buf[at + |bytes|..]
  }

  /** The bytes that reencode_inst writes: two or four, as the new instruction says. */
  function Written(inst: nat): (r: seq<nat>)
    ensures |r| <= 4
  {
    var len := InstLength(inst);
    if len == 2 || len == 4 then Bytes(len, inst) else []
  }

  /** The instruction at the start of a site, re-encoded in place. */
  function PatchOne(isa: Isa, site: seq<nat>, imm: int): (r: seq<nat>)
    requires |site| >= 4
    ensures |r| == |site|
  {
    Splice(site, 0, Written(Reencode(isa, FetchShort(site, 0).inst, imm)))
  }

  /** The two instructions of a CALL: both are fetched before either is written, and the second is written
      first. */
  function PatchCall(isa: Isa, site: seq<nat>, upper: int, lower: int): (r: seq<nat>)
    requires |site| >= 8
    ensures |r| == |site|
  {
    var first := FetchShort(site, 0);
    var second := FetchShort(site, first.offset);
    var once := Splice(site, first.offset, Written(Reencode(isa, second.inst, lower)));
    Splice(once, 0, Written(Reencode(isa, first.inst, upper)))
  }

  /** An address stored in n bytes. */
  function Absolute(n: nat, target: nat): (r: seq<nat>)
    ensures |r| == n
  {
    Bytes(n, Unsigned(8 * n, target))
  }

  /** The relocated bytes of a site, for given immediates. */
  function PatchWith(isa: Isa, kind: Kind, site: seq<nat>, target: nat, imm: int, lower: int): (r: seq<nat>)
    requires |site| == SiteLength(kind)
    ensures |r| == |site|
  {
    match kind
    case Abs32 | Abs64 => Absolute(|site|, target)
    case Other => []
    case Call => PatchCall(isa, site, imm, lower)
    case _ => PatchOne(isa, site, imm)
  }

  /** The relocated bytes of a site. */
  function Patch(isa: Isa, kind: Kind, site: seq<nat>, target: nat, pc: nat): (r: seq<nat>)
    requires |site| == SiteLength(kind)
    ensures |r| == |site|
  {
    PatchWith(isa, kind, site, target, Value(kind, target, pc), LowerPart(target - pc))
  }

  /** The instructions at a site are two or four bytes long. */
  predicate SiteShort(kind: Kind, site: seq<nat>)
    requires |site| == SiteLength(kind)
  {
    match kind
    case Abs32 | Abs64 | Other => true
    case Call => Short(site, 0) && Short(site, FetchShort(site, 0).offset)
    case _ => Short(site, 0)
  }

  lemma UnderstoodIsShort(isa: Isa, mem: seq<nat>, at: nat, imm: int)
    requires at + 4 <= |mem| && Understood(isa, Load(mem, at, 4))
    ensures Short(mem, at) && FetchShort(mem, at) == Fetched(Load(mem, at, 4), 4)
    ensures Written(Reencode(isa, Load(mem, at, 4), imm)) == Bytes(4, Reencode(isa, Load(mem, at, 4), imm))
  {
    hide Load, InstLength, Reencode, Bytes, Pow2, Bit, OperandBit, SameOpcode, BaseFormat, DecodeFormat;
    ReencodedOpcode(isa, Load(mem, at, 4), imm);
  }

  /** Reading a patched site gives the re-encoded instruction ... */
  lemma PatchedOne(isa: Isa, site: seq<nat>, imm: int)
    requires |site| == 4 && Understood(isa, Load(site, 0, 4))
    ensures Load(PatchOne(isa, site, imm), 0, 4) == Reencode(isa, Load(site, 0, 4), imm)
  {
    hide Load, Bytes, Reencode, Understood, Written, FetchShort, Short;
    UnderstoodIsShort(isa, site, 0, imm);
    assert PatchOne(isa, site, imm)[0..4] == Bytes(4, Reencode(isa, Load(site, 0, 4), imm));
    ReadsBack(isa, Load(site, 0, 4), imm, PatchOne(isa, site, imm), 0);
  }

  /** ... or both. */
  lemma PatchedCall(isa: Isa, site: seq<nat>, upper: int, lower: int)
    requires |site| == 8 && Understood(isa, Load(site, 0, 4)) && Understood(isa, Load(site, 4, 4))
    ensures Load(PatchCall(isa, site, upper, lower), 0, 4) == Reencode(isa, Load(site, 0, 4), upper)
    ensures Load(PatchCall(isa, site, upper, lower), 4, 4) == Reencode(isa, Load(site, 4, 4), lower)
  {
    hide Load, Bytes, Reencode, Understood, Written, FetchShort, Short, Splice;
    UnderstoodIsShort(isa, site, 0, upper);
    UnderstoodIsShort(isa, site, 4, lower);
    var p := PatchCall(isa, site, upper, lower);
    BothHalves(site, Bytes(4, Reencode(isa, Load(site, 0, 4), upper)),
               Bytes(4, Reencode(isa, Load(site, 4, 4), lower)));
    ReadsBack(isa, Load(site, 0, 4), upper, p, 0);
    ReadsBack(isa, Load(site, 4, 4), lower, p, 4);
  }

  /** Where the first instruction is compressed and stays short, the second is the one two bytes on. */
  lemma PatchedShortCall(isa: Isa, site: seq<nat>, upper: int, lower: int)
    requires |site| == 8 && FetchShort(site, 0).offset == 2
    requires InstLength(Reencode(isa, FetchShort(site, 0).inst, upper)) != 4 && Understood(isa, Load(site, 2, 4))
    ensures Load(PatchCall(isa, site, upper, lower), 2, 4) == Reencode(isa, Load(site, 2, 4), lower)
  {
    hide Load, Bytes, Reencode, Understood, FetchShort, Short, InstLength;
    UnderstoodIsShort(isa, site, 2, lower);
    var p := PatchCall(isa, site, upper, lower);
    assert p[2..6] == Bytes(4, Reencode(isa, Load(site, 2, 4), lower));
    ReadsBack(isa, Load(site, 2, 4), lower, p, 2);
  }

  lemma BothHalves(site: seq<nat>, a: seq<nat>, b: seq<nat>)
    requires |site| == 8 && |a| == |b| == 4
    ensures var p := Splice(Splice(site, 4, b), 0, a); p[0..4] == a && p[4..8] == b
  {
    assert Splice(Splice(site, 4, b), 0, a) == a + b;
  }

  lemma ReadsBack(isa: Isa, w: nat, imm: int, mem: seq<nat>, at: nat)
    requires Understood(isa, w) && at + 4 <= |mem| && mem[at..at + 4] == Bytes(4, Reencode(isa, w, imm))
    ensures Load(mem, at, 4) == Reencode(isa, w, imm)
  {
    hide Load, Bytes, Reencode, Understood, Unsigned, Pow2;
    ReencodedOpcode(isa, w, imm);
    LoadBytes(mem, at, 4, Reencode(isa, w, imm));
    UnsignedSmall(32, Reencode(isa, w, imm));
  }

  /** The instruction that a relocated compressed instruction becomes, from its two bytes. */
  function Widened(isa: Isa, head: seq<nat>, imm: int): nat
    requires |head| == 2
  {
    Reencode(isa, FetchShort(head + [0, 0], 0).inst, imm)
  }

  /** The two bytes are a compressed instruction, whatever follows. */
  predicate Compressed(head: seq<nat>) {
    |head| == 2 && FetchShort(head + [0, 0], 0).offset == 2
  }

  /** A compressed site: what it becomes, and that the two bytes after it survive if and only if the new
      instruction is not four bytes long or they happen to be its upper half. */
  lemma CompressedSite(isa: Isa, head: seq<nat>, tail: seq<nat>, imm: int)
    requires Compressed(head) && |tail| == 2
    ensures var v := Widened(isa, head, imm);
            && (InstLength(v) == 4 ==> PatchOne(isa, head + tail, imm) == Bytes(4, v))
            && (InstLength(v) == 2 ==> PatchOne(isa, head + tail, imm) == Bytes(2, v) + tail)
            && (InstLength(v) != 4 && InstLength(v) != 2 ==> PatchOne(isa, head + tail, imm) == head + tail)
            && (PatchOne(isa, head + tail, imm)[2..] == tail <==> InstLength(v) != 4 || tail == Bytes(4, v)[2..])
  {
    hide Reencode, InstLength, Bytes, FetchShort;
    SameHalf(head + [0, 0], head + tail);
    var v := Widened(isa, head, imm);
    assert Splice(head + tail, 0, Written(v)) == Written(v) + (head + tail)[|Written(v)|..];
  }

  predicate AllBytes(s: seq<nat>) {
    forall i :: 0 <= i < |s| ==> s[i] < 256
  }

  /** The bytes after a compressed site survive, whatever they are, if and only if the instruction that it
      becomes is not four bytes long. */
  lemma CompressedSiteKeepsNext(isa: Isa, head: seq<nat>, imm: int)
    requires Compressed(head)
    ensures (forall tail: seq<nat> :: |tail| == 2 && AllBytes(tail) ==> PatchOne(isa, head + tail, imm)[2..] == tail)
       <==> InstLength(Widened(isa, head, imm)) != 4
  {
    hide Widened, InstLength, Bytes, PatchOne, FetchShort;
    forall tail: seq<nat> | |tail| == 2
      ensures PatchOne(isa, head + tail, imm)[2..] == tail
         <==> InstLength(Widened(isa, head, imm)) != 4 || tail == Bytes(4, Widened(isa, head, imm))[2..]
    {
      CompressedSite(isa, head, tail, imm);
    }
    var upper := Bytes(4, Widened(isa, head, imm))[2..];
    var other := [if upper[0] == 0 then 1 else 0, 0];
    assert AllBytes(other) && other != upper by { assert other[0] != upper[0]; }
    assert InstLength(Widened(isa, head, imm)) == 4 ==> PatchOne(isa, head + other, imm)[2..] != other;
  }

  /** A two-byte fetch sees two bytes. */
  lemma SameHalf(site: seq<nat>, other: seq<nat>)
    requires |site| == |other| == 4 && site[..2] == other[..2] && FetchShort(site, 0).offset == 2
    ensures FetchShort(other, 0) == FetchShort(site, 0)
  {
    hide Load, Unsigned, And, Shl;
    LowHalf(site);
    LowHalf(other);
    assert site[0] == site[..2][0] == other[0] && site[1] == site[..2][1] == other[1];
    TwoBytes(site, other);
    LowSixteen(Load(site, 0, 4));
    LowSixteen(Load(other, 0, 4));
    TruncateTwice(7, 16, Load(site, 0, 4));
    TruncateTwice(7, 16, Load(other, 0, 4));
    LengthTests(Load(site, 0, 4), Load(other, 0, 4));
  }

  lemma LowHalf(site: seq<nat>)
    requires |site| == 4
    ensures Unsigned(16, Load(site, 0, 4)) == Unsigned(16, Load(site, 0, 2))
  {
    hide Load, Unsigned, Shl;
    LoadJoin(site, 0, 2, 2);
    ShlPow2(0, 16);
    CongIntro(16, Load(site, 0, 4), Load(site, 0, 2), Load(site, 2, 2));
  }

  lemma TwoBytes(a: seq<nat>, b: seq<nat>)
    requires |a| == |b| == 4 && a[0] == b[0] && a[1] == b[1]
    ensures Load(a, 0, 2) == Load(b, 0, 2)
  {
    assert Load(a, 2, 0) == 0 && Load(b, 2, 0) == 0;
    assert Load(a, 1, 1) == a[1] && Load(b, 1, 1) == b[1];
  }
}
