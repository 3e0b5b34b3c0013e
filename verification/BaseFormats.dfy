/**
  The 32-bit instruction formats that the assembler emits and relocates: which bits their operands
  occupy, and what re-encoding a decoded record leaves alone.
 */
module BaseFormats {
  import opened Bits
  import opened Operands
  import opened OperandTable
  import opened Codecs
  import opened CodecRoundTrip

  /** Instruction bit k belongs to an operand of the format. */
  ghost predicate OperandBit(f: Format, k: int) {
    exists i :: 0 <= i < |f.encoder| && SlotBit(f.encoder[i], k)
  }

  ghost predicate SlotBit(s: Slot, k: int) {
    InstBit(Strips(Spec(s.name).segments), k)
  }

  /** A word whose operand bits are clear carries any record when or'd with its encoding, and
      the other bits are the word's own. */
  lemma OrdInBits(f: Format, m: nat, d: Decoded, k: nat)
    requires m < Pow2(32) && forall j: nat :: OperandBit(f, j) ==> !Bit(m, j)
    ensures !OperandBit(f, k) ==> Bit(Or(m, EncodeFormat(f, d)), k) == Bit(m, k)
    ensures CarriesRecord(f, Or(m, EncodeFormat(f, d)), d)
    ensures Or(m, EncodeFormat(f, d)) < Pow2(32)
  {
    hide Bit, Or, Strips, Spec, InstBit, EncodeSlots, Pow2;
    var w := Or(m, EncodeFormat(f, d));
    forall i, j: nat | 0 <= i < |f.encoder| && InstBit(Strips(Spec(f.encoder[i].name).segments), j)
      ensures Bit(w, j) == Bit(EncodeFormat(f, d), j)
    {
      assert SlotBit(f.encoder[i], j);
      BitOr(m, EncodeFormat(f, d), j);
    }
    BitOr(m, EncodeFormat(f, d), k);
    if Bit(EncodeFormat(f, d), k) { EncodesOnlyOperands(f, d, k); }
    EncodingBound32(f, d);
    OrBound(m, EncodeFormat(f, d), 32);
  }

  lemma EncodesOnlyOperands(f: Format, d: Decoded, k: nat)
    requires Bit(EncodeFormat(f, d), k)
    ensures k < 32 && OperandBit(f, k)
  {
    hide Bit, Strips, Spec, InstBit, EncodeSlots;
    EncodeSlotsOnly(f.encoder, d, k);
    var i :| 0 <= i < |f.encoder| && InstBit(Strips(Spec(f.encoder[i].name).segments), k);
    assert SlotBit(f.encoder[i], k);
  }

  lemma EncodingBound32(f: Format, d: Decoded)
    ensures EncodeFormat(f, d) < Pow2(32)
  {
    hide Bit, OperandBit, EncodeFormat, Pow2;
    forall k: nat | 32 <= k ensures !Bit(EncodeFormat(f, d), k) {
      if Bit(EncodeFormat(f, d), k) { EncodesOnlyOperands(f, d, k); }
    }
    BoundedByBits(EncodeFormat(f, d), 32);
  }

  /** What an operand decodes to is always representable. */
  lemma DecodedFits(name: OperandName, w: nat)
    requires w < Pow2(64)
    ensures AllFits(name, w)
  {
    AllWellFormed(name);
    hide Strips, Spec, WellFormed, DecodeWord, Bit, Encode, Signed;
    var op := Spec(name);
    Shape(op);
    forall k: nat | InstBit(Strips(op.segments), k) ensures Bit(w, k) == Bit(Encode(op, Decode(op, w)), k) {
      DecodeThenEncode(op, w, k);
    }
    RoundTrip(op, w, Decode(op, w));
  }

  ghost predicate AllFits(name: OperandName, w: nat) {
    AllWellFormed(name);
    Fits(name, Decode(Spec(name), w))
  }

  /** A decoded record is in range. */
  lemma DecodedInRange(f: Format, w: nat, before: Decoded)
    requires FormatOk(f) && w < Pow2(64)
    ensures InRange(f, DecodeFormat(f, w, before))
  {
    hide Spec, Strips, SlotsApart, AllFedBy, Get, Fits, DecodeAssigns, Pow2, PlacedBy, FedBy, Decode;
    var feed: seq<nat> :| AllFedBy(f, f.decoder, feed);
    FedLength(f, f.decoder, feed);
    forall j | 0 <= j < |f.decoder| ensures FieldInRange(f.decoder[j], DecodeFormat(f, w, before)) {
      DecodeGets(f, f.decoder, feed, w, before, j);
      if f.decoder[j].source.From? { DecodedFits(f.decoder[j].source.name, w); }
    }
  }

  // ---------------------------------------------------------------------------------------------
  // Where the operands are

  lemma RunBits(name: OperandName, op: Operand, lo: nat, imm: nat, n: nat, k: int)
    requires Spec(name) == op && Strips(op.segments) == [Strip(lo, imm, n)]
    ensures InstBit(Strips(Spec(name).segments), k) <==> lo <= k < lo + n
  {
    hide Spec, Strips;
    var strips := Strips(op.segments);
    assert strips[0] == Strip(lo, imm, n);
  }

  lemma RegisterBits(k: int)
    ensures InstBit(Strips(Spec(OpRd).segments), k) <==> 7 <= k < 12
    ensures InstBit(Strips(Spec(OpRs1).segments), k) <==> 15 <= k < 20
    ensures InstBit(Strips(Spec(OpRs2).segments), k) <==> 20 <= k < 25
    ensures InstBit(Strips(Spec(OpImm20).segments), k) <==> 12 <= k < 32
    ensures InstBit(Strips(Spec(OpImm12).segments), k) <==> 20 <= k < 32
    ensures InstBit(Strips(Spec(OpShamt7).segments), k) <==> 20 <= k < 27
  {
    hide Spec, Strips, InstBit, WellFormed;
    RunsWellFormed();
    SpecIs(OpRd); SpecIs(OpRs1); SpecIs(OpRs2); SpecIs(OpImm20); SpecIs(OpImm12); SpecIs(OpShamt7);
    RunBits(OpRd, RD, 7, 0, 5, k);
    RunBits(OpRs1, RS1, 15, 0, 5, k);
    RunBits(OpRs2, RS2, 20, 0, 5, k);
    RunBits(OpImm20, IMM20, 12, 12, 20, k);
    RunBits(OpImm12, IMM12, 20, 0, 12, k);
    RunBits(OpShamt7, SHAMT7, 20, 0, 7, k);
  }

  lemma JumpBits(k: int)
    ensures InstBit(Strips(Spec(OpJimm20).segments), k) <==> 12 <= k < 32
  {
    hide Spec, Strips, WellFormed;
    SpecIs(OpJimm20);
    Jimm20Wiring();
    var s := Strips(Spec(OpJimm20).segments);
    assert s[0] == Strip(31, 20, 1) && s[1] == Strip(21, 1, 10) && s[2] == Strip(20, 11, 1) && s[3] == Strip(12, 12, 8);
  }

  lemma StoreBits(k: int)
    ensures InstBit(Strips(Spec(OpSimm12).segments), k) <==> 25 <= k < 32 || 7 <= k < 12
  {
    hide Spec, Strips, WellFormed;
    SpecIs(OpSimm12);
    Simm12Wiring();
    var s := Strips(Spec(OpSimm12).segments);
    assert s[0] == Strip(25, 5, 7) && s[1] == Strip(7, 0, 5);
  }

  lemma BranchBits(k: int)
    ensures InstBit(Strips(Spec(OpSbimm12).segments), k) <==> 25 <= k < 32 || 7 <= k < 12
  {
    hide Spec, Strips, WellFormed;
    SpecIs(OpSbimm12);
    Sbimm12Wiring();
    var s := Strips(Spec(OpSbimm12).segments);
    assert s[0] == Strip(31, 12, 1) && s[1] == Strip(25, 5, 6) && s[2] == Strip(8, 1, 4) && s[3] == Strip(7, 11, 1);
  }

  /** The operand bits of the base formats. */
  lemma FormatBits(k: int)
    ensures OperandBit(U, k) <==> 7 <= k < 32
    ensures OperandBit(UJ, k) <==> 7 <= k < 32
    ensures OperandBit(I, k) <==> 7 <= k < 12 || 15 <= k < 32
    ensures OperandBit(Codecs.S, k) <==> 7 <= k < 12 || 15 <= k < 32
    ensures OperandBit(SB, k) <==> 7 <= k < 12 || 15 <= k < 32
    ensures OperandBit(I_SH7, k) <==> 7 <= k < 12 || 15 <= k < 27
  {
    hide Spec, Strips, InstBit;
    RegisterBits(k);
    JumpBits(k);
    StoreBits(k);
    BranchBits(k);
    TwoSlots(U, k);
    TwoSlots(UJ, k);
    ThreeSlots(I, k);
    ThreeSlots(Codecs.S, k);
    ThreeSlots(SB, k);
    ThreeSlots(I_SH7, k);
  }

  lemma TwoSlots(f: Format, k: int)
    requires |f.encoder| == 2
    ensures OperandBit(f, k) <==> SlotBit(f.encoder[0], k) || SlotBit(f.encoder[1], k)
  {
    hide SlotBit;
  }

  lemma ThreeSlots(f: Format, k: int)
    requires |f.encoder| == 3
    ensures OperandBit(f, k) <==> SlotBit(f.encoder[0], k) || SlotBit(f.encoder[1], k) || SlotBit(f.encoder[2], k)
  {
    hide SlotBit;
  }

  // ---------------------------------------------------------------------------------------------
  // Which values fit

  /** An operand that lists all its immediate bits from `low` up represents exactly the values of its
      range whose low bits are clear. */
  lemma FitsWhen(name: OperandName, op: Operand, low: nat, v: int)
    requires Spec(name) == op && 0 < op.width && low <= op.width
    requires forall b: nat :: ImmBit(Strips(op.segments), b) <==> low <= b < op.width
    ensures Fits(name, v) <==>
      (if op.signed then FitsSigned(op.width, v) else 0 <= v < Pow2(op.width)) && Unsigned(low, v) == 0
  {
    hide Strips, Spec, Bit, Unsigned, Pow2, ImmBit;
    AllWellFormed(name);
    if Unsigned(low, v) == 0 {
      forall b: nat | b < op.width && Bit(v, b) ensures low <= b {
        BitUnsigned(low, v, b);
        ZeroBits(b);
      }
    }
    if Fits(name, v) {
      forall b: nat | b < low ensures Bit(Unsigned(low, v), b) == Bit(0, b) {
        BitUnsigned(low, v, b);
        ZeroBits(b);
      }
      SameBits(Unsigned(low, v), 0, low);
    }
  }

  lemma OneRunImm(op: Operand, lo: nat, imm: nat, n: nat, b: int)
    requires Strips(op.segments) == [Strip(lo, imm, n)]
    ensures ImmBit(Strips(op.segments), b) <==> imm <= b < imm + n
  {
    hide Strips;
    var strips := Strips(op.segments);
    assert strips[0] == Strip(lo, imm, n);
  }

  lemma RegisterRange(r: int)
    ensures Fits(OpRd, r) <==> 0 <= r < 32
    ensures Fits(OpRs1, r) <==> 0 <= r < 32
    ensures Fits(OpRs2, r) <==> 0 <= r < 32
  {
    hide Spec, Strips, Fits, WellFormed, Pow2, Unsigned, ImmBit;
    Pow2Values();
    RunsWellFormed();
    SpecIs(OpRd); SpecIs(OpRs1); SpecIs(OpRs2);
    NoBits(r);
    forall b: nat ensures ImmBit(Strips(RD.segments), b) <==> b < 5 { OneRunImm(RD, 7, 0, 5, b); }
    FitsWhen(OpRd, RD, 0, r);
    forall b: nat ensures ImmBit(Strips(RS1.segments), b) <==> b < 5 { OneRunImm(RS1, 15, 0, 5, b); }
    FitsWhen(OpRs1, RS1, 0, r);
    forall b: nat ensures ImmBit(Strips(RS2.segments), b) <==> b < 5 { OneRunImm(RS2, 20, 0, 5, b); }
    FitsWhen(OpRs2, RS2, 0, r);
  }

  lemma ImmediateRange(v: int)
    ensures Fits(OpImm20, v) <==> FitsSigned(32, v) && Unsigned(12, v) == 0
    ensures Fits(OpImm12, v) <==> FitsSigned(12, v)
    ensures Fits(OpShamt7, v) <==> 0 <= v < 128
  {
    hide Spec, Strips, Fits, WellFormed, Pow2, Unsigned, ImmBit;
    Pow2Values();
    RunsWellFormed();
    SpecIs(OpImm20); SpecIs(OpImm12); SpecIs(OpShamt7);
    NoBits(v);
    forall b: nat ensures ImmBit(Strips(IMM20.segments), b) <==> 12 <= b < 32 { OneRunImm(IMM20, 12, 12, 20, b); }
    FitsWhen(OpImm20, IMM20, 12, v);
    forall b: nat ensures ImmBit(Strips(IMM12.segments), b) <==> b < 12 { OneRunImm(IMM12, 20, 0, 12, b); }
    FitsWhen(OpImm12, IMM12, 0, v);
    forall b: nat ensures ImmBit(Strips(SHAMT7.segments), b) <==> b < 7 { OneRunImm(SHAMT7, 20, 0, 7, b); }
    FitsWhen(OpShamt7, SHAMT7, 0, v);
  }

  lemma JumpRange(v: int)
    ensures Fits(OpJimm20, v) <==> FitsSigned(21, v) && v % 2 == 0
  {
    hide Spec, Strips, WellFormed, Pow2, Unsigned, Fits;
    SpecIs(OpJimm20);
    Jimm20Wiring();
    var s := Strips(JIMM20.segments);
    assert s[0] == Strip(31, 20, 1) && s[1] == Strip(21, 1, 10) && s[2] == Strip(20, 11, 1) && s[3] == Strip(12, 12, 8);
    forall b: nat ensures ImmBit(s, b) <==> 1 <= b < 21 {}
    FitsWhen(OpJimm20, JIMM20, 1, v);
    Parity(v);
  }

  lemma BranchRange(v: int)
    ensures Fits(OpSbimm12, v) <==> FitsSigned(13, v) && v % 2 == 0
  {
    hide Spec, Strips, WellFormed, Pow2, Unsigned, Fits;
    SpecIs(OpSbimm12);
    Sbimm12Wiring();
    var s := Strips(SBIMM12.segments);
    assert s[0] == Strip(31, 12, 1) && s[1] == Strip(25, 5, 6) && s[2] == Strip(8, 1, 4) && s[3] == Strip(7, 11, 1);
    forall b: nat ensures ImmBit(s, b) <==> 1 <= b < 13 {}
    FitsWhen(OpSbimm12, SBIMM12, 1, v);
    Parity(v);
  }

  lemma StoreRange(v: int)
    ensures Fits(OpSimm12, v) <==> FitsSigned(12, v)
  {
    hide Spec, Strips, WellFormed, Pow2, Unsigned, Fits;
    SpecIs(OpSimm12);
    Simm12Wiring();
    var s := Strips(SIMM12.segments);
    assert s[0] == Strip(25, 5, 7) && s[1] == Strip(7, 0, 5);
    forall b: nat ensures ImmBit(s, b) <==> b < 12 {}
    FitsWhen(OpSimm12, SIMM12, 0, v);
    NoBits(v);
  }

  lemma Parity(v: int)
    ensures Unsigned(1, v) == v % 2
  {
    NoBits(v / 2);
  }
}
