/**
  The rows of the opcode table (meta/opcodes) of RV64I with the codecs u, uj, i, s and sb: lui, auipc, jal,
  jalr, branches, loads, stores and the immediate operations that are not shifts.  They meet what
  relocation asks of the tables.
 */
module BaseIsa {
  import opened Bits
  import opened Operands
  import opened Codecs
  import opened BaseFormats
  import opened InstBuffer
  import opened Relocation
  import opened Layouts
  import CodecLayouts

  function Opcode(w: nat): nat { Unsigned(7, w) }

  function Funct3(w: nat): nat { Unsigned(3, Shr(w, 12)) }

  /** The rows, by opcode and funct3. */
  predicate Row(c: nat, f: nat) {
    || c == 0x37 || c == 0x17 || c == 0x6f
    || (c == 0x67 && f == 0)
    || (c == 0x63 && f != 2 && f != 3)
    || (c == 0x03 && f != 7)
    || (c == 0x23 && f <= 3)
    || (c == 0x13 && f != 1 && f != 5)
  }

  predicate Known(w: nat) {
    Row(Opcode(w), Funct3(w))
  }

  function RowCodec(c: nat): Format {
    if c == 0x37 || c == 0x17 then U
    else if c == 0x6f then UJ
    else if c == 0x23 then Codecs.S
    else if c == 0x63 then SB
    else I
  }

  function Codec(w: nat): Format {
    if Known(w) then RowCodec(Opcode(w)) else NONE
  }

  /** Opcode, and funct3 where the format has one. */
  function Match(w: nat): nat {
    var c := Opcode(w);
    if c == 0x37 || c == 0x17 || c == 0x6f then Unsigned(7, w)
    else And(w, 0x707f)
  }

  function Record(w: nat): Decoded {
    DecodeFormat(Codec(w), w, BLANK)
  }

  const BASE := Isa(Codec, Match, Record)

  lemma OpcodeLength(c: nat)
    requires c == 0x37 || c == 0x17 || c == 0x6f || c == 0x67 || c == 0x03 || c == 0x13 || c == 0x23 || c == 0x63
    ensures And(c, 0x3) == 0x3 && And(c, 0x1c) != 0x1c
  {
    hide And;
    LowTwo(c);
    if c == 0x37 { Middle(c, 0xd); } else if c == 0x17 { Middle(c, 0x5); } else if c == 0x6f { Middle(c, 0x1b); }
    else if c == 0x67 { Middle(c, 0x19); } else if c == 0x03 { Middle(c, 0); } else if c == 0x13 { Middle(c, 4); }
    else if c == 0x23 { Middle(c, 8); } else { Middle(c, 0x18); }
  }

  lemma LowTwo(c: nat)
    requires c % 4 == 3
    ensures And(c, 0x3) == 0x3
  {
    hide And;
    AndStep(c, 3);
    AndStep(c / 2, 1);
    AndZero(c / 2 / 2);
  }

  /** Bits 4 to 2 are not all ones. */
  lemma Middle(c: nat, h: nat)
    requires c / 2 / 2 == h && h % 8 != 7
    ensures And(c, 0x1c) != 0x1c
  {
    hide And;
    AndStep(c, 0x1c);
    AndStep(c / 2, 0xe);
    AndStep(h, 7);
    AndStep(h / 2, 3);
    AndStep(h / 2 / 2, 1);
    AndZero(h / 2 / 2 / 2);
  }

  lemma KnownLength(w: nat)
    requires Known(w)
    ensures InstLength(w) == 4
  {
    hide And, Unsigned, Pow2, Funct3;
    TruncateTwice(7, 7, w);
    LengthTests(w, Opcode(w));
    OpcodeLength(Opcode(w));
  }

  lemma FunctMask(k: nat)
    requires k < 32
    ensures Bit(0x707f, k) <==> k < 7 || 12 <= k < 15
  {
    hide Bit, Shl, Pow2;
    Pow2Values();
    MaskBits(7, k);
    MaskBits(3, if k >= 12 then k - 12 else 0);
    ShlIsMul(7, 12);
    BitShl(7, 12, k);
    SplitBits(k);
  }

  /** 0x707f is two runs of ones. */
  lemma SplitBits(k: nat)
    requires k < 32
    ensures Bit(0x707f, k) == (Bit(0x7f, k) || Bit(0x7000, k))
  {
    hide Bit;
    BitOr(0x7f, 0x7000, k);
    OrValue();
  }

  lemma OrValue()
    ensures Or(0x7f, 0x7000) == 0x707f
  {
    hide Or;
    var y := ShlNat(7, 12);
    assert y == 0x7000 by { hide Or; ShlIsMul(7, 12); Pow2Values(); }
    assert 0x7f < Pow2(12) by { Pow2Values(); }
    OrIsJoin(0x7f, 7, 12);
  }

  lemma MatchBit(w: nat, k: nat)
    requires Known(w) && k < 32
    ensures Bit(Match(w), k) <==> !OperandBit(Codec(w), k) && Bit(w, k)
  {
    hide Bit, And, Unsigned, OperandBit, U, UJ, I, Codecs.S, SB, Funct3;
    FormatBits(k);
    FunctMask(k);
    BitAnd(w, 0x707f, k);
    BitUnsigned(7, w, k);
  }

  lemma OnlyOpcodeMatters(w: nat, v: nat)
    requires Known(w) && v < Pow2(32) && SameOpcode(Codec(w), w, v)
    ensures Codec(v) == Codec(w) && Match(v) == Match(w)
  {
    hide Bit, And, Unsigned, OperandBit, U, UJ, I, Codecs.S, SB, Pow2, Funct3, Match;
    SameLow(w, v);
    SameFunct3(w, v);
    assert Codec(v) == Codec(w);
    MatchBound(w);
    MatchBound(v);
    forall k: nat | k < 32 ensures Bit(Match(w), k) == Bit(Match(v), k) {
      MatchBit(w, k);
      MatchBit(v, k);
    }
    SameBits(Match(w), Match(v), 32);
  }

  lemma SameLow(w: nat, v: nat)
    requires Known(w) && SameOpcode(Codec(w), w, v)
    ensures Opcode(v) == Opcode(w)
  {
    hide Bit, Unsigned, OperandBit, Pow2, Codec, Known;
    forall k: nat | k < 7 ensures Bit(Unsigned(7, w), k) == Bit(Unsigned(7, v), k) {
      if OperandBit(Codec(w), k) { KnownBase(w); LowBitsAreOpcode(Codec(w), k); }
      BitUnsigned(7, w, k);
      BitUnsigned(7, v, k);
    }
    SameBits(Unsigned(7, w), Unsigned(7, v), 7);
  }

  /** Formats with an rs1 leave funct3 alone; the others have none. */
  lemma SameFunct3(w: nat, v: nat)
    requires Known(w) && SameOpcode(Codec(w), w, v) && Opcode(v) == Opcode(w)
    ensures Known(v)
  {
    hide Bit, Unsigned, Shr, OperandBit, Pow2, U, UJ, I, Codecs.S, SB;
    var c := Opcode(w);
    if c != 0x37 && c != 0x17 && c != 0x6f {
      forall k: nat | k < 3 ensures Bit(Funct3(w), k) == Bit(Funct3(v), k) {
        FormatBits(k + 12);
        BitUnsigned(3, Shr(w, 12), k);
        BitUnsigned(3, Shr(v, 12), k);
        BitShr(w, 12, k);
        BitShr(v, 12, k);
      }
      SameBits(Funct3(w), Funct3(v), 3);
    }
  }

  lemma KnownBase(w: nat)
    requires Known(w)
    ensures BaseFormat(Codec(w))
  {
    hide U, UJ, I, Codecs.S, SB, Unsigned, Funct3;
  }

  lemma MatchBound(w: nat)
    ensures Match(w) < Pow2(32)
  {
    hide And, Unsigned, Pow2;
    Pow2Values();
    AndBound(w, 0x707f, 32);
  }

  /** Every word of one of these rows is understood. */
  lemma TablesUnderstand(w: nat)
    requires w < Pow2(32) && Known(w)
    ensures Understood(BASE, w)
  {
    hide Bit, OperandBit, Pow2, InstLength, Codec, Match, Known, SameOpcode, BaseFormat, DecodeFormat;
    KnownLength(w);
    KnownBase(w);
    MatchBound(w);
    forall k: nat | k < 32 ensures Bit(Match(w), k) <==> !OperandBit(Codec(w), k) && Bit(w, k) { MatchBit(w, k); }
    forall v: nat | v < Pow2(32) && SameOpcode(Codec(w), w, v) ensures Codec(v) == Codec(w) && Match(v) == Match(w) {
      OnlyOpcodeMatters(w, v);
    }
  }

  // How the words of each major opcode are read, field by field.

  /** lui and auipc */
  lemma UpperReads(w: nat)
    requires w < Pow2(64) && Known(w) && (Opcode(w) == 0x37 || Opcode(w) == 0x17)
    ensures Record(w) == BLANK.(rd := Part(w, 11, 7, 0), imm := Signed(32, Part(w, 31, 12, 12)))
  {
    hide U, Unsigned, Funct3, Part, Signed, Pow2, DecodeFormat, EncodeFormat;
    CodecLayouts.ULayout(BLANK, w, BLANK);
  }

  /** jal */
  lemma JalReads(w: nat)
    requires w < Pow2(64) && Known(w) && (Opcode(w) == 0x6f)
    ensures Record(w) == BLANK.(rd := Part(w, 11, 7, 0),
      imm := Signed(21, Part(w, 31, 31, 20) + Part(w, 30, 21, 1) + Part(w, 20, 20, 11) + Part(w, 19, 12, 12)))
  {
    hide UJ, Unsigned, Funct3, Part, Signed, Pow2, DecodeFormat, EncodeFormat;
    CodecLayouts.UjLayout(BLANK, w, BLANK);
  }

  /** Branches */
  lemma BranchReads(w: nat)
    requires w < Pow2(64) && Known(w) && (Opcode(w) == 0x63)
    ensures Record(w) == BLANK.(rs1 := Part(w, 19, 15, 0), rs2 := Part(w, 24, 20, 0),
      imm := Signed(13, Part(w, 31, 31, 12) + Part(w, 30, 25, 5) + Part(w, 11, 8, 1) + Part(w, 7, 7, 11)))
  {
    hide SB, Unsigned, Funct3, Part, Signed, Pow2, DecodeFormat, EncodeFormat;
    CodecLayouts.SbLayout(BLANK, w, BLANK);
  }

  /** Stores */
  lemma StoreReads(w: nat)
    requires w < Pow2(64) && Known(w) && (Opcode(w) == 0x23)
    ensures Record(w) == BLANK.(rs1 := Part(w, 19, 15, 0), rs2 := Part(w, 24, 20, 0),
      imm := Signed(12, Part(w, 31, 25, 5) + Part(w, 11, 7, 0)))
  {
    hide Codecs.S, Unsigned, Funct3, Part, Signed, Pow2, DecodeFormat, EncodeFormat;
    CodecLayouts.SLayout(BLANK, w, BLANK);
  }

  /** jalr, loads and immediate operations */
  lemma ImmediateReads(w: nat)
    requires w < Pow2(64) && Known(w) && (Opcode(w) == 0x67 || Opcode(w) == 0x03 || Opcode(w) == 0x13)
    ensures Record(w) == BLANK.(rd := Part(w, 11, 7, 0), rs1 := Part(w, 19, 15, 0),
      imm := Signed(12, Part(w, 31, 20, 0)))
  {
    hide I, Unsigned, Funct3, Part, Signed, Pow2, DecodeFormat, EncodeFormat;
    CodecLayouts.ILayout(BLANK, w, BLANK);
  }
}
