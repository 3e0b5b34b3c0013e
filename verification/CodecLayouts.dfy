/**
  Where every instruction format has its fields: each encoder of src/asm/encode.h as a sum of shifted bit
  fields of the record, and each decoder of src/asm/decode.h as bit fields of the word.
 */
module CodecLayouts {
  import opened Bits
  import opened Operands
  import opened OperandTable
  import opened Codecs
  import opened CodecRoundTrip
  import opened InstBuffer
  import opened Layouts

  // ---------------------------------------------------------------------------------------------
  // Codecs

  /** What one slot contributes. */
  function SlotWord(s: Slot, d: Decoded): nat {
    Encode(Spec(s.name), Get(d, s.field) + s.bias)
  }

  /** Operands that do not overlap add up. */
  lemma EncodeCons(slots: seq<Slot>, d: Decoded)
    requires SlotsApart(slots) && slots != []
    ensures EncodeSlots(slots, d) == SlotWord(slots[0], d) + EncodeSlots(slots[1..], d)
  {
    hide Bit, Encode, Spec, Strips, WellFormed, InstBit, Or, Get, NamesApart;
    var s, rest := slots[0], slots[1..];
    var a, b := SlotWord(s, d), EncodeSlots(rest, d);
    AllWellFormed(s.name);
    forall k: nat ensures !(Bit(a, k) && Bit(b, k)) {
      EncodeBit(Spec(s.name), Get(d, s.field) + s.bias, k);
      if Bit(a, k) { OthersAreSilent(s.name, rest, d, k); }
    }
    forall k: nat ensures Bit(EncodeSlots(slots, d), k) == Bit(a + b, k) {
      SumBit(a, b, k);
      BitOr(a, b, k);
    }
    EqualBits(EncodeSlots(slots, d), a + b);
  }

  lemma Encode0(f: Format, d: Decoded)
    requires |f.encoder| == 0
    ensures EncodeFormat(f, d) == 0
  {}

  lemma Encode1(f: Format, d: Decoded)
    requires SlotsApart(f.encoder) && |f.encoder| == 1
    ensures EncodeFormat(f, d) == SlotWord(f.encoder[0], d)
  {
    hide SlotWord, NamesApart;
    EncodeCons(f.encoder, d);
    assert f.encoder[1..] == [];
  }

  lemma Encode2(f: Format, d: Decoded)
    requires SlotsApart(f.encoder) && |f.encoder| == 2
    ensures EncodeFormat(f, d) == SlotWord(f.encoder[0], d) + SlotWord(f.encoder[1], d)
  {
    hide SlotWord, NamesApart;
    EncodeCons(f.encoder, d);
    Encode1(f.(encoder := f.encoder[1..]), d);
  }

  lemma Encode3(f: Format, d: Decoded)
    requires SlotsApart(f.encoder) && |f.encoder| == 3
    ensures EncodeFormat(f, d) == SlotWord(f.encoder[0], d) + SlotWord(f.encoder[1], d) + SlotWord(f.encoder[2], d)
  {
    hide SlotWord, NamesApart;
    EncodeCons(f.encoder, d);
    Encode2(f.(encoder := f.encoder[1..]), d);
  }

  lemma Encode4(f: Format, d: Decoded)
    requires SlotsApart(f.encoder) && |f.encoder| == 4
    ensures EncodeFormat(f, d) == SlotWord(f.encoder[0], d) + SlotWord(f.encoder[1], d) + SlotWord(f.encoder[2], d)
                                  + SlotWord(f.encoder[3], d)
  {
    hide SlotWord, NamesApart;
    EncodeCons(f.encoder, d);
    Encode3(f.(encoder := f.encoder[1..]), d);
  }

  lemma Encode5(f: Format, d: Decoded)
    requires SlotsApart(f.encoder) && |f.encoder| == 5
    ensures EncodeFormat(f, d) == SlotWord(f.encoder[0], d) + SlotWord(f.encoder[1], d) + SlotWord(f.encoder[2], d)
                                  + SlotWord(f.encoder[3], d) + SlotWord(f.encoder[4], d)
  {
    hide SlotWord, NamesApart;
    EncodeCons(f.encoder, d);
    Encode4(f.(encoder := f.encoder[1..]), d);
  }

  /** One assignment of a decoder. */
  function Step(a: Assign, w: nat, d: Decoded): Decoded {
    Set(d, a.field, SourceValue(a.source, w))
  }

  lemma Decode1(f: Format, w: nat, b: Decoded)
    requires |f.decoder| == 1
    ensures DecodeFormat(f, w, b) == Step(f.decoder[0], w, b)
  {
    hide Step;
    DecodeLast(f.decoder, w, b);
    DecodeNothing(f.decoder[..0], w, b);
  }

  lemma DecodeNothing(assigns: seq<Assign>, w: nat, b: Decoded)
    requires assigns == []
    ensures DecodeAssigns(assigns, w, b) == b
  {}

  lemma Decode2(f: Format, w: nat, b: Decoded)
    requires |f.decoder| == 2
    ensures DecodeFormat(f, w, b) == Step(f.decoder[1], w, Step(f.decoder[0], w, b))
  {
    hide Step;
    DecodeLast(f.decoder, w, b);
    Decode1(f.(decoder := f.decoder[..1]), w, b);
  }

  lemma Decode3(f: Format, w: nat, b: Decoded)
    requires |f.decoder| == 3
    ensures DecodeFormat(f, w, b) == Step(f.decoder[2], w, Step(f.decoder[1], w, Step(f.decoder[0], w, b)))
  {
    hide Step;
    DecodeLast(f.decoder, w, b);
    Decode2(f.(decoder := f.decoder[..2]), w, b);
  }

  lemma Decode4(f: Format, w: nat, b: Decoded)
    requires |f.decoder| == 4
    ensures DecodeFormat(f, w, b)
         == Step(f.decoder[3], w, Step(f.decoder[2], w, Step(f.decoder[1], w, Step(f.decoder[0], w, b))))
  {
    hide Step;
    DecodeLast(f.decoder, w, b);
    Decode3(f.(decoder := f.decoder[..3]), w, b);
  }

  lemma Decode5(f: Format, w: nat, b: Decoded)
    requires |f.decoder| == 5
    ensures DecodeFormat(f, w, b) == Step(f.decoder[4], w,
      Step(f.decoder[3], w, Step(f.decoder[2], w, Step(f.decoder[1], w, Step(f.decoder[0], w, b)))))
  {
    hide Step;
    DecodeLast(f.decoder, w, b);
    Decode4(f.(decoder := f.decoder[..4]), w, b);
  }

  lemma Decode6(f: Format, w: nat, b: Decoded)
    requires |f.decoder| == 6
    ensures DecodeFormat(f, w, b) == Step(f.decoder[5], w, Step(f.decoder[4], w,
      Step(f.decoder[3], w, Step(f.decoder[2], w, Step(f.decoder[1], w, Step(f.decoder[0], w, b))))))
  {
    hide Step;
    DecodeLast(f.decoder, w, b);
    Decode5(f.(decoder := f.decoder[..5]), w, b);
  }

  lemma {:induction false} DecodeLast(assigns: seq<Assign>, w: nat, b: Decoded)
    requires assigns != []
    ensures var n := |assigns| - 1;
            DecodeAssigns(assigns, w, b) == Step(assigns[n], w, DecodeAssigns(assigns[..n], w, b))
    decreases |assigns|
  {
    hide Set, SourceValue;
    var n := |assigns| - 1;
    if n > 0 {
      DecodeLast(assigns[1..], w, Step(assigns[0], w, b));
      assert assigns[1..][..n - 1] == assigns[..n][1..];
    }
  }

  lemma NoneLayout(d: Decoded, w: nat, b: Decoded)
    requires w < Pow2(64)
    ensures EncodeFormat(NONE, d) == 0
    ensures DecodeFormat(NONE, w, b) == b.(rd := 0, rs1 := 0, rs2 := 0, imm := 0)
  {
    hide Part, Encode, Decode, Spec, Signed, Pow2, EncodeFormat, DecodeFormat, SlotsApart;
    NoneFormatApart(); Encode0(NONE, d); Decode4(NONE, w, b);
  }

  lemma CiNoneLayout(d: Decoded, w: nat, b: Decoded)
    requires w < Pow2(64)
    ensures EncodeFormat(CI_NONE, d) == 0
    ensures DecodeFormat(CI_NONE, w, b) == b.(rd := 0, rs1 := 0, rs2 := 0, imm := 0)
  {
    hide Part, Encode, Decode, Spec, Signed, Pow2, EncodeFormat, DecodeFormat, SlotsApart;
    CiNoneFormatApart(); Encode0(CI_NONE, d); Decode4(CI_NONE, w, b);
  }

  lemma CrLayout(d: Decoded, w: nat, b: Decoded)
    requires w < Pow2(64)
    ensures EncodeFormat(CR, d) == Part(d.rd, 4, 0, 7) + Part(d.rs2, 4, 0, 2)
    ensures DecodeFormat(CR, w, b) == b.(rd := Part(w, 11, 7, 0), rs1 := Part(w, 11, 7, 0), rs2 := Part(w, 6, 2, 0),
      imm := 0)
  {
    hide Part, Encode, Decode, Spec, Signed, Pow2, EncodeFormat, DecodeFormat, SlotsApart;
    CrFormatApart(); Encode2(CR, d); Decode4(CR, w, b);
    SpecIs(OpCrs1rd); SpecIs(OpCrs2);
    RdLayout(d.rd, w); Crs2Layout(d.rs2, w);
  }

  lemma CrMvLayout(d: Decoded, w: nat, b: Decoded)
    requires w < Pow2(64)
    ensures EncodeFormat(CR_MV, d) == Part(d.rd, 4, 0, 7) + Part(d.rs1, 4, 0, 2)
    ensures DecodeFormat(CR_MV, w, b) == b.(rd := Part(w, 11, 7, 0), rs1 := Part(w, 6, 2, 0), rs2 := 0, imm := 0)
  {
    hide Part, Encode, Decode, Spec, Signed, Pow2, EncodeFormat, DecodeFormat, SlotsApart;
    CrMvFormatApart(); Encode2(CR_MV, d); Decode4(CR_MV, w, b);
    SpecIs(OpCrd); SpecIs(OpCrs2);
    RdLayout(d.rd, w); Crs2Layout(d.rs1, w);
  }

  lemma CrJalrLayout(d: Decoded, w: nat, b: Decoded)
    requires w < Pow2(64)
    ensures EncodeFormat(CR_JALR, d) == Part(d.rs1, 4, 0, 7)
    ensures DecodeFormat(CR_JALR, w, b) == b.(rd := 1, rs1 := Part(w, 11, 7, 0), rs2 := 0, imm := 0)
  {
    hide Part, Encode, Decode, Spec, Signed, Pow2, EncodeFormat, DecodeFormat, SlotsApart;
    CrJalrFormatApart(); Encode1(CR_JALR, d); Decode4(CR_JALR, w, b);
    SpecIs(OpCrs1);
    RdLayout(d.rs1, w);
  }

  lemma CrJrLayout(d: Decoded, w: nat, b: Decoded)
    requires w < Pow2(64)
    ensures EncodeFormat(CR_JR, d) == Part(d.rs1, 4, 0, 7)
    ensures DecodeFormat(CR_JR, w, b) == b.(rd := 0, rs1 := Part(w, 11, 7, 0), rs2 := 0, imm := 0)
  {
    hide Part, Encode, Decode, Spec, Signed, Pow2, EncodeFormat, DecodeFormat, SlotsApart;
    CrJrFormatApart(); Encode1(CR_JR, d); Decode4(CR_JR, w, b);
    SpecIs(OpCrs1);
    RdLayout(d.rs1, w);
  }

  lemma CiLayout(d: Decoded, w: nat, b: Decoded)
    requires w < Pow2(64)
    ensures EncodeFormat(CI, d) == Part(d.rs1, 4, 0, 7) + Part(d.imm, 5, 5, 12) + Part(d.imm, 4, 0, 2)
    ensures DecodeFormat(CI, w, b) == b.(rd := Part(w, 11, 7, 0), rs1 := Part(w, 11, 7, 0), rs2 := 0,
      imm := Signed(6, Part(w, 12, 12, 5) + Part(w, 6, 2, 0)))
  {
    hide Part, Encode, Decode, Spec, Signed, Pow2, EncodeFormat, DecodeFormat, SlotsApart;
    CiFormatApart(); Encode2(CI, d); Decode4(CI, w, b);
    SpecIs(OpCrs1rd); SpecIs(OpCimmi);
    RdLayout(d.rs1, w); CimmiLayout(d.imm, w);
  }

  lemma CiSh5Layout(d: Decoded, w: nat, b: Decoded)
    requires w < Pow2(64)
    ensures EncodeFormat(CI_SH5, d) == Part(d.rs1, 4, 0, 7) + Part(d.imm, 4, 0, 2)
    ensures DecodeFormat(CI_SH5, w, b) == b.(rd := Part(w, 11, 7, 0), rs1 := Part(w, 11, 7, 0), rs2 := 0,
      imm := Part(w, 6, 2, 0))
  {
    hide Part, Encode, Decode, Spec, Signed, Pow2, EncodeFormat, DecodeFormat, SlotsApart;
    CiSh5FormatApart(); Encode2(CI_SH5, d); Decode4(CI_SH5, w, b);
    SpecIs(OpCrs1rd); SpecIs(OpCimmsh5);
    RdLayout(d.rs1, w); Crs2Layout(d.imm, w);
  }

  lemma CiSh6Layout(d: Decoded, w: nat, b: Decoded)
    requires w < Pow2(64)
    ensures EncodeFormat(CI_SH6, d) == Part(d.rs1, 4, 0, 7) + Part(d.imm, 5, 5, 12) + Part(d.imm, 4, 0, 2)
    ensures DecodeFormat(CI_SH6, w, b) == b.(rd := Part(w, 11, 7, 0), rs1 := Part(w, 11, 7, 0), rs2 := 0,
      imm := Part(w, 12, 12, 5) + Part(w, 6, 2, 0))
  {
    hide Part, Encode, Decode, Spec, Signed, Pow2, EncodeFormat, DecodeFormat, SlotsApart;
    CiSh6FormatApart(); Encode2(CI_SH6, d); Decode4(CI_SH6, w, b);
    SpecIs(OpCrs1rd); SpecIs(OpCimmsh6);
    RdLayout(d.rs1, w); Cimmsh6Layout(d.imm, w);
  }

  lemma CiLiLayout(d: Decoded, w: nat, b: Decoded)
    requires w < Pow2(64)
    ensures EncodeFormat(CI_LI, d) == Part(d.rd, 4, 0, 7) + Part(d.imm, 5, 5, 12) + Part(d.imm, 4, 0, 2)
    ensures DecodeFormat(CI_LI, w, b) == b.(rd := Part(w, 11, 7, 0), rs1 := 0, rs2 := 0,
      imm := Signed(6, Part(w, 12, 12, 5) + Part(w, 6, 2, 0)))
  {
    hide Part, Encode, Decode, Spec, Signed, Pow2, EncodeFormat, DecodeFormat, SlotsApart;
    CiLiFormatApart(); Encode2(CI_LI, d); Decode4(CI_LI, w, b);
    SpecIs(OpCrd); SpecIs(OpCimmi);
    RdLayout(d.rd, w); CimmiLayout(d.imm, w);
  }

  lemma CiLuiLayout(d: Decoded, w: nat, b: Decoded)
    requires w < Pow2(64)
    ensures EncodeFormat(CI_LUI, d) == Part(d.rd, 4, 0, 7) + Part(d.imm, 17, 17, 12) + Part(d.imm, 16, 12, 2)
    ensures DecodeFormat(CI_LUI, w, b) == b.(rd := Part(w, 11, 7, 0), rs1 := 0, rs2 := 0,
      imm := Signed(18, Part(w, 12, 12, 17) + Part(w, 6, 2, 12)))
  {
    hide Part, Encode, Decode, Spec, Signed, Pow2, EncodeFormat, DecodeFormat, SlotsApart;
    CiLuiFormatApart(); Encode2(CI_LUI, d); Decode4(CI_LUI, w, b);
    SpecIs(OpCrd); SpecIs(OpCimmui);
    RdLayout(d.rd, w); CimmuiLayout(d.imm, w);
  }

  lemma CiLwspLayout(d: Decoded, w: nat, b: Decoded)
    requires w < Pow2(64)
    ensures EncodeFormat(CI_LWSP, d) == Part(d.rd, 4, 0, 7) + Part(d.imm, 5, 5, 12) + Part(d.imm, 4, 2, 4)
      + Part(d.imm, 7, 6, 2)
    ensures DecodeFormat(CI_LWSP, w, b) == b.(rd := Part(w, 11, 7, 0), rs1 := 2, rs2 := 0,
      imm := Part(w, 12, 12, 5) + Part(w, 6, 4, 2) + Part(w, 3, 2, 6))
  {
    hide Part, Encode, Decode, Spec, Signed, Pow2, EncodeFormat, DecodeFormat, SlotsApart;
    CiLwspFormatApart(); Encode2(CI_LWSP, d); Decode4(CI_LWSP, w, b);
    SpecIs(OpCrd); SpecIs(OpCimmlwsp);
    RdLayout(d.rd, w); CimmlwspLayout(d.imm, w);
  }

  lemma CiLdspLayout(d: Decoded, w: nat, b: Decoded)
    requires w < Pow2(64)
    ensures EncodeFormat(CI_LDSP, d) == Part(d.rd, 4, 0, 7) + Part(d.imm, 5, 5, 12) + Part(d.imm, 4, 3, 5)
      + Part(d.imm, 8, 6, 2)
    ensures DecodeFormat(CI_LDSP, w, b) == b.(rd := Part(w, 11, 7, 0), rs1 := 2, rs2 := 0,
      imm := Part(w, 12, 12, 5) + Part(w, 6, 5, 3) + Part(w, 4, 2, 6))
  {
    hide Part, Encode, Decode, Spec, Signed, Pow2, EncodeFormat, DecodeFormat, SlotsApart;
    CiLdspFormatApart(); Encode2(CI_LDSP, d); Decode4(CI_LDSP, w, b);
    SpecIs(OpCrd); SpecIs(OpCimmldsp);
    RdLayout(d.rd, w); CimmldspLayout(d.imm, w);
  }

  lemma CiLqspLayout(d: Decoded, w: nat, b: Decoded)
    requires w < Pow2(64)
    ensures EncodeFormat(CI_LQSP, d) == Part(d.rd, 4, 0, 7) + Part(d.imm, 5, 5, 12) + Part(d.imm, 4, 4, 6)
      + Part(d.imm, 9, 6, 2)
    ensures DecodeFormat(CI_LQSP, w, b) == b.(rd := Part(w, 11, 7, 0), rs1 := 2, rs2 := 0,
      imm := Part(w, 12, 12, 5) + Part(w, 6, 6, 4) + Part(w, 5, 2, 6))
  {
    hide Part, Encode, Decode, Spec, Signed, Pow2, EncodeFormat, DecodeFormat, SlotsApart;
    CiLqspFormatApart(); Encode2(CI_LQSP, d); Decode4(CI_LQSP, w, b);
    SpecIs(OpCrd); SpecIs(OpCimmlqsp);
    RdLayout(d.rd, w); CimmlqspLayout(d.imm, w);
  }

  lemma Ci16spLayout(d: Decoded, w: nat, b: Decoded)
    requires w < Pow2(64)
    ensures EncodeFormat(CI_16SP, d) == Part(d.imm, 9, 9, 12) + Part(d.imm, 4, 4, 6) + Part(d.imm, 6, 6, 5)
      + Part(d.imm, 8, 7, 3) + Part(d.imm, 5, 5, 2)
    ensures DecodeFormat(CI_16SP, w, b) == b.(rd := 2, rs1 := 2, rs2 := 0,
      imm := Signed(10, Part(w, 12, 12, 9) + Part(w, 6, 6, 4) + Part(w, 5, 5, 6) + Part(w, 4, 3, 7)
        + Part(w, 2, 2, 5)))
  {
    hide Part, Encode, Decode, Spec, Signed, Pow2, EncodeFormat, DecodeFormat, SlotsApart;
    Ci16spFormatApart(); Encode1(CI_16SP, d); Decode4(CI_16SP, w, b);
    SpecIs(OpCimm16sp);
    Cimm16spLayout(d.imm, w);
  }

  lemma CssSwspLayout(d: Decoded, w: nat, b: Decoded)
    requires w < Pow2(64)
    ensures EncodeFormat(CSS_SWSP, d) == Part(d.rs2, 4, 0, 2) + Part(d.imm, 5, 2, 9) + Part(d.imm, 7, 6, 7)
    ensures DecodeFormat(CSS_SWSP, w, b) == b.(rd := 0, rs1 := 2, rs2 := Part(w, 6, 2, 0),
      imm := Part(w, 12, 9, 2) + Part(w, 8, 7, 6))
  {
    hide Part, Encode, Decode, Spec, Signed, Pow2, EncodeFormat, DecodeFormat, SlotsApart;
    CssSwspFormatApart(); Encode2(CSS_SWSP, d); Decode4(CSS_SWSP, w, b);
    SpecIs(OpCrs2); SpecIs(OpCimmswsp);
    Crs2Layout(d.rs2, w); CimmswspLayout(d.imm, w);
  }

  lemma CssSdspLayout(d: Decoded, w: nat, b: Decoded)
    requires w < Pow2(64)
    ensures EncodeFormat(CSS_SDSP, d) == Part(d.rs2, 4, 0, 2) + Part(d.imm, 5, 3, 10) + Part(d.imm, 8, 6, 7)
    ensures DecodeFormat(CSS_SDSP, w, b) == b.(rd := 0, rs1 := 2, rs2 := Part(w, 6, 2, 0),
      imm := Part(w, 12, 10, 3) + Part(w, 9, 7, 6))
  {
    hide Part, Encode, Decode, Spec, Signed, Pow2, EncodeFormat, DecodeFormat, SlotsApart;
    CssSdspFormatApart(); Encode2(CSS_SDSP, d); Decode4(CSS_SDSP, w, b);
    SpecIs(OpCrs2); SpecIs(OpCimmsdsp);
    Crs2Layout(d.rs2, w); CimmsdspLayout(d.imm, w);
  }

  lemma CssSqspLayout(d: Decoded, w: nat, b: Decoded)
    requires w < Pow2(64)
    ensures EncodeFormat(CSS_SQSP, d) == Part(d.rs2, 4, 0, 2) + Part(d.imm, 5, 4, 11) + Part(d.imm, 9, 6, 7)
    ensures DecodeFormat(CSS_SQSP, w, b) == b.(rd := 0, rs1 := 2, rs2 := Part(w, 6, 2, 0),
      imm := Part(w, 12, 11, 4) + Part(w, 10, 7, 6))
  {
    hide Part, Encode, Decode, Spec, Signed, Pow2, EncodeFormat, DecodeFormat, SlotsApart;
    CssSqspFormatApart(); Encode2(CSS_SQSP, d); Decode4(CSS_SQSP, w, b);
    SpecIs(OpCrs2); SpecIs(OpCimmsqsp);
    Crs2Layout(d.rs2, w); CimmsqspLayout(d.imm, w);
  }

  lemma Ciw4spnLayout(d: Decoded, w: nat, b: Decoded)
    requires w < Pow2(64)
    ensures EncodeFormat(CIW_4SPN, d) == Part(d.rd, 2, 0, 2) + Part(d.imm, 5, 4, 11) + Part(d.imm, 9, 6, 7)
      + Part(d.imm, 2, 2, 6) + Part(d.imm, 3, 3, 5)
    ensures DecodeFormat(CIW_4SPN, w, b) == b.(rd := Part(w, 4, 2, 0) + 8, rs1 := 2, rs2 := 0,
      imm := Part(w, 12, 11, 4) + Part(w, 10, 7, 6) + Part(w, 6, 6, 2) + Part(w, 5, 5, 3))
  {
    hide Part, Encode, Decode, Spec, Signed, Pow2, EncodeFormat, DecodeFormat, SlotsApart;
    Ciw4spnFormatApart(); Encode2(CIW_4SPN, d); Decode4(CIW_4SPN, w, b);
    SpecIs(OpCrdq); SpecIs(OpCimm4spn);
    EightIsInvisible(d.rd, 2); CrdqLayout(d.rd + 8, w); Cimm4spnLayout(d.imm, w);
  }

  lemma ClLwLayout(d: Decoded, w: nat, b: Decoded)
    requires w < Pow2(64)
    ensures EncodeFormat(CL_LW, d) == Part(d.rd, 2, 0, 2) + Part(d.rs1, 2, 0, 7) + Part(d.imm, 5, 3, 10)
      + Part(d.imm, 2, 2, 6) + Part(d.imm, 6, 6, 5)
    ensures DecodeFormat(CL_LW, w, b) == b.(rd := Part(w, 4, 2, 0) + 8, rs1 := Part(w, 9, 7, 0) + 8, rs2 := 0,
      imm := Part(w, 12, 10, 3) + Part(w, 6, 6, 2) + Part(w, 5, 5, 6))
  {
    hide Part, Encode, Decode, Spec, Signed, Pow2, EncodeFormat, DecodeFormat, SlotsApart;
    ClLwFormatApart(); Encode3(CL_LW, d); Decode4(CL_LW, w, b);
    SpecIs(OpCrdq); SpecIs(OpCrs1q); SpecIs(OpCimmw);
    EightIsInvisible(d.rd, 2); CrdqLayout(d.rd + 8, w); EightIsInvisible(d.rs1, 7); Crs1qLayout(d.rs1 + 8, w);
    CimmwLayout(d.imm, w);
  }

  lemma ClLdLayout(d: Decoded, w: nat, b: Decoded)
    requires w < Pow2(64)
    ensures EncodeFormat(CL_LD, d) == Part(d.rd, 2, 0, 2) + Part(d.rs1, 2, 0, 7) + Part(d.imm, 5, 3, 10)
      + Part(d.imm, 7, 6, 5)
    ensures DecodeFormat(CL_LD, w, b) == b.(rd := Part(w, 4, 2, 0) + 8, rs1 := Part(w, 9, 7, 0) + 8, rs2 := 0,
      imm := Part(w, 12, 10, 3) + Part(w, 6, 5, 6))
  {
    hide Part, Encode, Decode, Spec, Signed, Pow2, EncodeFormat, DecodeFormat, SlotsApart;
    ClLdFormatApart(); Encode3(CL_LD, d); Decode4(CL_LD, w, b);
    SpecIs(OpCrdq); SpecIs(OpCrs1q); SpecIs(OpCimmd);
    EightIsInvisible(d.rd, 2); CrdqLayout(d.rd + 8, w); EightIsInvisible(d.rs1, 7); Crs1qLayout(d.rs1 + 8, w);
    CimmdLayout(d.imm, w);
  }

  lemma ClLqLayout(d: Decoded, w: nat, b: Decoded)
    requires w < Pow2(64)
    ensures EncodeFormat(CL_LQ, d) == Part(d.rd, 2, 0, 2) + Part(d.rs1, 2, 0, 7) + Part(d.imm, 5, 4, 11)
      + Part(d.imm, 8, 8, 10) + Part(d.imm, 7, 6, 5)
    ensures DecodeFormat(CL_LQ, w, b) == b.(rd := Part(w, 4, 2, 0) + 8, rs1 := Part(w, 9, 7, 0) + 8, rs2 := 0,
      imm := Part(w, 12, 11, 4) + Part(w, 10, 10, 8) + Part(w, 6, 5, 6))
  {
    hide Part, Encode, Decode, Spec, Signed, Pow2, EncodeFormat, DecodeFormat, SlotsApart;
    ClLqFormatApart(); Encode3(CL_LQ, d); Decode4(CL_LQ, w, b);
    SpecIs(OpCrdq); SpecIs(OpCrs1q); SpecIs(OpCimmq);
    EightIsInvisible(d.rd, 2); CrdqLayout(d.rd + 8, w); EightIsInvisible(d.rs1, 7); Crs1qLayout(d.rs1 + 8, w);
    CimmqLayout(d.imm, w);
  }

  lemma CsLayout(d: Decoded, w: nat, b: Decoded)
    requires w < Pow2(64)
    ensures EncodeFormat(CS, d) == Part(d.rd, 2, 0, 2) + Part(d.rs1, 2, 0, 7)
    ensures DecodeFormat(CS, w, b) == b.(rd := Part(w, 9, 7, 0) + 8, rs1 := Part(w, 9, 7, 0) + 8,
      rs2 := Part(w, 4, 2, 0) + 8, imm := 0)
  {
    hide Part, Encode, Decode, Spec, Signed, Pow2, EncodeFormat, DecodeFormat, SlotsApart;
    CsApart(); Encode2(CS, d); Decode4(CS, w, b);
    SpecIs(OpCrdq); SpecIs(OpCrs1q); SpecIs(OpCrs1rdq); SpecIs(OpCrs2q);
    EightIsInvisible(d.rd, 2); CrdqLayout(d.rd + 8, w); EightIsInvisible(d.rs1, 7); Crs1qLayout(d.rs1 + 8, w);
  }

  lemma CsSwLayout(d: Decoded, w: nat, b: Decoded)
    requires w < Pow2(64)
    ensures EncodeFormat(CS_SW, d) == Part(d.rs1, 2, 0, 7) + Part(d.rs2, 2, 0, 2) + Part(d.imm, 5, 3, 10)
      + Part(d.imm, 2, 2, 6) + Part(d.imm, 6, 6, 5)
    ensures DecodeFormat(CS_SW, w, b) == b.(rd := 0, rs1 := Part(w, 9, 7, 0) + 8, rs2 := Part(w, 4, 2, 0) + 8,
      imm := Part(w, 12, 10, 3) + Part(w, 6, 6, 2) + Part(w, 5, 5, 6))
  {
    hide Part, Encode, Decode, Spec, Signed, Pow2, EncodeFormat, DecodeFormat, SlotsApart;
    CsSwFormatApart(); Encode3(CS_SW, d); Decode4(CS_SW, w, b);
    SpecIs(OpCrs1q); SpecIs(OpCrs2q); SpecIs(OpCimmw);
    EightIsInvisible(d.rs1, 7); Crs1qLayout(d.rs1 + 8, w); EightIsInvisible(d.rs2, 2); CrdqLayout(d.rs2 + 8, w);
    CimmwLayout(d.imm, w);
  }

  lemma CsSdLayout(d: Decoded, w: nat, b: Decoded)
    requires w < Pow2(64)
    ensures EncodeFormat(CS_SD, d) == Part(d.rs1, 2, 0, 7) + Part(d.rs2, 2, 0, 2) + Part(d.imm, 5, 3, 10)
      + Part(d.imm, 7, 6, 5)
    ensures DecodeFormat(CS_SD, w, b) == b.(rd := 0, rs1 := Part(w, 9, 7, 0) + 8, rs2 := Part(w, 4, 2, 0) + 8,
      imm := Part(w, 12, 10, 3) + Part(w, 6, 5, 6))
  {
    hide Part, Encode, Decode, Spec, Signed, Pow2, EncodeFormat, DecodeFormat, SlotsApart;
    CsSdFormatApart(); Encode3(CS_SD, d); Decode4(CS_SD, w, b);
    SpecIs(OpCrs1q); SpecIs(OpCrs2q); SpecIs(OpCimmd);
    EightIsInvisible(d.rs1, 7); Crs1qLayout(d.rs1 + 8, w); EightIsInvisible(d.rs2, 2); CrdqLayout(d.rs2 + 8, w);
    CimmdLayout(d.imm, w);
  }

  lemma CsSqLayout(d: Decoded, w: nat, b: Decoded)
    requires w < Pow2(64)
    ensures EncodeFormat(CS_SQ, d) == Part(d.rs1, 2, 0, 7) + Part(d.rs2, 2, 0, 2) + Part(d.imm, 5, 4, 11)
      + Part(d.imm, 8, 8, 10) + Part(d.imm, 7, 6, 5)
    ensures DecodeFormat(CS_SQ, w, b) == b.(rd := 0, rs1 := Part(w, 9, 7, 0) + 8, rs2 := Part(w, 4, 2, 0) + 8,
      imm := Part(w, 12, 11, 4) + Part(w, 10, 10, 8) + Part(w, 6, 5, 6))
  {
    hide Part, Encode, Decode, Spec, Signed, Pow2, EncodeFormat, DecodeFormat, SlotsApart;
    CsSqFormatApart(); Encode3(CS_SQ, d); Decode4(CS_SQ, w, b);
    SpecIs(OpCrs1q); SpecIs(OpCrs2q); SpecIs(OpCimmq);
    EightIsInvisible(d.rs1, 7); Crs1qLayout(d.rs1 + 8, w); EightIsInvisible(d.rs2, 2); CrdqLayout(d.rs2 + 8, w);
    CimmqLayout(d.imm, w);
  }

  lemma CbLayout(d: Decoded, w: nat, b: Decoded)
    requires w < Pow2(64)
    ensures EncodeFormat(CB, d) == Part(d.rs1, 2, 0, 7) + Part(d.imm, 8, 8, 12) + Part(d.imm, 4, 3, 10)
      + Part(d.imm, 7, 6, 5) + Part(d.imm, 2, 1, 3) + Part(d.imm, 5, 5, 2)
    ensures DecodeFormat(CB, w, b) == b.(rd := 0, rs1 := Part(w, 9, 7, 0) + 8, rs2 := 0,
      imm := Signed(9, Part(w, 12, 12, 8) + Part(w, 11, 10, 3) + Part(w, 6, 5, 6) + Part(w, 4, 3, 1)
        + Part(w, 2, 2, 5)))
  {
    hide Part, Encode, Decode, Spec, Signed, Pow2, EncodeFormat, DecodeFormat, SlotsApart;
    CbFormatApart(); Encode2(CB, d); Decode4(CB, w, b);
    SpecIs(OpCrs1q); SpecIs(OpCimmb);
    EightIsInvisible(d.rs1, 7); Crs1qLayout(d.rs1 + 8, w); CimmbLayout(d.imm, w);
  }

  lemma CbImmLayout(d: Decoded, w: nat, b: Decoded)
    requires w < Pow2(64)
    ensures EncodeFormat(CB_IMM, d) == Part(d.rs1, 2, 0, 7) + Part(d.imm, 5, 5, 12) + Part(d.imm, 4, 0, 2)
    ensures DecodeFormat(CB_IMM, w, b) == b.(rd := Part(w, 9, 7, 0) + 8, rs1 := Part(w, 9, 7, 0) + 8, rs2 := 0,
      imm := Signed(6, Part(w, 12, 12, 5) + Part(w, 6, 2, 0)))
  {
    hide Part, Encode, Decode, Spec, Signed, Pow2, EncodeFormat, DecodeFormat, SlotsApart;
    CbImmFormatApart(); Encode2(CB_IMM, d); Decode4(CB_IMM, w, b);
    SpecIs(OpCrs1rdq); SpecIs(OpCimmi);
    EightIsInvisible(d.rs1, 7); Crs1qLayout(d.rs1 + 8, w); CimmiLayout(d.imm, w);
  }

  lemma CbSh5Layout(d: Decoded, w: nat, b: Decoded)
    requires w < Pow2(64)
    ensures EncodeFormat(CB_SH5, d) == Part(d.rs1, 2, 0, 7) + Part(d.imm, 4, 0, 2)
    ensures DecodeFormat(CB_SH5, w, b) == b.(rd := Part(w, 9, 7, 0) + 8, rs1 := Part(w, 9, 7, 0) + 8, rs2 := 0,
      imm := Part(w, 6, 2, 0))
  {
    hide Part, Encode, Decode, Spec, Signed, Pow2, EncodeFormat, DecodeFormat, SlotsApart;
    CbSh5FormatApart(); Encode2(CB_SH5, d); Decode4(CB_SH5, w, b);
    SpecIs(OpCrs1rdq); SpecIs(OpCimmsh5);
    EightIsInvisible(d.rs1, 7); Crs1qLayout(d.rs1 + 8, w); Crs2Layout(d.imm, w);
  }

  lemma CbSh6Layout(d: Decoded, w: nat, b: Decoded)
    requires w < Pow2(64)
    ensures EncodeFormat(CB_SH6, d) == Part(d.rs1, 2, 0, 7) + Part(d.imm, 5, 5, 12) + Part(d.imm, 4, 0, 2)
    ensures DecodeFormat(CB_SH6, w, b) == b.(rd := Part(w, 9, 7, 0) + 8, rs1 := Part(w, 9, 7, 0) + 8, rs2 := 0,
      imm := Part(w, 12, 12, 5) + Part(w, 6, 2, 0))
  {
    hide Part, Encode, Decode, Spec, Signed, Pow2, EncodeFormat, DecodeFormat, SlotsApart;
    CbSh6FormatApart(); Encode2(CB_SH6, d); Decode4(CB_SH6, w, b);
    SpecIs(OpCrs1rdq); SpecIs(OpCimmsh6);
    EightIsInvisible(d.rs1, 7); Crs1qLayout(d.rs1 + 8, w); Cimmsh6Layout(d.imm, w);
  }

  lemma CjLayout(d: Decoded, w: nat, b: Decoded)
    requires w < Pow2(64)
    ensures EncodeFormat(CJ, d) == Part(d.imm, 11, 11, 12) + Part(d.imm, 4, 4, 11) + Part(d.imm, 9, 8, 9)
      + Part(d.imm, 10, 10, 8) + Part(d.imm, 6, 6, 7) + Part(d.imm, 7, 7, 6) + Part(d.imm, 3, 1, 3)
      + Part(d.imm, 5, 5, 2)
    ensures DecodeFormat(CJ, w, b) == b.(rd := 0, rs1 := 0, rs2 := 0,
      imm := Signed(12, Part(w, 12, 12, 11) + Part(w, 11, 11, 4) + Part(w, 10, 9, 8) + Part(w, 8, 8, 10)
        + Part(w, 7, 7, 6) + Part(w, 6, 6, 7) + Part(w, 5, 3, 1) + Part(w, 2, 2, 5)))
  {
    hide Part, Encode, Decode, Spec, Signed, Pow2, EncodeFormat, DecodeFormat, SlotsApart;
    CjFormatApart(); Encode1(CJ, d); Decode4(CJ, w, b);
    SpecIs(OpCimmj);
    CimmjLayout(d.imm, w);
  }

  lemma CjJalLayout(d: Decoded, w: nat, b: Decoded)
    requires w < Pow2(64)
    ensures EncodeFormat(CJ_JAL, d) == Part(d.imm, 11, 11, 12) + Part(d.imm, 4, 4, 11) + Part(d.imm, 9, 8, 9)
      + Part(d.imm, 10, 10, 8) + Part(d.imm, 6, 6, 7) + Part(d.imm, 7, 7, 6) + Part(d.imm, 3, 1, 3)
      + Part(d.imm, 5, 5, 2)
    ensures DecodeFormat(CJ_JAL, w, b) == b.(rd := 1, rs1 := 0, rs2 := 0,
      imm := Signed(12, Part(w, 12, 12, 11) + Part(w, 11, 11, 4) + Part(w, 10, 9, 8) + Part(w, 8, 8, 10)
        + Part(w, 7, 7, 6) + Part(w, 6, 6, 7) + Part(w, 5, 3, 1) + Part(w, 2, 2, 5)))
  {
    hide Part, Encode, Decode, Spec, Signed, Pow2, EncodeFormat, DecodeFormat, SlotsApart;
    CjJalFormatApart(); Encode1(CJ_JAL, d); Decode4(CJ_JAL, w, b);
    SpecIs(OpCimmj);
    CimmjLayout(d.imm, w);
  }

  lemma RLayout(d: Decoded, w: nat, b: Decoded)
    requires w < Pow2(64)
    ensures EncodeFormat(R, d) == Part(d.rd, 4, 0, 7) + Part(d.rs1, 4, 0, 15) + Part(d.rs2, 4, 0, 20)
    ensures DecodeFormat(R, w, b) == b.(rd := Part(w, 11, 7, 0), rs1 := Part(w, 19, 15, 0), rs2 := Part(w, 24, 20, 0),
      imm := 0)
  {
    hide Part, Encode, Decode, Spec, Signed, Pow2, EncodeFormat, DecodeFormat, SlotsApart;
    RFormatApart(); Encode3(R, d); Decode4(R, w, b);
    SpecIs(OpRd); SpecIs(OpRs1); SpecIs(OpRs2);
    RdLayout(d.rd, w); Rs1Layout(d.rs1, w); Rs2Layout(d.rs2, w);
  }

  lemma RMLayout(d: Decoded, w: nat, b: Decoded)
    requires w < Pow2(64)
    ensures EncodeFormat(R_M, d) == Part(d.rd, 4, 0, 7) + Part(d.rs1, 4, 0, 15) + Part(d.rs2, 4, 0, 20)
      + Part(d.rm, 2, 0, 12)
    ensures DecodeFormat(R_M, w, b) == b.(rd := Part(w, 11, 7, 0), rs1 := Part(w, 19, 15, 0),
      rs2 := Part(w, 24, 20, 0), imm := 0, rm := Part(w, 14, 12, 0))
  {
    hide Part, Encode, Decode, Spec, Signed, Pow2, EncodeFormat, DecodeFormat, SlotsApart;
    RMFormatApart(); Encode4(R_M, d); Decode5(R_M, w, b);
    SpecIs(OpRd); SpecIs(OpRs1); SpecIs(OpRs2); SpecIs(OpRm);
    RdLayout(d.rd, w); Rs1Layout(d.rs1, w); Rs2Layout(d.rs2, w); RmLayout(d.rm, w);
  }

  lemma RLLayout(d: Decoded, w: nat, b: Decoded)
    requires w < Pow2(64)
    ensures EncodeFormat(R_L, d) == Part(d.rd, 4, 0, 7) + Part(d.rs1, 4, 0, 15) + Part(d.aq, 0, 0, 26)
      + Part(d.rl, 0, 0, 25)
    ensures DecodeFormat(R_L, w, b) == b.(rd := Part(w, 11, 7, 0), rs1 := Part(w, 19, 15, 0), rs2 := 0, imm := 0,
      aq := Part(w, 26, 26, 0), rl := Part(w, 25, 25, 0))
  {
    hide Part, Encode, Decode, Spec, Signed, Pow2, EncodeFormat, DecodeFormat, SlotsApart;
    RLFormatApart(); Encode4(R_L, d); Decode6(R_L, w, b);
    SpecIs(OpRd); SpecIs(OpRs1); SpecIs(OpAq); SpecIs(OpRl);
    RdLayout(d.rd, w); Rs1Layout(d.rs1, w); AqLayout(d.aq, w); RlLayout(d.rl, w);
  }

  lemma RALayout(d: Decoded, w: nat, b: Decoded)
    requires w < Pow2(64)
    ensures EncodeFormat(R_A, d) == Part(d.rd, 4, 0, 7) + Part(d.rs1, 4, 0, 15) + Part(d.rs2, 4, 0, 20)
      + Part(d.aq, 0, 0, 26) + Part(d.rl, 0, 0, 25)
    ensures DecodeFormat(R_A, w, b) == b.(rd := Part(w, 11, 7, 0), rs1 := Part(w, 19, 15, 0),
      rs2 := Part(w, 24, 20, 0), imm := 0, aq := Part(w, 26, 26, 0), rl := Part(w, 25, 25, 0))
  {
    hide Part, Encode, Decode, Spec, Signed, Pow2, EncodeFormat, DecodeFormat, SlotsApart;
    RAFormatApart(); Encode5(R_A, d); Decode6(R_A, w, b);
    SpecIs(OpRd); SpecIs(OpRs1); SpecIs(OpRs2); SpecIs(OpAq); SpecIs(OpRl);
    RdLayout(d.rd, w); Rs1Layout(d.rs1, w); Rs2Layout(d.rs2, w); AqLayout(d.aq, w); RlLayout(d.rl, w);
  }

  lemma R4MLayout(d: Decoded, w: nat, b: Decoded)
    requires w < Pow2(64)
    ensures EncodeFormat(R4_M, d) == Part(d.rd, 4, 0, 7) + Part(d.rs1, 4, 0, 15) + Part(d.rs2, 4, 0, 20)
      + Part(d.rs3, 4, 0, 27) + Part(d.rm, 2, 0, 12)
    ensures DecodeFormat(R4_M, w, b) == b.(rd := Part(w, 11, 7, 0), rs1 := Part(w, 19, 15, 0),
      rs2 := Part(w, 24, 20, 0), rs3 := Part(w, 31, 27, 0), imm := 0, rm := Part(w, 14, 12, 0))
  {
    hide Part, Encode, Decode, Spec, Signed, Pow2, EncodeFormat, DecodeFormat, SlotsApart;
    R4MFormatApart(); Encode5(R4_M, d); Decode6(R4_M, w, b);
    SpecIs(OpRd); SpecIs(OpRs1); SpecIs(OpRs2); SpecIs(OpRs3); SpecIs(OpRm);
    RdLayout(d.rd, w); Rs1Layout(d.rs1, w); Rs2Layout(d.rs2, w); Rs3Layout(d.rs3, w); RmLayout(d.rm, w);
  }

  lemma RFLayout(d: Decoded, w: nat, b: Decoded)
    requires w < Pow2(64)
    ensures EncodeFormat(R_F, d) == Part(d.pred, 3, 0, 24) + Part(d.succ, 3, 0, 20)
    ensures DecodeFormat(R_F, w, b) == b.(rd := 0, rs1 := 0, rs2 := 0, pred := Part(w, 27, 24, 0),
      succ := Part(w, 23, 20, 0), imm := 0)
  {
    hide Part, Encode, Decode, Spec, Signed, Pow2, EncodeFormat, DecodeFormat, SlotsApart;
    RFFormatApart(); Encode2(R_F, d); Decode6(R_F, w, b);
    SpecIs(OpPred); SpecIs(OpSucc);
    PredLayout(d.pred, w); SuccLayout(d.succ, w);
  }

  lemma ILayout(d: Decoded, w: nat, b: Decoded)
    requires w < Pow2(64)
    ensures EncodeFormat(I, d) == Part(d.rd, 4, 0, 7) + Part(d.rs1, 4, 0, 15) + Part(d.imm, 11, 0, 20)
    ensures DecodeFormat(I, w, b) == b.(rd := Part(w, 11, 7, 0), rs1 := Part(w, 19, 15, 0), rs2 := 0,
      imm := Signed(12, Part(w, 31, 20, 0)))
  {
    hide Part, Encode, Decode, Spec, Signed, Pow2, EncodeFormat, DecodeFormat, SlotsApart;
    IFormatApart(); Encode3(I, d); Decode4(I, w, b);
    SpecIs(OpRd); SpecIs(OpRs1); SpecIs(OpImm12);
    RdLayout(d.rd, w); Rs1Layout(d.rs1, w); Imm12Layout(d.imm, w);
  }

  lemma ICsrLayout(d: Decoded, w: nat, b: Decoded)
    requires w < Pow2(64)
    ensures EncodeFormat(I_CSR, d) == Part(d.rd, 4, 0, 7) + Part(d.rs1, 4, 0, 15) + Part(d.imm, 11, 0, 20)
    ensures DecodeFormat(I_CSR, w, b) == b.(rd := Part(w, 11, 7, 0), rs1 := Part(w, 19, 15, 0), rs2 := 0,
      imm := Part(w, 31, 20, 0))
  {
    hide Part, Encode, Decode, Spec, Signed, Pow2, EncodeFormat, DecodeFormat, SlotsApart;
    ICsrFormatApart(); Encode3(I_CSR, d); Decode4(I_CSR, w, b);
    SpecIs(OpRd); SpecIs(OpRs1); SpecIs(OpCsr12);
    RdLayout(d.rd, w); Rs1Layout(d.rs1, w); Csr12Layout(d.imm, w);
  }

  lemma ISh5Layout(d: Decoded, w: nat, b: Decoded)
    requires w < Pow2(64)
    ensures EncodeFormat(I_SH5, d) == Part(d.rd, 4, 0, 7) + Part(d.rs1, 4, 0, 15) + Part(d.imm, 4, 0, 20)
    ensures DecodeFormat(I_SH5, w, b) == b.(rd := Part(w, 11, 7, 0), rs1 := Part(w, 19, 15, 0), rs2 := 0,
      imm := Part(w, 24, 20, 0))
  {
    hide Part, Encode, Decode, Spec, Signed, Pow2, EncodeFormat, DecodeFormat, SlotsApart;
    ISh5FormatApart(); Encode3(I_SH5, d); Decode4(I_SH5, w, b);
    SpecIs(OpRd); SpecIs(OpRs1); SpecIs(OpShamt5);
    RdLayout(d.rd, w); Rs1Layout(d.rs1, w); Rs2Layout(d.imm, w);
  }

  lemma ISh6Layout(d: Decoded, w: nat, b: Decoded)
    requires w < Pow2(64)
    ensures EncodeFormat(I_SH6, d) == Part(d.rd, 4, 0, 7) + Part(d.rs1, 4, 0, 15) + Part(d.imm, 5, 0, 20)
    ensures DecodeFormat(I_SH6, w, b) == b.(rd := Part(w, 11, 7, 0), rs1 := Part(w, 19, 15, 0), rs2 := 0,
      imm := Part(w, 25, 20, 0))
  {
    hide Part, Encode, Decode, Spec, Signed, Pow2, EncodeFormat, DecodeFormat, SlotsApart;
    ISh6FormatApart(); Encode3(I_SH6, d); Decode4(I_SH6, w, b);
    SpecIs(OpRd); SpecIs(OpRs1); SpecIs(OpShamt6);
    RdLayout(d.rd, w); Rs1Layout(d.rs1, w); Shamt6Layout(d.imm, w);
  }

  lemma ISh7Layout(d: Decoded, w: nat, b: Decoded)
    requires w < Pow2(64)
    ensures EncodeFormat(I_SH7, d) == Part(d.rd, 4, 0, 7) + Part(d.rs1, 4, 0, 15) + Part(d.imm, 6, 0, 20)
    ensures DecodeFormat(I_SH7, w, b) == b.(rd := Part(w, 11, 7, 0), rs1 := Part(w, 19, 15, 0), rs2 := 0,
      imm := Part(w, 26, 20, 0))
  {
    hide Part, Encode, Decode, Spec, Signed, Pow2, EncodeFormat, DecodeFormat, SlotsApart;
    ISh7FormatApart(); Encode3(I_SH7, d); Decode4(I_SH7, w, b);
    SpecIs(OpRd); SpecIs(OpRs1); SpecIs(OpShamt7);
    RdLayout(d.rd, w); Rs1Layout(d.rs1, w); Shamt7Layout(d.imm, w);
  }

  lemma SLayout(d: Decoded, w: nat, b: Decoded)
    requires w < Pow2(64)
    ensures EncodeFormat(Codecs.S, d) == Part(d.rs1, 4, 0, 15) + Part(d.rs2, 4, 0, 20) + Part(d.imm, 11, 5, 25)
      + Part(d.imm, 4, 0, 7)
    ensures DecodeFormat(Codecs.S, w, b) == b.(rd := 0, rs1 := Part(w, 19, 15, 0), rs2 := Part(w, 24, 20, 0),
      imm := Signed(12, Part(w, 31, 25, 5) + Part(w, 11, 7, 0)))
  {
    hide Part, Encode, Decode, Spec, Signed, Pow2, EncodeFormat, DecodeFormat, SlotsApart;
    SFormatApart(); Encode3(Codecs.S, d); Decode4(Codecs.S, w, b);
    SpecIs(OpRs1); SpecIs(OpRs2); SpecIs(OpSimm12);
    Rs1Layout(d.rs1, w); Rs2Layout(d.rs2, w); Simm12Layout(d.imm, w);
  }

  lemma SbLayout(d: Decoded, w: nat, b: Decoded)
    requires w < Pow2(64)
    ensures EncodeFormat(SB, d) == Part(d.rs1, 4, 0, 15) + Part(d.rs2, 4, 0, 20) + Part(d.imm, 12, 12, 31)
      + Part(d.imm, 10, 5, 25) + Part(d.imm, 4, 1, 8) + Part(d.imm, 11, 11, 7)
    ensures DecodeFormat(SB, w, b) == b.(rd := 0, rs1 := Part(w, 19, 15, 0), rs2 := Part(w, 24, 20, 0),
      imm := Signed(13, Part(w, 31, 31, 12) + Part(w, 30, 25, 5) + Part(w, 11, 8, 1) + Part(w, 7, 7, 11)))
  {
    hide Part, Encode, Decode, Spec, Signed, Pow2, EncodeFormat, DecodeFormat, SlotsApart;
    SbFormatApart(); Encode3(SB, d); Decode4(SB, w, b);
    SpecIs(OpRs1); SpecIs(OpRs2); SpecIs(OpSbimm12);
    Rs1Layout(d.rs1, w); Rs2Layout(d.rs2, w); Sbimm12Layout(d.imm, w);
  }

  lemma ULayout(d: Decoded, w: nat, b: Decoded)
    requires w < Pow2(64)
    ensures EncodeFormat(U, d) == Part(d.rd, 4, 0, 7) + Part(d.imm, 31, 12, 12)
    ensures DecodeFormat(U, w, b) == b.(rd := Part(w, 11, 7, 0), rs1 := 0, rs2 := 0,
      imm := Signed(32, Part(w, 31, 12, 12)))
  {
    hide Part, Encode, Decode, Spec, Signed, Pow2, EncodeFormat, DecodeFormat, SlotsApart;
    UFormatApart(); Encode2(U, d); Decode4(U, w, b);
    SpecIs(OpRd); SpecIs(OpImm20);
    RdLayout(d.rd, w); Imm20Layout(d.imm, w);
  }

  lemma UjLayout(d: Decoded, w: nat, b: Decoded)
    requires w < Pow2(64)
    ensures EncodeFormat(UJ, d) == Part(d.rd, 4, 0, 7) + Part(d.imm, 20, 20, 31) + Part(d.imm, 10, 1, 21)
      + Part(d.imm, 11, 11, 20) + Part(d.imm, 19, 12, 12)
    ensures DecodeFormat(UJ, w, b) == b.(rd := Part(w, 11, 7, 0), rs1 := 0, rs2 := 0,
      imm := Signed(21, Part(w, 31, 31, 20) + Part(w, 30, 21, 1) + Part(w, 20, 20, 11) + Part(w, 19, 12, 12)))
  {
    hide Part, Encode, Decode, Spec, Signed, Pow2, EncodeFormat, DecodeFormat, SlotsApart;
    UjFormatApart(); Encode2(UJ, d); Decode4(UJ, w, b);
    SpecIs(OpRd); SpecIs(OpJimm20);
    RdLayout(d.rd, w); Jimm20Layout(d.imm, w);
  }
}
