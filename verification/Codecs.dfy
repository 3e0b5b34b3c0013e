/**
  src/asm/encode.h and src/asm/decode.h: the instruction formats ("codecs").  An encoder is the
  bitwise or of the encodings of its operands, guarded by asserts; a decoder assigns a record
  field by field, from operands or constants.  Both are given by the table of this module, one
  row per pair of source functions, and interpreted by `EncodeFormat` and `DecodeFormat`.
 */
module Codecs {
  import opened Bits
  import opened Operands
  import opened OperandTable

  datatype Field = Rd | Rs1 | Rs2 | Rs3 | Imm | Rm | Aq | Rl | Pred | Succ

  /** The operand fields of struct decode (src/asm/codec.h). */
  datatype Decoded = Decoded(rd: int, rs1: int, rs2: int, rs3: int, imm: int,
                             rm: int, aq: int, rl: int, pred: int, succ: int)

  function Get(d: Decoded, f: Field): int {
    match f
    case Rd => d.rd
    case Rs1 => d.rs1
    case Rs2 => d.rs2
    case Rs3 => d.rs3
    case Imm => d.imm
    case Rm => d.rm
    case Aq => d.aq
    case Rl => d.rl
    case Pred => d.pred
    case Succ => d.succ
  }

  function Set(d: Decoded, f: Field, v: int): Decoded {
    match f
    case Rd => d.(rd := v)
    case Rs1 => d.(rs1 := v)
    case Rs2 => d.(rs2 := v)
    case Rs3 => d.(rs3 := v)
    case Imm => d.(imm := v)
    case Rm => d.(rm := v)
    case Aq => d.(aq := v)
    case Rl => d.(rl := v)
    case Pred => d.(pred := v)
    case Succ => d.(succ := v)
  }

  /** operand::encode(dec.field + bias) */
  datatype Slot = Slot(field: Field, name: OperandName, bias: int)

  /** assert(dec.f == dec.g), assert(dec.f == value) */
  datatype Assertion = Same(f: Field, g: Field) | Equals(f: Field, value: int)

  /** dec.field = operand::decode(inst) + bias, or dec.field = constant */
  datatype Source = From(name: OperandName, bias: int) | Is(value: int)
  datatype Assign = Assign(field: Field, source: Source)

  /** encode_<codec> and decode_<codec> */
  datatype Format = Format(encoder: seq<Slot>, asserts: seq<Assertion>, decoder: seq<Assign>)

  const NONE := Format([], [],
    [Assign(Rd, Is(0)), Assign(Rs1, Is(0)), Assign(Rs2, Is(0)), Assign(Imm, Is(0))])
  const CI_NONE := Format([], [Equals(Rd, 0), Equals(Rs1, 0), Equals(Rs2, 0)],
    [Assign(Rd, Is(0)), Assign(Rs1, Is(0)), Assign(Rs2, Is(0)), Assign(Imm, Is(0))])
  const CR := Format([Slot(Rd, OpCrs1rd, 0), Slot(Rs2, OpCrs2, 0)], [Same(Rd, Rs1)],
    [Assign(Rd, From(OpCrs1rd, 0)), Assign(Rs1, From(OpCrs1rd, 0)), Assign(Rs2, From(OpCrs2, 0)), Assign(Imm, Is(0))])
  const CR_MV := Format([Slot(Rd, OpCrd, 0), Slot(Rs1, OpCrs2, 0)], [Equals(Imm, 0)],
    [Assign(Rd, From(OpCrd, 0)), Assign(Rs1, From(OpCrs2, 0)), Assign(Rs2, Is(0)), Assign(Imm, Is(0))])
  const CR_JALR := Format([Slot(Rs1, OpCrs1, 0)], [Equals(Rd, 1)],
    [Assign(Rd, Is(1)), Assign(Rs1, From(OpCrs1, 0)), Assign(Rs2, Is(0)), Assign(Imm, Is(0))])
  const CR_JR := Format([Slot(Rs1, OpCrs1, 0)], [Equals(Rd, 0)],
    [Assign(Rd, Is(0)), Assign(Rs1, From(OpCrs1, 0)), Assign(Rs2, Is(0)), Assign(Imm, Is(0))])
  const CI := Format([Slot(Rs1, OpCrs1rd, 0), Slot(Imm, OpCimmi, 0)], [Same(Rd, Rs1)],
    [Assign(Rd, From(OpCrs1rd, 0)), Assign(Rs1, From(OpCrs1rd, 0)), Assign(Rs2, Is(0)), Assign(Imm, From(OpCimmi, 0))])
  const CI_SH5 := Format([Slot(Rs1, OpCrs1rd, 0), Slot(Imm, OpCimmsh5, 0)], [Same(Rd, Rs1)],
    [Assign(Rd, From(OpCrs1rd, 0)), Assign(Rs1, From(OpCrs1rd, 0)), Assign(Rs2, Is(0)),
     Assign(Imm, From(OpCimmsh5, 0))])
  const CI_SH6 := Format([Slot(Rs1, OpCrs1rd, 0), Slot(Imm, OpCimmsh6, 0)], [Same(Rd, Rs1)],
    [Assign(Rd, From(OpCrs1rd, 0)), Assign(Rs1, From(OpCrs1rd, 0)), Assign(Rs2, Is(0)),
     Assign(Imm, From(OpCimmsh6, 0))])
  const CI_LI := Format([Slot(Rd, OpCrd, 0), Slot(Imm, OpCimmi, 0)], [Equals(Rs1, 0)],
    [Assign(Rd, From(OpCrd, 0)), Assign(Rs1, Is(0)), Assign(Rs2, Is(0)), Assign(Imm, From(OpCimmi, 0))])
  const CI_LUI := Format([Slot(Rd, OpCrd, 0), Slot(Imm, OpCimmui, 0)], [Equals(Rs1, 0)],
    [Assign(Rd, From(OpCrd, 0)), Assign(Rs1, Is(0)), Assign(Rs2, Is(0)), Assign(Imm, From(OpCimmui, 0))])
  const CI_LWSP := Format([Slot(Rd, OpCrd, 0), Slot(Imm, OpCimmlwsp, 0)], [Equals(Rs1, 2)],
    [Assign(Rd, From(OpCrd, 0)), Assign(Rs1, Is(2)), Assign(Rs2, Is(0)), Assign(Imm, From(OpCimmlwsp, 0))])
  const CI_LDSP := Format([Slot(Rd, OpCrd, 0), Slot(Imm, OpCimmldsp, 0)], [Equals(Rs1, 2)],
    [Assign(Rd, From(OpCrd, 0)), Assign(Rs1, Is(2)), Assign(Rs2, Is(0)), Assign(Imm, From(OpCimmldsp, 0))])
  const CI_LQSP := Format([Slot(Rd, OpCrd, 0), Slot(Imm, OpCimmlqsp, 0)], [Equals(Rs1, 2)],
    [Assign(Rd, From(OpCrd, 0)), Assign(Rs1, Is(2)), Assign(Rs2, Is(0)), Assign(Imm, From(OpCimmlqsp, 0))])
  const CI_16SP := Format([Slot(Imm, OpCimm16sp, 0)], [Equals(Rd, 2), Equals(Rs1, 2)],
    [Assign(Rd, Is(2)), Assign(Rs1, Is(2)), Assign(Rs2, Is(0)), Assign(Imm, From(OpCimm16sp, 0))])
  const CSS_SWSP := Format([Slot(Rs2, OpCrs2, 0), Slot(Imm, OpCimmswsp, 0)], [Equals(Rs1, 2)],
    [Assign(Rd, Is(0)), Assign(Rs1, Is(2)), Assign(Rs2, From(OpCrs2, 0)), Assign(Imm, From(OpCimmswsp, 0))])
  const CSS_SDSP := Format([Slot(Rs2, OpCrs2, 0), Slot(Imm, OpCimmsdsp, 0)], [Equals(Rs1, 2)],
    [Assign(Rd, Is(0)), Assign(Rs1, Is(2)), Assign(Rs2, From(OpCrs2, 0)), Assign(Imm, From(OpCimmsdsp, 0))])
  const CSS_SQSP := Format([Slot(Rs2, OpCrs2, 0), Slot(Imm, OpCimmsqsp, 0)], [Equals(Rs1, 2)],
    [Assign(Rd, Is(0)), Assign(Rs1, Is(2)), Assign(Rs2, From(OpCrs2, 0)), Assign(Imm, From(OpCimmsqsp, 0))])
  const CIW_4SPN := Format([Slot(Rd, OpCrdq, 8), Slot(Imm, OpCimm4spn, 0)], [Equals(Rs1, 2)],
    [Assign(Rd, From(OpCrdq, 8)), Assign(Rs1, Is(2)), Assign(Rs2, Is(0)), Assign(Imm, From(OpCimm4spn, 0))])
  const CL_LW := Format([Slot(Rd, OpCrdq, 8), Slot(Rs1, OpCrs1q, 8), Slot(Imm, OpCimmw, 0)], [],
    [Assign(Rd, From(OpCrdq, 8)), Assign(Rs1, From(OpCrs1q, 8)), Assign(Rs2, Is(0)), Assign(Imm, From(OpCimmw, 0))])
  const CL_LD := Format([Slot(Rd, OpCrdq, 8), Slot(Rs1, OpCrs1q, 8), Slot(Imm, OpCimmd, 0)], [],
    [Assign(Rd, From(OpCrdq, 8)), Assign(Rs1, From(OpCrs1q, 8)), Assign(Rs2, Is(0)), Assign(Imm, From(OpCimmd, 0))])
  const CL_LQ := Format([Slot(Rd, OpCrdq, 8), Slot(Rs1, OpCrs1q, 8), Slot(Imm, OpCimmq, 0)], [],
    [Assign(Rd, From(OpCrdq, 8)), Assign(Rs1, From(OpCrs1q, 8)), Assign(Rs2, Is(0)), Assign(Imm, From(OpCimmq, 0))])
  const CS := Format([Slot(Rd, OpCrdq, 8), Slot(Rs1, OpCrs1q, 8)], [Same(Rd, Rs1)],
    [Assign(Rd, From(OpCrs1rdq, 8)), Assign(Rs1, From(OpCrs1rdq, 8)), Assign(Rs2, From(OpCrs2q, 8)),
     Assign(Imm, Is(0))])
  const CS_SW := Format([Slot(Rs1, OpCrs1q, 8), Slot(Rs2, OpCrs2q, 8), Slot(Imm, OpCimmw, 0)], [],
    [Assign(Rd, Is(0)), Assign(Rs1, From(OpCrs1q, 8)), Assign(Rs2, From(OpCrs2q, 8)), Assign(Imm, From(OpCimmw, 0))])
  const CS_SD := Format([Slot(Rs1, OpCrs1q, 8), Slot(Rs2, OpCrs2q, 8), Slot(Imm, OpCimmd, 0)], [],
    [Assign(Rd, Is(0)), Assign(Rs1, From(OpCrs1q, 8)), Assign(Rs2, From(OpCrs2q, 8)), Assign(Imm, From(OpCimmd, 0))])
  const CS_SQ := Format([Slot(Rs1, OpCrs1q, 8), Slot(Rs2, OpCrs2q, 8), Slot(Imm, OpCimmq, 0)], [],
    [Assign(Rd, Is(0)), Assign(Rs1, From(OpCrs1q, 8)), Assign(Rs2, From(OpCrs2q, 8)), Assign(Imm, From(OpCimmq, 0))])
  const CB := Format([Slot(Rs1, OpCrs1q, 8), Slot(Imm, OpCimmb, 0)], [],
    [Assign(Rd, Is(0)), Assign(Rs1, From(OpCrs1q, 8)), Assign(Rs2, Is(0)), Assign(Imm, From(OpCimmb, 0))])
  const CB_IMM := Format([Slot(Rs1, OpCrs1rdq, 8), Slot(Imm, OpCimmi, 0)], [Same(Rd, Rs1)],
    [Assign(Rd, From(OpCrs1rdq, 8)), Assign(Rs1, From(OpCrs1rdq, 8)), Assign(Rs2, Is(0)),
     Assign(Imm, From(OpCimmi, 0))])
  const CB_SH5 := Format([Slot(Rs1, OpCrs1rdq, 8), Slot(Imm, OpCimmsh5, 0)], [Same(Rd, Rs1)],
    [Assign(Rd, From(OpCrs1rdq, 8)), Assign(Rs1, From(OpCrs1rdq, 8)), Assign(Rs2, Is(0)),
     Assign(Imm, From(OpCimmsh5, 0))])
  const CB_SH6 := Format([Slot(Rs1, OpCrs1rdq, 8), Slot(Imm, OpCimmsh6, 0)], [Same(Rd, Rs1)],
    [Assign(Rd, From(OpCrs1rdq, 8)), Assign(Rs1, From(OpCrs1rdq, 8)), Assign(Rs2, Is(0)),
     Assign(Imm, From(OpCimmsh6, 0))])
  const CJ := Format([Slot(Imm, OpCimmj, 0)], [],
    [Assign(Rd, Is(0)), Assign(Rs1, Is(0)), Assign(Rs2, Is(0)), Assign(Imm, From(OpCimmj, 0))])
  const CJ_JAL := Format([Slot(Imm, OpCimmj, 0)], [],
    [Assign(Rd, Is(1)), Assign(Rs1, Is(0)), Assign(Rs2, Is(0)), Assign(Imm, From(OpCimmj, 0))])
  const R := Format([Slot(Rd, OpRd, 0), Slot(Rs1, OpRs1, 0), Slot(Rs2, OpRs2, 0)], [],
    [Assign(Rd, From(OpRd, 0)), Assign(Rs1, From(OpRs1, 0)), Assign(Rs2, From(OpRs2, 0)), Assign(Imm, Is(0))])
  const R_M := Format([Slot(Rd, OpRd, 0), Slot(Rs1, OpRs1, 0), Slot(Rs2, OpRs2, 0), Slot(Rm, OpRm, 0)], [],
    [Assign(Rd, From(OpRd, 0)), Assign(Rs1, From(OpRs1, 0)), Assign(Rs2, From(OpRs2, 0)), Assign(Imm, Is(0)),
     Assign(Rm, From(OpRm, 0))])
  const R_L := Format([Slot(Rd, OpRd, 0), Slot(Rs1, OpRs1, 0), Slot(Aq, OpAq, 0), Slot(Rl, OpRl, 0)], [Equals(Rs2, 0)],
    [Assign(Rd, From(OpRd, 0)), Assign(Rs1, From(OpRs1, 0)), Assign(Rs2, Is(0)), Assign(Imm, Is(0)),
     Assign(Aq, From(OpAq, 0)), Assign(Rl, From(OpRl, 0))])
  const R_A := Format([Slot(Rd, OpRd, 0), Slot(Rs1, OpRs1, 0), Slot(Rs2, OpRs2, 0), Slot(Aq, OpAq, 0),
                       Slot(Rl, OpRl, 0)], [],
    [Assign(Rd, From(OpRd, 0)), Assign(Rs1, From(OpRs1, 0)), Assign(Rs2, From(OpRs2, 0)), Assign(Imm, Is(0)),
     Assign(Aq, From(OpAq, 0)), Assign(Rl, From(OpRl, 0))])
  const R4_M := Format([Slot(Rd, OpRd, 0), Slot(Rs1, OpRs1, 0), Slot(Rs2, OpRs2, 0), Slot(Rs3, OpRs3, 0),
                        Slot(Rm, OpRm, 0)], [],
    [Assign(Rd, From(OpRd, 0)), Assign(Rs1, From(OpRs1, 0)), Assign(Rs2, From(OpRs2, 0)), Assign(Rs3, From(OpRs3, 0)),
     Assign(Imm, Is(0)), Assign(Rm, From(OpRm, 0))])
  const R_F := Format([Slot(Pred, OpPred, 0), Slot(Succ, OpSucc, 0)], [],
    [Assign(Rd, Is(0)), Assign(Rs1, Is(0)), Assign(Rs2, Is(0)), Assign(Pred, From(OpPred, 0)),
     Assign(Succ, From(OpSucc, 0)), Assign(Imm, Is(0))])
  const I := Format([Slot(Rd, OpRd, 0), Slot(Rs1, OpRs1, 0), Slot(Imm, OpImm12, 0)], [],
    [Assign(Rd, From(OpRd, 0)), Assign(Rs1, From(OpRs1, 0)), Assign(Rs2, Is(0)), Assign(Imm, From(OpImm12, 0))])
  const I_CSR := Format([Slot(Rd, OpRd, 0), Slot(Rs1, OpRs1, 0), Slot(Imm, OpCsr12, 0)], [],
    [Assign(Rd, From(OpRd, 0)), Assign(Rs1, From(OpRs1, 0)), Assign(Rs2, Is(0)), Assign(Imm, From(OpCsr12, 0))])
  const I_SH5 := Format([Slot(Rd, OpRd, 0), Slot(Rs1, OpRs1, 0), Slot(Imm, OpShamt5, 0)], [],
    [Assign(Rd, From(OpRd, 0)), Assign(Rs1, From(OpRs1, 0)), Assign(Rs2, Is(0)), Assign(Imm, From(OpShamt5, 0))])
  const I_SH6 := Format([Slot(Rd, OpRd, 0), Slot(Rs1, OpRs1, 0), Slot(Imm, OpShamt6, 0)], [],
    [Assign(Rd, From(OpRd, 0)), Assign(Rs1, From(OpRs1, 0)), Assign(Rs2, Is(0)), Assign(Imm, From(OpShamt6, 0))])
  const I_SH7 := Format([Slot(Rd, OpRd, 0), Slot(Rs1, OpRs1, 0), Slot(Imm, OpShamt7, 0)], [],
    [Assign(Rd, From(OpRd, 0)), Assign(Rs1, From(OpRs1, 0)), Assign(Rs2, Is(0)), Assign(Imm, From(OpShamt7, 0))])
  const S := Format([Slot(Rs1, OpRs1, 0), Slot(Rs2, OpRs2, 0), Slot(Imm, OpSimm12, 0)], [],
    [Assign(Rd, Is(0)), Assign(Rs1, From(OpRs1, 0)), Assign(Rs2, From(OpRs2, 0)), Assign(Imm, From(OpSimm12, 0))])
  const SB := Format([Slot(Rs1, OpRs1, 0), Slot(Rs2, OpRs2, 0), Slot(Imm, OpSbimm12, 0)], [],
    [Assign(Rd, Is(0)), Assign(Rs1, From(OpRs1, 0)), Assign(Rs2, From(OpRs2, 0)), Assign(Imm, From(OpSbimm12, 0))])
  const U := Format([Slot(Rd, OpRd, 0), Slot(Imm, OpImm20, 0)], [],
    [Assign(Rd, From(OpRd, 0)), Assign(Rs1, Is(0)), Assign(Rs2, Is(0)), Assign(Imm, From(OpImm20, 0))])
  const UJ := Format([Slot(Rd, OpRd, 0), Slot(Imm, OpJimm20, 0)], [],
    [Assign(Rd, From(OpRd, 0)), Assign(Rs1, Is(0)), Assign(Rs2, Is(0)), Assign(Imm, From(OpJimm20, 0))])

  function EncodeSlots(slots: seq<Slot>, d: Decoded): nat
    decreases slots
  {
    if slots == [] then 0
    else Or(Encode(Spec(slots[0].name), Get(d, slots[0].field) + slots[0].bias), EncodeSlots(slots[1..], d))
  }

  /** encode_<codec>(dec) */
  function EncodeFormat(f: Format, d: Decoded): nat {
    EncodeSlots(f.encoder, d)
  }

  function SourceValue(src: Source, inst: nat): int {
    match src
    case From(name, bias) => AllWellFormed(name); Decode(Spec(name), inst) + bias
    case Is(value) => value
  }

  function DecodeAssigns(assigns: seq<Assign>, inst: nat, d: Decoded): Decoded
    decreases assigns
  {
    if assigns == [] then d
    else DecodeAssigns(assigns[1..], inst, Set(d, assigns[0].field, SourceValue(assigns[0].source, inst)))
  }

  /** decode_<codec>(dec, inst), on a record that holds d before */
  function DecodeFormat(f: Format, inst: nat, d: Decoded): Decoded {
    DecodeAssigns(f.decoder, inst, d)
  }

  // ---------------------------------------------------------------------------------------------
  // Operands of one codec do not overlap

  predicate SegmentsApart(a: Segment, b: Segment) {
    a.k < b.l || b.k < a.l
  }

  predicate OperandsApart(a: Operand, b: Operand) {
    forall i, j :: 0 <= i < |a.segments| && 0 <= j < |b.segments| ==> SegmentsApart(a.segments[i], b.segments[j])
  }

  predicate NamesApart(a: OperandName, b: OperandName) {
    OperandsApart(Spec(a), Spec(b))
  }

  predicate ApartFromSlots(name: OperandName, slots: seq<Slot>)
    decreases slots
  {
    slots == [] || (NamesApart(name, slots[0].name) && ApartFromSlots(name, slots[1..]))
  }

  predicate SlotsApart(slots: seq<Slot>)
    decreases slots
  {
    slots == [] || (ApartFromSlots(slots[0].name, slots[1..]) && SlotsApart(slots[1..]))
  }

  /** An instruction bit of a well-formed operand lies in one of its segments. */
  lemma {:induction false} BitInSegment(segments: seq<Segment>, k: int)
    requires forall i :: 0 <= i < |segments| ==>
      GoodRanges(segments[i].ranges) && Offset(segments[i].ranges) == segments[i].k - segments[i].l + 1
    requires InstBit(Strips(segments), k)
    ensures exists i :: 0 <= i < |segments| && segments[i].l <= k <= segments[i].k
    decreases segments
  {
    var strips := Strips(segments);
    var i :| 0 <= i < |strips| && strips[i].inst <= k < strips[i].inst + strips[i].width;
    var s := segments[0];
    var head := SegmentStrips(s.l, s.ranges);
    if i < |head| {
      assert strips[i] == head[i];
      StripInSegment(s.l, s.ranges, i);
    } else {
      assert strips[i] == Strips(segments[1..])[i - |head|];
      BitInSegment(segments[1..], k);
      var j :| 0 <= j < |segments[1..]| && segments[1..][j].l <= k <= segments[1..][j].k;
      assert segments[j + 1] == segments[1..][j];
    }
  }

  lemma {:induction false} StripInSegment(l: nat, ranges: seq<Range>, i: nat)
    requires GoodRanges(ranges) && i < |SegmentStrips(l, ranges)|
    ensures var s := SegmentStrips(l, ranges)[i]; l <= s.inst && s.inst + s.width <= l + Offset(ranges)
    decreases ranges
  {
    OffsetNonNegative(ranges[1..]);
    if i > 0 { StripInSegment(l, ranges[1..], i - 1); }
  }

  lemma ApartMeans(a: Operand, b: Operand, k: int)
    requires WellFormed(a) && WellFormed(b) && OperandsApart(a, b)
    requires InstBit(Strips(a.segments), k)
    ensures !InstBit(Strips(b.segments), k)
  {
    hide Strips, InstBit, Offset;
    BitInSegment(a.segments, k);
    if InstBit(Strips(b.segments), k) {
      BitInSegment(b.segments, k);
    }
  }

  /** A bit of one operand is untouched by operands apart from it. */
  lemma {:induction false} OthersAreSilent(name: OperandName, slots: seq<Slot>, d: Decoded, k: nat)
    requires ApartFromSlots(name, slots) && InstBit(Strips(Spec(name).segments), k)
    ensures !Bit(EncodeSlots(slots, d), k)
    decreases slots
  {
    hide Bit, Strips, InstBit, Encode, Or, WellFormed, OperandsApart, Get, Spec;
    if slots == [] {
      ZeroBits(k);
    } else {
      var v := Get(d, slots[0].field) + slots[0].bias;
      OthersAreSilent(name, slots[1..], d, k);
      AllWellFormed(name);
      AllWellFormed(slots[0].name);
      ApartMeans(Spec(name), Spec(slots[0].name), k);
      EncodeBit(Spec(slots[0].name), v, k);
      BitOr(Encode(Spec(slots[0].name), v), EncodeSlots(slots[1..], d), k);
    }
  }

  /** The word of all operands holds each of them. */
  lemma {:induction false} SlotIsHeld(slots: seq<Slot>, d: Decoded, i: nat, k: nat)
    requires SlotsApart(slots) && i < |slots|
    requires InstBit(Strips(Spec(slots[i].name).segments), k)
    ensures Bit(EncodeSlots(slots, d), k) == Bit(Encode(Spec(slots[i].name), Get(d, slots[i].field) + slots[i].bias), k)
    decreases slots
  {
    hide Bit, Strips, InstBit, Encode, Or, WellFormed, Spec, Get;
    var v := Get(d, slots[0].field) + slots[0].bias;
    BitOr(Encode(Spec(slots[0].name), v), EncodeSlots(slots[1..], d), k);
    AllWellFormed(slots[0].name);
    AllWellFormed(slots[i].name);
    if i == 0 {
      OthersAreSilent(slots[0].name, slots[1..], d, k);
    } else {
      SlotIsHeld(slots[1..], d, i - 1, k);
      SlotsApartMeans(slots, i);
      EncodeBit(Spec(slots[0].name), v, k);
      if Bit(Encode(Spec(slots[0].name), v), k) { ApartMeans(Spec(slots[0].name), Spec(slots[i].name), k); }
    }
  }

  lemma SlotsApartMeans(slots: seq<Slot>, i: nat)
    requires SlotsApart(slots) && 0 < i < |slots|
    ensures OperandsApart(Spec(slots[0].name), Spec(slots[i].name))
  {
    hide Spec, OperandsApart;
    ApartFromSlotsMeans(slots[0].name, slots[1..], i - 1);
  }

  lemma {:induction false} ApartFromSlotsMeans(name: OperandName, slots: seq<Slot>, i: nat)
    requires ApartFromSlots(name, slots) && i < |slots|
    ensures NamesApart(name, slots[i].name)
    decreases slots
  {
    if i > 0 { ApartFromSlotsMeans(name, slots[1..], i - 1); }
  }

  /** Outside the operands nothing is set. */
  lemma {:induction false} EncodeSlotsOnly(slots: seq<Slot>, d: Decoded, k: nat)
    requires Bit(EncodeSlots(slots, d), k)
    ensures k < 32 && exists i :: 0 <= i < |slots| && InstBit(Strips(Spec(slots[i].name).segments), k)
    decreases slots
  {
    hide Bit, Strips, InstBit, Encode, Or, WellFormed, Get, Spec;
    if slots == [] {
      ZeroBits(k);
    } else {
      var v := Get(d, slots[0].field) + slots[0].bias;
      BitOr(Encode(Spec(slots[0].name), v), EncodeSlots(slots[1..], d), k);
      AllWellFormed(slots[0].name);
      EncodeBit(Spec(slots[0].name), v, k);
      EncodeBound(Spec(slots[0].name), v);
      if Bit(Encode(Spec(slots[0].name), v), k) {
        if k >= 32 { HighBits(Encode(Spec(slots[0].name), v), 32, k); }
      } else {
        EncodeSlotsOnly(slots[1..], d, k);
        var i :| 0 <= i < |slots[1..]| && InstBit(Strips(Spec(slots[1..][i].name).segments), k);
        assert slots[i + 1] == slots[1..][i];
      }
    }
  }

  // ---------------------------------------------------------------------------------------------
  // What the table must satisfy

  predicate Tied(asserts: seq<Assertion>, f: Field, g: Field)
    decreases asserts
  {
    f == g || (asserts != [] && (asserts[0] == Same(f, g) || asserts[0] == Same(g, f) || Tied(asserts[1..], f, g)))
  }

  predicate CompactRegister(name: OperandName) {
    name.OpCrdq? || name.OpCrs1q? || name.OpCrs1rdq? || name.OpCrs2q?
  }

  /** Operands that read and write the same instruction bits. */
  predicate SamePlace(a: OperandName, b: OperandName) {
    a == b || (a.OpCrs1q? && b.OpCrs1rdq?) || (a.OpCrdq? && b.OpCrs2q?)
  }

  lemma SamePlaceMeans(a: OperandName, b: OperandName)
    requires SamePlace(a, b)
    ensures Spec(a) == Spec(b)
  {}

  /** The operand that the decoder reads is written by encoder slot i with the same bias. */
  predicate PlacedBy(f: Format, a: Assign, i: nat) {
    a.source.From? ==>
      && i < |f.encoder|
      && SamePlace(f.encoder[i].name, a.source.name)
      && f.encoder[i].bias == a.source.bias
      && (a.source.bias == 0 || (a.source.bias == 8 && CompactRegister(a.source.name)))
  }

  /** ... from a field that the asserts make equal to the one assigned. */
  predicate FedBy(f: Format, a: Assign, i: nat) {
    PlacedBy(f, a, i) && (a.source.From? ==> Tied(f.asserts, f.encoder[i].field, a.field))
  }

  predicate Unassigned(f: Field, assigns: seq<Assign>)
    decreases assigns
  {
    assigns == [] || (assigns[0].field != f && Unassigned(f, assigns[1..]))
  }

  predicate AllFedBy(f: Format, assigns: seq<Assign>, feed: seq<nat>)
    decreases assigns
  {
    && |assigns| == |feed|
    && (assigns == [] ||
        (&& FedBy(f, assigns[0], feed[0])
         && Unassigned(assigns[0].field, assigns[1..])
         && AllFedBy(f, assigns[1..], feed[1..])))
  }

  /** The operands of the encoder do not overlap, each operand that the decoder reads is one that
      the encoder writes, and the decoder assigns no field twice. */
  ghost predicate FormatOk(f: Format) {
    SlotsApart(f.encoder) && exists feed: seq<nat> :: AllFedBy(f, f.decoder, feed)
  }

  lemma FormatIntro(f: Format, feed: seq<nat>)
    requires SlotsApart(f.encoder) && AllFedBy(f, f.decoder, feed)
    ensures FormatOk(f)
  {
    hide SlotsApart, AllFedBy;
  }

  /** The same without slices: each assignment is fed, and no two assign one field. */
  predicate EachFedBy(f: Format, d: seq<Assign>, feed: seq<nat>) {
    && |d| == |feed|
    && (forall i :: 0 <= i < |d| ==> FedBy(f, d[i], feed[i]))
    && forall i, j :: 0 <= i < j < |d| ==> d[i].field != d[j].field
  }

  lemma {:induction false} EachFedMeans(f: Format, d: seq<Assign>, feed: seq<nat>)
    requires EachFedBy(f, d, feed)
    ensures AllFedBy(f, d, feed)
    decreases d
  {
    hide FedBy, Unassigned;
    if d != [] {
      EachFedMeans(f, d[1..], feed[1..]);
      UnassignedIn(d[0].field, d[1..]);
    }
  }

  lemma {:induction false} UnassignedIn(f: Field, d: seq<Assign>)
    requires forall i :: 0 <= i < |d| ==> d[i].field != f
    ensures Unassigned(f, d)
    decreases d
  {
    if d != [] { UnassignedIn(f, d[1..]); }
  }

  // ---------------------------------------------------------------------------------------------
  // Every row of the table satisfies it

  lemma SpecRows1(name: OperandName)
    ensures name.OpRd? ==> Spec(name) == RD
    ensures name.OpCrd? ==> Spec(name) == RD
    ensures name.OpCrs1? ==> Spec(name) == RD
    ensures name.OpCrs1rd? ==> Spec(name) == RD
    ensures name.OpRs1? ==> Spec(name) == RS1
    ensures name.OpRs2? ==> Spec(name) == RS2
    ensures name.OpShamt5? ==> Spec(name) == RS2
    ensures name.OpRs3? ==> Spec(name) == RS3
    ensures name.OpAq? ==> Spec(name) == AQ
  {
    hide RD, RS1, RS2, RS3, AQ;
  }

  lemma SpecRows2(name: OperandName)
    ensures name.OpRl? ==> Spec(name) == RL
    ensures name.OpPred? ==> Spec(name) == PRED
    ensures name.OpSucc? ==> Spec(name) == SUCC
    ensures name.OpRm? ==> Spec(name) == RM
    ensures name.OpImm20? ==> Spec(name) == IMM20
    ensures name.OpJimm20? ==> Spec(name) == JIMM20
    ensures name.OpImm12? ==> Spec(name) == IMM12
    ensures name.OpCsr12? ==> Spec(name) == CSR12
    ensures name.OpSimm12? ==> Spec(name) == SIMM12
  {
    hide RL, PRED, SUCC, RM, IMM20, JIMM20, IMM12, CSR12, SIMM12;
  }

  lemma SpecRows3(name: OperandName)
    ensures name.OpSbimm12? ==> Spec(name) == SBIMM12
    ensures name.OpShamt6? ==> Spec(name) == SHAMT6
    ensures name.OpShamt7? ==> Spec(name) == SHAMT7
    ensures name.OpCrdq? ==> Spec(name) == CRDQ
    ensures name.OpCrs2q? ==> Spec(name) == CRDQ
    ensures name.OpCrs1q? ==> Spec(name) == CRS1Q
    ensures name.OpCrs1rdq? ==> Spec(name) == CRS1Q
    ensures name.OpCrs2? ==> Spec(name) == CRS2
    ensures name.OpCimmsh5? ==> Spec(name) == CRS2
  {
    hide SBIMM12, SHAMT6, SHAMT7, CRDQ, CRS1Q, CRS2;
  }

  lemma SpecRows4(name: OperandName)
    ensures name.OpCimmsh6? ==> Spec(name) == CIMMSH6
    ensures name.OpCimmi? ==> Spec(name) == CIMMI
    ensures name.OpCimmui? ==> Spec(name) == CIMMUI
    ensures name.OpCimmlwsp? ==> Spec(name) == CIMMLWSP
    ensures name.OpCimmldsp? ==> Spec(name) == CIMMLDSP
    ensures name.OpCimmlqsp? ==> Spec(name) == CIMMLQSP
    ensures name.OpCimm16sp? ==> Spec(name) == CIMM16SP
    ensures name.OpCimmj? ==> Spec(name) == CIMMJ
    ensures name.OpCimmb? ==> Spec(name) == CIMMB
  {
    hide CIMMSH6, CIMMI, CIMMUI, CIMMLWSP, CIMMLDSP, CIMMLQSP, CIMM16SP, CIMMJ, CIMMB;
  }

  lemma SpecRows5(name: OperandName)
    ensures name.OpCimmswsp? ==> Spec(name) == CIMMSWSP
    ensures name.OpCimmsdsp? ==> Spec(name) == CIMMSDSP
    ensures name.OpCimmsqsp? ==> Spec(name) == CIMMSQSP
    ensures name.OpCimm4spn? ==> Spec(name) == CIMM4SPN
    ensures name.OpCimmw? ==> Spec(name) == CIMMW
    ensures name.OpCimmd? ==> Spec(name) == CIMMD
    ensures name.OpCimmq? ==> Spec(name) == CIMMQ
  {
    hide CIMMSWSP, CIMMSDSP, CIMMSQSP, CIMM4SPN, CIMMW, CIMMD, CIMMQ;
  }

  /** The table of operands, row by row. */
  lemma SpecIs(name: OperandName)
    ensures name.OpRd? ==> Spec(name) == RD
    ensures name.OpCrd? ==> Spec(name) == RD
    ensures name.OpCrs1? ==> Spec(name) == RD
    ensures name.OpCrs1rd? ==> Spec(name) == RD
    ensures name.OpRs1? ==> Spec(name) == RS1
    ensures name.OpRs2? ==> Spec(name) == RS2
    ensures name.OpShamt5? ==> Spec(name) == RS2
    ensures name.OpRs3? ==> Spec(name) == RS3
    ensures name.OpAq? ==> Spec(name) == AQ
    ensures name.OpRl? ==> Spec(name) == RL
    ensures name.OpPred? ==> Spec(name) == PRED
    ensures name.OpSucc? ==> Spec(name) == SUCC
    ensures name.OpRm? ==> Spec(name) == RM
    ensures name.OpImm20? ==> Spec(name) == IMM20
    ensures name.OpJimm20? ==> Spec(name) == JIMM20
    ensures name.OpImm12? ==> Spec(name) == IMM12
    ensures name.OpCsr12? ==> Spec(name) == CSR12
    ensures name.OpSimm12? ==> Spec(name) == SIMM12
    ensures name.OpSbimm12? ==> Spec(name) == SBIMM12
    ensures name.OpShamt6? ==> Spec(name) == SHAMT6
    ensures name.OpShamt7? ==> Spec(name) == SHAMT7
    ensures name.OpCrdq? ==> Spec(name) == CRDQ
    ensures name.OpCrs2q? ==> Spec(name) == CRDQ
    ensures name.OpCrs1q? ==> Spec(name) == CRS1Q
    ensures name.OpCrs1rdq? ==> Spec(name) == CRS1Q
    ensures name.OpCrs2? ==> Spec(name) == CRS2
    ensures name.OpCimmsh5? ==> Spec(name) == CRS2
    ensures name.OpCimmsh6? ==> Spec(name) == CIMMSH6
    ensures name.OpCimmi? ==> Spec(name) == CIMMI
    ensures name.OpCimmui? ==> Spec(name) == CIMMUI
    ensures name.OpCimmlwsp? ==> Spec(name) == CIMMLWSP
    ensures name.OpCimmldsp? ==> Spec(name) == CIMMLDSP
    ensures name.OpCimmlqsp? ==> Spec(name) == CIMMLQSP
    ensures name.OpCimm16sp? ==> Spec(name) == CIMM16SP
    ensures name.OpCimmj? ==> Spec(name) == CIMMJ
    ensures name.OpCimmb? ==> Spec(name) == CIMMB
    ensures name.OpCimmswsp? ==> Spec(name) == CIMMSWSP
    ensures name.OpCimmsdsp? ==> Spec(name) == CIMMSDSP
    ensures name.OpCimmsqsp? ==> Spec(name) == CIMMSQSP
    ensures name.OpCimm4spn? ==> Spec(name) == CIMM4SPN
    ensures name.OpCimmw? ==> Spec(name) == CIMMW
    ensures name.OpCimmd? ==> Spec(name) == CIMMD
    ensures name.OpCimmq? ==> Spec(name) == CIMMQ
  {
    hide Spec;
    SpecRows1(name);
    SpecRows2(name);
    SpecRows3(name);
    SpecRows4(name);
    SpecRows5(name);
  }

  lemma Layout1()
    ensures OperandsApart(RD, CRS2) && OperandsApart(RD, CIMMI) && OperandsApart(RD, CIMMSH6)
    ensures OperandsApart(RD, CIMMUI) && OperandsApart(RD, CIMMLWSP)
  {}

  lemma Pairs1()
    ensures NamesApart(OpCrs1rd, OpCrs2) && NamesApart(OpCrd, OpCrs2) && NamesApart(OpCrs1rd, OpCimmi)
    ensures NamesApart(OpCrs1rd, OpCimmsh5) && NamesApart(OpCrs1rd, OpCimmsh6) && NamesApart(OpCrd, OpCimmi)
    ensures NamesApart(OpCrd, OpCimmui) && NamesApart(OpCrd, OpCimmlwsp)
  {
    hide OperandsApart, Spec;
    SpecIs(OpCrs1rd); SpecIs(OpCrs2); SpecIs(OpCrd); SpecIs(OpCimmi); SpecIs(OpCimmsh5); SpecIs(OpCimmsh6);
    SpecIs(OpCimmui); SpecIs(OpCimmlwsp);
    Layout1();
  }

  lemma Layout2()
    ensures OperandsApart(RD, CIMMLDSP) && OperandsApart(RD, CIMMLQSP) && OperandsApart(CRS2, CIMMSWSP)
    ensures OperandsApart(CRS2, CIMMSDSP) && OperandsApart(CRS2, CIMMSQSP) && OperandsApart(CRDQ, CIMM4SPN)
    ensures OperandsApart(CRDQ, CRS1Q) && OperandsApart(CRDQ, CIMMW)
  {}

  lemma Pairs2()
    ensures NamesApart(OpCrd, OpCimmldsp) && NamesApart(OpCrd, OpCimmlqsp) && NamesApart(OpCrs2, OpCimmswsp)
    ensures NamesApart(OpCrs2, OpCimmsdsp) && NamesApart(OpCrs2, OpCimmsqsp) && NamesApart(OpCrdq, OpCimm4spn)
    ensures NamesApart(OpCrdq, OpCrs1q) && NamesApart(OpCrdq, OpCimmw)
  {
    hide OperandsApart, Spec;
    SpecIs(OpCrd); SpecIs(OpCimmldsp); SpecIs(OpCimmlqsp); SpecIs(OpCrs2); SpecIs(OpCimmswsp); SpecIs(OpCimmsdsp);
    SpecIs(OpCimmsqsp); SpecIs(OpCrdq); SpecIs(OpCimm4spn); SpecIs(OpCrs1q); SpecIs(OpCimmw);
    Layout2();
  }

  lemma Layout3()
    ensures OperandsApart(CRS1Q, CIMMW) && OperandsApart(CRDQ, CIMMD) && OperandsApart(CRS1Q, CIMMD)
    ensures OperandsApart(CRDQ, CIMMQ) && OperandsApart(CRS1Q, CIMMQ) && OperandsApart(CRS1Q, CRDQ)
    ensures OperandsApart(CRDQ, CIMMW)
  {}

  lemma Pairs3()
    ensures NamesApart(OpCrs1q, OpCimmw) && NamesApart(OpCrdq, OpCimmd) && NamesApart(OpCrs1q, OpCimmd)
    ensures NamesApart(OpCrdq, OpCimmq) && NamesApart(OpCrs1q, OpCimmq) && NamesApart(OpCrs1q, OpCrs2q)
    ensures NamesApart(OpCrs2q, OpCimmw) && NamesApart(OpCrs2q, OpCimmd)
  {
    hide OperandsApart, Spec;
    SpecIs(OpCrs1q); SpecIs(OpCimmw); SpecIs(OpCrdq); SpecIs(OpCimmd); SpecIs(OpCimmq); SpecIs(OpCrs2q);
    Layout3();
  }

  lemma Layout4()
    ensures OperandsApart(CRDQ, CIMMQ) && OperandsApart(CRS1Q, CIMMB) && OperandsApart(CRS1Q, CIMMI)
    ensures OperandsApart(CRS1Q, CRS2) && OperandsApart(CRS1Q, CIMMSH6) && OperandsApart(RD, RS1)
    ensures OperandsApart(RD, RS2) && OperandsApart(RS1, RS2)
  {}

  lemma Pairs4()
    ensures NamesApart(OpCrs2q, OpCimmq) && NamesApart(OpCrs1q, OpCimmb) && NamesApart(OpCrs1rdq, OpCimmi)
    ensures NamesApart(OpCrs1rdq, OpCimmsh5) && NamesApart(OpCrs1rdq, OpCimmsh6) && NamesApart(OpRd, OpRs1)
    ensures NamesApart(OpRd, OpRs2) && NamesApart(OpRs1, OpRs2)
  {
    hide OperandsApart, Spec;
    SpecIs(OpCrs2q); SpecIs(OpCimmq); SpecIs(OpCrs1q); SpecIs(OpCimmb); SpecIs(OpCrs1rdq); SpecIs(OpCimmi);
    SpecIs(OpCimmsh5); SpecIs(OpCimmsh6); SpecIs(OpRd); SpecIs(OpRs1); SpecIs(OpRs2);
    Layout4();
  }

  lemma Layout5()
    ensures OperandsApart(RD, RM) && OperandsApart(RS1, RM) && OperandsApart(RS2, RM)
    ensures OperandsApart(RD, AQ) && OperandsApart(RD, RL) && OperandsApart(RS1, AQ)
    ensures OperandsApart(RS1, RL) && OperandsApart(AQ, RL)
  {}

  lemma Pairs5()
    ensures NamesApart(OpRd, OpRm) && NamesApart(OpRs1, OpRm) && NamesApart(OpRs2, OpRm)
    ensures NamesApart(OpRd, OpAq) && NamesApart(OpRd, OpRl) && NamesApart(OpRs1, OpAq)
    ensures NamesApart(OpRs1, OpRl) && NamesApart(OpAq, OpRl)
  {
    hide OperandsApart, Spec;
    SpecIs(OpRd); SpecIs(OpRm); SpecIs(OpRs1); SpecIs(OpRs2); SpecIs(OpAq); SpecIs(OpRl);
    Layout5();
  }

  lemma Layout6()
    ensures OperandsApart(RS2, AQ) && OperandsApart(RS2, RL) && OperandsApart(RD, RS3)
    ensures OperandsApart(RS1, RS3) && OperandsApart(RS2, RS3) && OperandsApart(RS3, RM)
    ensures OperandsApart(PRED, SUCC) && OperandsApart(RD, IMM12)
  {}

  lemma Pairs6()
    ensures NamesApart(OpRs2, OpAq) && NamesApart(OpRs2, OpRl) && NamesApart(OpRd, OpRs3)
    ensures NamesApart(OpRs1, OpRs3) && NamesApart(OpRs2, OpRs3) && NamesApart(OpRs3, OpRm)
    ensures NamesApart(OpPred, OpSucc) && NamesApart(OpRd, OpImm12)
  {
    hide OperandsApart, Spec;
    SpecIs(OpRs2); SpecIs(OpAq); SpecIs(OpRl); SpecIs(OpRd); SpecIs(OpRs3); SpecIs(OpRs1); SpecIs(OpRm);
    SpecIs(OpPred); SpecIs(OpSucc); SpecIs(OpImm12);
    Layout6();
  }

  lemma Layout7()
    ensures OperandsApart(RS1, IMM12) && OperandsApart(RD, CSR12) && OperandsApart(RS1, CSR12)
    ensures OperandsApart(RD, RS2) && OperandsApart(RS1, RS2) && OperandsApart(RD, SHAMT6)
    ensures OperandsApart(RS1, SHAMT6) && OperandsApart(RD, SHAMT7)
  {}

  lemma Pairs7()
    ensures NamesApart(OpRs1, OpImm12) && NamesApart(OpRd, OpCsr12) && NamesApart(OpRs1, OpCsr12)
    ensures NamesApart(OpRd, OpShamt5) && NamesApart(OpRs1, OpShamt5) && NamesApart(OpRd, OpShamt6)
    ensures NamesApart(OpRs1, OpShamt6) && NamesApart(OpRd, OpShamt7)
  {
    hide OperandsApart, Spec;
    SpecIs(OpRs1); SpecIs(OpImm12); SpecIs(OpRd); SpecIs(OpCsr12); SpecIs(OpShamt5); SpecIs(OpShamt6); SpecIs(OpShamt7);
    Layout7();
  }

  lemma Layout8()
    ensures OperandsApart(RS1, SHAMT7) && OperandsApart(RS1, SIMM12) && OperandsApart(RS2, SIMM12)
    ensures OperandsApart(RS1, SBIMM12) && OperandsApart(RS2, SBIMM12) && OperandsApart(RD, IMM20)
    ensures OperandsApart(RD, JIMM20)
  {}

  lemma Pairs8()
    ensures NamesApart(OpRs1, OpShamt7) && NamesApart(OpRs1, OpSimm12) && NamesApart(OpRs2, OpSimm12)
    ensures NamesApart(OpRs1, OpSbimm12) && NamesApart(OpRs2, OpSbimm12) && NamesApart(OpRd, OpImm20)
    ensures NamesApart(OpRd, OpJimm20)
  {
    hide OperandsApart, Spec;
    SpecIs(OpRs1); SpecIs(OpShamt7); SpecIs(OpSimm12); SpecIs(OpRs2); SpecIs(OpSbimm12); SpecIs(OpRd);
    SpecIs(OpImm20); SpecIs(OpJimm20);
    Layout8();
  }

  lemma NoneFormatApart() ensures SlotsApart(NONE.encoder) { hide NamesApart; }
  lemma NoneFormatFed() ensures AllFedBy(NONE, NONE.decoder, [0, 0, 0, 0]) { hide NamesApart; }
  lemma NoneFormat() ensures FormatOk(NONE)
  { hide *; NoneFormatApart(); NoneFormatFed(); FormatIntro(NONE, [0, 0, 0, 0]); }
  lemma CiNoneFormatApart() ensures SlotsApart(CI_NONE.encoder) { hide NamesApart; }
  lemma CiNoneFormatFed() ensures AllFedBy(CI_NONE, CI_NONE.decoder, [0, 0, 0, 0]) { hide NamesApart; }
  lemma CiNoneFormat() ensures FormatOk(CI_NONE)
  { hide *; CiNoneFormatApart(); CiNoneFormatFed(); FormatIntro(CI_NONE, [0, 0, 0, 0]); }
  lemma CrFormatApart() ensures SlotsApart(CR.encoder) { hide NamesApart; Pairs1(); }
  lemma CrFormatFed() ensures AllFedBy(CR, CR.decoder, [0, 0, 1, 0]) { hide NamesApart; }
  lemma CrFormat() ensures FormatOk(CR)
  { hide *; CrFormatApart(); CrFormatFed(); FormatIntro(CR, [0, 0, 1, 0]); }
  lemma CrMvFormatApart() ensures SlotsApart(CR_MV.encoder) { hide NamesApart; Pairs1(); }
  lemma CrMvFormatFed() ensures AllFedBy(CR_MV, CR_MV.decoder, [0, 1, 0, 0]) { hide NamesApart; }
  lemma CrMvFormat() ensures FormatOk(CR_MV)
  { hide *; CrMvFormatApart(); CrMvFormatFed(); FormatIntro(CR_MV, [0, 1, 0, 0]); }
  lemma CrJalrFormatApart() ensures SlotsApart(CR_JALR.encoder) { hide NamesApart; }
  lemma CrJalrFormatFed() ensures AllFedBy(CR_JALR, CR_JALR.decoder, [0, 0, 0, 0]) { hide NamesApart; }
  lemma CrJalrFormat() ensures FormatOk(CR_JALR)
  { hide *; CrJalrFormatApart(); CrJalrFormatFed(); FormatIntro(CR_JALR, [0, 0, 0, 0]); }
  lemma CrJrFormatApart() ensures SlotsApart(CR_JR.encoder) { hide NamesApart; }
  lemma CrJrFormatFed() ensures AllFedBy(CR_JR, CR_JR.decoder, [0, 0, 0, 0]) { hide NamesApart; }
  lemma CrJrFormat() ensures FormatOk(CR_JR)
  { hide *; CrJrFormatApart(); CrJrFormatFed(); FormatIntro(CR_JR, [0, 0, 0, 0]); }
  lemma CiFormatApart() ensures SlotsApart(CI.encoder) { hide NamesApart; Pairs1(); }
  lemma CiFormatFed() ensures AllFedBy(CI, CI.decoder, [0, 0, 0, 1]) { hide NamesApart; }
  lemma CiFormat() ensures FormatOk(CI)
  { hide *; CiFormatApart(); CiFormatFed(); FormatIntro(CI, [0, 0, 0, 1]); }
  lemma CiSh5FormatApart() ensures SlotsApart(CI_SH5.encoder) { hide NamesApart; Pairs1(); }
  lemma CiSh5FormatFed() ensures AllFedBy(CI_SH5, CI_SH5.decoder, [0, 0, 0, 1]) { hide NamesApart; }
  lemma CiSh5Format() ensures FormatOk(CI_SH5)
  { hide *; CiSh5FormatApart(); CiSh5FormatFed(); FormatIntro(CI_SH5, [0, 0, 0, 1]); }
  lemma CiSh6FormatApart() ensures SlotsApart(CI_SH6.encoder) { hide NamesApart; Pairs1(); }
  lemma CiSh6FormatFed() ensures AllFedBy(CI_SH6, CI_SH6.decoder, [0, 0, 0, 1]) { hide NamesApart; }
  lemma CiSh6Format() ensures FormatOk(CI_SH6)
  { hide *; CiSh6FormatApart(); CiSh6FormatFed(); FormatIntro(CI_SH6, [0, 0, 0, 1]); }
  lemma CiLiFormatApart() ensures SlotsApart(CI_LI.encoder) { hide NamesApart; Pairs1(); }
  lemma CiLiFormatFed() ensures AllFedBy(CI_LI, CI_LI.decoder, [0, 0, 0, 1]) { hide NamesApart; }
  lemma CiLiFormat() ensures FormatOk(CI_LI)
  { hide *; CiLiFormatApart(); CiLiFormatFed(); FormatIntro(CI_LI, [0, 0, 0, 1]); }
  lemma CiLuiFormatApart() ensures SlotsApart(CI_LUI.encoder) { hide NamesApart; Pairs1(); }
  lemma CiLuiFormatFed() ensures AllFedBy(CI_LUI, CI_LUI.decoder, [0, 0, 0, 1]) { hide NamesApart; }
  lemma CiLuiFormat() ensures FormatOk(CI_LUI)
  { hide *; CiLuiFormatApart(); CiLuiFormatFed(); FormatIntro(CI_LUI, [0, 0, 0, 1]); }
  lemma CiLwspFormatApart() ensures SlotsApart(CI_LWSP.encoder) { hide NamesApart; Pairs1(); }
  lemma CiLwspFormatFed() ensures AllFedBy(CI_LWSP, CI_LWSP.decoder, [0, 0, 0, 1]) { hide NamesApart; }
  lemma CiLwspFormat() ensures FormatOk(CI_LWSP)
  { hide *; CiLwspFormatApart(); CiLwspFormatFed(); FormatIntro(CI_LWSP, [0, 0, 0, 1]); }
  lemma CiLdspFormatApart() ensures SlotsApart(CI_LDSP.encoder) { hide NamesApart; Pairs2(); }
  lemma CiLdspFormatFed() ensures AllFedBy(CI_LDSP, CI_LDSP.decoder, [0, 0, 0, 1]) { hide NamesApart; }
  lemma CiLdspFormat() ensures FormatOk(CI_LDSP)
  { hide *; CiLdspFormatApart(); CiLdspFormatFed(); FormatIntro(CI_LDSP, [0, 0, 0, 1]); }
  lemma CiLqspFormatApart() ensures SlotsApart(CI_LQSP.encoder) { hide NamesApart; Pairs2(); }
  lemma CiLqspFormatFed() ensures AllFedBy(CI_LQSP, CI_LQSP.decoder, [0, 0, 0, 1]) { hide NamesApart; }
  lemma CiLqspFormat() ensures FormatOk(CI_LQSP)
  { hide *; CiLqspFormatApart(); CiLqspFormatFed(); FormatIntro(CI_LQSP, [0, 0, 0, 1]); }
  lemma Ci16spFormatApart() ensures SlotsApart(CI_16SP.encoder) { hide NamesApart; }
  lemma Ci16spFormatFed() ensures AllFedBy(CI_16SP, CI_16SP.decoder, [0, 0, 0, 0]) { hide NamesApart; }
  lemma Ci16spFormat() ensures FormatOk(CI_16SP)
  { hide *; Ci16spFormatApart(); Ci16spFormatFed(); FormatIntro(CI_16SP, [0, 0, 0, 0]); }
  lemma CssSwspFormatApart() ensures SlotsApart(CSS_SWSP.encoder) { hide NamesApart; Pairs2(); }
  lemma CssSwspFormatFed() ensures AllFedBy(CSS_SWSP, CSS_SWSP.decoder, [0, 0, 0, 1]) { hide NamesApart; }
  lemma CssSwspFormat() ensures FormatOk(CSS_SWSP)
  { hide *; CssSwspFormatApart(); CssSwspFormatFed(); FormatIntro(CSS_SWSP, [0, 0, 0, 1]); }
  lemma CssSdspFormatApart() ensures SlotsApart(CSS_SDSP.encoder) { hide NamesApart; Pairs2(); }
  lemma CssSdspFormatFed() ensures AllFedBy(CSS_SDSP, CSS_SDSP.decoder, [0, 0, 0, 1]) { hide NamesApart; }
  lemma CssSdspFormat() ensures FormatOk(CSS_SDSP)
  { hide *; CssSdspFormatApart(); CssSdspFormatFed(); FormatIntro(CSS_SDSP, [0, 0, 0, 1]); }
  lemma CssSqspFormatApart() ensures SlotsApart(CSS_SQSP.encoder) { hide NamesApart; Pairs2(); }
  lemma CssSqspFormatFed() ensures AllFedBy(CSS_SQSP, CSS_SQSP.decoder, [0, 0, 0, 1]) { hide NamesApart; }
  lemma CssSqspFormat() ensures FormatOk(CSS_SQSP)
  { hide *; CssSqspFormatApart(); CssSqspFormatFed(); FormatIntro(CSS_SQSP, [0, 0, 0, 1]); }
  lemma Ciw4spnFormatApart() ensures SlotsApart(CIW_4SPN.encoder) { hide NamesApart; Pairs2(); }
  lemma Ciw4spnFormatFed() ensures AllFedBy(CIW_4SPN, CIW_4SPN.decoder, [0, 0, 0, 1]) { hide NamesApart; }
  lemma Ciw4spnFormat() ensures FormatOk(CIW_4SPN)
  { hide *; Ciw4spnFormatApart(); Ciw4spnFormatFed(); FormatIntro(CIW_4SPN, [0, 0, 0, 1]); }
  lemma ClLwFormatApart() ensures SlotsApart(CL_LW.encoder) { hide NamesApart; Pairs2(); Pairs3(); }
  lemma ClLwFormatFed() ensures AllFedBy(CL_LW, CL_LW.decoder, [0, 1, 0, 2]) { hide NamesApart; }
  lemma ClLwFormat() ensures FormatOk(CL_LW)
  { hide *; ClLwFormatApart(); ClLwFormatFed(); FormatIntro(CL_LW, [0, 1, 0, 2]); }
  lemma ClLdFormatApart() ensures SlotsApart(CL_LD.encoder) { hide NamesApart; Pairs2(); Pairs3(); }
  lemma ClLdFormatFed() ensures AllFedBy(CL_LD, CL_LD.decoder, [0, 1, 0, 2]) { hide NamesApart; }
  lemma ClLdFormat() ensures FormatOk(CL_LD)
  { hide *; ClLdFormatApart(); ClLdFormatFed(); FormatIntro(CL_LD, [0, 1, 0, 2]); }
  lemma ClLqFormatApart() ensures SlotsApart(CL_LQ.encoder) { hide NamesApart; Pairs2(); Pairs3(); }
  lemma ClLqFormatFed() ensures AllFedBy(CL_LQ, CL_LQ.decoder, [0, 1, 0, 2]) { hide NamesApart; }
  lemma ClLqFormat() ensures FormatOk(CL_LQ)
  { hide *; ClLqFormatApart(); ClLqFormatFed(); FormatIntro(CL_LQ, [0, 1, 0, 2]); }
  lemma CsSwFormatApart() ensures SlotsApart(CS_SW.encoder) { hide NamesApart; Pairs3(); }
  lemma CsSwFormatFed() ensures AllFedBy(CS_SW, CS_SW.decoder, [0, 0, 1, 2]) { hide NamesApart; }
  lemma CsSwFormat() ensures FormatOk(CS_SW)
  { hide *; CsSwFormatApart(); CsSwFormatFed(); FormatIntro(CS_SW, [0, 0, 1, 2]); }
  lemma CsSdFormatApart() ensures SlotsApart(CS_SD.encoder) { hide NamesApart; Pairs3(); }
  lemma CsSdFormatFed() ensures AllFedBy(CS_SD, CS_SD.decoder, [0, 0, 1, 2]) { hide NamesApart; }
  lemma CsSdFormat() ensures FormatOk(CS_SD)
  { hide *; CsSdFormatApart(); CsSdFormatFed(); FormatIntro(CS_SD, [0, 0, 1, 2]); }
  lemma CsSqFormatApart() ensures SlotsApart(CS_SQ.encoder) { hide NamesApart; Pairs3(); Pairs4(); }
  lemma CsSqFormatFed() ensures AllFedBy(CS_SQ, CS_SQ.decoder, [0, 0, 1, 2]) { hide NamesApart; }
  lemma CsSqFormat() ensures FormatOk(CS_SQ)
  { hide *; CsSqFormatApart(); CsSqFormatFed(); FormatIntro(CS_SQ, [0, 0, 1, 2]); }
  lemma CbFormatApart() ensures SlotsApart(CB.encoder) { hide NamesApart; Pairs4(); }
  lemma CbFormatFed() ensures AllFedBy(CB, CB.decoder, [0, 0, 0, 1]) { hide NamesApart; }
  lemma CbFormat() ensures FormatOk(CB)
  { hide *; CbFormatApart(); CbFormatFed(); FormatIntro(CB, [0, 0, 0, 1]); }
  lemma CbImmFormatApart() ensures SlotsApart(CB_IMM.encoder) { hide NamesApart; Pairs4(); }
  lemma CbImmFormatFed() ensures AllFedBy(CB_IMM, CB_IMM.decoder, [0, 0, 0, 1]) { hide NamesApart; }
  lemma CbImmFormat() ensures FormatOk(CB_IMM)
  { hide *; CbImmFormatApart(); CbImmFormatFed(); FormatIntro(CB_IMM, [0, 0, 0, 1]); }
  lemma CbSh5FormatApart() ensures SlotsApart(CB_SH5.encoder) { hide NamesApart; Pairs4(); }
  lemma CbSh5FormatFed() ensures AllFedBy(CB_SH5, CB_SH5.decoder, [0, 0, 0, 1]) { hide NamesApart; }
  lemma CbSh5Format() ensures FormatOk(CB_SH5)
  { hide *; CbSh5FormatApart(); CbSh5FormatFed(); FormatIntro(CB_SH5, [0, 0, 0, 1]); }
  lemma CbSh6FormatApart() ensures SlotsApart(CB_SH6.encoder) { hide NamesApart; Pairs4(); }
  lemma CbSh6FormatFed() ensures AllFedBy(CB_SH6, CB_SH6.decoder, [0, 0, 0, 1]) { hide NamesApart; }
  lemma CbSh6Format() ensures FormatOk(CB_SH6)
  { hide *; CbSh6FormatApart(); CbSh6FormatFed(); FormatIntro(CB_SH6, [0, 0, 0, 1]); }
  lemma CjFormatApart() ensures SlotsApart(CJ.encoder) { hide NamesApart; }
  lemma CjFormatFed() ensures AllFedBy(CJ, CJ.decoder, [0, 0, 0, 0]) { hide NamesApart; }
  lemma CjFormat() ensures FormatOk(CJ)
  { hide *; CjFormatApart(); CjFormatFed(); FormatIntro(CJ, [0, 0, 0, 0]); }
  lemma CjJalFormatApart() ensures SlotsApart(CJ_JAL.encoder) { hide NamesApart; }
  lemma CjJalFormatFed() ensures AllFedBy(CJ_JAL, CJ_JAL.decoder, [0, 0, 0, 0]) { hide NamesApart; }
  lemma CjJalFormat() ensures FormatOk(CJ_JAL)
  { hide *; CjJalFormatApart(); CjJalFormatFed(); FormatIntro(CJ_JAL, [0, 0, 0, 0]); }
  lemma RFormatApart() ensures SlotsApart(R.encoder) { hide NamesApart; Pairs4(); }
  lemma RFormatFed() ensures AllFedBy(R, R.decoder, [0, 1, 2, 0]) { hide NamesApart; }
  lemma RFormat() ensures FormatOk(R)
  { hide *; RFormatApart(); RFormatFed(); FormatIntro(R, [0, 1, 2, 0]); }
  lemma RMFormatApart() ensures SlotsApart(R_M.encoder) { hide NamesApart; Pairs4(); Pairs5(); }
  lemma RMFormatFed() ensures AllFedBy(R_M, R_M.decoder, [0, 1, 2, 0, 3])
  { hide AllFedBy; EachFedMeans(R_M, R_M.decoder, [0, 1, 2, 0, 3]); }
  lemma RMFormat() ensures FormatOk(R_M)
  { hide *; RMFormatApart(); RMFormatFed(); FormatIntro(R_M, [0, 1, 2, 0, 3]); }
  lemma RLFormatApart() ensures SlotsApart(R_L.encoder) { hide NamesApart; Pairs4(); Pairs5(); }
  lemma RLFormatFed() ensures AllFedBy(R_L, R_L.decoder, [0, 1, 0, 0, 2, 3])
  { hide AllFedBy; EachFedMeans(R_L, R_L.decoder, [0, 1, 0, 0, 2, 3]); }
  lemma RLFormat() ensures FormatOk(R_L)
  { hide *; RLFormatApart(); RLFormatFed(); FormatIntro(R_L, [0, 1, 0, 0, 2, 3]); }
  lemma RAFormatApart() ensures SlotsApart(R_A.encoder) { hide NamesApart; Pairs4(); Pairs5(); Pairs6(); }
  lemma RAFormatFed() ensures AllFedBy(R_A, R_A.decoder, [0, 1, 2, 0, 3, 4])
  { hide AllFedBy; EachFedMeans(R_A, R_A.decoder, [0, 1, 2, 0, 3, 4]); }
  lemma RAFormat() ensures FormatOk(R_A)
  { hide *; RAFormatApart(); RAFormatFed(); FormatIntro(R_A, [0, 1, 2, 0, 3, 4]); }
  lemma R4MFormatApart() ensures SlotsApart(R4_M.encoder) { hide NamesApart; Pairs4(); Pairs5(); Pairs6(); }
  lemma R4MFormatFed() ensures AllFedBy(R4_M, R4_M.decoder, [0, 1, 2, 3, 0, 4])
  { hide AllFedBy; EachFedMeans(R4_M, R4_M.decoder, [0, 1, 2, 3, 0, 4]); }
  lemma R4MFormat() ensures FormatOk(R4_M)
  { hide *; R4MFormatApart(); R4MFormatFed(); FormatIntro(R4_M, [0, 1, 2, 3, 0, 4]); }
  lemma RFFormatApart() ensures SlotsApart(R_F.encoder) { hide NamesApart; Pairs6(); }
  lemma RFFormatFed() ensures AllFedBy(R_F, R_F.decoder, [0, 0, 0, 0, 1, 0])
  { hide AllFedBy; EachFedMeans(R_F, R_F.decoder, [0, 0, 0, 0, 1, 0]); }
  lemma RFFormat() ensures FormatOk(R_F)
  { hide *; RFFormatApart(); RFFormatFed(); FormatIntro(R_F, [0, 0, 0, 0, 1, 0]); }
  lemma IFormatApart() ensures SlotsApart(I.encoder) { hide NamesApart; Pairs4(); Pairs6(); Pairs7(); }
  lemma IFormatFed() ensures AllFedBy(I, I.decoder, [0, 1, 0, 2]) { hide NamesApart; }
  lemma IFormat() ensures FormatOk(I)
  { hide *; IFormatApart(); IFormatFed(); FormatIntro(I, [0, 1, 0, 2]); }
  lemma ICsrFormatApart() ensures SlotsApart(I_CSR.encoder) { hide NamesApart; Pairs4(); Pairs7(); }
  lemma ICsrFormatFed() ensures AllFedBy(I_CSR, I_CSR.decoder, [0, 1, 0, 2]) { hide NamesApart; }
  lemma ICsrFormat() ensures FormatOk(I_CSR)
  { hide *; ICsrFormatApart(); ICsrFormatFed(); FormatIntro(I_CSR, [0, 1, 0, 2]); }
  lemma ISh5FormatApart() ensures SlotsApart(I_SH5.encoder) { hide NamesApart; Pairs4(); Pairs7(); }
  lemma ISh5FormatFed() ensures AllFedBy(I_SH5, I_SH5.decoder, [0, 1, 0, 2]) { hide NamesApart; }
  lemma ISh5Format() ensures FormatOk(I_SH5)
  { hide *; ISh5FormatApart(); ISh5FormatFed(); FormatIntro(I_SH5, [0, 1, 0, 2]); }
  lemma ISh6FormatApart() ensures SlotsApart(I_SH6.encoder) { hide NamesApart; Pairs4(); Pairs7(); }
  lemma ISh6FormatFed() ensures AllFedBy(I_SH6, I_SH6.decoder, [0, 1, 0, 2]) { hide NamesApart; }
  lemma ISh6Format() ensures FormatOk(I_SH6)
  { hide *; ISh6FormatApart(); ISh6FormatFed(); FormatIntro(I_SH6, [0, 1, 0, 2]); }
  lemma ISh7FormatApart() ensures SlotsApart(I_SH7.encoder) { hide NamesApart; Pairs4(); Pairs7(); Pairs8(); }
  lemma ISh7FormatFed() ensures AllFedBy(I_SH7, I_SH7.decoder, [0, 1, 0, 2]) { hide NamesApart; }
  lemma ISh7Format() ensures FormatOk(I_SH7)
  { hide *; ISh7FormatApart(); ISh7FormatFed(); FormatIntro(I_SH7, [0, 1, 0, 2]); }
  lemma SFormatApart() ensures SlotsApart(S.encoder) { hide NamesApart; Pairs4(); Pairs8(); }
  lemma SFormatFed() ensures AllFedBy(S, S.decoder, [0, 0, 1, 2]) { hide NamesApart; }
  lemma SFormat() ensures FormatOk(S)
  { hide *; SFormatApart(); SFormatFed(); FormatIntro(S, [0, 0, 1, 2]); }
  lemma SbFormatApart() ensures SlotsApart(SB.encoder) { hide NamesApart; Pairs4(); Pairs8(); }
  lemma SbFormatFed() ensures AllFedBy(SB, SB.decoder, [0, 0, 1, 2]) { hide NamesApart; }
  lemma SbFormat() ensures FormatOk(SB)
  { hide *; SbFormatApart(); SbFormatFed(); FormatIntro(SB, [0, 0, 1, 2]); }
  lemma UFormatApart() ensures SlotsApart(U.encoder) { hide NamesApart; Pairs8(); }
  lemma UFormatFed() ensures AllFedBy(U, U.decoder, [0, 0, 0, 1]) { hide NamesApart; }
  lemma UFormat() ensures FormatOk(U)
  { hide *; UFormatApart(); UFormatFed(); FormatIntro(U, [0, 0, 0, 1]); }
  lemma UjFormatApart() ensures SlotsApart(UJ.encoder) { hide NamesApart; Pairs8(); }
  lemma UjFormatFed() ensures AllFedBy(UJ, UJ.decoder, [0, 0, 0, 1]) { hide NamesApart; }
  lemma UjFormat() ensures FormatOk(UJ)
  { hide *; UjFormatApart(); UjFormatFed(); FormatIntro(UJ, [0, 0, 0, 1]); }

  /** Every codec but CS, whose encoder puts rd where the decoder looks for rs2. */
  lemma AllFormatsOk()
    ensures FormatOk(NONE) && FormatOk(CI_NONE) && FormatOk(CR) && FormatOk(CR_MV) && FormatOk(CR_JALR)
    ensures FormatOk(CR_JR)
    ensures FormatOk(CI) && FormatOk(CI_SH5) && FormatOk(CI_SH6) && FormatOk(CI_LI) && FormatOk(CI_LUI)
    ensures FormatOk(CI_LWSP)
    ensures FormatOk(CI_LDSP) && FormatOk(CI_LQSP) && FormatOk(CI_16SP) && FormatOk(CSS_SWSP) && FormatOk(CSS_SDSP)
    ensures FormatOk(CSS_SQSP)
    ensures FormatOk(CIW_4SPN) && FormatOk(CL_LW) && FormatOk(CL_LD) && FormatOk(CL_LQ) && FormatOk(CS_SW)
    ensures FormatOk(CS_SD)
    ensures FormatOk(CS_SQ) && FormatOk(CB) && FormatOk(CB_IMM) && FormatOk(CB_SH5) && FormatOk(CB_SH6) && FormatOk(CJ)
    ensures FormatOk(CJ_JAL) && FormatOk(R) && FormatOk(R_M) && FormatOk(R_L) && FormatOk(R_A) && FormatOk(R4_M)
    ensures FormatOk(R_F) && FormatOk(I) && FormatOk(I_CSR) && FormatOk(I_SH5) && FormatOk(I_SH6) && FormatOk(I_SH7)
    ensures FormatOk(S) && FormatOk(SB) && FormatOk(U) && FormatOk(UJ)
  {
    hide FormatOk;
    NoneFormat(); CiNoneFormat(); CrFormat(); CrMvFormat(); CrJalrFormat(); CrJrFormat();
    CiFormat(); CiSh5Format(); CiSh6Format(); CiLiFormat(); CiLuiFormat(); CiLwspFormat();
    CiLdspFormat(); CiLqspFormat(); Ci16spFormat(); CssSwspFormat(); CssSdspFormat(); CssSqspFormat();
    Ciw4spnFormat(); ClLwFormat(); ClLdFormat(); ClLqFormat(); CsSwFormat(); CsSdFormat();
    CsSqFormat(); CbFormat(); CbImmFormat(); CbSh5Format(); CbSh6Format(); CjFormat();
    CjJalFormat(); RFormat(); RMFormat(); RLFormat(); RAFormat(); R4MFormat();
    RFFormat(); IFormat(); ICsrFormat(); ISh5Format(); ISh6Format(); ISh7Format();
    SFormat(); SbFormat(); UFormat(); UjFormat();
  }
}
