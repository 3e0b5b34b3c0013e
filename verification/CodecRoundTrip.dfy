/**
  Decoding undoes encoding, for every instruction format of src/asm/encode.h and
  src/asm/decode.h, exactly when the record is in the format's range.
 */
module CodecRoundTrip {
  import opened Bits
  import opened Operands
  import opened OperandTable
  import opened Codecs

  ghost predicate Holds1(a: Assertion, d: Decoded) {
    match a
    case Same(f, g) => Get(d, f) == Get(d, g)
    case Equals(f, value) => Get(d, f) == value
  }

  /** The asserts of the encoder succeed. */
  ghost predicate AssertsHold(asserts: seq<Assertion>, d: Decoded) {
    forall i :: 0 <= i < |asserts| ==> Holds1(asserts[i], d)
  }

  /** The word has the encoded record in the operand bits of the format; what the other bits
      hold (the match bits of the opcode) does not matter. */
  ghost predicate CarriesRecord(f: Format, w: nat, d: Decoded) {
    forall i, k: nat :: 0 <= i < |f.encoder| && InstBit(Strips(Spec(f.encoder[i].name).segments), k)
      ==> Bit(w, k) == Bit(EncodeFormat(f, d), k)
  }

  /** The named operand can represent the value. */
  ghost predicate Fits(name: OperandName, v: int) {
    AllWellFormed(name);
    Representable(Spec(name), v)
  }

  /** The field has a value that its operand can represent, or the constant the decoder assigns. */
  ghost predicate FieldInRange(a: Assign, d: Decoded) {
    match a.source
    case From(name, bias) => Fits(name, Get(d, a.field) - bias)
    case Is(value) => Get(d, a.field) == value
  }

  ghost predicate InRange(f: Format, d: Decoded) {
    forall j :: 0 <= j < |f.decoder| ==> FieldInRange(f.decoder[j], d)
  }

  /** All fields that the decoder assigns come out as in d. */
  ghost predicate Restores(f: Format, r: Decoded, d: Decoded) {
    forall j :: 0 <= j < |f.decoder| ==> Get(r, f.decoder[j].field) == Get(d, f.decoder[j].field)
  }

  // ---------------------------------------------------------------------------------------------
  // One field

  lemma SlotHolds(f: Format, w: nat, d: Decoded, i: nat)
    requires SlotsApart(f.encoder) && i < |f.encoder| && CarriesRecord(f, w, d)
    ensures Operands.Holds(Spec(f.encoder[i].name), w, Get(d, f.encoder[i].field) + f.encoder[i].bias)
  {
    hide Bit, Strips, Spec, Encode, InstBit, Get, SlotsApart;
    forall k: nat | InstBit(Strips(Spec(f.encoder[i].name).segments), k)
      ensures Bit(w, k) == Bit(Encode(Spec(f.encoder[i].name), Get(d, f.encoder[i].field) + f.encoder[i].bias), k)
    {
      SlotIsHeld(f.encoder, d, i, k);
    }
  }

  /** A three-bit register field does not see the difference between adding and subtracting 8. */
  lemma CompactBias(name: OperandName, w: nat, x: int)
    requires CompactRegister(name) && Operands.Holds(Spec(name), w, x + 8)
    ensures Operands.Holds(Spec(name), w, x - 8)
  {
    hide Strips, Spec, Operands.Holds, WellFormed, Bit;
    AllWellFormed(name);
    CompactShape(name);
    BiasIsInvisible(Spec(name), w, x);
  }

  lemma BiasIsInvisible(op: Operand, w: nat, x: int)
    requires WellFormed(op) && Operands.Holds(op, w, x + 8)
    requires var strips := Strips(op.segments);
             |strips| == 1 && strips[0].imm == 0 && strips[0].width == 3 && strips[0].inst >= 0
    ensures Operands.Holds(op, w, x - 8)
  {
    hide Strips, Encode, WellFormed, Bit;
    var strips := Strips(op.segments);
    forall k: nat | InstBit(strips, k) ensures Bit(Encode(op, x + 8), k) == Bit(Encode(op, x - 8), k) {
      EncodeBit(op, x + 8, k);
      EncodeBit(op, x - 8, k);
      SixteenApart(x - 8, k - strips[0].inst);
      assert CarriesAt(strips[0], x + 8, k) == CarriesAt(strips[0], x - 8, k);
    }
  }

  lemma CompactShape(name: OperandName)
    requires CompactRegister(name)
    ensures var strips := Strips(Spec(name).segments);
            |strips| == 1 && strips[0].imm == 0 && strips[0].width == 3 && strips[0].inst >= 0
  {
    hide Strips, WellFormed, Spec;
    SpecIs(name);
    RunsWellFormed();
  }

  lemma SixteenApart(y: int, b: nat)
    requires b < 3
    ensures Bit(y + 16, b) == Bit(y, b)
  {
    if b == 1 { assert (y + 16) / 2 == y / 2 + 8; }
    if b == 2 { assert (y + 16) / 2 == y / 2 + 8 && (y / 2 + 8) / 2 == y / 2 / 2 + 4; }
  }

  /** What the decoder reads is the field that the encoder put there, exactly when that field is
      representable. */
  lemma FieldRoundTrip(f: Format, w: nat, d: Decoded, a: Assign, i: nat)
    requires SlotsApart(f.encoder) && CarriesRecord(f, w, d) && w < Pow2(64)
    requires a.source.From? && PlacedBy(f, a, i)
    ensures
      var x := Get(d, f.encoder[i].field);
      SourceValue(a.source, w) == x <==> Fits(a.source.name, x - a.source.bias)
  {
    hide Spec, Strips, SlotsApart, CarriesRecord, Get, Decode, Representable, Operands.Holds, WellFormed;
    AllWellFormed(a.source.name);
    SlotHolds(f, w, d, i);
    SamePlaceMeans(f.encoder[i].name, a.source.name);
    var x := Get(d, f.encoder[i].field);
    if a.source.bias == 8 { CompactBias(a.source.name, w, x); }
    RoundTrip(Spec(a.source.name), w, x - a.source.bias);
  }

  // ---------------------------------------------------------------------------------------------
  // The whole record

  lemma {:induction false} DecodeSets(assigns: seq<Assign>, inst: nat, d: Decoded, f: Field)
    requires Unassigned(f, assigns)
    ensures Get(DecodeAssigns(assigns, inst, d), f) == Get(d, f)
    decreases assigns
  {
    if assigns != [] {
      DecodeSets(assigns[1..], inst, Set(d, assigns[0].field, SourceValue(assigns[0].source, inst)), f);
    }
  }

  /** The decoder's result at a field it assigns. */
  lemma {:induction false} DecodeGets(f: Format, assigns: seq<Assign>, feed: seq<nat>, inst: nat, d: Decoded, j: nat)
    requires AllFedBy(f, assigns, feed) && j < |assigns|
    ensures Get(DecodeAssigns(assigns, inst, d), assigns[j].field) == SourceValue(assigns[j].source, inst)
    ensures FedBy(f, assigns[j], feed[j])
    decreases assigns
  {
    hide SourceValue, FedBy;
    var d' := Set(d, assigns[0].field, SourceValue(assigns[0].source, inst));
    if j == 0 {
      DecodeSets(assigns[1..], inst, d', assigns[0].field);
    } else {
      DecodeGets(f, assigns[1..], feed[1..], inst, d', j - 1);
    }
  }

  lemma {:induction false} TiedMeans(asserts: seq<Assertion>, f: Field, g: Field, d: Decoded)
    requires Tied(asserts, f, g) && AssertsHold(asserts, d)
    ensures Get(d, f) == Get(d, g)
    decreases asserts
  {
    hide Get;
    if f != g {
      assert Holds1(asserts[0], d);
      if !(asserts[0] == Same(f, g) || asserts[0] == Same(g, f)) { TiedMeans(asserts[1..], f, g, d); }
    }
  }

  /** For every codec but CS: a record that passes the encoder's asserts is restored by the decoder
      if and only if it is in range, whatever record the decoder started from. */
  lemma FormatRoundTrip(f: Format, w: nat, d: Decoded, before: Decoded)
    requires FormatOk(f) && AssertsHold(f.asserts, d) && CarriesRecord(f, w, d) && w < Pow2(64)
    ensures Restores(f, DecodeFormat(f, w, before), d) <==> InRange(f, d)
  {
    hide FormatOk, CarriesRecord, Get, DecodeFormat, AssertsHold, Pow2, FieldInRange;
    forall j | 0 <= j < |f.decoder|
      ensures Get(DecodeFormat(f, w, before), f.decoder[j].field) == Get(d, f.decoder[j].field)
         <==> FieldInRange(f.decoder[j], d)
    {
      FormatField(f, w, d, before, j);
    }
  }

  /** The same for each field on its own: a field out of range does not disturb the others. */
  lemma FormatField(f: Format, w: nat, d: Decoded, before: Decoded, j: nat)
    requires FormatOk(f) && AssertsHold(f.asserts, d) && CarriesRecord(f, w, d) && w < Pow2(64) && j < |f.decoder|
    ensures Get(DecodeFormat(f, w, before), f.decoder[j].field) == Get(d, f.decoder[j].field)
       <==> FieldInRange(f.decoder[j], d)
  {
    hide SourceValue, CarriesRecord, Spec, SlotsApart, AllFedBy, Get, DecodeAssigns, Tied, AssertsHold, Pow2,
         PlacedBy, FieldInRange;
    var feed: seq<nat> :| AllFedBy(f, f.decoder, feed);
    FedLength(f, f.decoder, feed);
    DecodeGets(f, f.decoder, feed, w, before, j);
    FieldRestored(f, w, d, f.decoder[j], feed[j]);
  }

  lemma FedLength(f: Format, assigns: seq<Assign>, feed: seq<nat>)
    requires AllFedBy(f, assigns, feed)
    ensures |assigns| == |feed|
  {}

  lemma FieldRestored(f: Format, w: nat, d: Decoded, a: Assign, i: nat)
    requires SlotsApart(f.encoder) && AssertsHold(f.asserts, d) && CarriesRecord(f, w, d) && w < Pow2(64)
    requires FedBy(f, a, i)
    ensures SourceValue(a.source, w) == Get(d, a.field) <==> FieldInRange(a, d)
  {
    hide CarriesRecord, Spec, SlotsApart, Get, Tied, AssertsHold, Pow2, Fits, Decode;
    if a.source.From? {
      FieldRoundTrip(f, w, d, a, i);
      TiedMeans(f.asserts, f.encoder[i].field, a.field, d);
    }
  }

  /** A match word that leaves the operand bits clear, or'd with the encoding, as encode_inst
      combines them, carries the record. */
  lemma MatchedWordCarries(f: Format, m: nat, d: Decoded)
    requires m < Pow2(64)
    requires forall i, k: nat :: 0 <= i < |f.encoder| && InstBit(Strips(Spec(f.encoder[i].name).segments), k) ==>
      !Bit(m, k)
    ensures CarriesRecord(f, Or(m, EncodeFormat(f, d)), d) && Or(m, EncodeFormat(f, d)) < Pow2(64)
  {
    hide Bit, Strips, Spec, InstBit, Or, Pow2, EncodeSlots;
    forall i, k: nat | 0 <= i < |f.encoder| && InstBit(Strips(Spec(f.encoder[i].name).segments), k)
      ensures Bit(Or(m, EncodeFormat(f, d)), k) == Bit(EncodeFormat(f, d), k)
    {
      BitOr(m, EncodeFormat(f, d), k);
    }
    EncodingBound(f.encoder, d);
    OrBound(m, EncodeFormat(f, d), 64);
  }

  lemma EncodingBound(slots: seq<Slot>, d: Decoded)
    ensures EncodeSlots(slots, d) < Pow2(64)
  {
    hide Bit, Strips, Spec, InstBit, EncodeSlots;
    forall k: nat | 64 <= k ensures !Bit(EncodeSlots(slots, d), k) {
      if Bit(EncodeSlots(slots, d), k) { EncodeSlotsOnly(slots, d, k); }
    }
    BoundedByBits(EncodeSlots(slots, d), 64);
  }

  // ---------------------------------------------------------------------------------------------
  // CS

  lemma CsApart()
    ensures SlotsApart(CS.encoder)
  {
    hide NamesApart;
    Pairs2();
  }

  lemma CompactFits(name: OperandName, v: int)
    requires CompactRegister(name)
    ensures Fits(name, v) <==> 0 <= v < 8
  {
    AllWellFormed(name);
    CompactShape(name);
    CompactSpec(name);
    hide Strips, Spec, WellFormed;
    var strips := Strips(Spec(name).segments);
    assert Pow2(3) == 8;
    forall b: nat | b < 3 ensures ImmBit(strips, b) { assert strips[0].imm <= b < strips[0].imm + strips[0].width; }
  }

  lemma CompactSpec(name: OperandName)
    requires CompactRegister(name)
    ensures Spec(name).width == 3 && !Spec(name).signed
  {
    hide Spec;
    SpecIs(name);
  }

  lemma CsDecode(w: nat, before: Decoded)
    ensures var r := DecodeFormat(CS, w, before);
            && r.rd == r.rs1 == SourceValue(From(OpCrs1rdq, 8), w)
            && r.rs2 == SourceValue(From(OpCrs2q, 8), w)
            && r.imm == 0
  {
    hide SourceValue;
    var a := CS.decoder;
    var d1 := Set(before, Rd, SourceValue(a[0].source, w));
    var d2 := Set(d1, Rs1, SourceValue(a[1].source, w));
    var d3 := Set(d2, Rs2, SourceValue(a[2].source, w));
    assert DecodeFormat(CS, w, before) == DecodeAssigns(a[1..], w, d1);
    assert a[1..][1..] == a[2..] && a[2..][1..] == a[3..];
    assert DecodeAssigns(a[1..], w, d1) == DecodeAssigns(a[2..], w, d2);
    assert DecodeAssigns(a[2..], w, d2) == DecodeAssigns(a[3..], w, d3);
    assert SourceValue(Is(0), w) == 0 by { ConstantSource(0, w); }
    assert DecodeAssigns(a[3..], w, d3) == Set(d3, Imm, 0);
  }

  lemma ConstantSource(v: int, w: nat)
    ensures SourceValue(Is(v), w) == v
  {}

  lemma CsFields(d: Decoded)
    ensures CS.decoder[0] == Assign(Rd, From(OpCrs1rdq, 8)) && CS.decoder[1] == Assign(Rs1, From(OpCrs1rdq, 8))
    ensures CS.decoder[2] == Assign(Rs2, From(OpCrs2q, 8)) && CS.decoder[3] == Assign(Imm, Is(0)) && |CS.decoder| == 4
    ensures CS.encoder[0] == Slot(Rd, OpCrdq, 8) && CS.encoder[1] == Slot(Rs1, OpCrs1q, 8) && |CS.encoder| == 2
    ensures CS.asserts == [Same(Rd, Rs1)]
  {}

  lemma CsInRange(d: Decoded)
    ensures InRange(CS, d) <==> 8 <= d.rd < 16 && 8 <= d.rs1 < 16 && 8 <= d.rs2 < 16 && d.imm == 0
  {
    hide Fits, CS;
    CsFields(d);
    CompactFits(OpCrs1rdq, d.rd - 8);
    CompactFits(OpCrs1rdq, d.rs1 - 8);
    CompactFits(OpCrs2q, d.rs2 - 8);
    assert FieldInRange(CS.decoder[0], d) <==> 8 <= d.rd < 16;
    assert FieldInRange(CS.decoder[1], d) <==> 8 <= d.rs1 < 16;
    assert FieldInRange(CS.decoder[2], d) <==> 8 <= d.rs2 < 16;
    assert FieldInRange(CS.decoder[3], d) <==> d.imm == 0;
  }

  /** CS writes rd, not rs2, where its decoder reads rs2: it restores a record that passes its
      assert exactly when the record is in range and rs2 happens to equal rd. */
  lemma CsRoundTrip(w: nat, d: Decoded, before: Decoded)
    requires AssertsHold(CS.asserts, d) && CarriesRecord(CS, w, d) && w < Pow2(64)
    ensures Restores(CS, DecodeFormat(CS, w, before), d) <==> InRange(CS, d) && d.rs2 == d.rd
  {
    hide CarriesRecord, Spec, SlotsApart, Pow2, SourceValue, Fits, DecodeFormat, InRange, CS;
    CsApart();
    CsFields(d);
    CsDecode(w, before);
    CsInRange(d);
    assert Holds1(CS.asserts[0], d);
    FieldRoundTrip(CS, w, d, CS.decoder[0], 1);
    FieldRoundTrip(CS, w, d, CS.decoder[2], 0);
    CompactFits(OpCrs1rdq, d.rs1 - 8);
    CompactFits(OpCrs2q, d.rd - 8);
    var r := DecodeFormat(CS, w, before);
    assert Get(r, Rd) == r.rd && Get(r, Rs1) == r.rs1 && Get(r, Rs2) == r.rs2 && Get(r, Imm) == r.imm;
    CsRestores(r, d);
  }

  lemma CsRestores(r: Decoded, d: Decoded)
    ensures Restores(CS, r, d) <==> r.rd == d.rd && r.rs1 == d.rs1 && r.rs2 == d.rs2 && r.imm == d.imm
  {
    CsFields(d);
    hide CS;
    assert Get(r, CS.decoder[0].field) == r.rd && Get(r, CS.decoder[1].field) == r.rs1;
    assert Get(r, CS.decoder[2].field) == r.rs2 && Get(r, CS.decoder[3].field) == r.imm;
  }

  /** c.sub x8, x9 comes back as c.sub x8, x8. */
  lemma CsLosesRs2(w: nat, before: Decoded)
    requires CarriesRecord(CS, w, Decoded(8, 8, 9, 0, 0, 0, 0, 0, 0, 0)) && w < Pow2(64)
    ensures !Restores(CS, DecodeFormat(CS, w, before), Decoded(8, 8, 9, 0, 0, 0, 0, 0, 0, 0))
  {
    hide CarriesRecord, Restores, DecodeFormat, CS, InRange, Pow2;
    var d := Decoded(8, 8, 9, 0, 0, 0, 0, 0, 0, 0);
    CsFields(d);
    assert Holds1(CS.asserts[0], d);
    CsRoundTrip(w, d, before);
  }
}
