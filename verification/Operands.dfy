/**
  Operand encodings: the bit-permutation notation S<K,L, B<N,M>...> of src/asm/types.h and the
  operands of src/asm/operands.h written in it.

  `Decode` and `Encode` compute with masks and shifts as the templates do.  The reference is the
  wiring of an operand: runs of immediate bits laid in runs of instruction bits (`Strips`).
 */
module Operands {
  import opened Bits

  /** B<N,M>: bits n down to m of the immediate. */
  datatype Range = B(n: nat, m: nat)

  /** S<K,L, ...>: bits k down to l of the instruction hold the listed ranges, first range on top. */
  datatype Segment = S(k: nat, l: nat, ranges: seq<Range>)

  /** simm_operand_t<W, ...> and uimm_operand_t<W, ...> */
  datatype Operand = Operand(signed: bool, width: nat, segments: seq<Segment>)

  function RangeWidth(r: Range): int { r.n - r.m + 1 }

  /** S::offset, the number of bits of the listed ranges. */
  function Offset(ranges: seq<Range>): int
    decreases ranges
  {
    if ranges == [] then 0 else RangeWidth(ranges[0]) + Offset(ranges[1..])
  }

  /** S::shift for the first range. */
  function Shift(l: nat, ranges: seq<Range>): int
    requires ranges != []
  {
    Offset(ranges) + l - RangeWidth(ranges[0]) - ranges[0].m
  }

  function Mask(r: Range): nat {
    Xor(Pow2(r.n + 1) - 1, Pow2(r.m) - 1)
  }

  function SegmentDecode(l: nat, ranges: seq<Range>, inst: nat): nat
    decreases ranges
  {
    if ranges == [] then 0
    else
      var shift := Shift(l, ranges);
      var moved := if shift < 0 then Unsigned(64, Shl(inst, -shift)) else Unsigned(64, Shr(inst, shift));
      Or(And(moved, Mask(ranges[0])), SegmentDecode(l, ranges[1..], inst))
  }

  function SegmentEncode(l: nat, ranges: seq<Range>, imm: nat): nat
    decreases ranges
  {
    if ranges == [] then 0
    else
      var shift := Shift(l, ranges);
      var field := And(imm, Mask(ranges[0]));
      var moved := if shift < 0 then Unsigned(64, Shr(field, -shift)) else Unsigned(64, Shl(field, shift));
      Or(moved, SegmentEncode(l, ranges[1..], imm))
  }

  function DecodeWord(segments: seq<Segment>, inst: nat): nat
    decreases segments
  {
    if segments == [] then 0
    else Or(DecodeWord(segments[1..], inst), SegmentDecode(segments[0].l, segments[0].ranges, inst))
  }

  function EncodeWord(segments: seq<Segment>, imm: nat): nat
    decreases segments
  {
    if segments == [] then 0
    else Or(EncodeWord(segments[1..], imm), SegmentEncode(segments[0].l, segments[0].ranges, imm))
  }

  /** operand::decode */
  function Decode(op: Operand, inst: nat): int
    requires op.width > 0
  {
    if op.signed then Signed(op.width, DecodeWord(op.segments, inst)) else DecodeWord(op.segments, inst)
  }

  /** operand::encode, of the 64-bit unsigned conversion of the immediate */
  function Encode(op: Operand, imm: int): nat {
    EncodeWord(op.segments, Unsigned(64, imm))
  }

  // ---------------------------------------------------------------------------------------------
  // The wiring of an operand

  /** A run of consecutive immediate bits in consecutive instruction bits. */
  datatype Strip = Strip(inst: int, imm: int, width: int)

  function SegmentStrips(l: nat, ranges: seq<Range>): seq<Strip>
    decreases ranges
  {
    if ranges == [] then []
    else [Strip(l + Offset(ranges[1..]), ranges[0].m, RangeWidth(ranges[0]))] + SegmentStrips(l, ranges[1..])
  }

  function Strips(segments: seq<Segment>): seq<Strip>
    decreases segments
  {
    if segments == [] then [] else SegmentStrips(segments[0].l, segments[0].ranges) + Strips(segments[1..])
  }

  predicate InstBit(strips: seq<Strip>, k: int) {
    exists i :: 0 <= i < |strips| && strips[i].inst <= k < strips[i].inst + strips[i].width
  }

  predicate ImmBit(strips: seq<Strip>, b: int) {
    exists i :: 0 <= i < |strips| && strips[i].imm <= b < strips[i].imm + strips[i].width
  }

  predicate Apart(a: int, aw: int, b: int, bw: int) {
    a + aw <= b || b + bw <= a
  }

  /** Each segment is filled exactly by its ranges, no instruction bit and no immediate bit occurs
      twice, and everything fits: instruction bits in 32 bits, immediate bits in the width, and
      the top bit of a signed operand is encoded. */
  predicate WellFormed(op: Operand) {
    var strips := Strips(op.segments);
    && 0 < op.width <= 32
    && GoodSegments(op.segments)
    && (forall i :: 0 <= i < |op.segments| ==> Offset(op.segments[i].ranges) == op.segments[i].k - op.segments[i].l + 1)
    && (forall i :: 0 <= i < |strips| ==>
          strips[i].width > 0 && 0 <= strips[i].inst && strips[i].inst + strips[i].width <= 32
          && 0 <= strips[i].imm && strips[i].imm + strips[i].width <= op.width)
    && (forall i, j :: 0 <= i < j < |strips| ==>
          && Apart(strips[i].inst, strips[i].width, strips[j].inst, strips[j].width)
          && Apart(strips[i].imm, strips[i].width, strips[j].imm, strips[j].width))
    && (op.signed ==> ImmBit(strips, op.width - 1))
  }

  /** The value survives encoding: it has the operand's range and no bit outside the listed ranges. */
  ghost predicate Representable(op: Operand, v: int)
    requires op.width > 0
  {
    && (if op.signed then FitsSigned(op.width, v) else 0 <= v < Pow2(op.width))
    && forall b: nat :: b < op.width && Bit(v, b) ==> ImmBit(Strips(op.segments), b)
  }

  // ---------------------------------------------------------------------------------------------
  // Masks and shifts follow the wiring

  /** Some strip delivers a one of the instruction to immediate bit b. */
  ghost predicate Delivers(strips: seq<Strip>, inst: nat, b: int) {
    exists i :: 0 <= i < |strips| && DeliversAt(strips[i], inst, b)
  }

  predicate DeliversAt(s: Strip, inst: nat, b: int) {
    s.imm <= b < s.imm + s.width && b - s.imm + s.inst >= 0 && Bit(inst, b - s.imm + s.inst)
  }

  /** Some strip places a one of the immediate in instruction bit k. */
  ghost predicate Places(strips: seq<Strip>, imm: nat, k: int) {
    exists i :: 0 <= i < |strips| && PlacesAt(strips[i], imm, k)
  }

  predicate PlacesAt(s: Strip, imm: nat, k: int) {
    s.inst <= k < s.inst + s.width && k - s.inst + s.imm >= 0 && Bit(imm, k - s.inst + s.imm)
  }

  predicate GoodRanges(ranges: seq<Range>) {
    forall i :: 0 <= i < |ranges| ==> ranges[i].m <= ranges[i].n < 63
  }

  lemma MaskBit(r: Range, b: nat)
    requires r.m <= r.n
    ensures Bit(Mask(r), b) <==> r.m <= b <= r.n
  {
    BitXor(Pow2(r.n + 1) - 1, Pow2(r.m) - 1, b);
    MaskBits(r.n + 1, b);
    MaskBits(r.m, b);
  }

  lemma {:induction false} OffsetNonNegative(ranges: seq<Range>)
    requires GoodRanges(ranges)
    ensures Offset(ranges) >= 0
  {
    if ranges != [] { OffsetNonNegative(ranges[1..]); }
  }

  lemma {:induction false} SegmentDecodeBit(l: nat, ranges: seq<Range>, inst: nat, b: nat)
    requires GoodRanges(ranges) && inst < Pow2(64)
    ensures Bit(SegmentDecode(l, ranges, inst), b) <==> Delivers(SegmentStrips(l, ranges), inst, b)
    decreases ranges
  {
    if ranges == [] {
      ZeroBits(b);
    } else {
      var tail := ranges[1..];
      SegmentDecodeBit(l, tail, inst, b);
      OffsetNonNegative(tail);
      HeadDecodeBit(l, ranges, inst, b);
      hide SegmentDecode, Bit;
      var strips := SegmentStrips(l, ranges);
      ConsDelivers(strips[0], SegmentStrips(l, tail), inst, b);
    }
  }

  lemma ConsDelivers(s: Strip, rest: seq<Strip>, inst: nat, b: int)
    ensures Delivers([s] + rest, inst, b) <==> DeliversAt(s, inst, b) || Delivers(rest, inst, b)
  {
    var all := [s] + rest;
    assert all[0] == s && forall i :: 0 <= i < |rest| ==> all[i + 1] == rest[i];
    if Delivers(all, inst, b) && !DeliversAt(s, inst, b) {
      var i :| 0 <= i < |all| && DeliversAt(all[i], inst, b);
      assert DeliversAt(rest[i - 1], inst, b);
    }
  }

  lemma HeadDecodeBit(l: nat, ranges: seq<Range>, inst: nat, b: nat)
    requires GoodRanges(ranges) && ranges != [] && inst < Pow2(64) && Offset(ranges[1..]) >= 0
    ensures Bit(SegmentDecode(l, ranges, inst), b)
       <==> DeliversAt(SegmentStrips(l, ranges)[0], inst, b) || Bit(SegmentDecode(l, ranges[1..], inst), b)
  {
    hide Bit, And, Or, Xor, Shr, Shl, Unsigned, Pow2, Offset;
    OffsetCons(ranges);
    var shift := Shift(l, ranges);
    var moved := if shift < 0 then Unsigned(64, Shl(inst, -shift)) else Unsigned(64, Shr(inst, shift));
    BitOr(And(moved, Mask(ranges[0])), SegmentDecode(l, ranges[1..], inst), b);
    BitAnd(moved, Mask(ranges[0]), b);
    MaskBit(ranges[0], b);
    if shift < 0 {
      BitUnsigned(64, Shl(inst, -shift), b);
      BitShl(inst, -shift, b);
    } else {
      BitUnsigned(64, Shr(inst, shift), b);
      BitShr(inst, shift, b);
    }
  }

  lemma OffsetCons(ranges: seq<Range>)
    requires ranges != []
    ensures Offset(ranges) == RangeWidth(ranges[0]) + Offset(ranges[1..])
  {}

  lemma {:induction false} SegmentEncodeBit(l: nat, ranges: seq<Range>, imm: nat, k: nat)
    requires GoodRanges(ranges) && l + Offset(ranges) <= 64
    ensures Bit(SegmentEncode(l, ranges, imm), k) <==> Places(SegmentStrips(l, ranges), imm, k)
    decreases ranges
  {
    if ranges == [] {
      ZeroBits(k);
    } else {
      var tail := ranges[1..];
      SegmentEncodeBit(l, tail, imm, k);
      OffsetNonNegative(tail);
      HeadEncodeBit(l, ranges, imm, k);
      hide SegmentEncode, Bit;
      var strips := SegmentStrips(l, ranges);
      ConsPlaces(strips[0], SegmentStrips(l, tail), imm, k);
    }
  }

  lemma ConsPlaces(s: Strip, rest: seq<Strip>, imm: nat, k: int)
    ensures Places([s] + rest, imm, k) <==> PlacesAt(s, imm, k) || Places(rest, imm, k)
  {
    var all := [s] + rest;
    assert all[0] == s && forall i :: 0 <= i < |rest| ==> all[i + 1] == rest[i];
    if Places(all, imm, k) && !PlacesAt(s, imm, k) {
      var i :| 0 <= i < |all| && PlacesAt(all[i], imm, k);
      assert PlacesAt(rest[i - 1], imm, k);
    }
  }

  lemma HeadEncodeBit(l: nat, ranges: seq<Range>, imm: nat, k: nat)
    requires GoodRanges(ranges) && ranges != [] && Offset(ranges[1..]) >= 0 && l + Offset(ranges) <= 64
    ensures Bit(SegmentEncode(l, ranges, imm), k)
       <==> PlacesAt(SegmentStrips(l, ranges)[0], imm, k) || Bit(SegmentEncode(l, ranges[1..], imm), k)
  {
    hide Bit, And, Or, Xor, Shr, Shl, Unsigned, Pow2, Offset;
    OffsetCons(ranges);
    var r, shift := ranges[0], Shift(l, ranges);
    var field := And(imm, Mask(r));
    var moved := if shift < 0 then Unsigned(64, Shr(field, -shift)) else Unsigned(64, Shl(field, shift));
    BitOr(moved, SegmentEncode(l, ranges[1..], imm), k);
    if shift < 0 {
      BitUnsigned(64, Shr(field, -shift), k);
      BitShr(field, -shift, k);
      BitAnd(imm, Mask(r), k - shift);
      MaskBit(r, k - shift);
    } else {
      BitUnsigned(64, Shl(field, shift), k);
      BitShl(field, shift, k);
      if k >= shift {
        BitAnd(imm, Mask(r), k - shift);
        MaskBit(r, k - shift);
      }
    }
  }

  predicate GoodSegments(segments: seq<Segment>) {
    forall i :: 0 <= i < |segments| ==>
      GoodRanges(segments[i].ranges) && segments[i].l + Offset(segments[i].ranges) <= 64
  }

  lemma ConcatWires(a: seq<Strip>, c: seq<Strip>, w: nat, x: int)
    ensures Delivers(a + c, w, x) <==> Delivers(a, w, x) || Delivers(c, w, x)
    ensures Places(a + c, w, x) <==> Places(a, w, x) || Places(c, w, x)
  {
    var all := a + c;
    assert forall i :: 0 <= i < |a| ==> all[i] == a[i];
    assert forall i :: 0 <= i < |c| ==> all[|a| + i] == c[i];
    if Delivers(all, w, x) {
      var i :| 0 <= i < |all| && DeliversAt(all[i], w, x);
      assert if i < |a| then DeliversAt(a[i], w, x) else DeliversAt(c[i - |a|], w, x);
    }
    if Places(all, w, x) {
      var i :| 0 <= i < |all| && PlacesAt(all[i], w, x);
      assert if i < |a| then PlacesAt(a[i], w, x) else PlacesAt(c[i - |a|], w, x);
    }
  }

  lemma {:induction false} DecodeWordBit(segments: seq<Segment>, inst: nat, b: nat)
    requires GoodSegments(segments) && inst < Pow2(64)
    ensures Bit(DecodeWord(segments, inst), b) <==> Delivers(Strips(segments), inst, b)
    decreases segments
  {
    if segments == [] {
      ZeroBits(b);
    } else {
      var s := segments[0];
      DecodeWordBit(segments[1..], inst, b);
      SegmentDecodeBit(s.l, s.ranges, inst, b);
      BitOr(DecodeWord(segments[1..], inst), SegmentDecode(s.l, s.ranges, inst), b);
      ConcatWires(SegmentStrips(s.l, s.ranges), Strips(segments[1..]), inst, b);
      hide Bit, Delivers, Or, SegmentDecode, SegmentStrips;
    }
  }

  lemma {:induction false} EncodeWordBit(segments: seq<Segment>, imm: nat, k: nat)
    requires GoodSegments(segments)
    ensures Bit(EncodeWord(segments, imm), k) <==> Places(Strips(segments), imm, k)
    decreases segments
  {
    if segments == [] {
      ZeroBits(k);
    } else {
      var s := segments[0];
      EncodeWordBit(segments[1..], imm, k);
      SegmentEncodeBit(s.l, s.ranges, imm, k);
      BitOr(EncodeWord(segments[1..], imm), SegmentEncode(s.l, s.ranges, imm), k);
      ConcatWires(SegmentStrips(s.l, s.ranges), Strips(segments[1..]), imm, k);
      hide Bit, Places, Or, SegmentEncode, SegmentStrips;
    }
  }

  // ---------------------------------------------------------------------------------------------
  // Round trips, for every well-formed operand

  /** Encoding writes the immediate's bits where the wiring says, and nothing else. */
  lemma EncodeBit(op: Operand, v: int, k: nat)
    requires WellFormed(op)
    ensures Bit(Encode(op, v), k)
       <==> exists i :: 0 <= i < |Strips(op.segments)| && CarriesAt(Strips(op.segments)[i], v, k)
    ensures Bit(Encode(op, v), k) ==> InstBit(Strips(op.segments), k)
  {
    hide Bit, Strips, EncodeWord, Unsigned;
    var strips, imm := Strips(op.segments), Unsigned(64, v);
    EncodeWordBit(op.segments, imm, k);
    forall i | 0 <= i < |strips| ensures PlacesAt(strips[i], imm, k) <==> CarriesAt(strips[i], v, k) {
      var b := k - strips[i].inst + strips[i].imm;
      if b >= 0 { BitUnsigned(64, v, b); }
    }
  }

  predicate CarriesAt(s: Strip, v: int, k: int) {
    s.inst <= k < s.inst + s.width && k - s.inst + s.imm >= 0 && Bit(v, k - s.inst + s.imm)
  }

  lemma EncodeBound(op: Operand, v: int)
    requires WellFormed(op)
    ensures Encode(op, v) < Pow2(32)
  {
    hide Bit, Strips, Encode;
    forall k: nat | 32 <= k ensures !Bit(Encode(op, v), k) {
      EncodeBit(op, v, k);
    }
    BoundedByBits(Encode(op, v), 32);
  }

  /** On its own instruction bits the word w holds the encoding of v. */
  ghost predicate Holds(op: Operand, w: nat, v: int) {
    forall k: nat :: InstBit(Strips(op.segments), k) ==> Bit(w, k) == Bit(Encode(op, v), k)
  }

  /** In a well-formed operand one strip covers an instruction bit, and one an immediate bit. */
  lemma OneCovers(op: Operand, i: nat, j: nat, x: int)
    requires WellFormed(op) && i < |Strips(op.segments)| && j < |Strips(op.segments)|
    ensures
      var s, t := Strips(op.segments)[i], Strips(op.segments)[j];
      && ((s.inst <= x < s.inst + s.width && t.inst <= x < t.inst + t.width) ==> i == j)
      && ((s.imm <= x < s.imm + s.width && t.imm <= x < t.imm + t.width) ==> i == j)
      && 0 <= s.inst && 0 <= s.imm && s.imm + s.width <= op.width && op.width <= 32 && 0 < op.width
      && s.inst + s.width <= 32
  {
    hide Strips, GoodSegments, Offset;
  }

  /** The bits that decoding recovers from such a word. */
  lemma RecoveredBit(op: Operand, w: nat, v: int, b: nat)
    requires WellFormed(op) && w < Pow2(64) && Holds(op, w, v)
    ensures Bit(DecodeWord(op.segments, w), b) <==> ImmBit(Strips(op.segments), b) && Bit(v, b)
    ensures ImmBit(Strips(op.segments), b) ==> b < op.width
  {
    hide Bit, Strips, DecodeWord, Encode, WellFormed, Holds;
    var strips := Strips(op.segments);
    GoodShape(op);
    DecodeWordBit(op.segments, w, b);
    if ImmBit(strips, b) {
      var i :| 0 <= i < |strips| && strips[i].imm <= b < strips[i].imm + strips[i].width;
      RecoveredAt(op, w, v, b, i);
      OneCovers(op, i, i, b);
      if Delivers(strips, w, b) {
        var j :| 0 <= j < |strips| && DeliversAt(strips[j], w, b);
        OneCovers(op, i, j, b);
      }
    }
  }

  lemma RecoveredAt(op: Operand, w: nat, v: int, b: nat, i: nat)
    requires WellFormed(op) && Holds(op, w, v) && i < |Strips(op.segments)|
    requires var s := Strips(op.segments)[i]; s.imm <= b < s.imm + s.width
    ensures DeliversAt(Strips(op.segments)[i], w, b) <==> Bit(v, b)
  {
    hide Bit, Strips, Encode, WellFormed;
    var strips := Strips(op.segments);
    OneCovers(op, i, i, b);
    var k := b - strips[i].imm + strips[i].inst;
    assert InstBit(strips, k);
    EncodeBit(op, v, k);
    if Bit(Encode(op, v), k) {
      var j :| 0 <= j < |strips| && CarriesAt(strips[j], v, k);
      OneCovers(op, i, j, k);
    }
    assert Bit(v, b) ==> CarriesAt(strips[i], v, k);
  }

  /** Decoding gives back the encoded value if and only if the value is representable. */
  lemma RoundTrip(op: Operand, w: nat, v: int)
    requires WellFormed(op) && w < Pow2(64) && Holds(op, w, v)
    ensures Decode(op, w) == v <==> Representable(op, v)
  {
    hide Bit, Strips, DecodeWord, Encode, Unsigned, Holds, WellFormed;
    var strips, d := Strips(op.segments), DecodeWord(op.segments, w);
    assert 0 < op.width <= 32 && (op.signed ==> ImmBit(strips, op.width - 1)) by { Shape(op); }
    forall b: nat ensures Bit(d, b) <==> ImmBit(strips, b) && Bit(v, b) { RecoveredBit(op, w, v, b); }
    forall b: nat | op.width <= b ensures !Bit(d, b) { RecoveredBit(op, w, v, b); }
    BoundedByBits(d, op.width);
    if op.signed {
      SignedRoundTrip(op.width, strips, d, v);
    } else if Representable(op, v) {
      SameBits(d, v, op.width);
    }
  }

  lemma Shape(op: Operand)
    requires WellFormed(op)
    ensures 0 < op.width <= 32 && (op.signed ==> ImmBit(Strips(op.segments), op.width - 1))
  {}

  lemma SignedRoundTrip(n: nat, strips: seq<Strip>, d: nat, v: int)
    requires n > 0 && d < Pow2(n)
    requires forall b: nat :: Bit(d, b) <==> ImmBit(strips, b) && Bit(v, b)
    ensures Signed(n, d) == v
       <==> FitsSigned(n, v) && forall b: nat :: b < n && Bit(v, b) ==> ImmBit(strips, b)
  {
    hide Bit, ImmBit, Unsigned;
    if Signed(n, d) == v {
      forall b: nat | b < n && Bit(v, b) ensures ImmBit(strips, b) { BitSigned(n, d, b); }
    }
    if FitsSigned(n, v) && forall b: nat :: b < n && Bit(v, b) ==> ImmBit(strips, b) {
      forall b: nat | b < n ensures Bit(d, b) == Bit(Unsigned(n, v), b) { BitUnsigned(n, v, b); }
      SameBits(d, Unsigned(n, v), n);
      UnsignedSmall(n, d);
      SignedIdentity(n, v);
    }
  }

  /** Encoding what was decoded restores the operand's instruction bits. */
  lemma DecodeThenEncode(op: Operand, w: nat, k: nat)
    requires WellFormed(op) && w < Pow2(64)
    ensures Bit(Encode(op, Decode(op, w)), k) <==> InstBit(Strips(op.segments), k) && Bit(w, k)
  {
    hide Bit, Strips, DecodeWord, Encode, WellFormed, Decode, CarriesAt;
    GoodShape(op);
    var strips, v := Strips(op.segments), Decode(op, w);
    EncodeBit(op, v, k);
    forall i | 0 <= i < |strips| && strips[i].inst <= k < strips[i].inst + strips[i].width
      ensures CarriesAt(strips[i], v, k) <==> Bit(w, k)
    {
      DecodedStripBit(op, w, k, i);
    }
    if Bit(Encode(op, v), k) {
      var i :| 0 <= i < |strips| && CarriesAt(strips[i], v, k);
      CarriesCovers(strips[i], v, k);
    }
  }

  lemma CarriesCovers(s: Strip, v: int, k: int)
    requires CarriesAt(s, v, k)
    ensures s.inst <= k < s.inst + s.width
  {}

  lemma GoodShape(op: Operand)
    requires WellFormed(op)
    ensures GoodSegments(op.segments) && 0 < op.width
  {
    hide Strips;
  }

  lemma DecodedStripBit(op: Operand, w: nat, k: nat, i: nat)
    requires WellFormed(op) && w < Pow2(64) && i < |Strips(op.segments)|
    requires var s := Strips(op.segments)[i]; s.inst <= k < s.inst + s.width
    ensures op.width > 0 && (CarriesAt(Strips(op.segments)[i], Decode(op, w), k) <==> Bit(w, k))
  {
    hide Bit, Strips, DecodeWord, WellFormed, Pow2;
    var strips := Strips(op.segments);
    OneCovers(op, i, i, k);
    GoodShape(op);
    var b := k - strips[i].inst + strips[i].imm;
    DecodeWordBit(op.segments, w, b);
    if op.signed { BitSigned(op.width, DecodeWord(op.segments, w), b); }
    assert DeliversAt(strips[i], w, b) <==> Bit(w, k);
    if Delivers(strips, w, b) {
      var j :| 0 <= j < |strips| && DeliversAt(strips[j], w, b);
      OneCovers(op, i, j, b);
    }
  }

  // ---------------------------------------------------------------------------------------------
  // Deciding well-formedness

  predicate ApartFromAll(s: Strip, rest: seq<Strip>)
    decreases rest
  {
    rest == [] ||
    (&& Apart(s.inst, s.width, rest[0].inst, rest[0].width)
     && Apart(s.imm, s.width, rest[0].imm, rest[0].width)
     && ApartFromAll(s, rest[1..]))
  }

  predicate CheckStrips(strips: seq<Strip>, width: nat)
    decreases strips
  {
    strips == [] ||
    (var s := strips[0];
     && s.width > 0 && 0 <= s.inst && s.inst + s.width <= 32 && 0 <= s.imm && s.imm + s.width <= width
     && ApartFromAll(s, strips[1..]) && CheckStrips(strips[1..], width))
  }

  predicate CheckSegments(segments: seq<Segment>)
    decreases segments
  {
    segments == [] ||
    (&& Offset(segments[0].ranges) == segments[0].k - segments[0].l + 1 && segments[0].k < 32
     && GoodRanges(segments[0].ranges) && CheckSegments(segments[1..]))
  }

  lemma {:induction false} ApartFromAllMeans(s: Strip, rest: seq<Strip>, j: nat)
    requires ApartFromAll(s, rest) && j < |rest|
    ensures Apart(s.inst, s.width, rest[j].inst, rest[j].width) && Apart(s.imm, s.width, rest[j].imm, rest[j].width)
    decreases rest
  {
    if j > 0 { ApartFromAllMeans(s, rest[1..], j - 1); }
  }

  lemma {:induction false} CheckStripsMeans(strips: seq<Strip>, width: nat, i: nat, j: nat)
    requires CheckStrips(strips, width) && i < |strips| && j < |strips|
    ensures var s := strips[i];
            s.width > 0 && 0 <= s.inst && s.inst + s.width <= 32 && 0 <= s.imm && s.imm + s.width <= width
    ensures i < j ==> Apart(strips[i].inst, strips[i].width, strips[j].inst, strips[j].width)
    ensures i < j ==> Apart(strips[i].imm, strips[i].width, strips[j].imm, strips[j].width)
    decreases strips
  {
    if i == 0 {
      if j > 0 { ApartFromAllMeans(strips[0], strips[1..], j - 1); }
    } else {
      CheckStripsMeans(strips[1..], width, i - 1, if j > 0 then j - 1 else 0);
    }
  }

  lemma {:induction false} CheckSegmentsMeans(segments: seq<Segment>, i: nat)
    requires CheckSegments(segments) && i < |segments|
    ensures Offset(segments[i].ranges) == segments[i].k - segments[i].l + 1 && segments[i].k < 32
    ensures GoodRanges(segments[i].ranges)
    decreases segments
  {
    if i > 0 { CheckSegmentsMeans(segments[1..], i - 1); }
  }

  /** An operand with the given wiring is well formed when the checks succeed; strip `top` holds
      the sign bit of a signed operand. */
  lemma Checked(op: Operand, strips: seq<Strip>, top: nat)
    requires Strips(op.segments) == strips && 0 < op.width <= 32
    requires CheckSegments(op.segments) && CheckStrips(strips, op.width)
    requires top < |strips| && strips[top].imm + strips[top].width == op.width
    ensures WellFormed(op)
  {
    hide Strips, CheckSegments, CheckStrips, Offset;
    forall i | 0 <= i < |op.segments|
      ensures Offset(op.segments[i].ranges) == op.segments[i].k - op.segments[i].l + 1 && op.segments[i].k < 32
      ensures GoodRanges(op.segments[i].ranges)
    {
      CheckSegmentsMeans(op.segments, i);
    }
    CheckStripsMeans(strips, op.width, top, top);
    forall i, j | 0 <= i < |strips| && 0 <= j < |strips|
      ensures strips[i].width > 0 && 0 <= strips[i].inst && strips[i].inst + strips[i].width <= 32
      ensures 0 <= strips[i].imm && strips[i].imm + strips[i].width <= op.width
      ensures i < j ==> Apart(strips[i].inst, strips[i].width, strips[j].inst, strips[j].width)
      ensures i < j ==> Apart(strips[i].imm, strips[i].width, strips[j].imm, strips[j].width)
    {
      CheckStripsMeans(strips, op.width, i, j);
    }
  }

  lemma OneStripChecked(op: Operand, strips: seq<Strip>, k: nat, l: nat, n: nat, m: nat)
    requires op.segments == [S(k, l, [B(n, m)])] && strips == [Strip(l, m, n - m + 1)] && Strips(op.segments) == strips
    requires l <= k < 32 && m <= n && k - l == n - m && op.width == n + 1 <= 32
    ensures WellFormed(op)
  {
    hide Strips, WellFormed;
    assert [B(n, m)][1..] == [];
    assert Offset([B(n, m)]) == n - m + 1;
    assert op.segments[1..] == [] && CheckSegments(op.segments[1..]);
    assert strips[1..] == [] && ApartFromAll(strips[0], strips[1..]) && CheckStrips(strips[1..], op.width);
    Checked(op, strips, 0);
  }

  /** An operand that is one run of bits. */
  lemma OneStrip(op: Operand, k: nat, l: nat, n: nat, m: nat)
    requires op.segments == [S(k, l, [B(n, m)])]
    requires l <= k < 32 && m <= n && k - l == n - m && op.width == n + 1 <= 32
    ensures Strips(op.segments) == [Strip(l, m, n - m + 1)] && WellFormed(op)
  {
    var ranges := [B(n, m)];
    assert Offset(ranges[1..]) == 0 && Offset(ranges) == n - m + 1;
    assert SegmentStrips(l, ranges) == [Strip(l, m, n - m + 1)];
    assert op.segments[0] == S(k, l, ranges) && op.segments[1..] == [];
    assert Strips(op.segments[1..]) == [];
    var strips := Strips(op.segments);
    assert strips == SegmentStrips(l, ranges) + [];
    OneStripChecked(op, strips, k, l, n, m);
  }
}
