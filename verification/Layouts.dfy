/**
  Where every operand of src/asm/operands.h has its bits: its encoding as a sum of shifted bit fields of the
  value, and its decoding as a sum of shifted bit fields of the word.  The positions are those of
  section 2.3 and chapter 12 of the RISC-V User-Level ISA v2.2.
 */
module Layouts {
  import opened Bits
  import opened Operands
  import opened OperandTable
  import opened InstBuffer

  /** Bits hi down to lo of x, placed with the lowest at bit `at`. */
  function Part(x: int, hi: nat, lo: nat, at: nat): (r: nat)
    requires lo <= hi
  {
    ShlNat(Unsigned(hi + 1 - lo, Shr(x, lo)), at)
  }

  lemma PartBit(x: int, hi: nat, lo: nat, at: nat, k: nat)
    requires lo <= hi
    ensures Bit(Part(x, hi, lo, at), k) <==> at <= k <= at + hi - lo && Bit(x, k - at + lo)
  {
    hide Bit, Shl, Shr, Unsigned;
    var n := hi + 1 - lo;
    BitShl(Unsigned(n, Shr(x, lo)), at, k);
    if k >= at {
      BitUnsigned(n, Shr(x, lo), k - at);
      BitShr(x, lo, k - at);
    }
  }

  // ---------------------------------------------------------------------------------------------
  // Sums of disjoint fields

  /** Words without a common one bit add up without carries. */
  lemma {:induction false} SumBit(x: nat, y: nat, k: nat)
    requires forall i: nat :: !(Bit(x, i) && Bit(y, i))
    ensures Bit(x + y, k) <==> Bit(x, k) || Bit(y, k)
    decreases k
  {
    assert !(Bit(x, 0) && Bit(y, 0));
    if k > 0 {
      forall i: nat ensures !(Bit(x / 2, i) && Bit(y / 2, i)) { assert !(Bit(x, i + 1) && Bit(y, i + 1)); }
      SumBit(x / 2, y / 2, k - 1);
      assert (x + y) / 2 == x / 2 + y / 2;
    }
  }

  predicate GoodStrip(s: Strip) {
    0 <= s.inst && 0 <= s.imm && 0 < s.width
  }

  predicate EachGood(strips: seq<Strip>) {
    forall i :: 0 <= i < |strips| ==> GoodStrip(strips[i])
  }

  predicate GoodStrips(strips: seq<Strip>) {
    && EachGood(strips)
    && forall i, j :: 0 <= i < j < |strips| ==>
         Operands.Apart(strips[i].inst, strips[i].width, strips[j].inst, strips[j].width)
  }

  /** One strip: a run of bits of x in its place. */
  function Laid(s: Strip, x: int): nat
    requires GoodStrip(s)
  {
    Part(x, s.imm + s.width - 1, s.imm, s.inst)
  }

  function StripSum(strips: seq<Strip>, x: int): nat
    requires EachGood(strips)
  {
    if strips == [] then 0 else Laid(strips[0], x) + StripSum(strips[1..], x)
  }

  ghost predicate Carried(strips: seq<Strip>, x: int, k: nat) {
    exists i :: 0 <= i < |strips| && CarriesAt(strips[i], x, k)
  }

  lemma {:induction false} StripSumBits(strips: seq<Strip>, x: int)
    requires GoodStrips(strips)
    ensures forall k: nat :: Bit(StripSum(strips, x), k) <==> Carried(strips, x, k)
    decreases |strips|
  {
    hide Bit, Part, CarriesAt, Operands.Apart;
    if strips == [] {
      forall k: nat ensures !Bit(0, k) { ZeroBits(k); }
    } else {
      var s, rest := strips[0], strips[1..];
      StripSumBits(rest, x);
      forall k: nat ensures Bit(Laid(s, x), k) <==> CarriesAt(s, x, k) { LaidBit(s, x, k); }
      forall k: nat ensures Carried(strips, x, k) <==> CarriesAt(s, x, k) || Carried(rest, x, k) {
        CarriedCons(strips, x, k);
      }
      forall k: nat ensures !(Bit(Laid(s, x), k) && Bit(StripSum(rest, x), k)) { OneCarries(strips, x, k); }
      forall k: nat
        ensures Bit(StripSum(strips, x), k) <==> Bit(Laid(s, x), k) || Bit(StripSum(rest, x), k)
      {
        SumBit(Laid(s, x), StripSum(rest, x), k);
      }
    }
  }

  lemma LaidBit(s: Strip, x: int, k: nat)
    requires GoodStrip(s)
    ensures Bit(Laid(s, x), k) <==> CarriesAt(s, x, k)
  {
    hide Bit, Part;
    PartBit(x, s.imm + s.width - 1, s.imm, s.inst, k);
  }

  lemma CarriedCons(strips: seq<Strip>, x: int, k: nat)
    requires strips != []
    ensures Carried(strips, x, k) <==> CarriesAt(strips[0], x, k) || Carried(strips[1..], x, k)
  {
    hide CarriesAt;
    var rest := strips[1..];
    if Carried(rest, x, k) {
      var i :| 0 <= i < |rest| && CarriesAt(rest[i], x, k);
      assert CarriesAt(strips[i + 1], x, k);
    }
  }

  lemma OneCarries(strips: seq<Strip>, x: int, k: nat)
    requires GoodStrips(strips) && strips != []
    ensures !(CarriesAt(strips[0], x, k) && Carried(strips[1..], x, k))
  {
    hide Bit;
    var rest := strips[1..];
    forall i | 0 <= i < |rest| ensures !(CarriesAt(strips[0], x, k) && CarriesAt(rest[i], x, k)) {
      assert rest[i] == strips[i + 1];
    }
  }

  function Flip(s: Strip): Strip { Strip(s.imm, s.inst, s.width) }

  function Flipped(strips: seq<Strip>): (r: seq<Strip>)
    ensures |r| == |strips| && forall i :: 0 <= i < |r| ==> r[i] == Flip(strips[i])
  {
    seq(|strips|, i requires 0 <= i < |strips| => Flip(strips[i]))
  }

  lemma BothGood(op: Operand)
    requires WellFormed(op)
    ensures GoodStrips(Strips(op.segments)) && GoodStrips(Flipped(Strips(op.segments)))
    ensures GoodSegments(op.segments) && op.width > 0
  {
    hide Strips, Offset, GoodSegments;
  }

  /** Encoding an operand adds up the fields of its wiring, and decoding adds up the fields of the reverse. */
  lemma SumLayout(op: Operand, x: int, w: nat)
    requires WellFormed(op) && w < Pow2(64)
    ensures GoodStrips(Strips(op.segments)) && GoodStrips(Flipped(Strips(op.segments))) && op.width > 0
    ensures EachGood(Strips(op.segments)) && EachGood(Flipped(Strips(op.segments)))
    ensures Encode(op, x) == StripSum(Strips(op.segments), x)
    ensures DecodeWord(op.segments, w) == StripSum(Flipped(Strips(op.segments)), w)
  {
    hide Bit, Strips, Encode, DecodeWord, StripSum, WellFormed, Pow2, EachGood;
    BothGood(op);
    var strips := Strips(op.segments);
    var flipped := Flipped(strips);
    StripSumBits(strips, x);
    StripSumBits(flipped, w);
    forall k: nat ensures Bit(Encode(op, x), k) == Bit(StripSum(strips, x), k) { EncodeBit(op, x, k); }
    EqualBits(Encode(op, x), StripSum(strips, x));
    forall k: nat ensures Bit(DecodeWord(op.segments, w), k) == Bit(StripSum(flipped, w), k) {
      DecodeWordBit(op.segments, w, k);
      DeliveredIsCarried(strips, w, k);
    }
    EqualBits(DecodeWord(op.segments, w), StripSum(flipped, w));
  }

  lemma DeliveredIsCarried(strips: seq<Strip>, w: nat, b: nat)
    ensures Delivers(strips, w, b) <==> Carried(Flipped(strips), w, b)
  {
    hide Bit;
    var flipped := Flipped(strips);
    forall i | 0 <= i < |strips| ensures DeliversAt(strips[i], w, b) <==> CarriesAt(flipped[i], w, b) {}
  }

  lemma Sum1(t: seq<Strip>, x: int)
    requires EachGood(t) && |t| == 1
    ensures StripSum(t, x) == Laid(t[0], x)
  {
    hide Laid, GoodStrip;
    assert t[1..] == [];
  }

  lemma Sum2(t: seq<Strip>, x: int)
    requires EachGood(t) && |t| == 2
    ensures StripSum(t, x) == Laid(t[0], x) + Laid(t[1], x)
  {
    hide Laid, GoodStrip;
    Sum1(t[1..], x);
  }

  lemma Sum3(t: seq<Strip>, x: int)
    requires EachGood(t) && |t| == 3
    ensures StripSum(t, x) == Laid(t[0], x) + Laid(t[1], x) + Laid(t[2], x)
  {
    hide Laid, GoodStrip;
    Sum2(t[1..], x);
  }

  lemma Sum4(t: seq<Strip>, x: int)
    requires EachGood(t) && |t| == 4
    ensures StripSum(t, x) == Laid(t[0], x) + Laid(t[1], x) + Laid(t[2], x) + Laid(t[3], x)
  {
    hide Laid, GoodStrip;
    Sum3(t[1..], x);
  }

  lemma Sum5(t: seq<Strip>, x: int)
    requires EachGood(t) && |t| == 5
    ensures StripSum(t, x) == Laid(t[0], x) + Laid(t[1], x) + Laid(t[2], x) + Laid(t[3], x) + Laid(t[4], x)
  {
    hide Laid, GoodStrip;
    Sum4(t[1..], x);
  }

  lemma Sum8(t: seq<Strip>, x: int)
    requires EachGood(t) && |t| == 8
    ensures StripSum(t, x) == Laid(t[0], x) + Laid(t[1], x) + Laid(t[2], x) + Laid(t[3], x)
                              + Laid(t[4], x) + Laid(t[5], x) + Laid(t[6], x) + Laid(t[7], x)
  {
    hide Laid, GoodStrip;
    var u := t[1..];
    var v := u[1..];
    assert StripSum(t, x) == Laid(t[0], x) + StripSum(u, x);
    assert StripSum(u, x) == Laid(t[1], x) + StripSum(v, x);
    assert StripSum(v, x) == Laid(t[2], x) + StripSum(v[1..], x);
    Sum5(v[1..], x);
  }

  lemma OneLayout(op: Operand, a: Strip, x: int, w: nat)
    requires WellFormed(op) && Strips(op.segments) == [a] && w < Pow2(64)
    ensures op.width > 0
    ensures GoodStrip(a)
    ensures GoodStrip(Flip(a))
    ensures Encode(op, x) == Laid(a, x)
    ensures DecodeWord(op.segments, w) == Laid(Flip(a), w)
  {
    hide WellFormed, Strips, Encode, DecodeWord, Laid, GoodStrip, Pow2, StripSum;
    SumLayout(op, x, w);
    var strips := Strips(op.segments);
    var flipped := Flipped(strips);
    Sum1(strips, x);
    Sum1(flipped, w);
    assert strips[0] == a && flipped[0] == Flip(a);
  }

  lemma TwoLayout(op: Operand, a: Strip, b: Strip, x: int, w: nat)
    requires WellFormed(op) && Strips(op.segments) == [a, b] && w < Pow2(64)
    ensures op.width > 0
    ensures GoodStrip(a) && GoodStrip(b)
    ensures GoodStrip(Flip(a)) && GoodStrip(Flip(b))
    ensures Encode(op, x) == Laid(a, x) + Laid(b, x)
    ensures DecodeWord(op.segments, w) == Laid(Flip(a), w) + Laid(Flip(b), w)
  {
    hide WellFormed, Strips, Encode, DecodeWord, Laid, GoodStrip, Pow2, StripSum;
    SumLayout(op, x, w);
    var strips := Strips(op.segments);
    var flipped := Flipped(strips);
    Sum2(strips, x);
    Sum2(flipped, w);
    assert strips[0] == a && flipped[0] == Flip(a);
    assert strips[1] == b && flipped[1] == Flip(b);
  }

  lemma ThreeLayout(op: Operand, a: Strip, b: Strip, c: Strip, x: int, w: nat)
    requires WellFormed(op) && Strips(op.segments) == [a, b, c] && w < Pow2(64)
    ensures op.width > 0
    ensures GoodStrip(a) && GoodStrip(b) && GoodStrip(c)
    ensures GoodStrip(Flip(a)) && GoodStrip(Flip(b)) && GoodStrip(Flip(c))
    ensures Encode(op, x) == Laid(a, x) + Laid(b, x) + Laid(c, x)
    ensures DecodeWord(op.segments, w) == Laid(Flip(a), w) + Laid(Flip(b), w) + Laid(Flip(c), w)
  {
    hide WellFormed, Strips, Encode, DecodeWord, Laid, GoodStrip, Pow2, StripSum;
    SumLayout(op, x, w);
    var strips := Strips(op.segments);
    var flipped := Flipped(strips);
    Sum3(strips, x);
    Sum3(flipped, w);
    assert strips[0] == a && flipped[0] == Flip(a);
    assert strips[1] == b && flipped[1] == Flip(b);
    assert strips[2] == c && flipped[2] == Flip(c);
  }

  lemma FourLayout(op: Operand, a: Strip, b: Strip, c: Strip, d: Strip, x: int, w: nat)
    requires WellFormed(op) && Strips(op.segments) == [a, b, c, d] && w < Pow2(64)
    ensures op.width > 0
    ensures GoodStrip(a) && GoodStrip(b) && GoodStrip(c) && GoodStrip(d)
    ensures GoodStrip(Flip(a)) && GoodStrip(Flip(b)) && GoodStrip(Flip(c)) && GoodStrip(Flip(d))
    ensures Encode(op, x) == Laid(a, x) + Laid(b, x) + Laid(c, x) + Laid(d, x)
    ensures DecodeWord(op.segments, w) == Laid(Flip(a), w) + Laid(Flip(b), w) + Laid(Flip(c), w) + Laid(Flip(d), w)
  {
    hide WellFormed, Strips, Encode, DecodeWord, Laid, GoodStrip, Pow2, StripSum;
    SumLayout(op, x, w);
    var strips := Strips(op.segments);
    var flipped := Flipped(strips);
    Sum4(strips, x);
    Sum4(flipped, w);
    assert strips[0] == a && flipped[0] == Flip(a);
    assert strips[1] == b && flipped[1] == Flip(b);
    assert strips[2] == c && flipped[2] == Flip(c);
    assert strips[3] == d && flipped[3] == Flip(d);
  }

  lemma FiveLayout(op: Operand, a: Strip, b: Strip, c: Strip, d: Strip, e: Strip, x: int, w: nat)
    requires WellFormed(op) && Strips(op.segments) == [a, b, c, d, e] && w < Pow2(64)
    ensures op.width > 0
    ensures GoodStrip(a) && GoodStrip(b) && GoodStrip(c) && GoodStrip(d) && GoodStrip(e)
    ensures GoodStrip(Flip(a)) && GoodStrip(Flip(b)) && GoodStrip(Flip(c)) && GoodStrip(Flip(d))
      && GoodStrip(Flip(e))
    ensures Encode(op, x) == Laid(a, x) + Laid(b, x) + Laid(c, x) + Laid(d, x) + Laid(e, x)
    ensures DecodeWord(op.segments, w) == Laid(Flip(a), w) + Laid(Flip(b), w) + Laid(Flip(c), w)
      + Laid(Flip(d), w) + Laid(Flip(e), w)
  {
    hide WellFormed, Strips, Encode, DecodeWord, Laid, GoodStrip, Pow2, StripSum;
    SumLayout(op, x, w);
    var strips := Strips(op.segments);
    var flipped := Flipped(strips);
    Sum5(strips, x);
    Sum5(flipped, w);
    assert strips[0] == a && flipped[0] == Flip(a);
    assert strips[1] == b && flipped[1] == Flip(b);
    assert strips[2] == c && flipped[2] == Flip(c);
    assert strips[3] == d && flipped[3] == Flip(d);
    assert strips[4] == e && flipped[4] == Flip(e);
  }

  lemma EightLayout(op: Operand, a: Strip, b: Strip, c: Strip, d: Strip, e: Strip, f: Strip, g: Strip, h: Strip,
                    x: int, w: nat)
    requires WellFormed(op) && Strips(op.segments) == [a, b, c, d, e, f, g, h] && w < Pow2(64)
    ensures op.width > 0
    ensures GoodStrip(a) && GoodStrip(b) && GoodStrip(c) && GoodStrip(d) && GoodStrip(e) && GoodStrip(f)
      && GoodStrip(g) && GoodStrip(h)
    ensures GoodStrip(Flip(a)) && GoodStrip(Flip(b)) && GoodStrip(Flip(c)) && GoodStrip(Flip(d))
      && GoodStrip(Flip(e)) && GoodStrip(Flip(f)) && GoodStrip(Flip(g)) && GoodStrip(Flip(h))
    ensures Encode(op, x) == Laid(a, x) + Laid(b, x) + Laid(c, x) + Laid(d, x) + Laid(e, x) + Laid(f, x)
      + Laid(g, x) + Laid(h, x)
    ensures DecodeWord(op.segments, w) == Laid(Flip(a), w) + Laid(Flip(b), w) + Laid(Flip(c), w)
      + Laid(Flip(d), w) + Laid(Flip(e), w) + Laid(Flip(f), w) + Laid(Flip(g), w) + Laid(Flip(h), w)
  {
    hide WellFormed, Strips, Encode, DecodeWord, Laid, GoodStrip, Pow2, StripSum;
    SumLayout(op, x, w);
    var strips := Strips(op.segments);
    var flipped := Flipped(strips);
    Sum8(strips, x);
    Sum8(flipped, w);
    assert strips[0] == a && flipped[0] == Flip(a);
    assert strips[1] == b && flipped[1] == Flip(b);
    assert strips[2] == c && flipped[2] == Flip(c);
    assert strips[3] == d && flipped[3] == Flip(d);
    assert strips[4] == e && flipped[4] == Flip(e);
    assert strips[5] == f && flipped[5] == Flip(f);
    assert strips[6] == g && flipped[6] == Flip(g);
    assert strips[7] == h && flipped[7] == Flip(h);
  }

  // ---------------------------------------------------------------------------------------------
  // Operands

  lemma RdLayout(x: int, w: nat)
    requires w < Pow2(64)
    ensures Encode(RD, x) == Part(x, 4, 0, 7)
    ensures Decode(RD, w) == Part(w, 11, 7, 0)
  {
    hide WellFormed, Strips, Encode, DecodeWord, Part, Pow2, Signed, Unsigned;
    RunsWellFormed();
    OneLayout(RD, Strip(7, 0, 5), x, w);
  }

  lemma Rs1Layout(x: int, w: nat)
    requires w < Pow2(64)
    ensures Encode(RS1, x) == Part(x, 4, 0, 15)
    ensures Decode(RS1, w) == Part(w, 19, 15, 0)
  {
    hide WellFormed, Strips, Encode, DecodeWord, Part, Pow2, Signed, Unsigned;
    RunsWellFormed();
    OneLayout(RS1, Strip(15, 0, 5), x, w);
  }

  lemma Rs2Layout(x: int, w: nat)
    requires w < Pow2(64)
    ensures Encode(RS2, x) == Part(x, 4, 0, 20)
    ensures Decode(RS2, w) == Part(w, 24, 20, 0)
  {
    hide WellFormed, Strips, Encode, DecodeWord, Part, Pow2, Signed, Unsigned;
    RunsWellFormed();
    OneLayout(RS2, Strip(20, 0, 5), x, w);
  }

  lemma Rs3Layout(x: int, w: nat)
    requires w < Pow2(64)
    ensures Encode(RS3, x) == Part(x, 4, 0, 27)
    ensures Decode(RS3, w) == Part(w, 31, 27, 0)
  {
    hide WellFormed, Strips, Encode, DecodeWord, Part, Pow2, Signed, Unsigned;
    RunsWellFormed();
    OneLayout(RS3, Strip(27, 0, 5), x, w);
  }

  lemma AqLayout(x: int, w: nat)
    requires w < Pow2(64)
    ensures Encode(AQ, x) == Part(x, 0, 0, 26)
    ensures Decode(AQ, w) == Part(w, 26, 26, 0)
  {
    hide WellFormed, Strips, Encode, DecodeWord, Part, Pow2, Signed, Unsigned;
    RunsWellFormed();
    OneLayout(AQ, Strip(26, 0, 1), x, w);
  }

  lemma RlLayout(x: int, w: nat)
    requires w < Pow2(64)
    ensures Encode(RL, x) == Part(x, 0, 0, 25)
    ensures Decode(RL, w) == Part(w, 25, 25, 0)
  {
    hide WellFormed, Strips, Encode, DecodeWord, Part, Pow2, Signed, Unsigned;
    RunsWellFormed();
    OneLayout(RL, Strip(25, 0, 1), x, w);
  }

  lemma PredLayout(x: int, w: nat)
    requires w < Pow2(64)
    ensures Encode(PRED, x) == Part(x, 3, 0, 24)
    ensures Decode(PRED, w) == Part(w, 27, 24, 0)
  {
    hide WellFormed, Strips, Encode, DecodeWord, Part, Pow2, Signed, Unsigned;
    RunsWellFormed();
    OneLayout(PRED, Strip(24, 0, 4), x, w);
  }

  lemma SuccLayout(x: int, w: nat)
    requires w < Pow2(64)
    ensures Encode(SUCC, x) == Part(x, 3, 0, 20)
    ensures Decode(SUCC, w) == Part(w, 23, 20, 0)
  {
    hide WellFormed, Strips, Encode, DecodeWord, Part, Pow2, Signed, Unsigned;
    RunsWellFormed();
    OneLayout(SUCC, Strip(20, 0, 4), x, w);
  }

  lemma RmLayout(x: int, w: nat)
    requires w < Pow2(64)
    ensures Encode(RM, x) == Part(x, 2, 0, 12)
    ensures Decode(RM, w) == Part(w, 14, 12, 0)
  {
    hide WellFormed, Strips, Encode, DecodeWord, Part, Pow2, Signed, Unsigned;
    RunsWellFormed();
    OneLayout(RM, Strip(12, 0, 3), x, w);
  }

  lemma Imm20Layout(x: int, w: nat)
    requires w < Pow2(64)
    ensures Encode(IMM20, x) == Part(x, 31, 12, 12)
    ensures Decode(IMM20, w) == Signed(32, Part(w, 31, 12, 12))
  {
    hide WellFormed, Strips, Encode, DecodeWord, Part, Pow2, Signed, Unsigned;
    RunsWellFormed();
    OneLayout(IMM20, Strip(12, 12, 20), x, w);
  }

  lemma Jimm20Layout(x: int, w: nat)
    requires w < Pow2(64)
    ensures Encode(JIMM20, x) == Part(x, 20, 20, 31) + Part(x, 10, 1, 21) + Part(x, 11, 11, 20) + Part(x, 19, 12, 12)
    ensures Decode(JIMM20, w) == Signed(21, Part(w, 31, 31, 20) + Part(w, 30, 21, 1) + Part(w, 20, 20, 11)
      + Part(w, 19, 12, 12))
  {
    hide WellFormed, Strips, Encode, DecodeWord, Part, Pow2, Signed, Unsigned;
    Jimm20Wiring();
    FourLayout(JIMM20, Strip(31, 20, 1), Strip(21, 1, 10), Strip(20, 11, 1), Strip(12, 12, 8), x, w);
  }

  lemma Imm12Layout(x: int, w: nat)
    requires w < Pow2(64)
    ensures Encode(IMM12, x) == Part(x, 11, 0, 20)
    ensures Decode(IMM12, w) == Signed(12, Part(w, 31, 20, 0))
  {
    hide WellFormed, Strips, Encode, DecodeWord, Part, Pow2, Signed, Unsigned;
    RunsWellFormed();
    OneLayout(IMM12, Strip(20, 0, 12), x, w);
  }

  lemma Csr12Layout(x: int, w: nat)
    requires w < Pow2(64)
    ensures Encode(CSR12, x) == Part(x, 11, 0, 20)
    ensures Decode(CSR12, w) == Part(w, 31, 20, 0)
  {
    hide WellFormed, Strips, Encode, DecodeWord, Part, Pow2, Signed, Unsigned;
    RunsWellFormed();
    OneLayout(CSR12, Strip(20, 0, 12), x, w);
  }

  lemma Simm12Layout(x: int, w: nat)
    requires w < Pow2(64)
    ensures Encode(SIMM12, x) == Part(x, 11, 5, 25) + Part(x, 4, 0, 7)
    ensures Decode(SIMM12, w) == Signed(12, Part(w, 31, 25, 5) + Part(w, 11, 7, 0))
  {
    hide WellFormed, Strips, Encode, DecodeWord, Part, Pow2, Signed, Unsigned;
    Simm12Wiring();
    TwoLayout(SIMM12, Strip(25, 5, 7), Strip(7, 0, 5), x, w);
  }

  lemma Sbimm12Layout(x: int, w: nat)
    requires w < Pow2(64)
    ensures Encode(SBIMM12, x) == Part(x, 12, 12, 31) + Part(x, 10, 5, 25) + Part(x, 4, 1, 8) + Part(x, 11, 11, 7)
    ensures Decode(SBIMM12, w) == Signed(13, Part(w, 31, 31, 12) + Part(w, 30, 25, 5) + Part(w, 11, 8, 1)
      + Part(w, 7, 7, 11))
  {
    hide WellFormed, Strips, Encode, DecodeWord, Part, Pow2, Signed, Unsigned;
    Sbimm12Wiring();
    FourLayout(SBIMM12, Strip(31, 12, 1), Strip(25, 5, 6), Strip(8, 1, 4), Strip(7, 11, 1), x, w);
  }

  lemma Shamt6Layout(x: int, w: nat)
    requires w < Pow2(64)
    ensures Encode(SHAMT6, x) == Part(x, 5, 0, 20)
    ensures Decode(SHAMT6, w) == Part(w, 25, 20, 0)
  {
    hide WellFormed, Strips, Encode, DecodeWord, Part, Pow2, Signed, Unsigned;
    RunsWellFormed();
    OneLayout(SHAMT6, Strip(20, 0, 6), x, w);
  }

  lemma Shamt7Layout(x: int, w: nat)
    requires w < Pow2(64)
    ensures Encode(SHAMT7, x) == Part(x, 6, 0, 20)
    ensures Decode(SHAMT7, w) == Part(w, 26, 20, 0)
  {
    hide WellFormed, Strips, Encode, DecodeWord, Part, Pow2, Signed, Unsigned;
    RunsWellFormed();
    OneLayout(SHAMT7, Strip(20, 0, 7), x, w);
  }

  lemma CrdqLayout(x: int, w: nat)
    requires w < Pow2(64)
    ensures Encode(CRDQ, x) == Part(x, 2, 0, 2)
    ensures Decode(CRDQ, w) == Part(w, 4, 2, 0)
  {
    hide WellFormed, Strips, Encode, DecodeWord, Part, Pow2, Signed, Unsigned;
    RunsWellFormed();
    OneLayout(CRDQ, Strip(2, 0, 3), x, w);
  }

  lemma Crs1qLayout(x: int, w: nat)
    requires w < Pow2(64)
    ensures Encode(CRS1Q, x) == Part(x, 2, 0, 7)
    ensures Decode(CRS1Q, w) == Part(w, 9, 7, 0)
  {
    hide WellFormed, Strips, Encode, DecodeWord, Part, Pow2, Signed, Unsigned;
    RunsWellFormed();
    OneLayout(CRS1Q, Strip(7, 0, 3), x, w);
  }

  lemma Crs2Layout(x: int, w: nat)
    requires w < Pow2(64)
    ensures Encode(CRS2, x) == Part(x, 4, 0, 2)
    ensures Decode(CRS2, w) == Part(w, 6, 2, 0)
  {
    hide WellFormed, Strips, Encode, DecodeWord, Part, Pow2, Signed, Unsigned;
    RunsWellFormed();
    OneLayout(CRS2, Strip(2, 0, 5), x, w);
  }

  lemma Cimmsh6Layout(x: int, w: nat)
    requires w < Pow2(64)
    ensures Encode(CIMMSH6, x) == Part(x, 5, 5, 12) + Part(x, 4, 0, 2)
    ensures Decode(CIMMSH6, w) == Part(w, 12, 12, 5) + Part(w, 6, 2, 0)
  {
    hide WellFormed, Strips, Encode, DecodeWord, Part, Pow2, Signed, Unsigned;
    Cimmsh6Wiring();
    TwoLayout(CIMMSH6, Strip(12, 5, 1), Strip(2, 0, 5), x, w);
  }

  lemma CimmiLayout(x: int, w: nat)
    requires w < Pow2(64)
    ensures Encode(CIMMI, x) == Part(x, 5, 5, 12) + Part(x, 4, 0, 2)
    ensures Decode(CIMMI, w) == Signed(6, Part(w, 12, 12, 5) + Part(w, 6, 2, 0))
  {
    hide WellFormed, Strips, Encode, DecodeWord, Part, Pow2, Signed, Unsigned;
    CimmiWiring();
    TwoLayout(CIMMI, Strip(12, 5, 1), Strip(2, 0, 5), x, w);
  }

  lemma CimmuiLayout(x: int, w: nat)
    requires w < Pow2(64)
    ensures Encode(CIMMUI, x) == Part(x, 17, 17, 12) + Part(x, 16, 12, 2)
    ensures Decode(CIMMUI, w) == Signed(18, Part(w, 12, 12, 17) + Part(w, 6, 2, 12))
  {
    hide WellFormed, Strips, Encode, DecodeWord, Part, Pow2, Signed, Unsigned;
    CimmuiWiring();
    TwoLayout(CIMMUI, Strip(12, 17, 1), Strip(2, 12, 5), x, w);
  }

  lemma CimmlwspLayout(x: int, w: nat)
    requires w < Pow2(64)
    ensures Encode(CIMMLWSP, x) == Part(x, 5, 5, 12) + Part(x, 4, 2, 4) + Part(x, 7, 6, 2)
    ensures Decode(CIMMLWSP, w) == Part(w, 12, 12, 5) + Part(w, 6, 4, 2) + Part(w, 3, 2, 6)
  {
    hide WellFormed, Strips, Encode, DecodeWord, Part, Pow2, Signed, Unsigned;
    CimmlwspWiring();
    ThreeLayout(CIMMLWSP, Strip(12, 5, 1), Strip(4, 2, 3), Strip(2, 6, 2), x, w);
  }

  lemma CimmldspLayout(x: int, w: nat)
    requires w < Pow2(64)
    ensures Encode(CIMMLDSP, x) == Part(x, 5, 5, 12) + Part(x, 4, 3, 5) + Part(x, 8, 6, 2)
    ensures Decode(CIMMLDSP, w) == Part(w, 12, 12, 5) + Part(w, 6, 5, 3) + Part(w, 4, 2, 6)
  {
    hide WellFormed, Strips, Encode, DecodeWord, Part, Pow2, Signed, Unsigned;
    CimmldspWiring();
    ThreeLayout(CIMMLDSP, Strip(12, 5, 1), Strip(5, 3, 2), Strip(2, 6, 3), x, w);
  }

  lemma CimmlqspLayout(x: int, w: nat)
    requires w < Pow2(64)
    ensures Encode(CIMMLQSP, x) == Part(x, 5, 5, 12) + Part(x, 4, 4, 6) + Part(x, 9, 6, 2)
    ensures Decode(CIMMLQSP, w) == Part(w, 12, 12, 5) + Part(w, 6, 6, 4) + Part(w, 5, 2, 6)
  {
    hide WellFormed, Strips, Encode, DecodeWord, Part, Pow2, Signed, Unsigned;
    CimmlqspWiring();
    ThreeLayout(CIMMLQSP, Strip(12, 5, 1), Strip(6, 4, 1), Strip(2, 6, 4), x, w);
  }

  lemma Cimm16spLayout(x: int, w: nat)
    requires w < Pow2(64)
    ensures Encode(CIMM16SP, x) == Part(x, 9, 9, 12) + Part(x, 4, 4, 6) + Part(x, 6, 6, 5) + Part(x, 8, 7, 3)
      + Part(x, 5, 5, 2)
    ensures Decode(CIMM16SP, w) == Signed(10, Part(w, 12, 12, 9) + Part(w, 6, 6, 4) + Part(w, 5, 5, 6)
      + Part(w, 4, 3, 7) + Part(w, 2, 2, 5))
  {
    hide WellFormed, Strips, Encode, DecodeWord, Part, Pow2, Signed, Unsigned;
    Cimm16spWiring();
    FiveLayout(CIMM16SP, Strip(12, 9, 1), Strip(6, 4, 1), Strip(5, 6, 1), Strip(3, 7, 2),
      Strip(2, 5, 1), x, w);
  }

  lemma CimmjLayout(x: int, w: nat)
    requires w < Pow2(64)
    ensures Encode(CIMMJ, x) == Part(x, 11, 11, 12) + Part(x, 4, 4, 11) + Part(x, 9, 8, 9) + Part(x, 10, 10, 8)
      + Part(x, 6, 6, 7) + Part(x, 7, 7, 6) + Part(x, 3, 1, 3) + Part(x, 5, 5, 2)
    ensures Decode(CIMMJ, w) == Signed(12, Part(w, 12, 12, 11) + Part(w, 11, 11, 4) + Part(w, 10, 9, 8)
      + Part(w, 8, 8, 10) + Part(w, 7, 7, 6) + Part(w, 6, 6, 7) + Part(w, 5, 3, 1) + Part(w, 2, 2, 5))
  {
    hide WellFormed, Strips, Encode, DecodeWord, Part, Pow2, Signed, Unsigned;
    CimmjWiring();
    EightLayout(CIMMJ, Strip(12, 11, 1), Strip(11, 4, 1), Strip(9, 8, 2), Strip(8, 10, 1),
      Strip(7, 6, 1), Strip(6, 7, 1), Strip(3, 1, 3), Strip(2, 5, 1), x, w);
  }

  lemma CimmbLayout(x: int, w: nat)
    requires w < Pow2(64)
    ensures Encode(CIMMB, x) == Part(x, 8, 8, 12) + Part(x, 4, 3, 10) + Part(x, 7, 6, 5) + Part(x, 2, 1, 3)
      + Part(x, 5, 5, 2)
    ensures Decode(CIMMB, w) == Signed(9, Part(w, 12, 12, 8) + Part(w, 11, 10, 3) + Part(w, 6, 5, 6)
      + Part(w, 4, 3, 1) + Part(w, 2, 2, 5))
  {
    hide WellFormed, Strips, Encode, DecodeWord, Part, Pow2, Signed, Unsigned;
    CimmbWiring();
    FiveLayout(CIMMB, Strip(12, 8, 1), Strip(10, 3, 2), Strip(5, 6, 2), Strip(3, 1, 2),
      Strip(2, 5, 1), x, w);
  }

  lemma CimmswspLayout(x: int, w: nat)
    requires w < Pow2(64)
    ensures Encode(CIMMSWSP, x) == Part(x, 5, 2, 9) + Part(x, 7, 6, 7)
    ensures Decode(CIMMSWSP, w) == Part(w, 12, 9, 2) + Part(w, 8, 7, 6)
  {
    hide WellFormed, Strips, Encode, DecodeWord, Part, Pow2, Signed, Unsigned;
    CimmswspWiring();
    TwoLayout(CIMMSWSP, Strip(9, 2, 4), Strip(7, 6, 2), x, w);
  }

  lemma CimmsdspLayout(x: int, w: nat)
    requires w < Pow2(64)
    ensures Encode(CIMMSDSP, x) == Part(x, 5, 3, 10) + Part(x, 8, 6, 7)
    ensures Decode(CIMMSDSP, w) == Part(w, 12, 10, 3) + Part(w, 9, 7, 6)
  {
    hide WellFormed, Strips, Encode, DecodeWord, Part, Pow2, Signed, Unsigned;
    CimmsdspWiring();
    TwoLayout(CIMMSDSP, Strip(10, 3, 3), Strip(7, 6, 3), x, w);
  }

  lemma CimmsqspLayout(x: int, w: nat)
    requires w < Pow2(64)
    ensures Encode(CIMMSQSP, x) == Part(x, 5, 4, 11) + Part(x, 9, 6, 7)
    ensures Decode(CIMMSQSP, w) == Part(w, 12, 11, 4) + Part(w, 10, 7, 6)
  {
    hide WellFormed, Strips, Encode, DecodeWord, Part, Pow2, Signed, Unsigned;
    CimmsqspWiring();
    TwoLayout(CIMMSQSP, Strip(11, 4, 2), Strip(7, 6, 4), x, w);
  }

  lemma Cimm4spnLayout(x: int, w: nat)
    requires w < Pow2(64)
    ensures Encode(CIMM4SPN, x) == Part(x, 5, 4, 11) + Part(x, 9, 6, 7) + Part(x, 2, 2, 6) + Part(x, 3, 3, 5)
    ensures Decode(CIMM4SPN, w) == Part(w, 12, 11, 4) + Part(w, 10, 7, 6) + Part(w, 6, 6, 2) + Part(w, 5, 5, 3)
  {
    hide WellFormed, Strips, Encode, DecodeWord, Part, Pow2, Signed, Unsigned;
    Cimm4spnWiring();
    FourLayout(CIMM4SPN, Strip(11, 4, 2), Strip(7, 6, 4), Strip(6, 2, 1), Strip(5, 3, 1), x, w);
  }

  lemma CimmwLayout(x: int, w: nat)
    requires w < Pow2(64)
    ensures Encode(CIMMW, x) == Part(x, 5, 3, 10) + Part(x, 2, 2, 6) + Part(x, 6, 6, 5)
    ensures Decode(CIMMW, w) == Part(w, 12, 10, 3) + Part(w, 6, 6, 2) + Part(w, 5, 5, 6)
  {
    hide WellFormed, Strips, Encode, DecodeWord, Part, Pow2, Signed, Unsigned;
    CimmwWiring();
    ThreeLayout(CIMMW, Strip(10, 3, 3), Strip(6, 2, 1), Strip(5, 6, 1), x, w);
  }

  lemma CimmdLayout(x: int, w: nat)
    requires w < Pow2(64)
    ensures Encode(CIMMD, x) == Part(x, 5, 3, 10) + Part(x, 7, 6, 5)
    ensures Decode(CIMMD, w) == Part(w, 12, 10, 3) + Part(w, 6, 5, 6)
  {
    hide WellFormed, Strips, Encode, DecodeWord, Part, Pow2, Signed, Unsigned;
    CimmdWiring();
    TwoLayout(CIMMD, Strip(10, 3, 3), Strip(5, 6, 2), x, w);
  }

  lemma CimmqLayout(x: int, w: nat)
    requires w < Pow2(64)
    ensures Encode(CIMMQ, x) == Part(x, 5, 4, 11) + Part(x, 8, 8, 10) + Part(x, 7, 6, 5)
    ensures Decode(CIMMQ, w) == Part(w, 12, 11, 4) + Part(w, 10, 10, 8) + Part(w, 6, 5, 6)
  {
    hide WellFormed, Strips, Encode, DecodeWord, Part, Pow2, Signed, Unsigned;
    CimmqWiring();
    ThreeLayout(CIMMQ, Strip(11, 4, 2), Strip(10, 8, 1), Strip(5, 6, 2), x, w);
  }

  /** The bias of a three-bit register field is a multiple of 8. */
  lemma EightIsInvisible(x: int, at: nat)
    ensures Part(x + 8, 2, 0, at) == Part(x, 2, 0, at)
  {
    hide Unsigned, Shl;
    Pow2Values();
    ShlPow2(0, 3);
    NoShift(x);
    NoShift(x + 8);
    CongIntro(3, x + 8, x, 1);
  }

  /** A value that fits its field is multiplied by its place. */
  lemma PartIs(x: nat, n: nat, at: nat)
    requires n > 0 && x < Pow2(n)
    ensures Part(x, n - 1, 0, at) == x * Pow2(at)
  {
    hide Unsigned, Shl, Pow2;
    NoShift(x);
    UnsignedSmall(n, x);
    ShlIsMul(x, at);
  }
}
