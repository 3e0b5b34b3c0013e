/**
  The expression that the printed decoder switches on: rv_meta_model::bitmask_to_bitrange and
  format_bitmask (src/model/model.cc) turn the bits of a node into shifts and masks of the instruction.
  Evaluated, it is the switch value of the decision tree.
 */
module SwitchExpression {
  import opened Bits
  import opened DecoderTree

  /** rv_bitrange */
  datatype Range = Range(msb: nat, lsb: nat)

  /** ((inst >> shift) & mask) */
  datatype Term = Term(shift: nat, mask: nat)

  function Length(r: Range): int { r.msb - r.lsb + 1 }

  /** The bits of a range, highest first. */
  function Descend(r: Range): (s: seq<nat>)
    requires r.lsb <= r.msb
    ensures |s| == Length(r) && forall i :: 0 <= i < |s| ==> s[i] == r.msb - i
    decreases r.msb
  {
    if r.msb == r.lsb then [r.msb] else [r.msb] + Descend(Range(r.msb - 1, r.lsb))
  }

  predicate AllRanges(rs: seq<Range>) {
    forall i :: 0 <= i < |rs| ==> rs[i].lsb <= rs[i].msb
  }

  function Expand(rs: seq<Range>): seq<nat>
    requires AllRanges(rs)
  {
    if rs == [] then [] else Descend(rs[0]) + Expand(rs[1..])
  }

  predicate Falling(bits: seq<nat>) {
    forall j, k :: 0 <= j < k < |bits| ==> bits[k] < bits[j]
  }

  lemma {:induction false} ExpandSnoc(rs: seq<Range>, r: Range)
    requires AllRanges(rs) && r.lsb <= r.msb
    ensures AllRanges(rs + [r]) && Expand(rs + [r]) == Expand(rs) + Descend(r)
  {
    hide Descend;
    if rs == [] {
      assert rs + [r] == [r] && [r][1..] == [] && Expand([r]) == Descend(r) + Expand([]);
    } else {
      assert (rs + [r])[0] == rs[0] && (rs + [r])[1..] == rs[1..] + [r];
      ExpandSnoc(rs[1..], r);
    }
  }

  lemma Widen(r: Range, b: nat)
    requires r.lsb <= r.msb && b + 1 == r.lsb
    ensures Descend(Range(r.msb, b)) == Descend(r) + [b]
  {
    hide Descend;
  }

  /** A bit below the last range widens it; any bit can start a new one. */
  lemma WidenLast(v: seq<Range>, b: nat)
    requires AllRanges(v) && v != [] && b + 1 == v[|v| - 1].lsb
    ensures var w := v[|v| - 1 := Range(v[|v| - 1].msb, b)]; AllRanges(w) && Expand(w) == Expand(v) + [b]
  {
    hide Expand, Descend;
    var n := |v| - 1;
    var wide := Range(v[n].msb, b);
    assert v == v[..n] + [v[n]] && v[n := wide] == v[..n] + [wide];
    ExpandSnoc(v[..n], v[n]);
    ExpandSnoc(v[..n], wide);
    Widen(v[n], b);
  }

  lemma StartRange(v: seq<Range>, b: nat)
    requires AllRanges(v)
    ensures AllRanges(v + [Range(b, b)]) && Expand(v + [Range(b, b)]) == Expand(v) + [b]
  {
    hide Expand, Descend;
    ExpandSnoc(v, Range(b, b));
    SingleBit(b);
  }

  lemma NoRanges()
    ensures AllRanges([]) && Expand([]) == []
  {}

  /** No range continues the one before it. */
  predicate Merged(v: seq<Range>) {
    forall i :: 0 < i < |v| ==> v[i].msb + 1 != v[i - 1].lsb
  }

  /** bitmask_to_bitrange: merges runs of consecutive bits, as far as possible, and loses none. */
  method BitmaskToBitrange(bits: seq<nat>) returns (v: seq<Range>)
    ensures AllRanges(v) && Expand(v) == bits && Merged(v)
  {
    hide Expand, AllRanges;
    NoRanges();
    v := [];
    if |bits| > 0 {
      StartRange(v, bits[0]);
      v := v + [Range(bits[0], bits[0])];
      var i := 1;
      while i < |bits|
        invariant 1 <= i <= |bits| && |v| > 0 && AllRanges(v) && Expand(v) == bits[..i] && Merged(v)
      {
        if bits[i] + 1 == v[|v| - 1].lsb {
          WidenLast(v, bits[i]);
          v := v[|v| - 1 := Range(v[|v| - 1].msb, bits[i])];
        } else {
          StartRange(v, bits[i]);
          v := v + [Range(bits[i], bits[i])];
        }
        i := i + 1;
      }
      assert bits[..i] == bits;
    }
  }

  lemma SingleBit(b: nat)
    ensures Descend(Range(b, b)) == [b]
  {}

  /** The numeral of `total` digits whose digits from position `end` to `start`, counted from 1 at
      the right, are one; here from digit lo + 1 on. */
  function Ones(lo: nat, total: nat, end: int, start: int): nat
    requires lo <= total
    decreases total - lo
  {
    if lo == total then 0 else (if end <= lo + 1 <= start then 1 else 0) + 2 * Ones(lo + 1, total, end, start)
  }

  lemma {:induction false} OnesBit(lo: nat, total: nat, end: int, start: int, p: nat)
    requires lo <= total
    ensures Bit(Ones(lo, total, end, start), p) <==> lo + p < total && end <= lo + p + 1 <= start
    decreases total - lo
  {
    if lo == total { ZeroBits(p); }
    else if p > 0 { OnesBit(lo + 1, total, end, start, p - 1); }
  }

  /** The terms for the ranges, with `start` digits of the value still to come. */
  function Terms(rs: seq<Range>, start: nat, total: nat): seq<Term>
    requires AllRanges(rs) && start == |Expand(rs)| && Falling(Expand(rs))
    decreases rs
  {
    if rs == [] then []
    else
      FirstIsHigh(rs);
      var r := rs[0];
      [Term(r.msb - start + 1, Ones(0, total, start - (r.msb - r.lsb), start))]
      + Terms(rs[1..], start - Length(r), total)
  }

  /** A shift is never negative: the highest of n different bits is at least n - 1. */
  lemma FirstIsHigh(rs: seq<Range>)
    requires AllRanges(rs) && rs != [] && Falling(Expand(rs))
    ensures |Expand(rs)| == Length(rs[0]) + |Expand(rs[1..])| && Expand(rs)[0] == rs[0].msb
    ensures rs[0].msb >= |Expand(rs)| - 1 && Falling(Expand(rs[1..]))
  {
    var bits := Expand(rs);
    assert bits == Descend(rs[0]) + Expand(rs[1..]);
    FallingBound(bits, 0);
    forall j, k | 0 <= j < k < |Expand(rs[1..])| ensures Expand(rs[1..])[k] < Expand(rs[1..])[j] {
      assert Expand(rs[1..])[k] == bits[Length(rs[0]) + k] && Expand(rs[1..])[j] == bits[Length(rs[0]) + j];
    }
  }

  lemma {:induction false} FallingBound(bits: seq<nat>, i: nat)
    requires Falling(bits) && i < |bits|
    ensures bits[i] >= |bits| - 1 - i
    decreases |bits| - i
  {
    if i < |bits| - 1 { FallingBound(bits, i + 1); }
  }

  /** The value of the printed expression. */
  function Eval(terms: seq<Term>, inst: nat): nat {
    if terms == [] then 0
    else ShrNonNegative(inst, terms[0].shift); Or(And(Shr(inst, terms[0].shift), terms[0].mask), Eval(terms[1..], inst))
  }

  /** format_bitmask: the expression, one term per range. */
  method FormatBitmask(bits: seq<nat>) returns (terms: seq<Term>)
    requires Falling(bits)
    ensures forall inst: nat :: Eval(terms, inst) == Extract(WordOf(inst), bits)
  {
    hide Merged;
    var v := BitmaskToBitrange(bits);
    ghost var all := Terms(v, |bits|, |bits|);
    var rangeStart := |bits|;
    terms := [];
    var i := 0;
    assert v[0..] == v;
    while i < |v|
      invariant 0 <= i <= |v| && AllRanges(v[i..]) && rangeStart == |Expand(v[i..])| && Falling(Expand(v[i..]))
      invariant terms + Terms(v[i..], rangeStart, |bits|) == all
    {
      hide Expand, Ones, Falling;
      var r := v[i];
      TermsStep(v, i, rangeStart, |bits|);
      var rangeEnd := rangeStart - (r.msb - r.lsb);
      terms := terms + [Term(r.msb - rangeStart + 1, Ones(0, |bits|, rangeEnd, rangeStart))];
      rangeStart := rangeStart - ((r.msb - r.lsb) + 1);
      i := i + 1;
    }
    assert terms == all;
    forall inst: nat ensures Eval(terms, inst) == Extract(WordOf(inst), bits) { EvalIsExtract(v, bits, inst); }
  }

  lemma TermsStep(v: seq<Range>, i: nat, start: nat, total: nat)
    requires i < |v| && AllRanges(v[i..]) && start == |Expand(v[i..])| && Falling(Expand(v[i..]))
    ensures v[i].msb - start + 1 >= 0 && Length(v[i]) <= start
    ensures AllRanges(v[i + 1..]) && start - Length(v[i]) == |Expand(v[i + 1..])| && Falling(Expand(v[i + 1..]))
    ensures Terms(v[i..], start, total)
         == [Term(v[i].msb - start + 1, Ones(0, total, start - (v[i].msb - v[i].lsb), start))]
            + Terms(v[i + 1..], start - Length(v[i]), total)
  {
    hide Expand, Ones, Falling;
    FirstIsHigh(v[i..]);
    assert v[i..][0] == v[i] && v[i..][1..] == v[i + 1..];
  }

  /** Digit p of the switch value is the bit listed at that place. */
  lemma {:induction false} ExtractBit(word: Word, bits: seq<nat>, p: nat)
    requires p < |bits|
    ensures Bit(Extract(word, bits), p) <==> bits[|bits| - 1 - p] in word
    decreases p
  {
    var init := bits[..|bits| - 1];
    if p > 0 { ExtractBit(word, init, p - 1); }
  }

  lemma {:induction false} EvalBit(rs: seq<Range>, start: nat, total: nat, inst: nat, p: nat)
    requires AllRanges(rs) && start == |Expand(rs)| <= total && Falling(Expand(rs))
    ensures Bit(Eval(Terms(rs, start, total), inst), p) <==> p < start && Bit(inst, Expand(rs)[start - 1 - p])
    decreases rs
  {
    hide Bit, Ones, Falling, Or, And, Shr;
    if rs == [] {
      ZeroBits(p);
    } else {
      FirstIsHigh(rs);
      var r := rs[0];
      var shift, mask := r.msb - start + 1, Ones(0, total, start - (r.msb - r.lsb), start);
      var rest := Terms(rs[1..], start - Length(r), total);
      EvalBit(rs[1..], start - Length(r), total, inst, p);
      ShrNonNegative(inst, shift);
      BitOr(And(Shr(inst, shift), mask), Eval(rest, inst), p);
      BitAnd(Shr(inst, shift), mask, p);
      BitShr(inst, shift, p);
      OnesBit(0, total, start - (r.msb - r.lsb), start, p);
      assert Eval(Terms(rs, start, total), inst) == Or(And(Shr(inst, shift), mask), Eval(rest, inst));
      if p < start { RangeDigit(rs, start, p); }
    }
  }

  /** The bit at digit p lies in the first range or in the others. */
  lemma RangeDigit(rs: seq<Range>, start: nat, p: nat)
    requires AllRanges(rs) && rs != [] && start == |Expand(rs)| && p < start
    ensures |Expand(rs)| == Length(rs[0]) + |Expand(rs[1..])|
    ensures start - Length(rs[0]) <= p ==> Expand(rs)[start - 1 - p] == p + rs[0].msb - start + 1
    ensures p < start - Length(rs[0]) ==> Expand(rs)[start - 1 - p] == Expand(rs[1..])[start - Length(rs[0]) - 1 - p]
  {
    hide Descend;
    var bits := Expand(rs);
    assert bits == Descend(rs[0]) + Expand(rs[1..]);
  }

  /** The printed expression computes the switch value of the decision tree. */
  lemma EvalIsExtract(rs: seq<Range>, bits: seq<nat>, inst: nat)
    requires AllRanges(rs) && Expand(rs) == bits && Falling(bits)
    ensures Eval(Terms(rs, |bits|, |bits|), inst) == Extract(WordOf(inst), bits)
  {
    hide Bit, Expand, Falling, Terms, Eval, Extract, Pow2;
    var n := |bits|;
    var a, b := Eval(Terms(rs, n, n), inst), Extract(WordOf(inst), bits);
    forall p: nat | n <= p ensures !Bit(a, p) { EvalBit(rs, n, n, inst, p); }
    BoundedByBits(a, n);
    ExtractPower(WordOf(inst), bits);
    forall p: nat | p < n ensures Bit(a, p) == Bit(b, p) {
      EvalBit(rs, n, n, inst, p);
      ExtractBit(WordOf(inst), bits, p);
    }
    SameBits(a, b, n);
  }

  /** The bits of a node are listed highest first, as the expression needs them. */
  lemma NodeBitsFall(ops: seq<Opcode>, list: seq<nat>, done: Word)
    requires ValidList(ops, list)
    ensures Falling(ChosenBits(ops, list, done))
  {
    hide Coverage, Rows, BitsCovering;
    BitsCoveringMeans(ops, list, done, Rows(ops, list, done), WIDTH);
  }
}
