/**
  The instruction stream: assembler::append and assembler::add_inst (src/asm/assembler.cc) write
  instructions of 2, 4, 6 or 8 bytes in little-endian order; inst_length and inst_fetch
  (src/asm/codec.h) find the boundaries again.  Section 1.2 of the RISC-V User-Level ISA v2.2
  defines the length encoding.
 */
module InstBuffer {
  import opened Bits

  /** inst_length: 0 stands for an encoding longer than 64 bits. */
  function InstLength(inst: nat): (len: nat) {
    if And(inst, 0x3) != 0x3 then 2
    else if And(inst, 0x1c) != 0x1c then 4
    else if And(inst, 0x3f) == 0x1f then 6
    else if And(inst, 0x7f) == 0x3f then 8
    else 0
  }

  /** The n low bytes of d, lowest first. */
  function Bytes(n: nat, d: nat): (s: seq<nat>)
    ensures |s| == n && forall i :: 0 <= i < n ==> s[i] < 256
  {
    if n == 0 then [] else
      assert Unsigned(8, d) < Pow2(8) == 256 by { Pow2Values(); }
      assert Shr(d, 8) >= 0 by { ShrNonNegative(d, 8); }
      [Unsigned(8, d)] + Bytes(n - 1, Shr(d, 8))
  }

  /** A little-endian load of n bytes. */
  function Load(mem: seq<nat>, at: nat, n: nat): nat
    requires at + n <= |mem|
    decreases n
  {
    if n == 0 then 0 else mem[at] + 256 * Load(mem, at + 1, n - 1)
  }

  /** What add_inst appends. */
  function InstBytes(inst: nat): seq<nat> {
    Bytes(InstLength(inst), inst)
  }

  /** Shift of an unsigned value. */
  function ShlNat(v: nat, k: nat): (r: nat)
    ensures r == Shl(v, k)
  {
    ShlPow2(0, k);
    ShlOrder(0, v, k);
    Shl(v, k)
  }

  datatype Fetched = Fetched(inst: nat, offset: nat)

  /** inst_fetch: an optimistic 32-bit read, then two or four more bytes when the encoding asks
      for them. */
  function Fetch(mem: seq<nat>, at: nat): Fetched
    requires at + 8 <= |mem|
  {
    var inst := Load(mem, at, 4);
    if And(inst, 0x3) != 0x3 then Fetched(And(inst, 0xffff), 2)
    else if And(inst, 0x1c) != 0x1c then Fetched(inst, 4)
    else if And(inst, 0x3f) == 0x1f then Fetched(Or(inst, ShlNat(Load(mem, at + 4, 2), 32)), 6)
    else if And(inst, 0x7f) == 0x3f then Fetched(Or(inst, ShlNat(Load(mem, at + 4, 4), 32)), 8)
    else Fetched(0, 0)
  }

  /** The n bits from bit `from` up are ones. */
  predicate OnesAt(inst: nat, from: nat, n: nat) {
    forall i: nat :: from <= i < from + n ==> Bit(inst, i)
  }

  /** The length encoding of the standard: 16 bits unless bits 1 and 0 are ones, then 32 bits unless bits 4
      to 2 are, then 48 bits unless bit 5 is one, then 64 bits unless bit 6 is. */
  lemma LengthEncoding(inst: nat)
    ensures InstLength(inst) == 2 <==> !OnesAt(inst, 0, 2)
    ensures InstLength(inst) == 4 <==> OnesAt(inst, 0, 2) && !OnesAt(inst, 2, 3)
    ensures InstLength(inst) == 6 <==> OnesAt(inst, 0, 5) && !Bit(inst, 5)
    ensures InstLength(inst) == 8 <==> OnesAt(inst, 0, 6) && !Bit(inst, 6)
    ensures InstLength(inst) == 0 <==> OnesAt(inst, 0, 7)
  {
    hide And, Bit;
    LengthMasks();
    MaskedIs(inst, 0x3, 0x3, 0, 2, 2);
    MaskedIs(inst, 0x1c, 0x1c, 2, 3, 5);
    MaskedIs(inst, 0x3f, 0x1f, 0, 5, 6);
    MaskedIs(inst, 0x7f, 0x3f, 0, 6, 7);
    assert OnesAt(inst, 0, 2) && OnesAt(inst, 2, 3) <==> OnesAt(inst, 0, 5) by { OnesJoin(inst, 2, 3); }
    OnesJoin(inst, 5, 1);
    OnesJoin(inst, 6, 1);
  }

  lemma OnesJoin(inst: nat, a: nat, b: nat)
    ensures OnesAt(inst, 0, a + b) <==> OnesAt(inst, 0, a) && OnesAt(inst, a, b)
    ensures OnesAt(inst, a, 1) <==> Bit(inst, a)
  {
    hide Bit;
    if OnesAt(inst, 0, a) && OnesAt(inst, a, b) {
      forall i: nat | 0 <= i < a + b ensures Bit(inst, i) {}
    }
  }

  /** The bits from `from` up to `to` are ones, the others zeros. */
  ghost predicate OnlyOnes(c: nat, from: nat, to: nat) {
    forall i: nat :: Bit(c, i) <==> from <= i < to
  }

  lemma LengthMasks()
    ensures OnlyOnes(0x3, 0, 2) && OnlyOnes(0x1c, 2, 5) && OnlyOnes(0x1f, 0, 5) && OnlyOnes(0x3f, 0, 6)
    ensures OnlyOnes(0x7f, 0, 7)
  {
    hide Bit;
    Pow2Values();
    forall i: nat ensures Bit(0x3, i) <==> i < 2 { MaskBits(2, i); }
    forall i: nat ensures Bit(0x3f, i) <==> i < 6 { MaskBits(6, i); }
    forall i: nat ensures Bit(0x7f, i) <==> i < 7 { MaskBits(7, i); }
    forall i: nat ensures Bit(0x1f, i) <==> i < 5 { MaskBits(5, i); }
    ShlIsMul(7, 2);
    forall i: nat ensures Bit(0x1c, i) <==> 2 <= i < 5 {
      BitShl(7, 2, i);
      if i >= 2 { MaskBits(3, i - 2); }
    }
  }

  /** Masked with the ones below `to`, the word has ones from `from` up to `end` exactly if it has them and a
      zero above. */
  lemma MaskedIs(inst: nat, mask: nat, value: nat, from: nat, n: nat, to: nat)
    requires OnlyOnes(mask, from, to) && OnlyOnes(value, from, from + n) && from + n <= to <= from + n + 1
    ensures And(inst, mask) == value <==> OnesAt(inst, from, n) && (to == from + n || !Bit(inst, from + n))
  {
    hide And, Bit;
    if And(inst, mask) == value {
      forall i: nat | from <= i < to ensures Bit(inst, i) == Bit(value, i) { BitAnd(inst, mask, i); }
    }
    if OnesAt(inst, from, n) && (to == from + n || !Bit(inst, from + n)) {
      forall i: nat ensures Bit(And(inst, mask), i) == Bit(value, i) { BitAnd(inst, mask, i); }
      EqualBits(And(inst, mask), value);
    }
  }

  // ---------------------------------------------------------------------------------------------
  // Bytes and words

  lemma {:induction false} LoadBytes(mem: seq<nat>, at: nat, n: nat, d: nat)
    requires at + n <= |mem| && mem[at..at + n] == Bytes(n, d)
    ensures Load(mem, at, n) == Unsigned(8 * n, d)
    decreases n
  {
    hide Unsigned, Shl, Shr, Bytes;
    if n == 0 {
      NoBits(d);
    } else {
      ShrNonNegative(d, 8);
      BytesCons(n, d);
      var rest := Bytes(n - 1, Shr(d, 8));
      assert mem[at] == mem[at..at + n][0] == Unsigned(8, d);
      assert mem[at + 1..at + n] == mem[at..at + n][1..] == rest;
      LoadBytes(mem, at + 1, n - 1, Shr(d, 8));
      Join(8, 8 * (n - 1), d);
      ShlByte(Unsigned(8 * (n - 1), Shr(d, 8)));
    }
  }

  lemma BytesCons(n: nat, d: nat)
    requires n > 0
    ensures Shr(d, 8) >= 0 && Bytes(n, d) == [Unsigned(8, d)] + Bytes(n - 1, Shr(d, 8))
  {}

  lemma ShlByte(x: int)
    ensures Shl(x, 8) == 256 * x
  {
    ShlIsMul(x, 8);
    Pow2Values();
  }

  lemma {:induction false} LoadJoin(mem: seq<nat>, at: nat, a: nat, b: nat)
    requires at + a + b <= |mem|
    ensures Load(mem, at, a + b) == Load(mem, at, a) + Shl(Load(mem, at + a, b), 8 * a)
    decreases a
  {
    if a > 0 {
      LoadJoin(mem, at + 1, a - 1, b);
      ShlShl(Load(mem, at + a, b), 8 * (a - 1), 8);
      ShlByte(Shl(Load(mem, at + a, b), 8 * (a - 1)));
      hide Shl;
    }
  }

  /** Bits above k do not reach the low n <= k bits. */
  lemma LowUnaffected(n: nat, k: nat, x: int, y: int)
    requires n <= k
    ensures Unsigned(n, Unsigned(k, x) + Shl(y, k)) == Unsigned(n, x)
  {
    hide Unsigned, Shl;
    var sum := Unsigned(k, x) + Shl(y, k);
    CongIntro(k, sum, Unsigned(k, x), y);
    CongSelf(k, x);
    TruncateTwice(n, k, sum);
    TruncateTwice(n, k, x);
  }

  /** A test against an n-bit constant sees only the low n bits. */
  lemma AndSeesLow(x: nat, c: nat, n: nat)
    requires c < Pow2(n)
    ensures And(x, c) == And(Unsigned(n, x), c)
  {
    hide Bit, And, Unsigned;
    AndBound(x, c, n);
    AndBound(Unsigned(n, x), c, n);
    forall i: nat | i < n ensures Bit(And(x, c), i) == Bit(And(Unsigned(n, x), c), i) {
      BitAnd(x, c, i);
      BitAnd(Unsigned(n, x), c, i);
      BitUnsigned(n, x, i);
    }
    SameBits(And(x, c), And(Unsigned(n, x), c), n);
  }

  /** The length tests see only the low seven bits. */
  lemma LengthTests(x: nat, y: nat)
    requires Unsigned(7, x) == Unsigned(7, y)
    ensures And(x, 0x3) == And(y, 0x3) && And(x, 0x1c) == And(y, 0x1c)
    ensures And(x, 0x3f) == And(y, 0x3f) && And(x, 0x7f) == And(y, 0x7f)
  {
    hide And, Unsigned;
    Pow2Values();
    AndSeesLow(x, 0x3, 7);
    AndSeesLow(y, 0x3, 7);
    AndSeesLow(x, 0x1c, 7);
    AndSeesLow(y, 0x1c, 7);
    AndSeesLow(x, 0x3f, 7);
    AndSeesLow(y, 0x3f, 7);
    AndSeesLow(x, 0x7f, 7);
    AndSeesLow(y, 0x7f, 7);
  }

  lemma OrIsJoin(x: nat, y: nat, k: nat)
    requires x < Pow2(k)
    ensures Or(x, ShlNat(y, k)) == x + Shl(y, k)
  {
    hide Bit, Or, Shl, Unsigned, Shr, Pow2;
    var s := ShlNat(y, k);
    SplitUnique(x + Shl(y, k), k, y, x);
    var a, b := Or(x, s), x + Shl(y, k);
    forall i: nat ensures Bit(a, i) == Bit(b, i) {
      BitOr(x, s, i);
      BitShl(y, k, i);
      if i < k {
        BitUnsigned(k, b, i);
      } else {
        HighBits(x, k, i);
        BitShr(b, k, i - k);
      }
    }
    EqualBits(a, b);
  }

  lemma {:induction false} EqualBits(a: nat, b: nat)
    requires forall i: nat :: Bit(a, i) == Bit(b, i)
    ensures a == b
    decreases a + b
  {
    if a + b > 0 {
      assert Bit(a, 0) == Bit(b, 0);
      forall i: nat ensures Bit(a / 2, i) == Bit(b / 2, i) { assert Bit(a, i + 1) == Bit(b, i + 1); }
      EqualBits(a / 2, b / 2);
    }
  }

  // ---------------------------------------------------------------------------------------------
  // Fetching what was added

  /** The bytes of inst are in memory at this place. */
  ghost predicate At(mem: seq<nat>, at: nat, inst: nat) {
    at + 8 <= |mem| && mem[at..at + InstLength(inst)] == InstBytes(inst)
  }

  lemma BytesPrefix(n: nat, m: nat, d: nat)
    requires m <= n
    ensures Bytes(n, d)[..m] == Bytes(m, d)
    decreases m
  {
    if m > 0 {
      ShrNonNegative(d, 8);
      BytesPrefix(n - 1, m - 1, Shr(d, 8));
      assert Bytes(n, d)[..m] == [Unsigned(8, d)] + Bytes(n - 1, Shr(d, 8))[..m - 1];
    }
  }

  lemma LengthsAre(inst: nat)
    ensures InstLength(inst) == 0 || InstLength(inst) == 2 || 4 <= InstLength(inst) <= 8
  {
    hide And;
  }

  /** The low bits of the optimistic 32-bit read are those of the instruction. */
  lemma OptimisticRead(mem: seq<nat>, at: nat, inst: nat)
    requires At(mem, at, inst) && InstLength(inst) != 0
    ensures Unsigned(16, Load(mem, at, 4)) == Unsigned(16, inst)
    ensures Unsigned(7, Load(mem, at, 4)) == Unsigned(7, inst)
    ensures InstLength(inst) >= 4 ==> Load(mem, at, 4) == Unsigned(32, inst)
  {
    hide Unsigned, Shl, Bytes, Load, And, InstLength;
    LengthsAre(inst);
    var len := InstLength(inst);
    BytesPrefix(len, 2, inst);
    assert mem[at..at + 2] == mem[at..at + len][..2];
    LoadBytes(mem, at, 2, inst);
    LoadJoin(mem, at, 2, 2);
    LowUnaffected(16, 16, inst, Load(mem, at + 2, 2));
    LowUnaffected(7, 16, inst, Load(mem, at + 2, 2));
    if len >= 4 {
      BytesPrefix(len, 4, inst);
      assert mem[at..at + 4] == mem[at..at + len][..4];
      LoadBytes(mem, at, 4, inst);
    }
  }

  /** The last bytes of a 6 or 8 byte instruction. */
  lemma TailRead(mem: seq<nat>, at: nat, inst: nat, len: nat)
    requires at + 8 <= |mem| && 4 <= len <= 8 && mem[at..at + len] == Bytes(len, inst)
    ensures Load(mem, at, 4) + Shl(Load(mem, at + 4, len - 4), 32) == Unsigned(8 * len, inst)
  {
    hide Unsigned, Shl, Bytes, Load;
    LoadBytes(mem, at, len, inst);
    LoadJoin(mem, at, 4, len - 4);
  }

  /** Fetching at an added instruction gives back the instruction, truncated to its own length,
      and its length, whatever bytes follow it. */
  lemma FetchAdded(mem: seq<nat>, at: nat, inst: nat)
    requires At(mem, at, inst) && InstLength(inst) != 0
    ensures Fetch(mem, at) == Fetched(Unsigned(8 * InstLength(inst), inst), InstLength(inst))
  {
    hide Unsigned, Shl, Bytes, Load, And, Or, Pow2;
    var word := Load(mem, at, 4);
    OptimisticRead(mem, at, inst);
    LengthTests(word, inst);
    var len := InstLength(inst);
    if len == 2 {
      LowSixteen(word);
    } else if len > 4 {
      OrIsJoin(word, Load(mem, at + 4, len - 4), 32);
      TailRead(mem, at, inst, len);
    }
  }

  lemma LowSixteen(x: nat)
    ensures And(x, 0xffff) == Unsigned(16, x)
  {
    Pow2Values();
    AndMask(x, 16);
  }

  // ---------------------------------------------------------------------------------------------
  // Whole streams

  /** A word that add_inst writes out completely: a legal length, and no bits beyond it. */
  predicate WellFormedInst(inst: nat) {
    InstLength(inst) != 0 && inst < Pow2(8 * InstLength(inst))
  }

  function Stream(insts: seq<nat>): seq<nat> {
    if insts == [] then [] else InstBytes(insts[0]) + Stream(insts[1..])
  }

  class Section {
    var buf: seq<nat>

    constructor ()
      ensures buf == []
    {
      buf := [];
    }

    /** append(u16), append(u32), append(u64) */
    method Append(n: nat, d: nat)
      modifies this
      ensures buf == old(buf) + Bytes(n, d)
    {
      hide Bytes, Unsigned, Shr;
      var i, rest := 0, d;
      while i < n
        invariant 0 <= i <= n && rest >= 0
        invariant buf + Bytes(n - i, rest) == old(buf) + Bytes(n, d)
      {
        BytesCons(n - i, rest);
        buf := buf + [Unsigned(8, rest)];
        rest := Shr(rest, 8);
        i := i + 1;
      }
      assert buf + [] == buf;
    }

    /** add_inst */
    method AddInst(inst: nat)
      modifies this
      ensures buf == old(buf) + InstBytes(inst)
    {
      var len := InstLength(inst);
      if len == 2 {
        Append(2, inst);
      } else if len == 4 {
        Append(4, inst);
      } else if len == 6 {
        SplitBytes(4, 2, inst);
        Append(4, inst);
        ShrNonNegative(inst, 32);
        Append(2, Shr(inst, 32));
      } else if len == 8 {
        Append(8, inst);
      }
    }

    /** add_inst for each instruction of a program, in order. */
    method AddAll(insts: seq<nat>)
      modifies this
      ensures buf == old(buf) + Stream(insts)
    {
      hide InstBytes, Stream;
      assert insts[0..] == insts;
      var i := 0;
      while i < |insts|
        invariant 0 <= i <= |insts|
        invariant buf + Stream(insts[i..]) == old(buf) + Stream(insts)
      {
        StreamStep(insts, i);
        ghost var before, bytes, rest := buf, InstBytes(insts[i]), Stream(insts[i + 1..]);
        AddInst(insts[i]);
        assert (before + bytes) + rest == before + (bytes + rest);
        i := i + 1;
      }
      StreamNothing(insts[i..]);
      assert buf + [] == buf;
    }
  }

  lemma StreamNothing(insts: seq<nat>)
    requires insts == []
    ensures Stream(insts) == []
  {}

  lemma StreamStep(insts: seq<nat>, i: nat)
    requires i < |insts|
    ensures Stream(insts[i..]) == InstBytes(insts[i]) + Stream(insts[i + 1..])
  {
    hide InstBytes;
    assert insts[i..][0] == insts[i] && insts[i..][1..] == insts[i + 1..];
  }

  lemma {:induction false} SplitBytes(a: nat, b: nat, d: nat)
    ensures Shr(d, 8 * a) >= 0 && Bytes(a + b, d) == Bytes(a, d) + Bytes(b, Shr(d, 8 * a))
    decreases a
  {
    hide Bytes, Shr, Unsigned;
    ShrNonNegative(d, 8 * a);
    if a == 0 {
      NoShift(d);
    } else {
      ShrNonNegative(d, 8);
      SplitBytes(a - 1, b, Shr(d, 8));
      ShrShr(d, 8, 8 * (a - 1));
      BytesCons(a + b, d);
      BytesCons(a, d);
    }
  }

  lemma NoShift(d: int)
    ensures Shr(d, 0) == d
  {}

  lemma {:induction false} ShrShr(d: int, j: nat, k: nat)
    ensures Shr(Shr(d, j), k) == Shr(d, j + k)
    decreases j
  {
    if j > 0 { ShrShr(d / 2, j - 1, k); }
  }

  /** The linear sweep over a buffer of instructions.  The host reads up to eight bytes at the last
      instruction, so some readable bytes follow the buffer; the result does not depend on them. */
  method Sweep(mem: seq<nat>, ghost insts: seq<nat>, end: nat) returns (found: seq<nat>)
    requires forall i :: 0 <= i < |insts| ==> WellFormedInst(insts[i])
    requires end == |Stream(insts)| && end + 8 <= |mem| && mem[..end] == Stream(insts)
    ensures found == insts
  {
    found := [];
    var pc := 0;
    ghost var n := 0;
    while pc < end
      invariant 0 <= n <= |insts| && pc <= end
      invariant mem[pc..end] == Stream(insts[n..])
      invariant found == insts[..n]
      decreases end - pc
    {
      hide InstLength, Bytes, Fetch;
      SweepStep(mem, insts, n, pc, end);
      var f := Fetch(mem, pc);
      found := found + [f.inst];
      pc := pc + f.offset;
      n := n + 1;
    }
    NothingLeftToSweep(insts, n);
  }

  lemma SweepStep(mem: seq<nat>, insts: seq<nat>, n: nat, pc: nat, end: nat)
    requires n <= |insts| && pc < end && end + 8 <= |mem| && mem[pc..end] == Stream(insts[n..])
    requires forall i :: 0 <= i < |insts| ==> WellFormedInst(insts[i])
    ensures n < |insts| && Fetch(mem, pc) == Fetched(insts[n], InstLength(insts[n]))
    ensures 0 < InstLength(insts[n]) <= end - pc && mem[pc + InstLength(insts[n])..end] == Stream(insts[n + 1..])
  {
    hide InstLength, Bytes, Fetch, Pow2, Unsigned;
    assert insts[n..] != [];
    var tail := insts[n..];
    assert tail[0] == insts[n] && tail[1..] == insts[n + 1..];
    var len, rest := InstLength(insts[n]), Stream(insts[n + 1..]);
    assert mem[pc..end] == InstBytes(insts[n]) + rest;
    assert mem[pc..pc + len] == mem[pc..end][..len];
    assert mem[pc + len..end] == mem[pc..end][len..];
    FetchAdded(mem, pc, insts[n]);
    UnsignedSmall(8 * len, insts[n]);
  }

  lemma NothingLeftToSweep(insts: seq<nat>, n: nat)
    requires n <= |insts| && Stream(insts[n..]) == []
    requires forall i :: 0 <= i < |insts| ==> WellFormedInst(insts[i])
    ensures insts[..n] == insts
  {
    hide InstLength, Bytes, Pow2;
    if n < |insts| { StreamNonEmpty(insts[n..]); }
  }

  lemma StreamNonEmpty(insts: seq<nat>)
    requires insts != [] && InstLength(insts[0]) != 0
    ensures Stream(insts) != []
  {
    hide InstLength, Bytes;
    assert |InstBytes(insts[0])| > 0;
  }
}
