/**
  Static address recovery in the disassembler: decode_pairs (src/asm/disasm.h) and the upkeep of the
  instruction history (src/asm/disasm.cc), proved sound against the execution of the instructions
  that were listed.
 */
module AddressPairs {
  import opened Bits
  import opened Options
  import opened LoadImm

  datatype Op =
    | OpIllegal | OpLui | OpAuipc | OpAddi | OpJal | OpJalr
    | OpLd | OpLb | OpLh | OpLw | OpLbu | OpLhu | OpLwu | OpFlw | OpFld
    | OpSd | OpSb | OpSh | OpSw | OpFsw | OpFsd
    | OpOther(id: nat)

  /** The fields of struct disasm that matter here.  Instructions without a destination have rd 0. */
  datatype Entry = Entry(op: Op, rd: nat, rs1: nat, imm: int, pc: int)

  datatype Addressing = Nowhere | Absolute | PcRelative
  datatype Row = Row(op1: Op, op2: Op, addr: Addressing)

  const ROWS: seq<Row> := [
    Row(OpLui, OpAddi, Absolute),
    Row(OpAuipc, OpAddi, PcRelative), Row(OpAuipc, OpJalr, PcRelative),
    Row(OpAuipc, OpLd, PcRelative), Row(OpAuipc, OpLb, PcRelative), Row(OpAuipc, OpLh, PcRelative),
    Row(OpAuipc, OpLw, PcRelative), Row(OpAuipc, OpLbu, PcRelative), Row(OpAuipc, OpLhu, PcRelative),
    Row(OpAuipc, OpLwu, PcRelative), Row(OpAuipc, OpFlw, PcRelative), Row(OpAuipc, OpFld, PcRelative),
    Row(OpAuipc, OpSd, PcRelative), Row(OpAuipc, OpSb, PcRelative), Row(OpAuipc, OpSh, PcRelative),
    Row(OpAuipc, OpSw, PcRelative), Row(OpAuipc, OpFsw, PcRelative), Row(OpAuipc, OpFsd, PcRelative),
    Row(OpIllegal, OpIllegal, Nowhere)]

  // ---------------------------------------------------------------------------------------------
  // What the scan finds

  /** The index of the last entry with that destination, or -1. */
  function LastWriter(hist: seq<Entry>, rd: nat): (j: int)
    ensures -1 <= j < |hist|
    ensures j >= 0 ==> hist[j].rd == rd
    ensures forall k :: j < k < |hist| ==> hist[k].rd != rd
  {
    if hist == [] then -1
    else if hist[|hist| - 1].rd == rd then |hist| - 1
    else LastWriter(hist[..|hist| - 1], rd)
  }

  /** li->imm + dec.imm in 32 bits, or li->pc - pc_bias + li->imm + dec.imm in 64 bits */
  function PairValue(a: Addressing, first: Entry, dec: Entry, bias: int): int {
    if a == Absolute then Signed(32, first.imm + dec.imm) else Signed(64, first.pc - bias + first.imm + dec.imm)
  }

  /** The address, if the last writer of rs1 pairs with the instruction under this row. */
  function RowResult(row: Row, dec: Entry, hist: seq<Entry>, bias: int): Option<int> {
    var j := LastWriter(hist, dec.rs1);
    if row.op2 == dec.op && j >= 0 && hist[j].op == row.op1 then Some(PairValue(row.addr, hist[j], dec, bias)) else None
  }

  function FirstResult(i: nat, dec: Entry, hist: seq<Entry>, bias: int): Option<int>
    requires i < |ROWS|
    decreases |ROWS| - i
  {
    if ROWS[i].addr == Nowhere || i == |ROWS| - 1 then None
    else
      var r := RowResult(ROWS[i], dec, hist, bias);
      if r.Some? then r else FirstResult(i + 1, dec, hist, bias)
  }

  /** The address that decode_pairs recovers. */
  function Recover(dec: Entry, hist: seq<Entry>, bias: int): Option<int> {
    FirstResult(0, dec, hist, bias)
  }

  lemma RowsEnd()
    ensures |ROWS| == 19 && ROWS[18].addr == Nowhere
    ensures forall i :: 0 <= i < 18 ==> ROWS[i].addr != Nowhere
  {}

  /** One row: the reverse scan. */
  method ScanRow(row: Row, dec: Entry, hist: seq<Entry>, bias: int) returns (r: Option<int>)
    requires row.addr != Nowhere
    ensures r == RowResult(row, dec, hist, bias)
  {
    hide Signed, LastWriter;
    r := None;
    if row.op2 == dec.op {
      var i := |hist|;
      while i > 0
        invariant 0 <= i <= |hist| && forall k :: i <= k < |hist| ==> hist[k].rd != dec.rs1
      {
        var li := hist[i - 1];
        if row.op1 != li.op && dec.rs1 == li.rd {
          WriterIs(hist, dec.rs1, i - 1);
          return;
        }
        if row.op1 != li.op || dec.rs1 != li.rd {
          i := i - 1;
          continue;
        }
        WriterIs(hist, dec.rs1, i - 1);
        return Some(PairValue(row.addr, li, dec, bias));
      }
    }
  }

  lemma WriterIs(hist: seq<Entry>, rd: nat, j: nat)
    requires j < |hist| && hist[j].rd == rd && forall k :: j < k < |hist| ==> hist[k].rd != rd
    ensures LastWriter(hist, rd) == j
  {
    hide LastWriter;
    var w := LastWriter(hist, rd);
    assert w >= j ==> w == j;
  }

  /** decode_pairs */
  method DecodePairs(dec: Entry, hist: seq<Entry>, bias: int) returns (r: Option<int>)
    ensures r == Recover(dec, hist, bias)
  {
    hide RowResult;
    RowsEnd();
    var i := 0;
    while ROWS[i].addr != Nowhere
      invariant 0 <= i < |ROWS|
      invariant Recover(dec, hist, bias) == FirstResult(i, dec, hist, bias)
      decreases |ROWS| - i
    {
      r := ScanRow(ROWS[i], dec, hist, bias);
      if r.Some? { return; }
      i := i + 1;
    }
    return None;
  }

  /** An address is recovered exactly when the last writer of rs1 in the history pairs with the
      instruction in some row, and it is the value of that row. */
  lemma RecoverExactly(dec: Entry, hist: seq<Entry>, bias: int, a: int)
    ensures Recover(dec, hist, bias) == Some(a) <==>
      exists i :: 0 <= i < 18 && RowResult(ROWS[i], dec, hist, bias) == Some(a)
  {
    hide RowResult, ROWS;
    RowsEnd();
    RowsDiffer();
    FirstIs(0, dec, hist, bias);
    if i :| 0 <= i < 18 && RowResult(ROWS[i], dec, hist, bias) == Some(a) {
      forall k | 0 <= k < 18 && k != i ensures RowResult(ROWS[k], dec, hist, bias) == None {
        OneRow(ROWS[i], ROWS[k], dec, hist, bias);
      }
    }
  }

  lemma {:induction false} FirstIs(i: nat, dec: Entry, hist: seq<Entry>, bias: int)
    requires i <= 18 && |ROWS| == 19 && ROWS[18].addr == Nowhere
    requires forall k :: 0 <= k < 18 ==> ROWS[k].addr != Nowhere
    ensures FirstResult(i, dec, hist, bias).Some? ==>
      exists k :: i <= k < 18 && RowResult(ROWS[k], dec, hist, bias) == FirstResult(i, dec, hist, bias)
    ensures FirstResult(i, dec, hist, bias).None? ==> forall k :: i <= k < 18 ==>
      RowResult(ROWS[k], dec, hist, bias) == None
    decreases 18 - i
  {
    hide RowResult, ROWS;
    if i < 18 { FirstIs(i + 1, dec, hist, bias); }
  }

  /** No pair of instructions occurs in two rows. */
  lemma RowsDiffer()
    ensures |ROWS| == 19 && forall i, k :: 0 <= i < k < 18 ==> ROWS[i].op1 != ROWS[k].op1 || ROWS[i].op2 != ROWS[k].op2
  {}

  lemma OneRow(r: Row, q: Row, dec: Entry, hist: seq<Entry>, bias: int)
    requires r.op1 != q.op1 || r.op2 != q.op2
    requires RowResult(r, dec, hist, bias).Some?
    ensures RowResult(q, dec, hist, bias) == None
  {}

  /** An instruction whose operand is the sum of rs1 and an immediate. */
  predicate UsesSum(op: Op) {
    !op.OpIllegal? && !op.OpLui? && !op.OpAuipc? && !op.OpJal? && !op.OpOther?
  }

  /** The table without its rows: lui pairs with addi, auipc with every instruction that uses the sum. */
  lemma RowsAre(first: Op, second: Op, addr: Addressing)
    ensures (exists i :: 0 <= i < 18 && ROWS[i] == Row(first, second, addr))
       <==> (first.OpLui? && second.OpAddi? && addr == Absolute)
            || (first.OpAuipc? && UsesSum(second) && addr == PcRelative)
  {
    if first.OpLui? && second.OpAddi? && addr == Absolute { assert ROWS[0] == Row(first, second, addr); }
    if first.OpAuipc? && UsesSum(second) && addr == PcRelative { AuipcRow(second); }
  }

  lemma AuipcRow(second: Op)
    requires UsesSum(second)
    ensures exists i :: 0 <= i < 18 && ROWS[i] == Row(OpAuipc, second, PcRelative)
  {
    var i := match second
      case OpAddi => 1 case OpJalr => 2 case OpLd => 3 case OpLb => 4 case OpLh => 5 case OpLw => 6 case OpLbu => 7
      case OpLhu => 8 case OpLwu => 9 case OpFlw => 10 case OpFld => 11 case OpSd => 12 case OpSb => 13
      case OpSh => 14 case OpSw => 15 case OpFsw => 16 case _ => 17;
    assert ROWS[i] == Row(OpAuipc, second, PcRelative);
  }

  /** What is recovered, by the last writer of rs1 alone. */
  lemma RecoverMeans(dec: Entry, hist: seq<Entry>, bias: int)
    ensures var j := LastWriter(hist, dec.rs1);
            Recover(dec, hist, bias) == (
              if j >= 0 && hist[j].op.OpLui? && dec.op.OpAddi? then Some(Signed(32, hist[j].imm + dec.imm))
              else if j >= 0 && hist[j].op.OpAuipc? && UsesSum(dec.op)
              then Some(Signed(64, hist[j].pc - bias + hist[j].imm + dec.imm))
              else None)
  {
    hide ROWS, Recover, Signed, LastWriter, UsesSum;
    RowsEnd();
    var j := LastWriter(hist, dec.rs1);
    if j >= 0 {
      RowsAre(hist[j].op, dec.op, Absolute);
      RowsAre(hist[j].op, dec.op, PcRelative);
      RowsAre(hist[j].op, dec.op, Nowhere);
    }
    var r := Recover(dec, hist, bias);
    if r.Some? {
      RecoverExactly(dec, hist, bias, r.value);
      var i :| 0 <= i < 18 && RowResult(ROWS[i], dec, hist, bias) == r;
      assert ROWS[i] == Row(hist[j].op, dec.op, ROWS[i].addr);
    }
    if j >= 0 && hist[j].op.OpLui? && dec.op.OpAddi? {
      Recovers(dec, hist, bias, j, Absolute);
    } else if j >= 0 && hist[j].op.OpAuipc? && UsesSum(dec.op) {
      Recovers(dec, hist, bias, j, PcRelative);
    }
  }

  lemma Recovers(dec: Entry, hist: seq<Entry>, bias: int, j: nat, addr: Addressing)
    requires j == LastWriter(hist, dec.rs1)
    requires exists i :: 0 <= i < 18 && ROWS[i] == Row(hist[j].op, dec.op, addr)
    ensures Recover(dec, hist, bias) == Some(PairValue(addr, hist[j], dec, bias))
  {
    hide ROWS, Recover, PairValue, LastWriter;
    RowsEnd();
    var a := PairValue(addr, hist[j], dec, bias);
    var i :| 0 <= i < 18 && ROWS[i] == Row(hist[j].op, dec.op, addr);
    assert RowResult(ROWS[i], dec, hist, bias) == Some(a);
    RecoverExactly(dec, hist, bias, a);
  }

  // ---------------------------------------------------------------------------------------------
  // Execution

  predicate Jump(op: Op) {
    op.OpJal? || op.OpJalr?
  }

  /** One listed instruction from registers x to registers y.  lui and auipc load their value; a jump
      may come back with any registers; any other instruction changes at most its destination. */
  ghost predicate Steps(e: Entry, x: Regs, y: Regs, bias: int) {
    && ValidRegs(x) && ValidRegs(y) && FitsSigned(32, e.imm)
    && (!Jump(e.op) ==> forall k :: 0 <= k < 32 && k != e.rd ==> y[k] == x[k])
    && (e.op.OpLui? && 0 < e.rd < 32 ==> y[e.rd] == Unsigned(64, e.imm))
    && (e.op.OpAuipc? && 0 < e.rd < 32 ==> y[e.rd] == Unsigned(64, e.pc - bias + e.imm))
  }

  /** The registers before each listed instruction and after the last. */
  ghost predicate Executes(trace: seq<Entry>, states: seq<Regs>, bias: int) {
    && |states| == |trace| + 1
    && (forall k :: 0 <= k < |states| ==> |states[k]| == 32)
    && forall k :: 0 <= k < |trace| ==> Steps(trace[k], states[k], states[k + 1], bias)
  }

  /** A register keeps its value while nothing writes it and nothing jumps. */
  lemma {:induction false} Keeps(trace: seq<Entry>, states: seq<Regs>, bias: int, from: nat, r: nat)
    requires Executes(trace, states, bias) && from <= |trace| && r < 32
    requires forall k :: from <= k < |trace| ==> trace[k].rd != r && !Jump(trace[k].op)
    ensures states[|trace|][r] == states[from][r]
    decreases |trace| - from
  {
    hide ValidRegs, Unsigned;
    if from < |trace| {
      assert Steps(trace[from], states[from], states[from + 1], bias);
      Keeps(trace, states, bias, from + 1, r);
    }
  }

  /** Jumps occur at most at the start. */
  ghost predicate JumpsFirst(hist: seq<Entry>) {
    forall k :: 0 < k < |hist| ==> !Jump(hist[k].op)
  }

  /** What the last writer loaded is what rs1 holds. */
  lemma WriterValue(hist: seq<Entry>, states: seq<Regs>, bias: int, r: nat)
    requires Executes(hist, states, bias) && JumpsFirst(hist) && 0 < r < 32
    requires var j := LastWriter(hist, r); j >= 0 && (hist[j].op.OpLui? || hist[j].op.OpAuipc?)
    ensures var e := hist[LastWriter(hist, r)];
            states[|hist|][r] == Unsigned(64, if e.op.OpLui? then e.imm else e.pc - bias + e.imm)
  {
    hide ValidRegs, Unsigned, LastWriter;
    var j := LastWriter(hist, r);
    assert Steps(hist[j], states[j], states[j + 1], bias);
    Keeps(hist, states, bias, j + 1, r);
  }

  /** The operand sum rs1 + imm, an unsigned 64-bit word. */
  function OperandSum(x: Regs, dec: Entry): int
    requires dec.rs1 < |x|
  {
    Unsigned(64, x[dec.rs1] + dec.imm)
  }

  /** The row pairs lui absolutely and auipc relative to the pc. */
  lemma RowKinds(i: nat)
    requires i < 18
    ensures |ROWS| == 19
    ensures ROWS[i].op1 == (if ROWS[i].addr == Absolute then OpLui else OpAuipc) && ROWS[i].addr != Nowhere
  {}

  ghost predicate RightAddress(a: int, x: Regs, dec: Entry) {
    dec.rs1 < |x| && Unsigned(64, a) == OperandSum(x, dec)
  }

  /** The last writer is a lui or auipc, and the 32-bit sum with lui does not overflow. */
  ghost predicate PairedWithoutOverflow(hist: seq<Entry>, dec: Entry) {
    var j := LastWriter(hist, dec.rs1);
    j >= 0 && (hist[j].op.OpAuipc? || (hist[j].op.OpLui? && FitsSigned(32, hist[j].imm + dec.imm)))
  }

  /** Soundness, for histories of any length: an address recovered for an instruction whose base is
      not x0 is the sum that execution computes, exactly when no 32-bit overflow occurred in the
      absolute case. */
  lemma RecoveredIsComputed(dec: Entry, hist: seq<Entry>, states: seq<Regs>, bias: int, a: int)
    requires Executes(hist, states, bias) && JumpsFirst(hist) && 0 < dec.rs1 < 32 && FitsSigned(32, dec.imm)
    requires Recover(dec, hist, bias) == Some(a)
    ensures RightAddress(a, states[|hist|], dec) <==> PairedWithoutOverflow(hist, dec)
  {
    hide Unsigned, Pow2, LastWriter, ValidRegs, ROWS, Recover, WrapsNot, Signed, PairValue, FitsSigned, OperandSum;
    RowsEnd();
    RecoverExactly(dec, hist, bias, a);
    var i :| 0 <= i < 18 && RowResult(ROWS[i], dec, hist, bias) == Some(a);
    RowKinds(i);
    var j := LastWriter(hist, dec.rs1);
    WriterValue(hist, states, bias, dec.rs1);
    var v := if hist[j].op.OpLui? then hist[j].imm else hist[j].pc - bias + hist[j].imm;
    SumIs(states[|hist|], dec, v);
    PairValueIs(ROWS[i].addr, hist[j], dec, bias, v);
    assert Steps(hist[j], states[j], states[j + 1], bias);
    WrapsNotMeans(hist[j].imm, dec.imm);
  }

  /** The value is the same modulo 2^64 after conversion to a 32-bit integer. */
  predicate WrapsNot(v: int) {
    Cong(64, Signed(32, v), v)
  }

  lemma WrapsNotMeans(x: int, y: int)
    requires FitsSigned(32, x) && FitsSigned(32, y)
    ensures WrapsNot(x + y) <==> FitsSigned(32, x + y)
  {
    hide Unsigned, Pow2;
    Pow2Values();
    SignedIdentity(32, x + y);
    if WrapsNot(x + y) { CongUnique(64, Signed(32, x + y), x + y); }
  }

  lemma SumIs(x: Regs, dec: Entry, v: int)
    requires dec.rs1 < |x| && x[dec.rs1] == Unsigned(64, v)
    ensures OperandSum(x, dec) == Unsigned(64, v + dec.imm)
  {
    hide Unsigned;
    CongSelf(64, v);
    CongRefl(64, dec.imm);
    CongAdd(64, Unsigned(64, v), v, dec.imm, dec.imm);
  }

  lemma PairValueIs(addr: Addressing, first: Entry, dec: Entry, bias: int, v: int)
    requires addr != Nowhere && v == if addr == Absolute then first.imm else first.pc - bias + first.imm
    ensures Unsigned(64, PairValue(addr, first, dec, bias)) == Unsigned(64, v + dec.imm)
       <==> (addr == Absolute ==> WrapsNot(first.imm + dec.imm))
  {
    hide Unsigned, Signed;
    if addr != Absolute { CongSigned(64, v + dec.imm); }
  }

  /** With base x0 a recovered address is right exactly if the paired value is zero: x0 reads 0 whatever
      lui or auipc was asked to put there. */
  lemma BaseX0(dec: Entry, hist: seq<Entry>, x: Regs, bias: int, a: int, j: nat)
    requires ValidRegs(x) && dec.rs1 == 0 && Recover(dec, hist, bias) == Some(a) && FitsSigned(32, dec.imm)
    requires j < |hist| && j == LastWriter(hist, 0) && FitsSigned(32, hist[j].imm)
    ensures RightAddress(a, x, dec) <==> LoadedZero(hist[j], bias)
  {
    hide Unsigned, Pow2, LastWriter, ROWS, Recover, Signed, PairValue, WrapsNot, FitsSigned;
    RowsEnd();
    RecoverExactly(dec, hist, bias, a);
    var i :| 0 <= i < 18 && RowResult(ROWS[i], dec, hist, bias) == Some(a);
    RowKinds(i);
    X0Value(ROWS[i].addr, hist[j], dec, bias);
  }

  ghost predicate LoadedZero(e: Entry, bias: int) {
    Unsigned(64, if e.op.OpLui? then e.imm else e.pc - bias + e.imm) == 0
  }

  lemma X0Value(addr: Addressing, e: Entry, dec: Entry, bias: int)
    requires FitsSigned(32, dec.imm) && FitsSigned(32, e.imm) && addr != Nowhere
    requires e.op == if addr == Absolute then OpLui else OpAuipc
    ensures Unsigned(64, PairValue(addr, e, dec, bias)) == Unsigned(64, 0 + dec.imm) <==> LoadedZero(e, bias)
  {
    hide Unsigned, Pow2, Signed;
    if addr == Absolute {
      Pow2Values();
      ZeroIsZero(64);
      ZeroIsZero(32);
      AbsoluteX0(e.imm, dec.imm);
    } else {
      var v := e.pc - bias + e.imm;
      CongSigned(64, v + dec.imm);
      ZeroBase(v, dec.imm);
    }
  }

  lemma AbsoluteX0(x: int, y: int)
    requires FitsSigned(32, x) && FitsSigned(32, y)
    ensures Cong(64, Signed(32, x + y), y) <==> Cong(64, x, 0)
  {
    hide Unsigned, Pow2;
    Pow2Values();
    SignedIdentity(32, y);
    if Cong(64, x, 0) { CongUnique(64, x, 0); }
    if Cong(64, Signed(32, x + y), y) {
      CongUnique(64, Signed(32, x + y), y);
      CongSigned(32, x + y);
      CongRefl(32, y);
      CongSub(32, x + y, y, y, y);
      assert x + y - y == x && y - y == 0;
      CongUnique(32, x, 0);
    }
  }

  lemma ZeroBase(v: int, imm: int)
    ensures Unsigned(64, v + imm) == Unsigned(64, 0 + imm) <==> Unsigned(64, v) == 0
  {
    hide Unsigned, Pow2;
    ZeroIsZero(64);
    CongRefl(64, imm);
    if Cong(64, v + imm, 0 + imm) { CongSub(64, v + imm, 0 + imm, imm, imm); }
    if Cong(64, v, 0) { CongAdd(64, v, 0, imm, imm); }
  }

  // ---------------------------------------------------------------------------------------------
  // The history

  const BUFFER_LENGTH: nat := 16

  /** The history after listing one more instruction. */
  function Push(hist: seq<Entry>, dec: Entry): seq<Entry> {
    var longer := (if Jump(dec.op) then [] else hist) + [dec];
    if |longer| > BUFFER_LENGTH then longer[1..] else longer
  }

  /** The history after a whole listing. */
  function Kept(trace: seq<Entry>): seq<Entry> {
    if trace == [] then [] else Push(Kept(trace[..|trace| - 1]), trace[|trace| - 1])
  }

  /** The history is the end of the listing, at most 16 instructions, back to the last jump. */
  lemma {:induction false} KeptIsSuffix(trace: seq<Entry>)
    ensures |Kept(trace)| <= |trace| && |Kept(trace)| <= BUFFER_LENGTH
    ensures Kept(trace) == trace[|trace| - |Kept(trace)|..] && JumpsFirst(Kept(trace))
  {
    if trace != [] {
      var n := |trace| - 1;
      KeptIsSuffix(trace[..n]);
      PushIsSuffix(trace[..n], Kept(trace[..n]), trace[n]);
      assert trace == trace[..n] + [trace[n]];
    }
  }

  /** hist is the end of trace. */
  ghost predicate EndOf(hist: seq<Entry>, trace: seq<Entry>) {
    |hist| <= |trace| && hist == trace[|trace| - |hist|..]
  }

  lemma PushIsSuffix(init: seq<Entry>, h: seq<Entry>, dec: Entry)
    requires EndOf(h, init) && |h| <= BUFFER_LENGTH && JumpsFirst(h)
    ensures EndOf(Push(h, dec), init + [dec]) && |Push(h, dec)| <= BUFFER_LENGTH && JumpsFirst(Push(h, dec))
  {
    var t, longer := init + [dec], h + [dec];
    assert longer == t[|t| - |longer|..];
    if Jump(dec.op) {
      assert [] + [dec] == t[|t| - 1..];
    } else if |longer| > BUFFER_LENGTH {
      assert longer[1..] == t[|t| - |longer| + 1..];
    }
  }

  /** No longer end of the listing would do: at most 16 instructions of which only the first is a jump. */
  lemma {:induction false} KeptIsLongest(trace: seq<Entry>, h: seq<Entry>)
    requires EndOf(h, trace) && |h| <= BUFFER_LENGTH && JumpsFirst(h)
    ensures |h| <= |Kept(trace)|
    decreases |trace|
  {
    if trace != [] && h != [] {
      var n, m := |trace| - 1, |h| - 1;
      assert h[m] == trace[n];
      assert h[..m] == trace[..n][n - m..];
      KeptIsLongest(trace[..n], h[..m]);
    }
  }

  class Listing {
    var hist: seq<Entry>
    ghost var trace: seq<Entry>

    ghost predicate Valid()
      reads this
    {
      hist == Kept(trace)
    }

    constructor ()
      ensures Valid() && trace == []
    {
      hist, trace := [], [];
    }

    /** The address decoding and the history upkeep of disasm_inst_print. */
    method Inst(dec: Entry, bias: int) returns (r: Option<int>)
      requires Valid()
      modifies this
      ensures Valid() && trace == old(trace) + [dec]
      ensures r == Recover(dec, Kept(old(trace)), bias)
    {
      hide Recover, Kept;
      r := DecodePairs(dec, hist, bias);
      KeptStep(trace, dec);
      if Jump(dec.op) { hist := []; }
      hist := hist + [dec];
      if |hist| > BUFFER_LENGTH { hist := hist[1..]; }
      trace := trace + [dec];
    }
  }

  lemma KeptStep(trace: seq<Entry>, dec: Entry)
    ensures Kept(trace + [dec]) == Push(Kept(trace), dec)
  {
    assert (trace + [dec])[..|trace|] == trace;
  }

  /** A shorter history recovers the same address or none. */
  lemma ShorterFindsLess(dec: Entry, hist: seq<Entry>, n: nat, bias: int, a: int)
    requires n <= |hist| && Recover(dec, hist[|hist| - n..], bias) == Some(a)
    ensures Recover(dec, hist, bias) == Some(a)
  {
    hide ROWS, Recover, PairValue, LastWriter;
    RowsEnd();
    var tail := hist[|hist| - n..];
    RecoverExactly(dec, tail, bias, a);
    RecoverExactly(dec, hist, bias, a);
    var i :| 0 <= i < 18 && RowResult(ROWS[i], dec, tail, bias) == Some(a);
    var j := LastWriter(tail, dec.rs1);
    forall k | |hist| - n + j < k < |hist| ensures hist[k].rd != dec.rs1 { assert hist[k] == tail[k - (|hist| - n)]; }
    WriterIs(hist, dec.rs1, |hist| - n + j);
    assert RowResult(ROWS[i], dec, hist, bias) == Some(a);
  }

  /** Over a whole listing, with calls that return with arbitrary registers: every address recovered for
      a base other than x0 is the one that execution computes at that point, but for 32-bit overflow
      in the absolute case. */
  lemma ListingIsSound(trace: seq<Entry>, states: seq<Regs>, dec: Entry, bias: int, a: int)
    requires Executes(trace, states, bias) && 0 < dec.rs1 < 32 && FitsSigned(32, dec.imm)
    requires Recover(dec, Kept(trace), bias) == Some(a)
    ensures RightAddress(a, states[|trace|], dec) <==> PairedWithoutOverflow(Kept(trace), dec)
  {
    hide Recover, Unsigned, Kept, OperandSum, ValidRegs, RightAddress, PairedWithoutOverflow, FitsSigned, Steps, Pow2;
    KeptIsSuffix(trace);
    var hist := Kept(trace);
    var n := |trace| - |hist|;
    SuffixExecutes(trace, states, bias, n);
    assert hist == trace[n..];
    assert states[n..][|hist|] == states[|trace|];
    RecoveredIsComputed(dec, hist, states[n..], bias, a);
  }

  lemma SuffixExecutes(trace: seq<Entry>, states: seq<Regs>, bias: int, n: nat)
    requires Executes(trace, states, bias) && n <= |trace|
    ensures Executes(trace[n..], states[n..], bias)
  {
    hide ValidRegs, Unsigned;
    forall k | 0 <= k < |trace[n..]| ensures Steps(trace[n..][k], states[n..][k], states[n..][k + 1], bias) {
      assert Steps(trace[n + k], states[n + k], states[n + k + 1], bias);
    }
  }

  /** auipc x0 followed by an addi from x0. */
  lemma X0IsMisread(x: Regs)
    requires ValidRegs(x)
    ensures var hist, dec := [Entry(OpAuipc, 0, 0, 0x1000, 0)], Entry(OpAddi, 1, 0, 0, 4);
            exists a :: Recover(dec, hist, 0) == Some(a) && !RightAddress(a, x, dec)
  {
    hide Unsigned, Pow2, Signed, Recover, ValidRegs, RightAddress;
    var e, dec := Entry(OpAuipc, 0, 0, 0x1000, 0), Entry(OpAddi, 1, 0, 0, 4);
    Pow2Values();
    UnsignedSmall(64, 0x1000);
    WriterIs([e], 0, 0);
    RowsEnd();
    var a := PairValue(PcRelative, e, dec, 0);
    assert RowResult(ROWS[1], dec, [e], 0) == Some(a);
    RecoverExactly(dec, [e], 0, a);
    BaseX0(dec, [e], x, 0, a, 0);
  }

  /** lui of the lowest value followed by an addi of -1: the recovered address wraps round in 32 bits, the
      executed sum does not. */
  lemma LuiWraps(x: Regs)
    requires ValidRegs(x)
    ensures var hist, dec := [Entry(OpLui, 5, 0, -0x8000_0000, 0)], Entry(OpAddi, 5, 5, -1, 4);
            var states := [x, Write(x, 5, -0x8000_0000)];
            && Executes(hist, states, 0)
            && Recover(dec, hist, 0) == Some(0x7fff_ffff) && !RightAddress(0x7fff_ffff, states[1], dec)
  {
    hide Unsigned, Pow2, Signed, Recover, RightAddress;
    Pow2Values();
    var e, dec := Entry(OpLui, 5, 0, -0x8000_0000, 0), Entry(OpAddi, 5, 5, -1, 4);
    var states := [x, Write(x, 5, -0x8000_0000)];
    assert Steps(e, states[0], states[1], 0);
    WriterIs([e], 5, 0);
    RowsEnd();
    WrappedSum();
    assert RowResult(ROWS[0], dec, [e], 0) == Some(0x7fff_ffff);
    RecoverExactly(dec, [e], 0, 0x7fff_ffff);
    RecoveredIsComputed(dec, [e], states, 0, 0x7fff_ffff);
  }

  lemma WrappedSum()
    ensures Signed(32, -0x8000_0001) == 0x7fff_ffff
  {
    hide Unsigned, Pow2, Shl;
    Pow2Values();
    ShlPow2(0, 32);
    SplitUnique(-0x8000_0001, 32, -1, 0x7fff_ffff);
  }
}
