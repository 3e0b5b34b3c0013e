/**
  Pseudoinstructions as words: what encode_pseudo (src/asm/codec.h) and the encoders make of the constraint
  lists in meta/pseudos.
 */
module Pseudos {
  import opened Bits
  import opened Codecs
  import opened Layouts
  import opened CodecLayouts
  import opened Constraints

  predicate Register(r: int) { 0 <= r < 32 }

  lemma ImposedOne(a: Constraint, d: Decoded)
    ensures ImposeAll([a], d) == Impose(a, d)
  {
    hide Impose;
    assert [a][1..] == [];
  }

  lemma ImposedTwo(a: Constraint, b: Constraint, d: Decoded)
    ensures ImposeAll([a, b], d) == Impose(b, Impose(a, d))
  {
    hide Impose;
    assert [a, b][1..] == [b];
    ImposedOne(b, Impose(a, d));
  }

  /** The control and status registers that have pseudoinstructions, by the numbers of the RISC-V User-Level
      ISA v2.2: fflags, frm, fcsr, cycle, time, instret and the high halves. */
  function CsrNumber(c: Constraint): nat {
    match c
    case CsrEq001 => 0x001
    case CsrEq002 => 0x002
    case CsrEq003 => 0x003
    case CsrEqC00 => 0xc00
    case CsrEqC01 => 0xc01
    case CsrEqC02 => 0xc02
    case CsrEqC80 => 0xc80
    case CsrEqC81 => 0xc81
    case CsrEqC82 => 0xc82
    case _ => 0
  }

  /** Reading such a register is a csrrs of its number with x0. */
  lemma CsrReads(c: Constraint, d: Decoded)
    requires Register(d.rd) && CsrNumber(c) != 0
    ensures EncodeFormat(I_CSR, ImposeAll([Rs1EqX0, c], d)) == d.rd * 0x80 + CsrNumber(c) * 0x10_0000
  {
    hide I_CSR, EncodeFormat, DecodeFormat, Part, Pow2, Impose, CsrNumber;
    MorePlaces();
    ImposedTwo(Rs1EqX0, c, d);
    CsrSets(c, d);
    var e := ImposeAll([Rs1EqX0, c], d);
    ICsrLayout(e, 0, d);
    PartIs(e.rd, 5, 7);
    PartIs(0, 5, 15);
    PartIs(CsrNumber(c), 12, 20);
  }

  lemma CsrSets(c: Constraint, d: Decoded)
    requires CsrNumber(c) != 0
    ensures Impose(c, Impose(Rs1EqX0, d)) == d.(rs1 := 0, imm := CsrNumber(c)) && CsrNumber(c) < 0x1000
  {}

  lemma MorePlaces()
    ensures Pow2(5) == 0x20 && Pow2(7) == 0x80 && Pow2(12) == 0x1000 && Pow2(15) == 0x8000 && Pow2(20) == 0x10_0000
    ensures Pow2(64) > 0
  {
    hide Pow2;
    Pow2Values();
    Pow2Add(7, 8);
  }

  /** not is xori with all ones. */
  lemma NotWord(d: Decoded)
    requires Register(d.rd) && Register(d.rs1)
    ensures EncodeFormat(I, ImposeAll([ImmEqN1], d)) == d.rd * 0x80 + d.rs1 * 0x8000 + 0xfff0_0000
  {
    hide I, EncodeFormat, DecodeFormat, Part, Pow2;
    MorePlaces();
    ImposedOne(ImmEqN1, d);
    ILayout(d.(imm := -1), 0, d);
    PartIs(d.rd, 5, 7);
    PartIs(d.rs1, 5, 15);
    AllOnes();
  }

  /** seqz is sltiu with 1. */
  lemma SeqzWord(d: Decoded)
    requires Register(d.rd) && Register(d.rs1)
    ensures EncodeFormat(I, ImposeAll([ImmEqP1], d)) == d.rd * 0x80 + d.rs1 * 0x8000 + 0x10_0000
  {
    hide I, EncodeFormat, DecodeFormat, Part, Pow2;
    MorePlaces();
    ImposedOne(ImmEqP1, d);
    ILayout(d.(imm := 1), 0, d);
    PartIs(d.rd, 5, 7);
    PartIs(d.rs1, 5, 15);
    PartIs(1, 12, 20);
  }

  /** ret is jalr x0, 0(x1). */
  lemma RetWord(d: Decoded)
    requires d.imm == 0
    ensures EncodeFormat(I, ImposeAll([RdEqX0, Rs1EqRa], d)) == 0x8000
  {
    hide I, EncodeFormat, DecodeFormat, Part, Pow2, ImposeAll;
    MorePlaces();
    RetSets(d);
    ILayout(d.(rd := 0, rs1 := 1), 0, d);
    PartIs(0, 5, 7);
    PartIs(1, 5, 15);
    PartIs(0, 12, 20);
  }

  lemma RetSets(d: Decoded)
    ensures ImposeAll([RdEqX0, Rs1EqRa], d) == d.(rd := 0, rs1 := 1)
  {
    ImposedTwo(RdEqX0, Rs1EqRa, d);
  }

  /** fmv, fabs and fneg name their source twice. */
  lemma MoveWord(d: Decoded)
    requires Register(d.rd) && Register(d.rs1)
    ensures EncodeFormat(R, ImposeAll([Rs2EqRs1], d)) == d.rd * 0x80 + d.rs1 * 0x8000 + d.rs1 * 0x10_0000
  {
    hide R, EncodeFormat, DecodeFormat, Part, Pow2;
    MorePlaces();
    ImposedOne(Rs2EqRs1, d);
    RLayout(d.(rs2 := d.rs1), 0, d);
    PartIs(d.rd, 5, 7);
    PartIs(d.rs1, 5, 15);
    PartIs(d.rs1, 5, 20);
  }

  lemma AllOnes()
    ensures Part(-1, 11, 0, 20) == 0xfff0_0000
  {
    hide Unsigned, Shl, Pow2;
    Pow2Values();
    ShlPow2(0, 12);
    SplitUnique(-1, 12, -1, 0xfff);
    ShlIsMul(0xfff, 20);
    Unshifted(-1);
  }

  lemma Unshifted(x: int)
    ensures Shr(x, 0) == x
  {}

  /** The table gives rdinstreth the register of rdcycleh. */
  const RDCYCLEH := [Rs1EqX0, CsrEqC80]
  const RDINSTRETH := [Rs1EqX0, CsrEqC80]

  /** So an rdinstreth that is encoded and decoded comes back as rdcycleh, which stands before it. */
  lemma InstretReadsCycle(t: Tables, op: nat, k: nat, m: nat, d: Decoded)
    requires Paired(t) && k < m < |t.pseudo(op)| && t.pseudo(op)[k].op != t.pseudo(op)[m].op
    requires t.pseudo(op)[k].constraints == RDCYCLEH && t.pseudo(op)[m].constraints == RDINSTRETH
    requires forall i :: 0 <= i < m ==> t.pseudo(op)[i].op != t.pseudo(op)[m].op
    ensures var p := Inst(t.pseudo(op)[m].op, t.codec(t.pseudo(op)[m].op), d);
            Pseudo(t, Unpseudo(t, p)) != p.(fields := Unpseudo(t, p).fields)
  {
    hide MeetsAll, ImposeAll, FirstMatch, Paired;
    UnpseudoRoundTrip(t, op, m, d);
    var rows := t.pseudo(op);
    var e := ImposeAll(rows[m].constraints, d);
    CycleRegister(d);
    assert MeetsAll(rows[k].constraints, e);
  }

  lemma CycleRegister(d: Decoded)
    ensures MeetsAll(RDCYCLEH, ImposeAll(RDINSTRETH, d))
  {
    hide ImposeAll;
    ImposedTwo(Rs1EqX0, CsrEqC80, d);
  }
}
