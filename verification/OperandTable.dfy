/**
  src/asm/operands.h: the operands of every instruction format, and the proof that each of them
  is a well-formed bit permutation.  The layouts are those of section 2.3 and chapter 12 of the
  RISC-V User-Level ISA v2.2.
 */
module OperandTable {
  import opened Operands

  /** operand_rd, operand_rs1, ...: the operands that the encoders and decoders use, and after them
      those that only the instruction formats of the documentation name. */
  datatype OperandName =
    | OpRd | OpRs1 | OpRs2 | OpRs3 | OpAq | OpRl | OpPred | OpSucc
    | OpRm | OpImm20 | OpJimm20 | OpImm12 | OpCsr12 | OpSimm12 | OpSbimm12 | OpShamt5
    | OpShamt6 | OpShamt7 | OpCrdq | OpCrs1q | OpCrs1rdq | OpCrs2q | OpCrd | OpCrs1
    | OpCrs1rd | OpCrs2 | OpCimmsh5 | OpCimmsh6 | OpCimmi | OpCimmui | OpCimmlwsp | OpCimmldsp
    | OpCimmlqsp | OpCimm16sp | OpCimmj | OpCimmb | OpCimmswsp | OpCimmsdsp | OpCimmsqsp | OpCimm4spn
    | OpCimmw | OpCimmd | OpCimmq
    | OpFrd | OpFrs1 | OpFrs2 | OpFrs3 | OpOimm20 | OpOimm12 | OpZimm | OpCrd0
    | OpCfrdq | OpCfrs2q | OpCfrs2 | OpCfrd | OpCnzimmi

  const RD := Operand(false, 5, [S(11, 7, [B(4, 0)])])
  const RS1 := Operand(false, 5, [S(19, 15, [B(4, 0)])])
  const RS2 := Operand(false, 5, [S(24, 20, [B(4, 0)])])
  const RS3 := Operand(false, 5, [S(31, 27, [B(4, 0)])])
  const AQ := Operand(false, 1, [S(26, 26, [B(0, 0)])])
  const RL := Operand(false, 1, [S(25, 25, [B(0, 0)])])
  const PRED := Operand(false, 4, [S(27, 24, [B(3, 0)])])
  const SUCC := Operand(false, 4, [S(23, 20, [B(3, 0)])])
  const RM := Operand(false, 3, [S(14, 12, [B(2, 0)])])
  const IMM20 := Operand(true, 32, [S(31, 12, [B(31, 12)])])
  const JIMM20 := Operand(true, 21, [S(31, 12, [B(20, 20), B(10, 1), B(11, 11), B(19, 12)])])
  const IMM12 := Operand(true, 12, [S(31, 20, [B(11, 0)])])
  const CSR12 := Operand(false, 12, [S(31, 20, [B(11, 0)])])
  const SIMM12 := Operand(true, 12, [S(31, 25, [B(11, 5)]), S(11, 7, [B(4, 0)])])
  const SBIMM12 := Operand(true, 13, [S(31, 25, [B(12, 12), B(10, 5)]), S(11, 7, [B(4, 1), B(11, 11)])])
  const SHAMT6 := Operand(false, 6, [S(25, 20, [B(5, 0)])])
  const SHAMT7 := Operand(false, 7, [S(26, 20, [B(6, 0)])])
  const CRD0 := Operand(false, 1, [S(12, 12, [B(0, 0)])])
  const CRDQ := Operand(false, 3, [S(4, 2, [B(2, 0)])])
  const CRS1Q := Operand(false, 3, [S(9, 7, [B(2, 0)])])
  const CRS2 := Operand(false, 5, [S(6, 2, [B(4, 0)])])
  const CIMMSH6 := Operand(false, 6, [S(12, 12, [B(5, 5)]), S(6, 2, [B(4, 0)])])
  const CIMMI := Operand(true, 6, [S(12, 12, [B(5, 5)]), S(6, 2, [B(4, 0)])])
  const CIMMUI := Operand(true, 18, [S(12, 12, [B(17, 17)]), S(6, 2, [B(16, 12)])])
  const CIMMLWSP := Operand(false, 8, [S(12, 12, [B(5, 5)]), S(6, 2, [B(4, 2), B(7, 6)])])
  const CIMMLDSP := Operand(false, 9, [S(12, 12, [B(5, 5)]), S(6, 2, [B(4, 3), B(8, 6)])])
  const CIMMLQSP := Operand(false, 10, [S(12, 12, [B(5, 5)]), S(6, 2, [B(4, 4), B(9, 6)])])
  const CIMM16SP := Operand(true, 10, [S(12, 12, [B(9, 9)]), S(6, 2, [B(4, 4), B(6, 6), B(8, 7), B(5, 5)])])
  const CIMMJ := Operand(true, 12, [S(12, 2, [B(11, 11), B(4, 4), B(9, 8), B(10, 10), B(6, 6), B(7, 7), B(3, 1),
                                              B(5, 5)])])
  const CIMMB := Operand(true, 9, [S(12, 10, [B(8, 8), B(4, 3)]), S(6, 2, [B(7, 6), B(2, 1), B(5, 5)])])
  const CIMMSWSP := Operand(false, 8, [S(12, 7, [B(5, 2), B(7, 6)])])
  const CIMMSDSP := Operand(false, 9, [S(12, 7, [B(5, 3), B(8, 6)])])
  const CIMMSQSP := Operand(false, 10, [S(12, 7, [B(5, 4), B(9, 6)])])
  const CIMM4SPN := Operand(false, 10, [S(12, 5, [B(5, 4), B(9, 6), B(2, 2), B(3, 3)])])
  const CIMMW := Operand(false, 7, [S(12, 10, [B(5, 3)]), S(6, 5, [B(2, 2), B(6, 6)])])
  const CIMMD := Operand(false, 8, [S(12, 10, [B(5, 3)]), S(6, 5, [B(7, 6)])])
  const CIMMQ := Operand(false, 9, [S(12, 10, [B(5, 4), B(8, 8)]), S(6, 5, [B(7, 6)])])

  function Spec(name: OperandName): Operand {
    match name
    case OpRd | OpCrd | OpCrs1 | OpCrs1rd | OpFrd | OpCfrd => RD
    case OpRs1 | OpFrs1 | OpZimm => RS1
    case OpRs2 | OpShamt5 | OpFrs2 => RS2
    case OpRs3 | OpFrs3 => RS3
    case OpAq => AQ
    case OpRl => RL
    case OpPred => PRED
    case OpSucc => SUCC
    case OpRm => RM
    case OpImm20 | OpOimm20 => IMM20
    case OpJimm20 => JIMM20
    case OpImm12 | OpOimm12 => IMM12
    case OpCsr12 => CSR12
    case OpSimm12 => SIMM12
    case OpSbimm12 => SBIMM12
    case OpShamt6 => SHAMT6
    case OpShamt7 => SHAMT7
    case OpCrd0 => CRD0
    case OpCrdq | OpCrs2q | OpCfrdq | OpCfrs2q => CRDQ
    case OpCrs1q | OpCrs1rdq => CRS1Q
    case OpCrs2 | OpCimmsh5 | OpCfrs2 => CRS2
    case OpCimmsh6 => CIMMSH6
    case OpCimmi | OpCnzimmi => CIMMI
    case OpCimmui => CIMMUI
    case OpCimmlwsp => CIMMLWSP
    case OpCimmldsp => CIMMLDSP
    case OpCimmlqsp => CIMMLQSP
    case OpCimm16sp => CIMM16SP
    case OpCimmj => CIMMJ
    case OpCimmb => CIMMB
    case OpCimmswsp => CIMMSWSP
    case OpCimmsdsp => CIMMSDSP
    case OpCimmsqsp => CIMMSQSP
    case OpCimm4spn => CIMM4SPN
    case OpCimmw => CIMMW
    case OpCimmd => CIMMD
    case OpCimmq => CIMMQ
  }

  /** The operands that are one run of bits. */
  lemma RunsWellFormed()
    ensures Strips(RD.segments) == [Strip(7, 0, 5)] && WellFormed(RD)
    ensures Strips(RS1.segments) == [Strip(15, 0, 5)] && WellFormed(RS1)
    ensures Strips(RS2.segments) == [Strip(20, 0, 5)] && WellFormed(RS2)
    ensures Strips(RS3.segments) == [Strip(27, 0, 5)] && WellFormed(RS3)
    ensures Strips(AQ.segments) == [Strip(26, 0, 1)] && WellFormed(AQ)
    ensures Strips(RL.segments) == [Strip(25, 0, 1)] && WellFormed(RL)
    ensures Strips(PRED.segments) == [Strip(24, 0, 4)] && WellFormed(PRED)
    ensures Strips(SUCC.segments) == [Strip(20, 0, 4)] && WellFormed(SUCC)
    ensures Strips(RM.segments) == [Strip(12, 0, 3)] && WellFormed(RM)
    ensures Strips(IMM20.segments) == [Strip(12, 12, 20)] && WellFormed(IMM20)
    ensures Strips(IMM12.segments) == [Strip(20, 0, 12)] && WellFormed(IMM12)
    ensures Strips(CSR12.segments) == [Strip(20, 0, 12)] && WellFormed(CSR12)
    ensures Strips(SHAMT6.segments) == [Strip(20, 0, 6)] && WellFormed(SHAMT6)
    ensures Strips(SHAMT7.segments) == [Strip(20, 0, 7)] && WellFormed(SHAMT7)
    ensures Strips(CRDQ.segments) == [Strip(2, 0, 3)] && WellFormed(CRDQ)
    ensures Strips(CRS1Q.segments) == [Strip(7, 0, 3)] && WellFormed(CRS1Q)
    ensures Strips(CRS2.segments) == [Strip(2, 0, 5)] && WellFormed(CRS2)
  {
    hide WellFormed, Strips;
    OneStrip(RD, 11, 7, 4, 0);
    OneStrip(RS1, 19, 15, 4, 0);
    OneStrip(RS2, 24, 20, 4, 0);
    OneStrip(RS3, 31, 27, 4, 0);
    OneStrip(AQ, 26, 26, 0, 0);
    OneStrip(RL, 25, 25, 0, 0);
    OneStrip(PRED, 27, 24, 3, 0);
    OneStrip(SUCC, 23, 20, 3, 0);
    OneStrip(RM, 14, 12, 2, 0);
    OneStrip(IMM20, 31, 12, 31, 12);
    OneStrip(IMM12, 31, 20, 11, 0);
    OneStrip(CSR12, 31, 20, 11, 0);
    OneStrip(SHAMT6, 25, 20, 5, 0);
    OneStrip(SHAMT7, 26, 20, 6, 0);
    OneStrip(CRDQ, 4, 2, 2, 0);
    OneStrip(CRS1Q, 9, 7, 2, 0);
    OneStrip(CRS2, 6, 2, 4, 0);
  }

  // The scattered operands, with their wiring.

  lemma Jimm20Strips()
    ensures Strips(JIMM20.segments) == [Strip(31, 20, 1), Strip(21, 1, 10), Strip(20, 11, 1), Strip(12, 12, 8)]
  {}

  lemma Jimm20Apart()
    ensures CheckStrips([Strip(31, 20, 1), Strip(21, 1, 10), Strip(20, 11, 1), Strip(12, 12, 8)], 21)
  {}

  lemma Jimm20Segments()
    ensures CheckSegments(JIMM20.segments)
  {}

  lemma Jimm20Wiring()
    ensures Strips(JIMM20.segments) ==
      [Strip(31, 20, 1), Strip(21, 1, 10), Strip(20, 11, 1), Strip(12, 12, 8)]
    ensures WellFormed(JIMM20)
  {
    hide Strips, CheckStrips, CheckSegments, WellFormed;
    Jimm20Strips();
    Jimm20Apart();
    Jimm20Segments();
    Checked(JIMM20, [Strip(31, 20, 1), Strip(21, 1, 10), Strip(20, 11, 1), Strip(12, 12, 8)], 0);
  }

  lemma Simm12Wiring()
    ensures Strips(SIMM12.segments) == [Strip(25, 5, 7), Strip(7, 0, 5)] && WellFormed(SIMM12)
  {
    var strips := [Strip(25, 5, 7), Strip(7, 0, 5)];
    assert Strips(SIMM12.segments) == strips;
    assert CheckStrips(strips, SIMM12.width);
    Checked(SIMM12, strips, 0);
  }

  lemma Sbimm12Strips()
    ensures Strips(SBIMM12.segments) == [Strip(31, 12, 1), Strip(25, 5, 6), Strip(8, 1, 4), Strip(7, 11, 1)]
  {}

  lemma Sbimm12Apart()
    ensures CheckStrips([Strip(31, 12, 1), Strip(25, 5, 6), Strip(8, 1, 4), Strip(7, 11, 1)], 13)
  {}

  lemma Sbimm12Segments()
    ensures CheckSegments(SBIMM12.segments)
  {}

  lemma Sbimm12Wiring()
    ensures Strips(SBIMM12.segments) ==
      [Strip(31, 12, 1), Strip(25, 5, 6), Strip(8, 1, 4), Strip(7, 11, 1)]
    ensures WellFormed(SBIMM12)
  {
    hide Strips, CheckStrips, CheckSegments, WellFormed;
    Sbimm12Strips();
    Sbimm12Apart();
    Sbimm12Segments();
    Checked(SBIMM12, [Strip(31, 12, 1), Strip(25, 5, 6), Strip(8, 1, 4), Strip(7, 11, 1)], 0);
  }

  lemma Cimmsh6Wiring()
    ensures Strips(CIMMSH6.segments) == [Strip(12, 5, 1), Strip(2, 0, 5)] && WellFormed(CIMMSH6)
  {
    var strips := [Strip(12, 5, 1), Strip(2, 0, 5)];
    assert Strips(CIMMSH6.segments) == strips;
    assert CheckStrips(strips, CIMMSH6.width);
    Checked(CIMMSH6, strips, 0);
  }

  lemma CimmiWiring()
    ensures Strips(CIMMI.segments) == [Strip(12, 5, 1), Strip(2, 0, 5)] && WellFormed(CIMMI)
  {
    var strips := [Strip(12, 5, 1), Strip(2, 0, 5)];
    assert Strips(CIMMI.segments) == strips;
    assert CheckStrips(strips, CIMMI.width);
    Checked(CIMMI, strips, 0);
  }

  lemma CimmuiWiring()
    ensures Strips(CIMMUI.segments) == [Strip(12, 17, 1), Strip(2, 12, 5)] && WellFormed(CIMMUI)
  {
    var strips := [Strip(12, 17, 1), Strip(2, 12, 5)];
    assert Strips(CIMMUI.segments) == strips;
    assert CheckStrips(strips, CIMMUI.width);
    Checked(CIMMUI, strips, 0);
  }

  lemma CimmlwspWiring()
    ensures Strips(CIMMLWSP.segments) == [Strip(12, 5, 1), Strip(4, 2, 3), Strip(2, 6, 2)] && WellFormed(CIMMLWSP)
  {
    var strips := [Strip(12, 5, 1), Strip(4, 2, 3), Strip(2, 6, 2)];
    assert Strips(CIMMLWSP.segments) == strips;
    assert CheckStrips(strips, CIMMLWSP.width);
    Checked(CIMMLWSP, strips, 2);
  }

  lemma CimmldspWiring()
    ensures Strips(CIMMLDSP.segments) == [Strip(12, 5, 1), Strip(5, 3, 2), Strip(2, 6, 3)] && WellFormed(CIMMLDSP)
  {
    var strips := [Strip(12, 5, 1), Strip(5, 3, 2), Strip(2, 6, 3)];
    assert Strips(CIMMLDSP.segments) == strips;
    assert CheckStrips(strips, CIMMLDSP.width);
    Checked(CIMMLDSP, strips, 2);
  }

  lemma CimmlqspWiring()
    ensures Strips(CIMMLQSP.segments) == [Strip(12, 5, 1), Strip(6, 4, 1), Strip(2, 6, 4)] && WellFormed(CIMMLQSP)
  {
    var strips := [Strip(12, 5, 1), Strip(6, 4, 1), Strip(2, 6, 4)];
    assert Strips(CIMMLQSP.segments) == strips;
    assert CheckStrips(strips, CIMMLQSP.width);
    Checked(CIMMLQSP, strips, 2);
  }

  lemma Cimm16spStrips()
    ensures Strips(CIMM16SP.segments) ==
      [Strip(12, 9, 1), Strip(6, 4, 1), Strip(5, 6, 1), Strip(3, 7, 2), Strip(2, 5, 1)]
  {}

  lemma Cimm16spApart()
    ensures CheckStrips([Strip(12, 9, 1), Strip(6, 4, 1), Strip(5, 6, 1), Strip(3, 7, 2), Strip(2, 5, 1)], 10)
  {}

  lemma Cimm16spSegments()
    ensures CheckSegments(CIMM16SP.segments)
  {}

  lemma Cimm16spWiring()
    ensures Strips(CIMM16SP.segments) ==
      [Strip(12, 9, 1), Strip(6, 4, 1), Strip(5, 6, 1), Strip(3, 7, 2), Strip(2, 5, 1)]
    ensures WellFormed(CIMM16SP)
  {
    hide Strips, CheckStrips, CheckSegments, WellFormed;
    Cimm16spStrips();
    Cimm16spApart();
    Cimm16spSegments();
    Checked(CIMM16SP, [Strip(12, 9, 1), Strip(6, 4, 1), Strip(5, 6, 1), Strip(3, 7, 2), Strip(2, 5, 1)], 0);
  }

  lemma CimmjStrips()
    ensures Strips(CIMMJ.segments) ==
      [Strip(12, 11, 1), Strip(11, 4, 1), Strip(9, 8, 2), Strip(8, 10, 1), Strip(7, 6, 1), Strip(6, 7, 1),
       Strip(3, 1, 3), Strip(2, 5, 1)]
  {}

  lemma CimmjApart()
    ensures CheckStrips([Strip(12, 11, 1), Strip(11, 4, 1), Strip(9, 8, 2), Strip(8, 10, 1), Strip(7, 6, 1),
      Strip(6, 7, 1), Strip(3, 1, 3), Strip(2, 5, 1)], 12)
  {}

  lemma CimmjSegments()
    ensures CheckSegments(CIMMJ.segments)
  {}

  lemma CimmjWiring()
    ensures Strips(CIMMJ.segments) ==
      [Strip(12, 11, 1), Strip(11, 4, 1), Strip(9, 8, 2), Strip(8, 10, 1), Strip(7, 6, 1), Strip(6, 7, 1),
       Strip(3, 1, 3), Strip(2, 5, 1)]
    ensures WellFormed(CIMMJ)
  {
    hide Strips, CheckStrips, CheckSegments, WellFormed;
    CimmjStrips();
    CimmjApart();
    CimmjSegments();
    Checked(CIMMJ, [Strip(12, 11, 1), Strip(11, 4, 1), Strip(9, 8, 2), Strip(8, 10, 1), Strip(7, 6, 1),
      Strip(6, 7, 1), Strip(3, 1, 3), Strip(2, 5, 1)], 0);
  }

  lemma CimmbStrips()
    ensures Strips(CIMMB.segments) == [Strip(12, 8, 1), Strip(10, 3, 2), Strip(5, 6, 2), Strip(3, 1, 2), Strip(2, 5, 1)]
  {}

  lemma CimmbApart()
    ensures CheckStrips([Strip(12, 8, 1), Strip(10, 3, 2), Strip(5, 6, 2), Strip(3, 1, 2), Strip(2, 5, 1)], 9)
  {}

  lemma CimmbSegments()
    ensures CheckSegments(CIMMB.segments)
  {}

  lemma CimmbWiring()
    ensures Strips(CIMMB.segments) ==
      [Strip(12, 8, 1), Strip(10, 3, 2), Strip(5, 6, 2), Strip(3, 1, 2), Strip(2, 5, 1)]
    ensures WellFormed(CIMMB)
  {
    hide Strips, CheckStrips, CheckSegments, WellFormed;
    CimmbStrips();
    CimmbApart();
    CimmbSegments();
    Checked(CIMMB, [Strip(12, 8, 1), Strip(10, 3, 2), Strip(5, 6, 2), Strip(3, 1, 2), Strip(2, 5, 1)], 0);
  }

  lemma CimmswspWiring()
    ensures Strips(CIMMSWSP.segments) == [Strip(9, 2, 4), Strip(7, 6, 2)] && WellFormed(CIMMSWSP)
  {
    var strips := [Strip(9, 2, 4), Strip(7, 6, 2)];
    assert Strips(CIMMSWSP.segments) == strips;
    assert CheckStrips(strips, CIMMSWSP.width);
    Checked(CIMMSWSP, strips, 1);
  }

  lemma CimmsdspWiring()
    ensures Strips(CIMMSDSP.segments) == [Strip(10, 3, 3), Strip(7, 6, 3)] && WellFormed(CIMMSDSP)
  {
    var strips := [Strip(10, 3, 3), Strip(7, 6, 3)];
    assert Strips(CIMMSDSP.segments) == strips;
    assert CheckStrips(strips, CIMMSDSP.width);
    Checked(CIMMSDSP, strips, 1);
  }

  lemma CimmsqspWiring()
    ensures Strips(CIMMSQSP.segments) == [Strip(11, 4, 2), Strip(7, 6, 4)] && WellFormed(CIMMSQSP)
  {
    var strips := [Strip(11, 4, 2), Strip(7, 6, 4)];
    assert Strips(CIMMSQSP.segments) == strips;
    assert CheckStrips(strips, CIMMSQSP.width);
    Checked(CIMMSQSP, strips, 1);
  }

  lemma Cimm4spnStrips()
    ensures Strips(CIMM4SPN.segments) == [Strip(11, 4, 2), Strip(7, 6, 4), Strip(6, 2, 1), Strip(5, 3, 1)]
  {}

  lemma Cimm4spnApart()
    ensures CheckStrips([Strip(11, 4, 2), Strip(7, 6, 4), Strip(6, 2, 1), Strip(5, 3, 1)], 10)
  {}

  lemma Cimm4spnSegments()
    ensures CheckSegments(CIMM4SPN.segments)
  {}

  lemma Cimm4spnWiring()
    ensures Strips(CIMM4SPN.segments) ==
      [Strip(11, 4, 2), Strip(7, 6, 4), Strip(6, 2, 1), Strip(5, 3, 1)]
    ensures WellFormed(CIMM4SPN)
  {
    hide Strips, CheckStrips, CheckSegments, WellFormed;
    Cimm4spnStrips();
    Cimm4spnApart();
    Cimm4spnSegments();
    Checked(CIMM4SPN, [Strip(11, 4, 2), Strip(7, 6, 4), Strip(6, 2, 1), Strip(5, 3, 1)], 1);
  }

  lemma CimmwWiring()
    ensures Strips(CIMMW.segments) == [Strip(10, 3, 3), Strip(6, 2, 1), Strip(5, 6, 1)] && WellFormed(CIMMW)
  {
    var strips := [Strip(10, 3, 3), Strip(6, 2, 1), Strip(5, 6, 1)];
    assert Strips(CIMMW.segments) == strips;
    assert CheckStrips(strips, CIMMW.width);
    Checked(CIMMW, strips, 2);
  }

  lemma CimmdWiring()
    ensures Strips(CIMMD.segments) == [Strip(10, 3, 3), Strip(5, 6, 2)] && WellFormed(CIMMD)
  {
    var strips := [Strip(10, 3, 3), Strip(5, 6, 2)];
    assert Strips(CIMMD.segments) == strips;
    assert CheckStrips(strips, CIMMD.width);
    Checked(CIMMD, strips, 1);
  }

  lemma CimmqWiring()
    ensures Strips(CIMMQ.segments) == [Strip(11, 4, 2), Strip(10, 8, 1), Strip(5, 6, 2)] && WellFormed(CIMMQ)
  {
    var strips := [Strip(11, 4, 2), Strip(10, 8, 1), Strip(5, 6, 2)];
    assert Strips(CIMMQ.segments) == strips;
    assert CheckStrips(strips, CIMMQ.width);
    Checked(CIMMQ, strips, 1);
  }

  /** Every operand of operands.h is well formed. */
  lemma AllWellFormed(name: OperandName)
    ensures WellFormed(Spec(name))
  {
    hide WellFormed, Strips;
    RunsWellFormed();
    OneStrip(CRD0, 12, 12, 0, 0);
    Jimm20Wiring();
    Simm12Wiring();
    Sbimm12Wiring();
    Cimmsh6Wiring();
    CimmiWiring();
    CimmuiWiring();
    CimmlwspWiring();
    CimmldspWiring();
    CimmlqspWiring();
    Cimm16spWiring();
    CimmjWiring();
    CimmbWiring();
    CimmswspWiring();
    CimmsdspWiring();
    CimmsqspWiring();
    Cimm4spnWiring();
    CimmwWiring();
    CimmdWiring();
    CimmqWiring();
  }
}
