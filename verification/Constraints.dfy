/**
  Operand constraints (src/asm/constraints.h) and the pseudoinstruction and compression lookups
  built on them (src/asm/codec.h).  The generated tables are parameters.
 */
module Constraints {
  import opened Codecs

  datatype Constraint =
    | Simm6 | Imm6 | Imm7 | Imm8 | Imm9 | Imm10 | Imm12 | Imm18
    | ImmNz | ImmX2 | ImmX4 | ImmX8 | ImmX16
    | RdB3 | Rs1B3 | Rs2B3
    | RdEqRs1 | RdEqRa | RdEqSp | RdEqX0
    | Rs1EqSp | Rs1EqX0 | Rs2EqX0
    | RdNeX0X2 | RdNeX0 | Rs1NeX0 | Rs2NeX0
    | Rs2EqRs1 | Rs1EqRa
    | ImmEqZero | ImmEqN1 | ImmEqP1
    | CsrEq001 | CsrEq002 | CsrEq003
    | CsrEqC00 | CsrEqC01 | CsrEqC02 | CsrEqC80 | CsrEqC81 | CsrEqC82

  predicate Meets(c: Constraint, d: Decoded) {
    match c
    case Simm6 => -32 <= d.imm < 32
    case Imm6 => d.imm <= 0x3f
    case Imm7 => d.imm <= 0x7f
    case Imm8 => d.imm <= 0xff
    case Imm9 => d.imm <= 0x1ff
    case Imm10 => d.imm <= 0x3ff
    case Imm12 => d.imm <= 0xfff
    case Imm18 => d.imm <= 0x3_ffff
    case ImmNz => d.imm != 0
    case ImmX2 => d.imm % 2 == 0
    case ImmX4 => d.imm % 4 == 0
    case ImmX8 => d.imm % 8 == 0
    case ImmX16 => d.imm % 16 == 0
    case RdB3 => 8 <= d.rd <= 15
    case Rs1B3 => 8 <= d.rs1 <= 15
    case Rs2B3 => 8 <= d.rs2 <= 15
    case RdEqRs1 => d.rd == d.rs1
    case RdEqRa => d.rd == 1
    case RdEqSp => d.rd == 2
    case RdEqX0 => d.rd == 0
    case Rs1EqSp => d.rs1 == 2
    case Rs1EqX0 => d.rs1 == 0
    case Rs2EqX0 => d.rs2 == 0
    case RdNeX0X2 => d.rd != 0 && d.rd != 2
    case RdNeX0 => d.rd != 0
    case Rs1NeX0 => d.rs1 != 0
    case Rs2NeX0 => d.rs2 != 0
    case Rs2EqRs1 => d.rs2 == d.rs1
    case Rs1EqRa => d.rs1 == 1
    case ImmEqZero => d.imm == 0
    case ImmEqN1 => d.imm == -1
    case ImmEqP1 => d.imm == 1
    case CsrEq001 => d.imm == 0x001
    case CsrEq002 => d.imm == 0x002
    case CsrEq003 => d.imm == 0x003
    case CsrEqC00 => d.imm == 0xc00
    case CsrEqC01 => d.imm == 0xc01
    case CsrEqC02 => d.imm == 0xc02
    case CsrEqC80 => d.imm == 0xc80
    case CsrEqC81 => d.imm == 0xc81
    case CsrEqC82 => d.imm == 0xc82
  }

  /** What constraint_set assigns: a field and a value, or nothing. */
  datatype Effect = Nothing | Assigns(field: Field, value: int)

  function EffectOf(c: Constraint, d: Decoded): Effect {
    match c
    case RdEqRs1 => Assigns(Rd, d.rs1)
    case RdEqRa => Assigns(Rd, 1)
    case RdEqSp => Assigns(Rd, 2)
    case RdEqX0 => Assigns(Rd, 0)
    case Rs1EqSp => Assigns(Rs1, 2)
    case Rs1EqX0 => Assigns(Rs1, 0)
    case Rs2EqX0 => Assigns(Rs2, 0)
    case Rs2EqRs1 => Assigns(Rs2, d.rs1)
    case Rs1EqRa => Assigns(Rs1, 1)
    case ImmEqZero => Assigns(Imm, 0)
    case ImmEqN1 => Assigns(Imm, -1)
    case ImmEqP1 => Assigns(Imm, 1)
    case CsrEq001 => Assigns(Imm, 0x001)
    case CsrEq002 => Assigns(Imm, 0x002)
    case CsrEq003 => Assigns(Imm, 0x003)
    case CsrEqC00 => Assigns(Imm, 0xc00)
    case CsrEqC01 => Assigns(Imm, 0xc01)
    case CsrEqC02 => Assigns(Imm, 0xc02)
    case CsrEqC80 => Assigns(Imm, 0xc80)
    case CsrEqC81 => Assigns(Imm, 0xc81)
    case CsrEqC82 => Assigns(Imm, 0xc82)
    case _ => Nothing
  }

  function Impose(c: Constraint, d: Decoded): Decoded {
    match EffectOf(c, d)
    case Nothing => d
    case Assigns(f, v) => Set(d, f, v)
  }

  predicate MeetsAll(cs: seq<Constraint>, d: Decoded) {
    forall i :: 0 <= i < |cs| ==> Meets(cs[i], d)
  }

  function ImposeAll(cs: seq<Constraint>, d: Decoded): Decoded
    decreases cs
  {
    if cs == [] then d else ImposeAll(cs[1..], Impose(cs[0], d))
  }

  /** An assignment of a constraint that holds changes nothing. */
  lemma ImposeIdle(c: Constraint, d: Decoded)
    requires Meets(c, d)
    ensures Impose(c, d) == d
  {}

  /** If the check accepts a record, the set leaves it unchanged, for every constraint list. */
  lemma {:induction false} CheckedIsFixed(cs: seq<Constraint>, d: Decoded)
    requires MeetsAll(cs, d)
    ensures ImposeAll(cs, d) == d
    decreases cs
  {
    hide Meets, Impose;
    if cs != [] {
      assert Meets(cs[0], d);
      ImposeIdle(cs[0], d);
      forall i | 0 <= i < |cs[1..]| ensures Meets(cs[1..][i], d) { assert cs[1..][i] == cs[i + 1]; }
      CheckedIsFixed(cs[1..], d);
    }
  }

  // ---------------------------------------------------------------------------------------------
  // What setting establishes

  /** The value of a field after some assignments, in terms of the record before them. */
  datatype Sym = Own(f: Field) | Lit(v: int)
  datatype SymRecord = SymRecord(rd: Sym, rs1: Sym, rs2: Sym, imm: Sym)

  const UNTOUCHED := SymRecord(Own(Rd), Own(Rs1), Own(Rs2), Own(Imm))

  function Eval(s: Sym, d: Decoded): int {
    match s
    case Own(f) => Get(d, f)
    case Lit(v) => v
  }

  function Apply(s: SymRecord, d: Decoded): Decoded {
    d.(rd := Eval(s.rd, d), rs1 := Eval(s.rs1, d), rs2 := Eval(s.rs2, d), imm := Eval(s.imm, d))
  }

  function SymImpose(c: Constraint, s: SymRecord): SymRecord {
    match c
    case RdEqRs1 => s.(rd := s.rs1)
    case RdEqRa => s.(rd := Lit(1))
    case RdEqSp => s.(rd := Lit(2))
    case RdEqX0 => s.(rd := Lit(0))
    case Rs1EqSp => s.(rs1 := Lit(2))
    case Rs1EqX0 => s.(rs1 := Lit(0))
    case Rs2EqX0 => s.(rs2 := Lit(0))
    case Rs2EqRs1 => s.(rs2 := s.rs1)
    case Rs1EqRa => s.(rs1 := Lit(1))
    case ImmEqZero => s.(imm := Lit(0))
    case ImmEqN1 => s.(imm := Lit(-1))
    case ImmEqP1 => s.(imm := Lit(1))
    case CsrEq001 => s.(imm := Lit(0x001))
    case CsrEq002 => s.(imm := Lit(0x002))
    case CsrEq003 => s.(imm := Lit(0x003))
    case CsrEqC00 => s.(imm := Lit(0xc00))
    case CsrEqC01 => s.(imm := Lit(0xc01))
    case CsrEqC02 => s.(imm := Lit(0xc02))
    case CsrEqC80 => s.(imm := Lit(0xc80))
    case CsrEqC81 => s.(imm := Lit(0xc81))
    case CsrEqC82 => s.(imm := Lit(0xc82))
    case _ => s
  }

  function SymImposeAll(cs: seq<Constraint>, s: SymRecord): SymRecord
    decreases cs
  {
    if cs == [] then s else SymImposeAll(cs[1..], SymImpose(cs[0], s))
  }

  lemma SymStep(c: Constraint, s: SymRecord, d: Decoded)
    ensures Impose(c, Apply(s, d)) == Apply(SymImpose(c, s), d)
  {}

  /** Running a list on symbols says what it does to every record. */
  lemma {:induction false} SymRun(cs: seq<Constraint>, s: SymRecord, d: Decoded)
    ensures ImposeAll(cs, Apply(s, d)) == Apply(SymImposeAll(cs, s), d)
    decreases cs
  {
    hide Impose, Apply, SymImpose;
    if cs != [] {
      SymStep(cs[0], s, d);
      SymRun(cs[1..], SymImpose(cs[0], s), d);
    }
  }

  lemma UntouchedIs(d: Decoded)
    ensures Apply(UNTOUCHED, d) == d
  {}

  /** What a single assignment can leave in a register field. */
  predicate RegisterSym(s: Sym, own: Field) {
    s == Own(own) || s == Own(Rs1) || s == Lit(0) || s == Lit(1) || s == Lit(2)
  }

  predicate Reachable(s: SymRecord) {
    && RegisterSym(s.rd, Rd) && RegisterSym(s.rs1, Rs1) && RegisterSym(s.rs2, Rs2)
    && (s.imm == Own(Imm) || s.imm.Lit?)
  }

  lemma ReachableStep(c: Constraint, s: SymRecord)
    requires Reachable(s)
    ensures Reachable(SymImpose(c, s))
  {}

  lemma {:induction false} ReachableRun(cs: seq<Constraint>, s: SymRecord)
    requires Reachable(s)
    ensures Reachable(SymImposeAll(cs, s))
    decreases cs
  {
    hide Reachable, SymImpose;
    if cs != [] {
      ReachableStep(cs[0], s);
      ReachableRun(cs[1..], SymImpose(cs[0], s));
    }
  }

  /** The field that a constraint on one field speaks about. */
  function Subject(c: Constraint): Field {
    match c
    case RdB3 | RdEqRa | RdEqSp | RdEqX0 | RdNeX0X2 | RdNeX0 | RdEqRs1 => Rd
    case Rs1B3 | Rs1EqSp | Rs1EqX0 | Rs1NeX0 | Rs1EqRa => Rs1
    case Rs2B3 | Rs2EqX0 | Rs2NeX0 | Rs2EqRs1 => Rs2
    case _ => Imm
  }

  function SymOf(s: SymRecord, c: Constraint): Sym {
    match Subject(c)
    case Rd => s.rd
    case Rs1 => s.rs1
    case Rs2 => s.rs2
    case _ => s.imm
  }

  /** The constraint holds after the assignments whatever the record was: an equation because both sides
      are the same symbol, any other constraint because its field is a literal that meets it. */
  predicate SymMeets(c: Constraint, s: SymRecord) {
    match c
    case RdEqRs1 => s.rd == s.rs1
    case Rs2EqRs1 => s.rs2 == s.rs1
    case _ => SymOf(s, c).Lit? && Meets(c, Set(LOW, Subject(c), SymOf(s, c).v))
  }

  predicate SymMeetsAll(cs: seq<Constraint>, s: SymRecord) {
    forall i :: 0 <= i < |cs| ==> SymMeets(cs[i], s)
  }

  /** Two records that tell every constraint that does not hold by itself. */
  const LOW := Decoded(0, 0, 0, 0, 0, 0, 0, 0, 0, 0)
  const HIGH := Decoded(20, 21, 22, 0, 0x7fff_ffff, 0, 0, 0, 0, 0)

  lemma SymSound(c: Constraint, s: SymRecord, d: Decoded)
    requires SymMeets(c, s)
    ensures Meets(c, Apply(s, d))
  {}

  lemma SymComplete(c: Constraint, s: SymRecord)
    requires Reachable(s) && Meets(c, Apply(s, LOW)) && Meets(c, Apply(s, HIGH))
    ensures SymMeets(c, s)
  {
    if c.RdEqRs1? || c.Rs2EqRs1? { EquationComplete(c, s); }
    else if Subject(c) == Imm { ImmComplete(c, s); }
    else { RegisterComplete(c, s); }
  }

  lemma EquationComplete(c: Constraint, s: SymRecord)
    requires Reachable(s) && Meets(c, Apply(s, LOW)) && Meets(c, Apply(s, HIGH)) && (c.RdEqRs1? || c.Rs2EqRs1?)
    ensures SymMeets(c, s)
  {}

  lemma RegisterComplete(c: Constraint, s: SymRecord)
    requires Reachable(s) && Meets(c, Apply(s, LOW)) && Meets(c, Apply(s, HIGH))
    requires Subject(c) != Imm && !c.RdEqRs1? && !c.Rs2EqRs1?
    ensures SymMeets(c, s)
  {}

  lemma ImmComplete(c: Constraint, s: SymRecord)
    requires Reachable(s) && Meets(c, Apply(s, LOW)) && Meets(c, Apply(s, HIGH)) && Subject(c) == Imm
    ensures SymMeets(c, s)
  {}

  /** Setting the list on this record makes one that the check accepts. */
  predicate SetIsAccepted(cs: seq<Constraint>, d: Decoded) {
    MeetsAll(cs, ImposeAll(cs, d))
  }

  /** For every constraint list: setting it makes every record one that the check accepts, if and only if
      all its constraints hold of the symbols that it leaves, and if and only if it does so for two
      records. */
  lemma SetIsAcceptedWhen(cs: seq<Constraint>)
    ensures (forall d :: SetIsAccepted(cs, d)) <==> SymMeetsAll(cs, SymImposeAll(cs, UNTOUCHED))
    ensures (forall d :: SetIsAccepted(cs, d)) <==> SetIsAccepted(cs, LOW) && SetIsAccepted(cs, HIGH)
  {
    hide Meets, SymMeets, Apply, ImposeAll, SymImposeAll, Reachable;
    var s := SymImposeAll(cs, UNTOUCHED);
    UntouchedReachable();
    ReachableRun(cs, UNTOUCHED);
    forall d: Decoded ensures ImposeAll(cs, d) == Apply(s, d) {
      UntouchedIs(d);
      SymRun(cs, UNTOUCHED, d);
    }
    if SymMeetsAll(cs, s) {
      forall d: Decoded ensures SetIsAccepted(cs, d) {
        forall i | 0 <= i < |cs| ensures Meets(cs[i], Apply(s, d)) { SymSound(cs[i], s, d); }
      }
    }
    if forall d :: SetIsAccepted(cs, d) { assert SetIsAccepted(cs, LOW) && SetIsAccepted(cs, HIGH); }
    if SetIsAccepted(cs, LOW) && SetIsAccepted(cs, HIGH) {
      forall i | 0 <= i < |cs| ensures SymMeets(cs[i], s) { SymComplete(cs[i], s); }
    }
  }

  lemma UntouchedReachable()
    ensures Reachable(UNTOUCHED)
  {}

  /** Out of order it does not: rd = rs1 first, then rs1 = sp. */
  lemma OrderMatters()
    ensures !SetIsAccepted([RdEqRs1, Rs1EqSp], Decoded(5, 5, 0, 0, 0, 0, 0, 0, 0, 0))
  {
    var cs, d := [RdEqRs1, Rs1EqSp], Decoded(5, 5, 0, 0, 0, 0, 0, 0, 0, 0);
    assert cs[1..] == [Rs1EqSp] && cs[1..][1..] == [];
    assert ImposeAll(cs, d) == ImposeAll([Rs1EqSp], d) == d.(rs1 := 2);
    assert !Meets(cs[0], d.(rs1 := 2));
  }

  // ---------------------------------------------------------------------------------------------
  // Tables

  /** rv_comp_data */
  datatype Row = Row(op: nat, constraints: seq<Constraint>)

  /** rv_inst_pseudo (or rv_inst_comp_*), rv_inst_depseudo and rv_inst_codec */
  datatype Tables = Tables(pseudo: nat -> seq<Row>, depseudo: nat -> seq<Row>, codec: nat -> nat)

  /** The first row whose constraints hold. */
  function FirstMatch(rows: seq<Row>, d: Decoded): (k: nat)
    ensures k <= |rows| && forall i :: 0 <= i < k ==> !MeetsAll(rows[i].constraints, d)
    ensures k < |rows| ==> MeetsAll(rows[k].constraints, d)
  {
    if rows == [] then 0
    else if MeetsAll(rows[0].constraints, d) then 0
    else 1 + FirstMatch(rows[1..], d)
  }

  datatype Inst = Inst(op: nat, codec: nat, fields: Decoded)

  function Pseudo(t: Tables, i: Inst): Inst {
    var rows := t.pseudo(i.op);
    var k := FirstMatch(rows, i.fields);
    if k < |rows| then Inst(rows[k].op, t.codec(rows[k].op), i.fields) else i
  }

  /** rv_inst_depseudo holds at most one row per operation. */
  function Unpseudo(t: Tables, i: Inst): Inst {
    var rows := t.depseudo(i.op);
    if rows == [] then i
    else Inst(rows[0].op, t.codec(rows[0].op), ImposeAll(rows[0].constraints, i.fields))
  }

  /** Every row that turns op into a pseudo operation is undone by that operation's row. */
  ghost predicate Paired(t: Tables) {
    forall op, k :: 0 <= k < |t.pseudo(op)| ==>
      t.depseudo(t.pseudo(op)[k].op) == [Row(op, t.pseudo(op)[k].constraints)]
  }

  /** Pseudo decoding and then pseudo encoding restores the whole record. */
  lemma PseudoRoundTrip(t: Tables, i: Inst)
    requires Paired(t) && i.codec == t.codec(i.op)
    ensures Pseudo(t, i) == i || Unpseudo(t, Pseudo(t, i)) == i
    ensures FirstMatch(t.pseudo(i.op), i.fields) < |t.pseudo(i.op)| ==> Unpseudo(t, Pseudo(t, i)) == i
  {
    hide MeetsAll, ImposeAll, FirstMatch;
    var rows := t.pseudo(i.op);
    var k := FirstMatch(rows, i.fields);
    if k < |rows| { CheckedIsFixed(rows[k].constraints, i.fields); }
  }

  /** Pseudo encoding and then pseudo decoding gives back the pseudo operation if and only if the constraints
      that were set hold together and no earlier row of the table accepts the record.  k is the first
      row of its operation. */
  lemma UnpseudoRoundTrip(t: Tables, op: nat, k: nat, d: Decoded)
    requires Paired(t) && k < |t.pseudo(op)|
    requires forall i :: 0 <= i < k ==> t.pseudo(op)[i].op != t.pseudo(op)[k].op
    ensures var rows := t.pseudo(op);
            var p := Inst(rows[k].op, t.codec(rows[k].op), d);
            var base := Unpseudo(t, p);
            && base.op == op && base.fields == ImposeAll(rows[k].constraints, d)
            && (FirstMatch(rows, base.fields) < |rows| && Pseudo(t, base) == p.(fields := base.fields)
                <==> MeetsAll(rows[k].constraints, base.fields)
                     && forall i :: 0 <= i < k ==> !MeetsAll(rows[i].constraints, base.fields))
  {
    hide MeetsAll, ImposeAll, FirstMatch;
    var rows := t.pseudo(op);
    var e := ImposeAll(rows[k].constraints, d);
    var m := FirstMatch(rows, e);
    if MeetsAll(rows[k].constraints, e) && forall i :: 0 <= i < k ==> !MeetsAll(rows[i].constraints, e) {
      MatchIs(rows, e, k);
    }
    if m < |rows| && rows[m].op == rows[k].op {
      assert t.depseudo(rows[m].op) == [Row(op, rows[m].constraints)];
      assert rows[m].constraints == rows[k].constraints;
    }
  }

  // ---------------------------------------------------------------------------------------------
  // The operations

  class Record {
    var inst: Inst

    constructor (i: Inst)
      ensures inst == i
    {
      inst := i;
    }

    /** constraint_check */
    method ConstraintCheck(cs: seq<Constraint>) returns (ok: bool)
      ensures ok == MeetsAll(cs, inst.fields)
    {
      hide Meets;
      var i := 0;
      while i < |cs|
        invariant 0 <= i <= |cs| && forall k :: 0 <= k < i ==> Meets(cs[k], inst.fields)
      {
        if !Meets(cs[i], inst.fields) { return false; }
        i := i + 1;
      }
      return true;
    }

    /** constraint_set */
    method ConstraintSet(cs: seq<Constraint>)
      modifies this
      ensures inst == old(inst).(fields := ImposeAll(cs, old(inst.fields)))
      ensures MeetsAll(cs, old(inst.fields)) ==> inst == old(inst)
    {
      hide Impose, Meets, MeetsAll;
      var i := 0;
      while i < |cs|
        invariant 0 <= i <= |cs| && inst == old(inst).(fields := inst.fields)
        invariant ImposeAll(cs[i..], inst.fields) == ImposeAll(cs, old(inst.fields))
      {
        assert cs[i..][0] == cs[i] && cs[i..][1..] == cs[i + 1..];
        inst := inst.(fields := Impose(cs[i], inst.fields));
        i := i + 1;
      }
      if MeetsAll(cs, old(inst.fields)) { CheckedIsFixed(cs, old(inst.fields)); }
    }

    /** decode_pseudo_inst, compress_inst_rv32, _rv64 and _rv128, each with its own table */
    method DecodePseudo(t: Tables) returns (ok: bool)
      modifies this
      ensures inst == Pseudo(t, old(inst)) && inst.fields == old(inst.fields)
      ensures var rows := t.pseudo(old(inst.op));
              ok == exists k :: 0 <= k < |rows| && MeetsAll(rows[k].constraints, inst.fields)
    {
      hide MeetsAll;
      var rows := t.pseudo(inst.op);
      var k := 0;
      while k < |rows|
        invariant 0 <= k <= |rows| && inst == old(inst)
        invariant forall i :: 0 <= i < k ==> !MeetsAll(rows[i].constraints, inst.fields)
      {
        var accepted := ConstraintCheck(rows[k].constraints);
        if accepted {
          MatchIs(rows, inst.fields, k);
          inst := Inst(rows[k].op, t.codec(rows[k].op), inst.fields);
          return true;
        }
        k := k + 1;
      }
      return false;
    }

    /** encode_pseudo */
    method EncodePseudo(t: Tables) returns (ok: bool)
      modifies this
      ensures inst == Unpseudo(t, old(inst)) && ok == (t.depseudo(old(inst.op)) != [])
    {
      var rows := t.depseudo(inst.op);
      if rows == [] { return false; }
      inst := inst.(op := rows[0].op, codec := t.codec(rows[0].op));
      ConstraintSet(rows[0].constraints);
      return true;
    }
  }

  lemma MatchIs(rows: seq<Row>, d: Decoded, k: nat)
    requires k < |rows| && MeetsAll(rows[k].constraints, d)
    requires forall i :: 0 <= i < k ==> !MeetsAll(rows[i].constraints, d)
    ensures FirstMatch(rows, d) == k
  {
    hide MeetsAll, FirstMatch;
    var m := FirstMatch(rows, d);
    assert m <= k && k <= m;
  }
}
