/**
  Programs that link accepts and does not link as meant: a compressed jump whose relocation overwrites the
  return after it, and two programs whose %pcrel_lo misses its %pcrel_hi.
 */
module LinkExamples {
  import opened Bits
  import opened Options
  import opened Operands
  import opened OperandTable
  import opened Codecs
  import opened CodecRoundTrip
  import opened BaseFormats
  import opened InstBuffer
  import opened Relocation
  import opened Labels
  import opened Link
  import opened LinkMeaning
  import BaseIsa

  // ---------------------------------------------------------------------------------------------
  // A compressed jump

  /** The row of c.j in meta/opcodes. */
  predicate Cj(w: nat) {
    Unsigned(2, w) == 1 && Unsigned(3, Shr(w, 13)) == 5
  }

  /** The tables with that row: c.j is decoded with codec cj and decompressed to jal, which has codec uj. */
  function Codec(w: nat): Format { if Cj(w) then UJ else BaseIsa.Codec(w) }
  function Match(w: nat): nat { if Cj(w) then 0x6f else BaseIsa.Match(w) }
  function Record(w: nat): Decoded { if Cj(w) then DecodeFormat(CJ, w, BLANK) else BaseIsa.Record(w) }

  const WITH_CJ := Isa(Codec, Match, Record)

  /** A word with opcode jal, whatever its operands. */
  lemma JalLength(d: Decoded)
    ensures InstLength(Or(0x6f, EncodeFormat(UJ, d))) == 4
  {
    hide Bit, Or, And, Unsigned, Pow2, OperandBit, EncodeFormat, UJ, U, I, Codecs.S, SB, CarriesRecord;
    Pow2Values();
    var v := Or(0x6f, EncodeFormat(UJ, d));
    forall j: nat | OperandBit(UJ, j) ensures !Bit(0x6f, j) {
      FormatBits(j);
      HighBits(0x6f, 7, j);
    }
    forall k: nat | k < 7 ensures Bit(Unsigned(7, v), k) == Bit(Unsigned(7, 0x6f), k) {
      FormatBits(k);
      OrdInBits(UJ, 0x6f, d, k);
      BitUnsigned(7, v, k);
      BitUnsigned(7, 0x6f, k);
    }
    SameBits(Unsigned(7, v), Unsigned(7, 0x6f), 7);
    LengthTests(v, 0x6f);
    BaseIsa.OpcodeLength(0x6f);
  }

  /** Every relocated c.j becomes a four-byte jal. */
  lemma CjBecomesJal(w: nat, imm: int)
    requires Cj(w)
    ensures InstLength(Reencode(WITH_CJ, w, imm)) == 4
  {
    hide InstLength, EncodeFormat, DecodeFormat, UJ, Signed, Cj, Or;
    JalLength(Record(w).(imm := Signed(32, imm)));
  }

  /** c.j with offset 0: 0xa001. */
  lemma CjWord()
    ensures Cj(0xa001) && Compressed([0x01, 0xa0]) && FetchShort([0x01, 0xa0] + [0, 0], 0) == Fetched(0xa001, 2)
  {
    hide Unsigned, Shr, Shl, Pow2, And, Load;
    Pow2Values();
    ShlIsMul(0x2800, 2);
    SplitUnique(0xa001, 2, 0x2800, 1);
    assert Pow2(13) == 0x2000;
    ShlIsMul(5, 13);
    SplitUnique(0xa001, 13, 5, 1);
    UnsignedSmall(3, 5);
    UnsignedSmall(16, 0xa001);
    LowSixteen(0xa001);
    AndStep(0xa001, 3);
    AndStep(0x5000, 1);
    AndZero(0x2800);
    var site := [0x01, 0xa0] + [0, 0];
    assert site == [0x01, 0xa0, 0, 0];
    FourBytesAre(site);
  }

  lemma FourBytesAre(s: seq<nat>)
    requires |s| == 4
    ensures Load(s, 0, 4) == s[0] + 0x100 * s[1] + 0x1_0000 * s[2] + 0x100_0000 * s[3]
  {
    assert Load(s, 3, 1) == s[3] + 256 * Load(s, 4, 0) == s[3];
    assert Load(s, 2, 2) == s[2] + 256 * Load(s, 3, 1);
    assert Load(s, 1, 3) == s[1] + 256 * Load(s, 2, 2);
  }

  /** No relocation of a c.j keeps what follows it. */
  lemma CjLosesNext(imm: int)
    ensures exists tail: seq<nat> ::
      |tail| == 2 && AllBytes(tail) && PatchOne(WITH_CJ, [0x01, 0xa0] + tail, imm)[2..] != tail
  {
    hide PatchOne, InstLength, FetchShort, Reencode, Cj;
    CjWord();
    CjBecomesJal(0xa001, imm);
    CompressedSiteKeepsNext(WITH_CJ, [0x01, 0xa0], imm);
  }

  /** An operand of value 0 sets no bit. */
  lemma EncodeZero(op: Operand)
    requires WellFormed(op)
    ensures Encode(op, 0) == 0
  {
    hide Bit, Encode, WellFormed, Strips;
    forall k: nat ensures Bit(Encode(op, 0), k) == Bit(0, k) {
      ZeroBits(k);
      EncodeBit(op, 0, k);
      var strips := Strips(op.segments);
      forall i | 0 <= i < |strips| ensures !CarriesAt(strips[i], 0, k) { NothingCarried(strips[i], k); }
    }
    EqualBits(Encode(op, 0), 0);
  }

  lemma NothingCarried(s: Strip, k: int)
    ensures !CarriesAt(s, 0, k)
  {
    hide Bit;
    if k - s.inst + s.imm >= 0 { ZeroBits(k - s.inst + s.imm); }
  }

  lemma JalZero(d: Decoded)
    requires d.rd == 0 && d.imm == 0
    ensures EncodeFormat(UJ, d) == 0
  {
    hide Encode, Or, Spec, WellFormed;
    AllWellFormed(OpRd);
    AllWellFormed(OpJimm20);
    EncodeZero(Spec(OpRd));
    EncodeZero(Spec(OpJimm20));
    NoOnes();
    var slots := UJ.encoder;
    assert slots[1..] == [slots[1]] && slots[1..][1..] == [];
    assert EncodeSlots(slots[1..], d) == 0;
  }

  lemma NoOnes()
    ensures Or(0, 0) == 0
  {}

  lemma CjRecord(w: nat)
    requires Cj(w)
    ensures Record(w).rd == 0
  {
    hide FormatOk, Cj, DecodeFormat;
    CjFormat();
    DecodedField(CJ, w, 0);
    ConstantSource(0, w);
  }

  /** c.j to itself followed by c.jr ra: relocation turns the pair into a jal and nothing else. */
  lemma CjOverwritesReturn()
    ensures PatchOne(WITH_CJ, [0x01, 0xa0, 0x82, 0x80], 0) == [0x6f, 0, 0, 0]
  {
    hide PatchOne, InstLength, FetchShort, Cj, EncodeFormat, Signed, Bytes, Pow2, DecodeFormat, UJ;
    CjWord();
    CjBecomesJal(0xa001, 0);
    CjRecord(0xa001);
    Pow2Values();
    SignedIdentity(32, 0);
    JalZero(Record(0xa001).(imm := 0));
    OrNothing(0x6f);
    CompressedSite(WITH_CJ, [0x01, 0xa0], [0x82, 0x80], 0);
    assert [0x01, 0xa0] + [0x82, 0x80] == [0x01, 0xa0, 0x82, 0x80];
    JalBytes();
  }

  lemma OrNothing(x: nat)
    ensures Or(x, 0) == x
  {
    hide Bit, Or;
    forall i: nat ensures Bit(Or(x, 0), i) == Bit(x, i) {
      BitOr(x, 0, i);
      ZeroBits(i);
    }
    EqualBits(Or(x, 0), x);
  }

  lemma JalBytes()
    ensures Bytes(4, 0x6f) == [0x6f, 0, 0, 0]
  {
    hide Unsigned, Shr, Pow2, Bytes;
    Pow2Values();
    UnsignedSmall(8, 0x6f);
    UnsignedSmall(8, 0);
    BytesCons(4, 0x6f);
    BytesCons(3, 0);
    BytesCons(2, 0);
    BytesCons(1, 0);
    NoBytes(0);
  }

  lemma NoBytes(d: nat)
    ensures Bytes(0, d) == []
  {}

  // ---------------------------------------------------------------------------------------------
  // Two programs with auipc and addi

  const NOP: seq<nat> := [0x13, 0, 0, 0]
  const AUIPC: seq<nat> := [0x97, 0x02, 0, 0]     // auipc x5, 0
  const ADDI: seq<nat> := [0x93, 0x82, 0x02, 0]   // addi x5, x5, 0

  lemma OpcodeIsShort(site: seq<nat>, q: nat, c: nat)
    requires |site| == 4 && (c == 0x17 || c == 0x13)
    requires site[0] + 0x100 * site[1] + 0x1_0000 * site[2] + 0x100_0000 * site[3] == 128 * q + c
    ensures Short(site, 0)
  {
    hide Unsigned, Shl, Pow2, And, Load;
    Pow2Values();
    FourBytesAre(site);
    var w := Load(site, 0, 4);
    ShlIsMul(q, 7);
    SplitUnique(w, 7, q, c);
    UnsignedSmall(7, c);
    LengthTests(w, c);
    BaseIsa.OpcodeLength(c);
  }

  lemma AuipcAddiShort()
    ensures Short(AUIPC, 0) && Short(ADDI, 0)
  {
    hide Short;
    OpcodeIsShort(AUIPC, 5, 0x17);
    OpcodeIsShort(ADDI, 1285, 0x13);
  }

  /** Sites of four bytes at different multiples of four in one section do not overlap. */
  lemma FourApart(r: Reloc, q: Reloc)
    requires SiteLength(r.kind) == SiteLength(q.kind) == 4 && r.at.offset + 4 <= q.at.offset
    ensures Link.Apart(r, q)
  {}

  const LABELS := [Label("hi", Offset(1, 0), 0), Label("x", Offset(1, 8), 0)]
  const RELOCS := [Reloc(Offset(1, 0), "x", PcrelHi20), Reloc(Offset(1, 4), "hi", PcrelLo12I)]
  const START := [NOP, AUIPC + ADDI + NOP]
  const OUTS := [Resolved(12, 4), Resolved(4, 8)]

  lemma ShiftedIsReady()
    ensures Ready(LABELS, START, RELOCS) && LaidOut(START, [0, 4]) && DistinctNames(LABELS)
    ensures forall k :: 0 <= k < |RELOCS| ==> InBounds(START, RELOCS[k])
  {
    hide Short, Link.Apart;
    AuipcAddiShort();
    FourApart(RELOCS[0], RELOCS[1]);
    assert Site(START, RELOCS[0]) == AUIPC && Site(START, RELOCS[1]) == ADDI;
  }

  lemma ShiftedSettles()
    ensures SettledAt(LABELS, [0, 4], RELOCS, RELOCS, 0, Resolved(12, 4))
    ensures SettledAt(LABELS, [0, 4], RELOCS, RELOCS, 1, Resolved(4, 8))
  {
    hide Resolves, HighPart;
    ShiftedNames();
    ShiftedHigh();
    assert RELOCS[..0] + RELOCS[0..] == RELOCS && RELOCS[..1] + RELOCS[1..] == RELOCS;
    assert SettlesAs(LABELS, [0, 4], RELOCS, 0, Some(1), "x", Resolved(12, 4));
    assert RELOCS[1 := RELOCS[1].(name := "hi")] == RELOCS;
    assert SettlesAs(LABELS, [0, 4], RELOCS, 1, Some(0), "hi", Resolved(4, 8));
  }

  lemma ShiftedNames()
    ensures Resolves(LABELS, Offset(1, 0), "x", Some(1)) && Resolves(LABELS, Offset(1, 4), "hi", Some(0))
  {
    hide ParseNum, FoundAfter, FoundBefore;
  }

  lemma ShiftedHigh()
    ensures AllPlaced(LABELS, [0, 4], RELOCS) && HighPart(LABELS, [0, 4], RELOCS, Offset(1, 4), Resolved(4, 8))
  {
    assert RELOCS[1].at == Offset(1, 4) && FoundByName(LABELS, RELOCS[1].name, Some(0));
    assert HighOutcome(LABELS, [0, 4], RELOCS[1], Some(0)) == Resolved(4, 8);
  }

  /** A nop in the first section; hi: auipc, addi and x: nop in the second, which therefore starts at 4. */
  function Shifted(isa: Isa): Program {
    ShiftedIsReady();
    Program(isa, LABELS, [0, 4], START, Final(isa, START, RELOCS, OUTS, 2), RELOCS, RELOCS, OUTS)
  }

  /** The low part at 1:4 looks for its high part at 1:4, meets itself, and silently gets the address of the
      label that names the auipc instead of x. */
  lemma LowPartGoesWrong(isa: Isa)
    ensures HighAndLow(Shifted(isa), 0, 1, 0, 1)
    ensures Shifted(isa).outs[0] == Resolved(12, 4) && Shifted(isa).outs[1] == Resolved(4, 8)
  {
    hide Ready, SettledAt, Final, Resolves, LaidOut, InBounds;
    ShiftedIsReady();
    ShiftedSettles();
    ShiftedNames();
  }

  const LATE_LABELS := [Label("hi", Offset(0, 4), 0), Label(".L11", Offset(0, 8), 1)]
  const LATE_FIRST := [Reloc(Offset(0, 0), "hi", PcrelLo12I), Reloc(Offset(0, 4), "1f", PcrelHi20)]
  const LATE_LAST := [Reloc(Offset(0, 0), "hi", PcrelLo12I), Reloc(Offset(0, 4), ".L11", PcrelHi20)]
  const LATE_START := [ADDI + AUIPC + NOP]
  const LATE_OUTS := [Unresolved, Resolved(8, 4)]

  lemma LateIsReady()
    ensures Ready(LATE_LABELS, LATE_START, LATE_FIRST) && LaidOut(LATE_START, [0]) && DistinctNames(LATE_LABELS)
    ensures forall k :: 0 <= k < |LATE_FIRST| ==> InBounds(LATE_START, LATE_FIRST[k])
  {
    hide Short, Link.Apart;
    AuipcAddiShort();
    FourApart(LATE_FIRST[0], LATE_FIRST[1]);
    assert Site(LATE_START, LATE_FIRST[0]) == ADDI && Site(LATE_START, LATE_FIRST[1]) == AUIPC;
  }

  lemma LateSettles()
    ensures SettledAt(LATE_LABELS, [0], LATE_FIRST, LATE_LAST, 0, Unresolved)
    ensures SettledAt(LATE_LABELS, [0], LATE_FIRST, LATE_LAST, 1, Resolved(8, 4))
  {
    hide Resolves, HighPart;
    LateNames();
    LateHigh();
    var late := [LATE_LAST[0], LATE_FIRST[1]];
    assert LATE_LAST[..0] + LATE_FIRST[0..] == LATE_FIRST && LATE_LAST[..1] + LATE_FIRST[1..] == late;
    assert LATE_FIRST[0 := LATE_FIRST[0].(name := "hi")] == LATE_FIRST;
    assert SettlesAs(LATE_LABELS, [0], LATE_FIRST, 0, Some(0), "hi", Unresolved);
    assert SettlesAs(LATE_LABELS, [0], late, 1, Some(1), ".L11", Resolved(8, 4));
  }

  lemma LateNames()
    ensures Resolves(LATE_LABELS, Offset(0, 0), "hi", Some(0)) && Resolves(LATE_LABELS, Offset(0, 4), "1f", Some(1))
  {
    hide ParseNum, FoundBefore;
    assert Decimal(1) == "1";
    assert ParseNum("1") == 1 by { Pow2Values(); LocalReference(1, 'f'); }
    assert "1f"[..1] == "1";
    assert Latest(LATE_LABELS, 1) && Candidate(LATE_LABELS, 1, 1);
    assert NearestAfter(LATE_LABELS, Offset(0, 4), 1, 1);
  }

  lemma LateHigh()
    ensures AllPlaced(LATE_LABELS, [0], LATE_FIRST) && HighPart(LATE_LABELS, [0], LATE_FIRST, Offset(0, 4), Unresolved)
  {
    assert LATE_FIRST[1].at == Offset(0, 4) && FoundByName(LATE_LABELS, LATE_FIRST[1].name, None);
    assert HighOutcome(LATE_LABELS, [0], LATE_FIRST[1], None) == Unresolved;
  }

  /** One section: addi with %pcrel_lo(hi), hi: auipc with %pcrel_hi(1f), 1: nop. */
  function Late(isa: Isa): Program {
    LateIsReady();
    Program(isa, LATE_LABELS, [0], LATE_START, Final(isa, LATE_START, LATE_FIRST, LATE_OUTS, 2),
            LATE_FIRST, LATE_LAST, LATE_OUTS)
  }

  /** The low part comes before its high part, which still refers to 1f: it is unresolved although the section
      starts at 0. */
  lemma LocalHighIsTooLate(isa: Isa)
    ensures HighAndLow(Late(isa), 1, 0, 0, 1)
    ensures Late(isa).outs[0] == Unresolved && Late(isa).outs[1] == Resolved(8, 4)
  {
    hide Ready, SettledAt, Final, Resolves, LaidOut, InBounds;
    LateIsReady();
    LateSettles();
    LateNames();
  }
}
