/**
  assembler::link (src/asm/assembler.cc): sections are laid out one after the other, then every
  relocation is resolved and its site patched in place, in the order of the relocation map.
 */
module Link {
  import opened Bits
  import opened Options
  import opened InstBuffer
  import opened Relocation
  import opened Labels

  datatype Reloc = Reloc(at: Offset, name: string, kind: Kind)

  // ---------------------------------------------------------------------------------------------
  // Layout

  ghost predicate LaidOut(bufs: seq<seq<nat>>, bases: seq<nat>) {
    && |bases| == |bufs| > 0 && bases[0] == 0
    && forall s :: 0 < s < |bufs| ==> bases[s] == bases[s - 1] + |bufs[s - 1]|
  }

  /** The linked image: all sections in order. */
  function Image(bufs: seq<seq<nat>>): seq<nat> {
    if bufs == [] then [] else Image(bufs[..|bufs| - 1]) + bufs[|bufs| - 1]
  }

  lemma LaidOutPrefix(bufs: seq<seq<nat>>, bases: seq<nat>)
    requires LaidOut(bufs, bases) && |bufs| > 1
    ensures LaidOut(bufs[..|bufs| - 1], bases[..|bufs| - 1])
    ensures bases[|bufs| - 1] == bases[..|bufs| - 1][|bufs| - 2] + |bufs[..|bufs| - 1][|bufs| - 2]|
  {}

  /** The last section begins where the others end. */
  lemma {:induction false} ImageLength(bufs: seq<seq<nat>>, bases: seq<nat>)
    requires LaidOut(bufs, bases)
    ensures |Image(bufs[..|bufs| - 1])| == bases[|bufs| - 1]
    decreases |bufs|
  {
    var n := |bufs| - 1;
    var front := bufs[..n];
    if n == 0 {
      assert front == [];
    } else {
      hide LaidOut;
      LaidOutPrefix(bufs, bases);
      ImageLength(front, bases[..n]);
      assert Image(front) == Image(front[..n - 1]) + front[n - 1];
    }
  }

  /** A byte of a section is found in the image at the section's base plus its offset. */
  lemma {:induction false} ImageAt(bufs: seq<seq<nat>>, bases: seq<nat>, s: nat, o: nat)
    requires LaidOut(bufs, bases) && s < |bufs| && o < |bufs[s]|
    ensures bases[s] + o < |Image(bufs)| && Image(bufs)[bases[s] + o] == bufs[s][o]
    decreases |bufs|
  {
    var n := |bufs| - 1;
    ImageLength(bufs, bases);
    assert Image(bufs) == Image(bufs[..n]) + bufs[n];
    if s < n {
      LaidOutPrefix(bufs, bases);
      ImageAt(bufs[..n], bases[..n], s, o);
    }
  }

  // ---------------------------------------------------------------------------------------------
  // What a relocation refers to

  ghost predicate Placed(labels: seq<Label>, sections: nat) {
    forall id :: 0 <= id < |labels| ==> labels[id].at.section == SHN_ABS || labels[id].at.section < sections
  }

  /** label_off */
  function AddressOf(l: Label, bases: seq<nat>): nat
    requires l.at.section == SHN_ABS || l.at.section < |bases|
  {
    if l.at.section == SHN_ABS then l.at.offset else bases[l.at.section] + l.at.offset
  }

  /** reloc_off */
  function SiteAddress(r: Reloc, bases: seq<nat>): nat
    requires r.at.section < |bases|
  {
    bases[r.at.section] + r.at.offset
  }

  predicate PcrelLow(kind: Kind) {
    kind.PcrelLo12I? || kind.PcrelLo12S?
  }

  datatype Outcome = Unresolved | Resolved(target: nat, pc: nat)

  ghost predicate AllPlaced(labels: seq<Label>, bases: seq<nat>, relocs: seq<Reloc>) {
    Placed(labels, |bases|) && forall i :: 0 <= i < |relocs| ==> relocs[i].at.section < |bases|
  }

  /** label_offset, for a label whose section exists */
  function LabelOffset(l: Label, bases: seq<nat>): nat
    requires l.at.section < |bases|
  {
    bases[l.at.section] + l.at.offset
  }

  /** The relocation whose label is named by a %pcrel_lo: the one at that offset, under its present
      name.  Here the source takes constants for labels of section SHN_ABS and indexes the sections with it;
      where there is no such section the model counts the relocation as unresolved. */
  ghost predicate HighPart(labels: seq<Label>, bases: seq<nat>, relocs: seq<Reloc>, at: Offset, o: Outcome)
    requires AllPlaced(labels, bases, relocs)
  {
    if forall j :: 0 <= j < |relocs| ==> relocs[j].at != at then o == Unresolved
    else exists j: nat, r :: (
      j < |relocs| && relocs[j].at == at
      && FoundByName(labels, relocs[j].name, r) && o == HighOutcome(labels, bases, relocs[j], r))
  }

  ghost function HighOutcome(labels: seq<Label>, bases: seq<nat>, high: Reloc, r: Option<nat>): Outcome
    requires Placed(labels, |bases|) && high.at.section < |bases| && FoundByName(labels, high.name, r)
  {
    if r.None? || labels[r.value].at.section >= |bases| then Unresolved
    else Resolved(LabelOffset(labels[r.value], bases), SiteAddress(high, bases))
  }

  /** How relocation i comes out, given all relocations as they are when link reaches it: the name it
      is left with, and target and base. */
  ghost predicate Settles(labels: seq<Label>, bases: seq<nat>, relocs: seq<Reloc>, i: nat, name: string, o: Outcome)
    requires AllPlaced(labels, bases, relocs) && i < |relocs|
  {
    exists r :: Resolves(labels, relocs[i].at, relocs[i].name, r) && SettlesAs(labels, bases, relocs, i, r, name, o)
  }

  ghost predicate SettlesAs(labels: seq<Label>, bases: seq<nat>, relocs: seq<Reloc>, i: nat, r: Option<nat>,
                            name: string, o: Outcome)
    requires AllPlaced(labels, bases, relocs) && i < |relocs|
  {
    match r
    case None => name == relocs[i].name && o == Unresolved
    case Some(id) =>
      && id < |labels| && name == labels[id].name
      && if PcrelLow(relocs[i].kind)
         then HighPart(labels, bases, relocs[i := relocs[i].(name := name)],
                       Offset(relocs[i].at.section, AddressOf(labels[id], bases)), o)
         else o == Resolved(AddressOf(labels[id], bases), SiteAddress(relocs[i], bases))
  }

  // ---------------------------------------------------------------------------------------------
  // Patching

  ghost predicate InBounds(bufs: seq<seq<nat>>, r: Reloc) {
    r.at.section < |bufs| && r.at.offset + SiteLength(r.kind) <= |bufs[r.at.section]|
  }

  function Site(bufs: seq<seq<nat>>, r: Reloc): (s: seq<nat>)
    requires InBounds(bufs, r)
    ensures |s| == SiteLength(r.kind)
  {
    bufs[r.at.section][r.at.offset..r.at.offset + SiteLength(r.kind)]
  }

  function WriteSite(bufs: seq<seq<nat>>, r: Reloc, bytes: seq<nat>): (b: seq<seq<nat>>)
    requires InBounds(bufs, r) && |bytes| == SiteLength(r.kind)
    ensures SameShape(bufs, b)
  {
    bufs[r.at.section := Splice(bufs[r.at.section], r.at.offset, bytes)]
  }

  predicate SameShape(a: seq<seq<nat>>, b: seq<seq<nat>>) {
    |a| == |b| && forall s :: 0 <= s < |a| ==> |a[s]| == |b[s]|
  }

  /** The bytes of a site after its relocation. */
  function SiteAfter(isa: Isa, kind: Kind, site: seq<nat>, o: Outcome): (r: seq<nat>)
    requires |site| == SiteLength(kind)
    ensures |r| == |site|
  {
    if o.Resolved? then Patch(isa, kind, site, o.target, o.pc) else site
  }

  /** The sections after one relocation. */
  function Patched(isa: Isa, bufs: seq<seq<nat>>, r: Reloc, o: Outcome): (b: seq<seq<nat>>)
    requires InBounds(bufs, r)
    ensures SameShape(bufs, b)
  {
    if o.Resolved? then WriteSite(bufs, r, Patch(isa, r.kind, Site(bufs, r), o.target, o.pc)) else bufs
  }

  /** Byte b of section s belongs to the site. */
  ghost predicate Covers(r: Reloc, s: nat, b: nat) {
    s == r.at.section && r.at.offset <= b < r.at.offset + SiteLength(r.kind)
  }

  ghost predicate Apart(r: Reloc, q: Reloc) {
    forall s: nat, b: nat :: !(Covers(r, s, b) && Covers(q, s, b))
  }

  /** The sections after the first n relocations. */
  function Final(isa: Isa, bufs: seq<seq<nat>>, relocs: seq<Reloc>, outs: seq<Outcome>, n: nat): (b: seq<seq<nat>>)
    requires n <= |relocs| && n <= |outs| && forall i :: 0 <= i < |relocs| ==> InBounds(bufs, relocs[i])
    ensures SameShape(bufs, b)
    decreases n
  {
    if n == 0 then bufs else Patched(isa, Final(isa, bufs, relocs, outs, n - 1), relocs[n - 1], outs[n - 1])
  }

  lemma WriteSiteBytes(bufs: seq<seq<nat>>, r: Reloc, bytes: seq<nat>, s: nat, b: nat)
    requires InBounds(bufs, r) && |bytes| == SiteLength(r.kind) && s < |bufs| && b < |bufs[s]|
    ensures WriteSite(bufs, r, bytes)[s][b] == if Covers(r, s, b) then bytes[b - r.at.offset] else bufs[s][b]
  {
    hide SiteLength;
  }

  /** Writing a site leaves the sites apart from it alone. */
  lemma PatchedSite(isa: Isa, bufs: seq<seq<nat>>, r: Reloc, o: Outcome, q: Reloc)
    requires InBounds(bufs, r) && InBounds(bufs, q) && Apart(r, q)
    ensures Site(Patched(isa, bufs, r, o), q) == Site(bufs, q)
  {
    hide SiteLength, Patch;
    if o.Resolved? {
      var bytes := Patch(isa, r.kind, Site(bufs, r), o.target, o.pc);
      var s, after := q.at.section, WriteSite(bufs, r, bytes);
      forall b | q.at.offset <= b < q.at.offset + SiteLength(q.kind) ensures after[s][b] == bufs[s][b] {
        assert Covers(q, s, b);
        WriteSiteBytes(bufs, r, bytes, s, b);
      }
      assert Site(after, q) == Site(bufs, q);
    }
  }

  lemma PatchedOwnSite(isa: Isa, bufs: seq<seq<nat>>, r: Reloc, o: Outcome, after: seq<seq<nat>>)
    requires InBounds(bufs, r) && InBounds(after, r) && after == Patched(isa, bufs, r, o)
    ensures Site(after, r) == SiteAfter(isa, r.kind, Site(bufs, r), o)
  {
    hide SiteLength, Patch;
    if o.Resolved? {
      var bytes := Patch(isa, r.kind, Site(bufs, r), o.target, o.pc);
      var s := r.at.section;
      forall b | r.at.offset <= b < r.at.offset + SiteLength(r.kind) ensures after[s][b] == bytes[b - r.at.offset] {
        WriteSiteBytes(bufs, r, bytes, s, b);
      }
      assert Site(after, r) == bytes;
    }
  }

  ghost predicate AllApart(relocs: seq<Reloc>) {
    forall i, j :: 0 <= i < j < |relocs| ==> Apart(relocs[i], relocs[j])
  }

  /** Each site is patched once, from its original bytes, and otherwise untouched. */
  lemma {:induction false} FinalSite(isa: Isa, bufs: seq<seq<nat>>, relocs: seq<Reloc>, outs: seq<Outcome>, n: nat,
                                     k: nat)
    requires n <= |relocs| && n <= |outs| && k < |relocs| && AllApart(relocs)
    requires forall i :: 0 <= i < |relocs| ==> InBounds(bufs, relocs[i])
    ensures Site(Final(isa, bufs, relocs, outs, n), relocs[k])
         == if k < n then SiteAfter(isa, relocs[k].kind, Site(bufs, relocs[k]), outs[k]) else Site(bufs, relocs[k])
    decreases n
  {
    hide SiteAfter, Site, Apart, SiteLength, Patched;
    if n > 0 {
      var before := Final(isa, bufs, relocs, outs, n - 1);
      FinalSite(isa, bufs, relocs, outs, n - 1, k);
      if k == n - 1 {
        PatchedOwnSite(isa, before, relocs[k], outs[k], Final(isa, bufs, relocs, outs, n));
      } else {
        ApartSymmetric(relocs[n - 1], relocs[k]);
        PatchedSite(isa, before, relocs[n - 1], outs[n - 1], relocs[k]);
      }
    }
  }

  lemma ApartSymmetric(r: Reloc, q: Reloc)
    ensures Apart(r, q) <==> Apart(q, r)
  {}

  /** A byte outside the resolved sites does not change. */
  lemma {:induction false} FinalOutside(isa: Isa, bufs: seq<seq<nat>>, relocs: seq<Reloc>, outs: seq<Outcome>,
                                        n: nat, s: nat, b: nat)
    requires n <= |relocs| && n <= |outs| && forall i :: 0 <= i < |relocs| ==> InBounds(bufs, relocs[i])
    requires s < |bufs| && b < |bufs[s]|
    requires forall i :: 0 <= i < n && outs[i].Resolved? ==> !Covers(relocs[i], s, b)
    ensures Final(isa, bufs, relocs, outs, n)[s][b] == bufs[s][b]
    decreases n
  {
    hide Patch, SiteLength, Site, Covers;
    if n > 0 {
      var before := Final(isa, bufs, relocs, outs, n - 1);
      FinalOutside(isa, bufs, relocs, outs, n - 1, s, b);
      var r, o := relocs[n - 1], outs[n - 1];
      if o.Resolved? {
        WriteSiteBytes(before, r, Patch(isa, r.kind, Site(before, r), o.target, o.pc), s, b);
      }
    }
  }

  // ---------------------------------------------------------------------------------------------
  // The linker

  /** relocs_byoffset has one relocation per offset. */
  ghost predicate DistinctOffsets(relocs: seq<Reloc>) {
    forall i, j :: 0 <= i < j < |relocs| ==> relocs[i].at != relocs[j].at
  }

  /** What link needs: labels and sites lie in sections, sites do not overlap, and the instructions at them
      are two or four bytes long. */
  ghost predicate Ready(labels: seq<Label>, bufs: seq<seq<nat>>, relocs: seq<Reloc>) {
    && |bufs| > 0 && Placed(labels, |bufs|) && DistinctOffsets(relocs) && AllApart(relocs)
    && (forall i :: 0 <= i < |relocs| ==> InBounds(bufs, relocs[i]))
    && forall i :: 0 <= i < |relocs| ==> SiteShort(relocs[i].kind, Site(bufs, relocs[i]))
  }

  function CountUnresolved(outs: seq<Outcome>): nat {
    if outs == [] then 0
    else CountUnresolved(outs[..|outs| - 1]) + if outs[|outs| - 1].Unresolved? then 1 else 0
  }

  class Linker {
    const isa: Isa
    const table: LabelTable
    var bufs: seq<seq<nat>>
    var bases: seq<nat>
    /** relocs_byoffset, in the order of its keys */
    var relocs: seq<Reloc>

    constructor (isa: Isa, table: LabelTable, bufs: seq<seq<nat>>, relocs: seq<Reloc>)
      ensures this.isa == isa && this.table == table && this.bufs == bufs && this.relocs == relocs && bases == []
    {
      this.isa, this.table, this.bufs, this.relocs, this.bases := isa, table, bufs, relocs, [];
    }

    /** relocs_byoffset.find(offset) */
    method FindReloc(at: Offset) returns (r: Option<nat>)
      ensures r.Some? ==> r.value < |relocs| && relocs[r.value].at == at
      ensures r.None? ==> forall j :: 0 <= j < |relocs| ==> relocs[j].at != at
    {
      var j := 0;
      while j < |relocs|
        invariant 0 <= j <= |relocs| && forall k :: 0 <= k < j ==> relocs[k].at != at
      {
        if relocs[j].at == at { return Some(j); }
        j := j + 1;
      }
      return None;
    }

    /** reencode_inst: writes two or four bytes, as the new instruction says. */
    method ReencodeAt(s: nat, at: nat, old_inst: nat, imm: int)
      requires s < |bufs| && at + 4 <= |bufs[s]|
      modifies this`bufs
      ensures bufs == old(bufs)[s := Splice(old(bufs)[s], at, Written(Reencode(isa, old_inst, imm)))]
    {
      hide Reencode, Bytes, InstLength;
      var inst := Reencode(isa, old_inst, imm);
      var len := InstLength(inst);
      if len == 2 {
        bufs := bufs[s := Splice(bufs[s], at, Bytes(2, inst))];
      } else if len == 4 {
        bufs := bufs[s := Splice(bufs[s], at, Bytes(4, inst))];
      } else {
        assert Splice(bufs[s], at, []) == bufs[s];
      }
    }

    /** One instruction. */
    method PatchOneAt(s: nat, at: nat, n: nat, imm: int)
      requires s < |bufs| && 4 <= n && at + n <= |bufs[s]|
      modifies this`bufs
      ensures bufs == old(bufs)[s := Splice(old(bufs)[s], at, PatchOne(isa, old(bufs)[s][at..at + n], imm))]
    {
      hide Reencode, Written, FetchShort, Splice;
      var first := FetchShort(bufs[s], at);
      FetchSite(bufs[s], at, n, 0);
      SpliceSite(bufs[s], at, n, 0, Written(Reencode(isa, first.inst, imm)));
      ReencodeAt(s, at, first.inst, imm);
    }

    /** The two instructions of a CALL. */
    method PatchCallAt(s: nat, at: nat, n: nat, upper: int, lower: int)
      requires s < |bufs| && 8 <= n && at + n <= |bufs[s]|
      modifies this`bufs
      ensures bufs == old(bufs)[s := Splice(old(bufs)[s], at, PatchCall(isa, old(bufs)[s][at..at + n], upper, lower))]
    {
      hide Reencode, Written, FetchShort, Splice;
      var first := FetchShort(bufs[s], at);
      var second := FetchShort(bufs[s], at + first.offset);
      ghost var buf, site := bufs[s], bufs[s][at..at + n];
      ghost var low, high := Written(Reencode(isa, second.inst, lower)), Written(Reencode(isa, first.inst, upper));
      FetchSite(buf, at, n, 0);
      FetchSite(buf, at, n, first.offset);
      SpliceSite(buf, at, n, first.offset, low);
      ghost var once := Splice(site, first.offset, low);
      SpliceSite(Splice(buf, at, once), at, n, 0, high);
      SpliceTwice(buf, at, once, Splice(once, 0, high));
      ReencodeAt(s, at + first.offset, second.inst, lower);
      ReencodeAt(s, at, first.inst, upper);
    }

    /** The patching half of relocate. */
    method PatchSite(r: Reloc, target: nat, pc: nat)
      requires InBounds(bufs, r)
      modifies this`bufs
      ensures bufs == Patched(isa, old(bufs), r, Resolved(target, pc))
    {
      hide LowerPart, Value, PatchOne, PatchCall, Absolute;
      var s, at, n := r.at.section, r.at.offset, SiteLength(r.kind);
      var imm, lower := Value(r.kind, target, pc), LowerPart(target - pc);
      match r.kind
      case Abs32 | Abs64 =>
        bufs := bufs[s := Splice(bufs[s], at, Absolute(n, target))];
      case Other =>
        assert Splice(bufs[s], at, []) == bufs[s];
      case Call =>
        PatchCallAt(s, at, n, imm, lower);
      case _ =>
        PatchOneAt(s, at, n, imm);
    }

    /** relocate */
    method Relocate(i: nat) returns (ok: bool, ghost o: Outcome)
      requires table.Valid() && AllPlaced(table.labels, bases, relocs) && i < |relocs| && DistinctOffsets(relocs)
      requires InBounds(bufs, relocs[i])
      modifies this`bufs, this`relocs
      ensures |relocs| == |old(relocs)| && relocs == old(relocs)[i := old(relocs)[i].(name := relocs[i].name)]
      ensures Settles(table.labels, bases, old(relocs), i, relocs[i].name, o)
      ensures ok == o.Resolved? && bufs == Patched(isa, old(bufs), old(relocs)[i], o)
    {
      hide Patched, Resolves, Site, SiteLength, LabelTable.Valid;
      var r := relocs[i];
      var found := table.Lookup(r.at, r.name);
      if found.None? {
        o := Unresolved;
        assert SettlesAs(table.labels, bases, old(relocs), i, found, r.name, o);
        NothingPatched(isa, bufs, r);
        return false, o;
      }
      FoundInRange(table.labels, r.at, r.name, found);
      var l := table.labels[found.value];
      relocs := relocs[i := r.(name := l.name)];
      var target := AddressOf(l, bases);
      var pc := SiteAddress(r, bases);
      if PcrelLow(r.kind) {
        var at := Offset(r.at.section, target);
        var high := FindReloc(at);
        var hl: Option<nat> := None;
        if high.Some? {
          hl := table.LookupName(relocs[high.value].name);
          ghost var h := relocs[high.value];
          HighPartIs(table.labels, bases, relocs, at, high.value, hl);
        }
        if hl.None? || table.labels[hl.value].at.section >= |bases| {
          o := Unresolved;
          assert HighPart(table.labels, bases, relocs, at, o);
          assert SettlesAs(table.labels, bases, old(relocs), i, found, l.name, o);
          NothingPatched(isa, bufs, r);
          return false, o;
        }
        target := LabelOffset(table.labels[hl.value], bases);
        pc := SiteAddress(relocs[high.value], bases);
      }
      o := Resolved(target, pc);
      assert SettlesAs(table.labels, bases, old(relocs), i, found, l.name, o);
      PatchSite(r, target, pc);
      ok := true;
    }

    /** link */
    method Run() returns (unresolved: nat, ghost outs: seq<Outcome>)
      requires table.Valid() && Ready(table.labels, bufs, relocs)
      modifies this
      ensures LaidOut(old(bufs), bases) && SameShape(old(bufs), bufs)
      ensures |relocs| == |outs| == |old(relocs)|
      ensures forall k :: 0 <= k < |relocs| ==> relocs[k] == old(relocs)[k].(name := relocs[k].name)
      ensures forall k :: 0 <= k < |relocs| ==> SettledAt(table.labels, bases, old(relocs), relocs, k, outs[k])
      ensures forall k :: 0 <= k < |old(relocs)| ==> InBounds(old(bufs), old(relocs)[k])
      ensures bufs == Final(isa, old(bufs), old(relocs), outs, |outs|)
      ensures unresolved == CountUnresolved(outs)
    {
      hide Final, LabelTable.Valid, Settles, SettledAt, Patched, Progress, Ready;
      ghost var first, start, labels := relocs, bufs, table.labels;
      ReadyMeans(labels, start, first);
      Layout();
      unresolved, outs := 0, [];
      var i := 0;
      ProgressStart(isa, labels, bases, start, first);
      while i < |relocs|
        invariant i <= |relocs| == |first| && table.Valid() && table.labels == labels && LaidOut(start, bases)
        invariant Progress(isa, labels, bases, start, first, bufs, relocs, outs, i)
        invariant unresolved == CountUnresolved(outs)
      {
        ghost var before, earlier := relocs, outs;
        ProgressMeans(isa, labels, bases, start, first, bufs, relocs, outs, i);
        var ok, o := Relocate(i);
        ProgressStep(isa, labels, bases, start, first, before, relocs, outs, i, o);
        outs := outs + [o];
        CountSnoc(earlier, o);
        if !ok { unresolved := unresolved + 1; }
        i := i + 1;
      }
      ProgressEnd(isa, labels, bases, start, first, bufs, relocs, outs, i);
    }

    /** The first loop of link. */
    method Layout()
      requires |bufs| > 0
      modifies this`bases
      ensures LaidOut(bufs, bases)
    {
      bases := [0];
      var s := 1;
      while s < |bufs|
        invariant 1 <= s <= |bufs| && |bases| == s && bases[0] == 0
        invariant bufs == old(bufs)
        invariant forall k :: 0 < k < s ==> bases[k] == bases[k - 1] + |bufs[k - 1]|
      {
        bases := bases + [bases[s - 1] + |bufs[s - 1]|];
        s := s + 1;
      }
    }
  }

  lemma ReadyMeans(labels: seq<Label>, bufs: seq<seq<nat>>, relocs: seq<Reloc>)
    requires Ready(labels, bufs, relocs)
    ensures |bufs| > 0 && Placed(labels, |bufs|) && DistinctOffsets(relocs) && AllApart(relocs)
    ensures forall i :: 0 <= i < |relocs| ==> InBounds(bufs, relocs[i])
  {
    hide Placed, DistinctOffsets, AllApart, SiteShort;
  }

  /** The count is the number of relocations that came out unresolved. */
  lemma {:induction false} CountIsNumber(outs: seq<Outcome>)
    ensures CountUnresolved(outs) == |set k | 0 <= k < |outs| && outs[k].Unresolved?|
  {
    var all := set k | 0 <= k < |outs| && outs[k].Unresolved?;
    if outs == [] {
      assert all == {};
    } else {
      var n := |outs| - 1;
      CountIsNumber(outs[..n]);
      var before := set k | 0 <= k < |outs[..n]| && outs[..n][k].Unresolved?;
      assert all == if outs[n].Unresolved? then before + {n} else before;
    }
  }

  lemma CountSnoc(outs: seq<Outcome>, o: Outcome)
    ensures CountUnresolved(outs + [o]) == CountUnresolved(outs) + if o.Unresolved? then 1 else 0
  {
    assert (outs + [o])[..|outs|] == outs;
  }

  /** The state of link after i relocations. */
  ghost predicate Progress(isa: Isa, labels: seq<Label>, bases: seq<nat>, start: seq<seq<nat>>, first: seq<Reloc>,
                           bufs: seq<seq<nat>>, relocs: seq<Reloc>, outs: seq<Outcome>, i: nat) {
    && |relocs| == |first| && |outs| == i <= |first| && |bases| == |start|
    && Placed(labels, |start|) && DistinctOffsets(first) && AllApart(first)
    && (forall k :: 0 <= k < |first| ==> InBounds(start, first[k]))
    && (forall k :: 0 <= k < |relocs| ==> relocs[k] == first[k].(name := relocs[k].name))
    && relocs[i..] == first[i..]
    && (forall k :: 0 <= k < i ==> SettledAt(labels, bases, first, relocs, k, outs[k]))
    && bufs == Final(isa, start, first, outs, i)
  }

  lemma ProgressStart(isa: Isa, labels: seq<Label>, bases: seq<nat>, start: seq<seq<nat>>, first: seq<Reloc>)
    requires |bases| == |start| && Placed(labels, |start|) && DistinctOffsets(first) && AllApart(first)
    requires forall k :: 0 <= k < |first| ==> InBounds(start, first[k])
    ensures Progress(isa, labels, bases, start, first, start, first, [], 0)
  {
    hide Placed, DistinctOffsets, AllApart, SettledAt, InBounds;
  }

  lemma ProgressMeans(isa: Isa, labels: seq<Label>, bases: seq<nat>, start: seq<seq<nat>>, first: seq<Reloc>,
                      bufs: seq<seq<nat>>, relocs: seq<Reloc>, outs: seq<Outcome>, i: nat)
    requires Progress(isa, labels, bases, start, first, bufs, relocs, outs, i) && i < |first|
    ensures |relocs| == |first| && relocs[i] == first[i] && relocs == relocs[..i] + first[i..]
    ensures AllPlaced(labels, bases, relocs) && DistinctOffsets(relocs) && InBounds(bufs, relocs[i])
    ensures |outs| == i && forall k :: 0 <= k < |first| ==> InBounds(start, first[k])
    ensures bufs == Final(isa, start, first, outs, i)
  {
    hide Placed, AllApart, SettledAt, Final, SiteLength;
    assert relocs[i..][0] == first[i..][0];
    PrefixSuffix(relocs, first, i);
  }

  lemma ProgressStep(isa: Isa, labels: seq<Label>, bases: seq<nat>, start: seq<seq<nat>>, first: seq<Reloc>,
                     before: seq<Reloc>, after: seq<Reloc>, outs: seq<Outcome>, i: nat, o: Outcome)
    requires i < |first| && |outs| == i && forall k :: 0 <= k < |first| ==> InBounds(start, first[k])
    requires Progress(isa, labels, bases, start, first, Final(isa, start, first, outs, i), before, outs, i)
    requires |after| == |before| && i < |before| && after == before[i := before[i].(name := after[i].name)]
    requires AllPlaced(labels, bases, before) && Settles(labels, bases, before, i, after[i].name, o)
    ensures Progress(isa, labels, bases, start, first,
                     Patched(isa, Final(isa, start, first, outs, i), first[i], o), after, outs + [o], i + 1)
  {
    hide Placed, DistinctOffsets, AllApart, SettledAt, InBounds, Settles, AllPlaced, Final, Patched;
    PrefixSuffix(before, first, i);
    FinalStep(isa, start, first, outs, o, i);
    SettledStep(labels, bases, first, before, after, outs, i, o);
    assert after[i + 1..] == before[i + 1..] == before[i..][1..];
  }

  lemma ProgressEnd(isa: Isa, labels: seq<Label>, bases: seq<nat>, start: seq<seq<nat>>, first: seq<Reloc>,
                    bufs: seq<seq<nat>>, relocs: seq<Reloc>, outs: seq<Outcome>, i: nat)
    requires Progress(isa, labels, bases, start, first, bufs, relocs, outs, i) && i == |first|
    ensures |relocs| == |first| == |outs| && SameShape(start, bufs)
    ensures forall k :: 0 <= k < |relocs| ==> relocs[k] == first[k].(name := relocs[k].name)
    ensures forall k :: 0 <= k < |relocs| ==> SettledAt(labels, bases, first, relocs, k, outs[k])
    ensures forall k :: 0 <= k < |first| ==> InBounds(start, first[k])
    ensures bufs == Final(isa, start, first, outs, |outs|)
  {
    hide Placed, DistinctOffsets, AllApart, SettledAt, InBounds, Final;
  }

  /** Relocation k came out as the rules say, when the ones before it had their final names and the
      ones after it their first. */
  ghost predicate SettledAt(labels: seq<Label>, bases: seq<nat>, first: seq<Reloc>, last: seq<Reloc>, k: nat,
                            o: Outcome) {
    && |first| == |last| && k < |first| && AllPlaced(labels, bases, last[..k] + first[k..])
    && Settles(labels, bases, last[..k] + first[k..], k, last[k].name, o)
  }

  lemma Window(buf: seq<nat>, at: nat, n: nat, j: nat, m: nat)
    requires at + n <= |buf| && j + m <= n
    ensures buf[at..at + n][j..j + m] == buf[at + j..at + j + m]
  {
    var a, b := buf[at..at + n][j..j + m], buf[at + j..at + j + m];
    forall k | 0 <= k < m ensures a[k] == b[k] {
      assert buf[at..at + n][j + k] == buf[at + j + k];
    }
  }

  lemma {:induction false} LoadWindow(a: seq<nat>, i: nat, b: seq<nat>, j: nat, n: nat)
    requires i + n <= |a| && j + n <= |b| && a[i..i + n] == b[j..j + n]
    ensures Load(a, i, n) == Load(b, j, n)
    decreases n
  {
    if n > 0 {
      assert a[i..i + n][0] == b[j..j + n][0];
      assert a[i + 1..i + n] == a[i..i + n][1..] && b[j + 1..j + n] == b[j..j + n][1..];
      LoadWindow(a, i + 1, b, j + 1, n - 1);
    }
  }

  /** Fetching in a buffer at a site is fetching in the site. */
  lemma FetchSite(buf: seq<nat>, at: nat, n: nat, o: nat)
    requires at + n <= |buf| && o + 4 <= n
    ensures FetchShort(buf, at + o) == FetchShort(buf[at..at + n], o)
  {
    hide Load, InstLength, And;
    Window(buf, at, n, o, 4);
    LoadWindow(buf, at + o, buf[at..at + n], o, 4);
  }

  /** Writing inside a site is writing the site. */
  lemma SpliceSite(buf: seq<nat>, at: nat, n: nat, o: nat, bytes: seq<nat>)
    requires at + n <= |buf| && o + |bytes| <= n
    ensures Splice(buf, at + o, bytes) == Splice(buf, at, Splice(buf[at..at + n], o, bytes))
  {
    var a, b := Splice(buf, at + o, bytes), Splice(buf, at, Splice(buf[at..at + n], o, bytes));
    forall k | 0 <= k < |buf| ensures a[k] == b[k] {}
  }

  lemma SpliceTwice(buf: seq<nat>, at: nat, a: seq<nat>, b: seq<nat>)
    requires at + |a| <= |buf| && |a| == |b|
    ensures Splice(Splice(buf, at, a), at, b) == Splice(buf, at, b)
    ensures Splice(buf, at, a)[at..at + |a|] == a
  {}

  lemma NothingPatched(isa: Isa, bufs: seq<seq<nat>>, r: Reloc)
    requires InBounds(bufs, r)
    ensures Patched(isa, bufs, r, Unresolved) == bufs
  {}

  lemma FoundInRange(labels: seq<Label>, site: Offset, name: string, r: Option<nat>)
    requires Resolves(labels, site, name, r) && r.Some?
    ensures r.value < |labels|
  {
    hide ParseNum;
  }

  lemma HighPartIs(labels: seq<Label>, bases: seq<nat>, relocs: seq<Reloc>, at: Offset, j: nat, r: Option<nat>)
    requires AllPlaced(labels, bases, relocs) && DistinctOffsets(relocs) && j < |relocs| && relocs[j].at == at
    requires FoundByName(labels, relocs[j].name, r)
    ensures HighPart(labels, bases, relocs, at, HighOutcome(labels, bases, relocs[j], r))
  {}

  lemma PrefixSuffix(relocs: seq<Reloc>, first: seq<Reloc>, i: nat)
    requires |relocs| == |first| && i <= |first| && relocs[i..] == first[i..]
    ensures relocs == relocs[..i] + first[i..]
  {
    assert relocs == relocs[..i] + relocs[i..];
  }

  lemma FinalStep(isa: Isa, bufs: seq<seq<nat>>, relocs: seq<Reloc>, outs: seq<Outcome>, o: Outcome, n: nat)
    requires |outs| == n < |relocs| && forall i :: 0 <= i < |relocs| ==> InBounds(bufs, relocs[i])
    ensures Final(isa, bufs, relocs, outs + [o], n + 1) == Patched(isa, Final(isa, bufs, relocs, outs, n), relocs[n], o)
  {
    hide Patched, InBounds, SiteLength;
    FinalPrefix(isa, bufs, relocs, outs, [o], n);
  }

  lemma {:induction false} FinalPrefix(isa: Isa, bufs: seq<seq<nat>>, relocs: seq<Reloc>, outs: seq<Outcome>,
                                       more: seq<Outcome>, n: nat)
    requires n <= |outs| && n <= |relocs| && forall i :: 0 <= i < |relocs| ==> InBounds(bufs, relocs[i])
    ensures Final(isa, bufs, relocs, outs + more, n) == Final(isa, bufs, relocs, outs, n)
    decreases n
  {
    hide Patched, InBounds, SiteLength;
    if n > 0 { FinalPrefix(isa, bufs, relocs, outs, more, n - 1); }
  }

  lemma SettledStep(labels: seq<Label>, bases: seq<nat>, first: seq<Reloc>, before: seq<Reloc>, after: seq<Reloc>,
                    outs: seq<Outcome>, i: nat, o: Outcome)
    requires |first| == |before| == |after| && i < |first| && |outs| == i
    requires before == before[..i] + first[i..] && after == before[i := after[i]]
    requires AllPlaced(labels, bases, before) && Settles(labels, bases, before, i, after[i].name, o)
    requires forall k :: 0 <= k < i ==> SettledAt(labels, bases, first, before, k, outs[k])
    ensures forall k :: 0 <= k <= i ==> SettledAt(labels, bases, first, after, k, (outs + [o])[k])
  {
    hide Settles, AllPlaced;
    forall k | 0 <= k <= i ensures SettledAt(labels, bases, first, after, k, (outs + [o])[k]) {
      assert after[..k] == before[..k];
      if k < i { assert after[k] == before[k]; }
    }
  }
}
