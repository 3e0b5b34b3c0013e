/**
  What a linked image means: relocated jumps reach their labels, relocated pairs compute the addresses of
  their labels, and everything else is as it was.
 */
module LinkMeaning {
  import opened Bits
  import opened Options
  import opened Codecs
  import opened InstBuffer
  import opened Relocation
  import opened Labels
  import opened Link
  import LoadImm

  // ---------------------------------------------------------------------------------------------
  // Linked programs

  /** A program before and after link: sections, relocations with the names they had and have, and how
      each of them came out. */
  datatype Program = Program(isa: Isa, labels: seq<Label>, bases: seq<nat>,
                             start: seq<seq<nat>>, end: seq<seq<nat>>,
                             first: seq<Reloc>, last: seq<Reloc>, outs: seq<Outcome>)

  ghost predicate Linked(p: Program) {
    && Ready(p.labels, p.start, p.first) && DistinctNames(p.labels) && LaidOut(p.start, p.bases)
    && |p.outs| == |p.first| == |p.last|
    && (forall k :: 0 <= k < |p.last| ==> p.last[k] == p.first[k].(name := p.last[k].name))
    && (forall k :: 0 <= k < |p.first| ==> SettledAt(p.labels, p.bases, p.first, p.last, k, p.outs[k]))
    && p.end == Final(p.isa, p.start, p.first, p.outs, |p.first|)
  }

  /** link makes a linked program. */
  method LinkAll(linker: Linker) returns (unresolved: nat, ghost p: Program)
    requires linker.table.Valid() && Ready(linker.table.labels, linker.bufs, linker.relocs)
    modifies linker
    ensures Linked(p) && unresolved == CountUnresolved(p.outs)
    ensures p == Program(linker.isa, linker.table.labels, linker.bases, old(linker.bufs), linker.bufs,
                         old(linker.relocs), linker.relocs, p.outs)
  {
    hide SettledAt, Final, SiteShort, AllApart, Placed;
    ghost var start, first := linker.bufs, linker.relocs;
    ghost var outs;
    unresolved, outs := linker.Run();
    p := Program(linker.isa, linker.table.labels, linker.bases, start, linker.bufs, first, linker.relocs, outs);
  }

  lemma InSection(p: Program, k: nat)
    requires Linked(p) && k < |p.first|
    ensures InBounds(p.start, p.first[k]) && InBounds(p.end, p.first[k]) && p.first[k].at.section < |p.bases|
    ensures LaidOut(p.end, p.bases) && SameShape(p.start, p.end)
  {
    hide SettledAt, Final, SiteShort, AllApart, Placed, SiteLength;
  }

  /** The address of a label in the image. */
  function LabelAddress(p: Program, id: nat): nat
    requires Linked(p) && id < |p.labels|
  {
    AddressOf(p.labels[id], p.bases)
  }

  /** The address of a site in the image. */
  function SiteAt(p: Program, k: nat): nat
    requires Linked(p) && k < |p.first|
  {
    InSection(p, k);
    SiteAddress(p.first[k], p.bases)
  }

  /** The instruction o bytes into a site, before link ... */
  function OldWord(p: Program, k: nat, o: nat): nat
    requires Linked(p) && k < |p.first| && o + 4 <= SiteLength(p.first[k].kind)
  {
    InSection(p, k);
    Load(Site(p.start, p.first[k]), o, 4)
  }

  /** ... and in the linked image. */
  function NewWord(p: Program, k: nat, o: nat): nat
    requires Linked(p) && k < |p.first| && o + 4 <= SiteLength(p.first[k].kind)
  {
    SiteInImage(p, k, o);
    Load(Image(p.end), SiteAt(p, k) + o, 4)
  }

  lemma ImageWindow(bufs: seq<seq<nat>>, bases: seq<nat>, s: nat, o: nat, n: nat)
    requires LaidOut(bufs, bases) && s < |bufs| && o + n <= |bufs[s]| && n > 0
    ensures bases[s] + o + n <= |Image(bufs)| && Image(bufs)[bases[s] + o..bases[s] + o + n] == bufs[s][o..o + n]
  {
    hide Image;
    ImageAt(bufs, bases, s, o + n - 1);
    var a, b := Image(bufs)[bases[s] + o..bases[s] + o + n], bufs[s][o..o + n];
    forall k | 0 <= k < n ensures a[k] == b[k] { ImageAt(bufs, bases, s, o + k); }
  }

  lemma SiteInImage(p: Program, k: nat, o: nat)
    requires Linked(p) && k < |p.first| && o + 4 <= SiteLength(p.first[k].kind)
    ensures InBounds(p.end, p.first[k]) && SiteAt(p, k) + o + 4 <= |Image(p.end)|
    ensures Load(Image(p.end), SiteAt(p, k) + o, 4) == Load(Site(p.end, p.first[k]), o, 4)
  {
    hide Linked, LaidOut, Image, Load, SiteLength;
    InSection(p, k);
    var r, n := p.first[k], SiteLength(p.first[k].kind);
    var buf := p.end[r.at.section];
    ImageWindow(p.end, p.bases, r.at.section, r.at.offset + o, 4);
    Window(buf, r.at.offset, n, o, 4);
    LoadWindow(Image(p.end), SiteAt(p, k) + o, Site(p.end, r), o, 4);
  }

  /** A label in a section names the byte that it stands before; a constant is its own address. */
  lemma LabelInImage(p: Program, id: nat)
    requires Linked(p) && id < |p.labels|
    ensures p.labels[id].at.section == SHN_ABS ==> LabelAddress(p, id) == p.labels[id].at.offset
    ensures p.labels[id].at.section != SHN_ABS ==>
      var s, o, a := p.labels[id].at.section, p.labels[id].at.offset, LabelAddress(p, id);
      s < |p.end| && (o < |p.end[s]| ==> a < |Image(p.end)| && Image(p.end)[a] == p.end[s][o])
  {
    hide SettledAt, Final, SiteShort, AllApart, Image;
    var at := p.labels[id].at;
    assert LaidOut(p.end, p.bases) && SameShape(p.start, p.end);
    if at.section != SHN_ABS && at.offset < |p.end[at.section]| { ImageAt(p.end, p.bases, at.section, at.offset); }
  }

  /** A label in its section, or at the end of it. */
  predicate Inside(p: Program, at: Offset) {
    at.section < |p.start| && at.offset <= |p.start[at.section]|
  }

  /** A label after a site has a higher address than the site in the image, and a label at or before it
      has not: 1f is up, 1b is down. */
  lemma ForwardIsUp(p: Program, k: nat, id: nat)
    requires Linked(p) && k < |p.first| && SiteLength(p.first[k].kind) > 0
    requires id < |p.labels| && p.labels[id].at.section != SHN_ABS && Inside(p, p.labels[id].at)
    ensures SiteAt(p, k) < LabelAddress(p, id) <==> Before(p.first[k].at, p.labels[id].at)
  {
    hide SettledAt, Final, SiteShort, AllApart, Placed;
    InSection(p, k);
    var a, b := p.first[k].at, p.labels[id].at;
    if a.section < b.section { BaseAfter(p.start, p.bases, a.section, b.section); }
    if b.section < a.section { BaseAfter(p.start, p.bases, b.section, a.section); }
  }

  /** A section begins at or after the end of an earlier one. */
  lemma {:induction false} BaseAfter(bufs: seq<seq<nat>>, bases: seq<nat>, s: nat, t: nat)
    requires LaidOut(bufs, bases) && s < t < |bufs|
    ensures bases[s] + |bufs[s]| <= bases[t]
    decreases t
  {
    if s < t - 1 { BaseAfter(bufs, bases, s, t - 1); }
  }

  // ---------------------------------------------------------------------------------------------
  // Sites

  /** A relocation of one instruction. */
  predicate OneInstruction(kind: Kind) {
    !kind.Abs32? && !kind.Abs64? && !kind.Other? && !kind.Call?
  }

  /** The instruction that link leaves at a resolved site. */
  lemma LinkedWord(p: Program, k: nat)
    requires Linked(p) && k < |p.first| && p.outs[k].Resolved? && OneInstruction(p.first[k].kind)
    requires Understood(p.isa, OldWord(p, k, 0))
    ensures NewWord(p, k, 0)
         == Reencode(p.isa, OldWord(p, k, 0), Value(p.first[k].kind, p.outs[k].target, p.outs[k].pc))
  {
    hide Understood, Reencode, Load, Value, LowerPart, AllApart, Placed, DistinctOffsets, Final, SettledAt, PatchOne;
    InSection(p, k);
    SiteInImage(p, k, 0);
    FinalSite(p.isa, p.start, p.first, p.outs, |p.first|, k);
    PatchedOne(p.isa, Site(p.start, p.first[k]), Value(p.first[k].kind, p.outs[k].target, p.outs[k].pc));
  }

  /** The two instructions of a CALL. */
  lemma LinkedWords(p: Program, k: nat)
    requires Linked(p) && k < |p.first| && p.outs[k].Resolved? && p.first[k].kind.Call?
    requires Understood(p.isa, OldWord(p, k, 0)) && Understood(p.isa, OldWord(p, k, 4))
    ensures NewWord(p, k, 0) == Reencode(p.isa, OldWord(p, k, 0), UpperPart(p.outs[k].target - p.outs[k].pc))
    ensures NewWord(p, k, 4) == Reencode(p.isa, OldWord(p, k, 4), LowerPart(p.outs[k].target - p.outs[k].pc))
  {
    hide Understood, Reencode, Load, UpperPart, LowerPart, AllApart, Placed, DistinctOffsets, Final, SettledAt,
         PatchCall;
    InSection(p, k);
    SiteInImage(p, k, 0);
    SiteInImage(p, k, 4);
    FinalSite(p.isa, p.start, p.first, p.outs, |p.first|, k);
    var x := p.outs[k].target - p.outs[k].pc;
    PatchedCall(p.isa, Site(p.start, p.first[k]), UpperPart(x), LowerPart(x));
  }

  /** Bytes outside the resolved sites are as before link. */
  lemma LinkedOutside(p: Program, s: nat, b: nat)
    requires Linked(p) && s < |p.start| && b < |p.start[s]|
    requires forall i :: 0 <= i < |p.first| && p.outs[i].Resolved? ==> !Covers(p.first[i], s, b)
    ensures s < |p.end| && b < |p.end[s]| && p.end[s][b] == p.start[s][b]
    ensures p.bases[s] + b < |Image(p.end)| && Image(p.end)[p.bases[s] + b] == p.start[s][b]
  {
    hide Covers, AllApart, Placed, SiteShort, SettledAt, Image, Final;
    FinalOutside(p.isa, p.start, p.first, p.outs, |p.first|, s, b);
    assert LaidOut(p.end, p.bases);
    ImageAt(p.end, p.bases, s, b);
  }

  // ---------------------------------------------------------------------------------------------
  // Resolution

  /** The label that a reference means. */
  ghost predicate Means(p: Program, k: nat, id: nat)
    requires k < |p.first|
  {
    Resolves(p.labels, p.first[k].at, p.first[k].name, Some(id))
  }

  /** The relocations when link reaches relocation k. */
  function Reached(p: Program, k: nat): (r: seq<Reloc>)
    requires k < |p.first| == |p.last|
    ensures |r| == |p.first| && r[k] == p.first[k]
  {
    p.last[..k] + p.first[k..]
  }

  lemma Counts(p: Program)
    requires Linked(p)
    ensures |p.outs| == |p.first| == |p.last| && DistinctOffsets(p.first) && DistinctNames(p.labels)
  {
    hide SettledAt, Final, SiteShort, AllApart, Placed;
  }

  /** A relocation comes out as the label it means makes it. */
  lemma SettledBy(p: Program, k: nat, id: nat)
    requires Linked(p) && k < |p.first| && Means(p, k, id)
    ensures id < |p.labels| && k < |p.outs| && |p.first| == |p.last| && Reached(p, k)[k] == p.first[k]
    ensures AllPlaced(p.labels, p.bases, Reached(p, k))
    ensures SettlesAs(p.labels, p.bases, Reached(p, k), k, Some(id), p.last[k].name, p.outs[k])
  {
    hide Resolves, DistinctNames, Final, Ready, SettlesAs;
    FoundInRange(p.labels, p.first[k].at, p.first[k].name, Some(id));
    var relocs := Reached(p, k);
    assert relocs[k] == p.first[k];
    assert SettledAt(p.labels, p.bases, p.first, p.last, k, p.outs[k]);
    var r :| Resolves(p.labels, relocs[k].at, relocs[k].name, r)
      && SettlesAs(p.labels, p.bases, relocs, k, r, p.last[k].name, p.outs[k]);
    ResolvesOnce(p.labels, p.first[k].at, p.first[k].name, r, Some(id));
  }

  /** An ordinary relocation refers to the label its name means, from where it stands. */
  lemma RefersTo(p: Program, k: nat, id: nat)
    requires Linked(p) && k < |p.first| && !PcrelLow(p.first[k].kind) && Means(p, k, id)
    ensures id < |p.labels| && k < |p.outs| && k < |p.last|
    ensures p.outs[k] == Resolved(LabelAddress(p, id), SiteAt(p, k)) && p.last[k].name == p.labels[id].name
  {
    hide Linked, Resolves, Reached;
    SettledBy(p, k, id);
  }

  /** A label of that name stands at the address; a name of this kind is looked up without regard to
      numbers. */
  ghost predicate NamedAt(labels: seq<Label>, bases: seq<nat>, name: string, address: nat) {
    exists id: nat :: id < |labels| && labels[id].name == name && labels[id].at.section < |bases|
      && LabelOffset(labels[id], bases) == address
  }

  /** A %pcrel_lo whose label stands at a %pcrel_hi. */
  ghost predicate HighAndLow(p: Program, j: nat, k: nat, id: nat, target: nat) {
    && Linked(p) && j < |p.first| && k < |p.first| && Means(p, k, id) && Means(p, j, target)
    && p.first[j].kind.PcrelHi20? && PcrelLow(p.first[k].kind)
    && p.first[j].at.section != SHN_ABS
    && id < |p.labels| && p.labels[id].at == p.first[j].at
    && target < |p.labels| && p.labels[target].at.section != SHN_ABS
  }

  /** They are when relocation k looks for its high part. */
  function Present(p: Program, k: nat): seq<Reloc>
    requires k < |p.first| == |p.last|
  {
    Reached(p, k)[k := p.first[k].(name := p.last[k].name)]
  }

  lemma PresentIs(p: Program, j: nat, k: nat)
    requires Linked(p) && j < |p.first| && k < |p.first| && j != k
    ensures |p.first| == |p.last| && |Present(p, k)| == |p.first| && DistinctOffsets(Present(p, k))
    ensures Present(p, k)[j] == if j < k then p.last[j] else p.first[j]
    ensures Present(p, k)[j].at == p.first[j].at
  {
    hide SettledAt, Final, SiteShort, AllApart, Placed;
    var now := Present(p, k);
    forall i | 0 <= i < |now| ensures now[i].at == p.first[i].at {
      if i < k { assert now[i] == p.last[i]; }
    }
  }

  /** What the low part looks up: the image address of the label, as an offset in its own section. */
  function LookedUp(p: Program, j: nat, k: nat): Offset
    requires Linked(p) && j < |p.first| && k < |p.first|
  {
    Offset(p.first[k].at.section, SiteAt(p, j))
  }

  lemma LowLooksUp(p: Program, j: nat, k: nat, id: nat, target: nat)
    requires HighAndLow(p, j, k, id, target)
    ensures j != k && k < |p.outs| && |p.first| == |p.last| && |Present(p, k)| == |p.first|
    ensures AllPlaced(p.labels, p.bases, Present(p, k)) && DistinctOffsets(Present(p, k))
    ensures HighPart(p.labels, p.bases, Present(p, k), LookedUp(p, j, k), p.outs[k])
    ensures Present(p, k)[j].at == p.first[j].at
    ensures Present(p, k)[j].name == if j < k then p.labels[target].name else p.first[j].name
  {
    hide Linked, Resolves, HighPart, Reached;
    InSection(p, j);
    RefersTo(p, j, target);
    SettledBy(p, k, id);
    PresentIs(p, j, k);
    forall i | 0 <= i < |Present(p, k)| ensures Present(p, k)[i].at.section < |p.bases| {
      assert Present(p, k)[i].at == Reached(p, k)[i].at;
    }
  }

  /** Some relocation stands where the low part looks, and bears the name of a label at the target. */
  ghost predicate MetAtTarget(p: Program, j: nat, k: nat, target: nat)
    requires Linked(p) && j < |p.first| && k < |p.first| == |p.last| && target < |p.labels|
  {
    exists i: nat :: i < |Present(p, k)| && Present(p, k)[i].at == LookedUp(p, j, k)
      && NamedAt(p.labels, p.bases, Present(p, k)[i].name, LabelAddress(p, target))
  }

  /** The low part gets the target and base of its high part if and only if its section's base is 0 and
      what it meets there bears the name of a label at the target. */
  lemma PcrelLowExactly(p: Program, j: nat, k: nat, id: nat, target: nat)
    requires HighAndLow(p, j, k, id, target)
    ensures |p.outs| == |p.first| == |p.last| && p.first[k].at.section < |p.bases|
    ensures p.outs[k] == p.outs[j] <==> p.bases[p.first[k].at.section] == 0 && MetAtTarget(p, j, k, target)
  {
    hide Resolves, Linked, FoundByName, HighPart, NamedAt, Present;
    InSection(p, j);
    InSection(p, k);
    Counts(p);
    RefersTo(p, j, target);
    LowLooksUp(p, j, k, id, target);
    var now, at := Present(p, k), LookedUp(p, j, k);
    if p.outs[k].Resolved? { HighElsewhere(p.labels, p.bases, now, at, p.outs[k]); }
    forall i: nat | i < |now| && now[i].at == at
      ensures p.outs[k] == Resolved(p.outs[j].target, SiteAddress(now[i], p.bases))
         <==> NamedAt(p.labels, p.bases, now[i].name, p.outs[j].target)
    {
      HighMeets(p.labels, p.bases, now, at, p.outs[k], i, p.outs[j].target);
    }
  }

  /** In one section, what it meets is the high part.  So the low part gets the target and base of a high
      part of its own section if and only if the section's base is 0 and, where the low part comes first,
      the name that the high part still has then is also the name of a label at the target.  It gets those
      of a high part in another section only through a relocation of no length at the end of its own. */
  lemma PcrelLowFollowsHigh(p: Program, j: nat, k: nat, id: nat, target: nat)
    requires HighAndLow(p, j, k, id, target)
    ensures |p.outs| == |p.first| == |p.last| && p.first[k].at.section < |p.bases|
    ensures p.first[j].at.section == p.first[k].at.section ==>
      (p.outs[k] == p.outs[j] <==>
        p.bases[p.first[k].at.section] == 0
        && (j < k || NamedAt(p.labels, p.bases, p.first[j].name, LabelAddress(p, target))))
    ensures p.first[j].at.section != p.first[k].at.section && NoneEmpty(p) ==> p.outs[k] != p.outs[j]
  {
    hide Resolves, Linked, FoundByName, HighPart, NamedAt, Present;
    InSection(p, j);
    InSection(p, k);
    Counts(p);
    PcrelLowExactly(p, j, k, id, target);
    LowLooksUp(p, j, k, id, target);
    TargetIsNamed(p, target);
    var s, now, at := p.first[k].at.section, Present(p, k), LookedUp(p, j, k);
    if p.bases[s] == 0 {
      if p.first[j].at.section == s {
        assert now[j].at == at;
      } else if MetAtTarget(p, j, k, target) {
        var i: nat :| i < |now| && now[i].at == at;
        PresentKind(p, i, k);
        if !p.first[i].kind.Other? { OtherSection(p, i, j); }
      }
    }
  }

  /** Every relocation has a site of at least one byte. */
  predicate NoneEmpty(p: Program) {
    forall i :: 0 <= i < |p.first| ==> !p.first[i].kind.Other?
  }

  lemma PresentKind(p: Program, i: nat, k: nat)
    requires Linked(p) && i < |p.first| && k < |p.first|
    ensures |p.first| == |p.last| && i < |Present(p, k)| && Present(p, k)[i].at == p.first[i].at
  {
    if i != k { PresentIs(p, i, k); } else { Counts(p); }
  }

  /** Two sites with bytes, in sections of which that of the first has base 0: the offset of the first is not
      the image address of the second. */
  lemma OtherSection(p: Program, i: nat, j: nat)
    requires Linked(p) && i < |p.first| && j < |p.first|
    requires SiteLength(p.first[i].kind) > 0 && p.first[j].kind.PcrelHi20?
    requires p.first[i].at.section != p.first[j].at.section
    requires p.first[i].at.section < |p.bases| && p.bases[p.first[i].at.section] == 0
    ensures p.first[i].at.offset != SiteAt(p, j)
  {
    hide SettledAt, Final, SiteShort, AllApart, Placed;
    InSection(p, i);
    InSection(p, j);
    var s, t := p.first[i].at.section, p.first[j].at.section;
    if s < t { BaseAfter(p.start, p.bases, s, t); } else { BaseAfter(p.start, p.bases, t, s); }
  }

  lemma TargetIsNamed(p: Program, target: nat)
    requires Linked(p) && target < |p.labels| && p.labels[target].at.section != SHN_ABS
    ensures NamedAt(p.labels, p.bases, p.labels[target].name, LabelAddress(p, target))
  {
    hide SettledAt, Final, SiteShort, AllApart;
  }

  /** The lookup that meets relocation j answers by the label that has j's name. */
  lemma HighMeets(labels: seq<Label>, bases: seq<nat>, relocs: seq<Reloc>, at: Offset, o: Outcome, j: nat, target: nat)
    requires AllPlaced(labels, bases, relocs) && HighPart(labels, bases, relocs, at, o) && DistinctNames(labels)
    requires DistinctOffsets(relocs) && j < |relocs| && relocs[j].at == at
    ensures o == Resolved(target, SiteAddress(relocs[j], bases)) <==> NamedAt(labels, bases, relocs[j].name, target)
    ensures (forall id :: 0 <= id < |labels| ==> labels[id].name != relocs[j].name) ==> o == Unresolved
  {
    var i: nat, r :| i < |relocs| && relocs[i].at == at && FoundByName(labels, relocs[i].name, r)
      && o == HighOutcome(labels, bases, relocs[i], r);
    assert i == j;
    if NamedAt(labels, bases, relocs[j].name, target) {
      var id: nat :| id < |labels| && labels[id].name == relocs[j].name && labels[id].at.section < |bases|
        && LabelOffset(labels[id], bases) == target;
      assert r == Some(id);
    }
  }

  /** Whatever the lookup meets, its site is the section's base above the offset looked up. */
  lemma HighElsewhere(labels: seq<Label>, bases: seq<nat>, relocs: seq<Reloc>, at: Offset, o: Outcome)
    requires AllPlaced(labels, bases, relocs) && HighPart(labels, bases, relocs, at, o) && o.Resolved?
    ensures at.section < |bases| && o.pc == bases[at.section] + at.offset
    ensures exists i: nat :: i < |relocs| && relocs[i].at == at
  {
    hide FoundByName;
  }

  /** A name that is not a number with f or b is found the same way early and late; a local name is not: at
      base 0 a low part that comes before its high part is then unresolved, unless some label bears
      that very name. */
  lemma LowBeforeHigh(p: Program, j: nat, k: nat, id: nat, target: nat)
    requires HighAndLow(p, j, k, id, target) && k < j && p.first[j].at.section == p.first[k].at.section
    ensures p.first[j].at.section < |p.bases| && k < |p.outs|
    ensures !CheckLocal(p.first[j].name) ==> NamedAt(p.labels, p.bases, p.first[j].name, LabelAddress(p, target))
    ensures p.bases[p.first[j].at.section] == 0 && FoundByName(p.labels, p.first[j].name, None) ==>
      p.outs[k] == Unresolved
  {
    hide ParseNum, Linked, FoundAfter, FoundBefore, HighPart, NamedAt, Present;
    InSection(p, j);
    Counts(p);
    LowLooksUp(p, j, k, id, target);
    if !CheckLocal(p.first[j].name) { TargetIsNamed(p, target); }
    if p.bases[p.first[j].at.section] == 0 {
      HighMeets(p.labels, p.bases, Present(p, k), LookedUp(p, j, k), p.outs[k], j, 0);
    }
  }

  // ---------------------------------------------------------------------------------------------
  // What the image does

  /** Opcode bits and register fields are the same. */
  ghost predicate KeepsRest(isa: Isa, w: nat, v: nat) {
    var d, e := Fields(isa, w), Fields(isa, v);
    SameOpcode(isa.codec(w), w, v) && d.rd == e.rd && d.rs1 == e.rs1 && d.rs2 == e.rs2
  }

  /** The distance to a label as the 64-bit machine sees it; labels of constants may be negative. */
  function Distance(p: Program, from: int, id: nat): int
    requires Linked(p) && id < |p.labels|
  {
    Signed(64, LabelAddress(p, id) - from)
  }

  /** The image holds the address of the label that an absolute relocation means, in four or eight bytes. */
  lemma AddressIsStored(p: Program, k: nat, id: nat)
    requires Linked(p) && k < |p.first| && Means(p, k, id) && id < |p.labels|
    requires p.first[k].kind.Abs32? || p.first[k].kind.Abs64?
    ensures var n := if p.first[k].kind.Abs64? then 8 else 4;
            SiteAt(p, k) + n <= |Image(p.end)|
            && Load(Image(p.end), SiteAt(p, k), n) == Unsigned(8 * n, LabelAddress(p, id))
  {
    hide Linked, Load, Unsigned, Resolves, Image, Bytes, LabelAddress, LaidOut, SameShape;
    StoredBytes(p, k, id);
    InSection(p, k);
    var r, n := p.first[k], SiteLength(p.first[k].kind);
    ImageWindow(p.end, p.bases, r.at.section, r.at.offset, n);
    LoadBytes(Image(p.end), SiteAt(p, k), n, Unsigned(8 * n, LabelAddress(p, id)));
    TruncateTwice(8 * n, 8 * n, LabelAddress(p, id));
  }

  lemma StoredBytes(p: Program, k: nat, id: nat)
    requires Linked(p) && k < |p.first| && Means(p, k, id) && id < |p.labels|
    requires p.first[k].kind.Abs32? || p.first[k].kind.Abs64?
    ensures InBounds(p.end, p.first[k])
    ensures var n := SiteLength(p.first[k].kind);
            Site(p.end, p.first[k]) == Bytes(n, Unsigned(8 * n, LabelAddress(p, id)))
  {
    hide Unsigned, Resolves, SettledAt, AllApart, Placed, DistinctOffsets, Final, Bytes, LabelAddress, LaidOut,
         SiteShort, LowerPart, UpperPart;
    RefersTo(p, k, id);
    InSection(p, k);
    FinalSite(p.isa, p.start, p.first, p.outs, |p.first|, k);
  }

  /** In the linked image, the jump or branch at a site goes to the address of the label that its
      relocation means, if and only if the distance is even and in range; in any case its opcode
      and registers are those it had. */
  lemma JumpReachesLabel(p: Program, k: nat, id: nat)
    requires Linked(p) && k < |p.first| && Means(p, k, id) && id < |p.labels|
    requires p.first[k].kind.Jal? || p.first[k].kind.Branch?
    requires Understood(p.isa, OldWord(p, k, 0))
    requires p.isa.codec(OldWord(p, k, 0)) == UJ || p.isa.codec(OldWord(p, k, 0)) == SB
    ensures JumpTarget(p.isa, NewWord(p, k, 0), SiteAt(p, k)) == Unsigned(64, LabelAddress(p, id))
       <==> InJumpRange(p.isa.codec(OldWord(p, k, 0)), Distance(p, SiteAt(p, k), id))
    ensures KeepsRest(p.isa, OldWord(p, k, 0), NewWord(p, k, 0))
  {
    hide Linked, Understood, Reencode, OldWord, NewWord, UJ, SB, JumpTarget, Unsigned, Pow2, Fields, InJumpRange,
         Signed, Resolves, SiteAt, LabelAddress, SameOpcode;
    RefersTo(p, k, id);
    LinkedWord(p, k);
    var w, x := OldWord(p, k, 0), LabelAddress(p, id) - SiteAt(p, k);
    ReencodedFields(p.isa, w, x);
    ReencodedOpcode(p.isa, w, x);
    JumpReaches(p.isa, w, LabelAddress(p, id), SiteAt(p, k));
  }

  /** lui with HI20 and a lower instruction with LO12 that mean one label: the pair in the image computes the
      label's address modulo 2^32, and modulo 2^64 if and only if the address plus 0x800 fits. */
  lemma UpperLowerReachLabel(p: Program, i: nat, j: nat, id: nat, regs: LoadImm.Regs)
    requires Linked(p) && i < |p.first| && j < |p.first| && Means(p, i, id) && Means(p, j, id) && id < |p.labels|
    requires p.first[i].kind.Hi20? && (p.first[j].kind.Lo12I? || p.first[j].kind.Lo12S?)
    requires Understood(p.isa, OldWord(p, i, 0)) && Understood(p.isa, OldWord(p, j, 0))
    requires UpperThenLower(p.isa, OldWord(p, i, 0), OldWord(p, j, 0)) && LoadImm.ValidRegs(regs)
    ensures Computes(p.isa, NewWord(p, i, 0), NewWord(p, j, 0), regs, 0, LabelAddress(p, id))
  {
    hide Linked, Understood, Reencode, OldWord, NewWord, Computes, UpperThenLower, FitsSigned, Resolves, SiteAt,
         LabelAddress, UpperPart, LowerPart, LoadImm.ValidRegs;
    RefersTo(p, i, id);
    RefersTo(p, j, id);
    LinkedWord(p, i);
    LinkedWord(p, j);
    var a: int := LabelAddress(p, id);
    assert a - 0 == a;
    PairReaches(p.isa, OldWord(p, i, 0), OldWord(p, j, 0), NewWord(p, i, 0), NewWord(p, j, 0), regs, 0, a);
  }

  /** auipc with PCREL_HI20 and a lower instruction with PCREL_LO12, in a section whose base is 0: the pair in
      the image computes the address of the label that the high part means. */
  lemma PcrelReachesLabel(p: Program, j: nat, k: nat, id: nat, target: nat, regs: LoadImm.Regs)
    requires HighAndLow(p, j, k, id, target) && LoadImm.ValidRegs(regs)
    requires p.first[j].at.section == p.first[k].at.section
    requires j < k || NamedAt(p.labels, p.bases, p.first[j].name, LabelAddress(p, target))
    requires p.first[j].at.section < |p.bases| && p.bases[p.first[j].at.section] == 0
    requires Understood(p.isa, OldWord(p, j, 0)) && Understood(p.isa, OldWord(p, k, 0))
    requires UpperThenLower(p.isa, OldWord(p, j, 0), OldWord(p, k, 0))
    ensures Computes(p.isa, NewWord(p, j, 0), NewWord(p, k, 0), regs, SiteAt(p, j), LabelAddress(p, target))
  {
    hide Linked, Understood, Reencode, OldWord, NewWord, Computes, UpperThenLower, FitsSigned, Resolves, SiteAt,
         LabelAddress, UpperPart, LowerPart, LoadImm.ValidRegs, NamedAt;
    RefersTo(p, j, target);
    PcrelLowFollowsHigh(p, j, k, id, target);
    LinkedWord(p, j);
    LinkedWord(p, k);
    PairReaches(p.isa, OldWord(p, j, 0), OldWord(p, k, 0), NewWord(p, j, 0), NewWord(p, k, 0), regs,
                SiteAt(p, j), LabelAddress(p, target));
  }

  /** The auipc and jalr of a CALL in the image compute the address of the label that it means. */
  lemma CallReachesLabel(p: Program, k: nat, id: nat, regs: LoadImm.Regs)
    requires Linked(p) && k < |p.first| && Means(p, k, id) && id < |p.labels| && p.first[k].kind.Call?
    requires Understood(p.isa, OldWord(p, k, 0)) && Understood(p.isa, OldWord(p, k, 4))
    requires UpperThenLower(p.isa, OldWord(p, k, 0), OldWord(p, k, 4)) && LoadImm.ValidRegs(regs)
    ensures Computes(p.isa, NewWord(p, k, 0), NewWord(p, k, 4), regs, SiteAt(p, k), LabelAddress(p, id))
  {
    hide Linked, Understood, Reencode, OldWord, NewWord, Computes, UpperThenLower, FitsSigned, Resolves, SiteAt,
         LabelAddress, UpperPart, LowerPart, LoadImm.ValidRegs;
    RefersTo(p, k, id);
    LinkedWords(p, k);
    PairReaches(p.isa, OldWord(p, k, 0), OldWord(p, k, 4), NewWord(p, k, 0), NewWord(p, k, 4), regs,
                SiteAt(p, k), LabelAddress(p, id));
  }
}
