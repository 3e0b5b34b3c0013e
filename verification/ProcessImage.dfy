/**
  The memory of a user process: the ELF segment loader and the stack mapping (src/app/rv-sim.cc) and the
  brk system call (src/abi/unknown-abi.h), as one state machine over struct proxy_memory
  (src/emu/mmu-proxy.h).

  Addresses are signed 64-bit (addr_t).  Whether an mmap succeeds is a parameter of each step.
 */
module ProcessImage {
  import opened Bits

  const PAGE: int := 4096

  predicate Aligned(x: int) { x % PAGE == 0 }

  /** round_up(addr, page_size) on uintptr_t, converted to addr_t */
  function RoundUp(addr: int): int {
    Signed(64, And(Unsigned(64, addr + 4095), Not(64, 4095)))
  }

  lemma ClearPageOffset(x: nat)
    requires x < Pow2(64) && 4095 < Pow2(64)
    ensures And(x, Not(64, 4095)) == x - x % 4096
  {
    hide And, Not, Pow2, Unsigned;
    Pow2Values();
    ClearLow(64, 12, x);
    DivMod(x, 12);
  }

  /** Without overflow, rounding gives the first page boundary at or above the address. */
  lemma RoundUpMeans(a: int)
    requires 0 <= a <= 0x8000_0000_0000_0000 - 4096
    ensures Aligned(RoundUp(a)) && a <= RoundUp(a) < a + 4096
  {
    hide And, Not, Pow2, Unsigned, Signed;
    Pow2Values();
    UnsignedSmall(64, a + 4095);
    ClearPageOffset(a + 4095);
    var r := a + 4095 - (a + 4095) % 4096;
    PageBoundary(a + 4095, r);
    SignedIdentity(64, r);
  }

  lemma PageBoundary(x: int, r: int)
    requires r == x - x % 4096
    ensures Aligned(r) && x - 4095 <= r <= x
  {}

  /** In the last page rounding overflows to the lowest address. */
  lemma RoundUpOverflows(a: int)
    requires 0x8000_0000_0000_0000 - 4096 < a < 0x8000_0000_0000_0000
    ensures RoundUp(a) == -0x8000_0000_0000_0000
  {
    hide And, Not, Pow2, Unsigned;
    Pow2Values();
    UnsignedSmall(64, a + 4095);
    ClearPageOffset(a + 4095);
    assert a + 4095 - (a + 4095) % 4096 == 0x8000_0000_0000_0000;
    UnsignedSmall(64, 0x8000_0000_0000_0000);
  }

  // ---------------------------------------------------------------------------------------------
  // State and steps

  datatype Segment = Segment(start: int, size: int)

  /** proxy_memory */
  datatype Memory = Memory(segments: seq<Segment>, heapBegin: int, heapEnd: int, brk: int)

  const EMPTY := Memory([], 0, 0, 0)

  /** The fields of Elf64_Phdr that place a segment. */
  datatype Phdr = Phdr(vaddr: int, offset: int, memsz: int)

  function Delta(ph: Phdr): int { ph.offset % PAGE }

  function MapEnd(ph: Phdr): int {
    Signed(64, ph.vaddr - Delta(ph) + RoundUp(ph.memsz + Delta(ph)))
  }

  /** map_load_segment_user after a successful mmap */
  function Load(m: Memory, ph: Phdr): Memory {
    var end, brk := MapEnd(ph), Signed(64, ph.vaddr + ph.memsz);
    var grown := if m.heapBegin < end then m.(heapBegin := end, heapEnd := end) else m;
    grown.(segments := m.segments + [Segment(ph.vaddr, ph.memsz)],
           brk := if m.brk < brk then brk else m.brk)
  }

  /** A brk call: its argument, and whether the mmap it may make succeeds. */
  datatype Call = Call(newBrk: int, mapped: bool)

  /** abi_sys_brk */
  function Brk(m: Memory, c: Call): Memory {
    if c.newBrk == 0 then m
    else if c.newBrk <= m.heapEnd then m.(brk := c.newBrk)
    else if !c.mapped then m
    else
      var end := RoundUp(c.newBrk);
      m.(segments := m.segments + [Segment(m.heapEnd, end - m.heapEnd)], heapEnd := end, brk := c.newBrk)
  }

  const ENOMEM: int := 12

  /** What abi_sys_brk leaves in a0. */
  function BrkResult(m: Memory, c: Call): int {
    if c.newBrk == 0 then m.brk
    else if c.newBrk <= m.heapEnd || c.mapped then c.newBrk
    else -ENOMEM
  }

  // ---------------------------------------------------------------------------------------------
  // Invariants

  /** A segment that lies, with its last page, in the positive half of the address space. */
  predicate Loadable(ph: Phdr) {
    && 0 <= ph.vaddr && 0 <= ph.memsz && 0 <= ph.offset
    && ph.vaddr + ph.memsz <= 0x8000_0000_0000_0000 - 3 * 4096
  }

  /** ELF demands that address and offset agree modulo the page size. */
  predicate Congruent(ph: Phdr) {
    ph.vaddr % PAGE == ph.offset % PAGE
  }

  lemma MapEndMeans(ph: Phdr)
    requires Loadable(ph)
    ensures ph.vaddr + ph.memsz <= MapEnd(ph) < ph.vaddr + ph.memsz + 4096
    ensures Aligned(MapEnd(ph)) <==> Congruent(ph)
  {
    hide RoundUp, Signed, Pow2;
    Pow2Values();
    RoundUpMeans(ph.memsz + Delta(ph));
    var end := ph.vaddr - Delta(ph) + RoundUp(ph.memsz + Delta(ph));
    SignedIdentity(64, end);
    AlignedSum(ph.vaddr, ph.offset, RoundUp(ph.memsz + Delta(ph)));
  }

  lemma AlignedSum(v: int, o: int, r: int)
    requires Aligned(r)
    ensures Aligned(v - o % PAGE + r) <==> v % PAGE == o % PAGE
  {}

  /** Contiguous, non-empty, page-aligned segments from a to b, in order. */
  ghost predicate Tiles(segs: seq<Segment>, a: int, b: int) {
    if segs == [] then a == b
    else
      var last := segs[|segs| - 1];
      && last.size > 0 && Aligned(last.start) && last.start + last.size == b
      && Tiles(segs[..|segs| - 1], a, last.start)
  }

  ghost predicate Below(segs: seq<Segment>, limit: int) {
    forall i :: 0 <= i < |segs| ==> segs[i].start + segs[i].size <= limit
  }

  /** While segments are loaded: the heap is empty and page-aligned, above everything loaded. */
  ghost predicate Loading(m: Memory) {
    && m.heapBegin == m.heapEnd && 0 <= m.heapEnd && Aligned(m.heapEnd) && m.brk <= m.heapEnd
    && Below(m.segments, m.heapBegin)
  }

  /** While the program runs: of the segments, the first n are from the loader, and the others tile the
      heap. */
  ghost predicate Running(m: Memory, n: nat) {
    && n <= |m.segments| && Aligned(m.heapBegin) && Aligned(m.heapEnd)
    && 0 <= m.heapBegin <= m.heapEnd && m.brk <= m.heapEnd
    && Tiles(m.segments[n..], m.heapBegin, m.heapEnd)
  }

  lemma LoadKeeps(m: Memory, ph: Phdr)
    requires Loading(m) && Loadable(ph) && Congruent(ph)
    ensures Loading(Load(m, ph)) && m.heapEnd <= Load(m, ph).heapEnd && m.brk <= Load(m, ph).brk
  {
    hide MapEnd, Signed, Pow2;
    Pow2Values();
    MapEndMeans(ph);
    SignedIdentity(64, ph.vaddr + ph.memsz);
  }

  /** A segment that raises the heap leaves it page-aligned if and only if it is congruent. */
  lemma AlignedOnlyIfCongruent(m: Memory, ph: Phdr)
    requires Loading(m) && Loadable(ph) && m.heapBegin < MapEnd(ph)
    ensures Aligned(Load(m, ph).heapEnd) <==> Congruent(ph)
  {
    hide MapEnd, Signed;
    MapEndMeans(ph);
  }

  /** An address whose page end is still representable. */
  predicate Roundable(a: int) {
    a <= 0x8000_0000_0000_0000 - 4096
  }

  predicate AddrT(a: int) {
    -0x8000_0000_0000_0000 <= a < 0x8000_0000_0000_0000
  }

  /** brk keeps the invariant, moves the end of the heap only upwards and the begin not at all. */
  lemma BrkKeeps(m: Memory, n: nat, c: Call)
    requires Running(m, n) && (c.mapped ==> Roundable(c.newBrk))
    ensures Running(Brk(m, c), n)
    ensures Brk(m, c).heapBegin == m.heapBegin && m.heapEnd <= Brk(m, c).heapEnd
    ensures |m.segments| <= |Brk(m, c).segments| && Brk(m, c).segments[..|m.segments|] == m.segments
  {
    hide RoundUp;
    if c.newBrk > m.heapEnd && c.mapped {
      RoundUpMeans(c.newBrk);
      TilesSnoc(m.segments, n, m.heapBegin, m.heapEnd, RoundUp(c.newBrk));
    }
  }

  lemma TilesSnoc(segs: seq<Segment>, n: nat, a: int, b: int, end: int)
    requires n <= |segs| && Tiles(segs[n..], a, b) && Aligned(b) && b < end
    ensures Tiles((segs + [Segment(b, end - b)])[n..], a, end)
  {
    var s := Segment(b, end - b);
    var t := (segs + [s])[n..];
    assert t == segs[n..] + [s] && t[|t| - 1] == s && t[..|t| - 1] == segs[n..];
  }

  /** If the mapping succeeds, the break stays within the heap if and only if the new break can be
      rounded up; mmap refuses the negative length that follows from an overflow. */
  lemma BrkExactly(m: Memory, n: nat, c: Call)
    requires Running(m, n) && AddrT(c.newBrk) && c.newBrk > m.heapEnd && c.mapped
    ensures Brk(m, c).brk <= Brk(m, c).heapEnd <==> Roundable(c.newBrk)
  {
    hide RoundUp;
    if Roundable(c.newBrk) { RoundUpMeans(c.newBrk); } else { RoundUpOverflows(c.newBrk); }
  }

  // ---------------------------------------------------------------------------------------------
  // Whole runs

  function LoadAll(m: Memory, phs: seq<Phdr>): Memory {
    if phs == [] then m else Load(LoadAll(m, phs[..|phs| - 1]), phs[|phs| - 1])
  }

  function BrkAll(m: Memory, calls: seq<Call>): Memory {
    if calls == [] then m else Brk(BrkAll(m, calls[..|calls| - 1]), calls[|calls| - 1])
  }

  /** map_proxy_stack */
  function MapStack(m: Memory, top: int, size: int): Memory {
    m.(segments := m.segments + [Segment(top - size, size)])
  }

  lemma {:induction false} LoadingAll(phs: seq<Phdr>)
    requires forall i :: 0 <= i < |phs| ==> Loadable(phs[i]) && Congruent(phs[i])
    ensures Loading(LoadAll(EMPTY, phs))
  {
    hide Load, Loading, Loadable, Congruent;
    if phs == [] {
      EmptyLoading();
    } else {
      LoadingAll(phs[..|phs| - 1]);
      LoadKeeps(LoadAll(EMPTY, phs[..|phs| - 1]), phs[|phs| - 1]);
    }
  }

  lemma EmptyLoading()
    ensures Loading(EMPTY)
  {}

  /** The memory that the headers ask for, in order. */
  function Spans(phs: seq<Phdr>): (segs: seq<Segment>)
    ensures |segs| == |phs| && forall i :: 0 <= i < |segs| ==> segs[i] == Segment(phs[i].vaddr, phs[i].memsz)
  {
    seq(|phs|, i requires 0 <= i < |phs| => Segment(phs[i].vaddr, phs[i].memsz))
  }

  function End(ph: Phdr): int { ph.vaddr + ph.memsz }

  /** x is the largest of the ends, or 0 if there are none. */
  ghost predicate LastEnd(phs: seq<Phdr>, x: int) {
    && (forall i :: 0 <= i < |phs| ==> End(phs[i]) <= x)
    && if phs == [] then x == 0 else exists i :: 0 <= i < |phs| && End(phs[i]) == x
  }

  /** What loading any headers leaves: exactly their spans, the break at the end of the last of them, and the
      heap within a page above it. */
  lemma {:induction false} LoadedIs(phs: seq<Phdr>)
    requires forall i :: 0 <= i < |phs| ==> Loadable(phs[i])
    ensures var m := LoadAll(EMPTY, phs);
            && m.segments == Spans(phs) && LastEnd(phs, m.brk)
            && m.heapBegin == m.heapEnd && m.brk <= m.heapEnd && (m.heapEnd == 0 || m.heapEnd < m.brk + PAGE)
  {
    hide Load, Loadable, LastEnd;
    if phs == [] {
      NothingLoaded();
    } else {
      var n := |phs| - 1;
      LoadedIs(phs[..n]);
      var before := LoadAll(EMPTY, phs[..n]);
      assert phs == phs[..n] + [phs[n]] && Spans(phs) == Spans(phs[..n]) + [Segment(phs[n].vaddr, phs[n].memsz)];
      LoadStep(phs[..n], before, phs[n]);
    }
  }

  lemma NothingLoaded()
    ensures LoadAll(EMPTY, []) == EMPTY && LastEnd([], 0)
  {}

  lemma LoadStep(phs: seq<Phdr>, m: Memory, ph: Phdr)
    requires Loadable(ph) && LastEnd(phs, m.brk)
    requires m.heapBegin == m.heapEnd && m.brk <= m.heapEnd && (m.heapEnd == 0 || m.heapEnd < m.brk + PAGE)
    ensures var r := Load(m, ph);
            && r.segments == m.segments + [Segment(ph.vaddr, ph.memsz)] && LastEnd(phs + [ph], r.brk)
            && r.heapBegin == r.heapEnd && r.brk <= r.heapEnd && (r.heapEnd == 0 || r.heapEnd < r.brk + PAGE)
  {
    hide MapEnd, Signed, Pow2;
    Pow2Values();
    MapEndMeans(ph);
    SignedIdentity(64, ph.vaddr + ph.memsz);
    LastEndSnoc(phs, m.brk, ph);
  }

  lemma LastEndSnoc(phs: seq<Phdr>, x: int, ph: Phdr)
    requires LastEnd(phs, x) && 0 <= End(ph)
    ensures LastEnd(phs + [ph], if x < End(ph) then End(ph) else x)
  {
    var all := phs + [ph];
    assert all[|phs|] == ph;
    if phs != [] {
      var i :| 0 <= i < |phs| && End(phs[i]) == x;
      assert all[i] == phs[i];
    }
  }

  lemma {:induction false} RunningAll(m: Memory, n: nat, calls: seq<Call>)
    requires Running(m, n) && forall i :: 0 <= i < |calls| && calls[i].mapped ==> Roundable(calls[i].newBrk)
    ensures Running(BrkAll(m, calls), n)
    ensures BrkAll(m, calls).heapBegin == m.heapBegin && m.heapEnd <= BrkAll(m, calls).heapEnd
    ensures |m.segments| <= |BrkAll(m, calls).segments| && BrkAll(m, calls).segments[..|m.segments|] == m.segments
  {
    hide Brk, Running, Roundable;
    if calls != [] {
      var k := |calls| - 1;
      RunningAll(m, n, calls[..k]);
      var before := BrkAll(m, calls[..k]);
      BrkKeeps(before, n, calls[k]);
      var after := Brk(before, calls[k]);
      assert after.segments[..|m.segments|] == after.segments[..|before.segments|][..|m.segments|];
    }
  }

  /** Any program headers, then the stack, then any sequence of brk calls with mappings that succeed or
      fail: the break stays at or below the end of the heap, the heap's ends are page-aligned, its end
      has never moved down, and the segments that brk added tile it exactly, above all that was loaded. */
  lemma ImageInvariant(phs: seq<Phdr>, top: int, size: int, calls: seq<Call>)
    requires forall i :: 0 <= i < |phs| ==> Loadable(phs[i]) && Congruent(phs[i])
    requires forall i :: 0 <= i < |calls| && calls[i].mapped ==> Roundable(calls[i].newBrk)
    ensures var loaded := LoadAll(EMPTY, phs);
            var started := MapStack(loaded, top, size);
            var m := BrkAll(started, calls);
            var n := |started.segments|;
            && m.brk <= m.heapEnd && Aligned(m.heapBegin) && Aligned(m.heapEnd)
            && loaded.heapEnd == m.heapBegin <= m.heapEnd
            && n <= |m.segments| && m.segments[..n] == Spans(phs) + [Segment(top - size, size)]
            && Tiles(m.segments[n..], m.heapBegin, m.heapEnd)
            && Below(loaded.segments, m.heapBegin)
  {
    hide Load, Brk, LoadAll, BrkAll, Tiles, Roundable;
    LoadingAll(phs);
    LoadedIs(phs);
    var started := MapStack(LoadAll(EMPTY, phs), top, size);
    NoTiles(started.segments, started.heapBegin);
    RunningAll(started, |started.segments|, calls);
  }

  lemma NoTiles(segs: seq<Segment>, a: int)
    ensures Tiles(segs[|segs|..], a, a)
  {}

  /** The heap does not shrink between any two points of a run. */
  lemma HeapOnlyGrows(m: Memory, n: nat, calls: seq<Call>, k: nat)
    requires Running(m, n) && k <= |calls|
    requires forall i :: 0 <= i < |calls| && calls[i].mapped ==> Roundable(calls[i].newBrk)
    ensures BrkAll(m, calls[..k]).heapEnd <= BrkAll(m, calls).heapEnd
  {
    hide Running, Roundable, BrkAll;
    RunningAll(m, n, calls[..k]);
    RunningAll(BrkAll(m, calls[..k]), n, calls[k..]);
    BrkAllSplit(m, calls, k);
  }

  lemma {:induction false} BrkAllSplit(m: Memory, calls: seq<Call>, k: nat)
    requires k <= |calls|
    ensures BrkAll(m, calls) == BrkAll(BrkAll(m, calls[..k]), calls[k..])
    decreases |calls|
  {
    hide Brk;
    var last := |calls| - 1;
    if k == |calls| {
      assert calls[..k] == calls && calls[k..] == [];
    } else {
      BrkAllSplit(m, calls[..last], k);
      assert calls[..last][..k] == calls[..k] && calls[..last][k..] == calls[k..][..last - k];
      assert calls[k..][|calls[k..]| - 1] == calls[last];
    }
  }

  /** The call moves the break. */
  predicate Moves(m: Memory, c: Call) {
    c.newBrk != 0 && (c.newBrk <= m.heapEnd || c.mapped)
  }

  /** The break that the last moving call of a run asked for, or the one before the run. */
  function LastAsked(m: Memory, calls: seq<Call>): int {
    if calls == [] then m.brk
    else
      var n := |calls| - 1;
      if Moves(BrkAll(m, calls[..n]), calls[n]) then calls[n].newBrk else LastAsked(m, calls[..n])
  }

  /** After any run, brk(0) answers what the last successful call asked for, whatever failed since. */
  lemma {:induction false} QueryAnswersLast(m: Memory, calls: seq<Call>, mapped: bool)
    ensures BrkResult(BrkAll(m, calls), Call(0, mapped)) == LastAsked(m, calls)
  {
    hide RoundUp;
    if calls != [] { QueryAnswersLast(m, calls[..|calls| - 1], mapped); }
  }

  /** The heap ends where it ended, or within a page above a break that was mapped; and no break that the
      run set lies above it. */
  lemma {:induction false} HeapEndsAt(m: Memory, n: nat, calls: seq<Call>)
    requires Running(m, n) && forall i :: 0 <= i < |calls| && calls[i].mapped ==> Roundable(calls[i].newBrk)
    ensures var r := BrkAll(m, calls);
            && (r.heapEnd == m.heapEnd
                || exists k :: 0 <= k < |calls| && calls[k].mapped && EndsPage(calls[k].newBrk, r.heapEnd))
            && forall k :: 0 <= k < |calls| && Moves(BrkAll(m, calls[..k]), calls[k]) ==> calls[k].newBrk <= r.heapEnd
  {
    hide Brk, Running, Roundable, Moves, EndsPage;
    if calls != [] {
      var last := |calls| - 1;
      HeapEndsAt(m, n, calls[..last]);
      RunningAll(m, n, calls[..last]);
      var before := BrkAll(m, calls[..last]);
      OneBrk(before, n, calls[last]);
      forall k | 0 <= k < last ensures calls[..last][..k] == calls[..k] && calls[..last][k] == calls[k] {}
    }
  }

  /** x is the first page boundary at or above a. */
  predicate EndsPage(a: int, x: int) {
    Aligned(x) && a <= x < a + PAGE
  }

  lemma OneBrk(m: Memory, n: nat, c: Call)
    requires Running(m, n) && (c.mapped ==> Roundable(c.newBrk))
    ensures var r := Brk(m, c);
            && (r.heapEnd == m.heapEnd || (c.mapped && EndsPage(c.newBrk, r.heapEnd)))
            && m.heapEnd <= r.heapEnd && (Moves(m, c) ==> c.newBrk <= r.heapEnd)
  {
    hide RoundUp;
    if c.newBrk > m.heapEnd && c.mapped { RoundUpMeans(c.newBrk); }
  }

  /** After any run the break lies in the heap if and only if the last successful call asked for an address
      at or above its begin; brk itself accepts any address up to the heap's end, negative ones too. */
  lemma BreakInHeapWhen(m: Memory, n: nat, calls: seq<Call>)
    requires Running(m, n) && forall i :: 0 <= i < |calls| && calls[i].mapped ==> Roundable(calls[i].newBrk)
    ensures var r := BrkAll(m, calls); r.heapBegin <= r.brk <= r.heapEnd <==> m.heapBegin <= LastAsked(m, calls)
  {
    hide BrkAll, LastAsked, Roundable, Tiles;
    RunningAll(m, n, calls);
    QueryAnswersLast(m, calls, true);
  }

  /** brk(-1) puts the break at -1. */
  lemma BreakBelowHeap(mapped: bool)
    ensures Running(EMPTY, 0) && BrkAll(EMPTY, [Call(-1, mapped)]).brk == -1 < EMPTY.heapBegin
  {
    var c := Call(-1, mapped);
    assert [c][..0] == [] && BrkAll(EMPTY, []) == EMPTY;
  }

  // ---------------------------------------------------------------------------------------------
  // What tiling means

  predicate Holds(s: Segment, x: int) {
    s.start <= x < s.start + s.size
  }

  /** Every heap address lies in one tile, and no other address does. */
  lemma {:induction false} TilesCover(segs: seq<Segment>, a: int, b: int, x: int)
    requires Tiles(segs, a, b)
    ensures a <= b
    ensures a <= x < b <==> exists i :: 0 <= i < |segs| && Holds(segs[i], x)
  {
    if segs != [] {
      var n := |segs| - 1;
      TilesCover(segs[..n], a, segs[n].start, x);
      if i :| 0 <= i < |segs[..n]| && Holds(segs[..n][i], x) { assert Holds(segs[i], x); }
      if i :| 0 <= i < |segs| && Holds(segs[i], x) { if i < n { assert Holds(segs[..n][i], x); } }
      assert segs[n].start <= x < b ==> Holds(segs[n], x);
    }
  }

  lemma {:induction false} TilesApart(segs: seq<Segment>, a: int, b: int, x: int, i: nat, j: nat)
    requires Tiles(segs, a, b) && i < j < |segs|
    ensures !(Holds(segs[i], x) && Holds(segs[j], x))
    decreases |segs|
  {
    var n := |segs| - 1;
    if j < n {
      TilesApart(segs[..n], a, segs[n].start, x, i, j);
    } else {
      TilesCover(segs[..n], a, segs[n].start, x);
      if Holds(segs[i], x) { assert Holds(segs[..n][i], x); }
    }
  }

  // ---------------------------------------------------------------------------------------------
  // The operations

  class ProxyMemory {
    var segments: seq<Segment>
    var heapBegin: int
    var heapEnd: int
    var brk: int

    function State(): Memory
      reads this
    {
      Memory(segments, heapBegin, heapEnd, brk)
    }

    constructor ()
      ensures State() == EMPTY
    {
      segments, heapBegin, heapEnd, brk := [], 0, 0, 0;
    }

    /** map_load_segment_user; panics if the file cannot be mapped */
    method LoadSegment(ph: Phdr, mapped: bool) returns (panic: bool)
      modifies this
      ensures panic == !mapped && State() == if panic then old(State()) else Load(old(State()), ph)
      ensures Loading(old(State())) && Loadable(ph) && Congruent(ph) ==> Loading(State())
    {
      hide RoundUp, Signed, Loading;
      ghost var before := State();
      var delta := ph.offset % PAGE;
      var mapVaddr := ph.vaddr - delta;
      var mapLen := RoundUp(ph.memsz + delta);
      var mapEnd := Signed(64, mapVaddr + mapLen);
      var end := Signed(64, ph.vaddr + ph.memsz);
      if !mapped { return true; }
      segments := segments + [Segment(ph.vaddr, ph.memsz)];
      if heapBegin < mapEnd {
        heapEnd := mapEnd;
        heapBegin := heapEnd;
      }
      if brk < end { brk := end; }
      if Loading(before) && Loadable(ph) && Congruent(ph) { LoadKeeps(before, ph); }
      return false;
    }

    /** abi_sys_brk */
    method SysBrk(newBrk: int, mapped: bool, ghost n: nat) returns (a0: int)
      modifies this
      ensures State() == Brk(old(State()), Call(newBrk, mapped)) && a0 == BrkResult(old(State()), Call(newBrk, mapped))
      ensures Running(old(State()), n) && (mapped ==> Roundable(newBrk)) ==> Running(State(), n)
      ensures newBrk != 0 && newBrk > old(heapEnd) && !mapped ==> a0 == -ENOMEM && State() == old(State())
      ensures newBrk == 0 || newBrk <= old(heapEnd) || mapped ==> a0 == brk
    {
      hide RoundUp, Running, Roundable;
      ghost var before := State();
      var newHeapEnd := RoundUp(newBrk);
      if Running(before, n) && (mapped ==> Roundable(newBrk)) { BrkKeeps(before, n, Call(newBrk, mapped)); }
      if newBrk == 0 { return brk; }
      if newBrk <= heapEnd {
        brk := newBrk;
        return brk;
      }
      if !mapped { return -ENOMEM; }
      segments := segments + [Segment(heapEnd, newHeapEnd - heapEnd)];
      heapEnd := newHeapEnd;
      brk := newBrk;
      return brk;
    }
  }

  /** A break in the last page whose mapping succeeded would lie outside the heap. */
  lemma BrkOverflows()
    ensures Running(EMPTY, 0)
    ensures var m := Brk(EMPTY, Call(0x7fff_ffff_ffff_ffff, true)); m.heapEnd < 0 < m.brk
  {
    hide RoundUp;
    RoundUpOverflows(0x7fff_ffff_ffff_ffff);
  }
}
