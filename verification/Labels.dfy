/**
  Labels of the assembler (src/asm/assembler.cc): named labels, numbered local labels and
  constants, the two maps that hold them, and the forward and backward search for the local
  label that a reference such as 1f or 1b means.
 */
module Labels {
  import opened Bits
  import opened Options
  import opened Sets

  // ---------------------------------------------------------------------------------------------
  // Decimal numerals: std::to_string and strtoull

  function Digit(d: nat): (c: char)
    requires d < 10
    ensures '0' <= c <= '9'
  {
    '0' + d as char
  }

  function Decimal(n: nat): (s: string)
    ensures |s| > 0 && AllDigits(s)
  {
    if n < 10 then [Digit(n)] else Decimal(n / 10) + [Digit(n % 10)]
  }

  predicate AllDigits(s: string) {
    forall i :: 0 <= i < |s| ==> '0' <= s[i] <= '9'
  }

  function ToString(v: int): string {
    if v < 0 then "-" + Decimal(-v) else Decimal(v)
  }

  function ValueOf(s: string): nat
    requires AllDigits(s)
  {
    if s == [] then 0 else 10 * ValueOf(s[..|s| - 1]) + (s[|s| - 1] as int - '0' as int)
  }

  lemma {:induction false} DecimalRoundTrip(n: nat)
    ensures ValueOf(Decimal(n)) == n
  {
    var s := Decimal(n);
    if n >= 10 {
      DecimalRoundTrip(n / 10);
      assert s[..|s| - 1] == Decimal(n / 10) && s[|s| - 1] == Digit(n % 10);
    } else {
      assert s[..0] == [];
    }
  }

  /** strtoull saturates; the result is converted to s64. */
  function ParseNum(s: string): int
    requires AllDigits(s)
  {
    var v := ValueOf(s);
    Signed(64, if v < Pow2(64) then v else Pow2(64) - 1)
  }

  /** check_local: \d+[fb] */
  predicate CheckLocal(s: string) {
    |s| >= 2 && (s[|s| - 1] == 'b' || s[|s| - 1] == 'f') && AllDigits(s[..|s| - 1])
  }

  /** The name that add_label(num) tries in round i. */
  function LocalName(num: int, i: nat): string {
    ".L" + ToString(num) + Decimal(i)
  }

  /** The names tried in different rounds differ. */
  lemma LocalNamesDiffer(num: int, i: nat, j: nat)
    requires LocalName(num, i) == LocalName(num, j)
    ensures i == j
  {
    hide Decimal, ToString;
    var p := ".L" + ToString(num);
    assert LocalName(num, i)[|p|..] == Decimal(i) && LocalName(num, j)[|p|..] == Decimal(j);
    DecimalRoundTrip(i);
    DecimalRoundTrip(j);
  }

  // ---------------------------------------------------------------------------------------------
  // Offsets and the ordered index

  /** section_offset, ordered as a pair. */
  datatype Offset = Offset(section: nat, offset: nat)

  predicate Before(a: Offset, b: Offset) {
    a.section < b.section || (a.section == b.section && a.offset < b.offset)
  }

  /** The section index of add_constant. */
  const SHN_ABS: nat := 0xfff1

  datatype Label = Label(name: string, at: Offset, num: int)

  datatype Entry = Entry(at: Offset, id: nat)

  ghost predicate Sorted(index: seq<Entry>) {
    forall i, j :: 0 <= i < j < |index| ==> Before(index[i].at, index[j].at)
  }

  /** labels_byoffset[e.at] = e.id */
  function Insert(index: seq<Entry>, e: Entry): seq<Entry> {
    if index == [] || Before(e.at, index[0].at) then [e] + index
    else if index[0].at == e.at then [e] + index[1..]
    else [index[0]] + Insert(index[1..], e)
  }

  lemma {:induction false} InsertMeans(index: seq<Entry>, e: Entry)
    requires Sorted(index)
    ensures Sorted(Insert(index, e))
    ensures forall x :: x in Insert(index, e) <==> x == e || (x in index && x.at != e.at)
  {
    if index != [] {
      InsertMeans(index[1..], e);
      var r := Insert(index, e);
      assert forall x :: x in index[1..] ==> Before(index[0].at, x.at);
      assert index == [index[0]] + index[1..];
      if !Before(e.at, index[0].at) && index[0].at != e.at {
        var tail := Insert(index[1..], e);
        forall j | 0 <= j < |tail| ensures Before(index[0].at, tail[j].at) { assert tail[j] in tail; }
      }
    }
  }

  // ---------------------------------------------------------------------------------------------
  // What a local reference means

  /** No label was added later at the same offset. */
  ghost predicate Latest(labels: seq<Label>, id: nat) {
    id < |labels| && forall later :: id < later < |labels| ==> labels[later].at != labels[id].at
  }

  ghost predicate Candidate(labels: seq<Label>, id: nat, num: int) {
    Latest(labels, id) && labels[id].num == num
  }

  ghost predicate NearestAfter(labels: seq<Label>, site: Offset, num: int, id: nat) {
    && Candidate(labels, id, num) && Before(site, labels[id].at)
    && forall k: nat :: Candidate(labels, k, num) && Before(site, labels[k].at) ==> !Before(labels[k].at, labels[id].at)
  }

  ghost predicate NearestBefore(labels: seq<Label>, site: Offset, num: int, id: nat) {
    && Candidate(labels, id, num) && !Before(site, labels[id].at)
    && forall k: nat :: Candidate(labels, k, num) && !Before(site, labels[k].at) ==>
         !Before(labels[id].at, labels[k].at)
  }

  /** The outcome of the forward and of the backward search. */
  ghost predicate FoundAfter(labels: seq<Label>, site: Offset, num: int, r: Option<nat>) {
    match r
    case Some(id) => NearestAfter(labels, site, num, id)
    case None => forall k: nat :: Candidate(labels, k, num) ==> !Before(site, labels[k].at)
  }

  ghost predicate FoundBefore(labels: seq<Label>, site: Offset, num: int, r: Option<nat>) {
    match r
    case Some(id) => NearestBefore(labels, site, num, id)
    case None => forall k: nat :: Candidate(labels, k, num) ==> Before(site, labels[k].at)
  }

  ghost predicate FoundByName(labels: seq<Label>, name: string, r: Option<nat>) {
    match r
    case Some(id) => id < |labels| && labels[id].name == name
    case None => forall id :: 0 <= id < |labels| ==> labels[id].name != name
  }

  /** What a reference from a site means: a number with f or b is a local label, anything else a
      label name. */
  ghost predicate Resolves(labels: seq<Label>, site: Offset, name: string, r: Option<nat>) {
    if CheckLocal(name) then
      var num := ParseNum(name[..|name| - 1]);
      if name[|name| - 1] == 'f' then FoundAfter(labels, site, num, r) else FoundBefore(labels, site, num, r)
    else FoundByName(labels, name, r)
  }

  /** A reference has one meaning. */
  lemma NearestIsUnique(labels: seq<Label>, site: Offset, num: int, i: nat, j: nat)
    ensures NearestAfter(labels, site, num, i) && NearestAfter(labels, site, num, j) ==> i == j
    ensures NearestBefore(labels, site, num, i) && NearestBefore(labels, site, num, j) ==> i == j
  {
    if (NearestAfter(labels, site, num, i) && NearestAfter(labels, site, num, j))
      || (NearestBefore(labels, site, num, i) && NearestBefore(labels, site, num, j)) {
      assert Candidate(labels, i, num) && Candidate(labels, j, num);
      assert labels[i].at == labels[j].at;
    }
  }

  ghost predicate DistinctNames(labels: seq<Label>) {
    forall i, j :: 0 <= i < j < |labels| ==> labels[i].name != labels[j].name
  }

  /** No two outcomes of a lookup are both right. */
  lemma ResolvesOnce(labels: seq<Label>, site: Offset, name: string, r: Option<nat>, q: Option<nat>)
    requires DistinctNames(labels) && Resolves(labels, site, name, r) && Resolves(labels, site, name, q)
    ensures r == q
  {
    hide ParseNum, Latest;
    if CheckLocal(name) {
      var num := ParseNum(name[..|name| - 1]);
      OneOutcome(labels, site, num, r, q);
    } else if r.Some? && q.Some? {
      assert r.value == q.value;
    }
  }

  lemma OneOutcome(labels: seq<Label>, site: Offset, num: int, r: Option<nat>, q: Option<nat>)
    ensures FoundAfter(labels, site, num, r) && FoundAfter(labels, site, num, q) ==> r == q
    ensures FoundBefore(labels, site, num, r) && FoundBefore(labels, site, num, q) ==> r == q
  {
    if r.Some? && q.Some? { NearestIsUnique(labels, site, num, r.value, q.value); }
  }

  /** Which function made a label. */
  datatype Origin = ByName | ByConstant | ByNumber(num: int)

  /** A label that was made without a number has number 0. */
  ghost predicate OriginsOk(labels: seq<Label>, origin: seq<Origin>) {
    && |origin| == |labels|
    && forall id :: 0 <= id < |labels| ==> labels[id].num == if origin[id].ByNumber? then origin[id].num else 0
  }

  class LabelTable {
    /** The labels ever made, oldest first; the maps hold references to them. */
    var labels: seq<Label>
    /** How they were made. */
    ghost var origin: seq<Origin>
    /** labels_byname */
    var byName: map<string, nat>
    /** labels_byoffset, in the order of its keys */
    var byOffset: seq<Entry>

    ghost predicate NamesOk()
      reads this
    {
      && (forall n :: n in byName ==> byName[n] < |labels| && labels[byName[n]].name == n)
      && forall id :: 0 <= id < |labels| ==> labels[id].name in byName && byName[labels[id].name] == id
    }

    /** The index holds at each offset the label that was added last. */
    ghost predicate IndexOk()
      reads this
    {
      && Sorted(byOffset)
      && forall e :: e in byOffset <==> Latest(labels, e.id) && labels[e.id].at == e.at
    }

    ghost predicate Valid()
      reads this
    {
      NamesOk() && IndexOk() && OriginsOk(labels, origin)
    }

    constructor ()
      ensures Valid() && labels == [] && byName == map[] && byOffset == [] && origin == []
    {
      labels, byName, byOffset, origin := [], map[], [], [];
    }

    /** make_shared<label> and the two insertions */
    method Enter(l: Label, ghost how: Origin) returns (id: nat)
      requires Valid() && l.name !in byName && l.num == 0 && !how.ByNumber?
      modifies this
      ensures Valid() && id == |old(labels)| && origin == old(origin) + [how]
      ensures labels == old(labels) + [l] && byName == old(byName)[l.name := id]
    {
      id := |labels|;
      InsertMeans(byOffset, Entry(l.at, id));
      LatestAfterAdding(labels, l);
      labels, origin := labels + [l], origin + [how];
      byName := byName[l.name := id];
      byOffset := Insert(byOffset, Entry(l.at, id));
      assert forall k :: 0 <= k < id ==> labels[k] == old(labels)[k];
      assert NamesOk();
      forall e ensures e in byOffset <==> Latest(labels, e.id) && labels[e.id].at == e.at {
        assert e in old(byOffset) <==> Latest(old(labels), e.id) && old(labels)[e.id].at == e.at;
        assert e.id < |labels| ==>
          (Latest(labels, e.id) <==> e.id == id || (Latest(old(labels), e.id) && labels[e.id].at != l.at));
      }
    }

    /** add_label(name, offset) */
    method AddLabel(name: string, at: Offset) returns (r: Option<nat>)
      requires Valid()
      modifies this
      ensures Valid()
      ensures name in old(byName) ==>
        && r == None && labels == old(labels) && byName == old(byName)
        && byOffset == old(byOffset) && origin == old(origin)
      ensures name !in old(byName) ==>
        && r == Some(|old(labels)|) && labels == old(labels) + [Label(name, at, 0)] && origin == old(origin) + [ByName]
        && byName == old(byName)[name := |old(labels)|]
    {
      if name in byName { return None; }
      var id := Enter(Label(name, at, 0), ByName);
      return Some(id);
    }

    /** add_constant(name, value) */
    method AddConstant(name: string, value: int) returns (r: Option<nat>)
      requires Valid()
      modifies this
      ensures Valid()
      ensures name in old(byName) ==>
        && r == None && labels == old(labels) && byName == old(byName)
        && byOffset == old(byOffset) && origin == old(origin)
      ensures name !in old(byName) ==>
        && r == Some(|old(labels)|) && byName == old(byName)[name := |old(labels)|]
        && origin == old(origin) + [ByConstant]
        && labels == old(labels) + [Label(name, Offset(SHN_ABS, Unsigned(64, value)), 0)]
    {
      hide Unsigned;
      if name in byName { return None; }
      var id := Enter(Label(name, Offset(SHN_ABS, Unsigned(64, value)), 0), ByConstant);
      return Some(id);
    }

    /** add_label(num): terminates with a fresh label, under the first name of its series that is
        still free. */
    method AddLocal(num: int, here: Offset) returns (id: nat, ghost i: nat)
      requires Valid()
      modifies this
      ensures Valid() && id == |old(labels)|
      ensures i >= 1 && LocalName(num, i) !in old(byName)
      ensures forall j :: 1 <= j < i ==> LocalName(num, j) in old(byName)
      ensures labels == old(labels) + [Label(LocalName(num, i), here, num)] && origin == old(origin) + [ByNumber(num)]
      ensures byName == old(byName)[LocalName(num, i) := id]
    {
      hide LocalName;
      var n := FreeName(num);
      i := n;
      var name := LocalName(num, n);
      var r := AddLabel(name, here);
      id := r.value;
      Renumber(id, num);
    }

    /** The loop of add_label(num) */
    method FreeName(num: int) returns (n: nat)
      ensures n >= 1 && LocalName(num, n) !in byName
      ensures forall j :: 1 <= j < n ==> LocalName(num, j) in byName
    {
      hide LocalName;
      n := 1;
      ghost var tried: set<string> := {};
      while LocalName(num, n) in byName
        invariant n >= 1 && |tried| == n - 1 && tried <= byName.Keys
        invariant forall s :: s in tried <==> exists j :: 1 <= j < n && s == LocalName(num, j)
        invariant forall j :: 1 <= j < n ==> LocalName(num, j) in byName
        decreases |byName.Keys| - n
      {
        MoreToTry(num, n, tried, byName.Keys);
        tried := tried + {LocalName(num, n)};
        n := n + 1;
      }
    }

    /** l->num = num, on the label just made */
    method Renumber(id: nat, num: int)
      requires Valid() && id < |labels|
      modifies this`labels, this`origin
      ensures Valid() && labels == old(labels)[id := old(labels)[id].(num := num)]
      ensures origin == old(origin)[id := ByNumber(num)]
    {
      labels, origin := labels[id := labels[id].(num := num)], origin[id := ByNumber(num)];
      forall k: nat ensures Latest(labels, k) <==> Latest(old(labels), k) {
        assert forall m :: 0 <= m < |labels| ==> labels[m].at == old(labels)[m].at;
      }
    }

    /** lookup_label_f */
    method LookupForward(site: Offset, num: int) returns (r: Option<nat>)
      requires Valid()
      ensures FoundAfter(labels, site, num, r)
      ensures r.Some? && num != 0 ==> r.value < |origin| && origin[r.value] == ByNumber(num)
    {
      var found := false;
      var i := 0;
      while i < |byOffset|
        invariant 0 <= i <= |byOffset|
        invariant !found ==> forall k :: 0 <= k < i ==> !Before(site, byOffset[k].at)
        invariant found ==> exists k :: 0 <= k < i && Before(site, byOffset[k].at)
        invariant forall k :: 0 <= k < i && Before(site, byOffset[k].at) ==> labels[byOffset[k].id].num != num
      {
        if Before(site, byOffset[i].at) { found := true; }
        assert byOffset[i] in byOffset;
        if found && labels[byOffset[i].id].num == num {
          FirstHit(labels, byOffset, site, num, i);
          return Some(byOffset[i].id);
        }
        i := i + 1;
      }
      forall k: nat | Candidate(labels, k, num) ensures !Before(site, labels[k].at) {
        assert Entry(labels[k].at, k) in byOffset;
      }
      return None;
    }

    /** lookup_label_b */
    method LookupBackward(site: Offset, num: int) returns (r: Option<nat>)
      requires Valid()
      ensures FoundBefore(labels, site, num, r)
      ensures r.Some? && num != 0 ==> r.value < |origin| && origin[r.value] == ByNumber(num)
    {
      r := None;
      ghost var last := 0;
      var i := 0;
      while i < |byOffset|
        invariant 0 <= i <= |byOffset|
        invariant forall k :: 0 <= k < i ==> !Before(site, byOffset[k].at)
        invariant r.Some? ==>
          last < i && r.value == byOffset[last].id && byOffset[last].id < |labels| && labels[r.value].num == num
        invariant forall k :: (if r.Some? then last + 1 else 0) <= k < i ==>
          byOffset[k] in byOffset && labels[byOffset[k].id].num != num
      {
        if Before(site, byOffset[i].at) { break; }
        assert byOffset[i] in byOffset;
        if labels[byOffset[i].id].num == num { r := Some(byOffset[i].id); last := i; }
        i := i + 1;
      }
      LastHit(labels, byOffset, site, num, i, last, r.Some?);
    }

    /** lookup_label(name) */
    method LookupName(name: string) returns (r: Option<nat>)
      requires Valid()
      ensures FoundByName(labels, name, r)
    {
      return if name in byName then Some(byName[name]) else None;
    }

    /** lookup_label(reloc, name) */
    method Lookup(site: Offset, name: string) returns (r: Option<nat>)
      requires Valid()
      ensures Resolves(labels, site, name, r)
    {
      hide ParseNum;
      if CheckLocal(name) {
        var num := ParseNum(name[..|name| - 1]);
        if name[|name| - 1] == 'f' { r := LookupForward(site, num); } else { r := LookupBackward(site, num); }
      } else {
        r := LookupName(name);
      }
    }
  }

  lemma LatestAfterAdding(labels: seq<Label>, l: Label)
    ensures var all := labels + [l];
            forall id: nat :: Latest(all, id) <==> id == |labels| || (Latest(labels, id) && labels[id].at != l.at)
  {
    var all := labels + [l];
    forall id: nat ensures Latest(all, id) <==> id == |labels| || (Latest(labels, id) && labels[id].at != l.at) {
      assert forall k :: 0 <= k < |labels| ==> all[k] == labels[k];
      if id < |labels| { assert all[|labels|].at == l.at; }
    }
  }

  /** The names tried so far are distinct members of a finite set, so some remain. */
  lemma MoreToTry(num: int, n: nat, tried: set<string>, names: set<string>)
    requires n >= 1 && |tried| == n - 1 && tried <= names && LocalName(num, n) in names
    requires forall s :: s in tried <==> exists j :: 1 <= j < n && s == LocalName(num, j)
    ensures LocalName(num, n) !in tried && |tried + {LocalName(num, n)}| == n <= |names|
  {
    hide LocalName;
    if LocalName(num, n) in tried {
      var j :| 1 <= j < n && LocalName(num, n) == LocalName(num, j);
      LocalNamesDiffer(num, n, j);
    }
    SubsetSize(tried + {LocalName(num, n)}, names);
  }

  ghost predicate Indexed(labels: seq<Label>, index: seq<Entry>) {
    Sorted(index) && forall e :: e in index <==> Latest(labels, e.id) && labels[e.id].at == e.at
  }

  lemma FirstHit(labels: seq<Label>, index: seq<Entry>, site: Offset, num: int, i: nat)
    requires Indexed(labels, index) && i < |index| && index[i].id < |labels|
    requires exists k :: 0 <= k <= i && Before(site, index[k].at)
    requires labels[index[i].id].num == num
    requires forall k :: 0 <= k < i && Before(site, index[k].at) ==>
      index[k].id < |labels| && labels[index[k].id].num != num
    ensures NearestAfter(labels, site, num, index[i].id)
  {
    assert index[i] in index;
    forall k: nat | Candidate(labels, k, num) && Before(site, labels[k].at)
      ensures !Before(labels[k].at, labels[index[i].id].at)
    {
      assert Entry(labels[k].at, k) in index;
      var m :| 0 <= m < |index| && index[m] == Entry(labels[k].at, k);
    }
  }

  lemma LastHit(labels: seq<Label>, index: seq<Entry>, site: Offset, num: int, i: nat, last: nat, some: bool)
    requires Indexed(labels, index) && i <= |index|
    requires i < |index| ==> Before(site, index[i].at)
    requires forall k :: 0 <= k < i ==> !Before(site, index[k].at)
    requires some ==> last < i && index[last].id < |labels| && labels[index[last].id].num == num
    requires forall k :: (if some then last + 1 else 0) <= k < i ==>
      index[k].id < |labels| && labels[index[k].id].num != num
    ensures some ==> NearestBefore(labels, site, num, index[last].id)
    ensures !some ==> forall k: nat :: Candidate(labels, k, num) ==> Before(site, labels[k].at)
  {
    if some { assert index[last] in index; }
    forall k: nat | Candidate(labels, k, num)
      ensures some && !Before(site, labels[k].at) ==> !Before(labels[index[last].id].at, labels[k].at)
      ensures !some ==> Before(site, labels[k].at)
    {
      assert Entry(labels[k].at, k) in index;
      var m :| 0 <= m < |index| && index[m] == Entry(labels[k].at, k);
      assert m >= i ==> Before(site, labels[k].at);
    }
  }

  // ---------------------------------------------------------------------------------------------
  // When a reference finds the label it names

  /** A reference written with the numeral of n is looked up under n, if n fits s64. */
  lemma LocalReference(n: nat, suffix: char)
    requires n < Pow2(63) && (suffix == 'f' || suffix == 'b')
    ensures CheckLocal(Decimal(n) + [suffix]) && ParseNum(Decimal(n)) == n
    ensures (Decimal(n) + [suffix])[..|Decimal(n)|] == Decimal(n)
  {
    hide Decimal, Pow2, Unsigned;
    Pow2Values();
    DecimalRoundTrip(n);
    SignedIdentity(64, n);
    assert (Decimal(n) + [suffix])[..|Decimal(n)|] == Decimal(n);
  }

  /** Every other name is looked up as it stands. */
  lemma OtherNames(labels: seq<Label>, site: Offset, name: string, r: Option<nat>)
    requires forall digits: string, c: char :: digits != "" && AllDigits(digits) && (c == 'f' || c == 'b') ==>
      name != digits + [c]
    ensures Resolves(labels, site, name, r) <==> FoundByName(labels, name, r)
  {
    hide FoundByName, FoundAfter, FoundBefore, ParseNum;
    if name != "" {
      var n := |name| - 1;
      assert name == name[..n] + [name[n]];
    }
  }

  /** Any numeral: above s64 it wraps, and from 2^64 on it saturates, so that it means -1. */
  lemma LargeReference(n: nat)
    ensures ParseNum(Decimal(n)) == if n < Pow2(63) then n else if n < Pow2(64) then n - Pow2(64) else -1
  {
    hide Decimal, Pow2, Unsigned;
    Pow2Values();
    DecimalRoundTrip(n);
    if n < Pow2(64) { UnsignedSmall(64, n); } else { UnsignedSmall(64, Pow2(64) - 1); }
  }

  /** Names of different numbers can be the same, so the loop that looks for a free one is needed. */
  lemma LocalNamesCollide()
    ensures LocalName(1, 11) == LocalName(11, 1) == ".L111" && LocalName(1, 1) == ".L11" && LocalName(-1, 2) == ".L-12"
  {
    assert Decimal(1) == "1" && Decimal(2) == "2" && Decimal(11) == Decimal(1) + "1";
  }

  /** The offset of the nearest label with the number after the site, whether or not it is still indexed. */
  ghost predicate NearestOffset(labels: seq<Label>, site: Offset, num: int, at: Offset) {
    && Before(site, at) && (exists k :: 0 <= k < |labels| && labels[k].at == at && labels[k].num == num)
    && forall k :: 0 <= k < |labels| && labels[k].num == num && Before(site, labels[k].at) ==> !Before(labels[k].at, at)
  }

  /** The same at or before the site. */
  ghost predicate NearestOffsetBack(labels: seq<Label>, site: Offset, num: int, at: Offset) {
    && !Before(site, at) && (exists k :: 0 <= k < |labels| && labels[k].at == at && labels[k].num == num)
    && forall k :: 0 <= k < |labels| && labels[k].num == num && !Before(site, labels[k].at) ==>
         !Before(at, labels[k].at)
  }

  /** The lookup answered with a label at this offset. */
  ghost predicate AnsweredAt(labels: seq<Label>, r: Option<nat>, at: Offset) {
    r.Some? && r.value < |labels| && labels[r.value].at == at
  }

  /** A label added later at the same offset replaces the earlier one in the index.  So the forward search
      finds the nearest label with the number exactly when the last label added there has it; otherwise
      it finds another one, or none. */
  lemma FoundUnlessReplaced(labels: seq<Label>, site: Offset, num: int, at: Offset, last: nat, r: Option<nat>)
    requires NearestOffset(labels, site, num, at)
    requires Latest(labels, last) && labels[last].at == at
    requires FoundAfter(labels, site, num, r)
    ensures AnsweredAt(labels, r, at) <==> labels[last].num == num
  {
    if AnsweredAt(labels, r, at) { assert r.value == last; }
    if labels[last].num == num { assert Candidate(labels, last, num); }
  }

  /** The backward search likewise. */
  lemma FoundBackUnlessReplaced(labels: seq<Label>, site: Offset, num: int, at: Offset, last: nat, r: Option<nat>)
    requires NearestOffsetBack(labels, site, num, at)
    requires Latest(labels, last) && labels[last].at == at
    requires FoundBefore(labels, site, num, r)
    ensures AnsweredAt(labels, r, at) <==> labels[last].num == num
  {
    if AnsweredAt(labels, r, at) { assert r.value == last; }
    if labels[last].num == num { assert Candidate(labels, last, num); }
  }

  // ---------------------------------------------------------------------------------------------
  // Which labels answer a number

  /** A number other than 0 is answered only by labels made with that number. */
  lemma NumberedAnswers(labels: seq<Label>, origin: seq<Origin>, site: Offset, num: int, r: Option<nat>)
    requires OriginsOk(labels, origin) && (FoundAfter(labels, site, num, r) || FoundBefore(labels, site, num, r))
    requires r.Some? && num != 0
    ensures r.value < |origin| && origin[r.value] == ByNumber(num)
  {}

  /** Candidate for 0 that was made with the number 0, and one that was not. */
  ghost predicate Zero(labels: seq<Label>, origin: seq<Origin>, k: nat) {
    Latest(labels, k) && k < |origin| && origin[k] == ByNumber(0)
  }

  ghost predicate Unnumbered(labels: seq<Label>, origin: seq<Origin>, k: nat) {
    Latest(labels, k) && k < |origin| && !origin[k].ByNumber?
  }

  /** z is a label made with 0 that follows the site with no indexed name or constant between ... */
  ghost predicate ZeroFirst(labels: seq<Label>, origin: seq<Origin>, site: Offset, z: nat) {
    && Zero(labels, origin, z) && Before(site, labels[z].at)
    && forall k: nat :: Unnumbered(labels, origin, k) && Before(site, labels[k].at) ==>
         !Before(labels[k].at, labels[z].at)
  }

  /** ... and that stands at or before it with none between. */
  ghost predicate ZeroLast(labels: seq<Label>, origin: seq<Origin>, site: Offset, z: nat) {
    && Zero(labels, origin, z) && !Before(site, labels[z].at)
    && forall k: nat :: Unnumbered(labels, origin, k) && !Before(site, labels[k].at) ==>
         !Before(labels[z].at, labels[k].at)
  }

  /** 0f is answered by a label made with the number 0 if and only if there is such a first label. */
  lemma ZeroForward(labels: seq<Label>, origin: seq<Origin>, site: Offset, r: Option<nat>)
    requires OriginsOk(labels, origin) && FoundAfter(labels, site, 0, r)
    ensures (r.Some? && Zero(labels, origin, r.value)) <==>
      exists z: nat :: ZeroFirst(labels, origin, site, z)
  {
    hide Latest;
    forall k: nat ensures Candidate(labels, k, 0) <==> Zero(labels, origin, k) || Unnumbered(labels, origin, k) {
      LatestInRange(labels, k);
    }
    if r.Some? && Zero(labels, origin, r.value) { assert ZeroFirst(labels, origin, site, r.value); }
    if z: nat :| ZeroFirst(labels, origin, site, z) {
      assert Candidate(labels, z, 0);
      assert r.Some? && Candidate(labels, r.value, 0);
      if Unnumbered(labels, origin, r.value) { SameOffset(labels, r.value, z); }
    }
  }

  lemma LatestInRange(labels: seq<Label>, k: nat)
    ensures Latest(labels, k) ==> k < |labels|
  {}

  /** There is one indexed label per offset. */
  lemma SameOffset(labels: seq<Label>, i: nat, j: nat)
    requires Latest(labels, i) && Latest(labels, j) && labels[i].at == labels[j].at
    ensures i == j
  {}

  /** 0b is answered by a label made with the number 0 if and only if there is such a last label. */
  lemma ZeroBackward(labels: seq<Label>, origin: seq<Origin>, site: Offset, r: Option<nat>)
    requires OriginsOk(labels, origin) && FoundBefore(labels, site, 0, r)
    ensures (r.Some? && Zero(labels, origin, r.value)) <==>
      exists z: nat :: ZeroLast(labels, origin, site, z)
  {
    hide Latest;
    forall k: nat ensures Candidate(labels, k, 0) <==> Zero(labels, origin, k) || Unnumbered(labels, origin, k) {
      LatestInRange(labels, k);
    }
    if r.Some? && Zero(labels, origin, r.value) { assert ZeroLast(labels, origin, site, r.value); }
    if z: nat :| ZeroLast(labels, origin, site, z) {
      assert Candidate(labels, z, 0);
      assert r.Some? && Candidate(labels, r.value, 0);
      if Unnumbered(labels, origin, r.value) { SameOffset(labels, r.value, z); }
    }
  }

  /** Every named label has number 0, so 0f finds any label at all that follows. */
  lemma NamedLabelsAnswerToZero(name: string)
    ensures NearestAfter([Label(name, Offset(1, 8), 0)], Offset(1, 4), 0, 0)
  {
    var labels := [Label(name, Offset(1, 8), 0)];
    assert Latest(labels, 0) && Candidate(labels, 0, 0);
  }

  /** A named label at the place of 1: hides it from 1f. */
  lemma ReplacedLabelIsLost(name: string)
    ensures var labels := [Label(".L11", Offset(1, 8), 1), Label(name, Offset(1, 8), 0)];
            NearestOffset(labels, Offset(1, 4), 1, Offset(1, 8)) && FoundAfter(labels, Offset(1, 4), 1, None)
  {
    var labels := [Label(".L11", Offset(1, 8), 1), Label(name, Offset(1, 8), 0)];
    assert labels[0].num == 1 && labels[0].at == Offset(1, 8);
    forall k: nat ensures !Candidate(labels, k, 1) {
      assert labels[1].at == labels[0].at;
    }
  }
}
