/**
  The generator object of src/app/rv-meta.cc: rv_gen::generate_map, generate_codec and
  generate_codec_node, with the mask, match and done words of every opcode as mutable state,
  proved against the tree and the field specifications; and the shape of the tree they build.
 */
module DecoderGen {
  import opened Bits
  import opened DecoderTree

  // ---------------------------------------------------------------------------------------------
  // Field specifications

  /** One range/value pair of an opcode, hi..lo=value. */
  datatype Field = Field(msb: nat, lsb: nat, val: nat)

  predicate InField(b: nat, f: Field) {
    f.lsb <= b <= f.msb
  }

  predicate WantsOne(b: nat, f: Field) {
    InField(b, f) && Bit(f.val, b - f.lsb)
  }

  /** The bits that some field mentions. */
  ghost function FieldMask(fields: seq<Field>): Word {
    set k, b | 0 <= k < |fields| && 0 <= b <= fields[k].msb && InField(b, fields[k]) :: b
  }

  /** The bits that some field wants to be one. */
  ghost function FieldPattern(fields: seq<Field>): Word {
    set k, b | 0 <= k < |fields| && 0 <= b <= fields[k].msb && WantsOne(b, fields[k]) :: b
  }

  /** The word has the field's value in the field's bits. */
  ghost predicate Holds(word: Word, f: Field) {
    forall b: nat :: InField(b, f) ==> (b in word <==> WantsOne(b, f))
  }

  /** On numbers: the bits msb down to lsb of the word are the value, cut to their number. */
  lemma HoldsMeans(w: nat, f: Field)
    requires f.lsb <= f.msb
    ensures Holds(WordOf(w), f)
       <==> Unsigned(f.msb - f.lsb + 1, Shr(w, f.lsb)) == Unsigned(f.msb - f.lsb + 1, f.val)
  {
    hide Bit, Unsigned, Shr;
    var n := f.msb - f.lsb + 1;
    var x, y := Unsigned(n, Shr(w, f.lsb)), Unsigned(n, f.val);
    forall i: nat ensures Bit(x, i) <==> i < n && Bit(w, i + f.lsb) {
      BitUnsigned(n, Shr(w, f.lsb), i);
      BitShr(w, f.lsb, i);
    }
    forall i: nat ensures Bit(y, i) <==> i < n && Bit(f.val, i) { BitUnsigned(n, f.val, i); }
    if Holds(WordOf(w), f) {
      forall i: nat | i < n ensures Bit(x, i) == Bit(y, i) {
        assert InField(i + f.lsb, f);
        assert Bit(w, i + f.lsb) <==> i + f.lsb in WordOf(w);
      }
      SameBits(x, y, n);
    }
    if x == y {
      forall b: nat | InField(b, f) ensures b in WordOf(w) <==> WantsOne(b, f) {
        assert Bit(x, b - f.lsb) == Bit(y, b - f.lsb);
      }
    }
  }

  /** No bit is wanted to be both one and zero. */
  ghost predicate Consistent(fields: seq<Field>) {
    forall b: nat, j, k :: 0 <= j < |fields| && 0 <= k < |fields| && InField(b, fields[j]) && WantsOne(b, fields[k])
      ==> WantsOne(b, fields[j])
  }

  /** The mask/match pair accepts exactly the words that have every field, for every word, if and
      only if the fields do not contradict each other; and its match lies within its mask. */
  lemma MapMeaning(fields: seq<Field>)
    ensures FieldPattern(fields) <= FieldMask(fields)
    ensures Consistent(fields)
       <==> forall word: Word :: Matches(word, Opcode(FieldMask(fields), FieldPattern(fields)))
                            <==> (forall k :: 0 <= k < |fields| ==> Holds(word, fields[k]))
  {
    var op := Opcode(FieldMask(fields), FieldPattern(fields));
    if Consistent(fields) {
      forall word: Word ensures Matches(word, op) <==> forall k :: 0 <= k < |fields| ==> Holds(word, fields[k]) {
        ConsistentMeaning(fields, word);
      }
    } else {
      ContradictionMeaning(fields);
      assert !(forall k :: 0 <= k < |fields| ==> Holds(op.pattern, fields[k]));
    }
  }

  lemma ConsistentMeaning(fields: seq<Field>, word: Word)
    requires Consistent(fields)
    ensures Matches(word, Opcode(FieldMask(fields), FieldPattern(fields)))
       <==> forall k :: 0 <= k < |fields| ==> Holds(word, fields[k])
  {
    var op := Opcode(FieldMask(fields), FieldPattern(fields));
    if Matches(word, op) {
      forall k, b: nat | 0 <= k < |fields| && InField(b, fields[k])
        ensures b in word <==> WantsOne(b, fields[k])
      {
        assert b in op.mask;
        assert b in word <==> b in word * op.mask;
      }
    }
    if forall k :: 0 <= k < |fields| ==> Holds(word, fields[k]) {
      forall b ensures b in word * op.mask <==> b in op.pattern {
        if b in op.mask {
          var k :| 0 <= k < |fields| && InField(b, fields[k]);
          assert Holds(word, fields[k]);
        }
      }
    }
  }

  /** With contradicting fields the match word itself is accepted although it violates one. */
  lemma ContradictionMeaning(fields: seq<Field>)
    requires !Consistent(fields)
    ensures Matches(FieldPattern(fields), Opcode(FieldMask(fields), FieldPattern(fields)))
    ensures exists k :: 0 <= k < |fields| && !Holds(FieldPattern(fields), fields[k])
  {
    var b: nat, j, k :| 0 <= j < |fields| && 0 <= k < |fields|
      && InField(b, fields[j]) && WantsOne(b, fields[k]) && !WantsOne(b, fields[j]);
    assert b in FieldPattern(fields);
    assert !Holds(FieldPattern(fields), fields[j]);
    assert FieldPattern(fields) * FieldMask(fields) == FieldPattern(fields);
  }

  // ---------------------------------------------------------------------------------------------
  // The shape of the tree

  /** The values filed under different cases partition the list: each opcode keeps its
      multiplicity in its own group and occurs in no other. */
  lemma {:induction false} GroupsPartition(ops: seq<Opcode>, list: seq<nat>, bits: seq<nat>, val: int, i: nat)
    requires ValidList(ops, list) && i < |ops|
    ensures multiset(Group(ops, list, bits, val))[i] == if CaseOf(ops[i], bits) == val then multiset(list)[i] else 0
  {
    if list != [] {
      var init, last := list[..|list| - 1], list[|list| - 1];
      assert list == init + [last];
      GroupsPartition(ops, init, bits, val, i);
    }
  }

  ghost predicate Subsequence(g: seq<nat>, s: seq<nat>)
    decreases s
  {
    g == [] || (s != [] && (Subsequence(g, s[..|s| - 1]) ||
      (g[|g| - 1] == s[|s| - 1] && Subsequence(g[..|g| - 1], s[..|s| - 1]))))
  }

  /** ... and keep the order of the list. */
  lemma {:induction false} GroupsKeepOrder(ops: seq<Opcode>, list: seq<nat>, bits: seq<nat>, val: int)
    requires ValidList(ops, list)
    ensures Subsequence(Group(ops, list, bits, val), list)
  {
    if list != [] {
      var init, last := list[..|list| - 1], list[|list| - 1];
      GroupsKeepOrder(ops, init, bits, val);
      var g := Group(ops, init, bits, val);
      assert (g + [last])[..|g|] == g;
    }
  }

  /** A descent through the tree, by the values taken. */
  ghost predicate IsPath(node: Node, path: seq<int>)
    decreases path
  {
    path == [] ||
    (path[0] in node.vals && path[0] in node.valDecodes && IsPath(node.valDecodes[path[0]], path[1..]))
  }

  /** The bits examined on a descent. */
  ghost function PathBits(node: Node, path: seq<int>): seq<nat>
    requires IsPath(node, path)
    decreases path
  {
    if path == [] then [] else node.bits + PathBits(node.valDecodes[path[0]], path[1..])
  }

  /** Along every descent the examined bits are pairwise different, so no descent has more than
      32 levels. */
  lemma {:induction false} PathsAreShort(ops: seq<Opcode>, list: seq<nat>, done: Word, path: seq<int>)
    requires ValidList(ops, list) && IsPath(Build(ops, list, done), path)
    ensures Distinct(PathBits(Build(ops, list, done), path))
    ensures forall b :: b in PathBits(Build(ops, list, done), path) ==> b < WIDTH && b !in done
    ensures |path| <= Remaining(done) <= WIDTH
    decreases path
  {
    hide *;
    RemainingBound(done);
    if path == [] {
      NoPath(Build(ops, list, done));
    } else {
      ChosenAreFresh(ops, list, done);
      PathUnfold(ops, list, done, path);
      var bits := ChosenBits(ops, list, done);
      var g, below := Group(ops, list, bits, path[0]), Below(ops, list, done);
      PathsAreShort(ops, g, below, path[1..]);
      ChosenAreDistinct(ops, list, done);
      BelowIs(ops, list, done);
      DisjointConcat(bits, PathBits(Build(ops, g, below), path[1..]));
    }
  }

  lemma NoPath(node: Node)
    ensures IsPath(node, []) && PathBits(node, []) == [] && Distinct(PathBits(node, []))
  {}

  lemma BelowIs(ops: seq<Opcode>, list: seq<nat>, done: Word)
    requires ValidList(ops, list)
    ensures Below(ops, list, done) == done + Elements(ChosenBits(ops, list, done))
    ensures forall b :: b in Below(ops, list, done) <==> b in done || b in ChosenBits(ops, list, done)
  {}

  lemma PathUnfold(ops: seq<Opcode>, list: seq<nat>, done: Word, path: seq<int>)
    requires ValidList(ops, list) && IsPath(Build(ops, list, done), path) && path != []
    ensures Rows(ops, list, done) > 0
    ensures
      var bits := ChosenBits(ops, list, done);
      var child := Build(ops, Group(ops, list, bits, path[0]), Below(ops, list, done));
      IsPath(child, path[1..]) && PathBits(Build(ops, list, done), path) == bits + PathBits(child, path[1..])
  {
    hide Rows, Values, ChosenBits, Group;
  }

  lemma ChosenAreDistinct(ops: seq<Opcode>, list: seq<nat>, done: Word)
    requires ValidList(ops, list)
    ensures Distinct(ChosenBits(ops, list, done))
  {
    BitsCoveringMeans(ops, list, done, Rows(ops, list, done), WIDTH);
  }

  lemma DisjointConcat(a: seq<nat>, b: seq<nat>)
    requires Distinct(a) && Distinct(b) && forall x :: x in a ==> x !in b
    ensures Distinct(a + b)
  {
    var s := a + b;
    forall j, k | 0 <= j < k < |s| ensures s[j] != s[k] {
      if j < |a| <= k { assert s[j] in a && s[k] == b[k - |a|]; }
    }
  }

  lemma RemainingBound(done: Word)
    ensures Remaining(done) <= WIDTH
  {
    BoundedSet((set b: nat | b < WIDTH && b !in done), WIDTH);
  }

  lemma {:induction false} BoundedSet(s: set<nat>, n: nat)
    requires forall b :: b in s ==> b < n
    ensures |s| <= n
  {
    if n == 0 {
      assert s == {} by { assert forall b :: b !in s; }
    } else {
      BoundedSet(s - {n - 1}, n - 1);
    }
  }

  // ---------------------------------------------------------------------------------------------
  // The generator

  /** The indices of the opcodes that are not pseudo-instructions, in order. */
  function RealOpcodes(pseudo: seq<bool>): (list: seq<nat>)
    ensures forall i: nat :: i in list <==> i < |pseudo| && !pseudo[i]
    ensures forall k :: 0 <= k < |list| ==> list[k] < |pseudo|
    ensures forall j, k :: 0 <= j < k < |list| ==> list[j] < list[k]
  {
    if pseudo == [] then []
    else
      var n := |pseudo| - 1;
      var init := RealOpcodes(pseudo[..n]);
      assert forall k :: 0 <= k < |init| ==> init[k] in init;
      if pseudo[n] then init else init + [n]
  }

  function Zip(mask: seq<Word>, pattern: seq<Word>): (ops: seq<Opcode>)
    requires |mask| == |pattern|
    ensures |ops| == |mask| && forall i :: 0 <= i < |ops| ==> ops[i] == Opcode(mask[i], pattern[i])
  {
    seq(|mask|, i requires 0 <= i < |mask| => Opcode(mask[i], pattern[i]))
  }

  class RvGen {
    const fields: seq<seq<Field>>      // opcode->masks
    const pseudo: seq<bool>            // opcode->is_pseudo()
    var mask: seq<Word>
    var pattern: seq<Word>
    var done: seq<Word>
    var root: Node

    ghost predicate Valid()
      reads this
    {
      && |pseudo| == |fields| == |mask| == |pattern| == |done|
    }

    function Table(): seq<Opcode>
      requires |mask| == |pattern|
      reads `mask, `pattern
    {
      Zip(mask, pattern)
    }

    constructor (fields: seq<seq<Field>>, pseudo: seq<bool>)
      requires |fields| == |pseudo|
      ensures Valid() && this.fields == fields && this.pseudo == pseudo
      ensures forall i :: 0 <= i < |fields| ==> mask[i] == {} && pattern[i] == {} && done[i] == {}
    {
      this.fields, this.pseudo := fields, pseudo;
      mask := seq(|fields|, _ => {});
      pattern := seq(|fields|, _ => {});
      done := seq(|fields|, _ => {});
      root := EMPTY;
    }

    /** generate_map: or the bits of every field into the opcode's mask and match. */
    method GenerateMap()
      requires Valid()
      requires forall i :: 0 <= i < |fields| ==> mask[i] == {} && pattern[i] == {}
      modifies `mask, `pattern
      ensures Valid()
      ensures forall i :: 0 <= i < |fields| ==> mask[i] == FieldMask(fields[i]) && pattern[i] == FieldPattern(fields[i])
    {
      var i := 0;
      while i < |fields|
        invariant 0 <= i <= |fields| && Valid()
        invariant forall j :: 0 <= j < i ==> mask[j] == FieldMask(fields[j]) && pattern[j] == FieldPattern(fields[j])
        invariant forall j :: i <= j < |fields| ==> mask[j] == {} && pattern[j] == {}
      {
        var m, p := MapOpcode(fields[i]);
        mask, pattern := mask[i := m], pattern[i := p];
        i := i + 1;
      }
    }

    /** The two inner loops of generate_map. */
    static method MapOpcode(fs: seq<Field>) returns (m: Word, p: Word)
      ensures m == FieldMask(fs) && p == FieldPattern(fs)
    {
      m, p := {}, {};
      var k := 0;
      while k < |fs|
        invariant 0 <= k <= |fs|
        invariant m == FieldMask(fs[..k]) && p == FieldPattern(fs[..k])
      {
        var f := fs[k];
        ghost var m0, p0 := m, p;
        var bit: int := f.msb;
        while bit >= f.lsb
          invariant f.lsb - 1 <= bit <= f.msb || bit == f.msb
          invariant forall b: nat :: b in m <==> b in m0 || (InField(b, f) && b > bit)
          invariant forall b: nat :: b in p <==> b in p0 || (WantsOne(b, f) && b > bit)
        {
          m := m + {bit};
          if Bit(f.val, bit - f.lsb) { p := p + {bit}; }
          bit := bit - 1;
        }
        FieldsSnoc(fs, k, m, p, m0, p0);
        k := k + 1;
      }
      assert fs[..|fs|] == fs;
    }

    static lemma FieldsSnoc(fs: seq<Field>, k: nat, m: Word, p: Word, m0: Word, p0: Word)
      requires k < |fs| && m0 == FieldMask(fs[..k]) && p0 == FieldPattern(fs[..k])
      requires forall b: nat :: b in m <==> b in m0 || InField(b, fs[k])
      requires forall b: nat :: b in p <==> b in p0 || WantsOne(b, fs[k])
      ensures m == FieldMask(fs[..k + 1]) && p == FieldPattern(fs[..k + 1])
    {
      var s, t := fs[..k], fs[..k + 1];
      assert t[k] == fs[k] && forall j :: 0 <= j < k ==> t[j] == s[j];
      forall b: nat ensures b in m <==> b in FieldMask(t) {
        if b in m0 { var j :| 0 <= j < |s| && InField(b, s[j]); assert InField(b, t[j]); }
        if b in FieldMask(t) { var j :| 0 <= j < |t| && InField(b, t[j]); assert j < k ==> InField(b, s[j]); }
      }
      forall b: nat ensures b in p <==> b in FieldPattern(t) {
        if b in p0 { var j :| 0 <= j < |s| && WantsOne(b, s[j]); assert WantsOne(b, t[j]); }
        if b in FieldPattern(t) { var j :| 0 <= j < |t| && WantsOne(b, t[j]); assert j < k ==> WantsOne(b, s[j]); }
      }
    }

    /** generate_codec: the tree of the opcodes that are not pseudo-instructions.  The done words
        are those of a generator that has not built a tree yet. */
    method GenerateCodec()
      requires Valid() && forall i :: 0 <= i < |done| ==> done[i] == {}
      modifies `done, `root
      ensures Valid() && root == Build(Table(), RealOpcodes(pseudo), {})
    {
      var copy: seq<nat> := [];
      var i := 0;
      while i < |pseudo|
        invariant 0 <= i <= |pseudo|
        invariant copy == RealOpcodes(pseudo[..i])
      {
        assert pseudo[..i + 1][..i] == pseudo[..i];
        if !pseudo[i] { copy := copy + [i]; }
        i := i + 1;
      }
      assert pseudo[..|pseudo|] == pseudo;
      assert forall k :: 0 <= k < |copy| ==> copy[k] in copy;
      root := GenerateCodecNode(copy, {});
    }

    /** generate_codec_node: on a list whose opcodes share the done word d, builds the tree and
        leaves the done words of all other opcodes alone. */
    method GenerateCodecNode(list: seq<nat>, ghost d: Word) returns (node: Node)
      requires Valid() && ValidList(Table(), list)
      requires forall i :: i in list ==> done[i] == d
      modifies `done
      ensures Valid() && node == Build(Table(), list, d)
      ensures forall i :: 0 <= i < |done| && i !in list ==> done[i] == old(done[i])
      decreases Remaining(d)
    {
      hide Build, Rows, Values, Sort, Groups, ChosenBits, Remaining;
      ghost var ops := Table();
      var sum := RowCoverage(list, d);
      var maxRows := MaxOf(sum, ops, list, d);
      BuildUnfold(ops, list, d);
      if maxRows == 0 { return EMPTY; }
      var bits := SelectBits(sum, maxRows, ops, list, d);
      var vals, valOpcodes := FileOpcodes(list, bits);
      vals := Sort(vals);
      MarkDone(list, bits, d);
      ChosenAreFresh(ops, list, d);
      GroupsOfSorted(ops, list, bits);
      var valDecodes := GenerateChildren(list, bits, vals, valOpcodes, d, d + Elements(bits));
      node := Node(bits, vals, valOpcodes, valDecodes);
    }

    static lemma BuildUnfold(ops: seq<Opcode>, list: seq<nat>, d: Word)
      requires ValidList(ops, list)
      ensures Rows(ops, list, d) == 0 ==> Build(ops, list, d) == EMPTY
      ensures Rows(ops, list, d) > 0 ==>
        var bits := ChosenBits(ops, list, d);
        var vals := Sort(Values(ops, list, bits));
        Build(ops, list, d) == Node(bits, vals, Groups(ops, list, bits, vals),
          map v | v in vals :: Build(ops, Group(ops, list, bits, v), d + Elements(bits)))
    {
      hide Rows, Values, Sort, Groups, ChosenBits;
    }

    static lemma GroupsOfSorted(ops: seq<Opcode>, list: seq<nat>, bits: seq<nat>)
      requires ValidList(ops, list)
      ensures var vals := Values(ops, list, bits);
              Groups(ops, list, bits, Sort(vals)) == Groups(ops, list, bits, vals)
    {
      hide Values, Group;
    }

    /** The recursion of generate_codec_node over the values of a node. */
    method GenerateChildren(list: seq<nat>, bits: seq<nat>, vals: seq<int>, valOpcodes: map<int, seq<nat>>,
                            ghost d: Word, ghost below: Word)
      returns (valDecodes: map<int, Node>)
      requires Valid() && ValidList(Table(), list) && Remaining(below) < Remaining(d)
      requires forall i :: i in list ==> done[i] == below
      requires valOpcodes == Groups(Table(), list, bits, vals)
      requires forall j, k :: 0 <= j < k < |vals| ==> vals[j] < vals[k]
      modifies `done
      ensures Valid() && valDecodes == map v | v in vals :: Build(Table(), Group(Table(), list, bits, v), below)
      ensures forall i :: 0 <= i < |done| && i !in list ==> done[i] == old(done[i])
      decreases Remaining(d), 0
    {
      hide Build, Remaining, Group, Groups, CaseOf, Zip, Prefix;
      ghost var ops := Table();
      valDecodes := map[];
      PrefixAll(vals);
      var k := 0;
      while k < |vals|
        invariant 0 <= k <= |vals| && Valid() && Table() == ops
        invariant valDecodes.Keys == Prefix(vals, k)
        invariant forall v :: v in valDecodes ==> valDecodes[v] == Build(ops, Group(ops, list, bits, v), below)
        invariant forall i :: i in list && CaseOf(ops[i], bits) !in vals[..k] ==> done[i] == below
        invariant forall i :: 0 <= i < |done| && i !in list ==> done[i] == old(done[i])
      {
        var v := vals[k];
        GroupsAt(ops, list, bits, vals, v);
        PrefixSnoc(vals, k);
        var child := GenerateCodecNode(valOpcodes[v], below);
        valDecodes := valDecodes[v := child];
        k := k + 1;
      }
      assert forall v :: v in valDecodes <==> v in vals;
      assert valDecodes == map v | v in vals :: Build(ops, Group(ops, list, bits, v), below);
    }

    static ghost function Prefix(vals: seq<int>, k: nat): set<int>
      requires k <= |vals|
    {
      set v | v in vals[..k]
    }

    static lemma PrefixSnoc(vals: seq<int>, k: nat)
      requires k < |vals| && forall i, j :: 0 <= i < j < |vals| ==> vals[i] < vals[j]
      ensures vals[..k + 1] == vals[..k] + [vals[k]] && vals[k] !in vals[..k]
      ensures Prefix(vals, k + 1) == Prefix(vals, k) + {vals[k]}
    {
      assert vals[..k + 1] == vals[..k] + [vals[k]];
    }

    static lemma PrefixAll(vals: seq<int>)
      ensures vals[..|vals|] == vals && Prefix(vals, 0) == {}
      ensures forall v :: v in Prefix(vals, |vals|) <==> v in vals
    {
      assert vals[..|vals|] == vals;
    }

    static lemma GroupsAt(ops: seq<Opcode>, list: seq<nat>, bits: seq<nat>, vals: seq<int>, v: int)
      requires ValidList(ops, list)
      ensures v in Groups(ops, list, bits, vals) <==> v in vals
      ensures v in vals ==> Groups(ops, list, bits, vals)[v] == Group(ops, list, bits, v)
    {
      hide Group;
    }

    /** Row coverage of each column. */
    method RowCoverage(list: seq<nat>, ghost d: Word) returns (sum: seq<nat>)
      requires Valid() && ValidList(Table(), list)
      requires forall i :: i in list ==> done[i] == d
      ensures |sum| == WIDTH && forall b: nat :: b < WIDTH ==> sum[b] == Coverage(Table(), list, d, b)
    {
      ghost var ops := Table();
      forall b: nat ensures Coverage(ops, [], d, b) == 0 {}
      hide Coverage;
      sum := seq(WIDTH, _ => 0);
      var k := 0;
      while k < |list|
        invariant 0 <= k <= |list| && |sum| == WIDTH
        invariant forall b: nat :: b < WIDTH ==> sum[b] == Coverage(ops, list[..k], d, b)
      {
        var op := list[k];
        var bit: int := WIDTH - 1;
        while bit >= 0
          invariant -1 <= bit < WIDTH && |sum| == WIDTH
          invariant forall b: nat :: b <= bit ==> sum[b] == Coverage(ops, list[..k], d, b)
          invariant forall b: nat :: bit < b < WIDTH ==> sum[b] == Coverage(ops, list[..k + 1], d, b)
        {
          CoverageSnoc(ops, list, k, d, bit);
          if bit in mask[op] && bit !in done[op] { sum := sum[bit := sum[bit] + 1]; }
          bit := bit - 1;
        }
        k := k + 1;
      }
      assert list[..|list|] == list;
    }

    static lemma CoverageSnoc(ops: seq<Opcode>, list: seq<nat>, k: nat, d: Word, bit: nat)
      requires ValidList(ops, list) && k < |list|
      ensures Coverage(ops, list[..k + 1], d, bit)
           == Coverage(ops, list[..k], d, bit) + if bit in ops[list[k]].mask && bit !in d then 1 else 0
    {
      assert list[..k + 1][..k] == list[..k];
    }

    static method MaxOf(sum: seq<nat>, ghost ops: seq<Opcode>, ghost list: seq<nat>, ghost d: Word)
      returns (maxRows: nat)
      requires ValidList(ops, list) && |sum| == WIDTH
      requires forall b: nat :: b < WIDTH ==> sum[b] == Coverage(ops, list, d, b)
      ensures maxRows == Rows(ops, list, d)
    {
      hide MaxRows, Coverage;
      maxRows := 0;
      var bit: int := WIDTH - 1;
      while bit >= 0
        invariant -1 <= bit < WIDTH
        invariant forall b: nat :: bit < b < WIDTH ==> sum[b] <= maxRows
        invariant maxRows > 0 ==> exists b: nat :: b < WIDTH && sum[b] == maxRows
      {
        if sum[bit] > maxRows { maxRows := sum[bit]; }
        bit := bit - 1;
      }
      if maxRows > 0 { var b: nat :| b < WIDTH && sum[b] == maxRows; }
      ghost var m := Rows(ops, list, d);
      assert forall b: nat :: b < WIDTH ==> sum[b] <= m;
      if m > 0 {
        ghost var b: nat :| b < WIDTH && Coverage(ops, list, d, b) == m;
        assert sum[b] == m;
      }
    }

    static method SelectBits(sum: seq<nat>, maxRows: nat, ghost ops: seq<Opcode>, ghost list: seq<nat>, ghost d: Word)
      returns (bits: seq<nat>)
      requires ValidList(ops, list) && |sum| == WIDTH && maxRows == Rows(ops, list, d) > 0
      requires forall b: nat :: b < WIDTH ==> sum[b] == Coverage(ops, list, d, b)
      ensures bits == ChosenBits(ops, list, d)
    {
      hide MaxRows, Coverage, Rows, BitsCovering;
      NoBits(ops, list, d, maxRows);
      bits := [];
      var bit: int := WIDTH - 1;
      while bit >= 0
        invariant -1 <= bit < WIDTH
        invariant bits + BitsCovering(ops, list, d, maxRows, bit + 1) == BitsCovering(ops, list, d, maxRows, WIDTH)
      {
        NextBit(ops, list, d, maxRows, bit);
        if sum[bit] == maxRows { bits := bits + [bit]; }
        bit := bit - 1;
      }
      assert bits + [] == bits;
    }

    static lemma NoBits(ops: seq<Opcode>, list: seq<nat>, d: Word, m: nat)
      requires ValidList(ops, list)
      ensures BitsCovering(ops, list, d, m, 0) == []
    {}

    static lemma NextBit(ops: seq<Opcode>, list: seq<nat>, d: Word, m: nat, bit: nat)
      requires ValidList(ops, list)
      ensures BitsCovering(ops, list, d, m, bit + 1)
           == (if Coverage(ops, list, d, bit) == m then [bit] else []) + BitsCovering(ops, list, d, m, bit)
    {}

    /** The values of the opcodes under the chosen bits, and the opcodes filed under each. */
    method FileOpcodes(list: seq<nat>, bits: seq<nat>) returns (vals: seq<int>, valOpcodes: map<int, seq<nat>>)
      requires Valid() && ValidList(Table(), list)
      ensures vals == Values(Table(), list, bits)
      ensures valOpcodes == Groups(Table(), list, bits, vals)
    {
      hide Values, Group, Groups, CaseOf;
      ghost var ops := Table();
      vals, valOpcodes := [], map[];
      FileNone(ops, bits);
      var k := 0;
      while k < |list|
        invariant 0 <= k <= |list|
        invariant vals == Values(ops, list[..k], bits)
        invariant valOpcodes == Groups(ops, list[..k], bits, vals)
      {
        var val := OpcodeValue(list[k], bits);
        FileOne(ops, list, k, bits, val);
        if val !in vals { vals := vals + [val]; }
        if val !in valOpcodes { valOpcodes := valOpcodes[val := []]; }
        valOpcodes := valOpcodes[val := valOpcodes[val] + [list[k]]];
        k := k + 1;
      }
      assert list[..|list|] == list;
    }

    static lemma FileNone(ops: seq<Opcode>, bits: seq<nat>)
      ensures Values(ops, [], bits) == [] && Groups(ops, [], bits, []) == map[]
    {}

    static lemma FileOne(ops: seq<Opcode>, list: seq<nat>, k: nat, bits: seq<nat>, val: int)
      requires ValidList(ops, list) && k < |list| && val == CaseOf(ops[list[k]], bits)
      ensures var vals := Values(ops, list[..k], bits);
              var groups := Groups(ops, list[..k], bits, vals);
              var vals' := if val in vals then vals else vals + [val];
              && Values(ops, list[..k + 1], bits) == vals'
              && (val in groups <==> val in vals)
              && Groups(ops, list[..k + 1], bits, vals')
                 == groups[val := (if val in groups then groups[val] else []) + [list[k]]]
    {
      hide Group, Groups, Values, CaseOf;
      var vals := Values(ops, list[..k], bits);
      var groups := Groups(ops, list[..k], bits, vals);
      ValuesSnoc(ops, list, k, bits);
      var vals' := if val in vals then vals else vals + [val];
      var after := Groups(ops, list[..k + 1], bits, vals');
      var expected := groups[val := (if val in groups then groups[val] else []) + [list[k]]];
      forall v ensures (v in after <==> v in expected) && (v in after ==> after[v] == expected[v]) {
        GroupsAt(ops, list[..k + 1], bits, vals', v);
        GroupsAt(ops, list[..k], bits, vals, v);
        GroupSnoc(ops, list, k, bits, v);
      }
      GroupsAt(ops, list[..k], bits, vals, val);
      assert after == expected;
    }

    static lemma ValuesSnoc(ops: seq<Opcode>, list: seq<nat>, k: nat, bits: seq<nat>)
      requires ValidList(ops, list) && k < |list|
      ensures var val := CaseOf(ops[list[k]], bits);
              var vals := Values(ops, list[..k], bits);
              Values(ops, list[..k + 1], bits) == if val in vals then vals else vals + [val]
    {
      assert list[..k + 1][..k] == list[..k];
    }

    static lemma GroupSnoc(ops: seq<Opcode>, list: seq<nat>, k: nat, bits: seq<nat>, v: int)
      requires ValidList(ops, list) && k < |list|
      ensures var val := CaseOf(ops[list[k]], bits);
              && Group(ops, list[..k + 1], bits, v)
                 == Group(ops, list[..k], bits, v) + (if v == val then [list[k]] else [])
              && (v !in Values(ops, list[..k], bits) ==> Group(ops, list[..k], bits, v) == [])
    {
      assert list[..k + 1][..k] == list[..k];
      var g := Group(ops, list[..k], bits, v);
      assert g == [] || g[0] in g;
    }

    /** The value of one opcode: the chosen bits of its match, or DEFAULT on a partial match. */
    method OpcodeValue(op: nat, bits: seq<nat>) returns (val: int)
      requires Valid() && op < |mask|
      ensures val == CaseOf(Table()[op], bits)
    {
      val := 0;
      var partialMatch := false;
      var j := 0;
      while j < |bits|
        invariant 0 <= j <= |bits|
        invariant partialMatch <==> exists k :: 0 <= k < j && bits[k] !in mask[op]
        invariant !partialMatch ==> val == Extract(pattern[op], bits[..j])
      {
        assert bits[..j + 1][..j] == bits[..j];
        if bits[j] !in mask[op] {
          partialMatch := true;
        } else {
          val := 2 * val + (if bits[j] in pattern[op] then 1 else 0);
        }
        j := j + 1;
      }
      assert bits[..|bits|] == bits;
      if partialMatch { val := DEFAULT; }
    }

    /** Mark the chosen bits as done in every opcode of the list. */
    method MarkDone(list: seq<nat>, bits: seq<nat>, ghost d: Word)
      requires Valid() && ValidList(Table(), list)
      requires forall i :: i in list ==> done[i] == d
      modifies `done
      ensures Valid()
      ensures forall i :: i in list ==> done[i] == d + Elements(bits)
      ensures forall i :: 0 <= i < |done| && i !in list ==> done[i] == old(done[i])
    {
      var k := 0;
      while k < |list|
        invariant 0 <= k <= |list| && Valid()
        invariant forall i :: i in list[..k] ==> done[i] == d + Elements(bits)
        invariant forall i :: i in list && i !in list[..k] ==> done[i] == d
        invariant forall i :: 0 <= i < |done| && i !in list ==> done[i] == old(done[i])
      {
        var op := list[k];
        ghost var before := done;
        var j := 0;
        while j < |bits|
          invariant 0 <= j <= |bits| && |done| == |before|
          invariant forall i :: 0 <= i < |done| && i != op ==> done[i] == before[i]
          invariant done[op] == before[op] + Elements(bits[..j])
        {
          assert bits[..j + 1] == bits[..j] + [bits[j]];
          done := done[op := done[op] + {bits[j]}];
          j := j + 1;
        }
        assert bits[..|bits|] == bits;
        assert list[..k + 1] == list[..k] + [op];
        k := k + 1;
      }
      assert list[..|list|] == list;
    }
  }
}
