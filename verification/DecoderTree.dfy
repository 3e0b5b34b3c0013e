/**
  The decoder compiler of src/app/rv-meta.cc: bit-field specifications of opcodes become
  mask/match pairs (the match is called the pattern here), and a list of opcodes becomes a decision
  tree over instruction bits.

  A word, a mask and a match are the sets of their one bits.  An opcode pointer is an index into
  the list of all opcodes.  The tree is read as the switch statements that
  src/gen/gen-switch.cc prints for it (`Walk`).
 */
module DecoderTree {
  import opened Bits
  import opened Sets

  const WIDTH: nat := 32                            // kMaxInstructionWidth
  const DEFAULT: int := 0x7fff_ffff_ffff_ffff       // rv_meta_model::DEFAULT, the largest ssize_t

  type Word = set<nat>

  datatype Opcode = Opcode(mask: Word, pattern: Word)

  /** rv_codec_node */
  datatype Node = Node(bits: seq<nat>, vals: seq<int>, valOpcodes: map<int, seq<nat>>, valDecodes: map<int, Node>)

  const EMPTY := Node([], [], map[], map[])

  ghost predicate ValidOpcode(op: Opcode) {
    op.pattern <= op.mask && forall b :: b in op.mask ==> b < WIDTH
  }

  ghost predicate ValidTable(ops: seq<Opcode>) {
    forall i :: 0 <= i < |ops| ==> ValidOpcode(ops[i])
  }

  predicate ValidList(ops: seq<Opcode>, list: seq<nat>) {
    forall k :: 0 <= k < |list| ==> list[k] < |ops|
  }

  /** The word belongs to the opcode: word & mask == match. */
  predicate Matches(word: Word, op: Opcode) {
    word * op.mask == op.pattern
  }

  /** The set of one bits of a word. */
  function WordOf(inst: nat): (w: Word)
    ensures forall b: nat :: b in w <==> Bit(inst, b)
  {
    BitsAreBounded(inst);
    set b: nat | b < inst && Bit(inst, b) :: b
  }

  lemma BitsAreBounded(inst: nat)
    ensures forall b: nat :: Bit(inst, b) ==> b < inst
  {
    forall b: nat | Bit(inst, b) ensures b < inst {
      if b >= inst {
        BelowPower(inst);
        HighBits(inst, inst, b);
      }
    }
  }

  lemma {:induction false} BelowPower(n: nat)
    ensures n < Pow2(n)
  {
    if n > 0 { BelowPower(n - 1); }
  }

  /** On numbers: the word and'd with the mask is the match. */
  lemma MatchesMeans(w: nat, mask: nat, match': nat)
    ensures Matches(WordOf(w), Opcode(WordOf(mask), WordOf(match'))) <==> And(w, mask) == match'
  {
    hide Bit, And;
    var meet := WordOf(w) * WordOf(mask);
    forall b: nat ensures Bit(And(w, mask), b) <==> b in meet { BitAnd(w, mask, b); }
    if meet == WordOf(match') {
      forall b: nat ensures Bit(And(w, mask), b) == Bit(match', b) {
        assert Bit(match', b) <==> b in WordOf(match');
      }
      BelowPower(And(w, mask) + match');
      Pow2Grows(And(w, mask), match');
      SameBits(And(w, mask), match', And(w, mask) + match');
    }
    if And(w, mask) == match' {
      assert forall b: nat :: b in meet <==> b in WordOf(match');
    }
  }

  lemma Pow2Grows(x: nat, y: nat)
    ensures x < Pow2(x + y) && y < Pow2(x + y)
  {
    BelowPower(x + y);
  }

  // ---------------------------------------------------------------------------------------------
  // Choosing the bits of a node

  /** How many opcodes of the list still have to be told apart by this bit. */
  function Coverage(ops: seq<Opcode>, list: seq<nat>, done: Word, bit: nat): (c: nat)
    requires ValidList(ops, list)
    ensures c > 0 <==> bit !in done && exists k :: 0 <= k < |list| && bit in ops[list[k]].mask
  {
    if list == [] then 0
    else
      var last := list[|list| - 1];
      var rest := Coverage(ops, list[..|list| - 1], done, bit);
      if bit in ops[last].mask && bit !in done then rest + 1 else rest
  }

  /** The largest coverage among bits 0 .. n-1. */
  function MaxRows(ops: seq<Opcode>, list: seq<nat>, done: Word, n: nat): (m: nat)
    requires ValidList(ops, list)
    ensures forall b: nat :: b < n ==> Coverage(ops, list, done, b) <= m
    ensures m > 0 ==> exists b: nat :: b < n && Coverage(ops, list, done, b) == m
  {
    if n == 0 then 0
    else
      var rest := MaxRows(ops, list, done, n - 1);
      var c := Coverage(ops, list, done, n - 1);
      if c > rest then c else rest
  }

  /** The bits below n whose coverage is m, highest first. */
  function BitsCovering(ops: seq<Opcode>, list: seq<nat>, done: Word, m: nat, n: nat): seq<nat>
    requires ValidList(ops, list)
  {
    if n == 0 then []
    else
      var rest := BitsCovering(ops, list, done, m, n - 1);
      if Coverage(ops, list, done, n - 1) == m then [n - 1] + rest else rest
  }

  lemma {:induction false} BitsCoveringMeans(ops: seq<Opcode>, list: seq<nat>, done: Word, m: nat, n: nat)
    requires ValidList(ops, list)
    ensures var bits := BitsCovering(ops, list, done, m, n);
            && |bits| <= n
            && (forall b: nat :: b in bits <==> b < n && Coverage(ops, list, done, b) == m)
            && forall j, k :: 0 <= j < k < |bits| ==> bits[k] < bits[j]
  {
    hide Coverage;
    if n > 0 {
      BitsCoveringMeans(ops, list, done, m, n - 1);
      var rest := BitsCovering(ops, list, done, m, n - 1);
      forall k | 0 <= k < |rest| ensures rest[k] < n - 1 { assert rest[k] in rest; }
    }
  }

  function Rows(ops: seq<Opcode>, list: seq<nat>, done: Word): nat
    requires ValidList(ops, list)
  {
    MaxRows(ops, list, done, WIDTH)
  }

  function ChosenBits(ops: seq<Opcode>, list: seq<nat>, done: Word): seq<nat>
    requires ValidList(ops, list)
  {
    if Rows(ops, list, done) == 0 then [] else BitsCovering(ops, list, done, Rows(ops, list, done), WIDTH)
  }

  /** The opcodes of the list that mask the bit. */
  function Users(ops: seq<Opcode>, list: seq<nat>, b: nat): set<nat>
    requires ValidList(ops, list)
  {
    set k: nat | k < |list| && b in ops[list[k]].mask
  }

  lemma {:induction false} CoverageCounts(ops: seq<Opcode>, list: seq<nat>, done: Word, b: nat)
    requires ValidList(ops, list)
    ensures Coverage(ops, list, done, b) == if b in done then 0 else |Users(ops, list, b)|
  {
    if list == [] {
      assert Users(ops, list, b) == {};
    } else {
      var n := |list| - 1;
      CoverageCounts(ops, list[..n], done, b);
      UsersSnoc(ops, list, b);
    }
  }

  function Elements(s: seq<nat>): (r: set<nat>)
    ensures forall b :: b in r <==> b in s
  {
    set b | b in s
  }

  // ---------------------------------------------------------------------------------------------
  // The value of a word or an opcode under a node's bits

  /** The bits of the word at the given positions, first position most significant. */
  function Extract(word: Word, bits: seq<nat>): (v: nat)
  {
    if bits == [] then 0
    else 2 * Extract(word, bits[..|bits| - 1]) + (if bits[|bits| - 1] in word then 1 else 0)
  }

  predicate Partial(op: Opcode, bits: seq<nat>) {
    exists k :: 0 <= k < |bits| && bits[k] !in op.mask
  }

  /** The switch value under which the opcode is filed. */
  function CaseOf(op: Opcode, bits: seq<nat>): int {
    if Partial(op, bits) then DEFAULT else Extract(op.pattern, bits)
  }

  ghost predicate Agree(u: Word, v: Word, on: set<nat>) {
    forall b :: b in on ==> (b in u <==> b in v)
  }

  /** Two words have the same value exactly when they agree on the bits. */
  lemma {:induction false} ExtractInjective(u: Word, v: Word, bits: seq<nat>)
    ensures Extract(u, bits) == Extract(v, bits) <==> Agree(u, v, Elements(bits))
  {
    if bits != [] {
      var init, last := bits[..|bits| - 1], bits[|bits| - 1];
      assert bits == init + [last];
      ExtractInjective(u, v, init);
      assert Elements(bits) == Elements(init) + {last};
    }
  }

  /** No explicit value collides with DEFAULT. */
  lemma {:induction false} ExtractBound(word: Word, bits: seq<nat>)
    requires |bits| <= 62
    ensures Extract(word, bits) < DEFAULT
  {
    ExtractPower(word, bits);
    Pow2Mono(|bits|, 62);
    Pow2Values();
    assert Pow2(63) == 2 * Pow2(62);
  }

  lemma {:induction false} ExtractPower(word: Word, bits: seq<nat>)
    ensures Extract(word, bits) < Pow2(|bits|)
  {
    if bits != [] { ExtractPower(word, bits[..|bits| - 1]); }
  }

  // ---------------------------------------------------------------------------------------------
  // Grouping the opcodes of a node by value

  /** The opcodes filed under a value, in list order. */
  function Group(ops: seq<Opcode>, list: seq<nat>, bits: seq<nat>, val: int): (g: seq<nat>)
    requires ValidList(ops, list)
    ensures ValidList(ops, g)
    ensures forall i :: i in g <==> i in list && CaseOf(ops[i], bits) == val
  {
    if list == [] then []
    else
      var init, last := list[..|list| - 1], list[|list| - 1];
      assert list == init + [last];
      var g := Group(ops, init, bits, val);
      if CaseOf(ops[last], bits) == val then g + [last] else g
  }

  /** The lists filed under the given values. */
  function Groups(ops: seq<Opcode>, list: seq<nat>, bits: seq<nat>, vals: seq<int>): map<int, seq<nat>>
    requires ValidList(ops, list)
  {
    map v | v in vals :: Group(ops, list, bits, v)
  }

  /** The distinct values, in order of first appearance. */
  function Values(ops: seq<Opcode>, list: seq<nat>, bits: seq<nat>): (vals: seq<int>)
    requires ValidList(ops, list)
    ensures forall v :: v in vals <==> exists i :: i in list && CaseOf(ops[i], bits) == v
    ensures forall j, k :: 0 <= j < k < |vals| ==> vals[j] != vals[k]
  {
    if list == [] then []
    else
      var init, last := list[..|list| - 1], list[|list| - 1];
      assert list == init + [last];
      var vals := Values(ops, init, bits);
      var v := CaseOf(ops[last], bits);
      if v in vals then vals else vals + [v]
  }

  ghost predicate Rising(s: seq<int>) {
    forall j, k :: 0 <= j < k < |s| ==> s[j] < s[k]
  }

  /** std::sort on the values of a node, which are distinct */
  function Sort(s: seq<int>): (r: seq<int>)
    requires forall j, k :: 0 <= j < k < |s| ==> s[j] != s[k]
    ensures |r| == |s| && (forall v :: v in r <==> v in s) && Rising(r)
  {
    if s == [] then []
    else
      var init, last := s[..|s| - 1], s[|s| - 1];
      assert s == init + [last];
      Insert(Sort(init), last)
  }

  lemma RisingSnoc(r: seq<int>, init: seq<int>, v: int, last: int)
    requires Rising(r) && Rising(init + [last]) && v < last && forall w :: w in r <==> w in init || w == v
    ensures Rising(r + [last])
  {
    forall k | 0 <= k < |r| ensures r[k] < last {
      assert r[k] in r;
      if r[k] in init {
        var i :| 0 <= i < |init| && init[i] == r[k];
        assert (init + [last])[i] < (init + [last])[|init|];
      }
    }
  }

  function Insert(s: seq<int>, v: int): (r: seq<int>)
    requires Rising(s) && v !in s
    ensures |r| == |s| + 1 && (forall w :: w in r <==> w in s || w == v) && Rising(r)
  {
    if s == [] || s[|s| - 1] < v then s + [v]
    else
      var init, last := s[..|s| - 1], s[|s| - 1];
      assert s == init + [last];
      var r := Insert(init, v);
      RisingSnoc(r, init, v, last);
      r + [last]
  }

  // ---------------------------------------------------------------------------------------------
  // The tree

  /** Bits not yet used on the path to a node. */
  function Remaining(done: Word): nat {
    |set b: nat | b < WIDTH && b !in done|
  }

  /** A node that is not a leaf uses at least one new bit. */
  lemma ChosenAreFresh(ops: seq<Opcode>, list: seq<nat>, done: Word)
    requires ValidList(ops, list)
    ensures |ChosenBits(ops, list, done)| <= WIDTH
    ensures forall b :: b in ChosenBits(ops, list, done) ==> b < WIDTH && b !in done
    ensures Rows(ops, list, done) > 0 ==> ChosenBits(ops, list, done) != []
    ensures Rows(ops, list, done) > 0 ==>
      Remaining(done + Elements(ChosenBits(ops, list, done))) < Remaining(done)
  {
    if Rows(ops, list, done) > 0 {
      BitsCoveringMeans(ops, list, done, Rows(ops, list, done), WIDTH);
      var bits := ChosenBits(ops, list, done);
      var b: nat :| b < WIDTH && Coverage(ops, list, done, b) == Rows(ops, list, done);
      assert b in bits;
      var before := set b: nat | b < WIDTH && b !in done;
      var after := set b: nat | b < WIDTH && b !in done + Elements(bits);
      assert after <= before && b in before && b !in after;
      SmallerSet(after, before);
    }
  }

  lemma SmallerSet(a: set<nat>, b: set<nat>)
    requires a < b
    ensures |a| < |b|
  {
    var x :| x in b && x !in a;
    assert a <= b - {x};
    SubsetSize(a, b - {x});
  }

  /** The tree that generate_codec_node builds for a list whose opcodes have all been decided on
      the bits in `done`. */
  function Build(ops: seq<Opcode>, list: seq<nat>, done: Word): Node
    requires ValidList(ops, list)
    decreases Remaining(done)
  {
    if Rows(ops, list, done) == 0 then EMPTY
    else
      ChosenAreFresh(ops, list, done);
      var bits := ChosenBits(ops, list, done);
      var vals := Sort(Values(ops, list, bits));
      Node(bits, vals,
           Groups(ops, list, bits, vals),
           map v | v in vals :: Build(ops, Group(ops, list, bits, v), done + Elements(bits)))
  }

  lemma UsersSnoc(ops: seq<Opcode>, list: seq<nat>, b: nat)
    requires ValidList(ops, list) && list != []
    ensures var n := |list| - 1;
            |Users(ops, list, b)| == |Users(ops, list[..n], b)| + if b in ops[list[n]].mask then 1 else 0
  {
    var n := |list| - 1;
    var before, now := Users(ops, list[..n], b), Users(ops, list, b);
    assert now == if b in ops[list[n]].mask then before + {n} else before;
  }

  /** A column is fresh and no fresh column is masked by more opcodes of the list. */
  ghost predicate Widest(ops: seq<Opcode>, list: seq<nat>, done: Word, b: nat)
    requires ValidList(ops, list)
  {
    && b < WIDTH && b !in done && |Users(ops, list, b)| > 0
    && forall c: nat :: c < WIDTH && c !in done ==> |Users(ops, list, c)| <= |Users(ops, list, b)|
  }

  /** A node switches on exactly the fresh columns that most opcodes of its list mask, highest first. */
  lemma ColumnsAreWidest(ops: seq<Opcode>, list: seq<nat>, done: Word)
    requires ValidList(ops, list)
    ensures forall b: nat :: b in Build(ops, list, done).bits <==> Widest(ops, list, done, b)
    ensures var bits := Build(ops, list, done).bits; forall j, k :: 0 <= j < k < |bits| ==> bits[k] < bits[j]
  {
    hide Coverage, MaxRows, BitsCovering, Users, Build;
    var m := Rows(ops, list, done);
    NodeBits(ops, list, done);
    BitsCoveringMeans(ops, list, done, m, WIDTH);
    forall c: nat ensures Coverage(ops, list, done, c) == if c in done then 0 else |Users(ops, list, c)| {
      CoverageCounts(ops, list, done, c);
    }
    MaxRowsMeans(ops, list, done);
    if m > 0 {
      var top: nat :| top < WIDTH && Coverage(ops, list, done, top) == m;
      assert Widest(ops, list, done, top);
    }
  }

  lemma NodeBits(ops: seq<Opcode>, list: seq<nat>, done: Word)
    requires ValidList(ops, list)
    ensures Build(ops, list, done).bits == ChosenBits(ops, list, done)
  {
    hide Rows, BitsCovering, Values, Sort, Groups, Group;
  }

  lemma MaxRowsMeans(ops: seq<Opcode>, list: seq<nat>, done: Word)
    requires ValidList(ops, list)
    ensures forall b: nat :: b < WIDTH ==> Coverage(ops, list, done, b) <= Rows(ops, list, done)
    ensures Rows(ops, list, done) > 0 ==>
      exists b: nat :: b < WIDTH && Coverage(ops, list, done, b) == Rows(ops, list, done)
  {
    hide Coverage;
  }

  /** Every opcode of the list masks the column. */
  ghost predicate Common(ops: seq<Opcode>, list: seq<nat>, b: nat)
    requires ValidList(ops, list)
  {
    forall i :: i in list ==> b in ops[i].mask
  }

  lemma CommonIsFull(ops: seq<Opcode>, list: seq<nat>, b: nat)
    requires ValidList(ops, list)
    ensures |Users(ops, list, b)| <= |list|
    ensures |Users(ops, list, b)| == |list| <==> Common(ops, list, b)
  {
    var users, all := Users(ops, list, b), Indices(|list|);
    SubsetSize(users, all);
    if Common(ops, list, b) { assert users == all; }
    if !Common(ops, list, b) {
      var i :| i in list && b !in ops[i].mask;
      var k :| 0 <= k < |list| && list[k] == i;
      assert k in all && k !in users;
      SmallerSet(users, all);
    }
  }

  function Indices(n: nat): (r: set<nat>)
    ensures |r| == n && forall k: nat :: k in r <==> k < n
  {
    if n == 0 then {} else Indices(n - 1) + {n - 1}
  }

  /** A node has columns and leaves no opcode to its default if and only if some fresh column is masked by
      every opcode of its list. */
  lemma NoneIsPartial(ops: seq<Opcode>, list: seq<nat>, done: Word)
    requires ValidList(ops, list) && list != []
    ensures Build(ops, list, done).bits != []
         && (forall i :: i in list ==> !Partial(ops[i], Build(ops, list, done).bits))
       <==> exists b: nat :: b < WIDTH && b !in done && Common(ops, list, b)
  {
    hide Build, Users;
    ColumnsAreWidest(ops, list, done);
    var bits := Build(ops, list, done).bits;
    if b: nat :| b < WIDTH && b !in done && Common(ops, list, b) {
      CommonIsFull(ops, list, b);
      forall c: nat ensures |Users(ops, list, c)| <= |list| { CommonIsFull(ops, list, c); }
      assert Widest(ops, list, done, b);
      forall k | 0 <= k < |bits| ensures Common(ops, list, bits[k]) {
        assert bits[k] in bits;
        CommonIsFull(ops, list, bits[k]);
      }
    }
    if bits != [] && forall i :: i in list ==> !Partial(ops[i], bits) {
      assert bits[0] in bits && Common(ops, list, bits[0]);
    }
  }

  /** What the printed switch statements do with a word: take the explicit case when there is
      one, the default when there is not, and stay illegal when there is neither; a case whose
      node chooses no bits yields its opcode list. */
  function Walk(node: Node, word: Word): seq<nat>
    decreases node
  {
    var v := Extract(word, node.bits);
    if v in node.vals then Follow(node, v, word)
    else if DEFAULT in node.vals then Follow(node, DEFAULT, word)
    else []
  }

  function Follow(node: Node, v: int, word: Word): seq<nat>
    decreases node, 0
  {
    if v in node.valOpcodes && v in node.valDecodes then
      if node.valDecodes[v].bits == [] then node.valOpcodes[v] else Walk(node.valDecodes[v], word)
    else []
  }

  // ---------------------------------------------------------------------------------------------
  // What the tree decides

  /** One step down the path of opcode i. */
  function Step(ops: seq<Opcode>, list: seq<nat>, done: Word, i: nat): (g: seq<nat>)
    requires ValidList(ops, list) && i in list
    ensures ValidList(ops, g) && i in g
  {
    var bits := ChosenBits(ops, list, done);
    Group(ops, list, bits, CaseOf(ops[i], bits))
  }

  function Below(ops: seq<Opcode>, list: seq<nat>, done: Word): Word
    requires ValidList(ops, list)
  {
    done + Elements(ChosenBits(ops, list, done))
  }

  /** The bits compared with opcode i on its path: those of the nodes where i is fully masked. */
  ghost function Checked(ops: seq<Opcode>, list: seq<nat>, done: Word, i: nat): set<nat>
    requires ValidList(ops, list) && i in list
    decreases Remaining(done)
  {
    if Rows(ops, list, done) == 0 then {}
    else
      ChosenAreFresh(ops, list, done);
      var bits := ChosenBits(ops, list, done);
      var rest := Checked(ops, Step(ops, list, done, i), Below(ops, list, done), i);
      if Partial(ops[i], bits) then rest else Elements(bits) + rest
  }

  /** The masked bits of opcode i that its path uses up without comparing them. */
  ghost function Unchecked(ops: seq<Opcode>, list: seq<nat>, done: Word, i: nat): set<nat>
    requires ValidList(ops, list) && i in list
    decreases Remaining(done)
  {
    if Rows(ops, list, done) == 0 then {}
    else
      ChosenAreFresh(ops, list, done);
      var bits := ChosenBits(ops, list, done);
      var rest := Unchecked(ops, Step(ops, list, done, i), Below(ops, list, done), i);
      if Partial(ops[i], bits) then Elements(bits) * ops[i].mask + rest else rest
  }

  /** At some node of its path opcode i is only partially masked, and the word has the value of
      an explicit case there. */
  ghost predicate Shadowed(ops: seq<Opcode>, list: seq<nat>, done: Word, i: nat, word: Word)
    requires ValidList(ops, list) && i in list
    decreases Remaining(done)
  {
    Rows(ops, list, done) > 0 &&
    ChosenBits(ops, list, done) != [] &&
    ( ChosenAreFresh(ops, list, done);
      var bits := ChosenBits(ops, list, done);
      || (Partial(ops[i], bits) && Extract(word, bits) in Values(ops, list, bits))
      || Shadowed(ops, Step(ops, list, done, i), Below(ops, list, done), i, word))
  }

  lemma CaseIsDefault(ops: seq<Opcode>, list: seq<nat>, done: Word, i: nat, word: Word)
    requires ValidList(ops, list) && i in list
    ensures var bits := ChosenBits(ops, list, done);
            && Extract(word, bits) != DEFAULT
            && (CaseOf(ops[i], bits) == DEFAULT <==> Partial(ops[i], bits))
  {
    ChosenAreFresh(ops, list, done);
    ExtractBound(word, ChosenBits(ops, list, done));
    ExtractBound(ops[i].pattern, ChosenBits(ops, list, done));
  }

  /** The word takes the branch of opcode i at this node. */
  ghost predicate Goes(ops: seq<Opcode>, list: seq<nat>, done: Word, i: nat, word: Word)
    requires ValidList(ops, list) && i in list
  {
    var bits := ChosenBits(ops, list, done);
    if Partial(ops[i], bits) then Extract(word, bits) !in Values(ops, list, bits)
    else Agree(word, ops[i].pattern, Elements(bits))
  }

  lemma WalkUnfold(ops: seq<Opcode>, list: seq<nat>, done: Word, word: Word)
    requires ValidList(ops, list) && Rows(ops, list, done) > 0
    ensures
      var node := Build(ops, list, done);
      var bits := ChosenBits(ops, list, done);
      var vals := Values(ops, list, bits);
      Walk(node, word) == if Extract(word, bits) in vals then Follow(node, Extract(word, bits), word)
                          else if DEFAULT in vals then Follow(node, DEFAULT, word) else []
  {
    hide Follow, Values, Extract;
  }

  lemma Branch(ops: seq<Opcode>, list: seq<nat>, done: Word, i: nat, word: Word)
    requires ValidList(ops, list) && i in list && Rows(ops, list, done) > 0
    ensures
      var node := Build(ops, list, done);
      var c := CaseOf(ops[i], ChosenBits(ops, list, done));
      && (Goes(ops, list, done, i, word) ==> Walk(node, word) == Follow(node, c, word))
      && (!Goes(ops, list, done, i, word) ==>
            Walk(node, word) == [] || exists d :: d != c && Walk(node, word) == Follow(node, d, word))
  {
    hide Build, Walk, Follow, Values, Extract, Rows, Agree, ChosenBits;
    var bits := ChosenBits(ops, list, done);
    WalkUnfold(ops, list, done, word);
    CaseIsDefault(ops, list, done, i, word);
    ExtractInjective(word, ops[i].pattern, bits);
    assert CaseOf(ops[i], bits) in Values(ops, list, bits);
  }

  /** A walk only ever yields opcodes of the list. */
  lemma {:induction false} WalkStaysInside(ops: seq<Opcode>, list: seq<nat>, done: Word, word: Word, i: nat)
    requires ValidList(ops, list) && i in Walk(Build(ops, list, done), word)
    ensures i in list
    decreases Remaining(done)
  {
    if Rows(ops, list, done) > 0 {
      ChosenAreFresh(ops, list, done);
      var bits := ChosenBits(ops, list, done);
      var v: int := Extract(word, bits);
      var c := if v in Build(ops, list, done).vals then v else DEFAULT;
      FollowStaysInside(ops, list, done, word, i, c);
    }
  }

  lemma {:induction false} FollowStaysInside(ops: seq<Opcode>, list: seq<nat>, done: Word, word: Word, i: nat, c: int)
    requires ValidList(ops, list) && Rows(ops, list, done) > 0
    requires i in Follow(Build(ops, list, done), c, word)
    ensures i in Group(ops, list, ChosenBits(ops, list, done), c)
    decreases Remaining(done), 0
  {
    ChosenAreFresh(ops, list, done);
    var g := Group(ops, list, ChosenBits(ops, list, done), c);
    if Build(ops, g, Below(ops, list, done)).bits != [] {
      WalkStaysInside(ops, g, Below(ops, list, done), word, i);
    }
  }

  /** One step of the walk, seen from opcode i. */
  lemma WalkStep(ops: seq<Opcode>, list: seq<nat>, done: Word, i: nat, word: Word)
    requires ValidList(ops, list) && i in list && Rows(ops, list, done) > 0
    ensures
      var g, below := Step(ops, list, done, i), Below(ops, list, done);
      i in Walk(Build(ops, list, done), word)
      <==> Goes(ops, list, done, i, word) && (Rows(ops, g, below) == 0 || i in Walk(Build(ops, g, below), word))
  {
    Branch(ops, list, done, i, word);
    ChildOf(ops, list, done, i, word);
    hide Build, Walk, Follow, Values;
    var node := Build(ops, list, done);
    var c := CaseOf(ops[i], ChosenBits(ops, list, done));
    if i in Walk(node, word) && !Goes(ops, list, done, i, word) {
      var d :| d != c && Walk(node, word) == Follow(node, d, word);
      FollowStaysInside(ops, list, done, word, i, d);
    }
  }

  lemma ChildOf(ops: seq<Opcode>, list: seq<nat>, done: Word, i: nat, word: Word)
    requires ValidList(ops, list) && i in list && Rows(ops, list, done) > 0
    ensures
      var g, below := Step(ops, list, done, i), Below(ops, list, done);
      Follow(Build(ops, list, done), CaseOf(ops[i], ChosenBits(ops, list, done)), word)
      == if Rows(ops, g, below) == 0 then g else Walk(Build(ops, g, below), word)
  {
    ChosenAreFresh(ops, Step(ops, list, done, i), Below(ops, list, done));
    assert CaseOf(ops[i], ChosenBits(ops, list, done)) in Values(ops, list, ChosenBits(ops, list, done));
    hide Walk;
  }

  /** The decoder, exactly: opcode i is among the opcodes a word decodes to if and only if the
      word has i's pattern on the checked bits and is never captured by an explicit case at a
      node where i is only partially masked. */
  lemma {:induction false} DecoderExact(ops: seq<Opcode>, list: seq<nat>, done: Word, i: nat, word: Word)
    requires ValidList(ops, list) && i in list && Rows(ops, list, done) > 0
    ensures i in Walk(Build(ops, list, done), word)
       <==> Agree(word, ops[i].pattern, Checked(ops, list, done, i)) && !Shadowed(ops, list, done, i, word)
    decreases Remaining(done)
  {
    hide Build, Walk, Follow, Values, Extract, Rows, Remaining;
    ChosenAreFresh(ops, list, done);
    WalkStep(ops, list, done, i, word);
    var g, below := Step(ops, list, done, i), Below(ops, list, done);
    if Rows(ops, g, below) > 0 { DecoderExact(ops, g, below, i, word); }
  }

  /** Every masked bit is either compared or used up uncompared, never both. */
  lemma {:induction false} MaskIsUsedUp(ops: seq<Opcode>, list: seq<nat>, done: Word, i: nat)
    requires ValidTable(ops) && ValidList(ops, list) && i in list
    ensures Checked(ops, list, done, i) + Unchecked(ops, list, done, i) == ops[i].mask - done
    ensures Checked(ops, list, done, i) !! Unchecked(ops, list, done, i)
    decreases Remaining(done)
  {
    hide Rows, Remaining, ChosenBits, Step;
    if Rows(ops, list, done) == 0 {
      LeafMask(ops, list, done, i);
    } else {
      ChosenAreFresh(ops, list, done);
      MaskIsUsedUp(ops, Step(ops, list, done, i), Below(ops, list, done), i);
      var bits := Elements(ChosenBits(ops, list, done));
      assert ops[i].mask - done == (bits * ops[i].mask) + (ops[i].mask - (done + bits));
    }
  }

  /** At a leaf every masked bit has been used. */
  lemma LeafMask(ops: seq<Opcode>, list: seq<nat>, done: Word, i: nat)
    requires ValidTable(ops) && ValidList(ops, list) && i in list && Rows(ops, list, done) == 0
    ensures ops[i].mask <= done
  {
    hide Coverage;
    forall b | b in ops[i].mask ensures b in done {
      var k :| 0 <= k < |list| && list[k] == i;
      assert Coverage(ops, list, done, b) == 0;
      assert b in ops[list[k]].mask;
    }
  }

  /** A word that matches an opcode decodes to it unless the opcode is shadowed. */
  lemma MatchingWordArrives(ops: seq<Opcode>, list: seq<nat>, i: nat, word: Word)
    requires ValidTable(ops) && ValidList(ops, list) && i in list && Rows(ops, list, {}) > 0
    requires Matches(word, ops[i])
    ensures i in Walk(Build(ops, list, {}), word) <==> !Shadowed(ops, list, {}, i, word)
  {
    DecoderExact(ops, list, {}, i, word);
    MaskIsUsedUp(ops, list, {}, i);
    MatchesIsAgreement(word, ops[i]);
  }

  /** An opcode that a word decodes to matches it exactly when the unchecked bits agree. */
  lemma DecodedOpcodeMatches(ops: seq<Opcode>, list: seq<nat>, i: nat, word: Word)
    requires ValidTable(ops) && ValidList(ops, list) && i in list && Rows(ops, list, {}) > 0
    requires i in Walk(Build(ops, list, {}), word)
    ensures Matches(word, ops[i]) <==> Agree(word, ops[i].pattern, Unchecked(ops, list, {}, i))
  {
    DecoderExact(ops, list, {}, i, word);
    MaskIsUsedUp(ops, list, {}, i);
    MatchesIsAgreement(word, ops[i]);
  }

  lemma MatchesIsAgreement(word: Word, op: Opcode)
    requires ValidOpcode(op)
    ensures Matches(word, op) <==> Agree(word, op.pattern, op.mask)
  {
    if Matches(word, op) {
      forall b | b in op.mask ensures b in word <==> b in op.pattern {
        assert b in word <==> b in word * op.mask;
      }
    }
  }

  /** Opcode i is fully masked at every node of its path: its leaf is reached by explicit cases. */
  ghost predicate Explicit(ops: seq<Opcode>, list: seq<nat>, done: Word, i: nat)
    requires ValidList(ops, list) && i in list
    decreases Remaining(done)
  {
    Rows(ops, list, done) > 0 ==>
      ( ChosenAreFresh(ops, list, done);
        && !Partial(ops[i], ChosenBits(ops, list, done))
        && Explicit(ops, Step(ops, list, done, i), Below(ops, list, done), i))
  }

  lemma {:induction false} ExplicitIsChecked(ops: seq<Opcode>, list: seq<nat>, done: Word, i: nat, word: Word)
    requires ValidList(ops, list) && i in list && Explicit(ops, list, done, i)
    ensures Unchecked(ops, list, done, i) == {} && !Shadowed(ops, list, done, i, word)
    decreases Remaining(done)
  {
    if Rows(ops, list, done) > 0 {
      ChosenAreFresh(ops, list, done);
      ExplicitIsChecked(ops, Step(ops, list, done, i), Below(ops, list, done), i, word);
    }
  }

  /** Two opcodes that one word takes down the same branch, one of them fully masked, are filed
      under the same case. */
  lemma SameCase(ops: seq<Opcode>, list: seq<nat>, done: Word, i: nat, j: nat, word: Word)
    requires ValidList(ops, list) && i in list && j in list
    requires Goes(ops, list, done, i, word) && Goes(ops, list, done, j, word)
    requires !Partial(ops[i], ChosenBits(ops, list, done))
    ensures !Partial(ops[j], ChosenBits(ops, list, done))
    ensures Step(ops, list, done, i) == Step(ops, list, done, j)
  {
    var bits := ChosenBits(ops, list, done);
    ExtractInjective(word, ops[i].pattern, bits);
    ExtractInjective(word, ops[j].pattern, bits);
    assert CaseOf(ops[i], bits) in Values(ops, list, bits);
  }

  /** Two opcodes at one leaf of explicit cases have been compared on the same bits. */
  lemma {:induction false} LeafMates(ops: seq<Opcode>, list: seq<nat>, done: Word, i: nat, j: nat, word: Word)
    requires ValidList(ops, list) && i in list && j in list && Explicit(ops, list, done, i)
    requires Rows(ops, list, done) > 0
    requires i in Walk(Build(ops, list, done), word) && j in Walk(Build(ops, list, done), word)
    ensures Explicit(ops, list, done, j)
    ensures Checked(ops, list, done, i) == Checked(ops, list, done, j)
    decreases Remaining(done)
  {
    hide Build, Walk, Follow, Values, Extract, Rows, Remaining;
    ChosenAreFresh(ops, list, done);
    WalkStep(ops, list, done, i, word);
    WalkStep(ops, list, done, j, word);
    SameCase(ops, list, done, i, j, word);
    var g, below := Step(ops, list, done, i), Below(ops, list, done);
    if Rows(ops, g, below) > 0 { LeafMates(ops, g, below, i, j, word); }
  }

  /** A leaf reached by explicit cases only: a word arrives there exactly when
      word & mask == match. */
  lemma ExplicitLeaf(ops: seq<Opcode>, list: seq<nat>, i: nat, word: Word)
    requires ValidTable(ops) && ValidList(ops, list) && i in list && Rows(ops, list, {}) > 0
    requires Explicit(ops, list, {}, i)
    ensures i in Walk(Build(ops, list, {}), word) <==> Matches(word, ops[i])
  {
    hide Build, Walk, Follow, Values, Rows, Checked, Shadowed, Unchecked;
    DecoderExact(ops, list, {}, i, word);
    MaskIsUsedUp(ops, list, {}, i);
    ExplicitIsChecked(ops, list, {}, i, word);
    MatchesIsAgreement(word, ops[i]);
    assert ops[i].mask - {} == ops[i].mask;
  }

  /** All opcodes at such a leaf have the same mask and match. */
  lemma ExplicitLeafIsUniform(ops: seq<Opcode>, list: seq<nat>, i: nat, j: nat, word: Word)
    requires ValidTable(ops) && ValidList(ops, list) && i in list && j in list && Rows(ops, list, {}) > 0
    requires Explicit(ops, list, {}, i)
    requires i in Walk(Build(ops, list, {}), word) && j in Walk(Build(ops, list, {}), word)
    ensures ops[i] == ops[j]
  {
    hide Build, Walk, Follow, Values, Rows, Checked, Shadowed, Unchecked;
    LeafMates(ops, list, {}, i, j, word);
    ExplicitLeaf(ops, list, i, word);
    ExplicitLeaf(ops, list, j, word);
    MaskIsUsedUp(ops, list, {}, i);
    MaskIsUsedUp(ops, list, {}, j);
    ExplicitIsChecked(ops, list, {}, i, word);
    ExplicitIsChecked(ops, list, {}, j, word);
    assert ops[i].mask - {} == ops[i].mask && ops[j].mask - {} == ops[j].mask;
  }

  ghost predicate Distinct<T>(s: seq<T>) {
    forall j, k :: 0 <= j < k < |s| ==> s[j] != s[k]
  }

  /** Distinct opcodes get singleton leaves. */
  lemma DistinctOpcodesDecodeAlone(ops: seq<Opcode>, list: seq<nat>, i: nat, word: Word)
    requires ValidTable(ops) && ValidList(ops, list) && i in list && Rows(ops, list, {}) > 0
    requires Distinct(ops) && Distinct(list) && Explicit(ops, list, {}, i)
    ensures Matches(word, ops[i]) <==> Walk(Build(ops, list, {}), word) == [i]
  {
    hide Build, Walk, Rows, Explicit, Matches;
    ExplicitLeaf(ops, list, i, word);
    WalkDistinct(ops, list, {}, word);
    var leaf := Walk(Build(ops, list, {}), word);
    if Matches(word, ops[i]) {
      forall j | j in leaf ensures j == i {
        WalkStaysInside(ops, list, {}, word, j);
        ExplicitLeafIsUniform(ops, list, i, j, word);
      }
      OnlyOne(leaf, i);
    }
  }

  lemma OnlyOne(s: seq<nat>, i: nat)
    requires Distinct(s) && i in s && forall j :: j in s ==> j == i
    ensures s == [i]
  {
    SameIndex(s, i, 0, |s| - 1);
  }

  lemma SameIndex(s: seq<nat>, i: nat, m: nat, k: nat)
    requires Distinct(s) && (forall j :: j in s ==> j == i) && m < |s| && k < |s|
    ensures m == k && s[k] == i
  {
    assert s[m] in s && s[k] in s;
  }

  lemma {:induction false} GroupDistinct(ops: seq<Opcode>, list: seq<nat>, bits: seq<nat>, val: int)
    requires ValidList(ops, list) && Distinct(list)
    ensures Distinct(Group(ops, list, bits, val))
  {
    if list != [] {
      var init, last := list[..|list| - 1], list[|list| - 1];
      GroupDistinct(ops, init, bits, val);
      var g := Group(ops, init, bits, val);
      forall k | 0 <= k < |g| ensures g[k] != last { assert g[k] in init; }
    }
  }

  lemma {:induction false} WalkDistinct(ops: seq<Opcode>, list: seq<nat>, done: Word, word: Word)
    requires ValidList(ops, list) && Distinct(list)
    ensures Distinct(Walk(Build(ops, list, done), word))
    decreases Remaining(done)
  {
    if Rows(ops, list, done) > 0 {
      ChosenAreFresh(ops, list, done);
      var v: int := Extract(word, ChosenBits(ops, list, done));
      FollowDistinct(ops, list, done, word, v);
      FollowDistinct(ops, list, done, word, DEFAULT);
    }
  }

  lemma {:induction false} FollowDistinct(ops: seq<Opcode>, list: seq<nat>, done: Word, word: Word, c: int)
    requires ValidList(ops, list) && Distinct(list) && Rows(ops, list, done) > 0
    ensures Distinct(Follow(Build(ops, list, done), c, word))
    decreases Remaining(done), 0
  {
    ChosenAreFresh(ops, list, done);
    var bits := ChosenBits(ops, list, done);
    GroupDistinct(ops, list, bits, c);
    WalkDistinct(ops, Group(ops, list, bits, c), Below(ops, list, done), word);
    hide Walk, Distinct, Rows;
  }

  /** Two opcodes that each mask one bit, of opposite columns. */
  const CROSSED: seq<Opcode> := [Opcode({0}, {0}), Opcode({1}, {1})]

  lemma CrossedCoverage(b: nat)
    ensures Coverage(CROSSED, [0, 1], {}, b) == if b <= 1 then 1 else 0
  {
    var both: seq<nat>, one: seq<nat> := [0, 1], [0];
    assert both[..1] == one && one[..0] == [];
    assert Coverage(CROSSED, [], {}, b) == 0;
    assert Coverage(CROSSED, [0], {}, b) == if b == 0 then 1 else 0;
  }

  lemma CrossedBits()
    ensures Rows(CROSSED, [0, 1], {}) == 1
    ensures forall b: nat :: b in ChosenBits(CROSSED, [0, 1], {}) <==> b <= 1
  {
    hide Coverage, MaxRows, BitsCovering;
    forall b: nat ensures Coverage(CROSSED, [0, 1], {}, b) == if b <= 1 then 1 else 0 { CrossedCoverage(b); }
    assert 1 <= Coverage(CROSSED, [0, 1], {}, 0) <= Rows(CROSSED, [0, 1], {});
    assert Rows(CROSSED, [0, 1], {}) == 1;
    BitsCoveringMeans(CROSSED, [0, 1], {}, 1, WIDTH);
    assert ChosenBits(CROSSED, [0, 1], {}) == BitsCovering(CROSSED, [0, 1], {}, 1, WIDTH);
  }

  lemma CrossedArrives()
    ensures 0 in Walk(Build(CROSSED, [0, 1], {}), {})
  {
    hide Build, Walk, Rows, ChosenBits, Extract;
    CrossedBits();
    var list: seq<nat> := [0, 1];
    var bits := ChosenBits(CROSSED, list, {});
    assert 0 in bits && 1 in bits && 0 in list && 1 in list;
    assert Partial(CROSSED[0], bits) && Partial(CROSSED[1], bits);
    CaseIsDefault(CROSSED, list, {}, 0, {});
    CaseIsDefault(CROSSED, list, {}, 1, {});
    assert forall v :: v in Values(CROSSED, list, bits) ==> v == DEFAULT;
    var g, below := Step(CROSSED, list, {}, 0), Below(CROSSED, list, {});
    UsedUp(CROSSED, g, below);
    WalkStep(CROSSED, list, {}, 0, {});
  }

  /** A list all of whose masks are used up is a leaf. */
  lemma UsedUp(ops: seq<Opcode>, list: seq<nat>, done: Word)
    requires ValidList(ops, list) && forall i :: i in list ==> ops[i].mask <= done
    ensures Rows(ops, list, done) == 0
  {
    hide Coverage;
    forall b: nat ensures Coverage(ops, list, done, b) == 0 {
      assert forall k :: 0 <= k < |list| ==> list[k] in list;
    }
  }

  /** A word that matches no opcode of a table can still decode to one: two opcodes, each masking
      one bit, cover their columns equally, are both partial there, and land at the default with
      no bit of either compared. */
  lemma DecoderIsNotSound()
    ensures ValidTable(CROSSED) && Rows(CROSSED, [0, 1], {}) > 0
    ensures 0 in Walk(Build(CROSSED, [0, 1], {}), {})
    ensures !Matches({}, CROSSED[0]) && !Matches({}, CROSSED[1])
  {
    CrossedArrives();
    CrossedBits();
    hide Build, Walk, Rows;
    assert 0 in CROSSED[0].pattern && 1 in CROSSED[1].pattern;
  }
}
