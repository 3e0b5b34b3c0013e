/**
  Which opcode tables the decision tree of src/app/rv-meta.cc decodes right for every word: the exact
  conditions, on the opcodes listed at the nodes, under which an opcode is found by every word that
  matches it, and under which every word that finds it matches it.
 */
module DecoderTables {
  import opened DecoderTree

  /** The word takes the branch of opcode i at every node of i's path. */
  ghost predicate Arrives(ops: seq<Opcode>, list: seq<nat>, done: Word, i: nat, word: Word)
    requires ValidList(ops, list) && i in list
    decreases Remaining(done)
  {
    Rows(ops, list, done) > 0 ==>
      ( ChosenAreFresh(ops, list, done);
        Goes(ops, list, done, i, word) && Arrives(ops, Step(ops, list, done, i), Below(ops, list, done), i, word))
  }

  lemma {:induction false} ArrivesIsWalk(ops: seq<Opcode>, list: seq<nat>, done: Word, i: nat, word: Word)
    requires ValidList(ops, list) && i in list && Rows(ops, list, done) > 0
    ensures i in Walk(Build(ops, list, done), word) <==> Arrives(ops, list, done, i, word)
    decreases Remaining(done)
  {
    hide Build, Walk, Rows, Remaining, Goes;
    ChosenAreFresh(ops, list, done);
    WalkStep(ops, list, done, i, word);
    var g, below := Step(ops, list, done, i), Below(ops, list, done);
    if Rows(ops, g, below) > 0 { ArrivesIsWalk(ops, g, below, i, word); }
  }

  // ---------------------------------------------------------------------------------------------
  // Every word that matches is decoded

  /** Opcode j has the pattern of i on the bits where i is masked. */
  ghost predicate AgreeWith(ops: seq<Opcode>, j: nat, i: nat, bits: seq<nat>)
    requires i < |ops| && j < |ops|
  {
    Agree(ops[j].pattern, ops[i].pattern, Elements(bits) * ops[i].mask)
  }

  /** Another opcode has an explicit case at the node and agrees with i wherever i is masked there. */
  ghost predicate Captured(ops: seq<Opcode>, list: seq<nat>, bits: seq<nat>, i: nat)
    requires ValidList(ops, list) && i in list
  {
    Partial(ops[i], bits) &&
    exists j :: j in list && !Partial(ops[j], bits) && AgreeWith(ops, j, i, bits)
  }

  ghost predicate NeverCaptured(ops: seq<Opcode>, list: seq<nat>, done: Word, i: nat)
    requires ValidList(ops, list) && i in list
    decreases Remaining(done)
  {
    Rows(ops, list, done) > 0 ==>
      ( ChosenAreFresh(ops, list, done);
        !Captured(ops, list, ChosenBits(ops, list, done), i)
        && NeverCaptured(ops, Step(ops, list, done, i), Below(ops, list, done), i))
  }

  /** A value is explicit exactly when it is the pattern of a fully masked opcode. */
  lemma ExplicitValue(ops: seq<Opcode>, list: seq<nat>, done: Word, word: Word)
    requires ValidList(ops, list)
    ensures var bits := ChosenBits(ops, list, done);
            Extract(word, bits) in Values(ops, list, bits)
            <==> exists j :: j in list && !Partial(ops[j], bits) && Agree(word, ops[j].pattern, Elements(bits))
  {
    hide ChosenBits, Extract, Agree, Partial;
    var bits := ChosenBits(ops, list, done);
    forall j | j in list
      ensures CaseOf(ops[j], bits) == Extract(word, bits)
         <==> !Partial(ops[j], bits) && Agree(word, ops[j].pattern, Elements(bits))
    {
      CaseIsDefault(ops, list, done, j, word);
      ExtractInjective(word, ops[j].pattern, bits);
    }
  }

  lemma {:induction false} MatchingArrives(ops: seq<Opcode>, list: seq<nat>, done: Word, i: nat, word: Word)
    requires ValidList(ops, list) && i in list && NeverCaptured(ops, list, done, i)
    requires Agree(word, ops[i].pattern, ops[i].mask)
    ensures Arrives(ops, list, done, i, word)
    decreases Remaining(done)
  {
    hide Rows, Remaining, ChosenBits, Extract, Values;
    if Rows(ops, list, done) > 0 {
      ChosenAreFresh(ops, list, done);
      ExplicitValue(ops, list, done, word);
      MatchingArrives(ops, Step(ops, list, done, i), Below(ops, list, done), i, word);
    }
  }

  /** The word u on the bits, v elsewhere. */
  function Glue(u: Word, v: Word, on: set<nat>): (w: Word)
    ensures Agree(w, u, on) && forall b :: b !in on ==> (b in w <==> b in v)
  {
    u * on + (v - on)
  }

  lemma {:induction false} CapturedWord(ops: seq<Opcode>, list: seq<nat>, done: Word, i: nat) returns (word: Word)
    requires ValidList(ops, list) && i in list && !NeverCaptured(ops, list, done, i)
    ensures Agree(word, ops[i].pattern, ops[i].mask) && !Arrives(ops, list, done, i, word)
    decreases Remaining(done)
  {
    hide Rows, Remaining, ChosenBits, Extract, Values;
    ChosenAreFresh(ops, list, done);
    var bits := ChosenBits(ops, list, done);
    if Captured(ops, list, bits, i) {
      var j :| j in list && !Partial(ops[j], bits) && AgreeWith(ops, j, i, bits);
      word := Glue(ops[j].pattern, ops[i].pattern, Elements(bits));
      ExplicitValue(ops, list, done, word);
    } else {
      word := CapturedWord(ops, Step(ops, list, done, i), Below(ops, list, done), i);
    }
  }

  /** Every word that matches opcode i decodes to it, if and only if at no node of its path where i is
      partially masked another opcode is fully masked and agrees with it. */
  lemma CompleteWhen(ops: seq<Opcode>, list: seq<nat>, i: nat)
    requires ValidTable(ops) && ValidList(ops, list) && i in list && Rows(ops, list, {}) > 0
    ensures (forall word: Word :: Matches(word, ops[i]) ==> i in Walk(Build(ops, list, {}), word))
       <==> NeverCaptured(ops, list, {}, i)
  {
    hide Build, Walk, Rows, Arrives, NeverCaptured, Agree;
    if NeverCaptured(ops, list, {}, i) {
      forall word: Word | Matches(word, ops[i]) ensures i in Walk(Build(ops, list, {}), word) {
        MatchesIsAgreement(word, ops[i]);
        MatchingArrives(ops, list, {}, i, word);
        ArrivesIsWalk(ops, list, {}, i, word);
      }
    } else {
      var word := CapturedWord(ops, list, {}, i);
      MatchesIsAgreement(word, ops[i]);
      ArrivesIsWalk(ops, list, {}, i, word);
    }
  }

  // ---------------------------------------------------------------------------------------------
  // Every word that is decoded matches

  /** The word goes to the default of the node. */
  ghost predicate Defaults(ops: seq<Opcode>, list: seq<nat>, bits: seq<nat>, word: Word)
    requires ValidList(ops, list)
  {
    Extract(word, bits) !in Values(ops, list, bits)
  }

  /** At some node of its path i is partially masked and the explicit cases leave nothing to the default. */
  ghost predicate Blocked(ops: seq<Opcode>, list: seq<nat>, done: Word, i: nat)
    requires ValidList(ops, list) && i in list
    decreases Remaining(done)
  {
    Rows(ops, list, done) > 0 &&
      ( ChosenAreFresh(ops, list, done);
        var bits := ChosenBits(ops, list, done);
        || (Partial(ops[i], bits) && forall word: Word :: !Defaults(ops, list, bits, word))
        || Blocked(ops, Step(ops, list, done, i), Below(ops, list, done), i))
  }

  /** At every node of its path where i is partially masked, what is left to the default agrees with i
      wherever i is masked there. */
  ghost predicate Narrow(ops: seq<Opcode>, list: seq<nat>, done: Word, i: nat)
    requires ValidList(ops, list) && i in list
    decreases Remaining(done)
  {
    Rows(ops, list, done) > 0 ==>
      ( ChosenAreFresh(ops, list, done);
        var bits := ChosenBits(ops, list, done);
        && (Partial(ops[i], bits) ==>
              forall word: Word :: Defaults(ops, list, bits, word) ==>
                Agree(word, ops[i].pattern, Elements(bits) * ops[i].mask))
        && Narrow(ops, Step(ops, list, done, i), Below(ops, list, done), i))
  }

  lemma {:induction false} BlockedNeverArrives(ops: seq<Opcode>, list: seq<nat>, done: Word, i: nat, word: Word)
    requires ValidList(ops, list) && i in list && Blocked(ops, list, done, i)
    ensures !Arrives(ops, list, done, i, word)
    decreases Remaining(done)
  {
    hide Rows, Remaining, ChosenBits, Extract, Values;
    ChosenAreFresh(ops, list, done);
    var bits := ChosenBits(ops, list, done);
    assert Partial(ops[i], bits) && Goes(ops, list, done, i, word) ==> Defaults(ops, list, bits, word);
    if !(Partial(ops[i], bits) && forall word: Word :: !Defaults(ops, list, bits, word)) {
      BlockedNeverArrives(ops, Step(ops, list, done, i), Below(ops, list, done), i, word);
    }
  }

  lemma {:induction false} NarrowAgrees(ops: seq<Opcode>, list: seq<nat>, done: Word, i: nat, word: Word)
    requires ValidTable(ops) && ValidList(ops, list) && i in list
    requires Narrow(ops, list, done, i) && Arrives(ops, list, done, i, word)
    ensures Agree(word, ops[i].pattern, ops[i].mask - done)
    decreases Remaining(done)
  {
    hide Rows, Remaining, ChosenBits, Extract, Values;
    if Rows(ops, list, done) == 0 {
      LeafMask(ops, list, done, i);
    } else {
      ChosenAreFresh(ops, list, done);
      var bits := ChosenBits(ops, list, done);
      assert Partial(ops[i], bits) ==> Defaults(ops, list, bits, word);
      NarrowAgrees(ops, Step(ops, list, done, i), Below(ops, list, done), i, word);
    }
  }

  /** Arrival does not depend on bits used before. */
  lemma {:induction false} ArrivesLocal(ops: seq<Opcode>, list: seq<nat>, done: Word, i: nat, u: Word, v: Word)
    requires ValidList(ops, list) && i in list && forall b: nat :: b !in done ==> (b in u <==> b in v)
    ensures Arrives(ops, list, done, i, u) ==> Arrives(ops, list, done, i, v)
    decreases Remaining(done)
  {
    hide Rows, Remaining, ChosenBits, Extract, Values, Partial;
    if Rows(ops, list, done) > 0 && Arrives(ops, list, done, i, u) {
      ChosenAreFresh(ops, list, done);
      var bits := ChosenBits(ops, list, done);
      assert Agree(u, v, Elements(bits));
      ExtractInjective(u, v, bits);
      ArrivesLocal(ops, Step(ops, list, done, i), Below(ops, list, done), i, u, v);
    }
  }

  /** An opcode that is not blocked is decoded by some word; if its defaults are not narrow, by one that
      does not match it. */
  lemma {:induction false} ArrivingWord(ops: seq<Opcode>, list: seq<nat>, done: Word, i: nat) returns (word: Word)
    requires ValidTable(ops) && ValidList(ops, list) && i in list && !Blocked(ops, list, done, i)
    ensures Arrives(ops, list, done, i, word)
    ensures !Narrow(ops, list, done, i) ==> !Agree(word, ops[i].pattern, ops[i].mask - done)
    decreases Remaining(done)
  {
    hide Rows, Remaining, ChosenBits, Extract, Values, Partial;
    if Rows(ops, list, done) == 0 { return {}; }
    ChosenAreFresh(ops, list, done);
    var bits, below, g := ChosenBits(ops, list, done), Below(ops, list, done), Step(ops, list, done, i);
    var rest := ArrivingWord(ops, g, below, i);
    var here := HereWord(ops, list, bits, i);
    word := Glue(here, rest, Elements(bits));
    ExtractInjective(word, here, bits);
    ArrivesLocal(ops, g, below, i, rest, word);
    assert Goes(ops, list, done, i, word);
    if !Narrow(ops, list, done, i) { Disagrees(ops[i], done, Elements(bits), here, rest, word); }
  }

  /** A word that takes i's branch at a node, against i's pattern if that is possible. */
  lemma HereWord(ops: seq<Opcode>, list: seq<nat>, bits: seq<nat>, i: nat) returns (word: Word)
    requires ValidList(ops, list) && i in list
    requires Partial(ops[i], bits) ==> exists w: Word :: Defaults(ops, list, bits, w)
    ensures !Partial(ops[i], bits) ==> word == ops[i].pattern
    ensures Partial(ops[i], bits) ==> Defaults(ops, list, bits, word)
    ensures Partial(ops[i], bits) && Agree(word, ops[i].pattern, Elements(bits) * ops[i].mask) ==>
      forall w: Word :: Defaults(ops, list, bits, w) ==> Agree(w, ops[i].pattern, Elements(bits) * ops[i].mask)
  {
    hide Defaults, Partial, Agree;
    if !Partial(ops[i], bits) {
      word := ops[i].pattern;
    } else if w: Word :| Defaults(ops, list, bits, w) && !Agree(w, ops[i].pattern, Elements(bits) * ops[i].mask) {
      word := w;
    } else {
      word :| Defaults(ops, list, bits, word);
    }
  }

  lemma Disagrees(op: Opcode, done: Word, on: set<nat>, here: Word, rest: Word, word: Word)
    requires on !! done && word == Glue(here, rest, on)
    requires !Agree(here, op.pattern, on * op.mask) || !Agree(rest, op.pattern, op.mask - (done + on))
    ensures !Agree(word, op.pattern, op.mask - done)
  {
    if !Agree(here, op.pattern, on * op.mask) {
      var b :| b in on * op.mask && !(b in here <==> b in op.pattern);
      assert b in op.mask - done;
    } else {
      var b :| b in op.mask - (done + on) && !(b in rest <==> b in op.pattern);
      assert b in op.mask - done;
    }
  }

  /** Every word that decodes to opcode i matches it, if and only if no word does, or what is left to the
      default agrees with i at every node of its path. */
  lemma SoundWhen(ops: seq<Opcode>, list: seq<nat>, i: nat)
    requires ValidTable(ops) && ValidList(ops, list) && i in list && Rows(ops, list, {}) > 0
    ensures (forall word: Word :: i in Walk(Build(ops, list, {}), word) ==> Matches(word, ops[i]))
       <==> Blocked(ops, list, {}, i) || Narrow(ops, list, {}, i)
  {
    hide Build, Walk, Rows, Arrives, Blocked, Narrow, Agree;
    var mask := ops[i].mask;
    assert mask - {} == mask;
    if Blocked(ops, list, {}, i) || Narrow(ops, list, {}, i) {
      forall word: Word | i in Walk(Build(ops, list, {}), word) ensures Matches(word, ops[i]) {
        ArrivesIsWalk(ops, list, {}, i, word);
        if Blocked(ops, list, {}, i) {
          BlockedNeverArrives(ops, list, {}, i, word);
        } else {
          NarrowAgrees(ops, list, {}, i, word);
          MatchesIsAgreement(word, ops[i]);
        }
      }
    } else {
      var word := ArrivingWord(ops, list, {}, i);
      ArrivesIsWalk(ops, list, {}, i, word);
      MatchesIsAgreement(word, ops[i]);
    }
  }

  // ---------------------------------------------------------------------------------------------
  // A matching word that is not decoded

  /** The second opcode is fully masked where the first and the third are not. */
  const SHADING: seq<Opcode> := [Opcode({0}, {0}), Opcode({0, 1}, {0, 1}), Opcode({1}, {})]

  lemma ShadingCoverage(b: nat)
    ensures Coverage(SHADING, [0, 1, 2], {}, b) == if b <= 1 then 2 else 0
  {
    var three: seq<nat>, two: seq<nat>, one: seq<nat> := [0, 1, 2], [0, 1], [0];
    assert three[..2] == two && two[..1] == one && one[..0] == [];
    assert Coverage(SHADING, [], {}, b) == 0;
    assert Coverage(SHADING, [0], {}, b) == if b == 0 then 1 else 0;
    assert Coverage(SHADING, [0, 1], {}, b) == if b == 0 then 2 else if b == 1 then 1 else 0;
  }

  lemma ShadingBits()
    ensures Rows(SHADING, [0, 1, 2], {}) == 2
    ensures forall b: nat :: b in ChosenBits(SHADING, [0, 1, 2], {}) <==> b <= 1
  {
    hide Coverage, MaxRows, BitsCovering;
    forall b: nat ensures Coverage(SHADING, [0, 1, 2], {}, b) == if b <= 1 then 2 else 0 { ShadingCoverage(b); }
    assert 2 <= Coverage(SHADING, [0, 1, 2], {}, 0) <= Rows(SHADING, [0, 1, 2], {});
    assert Rows(SHADING, [0, 1, 2], {}) == 2;
    BitsCoveringMeans(SHADING, [0, 1, 2], {}, 2, WIDTH);
    assert ChosenBits(SHADING, [0, 1, 2], {}) == BitsCovering(SHADING, [0, 1, 2], {}, 2, WIDTH);
  }

  // ---------------------------------------------------------------------------------------------
  // Tables whose opcodes share columns

  /** At every node of the path of opcode i some fresh column is masked by every opcode listed. */
  ghost predicate Sharing(ops: seq<Opcode>, list: seq<nat>, done: Word, i: nat)
    requires ValidList(ops, list) && i in list
    decreases Remaining(done)
  {
    Rows(ops, list, done) > 0 ==>
      ( ChosenAreFresh(ops, list, done);
        && (exists b: nat :: b < WIDTH && b !in done && Common(ops, list, b))
        && Sharing(ops, Step(ops, list, done, i), Below(ops, list, done), i))
  }

  lemma {:induction false} SharingHidesNothing(ops: seq<Opcode>, list: seq<nat>, done: Word, i: nat, word: Word)
    requires ValidList(ops, list) && i in list && Sharing(ops, list, done, i)
    ensures Unchecked(ops, list, done, i) == {} && !Shadowed(ops, list, done, i, word)
    decreases Remaining(done)
  {
    hide Rows, ChosenBits, Extract, Values, Partial, Common, Build;
    if Rows(ops, list, done) > 0 {
      ChosenAreFresh(ops, list, done);
      NodeBits(ops, list, done);
      NoneIsPartial(ops, list, done);
      SharingHidesNothing(ops, Step(ops, list, done, i), Below(ops, list, done), i, word);
    }
  }

  /** Then the words that decode to the opcode are exactly those that match it. */
  lemma SharingIsExact(ops: seq<Opcode>, list: seq<nat>, i: nat, word: Word)
    requires ValidTable(ops) && ValidList(ops, list) && i in list && Rows(ops, list, {}) > 0
    requires Sharing(ops, list, {}, i)
    ensures i in Walk(Build(ops, list, {}), word) <==> Matches(word, ops[i])
  {
    hide Rows, Walk, Build, Shadowed, Unchecked, Sharing, Matches;
    SharingHidesNothing(ops, list, {}, i, word);
    if Matches(word, ops[i]) { MatchingWordArrives(ops, list, i, word); }
    if i in Walk(Build(ops, list, {}), word) { DecodedOpcodeMatches(ops, list, i, word); }
  }

  /** A word that matches the first opcode is captured by the explicit case of the second. */
  lemma DecoderIsNotComplete()
    ensures ValidTable(SHADING) && Rows(SHADING, [0, 1, 2], {}) > 0
    ensures Matches({0, 1}, SHADING[0]) && 0 !in Walk(Build(SHADING, [0, 1, 2], {}), {0, 1})
  {
    hide Build, Walk, Rows, ChosenBits, Extract, Values;
    ShadingBits();
    var list: seq<nat> := [0, 1, 2];
    var bits := ChosenBits(SHADING, list, {});
    assert 0 in bits && 1 in bits && 0 in list && 1 in list;
    forall k | 0 <= k < |bits| ensures bits[k] in SHADING[1].mask { assert bits[k] in bits; }
    assert Partial(SHADING[0], bits) && !Partial(SHADING[1], bits);
    assert Agree({0, 1}, SHADING[1].pattern, Elements(bits));
    ExplicitValue(SHADING, list, {}, {0, 1});
    WalkStep(SHADING, list, {}, 0, {0, 1});
    assert {0, 1} * SHADING[0].mask == {0};
  }
}
