/**
  The initial stack of a user process: map_proxy_stack, copy_to_proxy_stack and setup_proxy_stack
  (src/app/rv-sim.cc).  The stack is a serializer: what a program reads upwards from its first stack
  pointer is argc, the argument pointers, the environment pointers and the auxiliary vector.
 */
module ProxyStack {
  import opened Bits
  import opened InstBuffer

  // ---------------------------------------------------------------------------------------------
  // Layout

  /** An array of words of w bytes each, as it lies in memory. */
  function WordBytes(ws: seq<nat>, w: nat): (b: seq<nat>)
  {
    if ws == [] then [] else Bytes(w, ws[0]) + WordBytes(ws[1..], w)
  }

  /** The contents of the stack, lowest address first, after pushing C strings one after the other. */
  function Pushed(strs: seq<seq<nat>>, live: seq<nat>): (r: seq<nat>)
    ensures |r| >= |strs| + |live|
  {
    if strs == [] then live
    else strs[|strs| - 1] + [0] + Pushed(strs[..|strs| - 1], live)
  }

  /** The stack pointer after each of these pushes. */
  function Pointers(strs: seq<seq<nat>>, live: seq<nat>, top: int): (ps: seq<int>)
    ensures |ps| == |strs|
  {
    if strs == [] then []
    else Pointers(strs[..|strs| - 1], live, top) + [top - |Pushed(strs, live)|]
  }

  function Zeros(n: nat): (z: seq<nat>)
    ensures |z| == n && forall i :: 0 <= i < n ==> z[i] == 0
  {
    seq(n, i => 0)
  }

  /** The eight bytes at the top. */
  const MARK: nat := 0xfeedcafebabef00d

  function Mark(): (b: seq<nat>)
    ensures |b| == 8
  {
    Bytes(8, MARK)
  }

  function Strings(args: seq<seq<nat>>, envs: seq<seq<nat>>): (b: seq<nat>)
    ensures |b| >= |args| + |envs| + 8
  {
    Pushed(args, Pushed(envs, Mark()))
  }

  function Padded(live: seq<nat>, top: int): (b: seq<nat>) {
    Zeros((top - |live|) % 16) + live
  }

  function ArgPointers(args: seq<seq<nat>>, envs: seq<seq<nat>>, top: int): (ps: seq<int>)
    ensures |ps| == |args|
  {
    Pointers(args, Pushed(envs, Mark()), top)
  }

  function EnvPointers(envs: seq<seq<nat>>, top: int): (ps: seq<int>)
    ensures |ps| == |envs|
  {
    Pointers(envs, Mark(), top)
  }

  // ---------------------------------------------------------------------------------------------
  // Reading

  /** The stack contents `live` end at top; at address p they hold the string s and its NUL. */
  ghost predicate StringAt(live: seq<nat>, top: int, p: int, s: seq<nat>) {
    var o := p - (top - |live|);
    0 <= o && o + |s| + 1 <= |live| && live[o..o + |s| + 1] == s + [0]
  }

  /** At offset o, in words of w bytes, they hold the array ws. */
  ghost predicate WordsAt(live: seq<nat>, o: nat, ws: seq<int>, w: nat) {
    forall i :: 0 <= i < |ws| ==> WordAt(live, o + i, ws[i], w)
  }

  ghost predicate WordAt(live: seq<nat>, k: nat, v: int, w: nat) {
    (k + 1) * w <= |live| && k * w + w <= |live| && Load(live, k * w, w) == v
  }

  lemma StringBelow(front: seq<nat>, live: seq<nat>, top: int, p: int, s: seq<nat>)
    requires StringAt(live, top, p, s)
    ensures StringAt(front + live, top, p, s)
  {
    var o := p - (top - |live|);
    var all := front + live;
    assert all[|front| + o..|front| + o + |s| + 1] == live[o..o + |s| + 1];
  }

  /** Each recorded pointer addresses its own string. */
  lemma {:induction false} PointersAddress(strs: seq<seq<nat>>, live: seq<nat>, top: int, i: nat)
    requires i < |strs|
    ensures StringAt(Pushed(strs, live), top, Pointers(strs, live, top)[i], strs[i])
    ensures top - |Pushed(strs, live)| <= Pointers(strs, live, top)[i] < top - |live|
    decreases |strs|
  {
    var n := |strs| - 1;
    var below := Pushed(strs[..n], live);
    var front := strs[n] + [0];
    assert Pushed(strs, live) == front + below;
    if i < n {
      PointersAddress(strs[..n], live, top, i);
      StringBelow(front, below, top, Pointers(strs[..n], live, top)[i], strs[i]);
    } else {
      assert Pushed(strs, live)[..|front|] == front;
    }
  }

  lemma {:induction false} WordBytesLength(ws: seq<nat>, w: nat)
    ensures |WordBytes(ws, w)| == |ws| * w
  {
    hide Bytes;
    if ws == [] {
      assert 0 * w == 0;
    } else {
      WordBytesLength(ws[1..], w);
      Scale(|ws|, |ws|, w);
    }
  }

  lemma {:induction false} WordBytesConcat(a: seq<nat>, b: seq<nat>, w: nat)
    ensures WordBytes(a + b, w) == WordBytes(a, w) + WordBytes(b, w)
  {
    hide Bytes;
    if a == [] {
      assert a + b == b;
    } else {
      assert (a + b)[0] == a[0] && (a + b)[1..] == a[1..] + b;
      WordBytesConcat(a[1..], b, w);
    }
  }

  /** An array in memory reads back as itself, whatever follows it. */
  lemma {:induction false} ArrayReads(ws: seq<nat>, w: nat, rest: seq<nat>, i: nat)
    requires i < |ws| && ws[i] < Pow2(8 * w)
    ensures WordAt(WordBytes(ws, w) + rest, i, ws[i], w)
    decreases |ws|
  {
    hide Bytes, Load, Pow2;
    WordBytesLength(ws, w);
    assert (i + 1) * w <= |ws| * w && (i + 1) * w == i * w + w by { Scale(i + 1, |ws|, w); }
    var mem := WordBytes(ws, w) + rest;
    var head, tail := Bytes(w, ws[0]), WordBytes(ws[1..], w) + rest;
    assert mem == head + tail;
    if i == 0 {
      assert mem[0..w] == head;
      LoadBytes(mem, 0, w, ws[0]);
      UnsignedSmall(8 * w, ws[0]);
      assert 0 * w == 0;
    } else {
      ArrayReads(ws[1..], w, rest, i - 1);
      assert (i - 1) * w + w == i * w;
      ShiftedLoad(head, tail, (i - 1) * w, w);
    }
  }

  lemma Scale(i: nat, n: nat, w: nat)
    requires i <= n
    ensures i * w <= n * w && (i > 0 ==> i * w == (i - 1) * w + w)
  {}

  lemma {:induction false} ShiftedLoad(front: seq<nat>, mem: seq<nat>, at: nat, n: nat)
    requires at + n <= |mem|
    ensures Load(front + mem, |front| + at, n) == Load(mem, at, n)
    decreases n
  {
    if n > 0 { ShiftedLoad(front, mem, at + 1, n - 1); }
  }

  // ---------------------------------------------------------------------------------------------
  // The whole stack

  /** argc, argument pointers, null, environment pointers, null, auxiliary vector */
  function Table(args: seq<seq<nat>>, envs: seq<seq<nat>>, aux: seq<nat>, top: int): seq<int> {
    [|args|] + ArgPointers(args, envs, top) + [0] + EnvPointers(envs, top) + [0] + aux
  }

  ghost predicate AllNat(s: seq<int>) {
    forall i :: 0 <= i < |s| ==> s[i] >= 0
  }

  function AsNats(s: seq<int>): (r: seq<nat>)
    ensures |r| == |s| && (AllNat(s) ==> r == s)
  {
    seq(|s|, i requires 0 <= i < |s| => if s[i] >= 0 then s[i] else 0)
  }

  /** The contents of the stack when setup_proxy_stack is done. */
  function Layout(args: seq<seq<nat>>, envs: seq<seq<nat>>, aux: seq<nat>, w: nat, top: int): seq<nat> {
    WordBytes(AsNats(Table(args, envs, aux, top)), w) + Padded(Strings(args, envs), top)
  }

  /** Where the stack may lie: above address 0, 16-byte aligned, and addressable in words of w bytes. */
  predicate Placed(top: int, size: nat, w: nat) {
    8 <= size && 0 < top - size && (top - size) % 16 == 0 && 0 < w && top <= Pow2(8 * w) && top < Pow2(64)
  }

  /** Pointers are non-null and lie in the stack. */
  lemma PointerRange(args: seq<seq<nat>>, envs: seq<seq<nat>>, top: int, i: nat)
    ensures i < |args| ==> top - |Strings(args, envs)| <= ArgPointers(args, envs, top)[i] < top
    ensures i < |envs| ==> top - |Strings(args, envs)| <= EnvPointers(envs, top)[i] < top
  {
    hide Pushed, Pointers, Mark, StringAt;
    if i < |args| { PointersAddress(args, Pushed(envs, Mark()), top, i); }
    if i < |envs| { PointersAddress(envs, Mark(), top, i); }
  }

  lemma TableFits(args: seq<seq<nat>>, envs: seq<seq<nat>>, aux: seq<nat>, w: nat, top: int, size: nat, i: nat)
    requires Placed(top, size, w) && |Strings(args, envs)| <= size && i < |Table(args, envs, aux, top)|
    requires forall k :: 0 <= k < |aux| ==> aux[k] < Pow2(8 * w)
    ensures 0 <= Table(args, envs, aux, top)[i] < Pow2(8 * w)
  {
    hide Pow2, Strings, ArgPointers, EnvPointers, Mark;
    var t := Table(args, envs, aux, top);
    var a, e := |args|, |envs|;
    if 1 <= i <= a {
      PointerRange(args, envs, top, i - 1);
      assert t[i] == ArgPointers(args, envs, top)[i - 1];
    } else if a + 2 <= i < a + e + 2 {
      PointerRange(args, envs, top, i - (a + 2));
      assert t[i] == EnvPointers(envs, top)[i - (a + 2)];
    } else if i >= a + e + 3 {
      assert t[i] == aux[i - (a + e + 3)];
    }
  }

  /** What the program finds on its stack. */
  ghost predicate Readable(live: seq<nat>, args: seq<seq<nat>>, envs: seq<seq<nat>>, aux: seq<nat>, w: nat, top: int) {
    var argv, envp := ArgPointers(args, envs, top), EnvPointers(envs, top);
    && WordAt(live, 0, |args|, w)
    && WordsAt(live, 1, argv + [0], w)
    && WordsAt(live, |args| + 2, envp + [0], w)
    && WordsAt(live, |args| + |envs| + 3, aux, w)
    && (forall i :: 0 <= i < |args| ==> 0 < argv[i] < top && StringAt(live, top, argv[i], args[i]))
    && (forall i :: 0 <= i < |envs| ==> 0 < envp[i] < top && StringAt(live, top, envp[i], envs[i]))
  }

  lemma {:induction false} LayoutStrings(args: seq<seq<nat>>, envs: seq<seq<nat>>, aux: seq<nat>, w: nat, top: int,
                                         i: nat)
    ensures i < |args| ==> StringAt(Layout(args, envs, aux, w, top), top, ArgPointers(args, envs, top)[i], args[i])
    ensures i < |envs| ==> StringAt(Layout(args, envs, aux, w, top), top, EnvPointers(envs, top)[i], envs[i])
  {
    hide Pushed, Pointers, StringAt, WordBytes, Table, Mark, AsNats, Zeros;
    var strings := Strings(args, envs);
    var front := WordBytes(AsNats(Table(args, envs, aux, top)), w) + Zeros((top - |strings|) % 16);
    assert Layout(args, envs, aux, w, top) == front + strings;
    if i < |args| {
      PointersAddress(args, Pushed(envs, Mark()), top, i);
      StringBelow(front, strings, top, ArgPointers(args, envs, top)[i], args[i]);
    }
    if i < |envs| {
      PointersAddress(envs, Mark(), top, i);
      StringSurvives(args, Pushed(envs, Mark()), top, EnvPointers(envs, top)[i], envs[i]);
      StringBelow(front, strings, top, EnvPointers(envs, top)[i], envs[i]);
    }
  }

  /** Pushing more strings leaves the earlier ones where they are. */
  lemma {:induction false} StringSurvives(strs: seq<seq<nat>>, live: seq<nat>, top: int, p: int, s: seq<nat>)
    requires StringAt(live, top, p, s)
    ensures StringAt(Pushed(strs, live), top, p, s)
    decreases |strs|
  {
    hide StringAt;
    if strs != [] {
      var n := |strs| - 1;
      StringSurvives(strs[..n], live, top, p, s);
      StringBelow(strs[n] + [0], Pushed(strs[..n], live), top, p, s);
    }
  }

  /** The layout reads as argc, argv, envp and the auxiliary vector. */
  lemma LayoutReads(args: seq<seq<nat>>, envs: seq<seq<nat>>, aux: seq<nat>, w: nat, top: int, size: nat)
    requires Placed(top, size, w) && |Strings(args, envs)| <= size
    requires forall k :: 0 <= k < |aux| ==> aux[k] < Pow2(8 * w)
    ensures Readable(Layout(args, envs, aux, w, top), args, envs, aux, w, top)
  {
    hide Pow2, Strings, ArgPointers, EnvPointers, WordAt, StringAt, Table, Layout, Placed, Mark, WordsAt;
    var live := Layout(args, envs, aux, w, top);
    forall i: nat | i < |Table(args, envs, aux, top)| ensures WordAt(live, i, Table(args, envs, aux, top)[i], w) {
      LayoutWord(args, envs, aux, w, top, size, i);
    }
    TableParts(args, envs, aux, top, live, w);
    forall i | 0 <= i < |args|
      ensures 0 < ArgPointers(args, envs, top)[i] < top
      ensures StringAt(live, top, ArgPointers(args, envs, top)[i], args[i])
    {
      PointerRange(args, envs, top, i);
      LayoutStrings(args, envs, aux, w, top, i);
      Above(top, size, w);
    }
    forall i | 0 <= i < |envs|
      ensures 0 < EnvPointers(envs, top)[i] < top && StringAt(live, top, EnvPointers(envs, top)[i], envs[i])
    {
      PointerRange(args, envs, top, i);
      LayoutStrings(args, envs, aux, w, top, i);
      Above(top, size, w);
    }
  }

  lemma Above(top: int, size: nat, w: nat)
    requires Placed(top, size, w)
    ensures 0 < top - size
  {}

  lemma LayoutWord(args: seq<seq<nat>>, envs: seq<seq<nat>>, aux: seq<nat>, w: nat, top: int, size: nat, i: nat)
    requires Placed(top, size, w) && |Strings(args, envs)| <= size && i < |Table(args, envs, aux, top)|
    requires forall k :: 0 <= k < |aux| ==> aux[k] < Pow2(8 * w)
    ensures WordAt(Layout(args, envs, aux, w, top), i, Table(args, envs, aux, top)[i], w)
  {
    hide Pow2, Strings, Table, WordAt, WordBytes, Padded, Placed, Mark;
    var t := Table(args, envs, aux, top);
    TableFits(args, envs, aux, w, top, size, i);
    ArrayReads(AsNats(t), w, Padded(Strings(args, envs), top), i);
  }

  lemma TableParts(args: seq<seq<nat>>, envs: seq<seq<nat>>, aux: seq<nat>, top: int, live: seq<nat>, w: nat)
    requires forall i: nat :: i < |Table(args, envs, aux, top)| ==> WordAt(live, i, Table(args, envs, aux, top)[i], w)
    ensures WordAt(live, 0, |args|, w)
    ensures WordsAt(live, 1, ArgPointers(args, envs, top) + [0], w)
    ensures WordsAt(live, |args| + 2, EnvPointers(envs, top) + [0], w)
    ensures WordsAt(live, |args| + |envs| + 3, aux, w)
  {
    hide WordAt, ArgPointers, EnvPointers, Mark;
    var t, argv, envp := Table(args, envs, aux, top), ArgPointers(args, envs, top) + [0], EnvPointers(envs, top) + [0];
    TableShape(args, envs, aux, top);
    assert t[0] == |args|;
    forall i | 0 <= i < |argv| ensures WordAt(live, 1 + i, argv[i], w) { assert t[1 + i] == argv[i]; }
    forall i | 0 <= i < |envp| ensures WordAt(live, |args| + 2 + i, envp[i], w) { assert t[|args| + 2 + i] == envp[i]; }
    forall i | 0 <= i < |aux|
      ensures WordAt(live, |args| + |envs| + 3 + i, aux[i], w)
    {
      assert t[|args| + |envs| + 3 + i] == aux[i];
    }
  }

  lemma TableShape(args: seq<seq<nat>>, envs: seq<seq<nat>>, aux: seq<nat>, top: int)
    ensures |ArgPointers(args, envs, top)| == |args| && |EnvPointers(envs, top)| == |envs|
    ensures |Table(args, envs, aux, top)| == |args| + |envs| + |aux| + 3
  {
    hide ArgPointers, EnvPointers;
  }

  // ---------------------------------------------------------------------------------------------
  // Size and alignment

  lemma {:induction false} PushedGrows(strs: seq<seq<nat>>, live: seq<nat>, k: nat)
    requires k <= |strs|
    ensures |Pushed(strs[..k], live)| <= |Pushed(strs, live)|
    decreases |strs|
  {
    if k < |strs| {
      var n := |strs| - 1;
      PushedGrows(strs[..n], live, k);
      assert strs[..n][..k] == strs[..k];
    } else {
      assert strs[..k] == strs;
    }
  }

  /** The bytes that C strings take. */
  function Space(strs: seq<seq<nat>>): nat {
    if strs == [] then 0 else Space(strs[..|strs| - 1]) + |strs[|strs| - 1]| + 1
  }

  lemma {:induction false} PushedSpace(strs: seq<seq<nat>>, live: seq<nat>)
    ensures |Pushed(strs, live)| == Space(strs) + |live|
  {
    if strs != [] { PushedSpace(strs[..|strs| - 1], live); }
  }

  /** Where each string lies: the strings are packed downwards in order. */
  lemma {:induction false} PointerIs(strs: seq<seq<nat>>, live: seq<nat>, top: int, i: nat)
    requires i < |strs|
    ensures Pointers(strs, live, top)[i] == top - |live| - Space(strs[..i + 1])
    decreases |strs|
  {
    hide Pushed, Space;
    var n := |strs| - 1;
    if i < n {
      PointerIs(strs[..n], live, top, i);
      assert strs[..n][..i + 1] == strs[..i + 1];
    } else {
      PushedSpace(strs, live);
      assert strs[..i + 1] == strs;
    }
  }

  /** Nothing is wasted: the stack holds the table, the strings, the mark and less than 16 bytes besides. */
  lemma LayoutSize(args: seq<seq<nat>>, envs: seq<seq<nat>>, aux: seq<nat>, w: nat, top: int)
    ensures var used := (|args| + |envs| + |aux| + 3) * w + Space(args) + Space(envs) + 8;
            used <= |Layout(args, envs, aux, w, top)| < used + 16
  {
    hide Layout, Space, Mark, Pushed;
    LayoutLength(args, envs, aux, w, top);
    PushedSpace(args, Pushed(envs, Mark()));
    PushedSpace(envs, Mark());
  }

  /** The eight bytes below the top hold the mark. */
  lemma MarkOnTop(args: seq<seq<nat>>, envs: seq<seq<nat>>, aux: seq<nat>, w: nat, top: int)
    ensures var live := Layout(args, envs, aux, w, top);
            |live| >= 8 && live[|live| - 8..] == Mark()
  {
    hide Pushed, Mark, Zeros, Table, WordBytes, AsNats;
    var env := Pushed(envs, Mark());
    MarkStays(args, env);
    MarkStays(envs, Mark());
    var live, strings := Layout(args, envs, aux, w, top), Strings(args, envs);
    assert live[|live| - |strings|..] == strings;
    assert live[|live| - 8..] == strings[|strings| - 8..];
    assert strings[|strings| - 8..] == env[|env| - 8..];
  }

  lemma {:induction false} MarkStays(strs: seq<seq<nat>>, live: seq<nat>)
    ensures |live| <= |Pushed(strs, live)| && Pushed(strs, live)[|Pushed(strs, live)| - |live|..] == live
  {
    if strs != [] {
      var n := |strs| - 1;
      MarkStays(strs[..n], live);
      var below, all := Pushed(strs[..n], live), Pushed(strs, live);
      assert all == strs[n] + [0] + below;
      assert all[|all| - |live|..] == below[|below| - |live|..];
    }
  }

  lemma LayoutLength(args: seq<seq<nat>>, envs: seq<seq<nat>>, aux: seq<nat>, w: nat, top: int)
    ensures |Layout(args, envs, aux, w, top)|
         == (|args| + |envs| + |aux| + 3) * w + (top - |Strings(args, envs)|) % 16 + |Strings(args, envs)|
  {
    hide WordBytes, Table, Strings, ArgPointers, EnvPointers;
    WordBytesLength(AsNats(Table(args, envs, aux, top)), w);
    TableShape(args, envs, aux, top);
  }

  /** The first stack pointer is 16-byte aligned if and only if the tables below the padding are a
      multiple of 16 bytes long. */
  lemma AlignedWhen(args: seq<seq<nat>>, envs: seq<seq<nat>>, aux: seq<nat>, w: nat, top: int)
    ensures (top - |Layout(args, envs, aux, w, top)|) % 16 == 0 <==> ((|args| + |envs| + |aux| + 3) * w) % 16 == 0
  {
    hide Layout, Strings;
    LayoutLength(args, envs, aux, w, top);
    var n, rest := (|args| + |envs| + |aux| + 3) * w, top - |Strings(args, envs)|;
    assert top - |Layout(args, envs, aux, w, top)| == rest - rest % 16 - n;
  }

  /** The tables pushed one after the other are the whole table. */
  lemma TableBytes(argc: nat, argv: seq<nat>, envp: seq<nat>, aux: seq<nat>, w: nat, rest: seq<nat>)
    ensures WordBytes([argc], w) + (WordBytes(argv + [0], w) + (WordBytes(envp + [0], w) + (WordBytes(aux, w) + rest)))
         == WordBytes([argc] + argv + [0] + envp + [0] + aux, w) + rest
  {
    hide WordBytes;
    var a, e := argv + [0], envp + [0];
    WordBytesConcat([argc], a + (e + aux), w);
    WordBytesConcat(a, e + aux, w);
    WordBytesConcat(e, aux, w);
    assert [argc] + (a + (e + aux)) == [argc] + argv + [0] + envp + [0] + aux;
  }

  lemma LayoutIs(args: seq<seq<nat>>, envs: seq<seq<nat>>, aux: seq<nat>, w: nat, top: int, argv: seq<nat>,
                 envp: seq<nat>)
    requires argv == ArgPointers(args, envs, top) && envp == EnvPointers(envs, top)
    ensures Layout(args, envs, aux, w, top)
         == WordBytes([|args|] + argv + [0] + envp + [0] + aux, w) + Padded(Strings(args, envs), top)
  {
    hide WordBytes, Padded, Strings, ArgPointers, EnvPointers;
    var t := Table(args, envs, aux, top);
    assert t == [|args|] + argv + [0] + envp + [0] + aux;
    assert AllNat(t);
  }

  // ---------------------------------------------------------------------------------------------
  // The operations

  class Stack {
    const top: int
    const size: nat
    const w: nat
    /** The bytes of [top - size, top). */
    var mem: seq<nat>
    /** Register sp */
    var sp: int

    ghost predicate Valid()
      reads this
    {
      && Placed(top, size, w) && |mem| == size && top - size <= sp <= top
      && forall i :: 0 <= i < sp - (top - size) ==> mem[i] == 0
    }

    /** What lies between the stack pointer and the top. */
    ghost function Live(): (l: seq<nat>)
      requires Valid()
      reads this
      ensures |l| == top - sp
    {
      mem[sp - (top - size)..]
    }

    /** map_proxy_stack */
    constructor (top: int, size: nat, w: nat)
      requires Placed(top, size, w)
      ensures this.top == top && this.size == size && this.w == w
      ensures Valid() && Live() == Mark()
    {
      hide Mark, Pow2;
      this.top, this.size, this.w := top, size, w;
      mem := Zeros(size - 8) + Mark();
      sp := top - 8;
    }

    /** copy_to_proxy_stack: panics exactly when the data does not fit. */
    method Copy(data: seq<nat>) returns (panic: bool)
      requires Valid()
      modifies this
      ensures panic == (|old(Live())| + |data| > size)
      ensures !panic ==> Valid() && Live() == data + old(Live())
    {
      ghost var live := Live();
      sp := sp - |data|;
      if top - sp > size { return true; }
      var at := sp - (top - size);
      ghost var before := mem;
      mem := mem[..at] + data + mem[at + |data|..];
      assert mem[at..] == data + before[at + |data|..];
      return false;
    }

    /** sp = sp & ~15 */
    method Align()
      requires Valid()
      modifies this`sp
      ensures Valid() && Live() == Padded(old(Live()), top)
    {
      hide And, Not, Pow2, Mark;
      Pow2Values();
      AlignDown(sp);
      sp := And(sp, Not(64, 15));
      var pad := old(sp) - sp;
      assert mem[sp - (top - size)..] == Zeros(pad) + mem[old(sp) - (top - size)..];
    }

    /** One of the two loops that push strings and record their addresses. */
    method PushStrings(strs: seq<seq<nat>>) returns (panic: bool, ptrs: seq<nat>)
      requires Valid()
      modifies this
      ensures panic == (|Pushed(strs, old(Live()))| > size)
      ensures !panic ==> Valid() && Live() == Pushed(strs, old(Live())) && ptrs == Pointers(strs, old(Live()), top)
    {
      hide Pow2, Pushed, Pointers;
      ghost var live := Live();
      ptrs := [];
      var i := 0;
      PushedNone(live, top);
      assert strs[..0] == [];
      while i < |strs|
        invariant 0 <= i <= |strs| && Valid()
        invariant Live() == Pushed(strs[..i], live) && ptrs == Pointers(strs[..i], live, top)
      {
        PushedOne(strs, live, top, i);
        PushedGrows(strs, live, i + 1);
        panic := Copy(strs[i] + [0]);
        if panic { return; }
        ptrs := ptrs + [sp];
        i := i + 1;
      }
      assert strs[..i] == strs;
      panic := false;
    }

    /** setup_proxy_stack: without a panic the program finds argc, argv, envp and the auxiliary vector; it
        panics exactly when they do not fit. */
    method Setup(args: seq<seq<nat>>, envs: seq<seq<nat>>, aux: seq<nat>) returns (panic: bool)
      requires Valid() && Live() == Mark() && forall k :: 0 <= k < |aux| ==> aux[k] < Pow2(8 * w)
      modifies this
      ensures panic == (|Layout(args, envs, aux, w, top)| > size)
      ensures !panic ==> Valid() && Live() == Layout(args, envs, aux, w, top)
      ensures !panic ==> Readable(Live(), args, envs, aux, w, top)
    {
      hide Pow2, Mark, WordBytes, Layout, Strings, Padded, Pushed, Pointers, Readable, Placed;
      var envp, argv;
      LayoutBound(args, envs, aux, w, top);
      panic, envp := PushStrings(envs);
      if panic { return; }
      panic, argv := PushStrings(args);
      if panic { return; }
      LayoutIs(args, envs, aux, w, top, argv, envp);
      TableBytes(|args|, argv, envp, aux, w, Padded(Strings(args, envs), top));
      Align();
      panic := Copy(WordBytes(aux, w));
      if panic { return; }
      panic := Copy(WordBytes(envp + [0], w));
      if panic { return; }
      panic := Copy(WordBytes(argv + [0], w));
      if panic { return; }
      panic := Copy(WordBytes([|args|], w));
      if panic { return; }
      LayoutReads(args, envs, aux, w, top, size);
    }
  }

  lemma AlignDown(sp: int)
    requires 0 <= sp < Pow2(64) && 15 < Pow2(64)
    ensures And(sp, Not(64, 15)) == sp - sp % 16
  {
    hide And, Not, Pow2, Unsigned;
    Pow2Values();
    ClearLow(64, 4, sp);
    DivMod(sp, 4);
  }

  lemma PushedNone(live: seq<nat>, top: int)
    ensures Pushed([], live) == live && Pointers([], live, top) == []
  {}

  lemma PushedOne(strs: seq<seq<nat>>, live: seq<nat>, top: int, i: nat)
    requires i < |strs|
    ensures Pushed(strs[..i + 1], live) == strs[i] + [0] + Pushed(strs[..i], live)
    ensures Pointers(strs[..i + 1], live, top) == Pointers(strs[..i], live, top) + [top - |Pushed(strs[..i + 1], live)|]
  {
    assert strs[..i + 1][..i] == strs[..i];
  }

  /** Every part of the layout is shorter than the whole. */
  lemma LayoutBound(args: seq<seq<nat>>, envs: seq<seq<nat>>, aux: seq<nat>, w: nat, top: int)
    ensures Strings(args, envs) == Pushed(args, Pushed(envs, Mark()))
    ensures |Pushed(envs, Mark())| <= |Strings(args, envs)| <= |Layout(args, envs, aux, w, top)|
    ensures ArgPointers(args, envs, top) == Pointers(args, Pushed(envs, Mark()), top)
    ensures EnvPointers(envs, top) == Pointers(envs, Mark(), top)
  {
    hide Mark, WordBytes, Pushed, Pointers, Table, AsNats;
  }

  /** On RV64 with two arguments, no environment and the eleven pairs of the auxiliary vector, the first
      stack pointer is not 16-byte aligned. */
  lemma NotAlwaysAligned(aux: seq<nat>, top: int)
    requires |aux| == 22
    ensures (top - |Layout([[], []], [], aux, 8, top)|) % 16 != 0
  {
    hide Layout;
    AlignedWhen([[], []], [], aux, 8, top);
  }
}
