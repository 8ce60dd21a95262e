/** Where the initial stack puts everything, in closed form, and what follows from it:
    when building succeeds, the space it takes, its alignment, its frame, and its relocation. */
module StackLayout {
  import opened Words
  import opened Memory
  import opened InitialStack

  /** The strings one after another, each with its NUL. */
  function Flat(strs: seq<bytes>): bytes {
    if strs == [] then [] else strs[0] + [0] + Flat(strs[1..])
  }

  /** The addresses of the strings when Flat(strs) ends just below sp. */
  function Pointers(sp: int, strs: seq<bytes>): (p: seq<int>)
    ensures |p| == |strs|
  {
    if strs == [] then [] else [sp - |Flat(strs)|] + Pointers(sp, strs[1..])
  }

  function FlatWords(words: seq<nat>): (b: bytes)
    ensures |b| == 8 * |words|
  {
    if words == [] then [] else LeBytes(8, words[0]) + FlatWords(words[1..])
  }

  function Down16(x: int): int {
    x - x % 16
  }

  function ArgsAt(top: int, argv: seq<bytes>): int {
    Down16(top) - |Flat(argv)|
  }

  function EnvsAt(top: int, argv: seq<bytes>, envp: seq<bytes>): int {
    ArgsAt(top, argv) - |Flat(envp)|
  }

  /** The final stack pointer, which is also the address of argc. */
  function TableAt(top: int, argv: seq<bytes>, envp: seq<bytes>): int {
    Down16(EnvsAt(top, argv, envp)) - 8 * (|argv| + |envp| + 7)
  }

  lemma {:induction false} PointersBound(sp: int, strs: seq<bytes>)
    ensures forall k :: 0 <= k < |strs| ==> sp - |Flat(strs)| <= Pointers(sp, strs)[k] < sp
  {
    if strs != [] {
      PointersBound(sp, strs[1..]);
    }
  }

  function Table(top: int, argv: seq<bytes>, envp: seq<bytes>): (w: seq<nat>)
    requires EnvsAt(top, argv, envp) >= 0
    ensures |w| == |argv| + |envp| + 7
  {
    PointersBound(Down16(top), argv);
    PointersBound(ArgsAt(top, argv), envp);
    StackWords(Pointers(Down16(top), argv), Pointers(ArgsAt(top, argv), envp))
  }

  function WithArgs(base: u64, mem: bytes, top: u64, argv: seq<bytes>): (m: bytes)
    requires base <= ArgsAt(top, argv) && top <= base + |mem|
    ensures |m| == |mem|
  {
    Splice(mem, ArgsAt(top, argv) - base, Flat(argv))
  }

  function WithStrings(base: u64, mem: bytes, top: u64, argv: seq<bytes>, envp: seq<bytes>): (m: bytes)
    requires base <= EnvsAt(top, argv, envp) && top <= base + |mem|
    ensures |m| == |mem|
  {
    Splice(WithArgs(base, mem, top, argv), EnvsAt(top, argv, envp) - base, Flat(envp))
  }

  /** The finished memory: three disjoint splices into the given one. */
  function Laid(base: u64, mem: bytes, top: u64, argv: seq<bytes>, envp: seq<bytes>): (m: bytes)
    requires base <= TableAt(top, argv, envp) && top <= base + |mem|
    ensures |m| == |mem|
  {
    Splice(WithStrings(base, mem, top, argv, envp),
           TableAt(top, argv, envp) - base, FlatWords(Table(top, argv, envp)))
  }

  /** What pushing strs below sp does, or None when it would go below base. */
  function Push(base: u64, mem: bytes, sp: u64, strs: seq<bytes>): Option<Pushed>
    requires base <= sp <= base + |mem|
  {
    var at := sp - |Flat(strs)|;
    if at < base then None
    else
      PointersBound(sp, strs);
      Some(Pushed(at, Splice(mem, at - base, Flat(strs)), Pointers(sp, strs)))
  }

  lemma {:induction false} PushAllIs(base: u64, mem: bytes, sp: u64, strs: seq<bytes>)
    requires base <= sp <= base + |mem|
    ensures PushAll(base, mem, sp, strs) == Push(base, mem, sp, strs)
  {
    hide Splice;
    if strs == [] {
      SpliceNothing(mem, sp - base);
    } else {
      PushAllIs(base, mem, sp, strs[1..]);
      var rest, s := Flat(strs[1..]), strs[0] + [0];
      assert Flat(strs) == s + rest;
      if sp - |Flat(strs)| >= base {
        SpliceJoin(mem, sp - |Flat(strs)| - base, s, rest);
      }
    }
  }

  lemma {:induction false} PushAllBelow(base: u64, mem: bytes, sp: u64, strs: seq<bytes>)
    requires sp < base
    ensures PushAll(base, mem, sp, strs).Some? ==>
            PushAll(base, mem, sp, strs) == Some(Pushed(sp, mem, [])) && strs == []
  {
    if strs != [] {
      PushAllBelow(base, mem, sp, strs[1..]);
    }
  }

  lemma {:induction false} WriteWordsIs(base: u64, mem: bytes, va: nat, words: seq<nat>)
    requires va + 8 * |words| < TWO64 && va + 8 * |words| <= base + |mem| && words != []
    ensures WriteWords(base, mem, va, words) ==
            if va >= base then Some(Splice(mem, va - base, FlatWords(words))) else None
    decreases |words|
  {
    var w := LeBytes(8, words[0]);
    if va >= base {
      var mem' := Splice(mem, va - base, w);
      if |words| == 1 {
        assert FlatWords(words) == w;
      } else {
        WriteWordsIs(base, mem', va + 8, words[1..]);
        SpliceJoin(mem, va - base, w, FlatWords(words[1..]));
      }
    }
  }

  lemma {:induction false} PutTableFits(base: u64, mem: bytes, sp: u64, words: seq<nat>, at: u64)
    requires sp <= base + |mem| && words != [] && base <= at == Down16(sp) - 8 * |words|
    ensures PutTable(base, mem, sp, words) == Some(Stack(at, Splice(mem, at - base, FlatWords(words))))
  {
    WriteWordsIs(base, mem, at, words);
    StackFrom(base, mem, sp, words, WriteWords(base, mem, at, words));
  }

  lemma {:induction false} PutTableBelow(base: u64, mem: bytes, sp: u64, words: seq<nat>)
    requires sp <= base + |mem| && words != [] && Down16(sp) - 8 * |words| < base
    ensures PutTable(base, mem, sp, words) == None
  {
    var at := FloorTo16(sp) - 8 * |words|;
    if at >= 0 {
      WriteWordsIs(base, mem, at, words);
      StackFrom(base, mem, sp, words, WriteWords(base, mem, at, words));
    }
  }

  lemma {:induction false} StackFrom(base: u64, mem: bytes, sp: u64, words: seq<nat>, w: Option<bytes>)
    requires FloorTo16(sp) >= 8 * |words|
    requires w == WriteWords(base, mem, FloorTo16(sp) - 8 * |words|, words)
    ensures w.None? ==> PutTable(base, mem, sp, words) == None
    ensures w.Some? ==> PutTable(base, mem, sp, words) == Some(Stack(FloorTo16(sp) - 8 * |words|, w.value))
  {
  }

  /** Building fails when the layout goes below base. */
  lemma {:induction false} BuildBelow(base: u64, mem: bytes, top: u64, argv: seq<bytes>, envp: seq<bytes>)
    requires top <= base + |mem| && TableAt(top, argv, envp) < base
    ensures Build(base, mem, top, argv, envp) == None
  {
    var sp := FloorTo16(top);
    if sp < base {
      PushAllBelow(base, mem, sp, argv);
      PushAllBelow(base, mem, sp, envp);
      PutTableBelow(base, mem, sp, StackWords([], []));
    } else {
      PushAllIs(base, mem, sp, argv);
      if base <= ArgsAt(top, argv) {
        var a := Push(base, mem, sp, argv).value;
        PushAllIs(base, a.mem, a.sp, envp);
        if base <= EnvsAt(top, argv, envp) {
          var e := Push(base, a.mem, a.sp, envp).value;
          PutTableBelow(base, e.mem, e.sp, StackWords(a.ptrs, e.ptrs));
        }
      }
    }
  }

  lemma {:induction false} BuildFrom(
    base: u64, mem: bytes, top: u64, argv: seq<bytes>, envp: seq<bytes>, a: Pushed, e: Pushed)
    requires PushAll(base, mem, FloorTo16(top), argv) == Some(a) && PushAll(base, a.mem, a.sp, envp) == Some(e)
    ensures Build(base, mem, top, argv, envp) == PutTable(base, e.mem, e.sp, StackWords(a.ptrs, e.ptrs))
  {
  }

  lemma {:induction false} StringsPushed(
    base: u64, mem: bytes, top: u64, argv: seq<bytes>, envp: seq<bytes>) returns (a: Pushed, e: Pushed)
    requires top <= base + |mem| && base <= EnvsAt(top, argv, envp)
    ensures PushAll(base, mem, FloorTo16(top), argv) == Some(a) && PushAll(base, a.mem, a.sp, envp) == Some(e)
    ensures e.sp == EnvsAt(top, argv, envp) && e.mem == WithStrings(base, mem, top, argv, envp)
    ensures a.ptrs == Pointers(Down16(top), argv) && e.ptrs == Pointers(ArgsAt(top, argv), envp)
  {
    var sp := FloorTo16(top);
    a := PushedIs(base, mem, sp, argv);
    assert a.mem == WithArgs(base, mem, top, argv);
    e := PushedIs(base, a.mem, a.sp, envp);
  }

  lemma {:induction false} PushedIs(base: u64, mem: bytes, sp: u64, strs: seq<bytes>) returns (p: Pushed)
    requires base <= sp <= base + |mem| && base <= sp - |Flat(strs)|
    ensures PushAll(base, mem, sp, strs) == Some(p)
    ensures p.sp == sp - |Flat(strs)| && p.mem == Splice(mem, sp - |Flat(strs)| - base, Flat(strs))
    ensures p.ptrs == Pointers(sp, strs)
  {
    PushAllIs(base, mem, sp, strs);
    p := Push(base, mem, sp, strs).value;
  }

  /** Building succeeds when the layout fits above base, and yields it. */
  lemma {:induction false} BuildFits(base: u64, mem: bytes, top: u64, argv: seq<bytes>, envp: seq<bytes>)
    requires top <= base + |mem| && base <= TableAt(top, argv, envp)
    ensures Build(base, mem, top, argv, envp) == Some(Stack(TableAt(top, argv, envp), Laid(base, mem, top, argv, envp)))
  {
    var a, e := StringsPushed(base, mem, top, argv, envp);
    BuildFrom(base, mem, top, argv, envp, a, e);
    assert StackWords(a.ptrs, e.ptrs) == Table(top, argv, envp);
    PutTableFits(base, e.mem, e.sp, Table(top, argv, envp), TableAt(top, argv, envp));
  }

  /** The two together: the layout decides success, the stack pointer and every byte. */
  lemma {:induction false} BuildIsLayout(base: u64, mem: bytes, top: u64, argv: seq<bytes>, envp: seq<bytes>)
    requires top <= base + |mem|
    ensures Build(base, mem, top, argv, envp).Some? <==> base <= TableAt(top, argv, envp)
    ensures Build(base, mem, top, argv, envp).Some? ==>
              Build(base, mem, top, argv, envp).value ==
                Stack(TableAt(top, argv, envp), Laid(base, mem, top, argv, envp))
  {
    if base <= TableAt(top, argv, envp) {
      BuildFits(base, mem, top, argv, envp);
    } else {
      BuildBelow(base, mem, top, argv, envp);
    }
  }

  // ---------------------------------------------------------------- space, alignment, frame

  function Size(strs: seq<bytes>): nat {
    if strs == [] then 0 else |strs[0]| + 1 + Size(strs[1..])
  }

  lemma {:induction false} SizeIsFlat(strs: seq<bytes>)
    ensures |Flat(strs)| == Size(strs)
  {
    if strs != [] {
      SizeIsFlat(strs[1..]);
    }
  }

  function Need(argv: seq<bytes>, envp: seq<bytes>): nat {
    Size(argv) + Size(envp) + 15 + 8 * (|argv| + |envp| + 7)
  }

  /** A successful build uses at most Need bytes below the rounded top and changes nothing outside them.
      The stack pointer is a multiple of 8; the ABI's 16-byte alignment holds only for an odd number of strings. */
  lemma {:induction false} StackSpaceAndFrame(base: u64, mem: bytes, top: u64, argv: seq<bytes>, envp: seq<bytes>)
    requires top <= base + |mem|
    requires Build(base, mem, top, argv, envp).Some?
    ensures var s := Build(base, mem, top, argv, envp).value;
            && Down16(top) - Need(argv, envp) <= s.sp < Down16(top)
            && s.sp % 8 == 0
            && (s.sp % 16 == 0 <==> (|argv| + |envp|) % 2 == 1)
            && |s.mem| == |mem|
            && s.mem[..s.sp - base] == mem[..s.sp - base]
            && s.mem[Down16(top) - base..] == mem[Down16(top) - base..]
  {
    hide Build, Laid;
    BuildIsLayout(base, mem, top, argv, envp);
    SizeIsFlat(argv);
    SizeIsFlat(envp);
    LaidFrame(base, mem, top, argv, envp);
    var e := Down16(EnvsAt(top, argv, envp));
    assert e % 16 == 0;
    Alignment(e, |argv| + |envp|);
  }

  lemma {:induction false} Alignment(e: int, n: nat)
    requires e % 16 == 0
    ensures (e - 8 * (n + 7)) % 8 == 0
    ensures (e - 8 * (n + 7)) % 16 == 0 <==> n % 2 == 1
  {
    var q, h, r := e / 16, n / 2, n % 2;
    assert e - 8 * (n + 7) == 16 * (q - h - 4) + 8 * (1 - r);
  }

  lemma {:induction false} LaidFrame(base: u64, mem: bytes, top: u64, argv: seq<bytes>, envp: seq<bytes>)
    requires base <= TableAt(top, argv, envp) && top <= base + |mem|
    ensures forall j :: 0 <= j < TableAt(top, argv, envp) - base || Down16(top) - base <= j < |mem| ==>
                          Laid(base, mem, top, argv, envp)[j] == mem[j]
  {
    forall j | 0 <= j < TableAt(top, argv, envp) - base || Down16(top) - base <= j < |mem|
      ensures Laid(base, mem, top, argv, envp)[j] == mem[j]
    {
      assert WithArgs(base, mem, top, argv)[j] == mem[j];
      assert WithStrings(base, mem, top, argv, envp)[j] == mem[j];
    }
  }

  /** Failure in terms of space: Need bytes below the rounded top always suffice. */
  lemma {:induction false} EnoughSpaceSucceeds(base: u64, mem: bytes, top: u64, argv: seq<bytes>, envp: seq<bytes>)
    requires top <= base + |mem| && base + Need(argv, envp) <= Down16(top)
    ensures Build(base, mem, top, argv, envp).Some?
  {
    BuildIsLayout(base, mem, top, argv, envp);
    SizeIsFlat(argv);
    SizeIsFlat(envp);
  }

  // ---------------------------------------------------------------- contents

  /** String k of strs stands, NUL included, |Flat(strs[k..])| bytes before the end of Flat(strs). */
  lemma {:induction false} FlatAt(strs: seq<bytes>, k: nat)
    requires k < |strs|
    ensures |strs[k]| + 1 <= |Flat(strs[k..])| <= |Flat(strs)|
    ensures var off := |Flat(strs)| - |Flat(strs[k..])|;
            Flat(strs)[off..off + |strs[k]| + 1] == strs[k] + [0]
  {
    if k == 0 {
      assert strs[0..] == strs;
    } else {
      FlatAt(strs[1..], k - 1);
      assert strs[1..][k - 1..] == strs[k..];
      var rest, head := Flat(strs[1..]), strs[0] + [0];
      var off := |rest| - |Flat(strs[k..])|;
      assert (head + rest)[|head| + off..|head| + off + |strs[k]| + 1] == rest[off..off + |strs[k]| + 1];
    }
  }

  lemma {:induction false} PointersAt(sp: int, strs: seq<bytes>, k: nat)
    requires k < |strs|
    ensures Pointers(sp, strs)[k] == sp - |Flat(strs[k..])| >= sp - |Flat(strs)|
  {
    PointersBound(sp, strs);
    if k == 0 {
      assert strs[0..] == strs;
    } else {
      PointersAt(sp, strs[1..], k - 1);
      assert strs[1..][k - 1..] == strs[k..];
    }
  }

  lemma {:induction false} FlatWordsAt(words: seq<nat>, k: nat)
    requires k < |words|
    ensures FlatWords(words)[8 * k..8 * k + 8] == LeBytes(8, words[k])
  {
    if k > 0 {
      FlatWordsAt(words[1..], k - 1);
      var head, rest := LeBytes(8, words[0]), FlatWords(words[1..]);
      assert (head + rest)[8 * k..8 * k + 8] == rest[8 * (k - 1)..8 * (k - 1) + 8];
    }
  }

  /** Word k of the table is read back at the stack pointer plus 8k. */
  lemma {:induction false} TableWordAt(base: u64, mem: bytes, top: u64, argv: seq<bytes>, envp: seq<bytes>, k: nat)
    requires base <= TableAt(top, argv, envp) && top <= base + |mem| && k < |argv| + |envp| + 7
    requires Table(top, argv, envp)[k] < TWO64
    ensures ReadU64(base, Laid(base, mem, top, argv, envp), TableAt(top, argv, envp) + 8 * k) ==
            Some(Table(top, argv, envp)[k])
  {
    FlatWordsAt(Table(top, argv, envp), k);
    WordInSplice(base, WithStrings(base, mem, top, argv, envp), TableAt(top, argv, envp) - base,
                 FlatWords(Table(top, argv, envp)), k, Table(top, argv, envp)[k]);
  }

  lemma {:induction false} WordInSplice(base: u64, mem: bytes, i: nat, b: bytes, k: nat, v: u64)
    requires i + |b| <= |mem| && 8 * k + 8 <= |b| && b[8 * k..8 * k + 8] == LeBytes(8, v) && base + i + 8 * k < TWO64
    ensures ReadU64(base, Splice(mem, i, b), base + i + 8 * k) == Some(v)
  {
    SpliceShows(mem, i, b, 8 * k, LeBytes(8, v));
    LeRoundTrip64(v);
  }

  predicate HoldsCstr(base: u64, mem: bytes, p: int, s: bytes) {
    && base <= p && p - base + |s| + 1 <= |mem|
    && (forall k :: 0 <= k < |s| ==> mem[p - base + k] == s[k])
    && mem[p - base + |s|] == 0
  }

  /** Every argv pointer addresses its own string, which no later write has touched. */
  lemma {:induction false} ArgStringAt(
    base: u64, mem: bytes, top: u64, argv: seq<bytes>, envp: seq<bytes>, k: nat, p: int)
    requires base <= TableAt(top, argv, envp) && top <= base + |mem|
    requires k < |argv| && p == Pointers(Down16(top), argv)[k]
    ensures HoldsCstr(base, Laid(base, mem, top, argv, envp), p, argv[k])
  {
    PointersAt(Down16(top), argv, k);
    CstrShown(base, mem, ArgsAt(top, argv) - base, argv, k, p);
    CstrKept(base, WithArgs(base, mem, top, argv), EnvsAt(top, argv, envp) - base, Flat(envp), p, argv[k]);
    CstrKept(base, WithStrings(base, mem, top, argv, envp), TableAt(top, argv, envp) - base,
             FlatWords(Table(top, argv, envp)), p, argv[k]);
  }

  lemma {:induction false} EnvStringAt(
    base: u64, mem: bytes, top: u64, argv: seq<bytes>, envp: seq<bytes>, k: nat, p: int)
    requires base <= TableAt(top, argv, envp) && top <= base + |mem|
    requires k < |envp| && p == Pointers(ArgsAt(top, argv), envp)[k]
    ensures HoldsCstr(base, Laid(base, mem, top, argv, envp), p, envp[k])
  {
    PointersAt(ArgsAt(top, argv), envp, k);
    CstrShown(base, WithArgs(base, mem, top, argv), EnvsAt(top, argv, envp) - base, envp, k, p);
    CstrKept(base, WithStrings(base, mem, top, argv, envp), TableAt(top, argv, envp) - base,
             FlatWords(Table(top, argv, envp)), p, envp[k]);
  }

  lemma {:induction false} CstrShown(base: u64, mem: bytes, at: nat, strs: seq<bytes>, k: nat, p: int)
    requires at + |Flat(strs)| <= |mem| && k < |strs|
    requires p == base + at + |Flat(strs)| - |Flat(strs[k..])|
    ensures HoldsCstr(base, Splice(mem, at, Flat(strs)), p, strs[k])
  {
    FlatAt(strs, k);
    var s, off, m := strs[k], p - base - at, Splice(mem, at, Flat(strs));
    var w := Flat(strs)[off..off + |s| + 1];
    assert forall j :: 0 <= j < |w| ==> m[p - base + j] == w[j];
    assert w == s + [0];
  }

  lemma {:induction false} CstrKept(base: u64, mem: bytes, at: nat, b: bytes, p: int, s: bytes)
    requires HoldsCstr(base, mem, p, s) && base + at + |b| <= p
    ensures HoldsCstr(base, Splice(mem, at, b), p, s)
  {
    SpliceKeeps(mem, at, b, p - base, s + [0]);
  }
}
