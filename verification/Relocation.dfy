/** The initial stack is position independent: moving the program by a multiple of 16 moves the stack
    pointer and the pointer words with it and changes no other byte. */
module Relocation {
  import opened Words
  import opened Memory
  import opened InitialStack
  import opened StackLayout
  import opened UserStrings

  lemma {:induction false} Down16Shift(x: int, d: int)
    requires d % 16 == 0
    ensures Down16(x + d) == Down16(x) + d
  {
  }

  lemma {:induction false} LayoutShift(top: int, d: int, argv: seq<bytes>, envp: seq<bytes>)
    requires d % 16 == 0
    ensures ArgsAt(top + d, argv) == ArgsAt(top, argv) + d
    ensures EnvsAt(top + d, argv, envp) == EnvsAt(top, argv, envp) + d
    ensures TableAt(top + d, argv, envp) == TableAt(top, argv, envp) + d
  {
    Down16Shift(top, d);
    Down16Shift(EnvsAt(top, argv, envp), d);
  }

  /** Word k of the table is an argv or envp pointer. */
  predicate IsPointer(k: int, argc: nat, envc: nat) {
    1 <= k <= argc || argc + 2 <= k < argc + 2 + envc
  }

  lemma {:induction false} PointersShift(sp: int, d: int, strs: seq<bytes>)
    ensures forall k :: 0 <= k < |strs| ==> Pointers(sp + d, strs)[k] == Pointers(sp, strs)[k] + d
  {
    if strs != [] {
      PointersShift(sp, d, strs[1..]);
    }
  }

  lemma {:induction false} ArgWordShift(top: int, d: nat, argv: seq<bytes>, envp: seq<bytes>, i: nat)
    requires d % 16 == 0 && EnvsAt(top, argv, envp) >= 0 && EnvsAt(top + d, argv, envp) >= 0 && i < |argv|
    ensures Table(top + d, argv, envp)[1 + i] == Table(top, argv, envp)[1 + i] + d
  {
    hide Table;
    Down16Shift(top, d);
    PointersShift(Down16(top), d, argv);
    TableWords(top, argv, envp);
    TableWords(top + d, argv, envp);
    assert Pointers(Down16(top) + d, argv)[i] == Pointers(Down16(top), argv)[i] + d;
  }

  lemma {:induction false} EnvWordShift(top: int, d: nat, argv: seq<bytes>, envp: seq<bytes>, i: nat)
    requires d % 16 == 0 && EnvsAt(top, argv, envp) >= 0 && EnvsAt(top + d, argv, envp) >= 0 && i < |envp|
    ensures Table(top + d, argv, envp)[2 + |argv| + i] == Table(top, argv, envp)[2 + |argv| + i] + d
  {
    hide Table;
    LayoutShift(top, d, argv, envp);
    PointersShift(ArgsAt(top, argv), d, envp);
    TableWords(top, argv, envp);
    TableWords(top + d, argv, envp);
    assert Pointers(ArgsAt(top, argv) + d, envp)[i] == Pointers(ArgsAt(top, argv), envp)[i] + d;
  }

  lemma {:induction false} OtherWordShift(top: int, d: nat, argv: seq<bytes>, envp: seq<bytes>, k: nat)
    requires EnvsAt(top, argv, envp) >= 0 && EnvsAt(top + d, argv, envp) >= 0 && k < |argv| + |envp| + 7
    requires !IsPointer(k, |argv|, |envp|)
    ensures Table(top + d, argv, envp)[k] == Table(top, argv, envp)[k]
  {
    hide Table, Pointers;
    TableWords(top, argv, envp);
    TableWords(top + d, argv, envp);
    var n := 3 + |argv| + |envp|;
    if k >= n {
      assert Table(top, argv, envp)[n..][k - n] == Table(top + d, argv, envp)[n..][k - n];
    }
  }

  lemma {:induction false} TableShift(top: int, d: nat, argv: seq<bytes>, envp: seq<bytes>, k: nat)
    requires d % 16 == 0 && EnvsAt(top, argv, envp) >= 0 && k < |argv| + |envp| + 7
    ensures EnvsAt(top + d, argv, envp) >= 0
    ensures Table(top + d, argv, envp)[k] == Table(top, argv, envp)[k] + if IsPointer(k, |argv|, |envp|) then d else 0
  {
    LayoutShift(top, d, argv, envp);
    hide Table, EnvsAt;
    if 1 <= k <= |argv| {
      ArgWordShift(top, d, argv, envp, k - 1);
    } else if |argv| + 2 <= k < |argv| + 2 + |envp| {
      EnvWordShift(top, d, argv, envp, k - 2 - |argv|);
    } else {
      OtherWordShift(top, d, argv, envp, k);
    }
  }

  lemma {:induction false} StringsShift(base: u64, d: nat, mem: bytes, top: u64, argv: seq<bytes>, envp: seq<bytes>)
    requires d % 16 == 0 && top <= base + |mem| && base + d + |mem| < TWO64
    requires base <= EnvsAt(top, argv, envp)
    ensures base + d <= EnvsAt(top + d, argv, envp)
    ensures WithStrings(base + d, mem, top + d, argv, envp) == WithStrings(base, mem, top, argv, envp)
  {
    LayoutShift(top, d, argv, envp);
  }

  /** Byte j of memory belongs to some pointer word of the table at index t. */
  predicate InPointerWord(j: int, t: int, argc: nat, envc: nat) {
    0 <= j - t && IsPointer((j - t) / 8, argc, envc)
  }

  lemma {:induction false} SpliceOfWords(mem: bytes, t: nat, w: seq<nat>, w': seq<nat>, j: nat)
    requires |w| == |w'| && t + 8 * |w| <= |mem| && j < |mem|
    requires 0 <= (j - t) / 8 < |w| ==> w[(j - t) / 8] == w'[(j - t) / 8]
    ensures Splice(mem, t, FlatWords(w))[j] == Splice(mem, t, FlatWords(w'))[j]
  {
    var k := (j - t) / 8;
    if 0 <= k < |w| {
      FlatWordsAt(w, k);
      FlatWordsAt(w', k);
      var i := j - t - 8 * k;
      assert FlatWords(w)[8 * k..8 * k + 8][i] == FlatWords(w)[j - t];
      assert FlatWords(w')[8 * k..8 * k + 8][i] == FlatWords(w')[j - t];
    }
  }

  /** Two runs over equal memory, d apart: same outcome, stack pointer d higher, and byte-identical
      memory except that every argv and envp pointer has grown by d. */
  lemma {:induction false} RelocationInvariance(
    base: u64, d: nat, mem: bytes, top: u64, argv: seq<bytes>, envp: seq<bytes>)
    requires d % 16 == 0 && top <= base + |mem| && base + d + |mem| < TWO64
    ensures Build(base + d, mem, top + d, argv, envp).Some? <==> Build(base, mem, top, argv, envp).Some?
    ensures Build(base, mem, top, argv, envp).Some? ==>
              var s, s' := Build(base, mem, top, argv, envp).value, Build(base + d, mem, top + d, argv, envp).value;
              && s'.sp == s.sp + d
              && |s'.mem| == |s.mem| == |mem|
              && (forall j :: 0 <= j < |mem| && !InPointerWord(j, s.sp - base, |argv|, |envp|) ==>
                 s'.mem[j] == s.mem[j])
              && forall k :: 0 <= k < |argv| + |envp| + 7 && IsPointer(k, |argv|, |envp|) ==>
                              PointerMoved(base, d, s, s', k)
  {
    hide Build, Laid, Table, ReadU64;
    BuildIsLayout(base, mem, top, argv, envp);
    BuildIsLayout(base + d, mem, top + d, argv, envp);
    LayoutShift(top, d, argv, envp);
    if base <= TableAt(top, argv, envp) {
      var s, s' := Build(base, mem, top, argv, envp).value, Build(base + d, mem, top + d, argv, envp).value;
      forall j | 0 <= j < |mem| && !InPointerWord(j, s.sp - base, |argv|, |envp|)
        ensures s'.mem[j] == s.mem[j]
      {
        LaidShift(base, d, mem, top, argv, envp, j);
      }
      forall k | 0 <= k < |argv| + |envp| + 7 && IsPointer(k, |argv|, |envp|)
        ensures PointerMoved(base, d, s, s', k)
      {
        PointerShift(base, d, mem, top, argv, envp, k);
      }
    }
  }

  predicate PointerMoved(base: u64, d: nat, s: Stack, s': Stack, k: nat) {
    && s.sp + 8 * k < TWO64 && s'.sp + 8 * k < TWO64 && base + d < TWO64
    && ReadU64(base, s.mem, s.sp + 8 * k).Some?
    && ReadU64(base + d, s'.mem, s'.sp + 8 * k) == Some(ReadU64(base, s.mem, s.sp + 8 * k).value + d)
  }

  lemma {:induction false} LaidShift(
    base: u64, d: nat, mem: bytes, top: u64, argv: seq<bytes>, envp: seq<bytes>, j: nat)
    requires d % 16 == 0 && top <= base + |mem| && base + d + |mem| < TWO64
    requires base <= TableAt(top, argv, envp) && base + d <= TableAt(top + d, argv, envp)
    requires j < |mem| && !InPointerWord(j, TableAt(top, argv, envp) - base, |argv|, |envp|)
    ensures Laid(base + d, mem, top + d, argv, envp)[j] == Laid(base, mem, top, argv, envp)[j]
  {
    hide Table, TableAt, EnvsAt;
    TableOrder(top, argv, envp);
    TableOrder(top + d, argv, envp);
    LayoutShift(top, d, argv, envp);
    StringsShift(base, d, mem, top, argv, envp);
    var t := TableAt(top, argv, envp) - base;
    var w, w' := Table(top, argv, envp), Table(top + d, argv, envp);
    var k := (j - t) / 8;
    if 0 <= k < |w| {
      TableShift(top, d, argv, envp, k);
    }
    SpliceOfWords(WithStrings(base, mem, top, argv, envp), t, w, w', j);
  }

  lemma {:induction false} TableOrder(top: int, argv: seq<bytes>, envp: seq<bytes>)
    ensures TableAt(top, argv, envp) + 8 * (|argv| + |envp| + 7) <= EnvsAt(top, argv, envp) <= ArgsAt(top, argv) <= top
  {
  }

  lemma {:induction false} TableWordsBound(top: u64, argv: seq<bytes>, envp: seq<bytes>, k: nat)
    requires EnvsAt(top, argv, envp) >= 0 && IsPointer(k, |argv|, |envp|)
    ensures Table(top, argv, envp)[k] < top
  {
    TableWords(top, argv, envp);
    PointersBound(Down16(top), argv);
    PointersBound(ArgsAt(top, argv), envp);
    var w := Table(top, argv, envp);
    if k <= |argv| {
      assert w[1 + (k - 1)] == Pointers(Down16(top), argv)[k - 1];
    } else {
      var i := k - 2 - |argv|;
      assert w[2 + |argv| + i] == Pointers(ArgsAt(top, argv), envp)[i];
    }
  }

  lemma {:induction false} PointerShift(
    base: u64, d: nat, mem: bytes, top: u64, argv: seq<bytes>, envp: seq<bytes>, k: nat)
    requires d % 16 == 0 && top <= base + |mem| && base + d + |mem| < TWO64
    requires base <= TableAt(top, argv, envp) && base + d <= TableAt(top + d, argv, envp)
    requires IsPointer(k, |argv|, |envp|)
    ensures PointerMoved(base, d, Stack(TableAt(top, argv, envp), Laid(base, mem, top, argv, envp)),
                         Stack(TableAt(top + d, argv, envp), Laid(base + d, mem, top + d, argv, envp)), k)
  {
    hide Table, Laid, ReadU64, TableAt, EnvsAt;
    TableOrder(top, argv, envp);
    TableOrder(top + d, argv, envp);
    TableShift(top, d, argv, envp, k);
    TableWordsBound(top, argv, envp, k);
    TableWordsBound(top + d, argv, envp, k);
    TableWordAt(base, mem, top, argv, envp, k);
    TableWordAt(base + d, mem, top + d, argv, envp, k);
  }
}
