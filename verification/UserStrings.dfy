/** Reading NUL-terminated strings and pointer arrays back out of user memory (execve's arguments),
    and the round trip with the initial stack. */
module UserStrings {
  import opened Words
  import opened Utf8
  import opened Memory
  import opened InitialStack
  import opened StackLayout

  const CSTR_LIMIT := 4096

  // ---------------------------------------------------------------- strings

  /** Bytes from va + i on, after acc; the inner None is the loop's "no string". */
  function CstrFrom(base: u64, mem: bytes, va: u64, i: nat, acc: bytes): Option<Option<str>>
    decreases CSTR_LIMIT - i, |mem|
  {
    if i >= CSTR_LIMIT then Some(None)
    else match ReadU8(base, mem, Wrap64(va + i))
    case None => None
    case Some(b) =>
      if b == 0 then Some(if Valid(acc) then Some(acc) else None)
      else CstrFrom(base, mem, va, i + 1, acc + [b])
  }

  function Cstr(base: u64, mem: bytes, va: u64): Option<Option<str>> {
    if va == 0 then Some(None) else CstrFrom(base, mem, va, 0, [])
  }

  method ReadUserCstr(base: u64, mem: array<byte>, va: u64) returns (r: Option<Option<str>>)
    ensures r == Cstr(base, mem[..], va)
  {
    if va == 0 {
      return Some(None);
    }
    var got, i := [], 0;
    while i < CSTR_LIMIT
      invariant 0 <= i <= CSTR_LIMIT
      invariant Cstr(base, mem[..], va) == CstrFrom(base, mem[..], va, i, got)
    {
      var b := ReadByte(base, mem, Wrap64(va + i));
      if b == None {
        return None;
      }
      if b.value == 0 {
        return Some(if Valid(got) then Some(got) else None);
      }
      got := got + [b.value];
      i := i + 1;
    }
    return Some(None);
  }

  predicate NulFree(s: bytes) {
    forall k :: 0 <= k < |s| ==> s[k] != 0
  }

  /** A string the reader can return: well-formed UTF-8, no NUL inside, terminator within the limit. */
  predicate Readable(s: bytes) {
    Valid(s) && NulFree(s) && |s| < CSTR_LIMIT
  }

  lemma {:induction false} CstrFromReads(base: u64, mem: bytes, va: u64, s: bytes, i: nat)
    requires HoldsCstr(base, mem, va, s) && va + |s| < TWO64 && Readable(s) && i <= |s|
    ensures CstrFrom(base, mem, va, i, s[..i]) == Some(Some(s))
    decreases |s| - i
  {
    assert Wrap64(va + i) == va + i;
    assert ReadU8(base, mem, va + i) == Some(if i < |s| then s[i] else 0);
    if i < |s| {
      assert s[..i] + [s[i]] == s[..i + 1];
      CstrFromReads(base, mem, va, s, i + 1);
    } else {
      assert s[..i] == s;
    }
  }

  predicate Copied(base: u64, mem: bytes, va: u64, acc: bytes) {
    && base <= va && va - base + |acc| <= |mem|
    && (forall k :: 0 <= k < |acc| ==> mem[va - base + k] == acc[k])
  }

  lemma {:induction false} CstrFromFinds(base: u64, mem: bytes, va: u64, i: nat, acc: bytes, s: str)
    requires base + |mem| < TWO64
    requires Copied(base, mem, va, acc) && |acc| == i && NulFree(acc)
    requires CstrFrom(base, mem, va, i, acc) == Some(Some(s))
    ensures HoldsCstr(base, mem, va, s) && Readable(s)
    decreases CSTR_LIMIT - i
  {
    var b := ReadU8(base, mem, Wrap64(va + i));
    if b.value != 0 {
      CstrFromFinds(base, mem, va, i + 1, acc + [b.value], s);
    }
  }

  /** The reader returns s exactly when memory holds s and its NUL at va, and s is readable. */
  lemma {:induction false} CstrMeaning(base: u64, mem: bytes, va: u64, s: str)
    requires base + |mem| < TWO64 && va != 0
    ensures Cstr(base, mem, va) == Some(Some(s)) <==> HoldsCstr(base, mem, va, s) && Readable(s)
  {
    if HoldsCstr(base, mem, va, s) && Readable(s) {
      assert s[..0] == [];
      CstrFromReads(base, mem, va, s, 0);
    } else if Cstr(base, mem, va) == Some(Some(s)) {
      CstrFromFinds(base, mem, va, 0, [], s);
    }
  }

  // ---------------------------------------------------------------- arrays

  /** Up to left pointers from va on, after got, stopping before the first 0. */
  function PtrsFrom(base: u64, mem: bytes, va: nat, left: nat, got: seq<u64>): Option<seq<u64>>
    decreases left, |mem|
  {
    if left == 0 then Some(got)
    else match ReadU64(base, mem, Wrap64(va))
    case None => None
    case Some(p) => if p == 0 then Some(got) else PtrsFrom(base, mem, va + 8, left - 1, got + [p])
  }

  function Ptrs(base: u64, mem: bytes, va: u64, max: nat): Option<seq<u64>> {
    if va == 0 then Some([]) else PtrsFrom(base, mem, va, max, [])
  }

  /** The strings at ptrs, after got; None also when some pointer addresses no string. */
  function StrsFrom(base: u64, mem: bytes, ptrs: seq<u64>, got: seq<str>): Option<seq<str>>
    decreases |ptrs|, |mem|
  {
    if ptrs == [] then Some(got)
    else match Cstr(base, mem, ptrs[0])
    case None => None
    case Some(None) => None
    case Some(Some(s)) => StrsFrom(base, mem, ptrs[1..], got + [s])
  }

  function StrArray(base: u64, mem: bytes, va: u64, max: nat): Option<seq<str>> {
    match Ptrs(base, mem, va, max)
    case None => None
    case Some(ptrs) => StrsFrom(base, mem, ptrs, [])
  }

  method ReadUserPtrArray(base: u64, mem: array<byte>, va: u64, max: nat) returns (r: Option<seq<u64>>)
    ensures r == Ptrs(base, mem[..], va, max)
  {
    hide ReadU64;
    var got: seq<u64> := [];
    if va == 0 {
      return Some(got);
    }
    var i := 0;
    while i < max
      invariant 0 <= i <= max
      invariant Ptrs(base, mem[..], va, max) == PtrsFrom(base, mem[..], va + i * 8, max - i, got)
    {
      var p := Read8(base, mem, Wrap64(va + i * 8));
      if p == None {
        return None;
      }
      if p.value == 0 {
        break;
      }
      got := got + [p.value];
      i := i + 1;
    }
    return Some(got);
  }

  method ReadUserStrArray(base: u64, mem: array<byte>, va: u64, max: nat) returns (r: Option<seq<str>>)
    ensures r == StrArray(base, mem[..], va, max)
  {
    var ptrs := ReadUserPtrArray(base, mem, va, max);
    if ptrs == None {
      return None;
    }
    var got: seq<str>, i := [], 0;
    assert ptrs.value[0..] == ptrs.value;
    while i < |ptrs.value|
      invariant 0 <= i <= |ptrs.value|
      invariant StrArray(base, mem[..], va, max) == StrsFrom(base, mem[..], ptrs.value[i..], got)
    {
      assert ptrs.value[i..][1..] == ptrs.value[i + 1..];
      var s := ReadUserCstr(base, mem, ptrs.value[i]);
      if s == None || s.value == None {
        return None;
      }
      got := got + [s.value.value];
      i := i + 1;
    }
    return Some(got);
  }

  // ---------------------------------------------------------------- round trip with the builder

  /** ptrs and then a 0 stand at va. */
  predicate HoldsPtrs(base: u64, mem: bytes, va: nat, ptrs: seq<u64>) {
    && va + 8 * |ptrs| < TWO64
    && (forall k :: 0 <= k < |ptrs| ==> ptrs[k] != 0 && ReadU64(base, mem, va + 8 * k) == Some(ptrs[k]))
    && ReadU64(base, mem, va + 8 * |ptrs|) == Some(0)
  }

  lemma {:induction false} HoldsTail(base: u64, mem: bytes, va: nat, ptrs: seq<u64>)
    requires HoldsPtrs(base, mem, va, ptrs) && ptrs != []
    ensures ptrs[0] != 0 && ReadU64(base, mem, va) == Some(ptrs[0])
    ensures HoldsPtrs(base, mem, va + 8, ptrs[1..])
  {
    assert ReadU64(base, mem, va + 8 * 0) == Some(ptrs[0]);
    forall k | 0 <= k < |ptrs[1..]|
      ensures ptrs[1..][k] != 0 && ReadU64(base, mem, va + 8 + 8 * k) == Some(ptrs[1..][k])
    {
      assert ReadU64(base, mem, va + 8 * (k + 1)) == Some(ptrs[k + 1]);
    }
  }

  lemma {:induction false} PtrsRead(base: u64, mem: bytes, va: nat, ptrs: seq<u64>, left: nat, got: seq<u64>)
    requires |ptrs| <= left && HoldsPtrs(base, mem, va, ptrs)
    ensures PtrsFrom(base, mem, va, left, got) == Some(got + ptrs)
    decreases |ptrs|
  {
    hide ReadU64;
    if ptrs == [] {
      assert ReadU64(base, mem, va + 8 * 0) == Some(0);
      assert got + ptrs == got;
    } else {
      HoldsTail(base, mem, va, ptrs);
      PtrsRead(base, mem, va + 8, ptrs[1..], left - 1, got + [ptrs[0]]);
      assert (got + [ptrs[0]]) + ptrs[1..] == got + ptrs;
    }
  }

  predicate HoldsStrs(base: u64, mem: bytes, ptrs: seq<u64>, strs: seq<bytes>) {
    |ptrs| == |strs| &&
    forall k :: 0 <= k < |ptrs| ==>
                  ptrs[k] != 0 && ptrs[k] + |strs[k]| < TWO64 && HoldsCstr(base, mem, ptrs[k], strs[k])
  }

  lemma {:induction false} StrsRead(base: u64, mem: bytes, ptrs: seq<u64>, strs: seq<bytes>, got: seq<str>)
    requires HoldsStrs(base, mem, ptrs, strs) && AllReadable(strs)
    ensures StrsFrom(base, mem, ptrs, got) == Some(got + strs)
    decreases |ptrs|
  {
    if ptrs == [] {
      assert got + strs == got;
    } else {
      assert strs[0][..0] == [];
      CstrFromReads(base, mem, ptrs[0], strs[0], 0);
      StrsRead(base, mem, ptrs[1..], strs[1..], got + [strs[0]]);
      assert (got + [strs[0]]) + strs[1..] == got + strs;
    }
  }

  predicate AllReadable(strs: seq<bytes>) {
    forall k :: 0 <= k < |strs| ==> Readable(strs[k])
  }

  /** Where word k of the table comes from. */
  lemma {:induction false} TableWords(top: int, argv: seq<bytes>, envp: seq<bytes>)
    requires EnvsAt(top, argv, envp) >= 0
    ensures var w := Table(top, argv, envp);
            && w[0] == |argv|
            && (forall k :: 0 <= k < |argv| ==> w[1 + k] == Pointers(Down16(top), argv)[k])
            && w[1 + |argv|] == 0
            && (forall k :: 0 <= k < |envp| ==> w[2 + |argv| + k] == Pointers(ArgsAt(top, argv), envp)[k])
            && w[2 + |argv| + |envp|] == 0
            && w[3 + |argv| + |envp|..] == [AT_PAGESZ, PAGE_SIZE, AT_NULL, 0]
  {
  }

  /** Each string ends, its NUL included, below the address the strings were pushed from. */
  lemma {:induction false} StringBelow(sp: int, strs: seq<bytes>, k: nat)
    requires k < |strs|
    ensures Pointers(sp, strs)[k] + |strs[k]| < sp
  {
    FlatAt(strs, k);
    PointersAt(sp, strs, k);
  }

  lemma {:induction false} ArgvHeld(base: u64, mem: bytes, top: u64, argv: seq<bytes>, envp: seq<bytes>)
    returns (ptrs: seq<u64>)
    requires top <= base + |mem| && base <= TableAt(top, argv, envp)
    ensures HoldsPtrs(base, Laid(base, mem, top, argv, envp), TableAt(top, argv, envp) + 8, ptrs)
    ensures HoldsStrs(base, Laid(base, mem, top, argv, envp), ptrs, argv)
  {
    hide ReadU64, HoldsCstr, Laid, Table, Flat, Pointers;
    var sp := TableAt(top, argv, envp);
    PointersBound(Down16(top), argv);
    TableWords(top, argv, envp);
    ptrs := Pointers(Down16(top), argv);
    forall k | 0 <= k < |argv|
      ensures ptrs[k] != 0 && ReadU64(base, Laid(base, mem, top, argv, envp), sp + 8 + 8 * k) == Some(ptrs[k])
      ensures ptrs[k] + |argv[k]| < TWO64 && HoldsCstr(base, Laid(base, mem, top, argv, envp), ptrs[k], argv[k])
    {
      StringBelow(Down16(top), argv, k);
      TableWordAt(base, mem, top, argv, envp, 1 + k);
      ArgStringAt(base, mem, top, argv, envp, k, ptrs[k]);
    }
    TableWordAt(base, mem, top, argv, envp, 1 + |argv|);
  }

  lemma {:induction false} EnvpHeld(base: u64, mem: bytes, top: u64, argv: seq<bytes>, envp: seq<bytes>)
    returns (ptrs: seq<u64>)
    requires top <= base + |mem| && base <= TableAt(top, argv, envp)
    ensures HoldsPtrs(base, Laid(base, mem, top, argv, envp), TableAt(top, argv, envp) + 8 * (|argv| + 2), ptrs)
    ensures HoldsStrs(base, Laid(base, mem, top, argv, envp), ptrs, envp)
  {
    hide ReadU64, HoldsCstr, Laid, Table, Flat, Pointers;
    var va := TableAt(top, argv, envp) + 8 * (|argv| + 2);
    PointersBound(ArgsAt(top, argv), envp);
    TableWords(top, argv, envp);
    ptrs := Pointers(ArgsAt(top, argv), envp);
    forall k | 0 <= k < |envp|
      ensures ptrs[k] != 0 && ReadU64(base, Laid(base, mem, top, argv, envp), va + 8 * k) == Some(ptrs[k])
      ensures ptrs[k] + |envp[k]| < TWO64 && HoldsCstr(base, Laid(base, mem, top, argv, envp), ptrs[k], envp[k])
    {
      StringBelow(ArgsAt(top, argv), envp, k);
      TableWordAt(base, mem, top, argv, envp, 2 + |argv| + k);
      EnvStringAt(base, mem, top, argv, envp, k, ptrs[k]);
    }
    TableWordAt(base, mem, top, argv, envp, 2 + |argv| + |envp|);
  }

  lemma {:induction false} ArrayRead(base: u64, mem: bytes, va: u64, ptrs: seq<u64>, strs: seq<bytes>, max: nat)
    requires va != 0 && |ptrs| <= max
    requires HoldsPtrs(base, mem, va, ptrs) && HoldsStrs(base, mem, ptrs, strs) && AllReadable(strs)
    ensures StrArray(base, mem, va, max) == Some(strs)
  {
    PtrsRead(base, mem, va, ptrs, max, []);
    StrsRead(base, mem, ptrs, strs, []);
    assert [] + ptrs == ptrs;
    assert [] + strs == strs;
  }

  /** A pointer array is read up to its first zero or the limit: exactly these pointers. */
  lemma {:induction false} PtrsMeaning(base: u64, mem: bytes, va: u64, max: nat, ptrs: seq<u64>)
    requires va != 0 && va + 8 * max < TWO64
    ensures Ptrs(base, mem, va, max) == Some(ptrs) <==> ReadsPtrs(base, mem, va, max, ptrs)
  {
    PtrsFromMeaning(base, mem, va, max, [], ptrs);
    assert [] + ptrs == ptrs;
    hide ReadU64;
  }

  predicate ReadsPtrs(base: u64, mem: bytes, va: nat, max: nat, ptrs: seq<u64>)
    requires va + 8 * max < TWO64
  {
    && |ptrs| <= max
    && (forall k :: 0 <= k < |ptrs| ==> ptrs[k] != 0 && ReadU64(base, mem, va + 8 * k) == Some(ptrs[k]))
    && (|ptrs| < max ==> ReadU64(base, mem, va + 8 * |ptrs|) == Some(0))
  }

  lemma {:induction false} FirstPtr(base: u64, mem: bytes, va: nat, max: nat, ptrs: seq<u64>)
    requires va + 8 * max < TWO64 && 0 < max
    ensures ReadsPtrs(base, mem, va, max, ptrs) && ptrs != [] ==>
              ptrs[0] != 0 && ReadU64(base, mem, va) == Some(ptrs[0])
    ensures ReadsPtrs(base, mem, va, max, []) <==> ReadU64(base, mem, va) == Some(0)
  {
    hide ReadU64;
    assert va + 8 * 0 == va;
    assert ptrs != [] && ReadsPtrs(base, mem, va, max, ptrs) ==> ReadU64(base, mem, va + 8 * 0) == Some(ptrs[0]);
  }

  lemma {:induction false} FirstAfter<T>(got: seq<T>, x: T, rest: seq<T>, all: seq<T>)
    requires got + [x] <= all
    ensures all == got + rest ==> rest != [] && rest[0] == x
  {
    assert all[|got|] == (got + [x])[|got|];
  }

  lemma {:induction false} PtrsFromMeaning(
    base: u64, mem: bytes, va: nat, left: nat, got: seq<u64>, ptrs: seq<u64>)
    requires va + 8 * left < TWO64
    ensures PtrsFrom(base, mem, va, left, got) == Some(got + ptrs) <==> ReadsPtrs(base, mem, va, left, ptrs)
    decreases left
  {
    hide ReadU64;
    if left == 0 {
      assert got + ptrs == got <==> ptrs == [];
    } else {
      var p := ReadU64(base, mem, va);
      FirstPtr(base, mem, va, left, ptrs);
      if p == Some(0) {
        assert got + ptrs == got <==> ptrs == [];
      } else if p.Some? {
        if ptrs != [] && ptrs[0] == p.value {
          PtrsFromMeaning(base, mem, va + 8, left - 1, got + [p.value], ptrs[1..]);
          assert got + [p.value] + ptrs[1..] == got + ptrs;
          PtrsTail(base, mem, va, left, ptrs);
        } else {
          PtrsExtend(base, mem, va + 8, left - 1, got + [p.value]);
          if PtrsFrom(base, mem, va, left, got).Some? {
            FirstAfter(got, p.value, ptrs, PtrsFrom(base, mem, va, left, got).value);
          }
        }
      }
    }
  }

  lemma {:induction false} PtrsTail(base: u64, mem: bytes, va: nat, left: nat, ptrs: seq<u64>)
    requires va + 8 * left < TWO64 && 0 < left && ptrs != []
    requires ReadU64(base, mem, va) == Some(ptrs[0]) && ptrs[0] != 0
    ensures ReadsPtrs(base, mem, va, left, ptrs) <==> ReadsPtrs(base, mem, va + 8, left - 1, ptrs[1..])
  {
    hide ReadU64;
    var rest := ptrs[1..];
    if ReadsPtrs(base, mem, va, left, ptrs) {
      forall k | 0 <= k < |rest| ensures rest[k] != 0 && ReadU64(base, mem, va + 8 + 8 * k) == Some(rest[k]) {
        assert ReadU64(base, mem, va + 8 * (k + 1)) == Some(ptrs[k + 1]);
      }
    }
    if ReadsPtrs(base, mem, va + 8, left - 1, rest) {
      forall k | 0 <= k < |ptrs| ensures ptrs[k] != 0 && ReadU64(base, mem, va + 8 * k) == Some(ptrs[k]) {
        if k > 0 {
          assert ReadU64(base, mem, va + 8 + 8 * (k - 1)) == Some(rest[k - 1]);
        }
      }
    }
  }

  lemma {:induction false} PtrsExtend(base: u64, mem: bytes, va: nat, left: nat, got: seq<u64>)
    ensures var r := PtrsFrom(base, mem, va, left, got); r.Some? ==> got <= r.value
    decreases left
  {
    hide ReadU64;
    if left > 0 {
      var p := ReadU64(base, mem, Wrap64(va));
      if p.Some? && p.value != 0 {
        PtrsExtend(base, mem, va + 8, left - 1, got + [p.value]);
      }
    }
  }

  /** The strings of an array are those at its pointers; one pointer to no string fails the whole. */
  lemma {:induction false} StrsMeaning(base: u64, mem: bytes, ptrs: seq<u64>, got: seq<str>, strs: seq<str>)
    ensures StrsFrom(base, mem, ptrs, got) == Some(got + strs) <==>
            |strs| == |ptrs| && forall k :: 0 <= k < |ptrs| ==> Cstr(base, mem, ptrs[k]) == Some(Some(strs[k]))
    decreases |ptrs|
  {
    hide Cstr;
    if ptrs == [] {
      assert got + strs == got <==> strs == [];
    } else {
      match Cstr(base, mem, ptrs[0])
      case Some(Some(s)) =>
        if strs != [] && strs[0] == s {
          StrsMeaning(base, mem, ptrs[1..], got + [s], strs[1..]);
          assert got + [s] + strs[1..] == got + strs;
        } else {
          StrsExtend(base, mem, ptrs[1..], got + [s]);
          if StrsFrom(base, mem, ptrs, got).Some? {
            FirstAfter(got, s, strs, StrsFrom(base, mem, ptrs, got).value);
          }
        }
      case _ =>
    }
  }

  lemma {:induction false} StrsExtend(base: u64, mem: bytes, ptrs: seq<u64>, got: seq<str>)
    ensures var r := StrsFrom(base, mem, ptrs, got); r.Some? ==> got <= r.value
    decreases |ptrs|
  {
    hide Cstr;
    if ptrs != [] {
      match Cstr(base, mem, ptrs[0])
      case Some(Some(s)) => StrsExtend(base, mem, ptrs[1..], got + [s]);
      case _ =>
    }
  }

  /** The arrays end in a null word each, and the auxiliary vector behind them gives the page size and ends. */
  lemma {:induction false} AuxiliaryVector(base: u64, mem: bytes, top: u64, argv: seq<bytes>, envp: seq<bytes>)
    requires top <= base + |mem| && Build(base, mem, top, argv, envp).Some?
    ensures var s, n := Build(base, mem, top, argv, envp).value, |argv| + |envp|;
            && s.sp + 8 * (n + 7) < TWO64
            && ReadU64(base, s.mem, s.sp + 8 * (|argv| + 1)) == Some(0)
            && ReadU64(base, s.mem, s.sp + 8 * (n + 2)) == Some(0)
            && ReadU64(base, s.mem, s.sp + 8 * (n + 3)) == Some(6)
            && ReadU64(base, s.mem, s.sp + 8 * (n + 4)) == Some(4096)
            && ReadU64(base, s.mem, s.sp + 8 * (n + 5)) == Some(0)
            && ReadU64(base, s.mem, s.sp + 8 * (n + 6)) == Some(0)
  {
    hide ReadU64, Laid, Build;
    BuildIsLayout(base, mem, top, argv, envp);
    TableWords(top, argv, envp);
    var n, w := |argv| + |envp|, Table(top, argv, envp);
    var aux := w[3 + n..];
    assert w[3 + n] == aux[0] && w[4 + n] == aux[1] && w[5 + n] == aux[2] && w[6 + n] == aux[3];
    hide Table;
    TableWordAt(base, mem, top, argv, envp, 1 + |argv|);
    TableWordAt(base, mem, top, argv, envp, 2 + n);
    TableWordAt(base, mem, top, argv, envp, 3 + n);
    TableWordAt(base, mem, top, argv, envp, 4 + n);
    TableWordAt(base, mem, top, argv, envp, 5 + n);
    TableWordAt(base, mem, top, argv, envp, 6 + n);
  }

  /** Whatever is passed to a program is what the program's own memory says it was passed
      (execve reads with max == 64). */
  lemma {:induction false} ArgumentRoundTrip(
    base: u64, mem: bytes, top: u64, argv: seq<bytes>, envp: seq<bytes>, max: nat)
    requires top <= base + |mem|
    requires Build(base, mem, top, argv, envp).Some?
    requires AllReadable(argv) && AllReadable(envp) && |argv| <= max && |envp| <= max
    ensures var s := Build(base, mem, top, argv, envp).value;
            && ReadU64(base, s.mem, s.sp) == Some(|argv|)
            && s.sp + 8 * (|argv| + 2) < TWO64
            && StrArray(base, s.mem, s.sp + 8, max) == Some(argv)
            && StrArray(base, s.mem, s.sp + 8 * (|argv| + 2), max) == Some(envp)
  {
    hide ReadU64, StrArray, Laid;
    BuildIsLayout(base, mem, top, argv, envp);
    var sp, m := TableAt(top, argv, envp), Laid(base, mem, top, argv, envp);
    TableWords(top, argv, envp);
    TableWordAt(base, mem, top, argv, envp, 0);
    var args := ArgvHeld(base, mem, top, argv, envp);
    ArrayRead(base, m, sp + 8, args, argv, max);
    var envs := EnvpHeld(base, mem, top, argv, envp);
    ArrayRead(base, m, sp + 8 * (|argv| + 2), envs, envp, max);
  }
}
