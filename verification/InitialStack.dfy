/** The initial user stack: argv and envp strings pushed downward from the top,
    and the argc/argv/envp/auxv table of section 3.4.1 of the System V AMD64 ABI below them. */
module InitialStack {
  import opened Words
  import opened Bits
  import opened Memory

  const AT_NULL := 0
  const AT_PAGESZ := 6
  const PAGE_SIZE := 4096

  datatype Pushed = Pushed(sp: u64, mem: bytes, ptrs: seq<u64>)
  datatype Stack = Stack(sp: u64, mem: bytes)

  /** x rounded down to a multiple of 16; `x & !0xf` by MaskTo16. */
  function FloorTo16(x: u64): u64 {
    x - x % 16
  }

  /** Pushes s and a terminating NUL below sp. */
  function PushCstr(base: u64, mem: bytes, sp: u64, s: bytes): Option<(u64, bytes)> {
    var len := |s| + 1;
    if sp < len then None
    else match VaToIndex(base, |mem|, sp - len)
    case None => None
    case Some(start) => if start + len > |mem| then None else Some((sp - len, Splice(mem, start, s + [0])))
  }

  /** Pushes all strings, the last one first; ptrs lists their addresses in order. */
  function PushAll(base: u64, mem: bytes, sp: u64, strs: seq<bytes>): (r: Option<Pushed>)
    ensures r.Some? ==> |r.value.ptrs| == |strs|
  {
    if strs == [] then Some(Pushed(sp, mem, []))
    else match PushAll(base, mem, sp, strs[1..])
    case None => None
    case Some(p) =>
      match PushCstr(base, p.mem, p.sp, strs[0])
      case None => None
      case Some(q) => Some(Pushed(q.0, q.1, [q.0] + p.ptrs))
  }

  function StackWords(args: seq<nat>, envs: seq<nat>): (w: seq<nat>)
    ensures |w| == |args| + |envs| + 7
  {
    [|args|] + args + [0] + envs + [0, AT_PAGESZ, PAGE_SIZE, AT_NULL, 0]
  }

  function WriteWords(base: u64, mem: bytes, va: nat, words: seq<nat>): Option<bytes>
    requires va + 8 * |words| < TWO64
    decreases |words|
  {
    if words == [] then Some(mem)
    else match WriteWord(base, mem, va, 8, words[0])
    case None => None
    case Some(mem') => WriteWords(base, mem', va + 8, words[1..])
  }

  /** Rounds sp down, makes room for the table and stores it. */
  function PutTable(base: u64, mem: bytes, sp: u64, words: seq<nat>): Option<Stack> {
    var at := FloorTo16(sp) - 8 * |words|;
    if at < 0 then None
    else match WriteWords(base, mem, at, words)
    case None => None
    case Some(mem') => Some(Stack(at, mem'))
  }

  function Build(base: u64, mem: bytes, top: u64, argv: seq<bytes>, envp: seq<bytes>): Option<Stack> {
    match PushAll(base, mem, FloorTo16(top), argv)
    case None => None
    case Some(a) =>
      match PushAll(base, a.mem, a.sp, envp)
      case None => None
      case Some(e) => PutTable(base, e.mem, e.sp, StackWords(a.ptrs, e.ptrs))
  }

  // ---------------------------------------------------------------- the builder, in place

  method PushCstrInto(base: u64, mem: array<byte>, sp: u64, s: bytes) returns (r: Option<u64>)
    modifies mem
    ensures match PushCstr(base, old(mem[..]), sp, s)
            case None => r == None && mem[..] == old(mem[..])
            case Some(p) => r == Some(p.0) && mem[..] == p.1
  {
    var len := |s| + 1;
    if sp < len {
      return None;
    }
    var start := VaToIndex(base, mem.Length, sp - len);
    if start == None || start.value + len > mem.Length {
      return None;
    }
    CopyInto(mem, start.value, s);
    mem[start.value + |s|] := 0;
    assert mem[..] == Splice(old(mem[..]), start.value, s + [0]);
    return Some(sp - len);
  }

  /** One of the two string loops; on failure the memory is left part-written. */
  method PushStrings(base: u64, mem: array<byte>, sp0: u64, strs: seq<bytes>) returns (r: Option<(u64, seq<u64>)>)
    modifies mem
    ensures match PushAll(base, old(mem[..]), sp0, strs)
            case None => r == None
            case Some(p) => r == Some((p.sp, p.ptrs)) && mem[..] == p.mem
  {
    var sp, reversed, i := sp0, [], |strs|;
    while i > 0
      invariant 0 <= i <= |strs|
      invariant PushAll(base, old(mem[..]), sp0, strs[i..]) == Some(Pushed(sp, mem[..], Reversed(reversed)))
    {
      i := i - 1;
      assert strs[i..][1..] == strs[i + 1..];
      var p := PushCstrInto(base, mem, sp, strs[i]);
      if p == None {
        PushAllFails(base, old(mem[..]), sp0, strs, i);
        return None;
      }
      sp := p.value;
      reversed := reversed + [sp];
    }
    assert strs[0..] == strs;
    return Some((sp, Reversed(reversed)));
  }

  /** A failed push is not undone by later ones. */
  lemma {:induction false} PushAllFails(base: u64, mem: bytes, sp: u64, strs: seq<bytes>, i: nat)
    requires i <= |strs| && PushAll(base, mem, sp, strs[i..]) == None
    ensures PushAll(base, mem, sp, strs) == None
    decreases i
  {
    if i == 0 {
      assert strs[0..] == strs;
    } else {
      assert strs[i - 1..][1..] == strs[i..];
      PushAllFails(base, mem, sp, strs, i - 1);
    }
  }

  method WriteTable(base: u64, mem: array<byte>, sp: u64, words: seq<nat>) returns (ok: bool)
    requires sp + 8 * |words| < TWO64
    modifies mem
    ensures match WriteWords(base, old(mem[..]), sp, words)
            case None => !ok
            case Some(mem') => ok && mem[..] == mem'
  {
    hide WriteWord;
    var i := 0;
    while i < |words|
      invariant 0 <= i <= |words|
      invariant WriteWords(base, old(mem[..]), sp, words) == WriteWords(base, mem[..], sp + i * 8, words[i..])
    {
      ok := Write(base, mem, sp + i * 8, 8, words[i]);
      if !ok {
        return;
      }
      assert words[i..][1..] == words[i + 1..];
      i := i + 1;
    }
    return true;
  }

  method BuildInitialStack(base: u64, mem: array<byte>, top: u64, argv: seq<bytes>, envp: seq<bytes>)
    returns (r: Option<u64>)
    modifies mem
    ensures match Build(base, old(mem[..]), top, argv, envp)
            case None => r == None
            case Some(s) => r == Some(s.sp) && mem[..] == s.mem
  {
    hide PushAll, WriteWords, StackWords, And64;
    var sp := And64(top, Not64(0xf));
    MaskTo16(top);
    var a := PushStrings(base, mem, sp, argv);
    if a == None {
      return None;
    }
    var e := PushStrings(base, mem, a.value.0, envp);
    if e == None {
      return None;
    }
    var words := StackWords(a.value.1, e.value.1);
    sp := And64(e.value.0, Not64(0xf));
    MaskTo16(e.value.0);
    if sp < 8 * |words| {
      return None;
    }
    sp := sp - 8 * |words|;
    var ok := WriteTable(base, mem, sp, words);
    return if ok then Some(sp) else None;
  }
}
