/** The interpreter as it runs: registers updated in place, arms tried in order. */
module Interpreter {
  import opened Words
  import opened Bits
  import opened Memory
  import opened UserStrings
  import opened Instructions
  import opened Execution
  import Loader
  import Lfs
  import Paths

  /** A length of memory the loader hands out. */
  predicate Bounded(len: nat) {
    len <= Loader.MAX_INTERP_MEM + Loader.STACK_SIZE
  }

  /** How one step ends: Ok(false), Ok(true), or an error. */
  datatype Control = Continue | Halted | Stopped(e: RunError)

  class Cpu {
    var rax: u64
    var rbp: u64
    var rbx: u64
    var rsp: u64
    var rdi: u64
    var rsi: u64
    var rdx: u64
    var rcx: u64
    var r8: u64
    var r9: u64
    var r10: u64
    var r12: u64
    var r13: u64
    var rip: u64
    var zf: bool
    var sf: bool

    constructor (sp: u64, entry: u64)
      ensures State() == CpuState(0, 0, 0, sp, 0, 0, 0, 0, 0, 0, 0, 0, 0, entry, false, false)
    {
      rax, rbp, rbx, rsp, rdi, rsi, rdx, rcx := 0, 0, 0, sp, 0, 0, 0, 0;
      r8, r9, r10, r12, r13, rip, zf, sf := 0, 0, 0, 0, 0, entry, false, false;
    }

    function State(): CpuState
      reads this
    {
      CpuState(rax, rbp, rbx, rsp, rdi, rsi, rdx, rcx, r8, r9, r10, r12, r13, rip, zf, sf)
    }

    method Put(r: Reg, v: u64)
      modifies this
      ensures State() == Set(old(State()), r, v)
    {
      match r {
        case RAX => rax := v;
        case RCX => rcx := v;
        case RDX => rdx := v;
        case RBX => rbx := v;
        case RSP => rsp := v;
        case RBP => rbp := v;
        case RSI => rsi := v;
        case RDI => rdi := v;
        case R8 => r8 := v;
        case R9 => r9 := v;
        case R10 => r10 := v;
        case R12 => r12 := v;
        case R13 => r13 := v;
      }
    }

    method SetFlags(zero: bool, sign: bool)
      modifies this
      ensures State() == old(State()).(zf := zero, sf := sign)
    {
      zf, sf := zero, sign;
    }

    method Jump(target: u64)
      modifies this
      ensures State() == old(State()).(rip := target)
    {
      rip := target;
    }

    method Advance(len: nat)
      modifies this
      ensures State() == old(State()).(rip := Wrap64(old(State()).rip + len))
    {
      rip := Wrap64(rip + len);
    }
  }

  /** The machine a Cpu object and a memory array stand for. */
  function Current(cpu: Cpu, mem: array<byte>): Machine
    reads cpu, mem
  {
    Machine(cpu.State(), mem[..])
  }

  /** What a step has to leave behind: the outcome's machine, or everything untouched on an error. */
  predicate Ends(r: Control, before: Machine, after: Machine, o: Outcome) {
    match o
    case Running(m) => r == Continue && after == m
    case Finished(m) => r == Halted && after == m
    case Fault(e) => r == Stopped(e) && after == before
  }

  method PushWord(base: u64, mem: array<byte>, cpu: Cpu, v: u64) returns (ok: bool)
    modifies cpu, mem
    ensures match PushU64(base, old(mem[..]), old(cpu.State()).rsp, v)
            case None => !ok && Current(cpu, mem) == old(Current(cpu, mem))
            case Some(p) => ok && cpu.State() == old(cpu.State()).(rsp := p.0) && mem[..] == p.1
  {
    if cpu.rsp < 8 {
      return false;
    }
    ok := Write(base, mem, cpu.rsp - 8, 8, v);
    if ok {
      cpu.rsp := cpu.rsp - 8;
    }
  }

  method PopWord(base: u64, mem: array<byte>, cpu: Cpu) returns (r: Option<u64>)
    modifies cpu
    ensures match PopU64(base, old(mem[..]), old(cpu.State()).rsp)
            case None => r == None && cpu.State() == old(cpu.State())
            case Some(p) => r == Some(p.0) && cpu.State() == old(cpu.State()).(rsp := p.1)
  {
    r := Read8(base, mem, cpu.rsp);
    if r == None {
      return;
    }
    if cpu.rsp + 8 >= TWO64 {
      return None;
    }
    cpu.rsp := cpu.rsp + 8;
  }

  method ReadBytes(base: u64, mem: array<byte>, va: u64) returns (r: Option<window>)
    ensures match VaToIndex(base, mem.Length, va)
            case None => r == None
            case Some(i) => r == Some(Window(mem[..], i))
  {
    var i := VaToIndex(base, mem.Length, va);
    if i == None {
      return None;
    }
    var n := if mem.Length - i.value < 8 then mem.Length - i.value else 8;
    var out := mem[i.value..i.value + n] + seq(8 - n, _ => 0);
    assert out == Window(mem[..], i.value);
    return Some(out);
  }

  method FindProgram(path: bytes, root: Option<bytes>) returns (found: bool)
    ensures found == ProgramExists(path, root)
  {
    var name := Paths.ExecName(path);
    if name == None || root == None {
      return false;
    }
    match Lfs.Open(root.value, name.value) {
      case Ok(_) => return true;
      case Err(_) => return false;
    }
  }

  method HandleSyscallIn(base: u64, mem: array<byte>, cpu: Cpu, reply: Reply) returns (r: Control)
    modifies cpu, mem
    ensures Ends(r, old(Current(cpu, mem)), Current(cpu, mem), HandleSyscall(base, old(Current(cpu, mem)), reply))
  {
    hide Cstr, StrArray, Line, Splice, ProgramExists;
    match cpu.rax {
      case 0 =>
        var start := VaToIndex(base, mem.Length, cpu.rsi);
        if start == None {
          return Stopped(AddressOutOfRange);
        }
        var cap := Min(cpu.rdx, mem.Length - start.value);
        if cap == 0 {
          cpu.rax := 0;
          return Continue;
        }
        if cpu.rdi == 0 {
          var got := ReadLine(mem, start.value, cap, reply.data);
          cpu.rax := Wrap64(got);
          return Continue;
        }
        if reply.rax < TWO63 {
          var got := Min(|reply.data|, Min(cap, 256));
          CopyInto(mem, start.value, reply.data[..got]);
          cpu.rax := got;
        } else {
          cpu.rax := reply.rax;
        }
        return Continue;
      case 1 =>
        var start := VaToIndex(base, mem.Length, cpu.rsi);
        if start == None || start.value + cpu.rdx > mem.Length {
          return Stopped(AddressOutOfRange);
        }
        cpu.rax := reply.rax;
        return Continue;
      case 59 =>
        var path := ReadUserCstr(base, mem, cpu.rdi);
        if path == None {
          return Stopped(AddressOutOfRange);
        }
        if path.value == None {
          cpu.rax := TWO64 - EFAULT;
          return Continue;
        }
        var argv := ReadUserStrArray(base, mem, cpu.rsi, MAX_STRINGS);
        if argv == None {
          return Stopped(AddressOutOfRange);
        }
        var envp := ReadUserStrArray(base, mem, cpu.rdx, MAX_STRINGS);
        if envp == None {
          return Stopped(AddressOutOfRange);
        }
        var found := FindProgram(path.value.value, reply.root);
        if !found {
          cpu.rax := TWO64 - ENOENT;
          return Continue;
        }
        if reply.execed {
          cpu.rax := 0;
          return Halted;
        }
        cpu.rax := TWO64 - ENOEXEC;
        return Continue;
      case _ =>
        if cpu.rax == SYS_EXIT || cpu.rax == SYS_EXIT_GROUP {
          cpu.rax := 0;
          return Halted;
        }
        cpu.rax := reply.rax;
        return Continue;
    }
  }

  /** The keyboard loop: carriage returns become newlines, and a newline ends the line. */
  method ReadLine(mem: array<byte>, start: nat, cap: nat, input: bytes) returns (got: nat)
    requires start + cap <= mem.Length
    modifies mem
    ensures got == |Line(input, cap)| && mem[..] == Splice(old(mem[..]), start, Line(input, cap))
  {
    got := 0;
    ghost var done := [];
    SpliceNothing(mem[..], start);
    while got < cap
      invariant got <= cap && got <= |input| && |done| == got
      invariant Line(input, cap) == done + Line(input[got..], cap - got)
      invariant mem[..] == Splice(old(mem[..]), start, done)
    {
      if got == |input| {
        break;
      }
      var ch := input[got];
      var mapped := if ch == 13 then 10 else ch;
      StoreNext(old(mem[..]), start, done, mapped);
      LineStep(input, cap, got, done);
      mem[start + got] := mapped;
      done := done + [mapped];
      got := got + 1;
      if mapped == 10 {
        return;
      }
    }
    assert done + [] == done;
  }

  lemma {:induction false} StoreNext(s: bytes, i: nat, done: bytes, b: byte)
    requires i + |done| < |s|
    ensures Splice(s, i, done)[i + |done| := b] == Splice(s, i, done + [b])
  {
  }

  lemma {:induction false} LineStep(input: bytes, cap: nat, got: nat, done: bytes)
    requires got < cap && got < |input| && Line(input, cap) == done + Line(input[got..], cap - got)
    ensures var c := if input[got] == 13 then 10 else input[got];
            Line(input, cap) ==
            if c == 10 then done + [c] else (done + [c]) + Line(input[got + 1..], cap - (got + 1))
  {
    var c := if input[got] == 13 then 10 else input[got];
    var rest := Line(input[got + 1..], cap - (got + 1));
    assert input[got..][1..] == input[got + 1..];
    assert done + ([c] + rest) == (done + [c]) + rest;
  }

  const REX: set<int> := {0x41, 0x43, 0x45, 0x48, 0x49, 0x4C}
  const JUMPS: set<int> := {0xE9, 0xEB, 0x74}
  const PUSHES: set<int> := {0x53, 0x55, 0x50, 0x54}
  const POPS: set<int> := {0x5B, 0x5D, 0x5E, 0xC3, 0xF4}

  /** b is the window at index i, where rip points. */
  predicate Fetched(base: u64, mem: bytes, rip: u64, i: nat, b: window) {
    Bounded(|mem|) && VaToIndex(base, |mem|, rip) == Some(i) && b == Window(mem, i)
  }

  /** The 32-bit immediate o bytes after rip is the one inside the window, when memory holds it. */
  method FetchImm(
    base: u64, mem: array<byte>, rip: u64, ghost i: nat, ghost b: window, o: nat) returns (imm: Option<u32>)
    requires Fetched(base, mem[..], rip, i, b) && 0 < o <= 4
    ensures imm == if ImmediateIn(rip, i, o + 4, mem.Length) then Some(Imm32(b, o)) else None
  {
    hide ReadU32, Imm32, Window;
    imm := Read4(base, mem, Wrap64(rip + o));
    ImmRead(base, mem[..], rip, i, o);
  }

  lemma {:induction false} ImmRead(base: u64, mem: bytes, rip: u64, i: nat, o: nat)
    requires Bounded(|mem|) && VaToIndex(base, |mem|, rip) == Some(i) && 0 < o <= 4
    ensures ReadU32(base, mem, Wrap64(rip + o)) ==
            if ImmediateIn(rip, i, o + 4, |mem|) then Some(Imm32(Window(mem, i), o)) else None
  {
    if ImmediateIn(rip, i, o + 4, |mem|) {
      assert Wrap64(rip + o) == rip + o;
      ImmInWindow(mem, i, o);
    } else {
      hide Imm32, Window;
    }
  }

  lemma {:induction false} ImmInWindow(mem: bytes, i: nat, o: nat)
    requires i + o + 4 <= |mem| && o + 4 <= 8
    ensures LeValue(mem[i + o..i + o + 4]) == Imm32(Window(mem, i), o)
  {
    var b := Window(mem, i);
    assert mem[i + o..i + o + 4] == [b[o], b[o + 1], b[o + 2], b[o + 3]];
    Le4(b[o], b[o + 1], b[o + 2], b[o + 3]);
  }

  lemma {:induction false} Le4(b0: byte, b1: byte, b2: byte, b3: byte)
    ensures LeValue([b0, b1, b2, b3]) == b0 + TWO8 * b1 + TWO16 * b2 + TWO16 * TWO8 * b3
  {
    assert [b0, b1, b2, b3][1..] == [b1, b2, b3];
    assert [b1, b2, b3][1..] == [b2, b3];
    assert [b2, b3][1..] == [b3];
    assert [b3][1..] == [];
    assert LeValue([b3]) == b3;
    assert LeValue([b2, b3]) == b2 + TWO8 * b3;
    assert LeValue([b1, b2, b3]) == b1 + TWO8 * (b2 + TWO8 * b3);
  }

  /** The table store and the 64-bit loads. */
  method ExecTableW(cpu: Cpu, base: u64, mem: array<byte>, ghost i: nat, b: window, reply: Reply) returns (r: Control)
    requires Fetched(base, mem[..], cpu.State().rip, i, b)
    requires b[0] == 0x48 && ((b[1] == 0x89 && b[2] == 0x7C) || b[1] == 0x8B)
    modifies cpu, mem
    ensures Ends(r, old(Current(cpu, mem)), Current(cpu, mem),
                 Carry(base, old(Current(cpu, mem)), i, b, Decode(b), reply))
  {
    hide Cpu.State, Set, Window, Imm32, ReadU64, ReadU32, ReadU8, WriteWord, PushU64, PopU64, Or64, And64,
         HandleSyscall, DecodeLeaW, DecodeRexWR, DecodeRexOther, DecodeLoad32, DecodeStore32, DecodePlain,
         Compute, Branch;
    var c := cpu.State();
    var ok: bool;
    var word: Option<u64>;
    if b[0] == 0x48 && b[1] == 0x89 && b[2] == 0x7C && b[3] == 0xC2 && b[4] == 0x08 {
      ok := Write(base, mem, Wrap64(c.rdx + c.rax * 8 + 8), 8, c.rdi);
      if !ok {
        return Stopped(AddressOutOfRange);
      }
      cpu.Advance(5);
      return Continue;
    }
    if b[0] == 0x48 && b[1] == 0x8B && b[2] == 0x7C && b[3] == 0xC2 && b[4] == 0x08 {
      word := Read8(base, mem, Wrap64(c.rdx + c.rax * 8 + 8));
      if word == None {
        return Stopped(AddressOutOfRange);
      }
      cpu.Put(RDI, word.value);
      cpu.Advance(5);
      return Continue;
    }
    if b[0] == 0x48 && b[1] == 0x8B && b[2] == 0x37 {
      word := Read8(base, mem, c.rdi);
      if word == None {
        return Stopped(AddressOutOfRange);
      }
      cpu.Put(RSI, word.value);
      cpu.Advance(3);
      return Continue;
    }
    return Stopped(UnsupportedInstruction(c.rip, b));
  }

  /** Register moves 48 89. */
  method ExecMovW(cpu: Cpu, base: u64, mem: array<byte>, ghost i: nat, b: window, reply: Reply) returns (r: Control)
    requires Fetched(base, mem[..], cpu.State().rip, i, b)
    requires b[0] == 0x48 && b[1] == 0x89 && b[2] != 0x7C
    modifies cpu, mem
    ensures Ends(r, old(Current(cpu, mem)), Current(cpu, mem),
                 Carry(base, old(Current(cpu, mem)), i, b, Decode(b), reply))
  {
    hide Cpu.State, Set, Window, Imm32, ReadU64, ReadU32, ReadU8, WriteWord, PushU64, PopU64, Or64, And64,
         HandleSyscall, DecodeLeaW, DecodeRexWR, DecodeRexOther, DecodeLoad32, DecodeStore32, DecodePlain,
         Load, Store, Branch;
    var c := cpu.State();
    if b[0] == 0x48 && b[1] == 0x89 && b[2] == 0xC5 {
      cpu.Put(RBP, c.rax);
      cpu.Advance(3);
      return Continue;
    }
    if b[0] == 0x48 && b[1] == 0x89 && b[2] == 0xE5 {
      cpu.Put(RBP, c.rsp);
      cpu.Advance(3);
      return Continue;
    }
    if b[0] == 0x48 && b[1] == 0x89 && b[2] == 0xEC {
      cpu.Put(RSP, c.rbp);
      cpu.Advance(3);
      return Continue;
    }
    if b[0] == 0x48 && b[1] == 0x89 && b[2] == 0xC7 {
      cpu.Put(RDI, c.rax);
      cpu.Advance(3);
      return Continue;
    }
    if b[0] == 0x48 && b[1] == 0x89 && b[2] == 0xF8 {
      cpu.Put(RAX, c.rdi);
      cpu.Advance(3);
      return Continue;
    }
    r := ExecMovFromW(cpu, base, mem, i, b, reply);
  }

  /** The second half of the register moves 48 89. */
  method ExecMovFromW(cpu: Cpu, base: u64, mem: array<byte>, ghost i: nat, b: window, reply: Reply) returns (r: Control)
    requires Fetched(base, mem[..], cpu.State().rip, i, b)
    requires b[0] == 0x48 && b[1] == 0x89 && b[2] !in {0x7C, 0xC5, 0xE5, 0xEC, 0xC7, 0xF8}
    modifies cpu, mem
    ensures Ends(r, old(Current(cpu, mem)), Current(cpu, mem),
                 Carry(base, old(Current(cpu, mem)), i, b, Decode(b), reply))
  {
    hide Cpu.State, Set, Window, Imm32, ReadU64, ReadU32, ReadU8, WriteWord, PushU64, PopU64, Or64, And64,
         HandleSyscall, DecodeLeaW, DecodeRexWR, DecodeRexOther, DecodeLoad32, DecodeStore32, DecodePlain,
         Load, Store, Branch;
    var c := cpu.State();
    if b[0] == 0x48 && b[1] == 0x89 && b[2] == 0xD7 {
      cpu.Put(RDI, c.rdx);
      cpu.Advance(3);
      return Continue;
    }
    if b[0] == 0x48 && b[1] == 0x89 && b[2] == 0xD6 {
      cpu.Put(RSI, c.rdx);
      cpu.Advance(3);
      return Continue;
    }
    if b[0] == 0x48 && b[1] == 0x89 && b[2] == 0xE7 {
      cpu.Put(RDI, c.rsp);
      cpu.Advance(3);
      return Continue;
    }
    if b[0] == 0x48 && b[1] == 0x89 && b[2] == 0xE2 {
      cpu.Put(RDX, c.rsp);
      cpu.Advance(3);
      return Continue;
    }
    if b[0] == 0x48 && b[1] == 0x89 && b[2] == 0xE6 {
      cpu.Put(RSI, c.rsp);
      cpu.Advance(3);
      return Continue;
    }
    return Stopped(UnsupportedInstruction(c.rip, b));
  }

  /** Arms 48 8D with a register base. */
  method ExecLeaW(cpu: Cpu, base: u64, mem: array<byte>, ghost i: nat, b: window, reply: Reply) returns (r: Control)
    requires Fetched(base, mem[..], cpu.State().rip, i, b)
    requires b[0] == 0x48 && b[1] == 0x8D && b[2] != 0x3D && b[2] != 0x35
    modifies cpu, mem
    ensures Ends(r, old(Current(cpu, mem)), Current(cpu, mem),
                 Carry(base, old(Current(cpu, mem)), i, b, Decode(b), reply))
  {
    hide Cpu.State, Set, Window, Imm32, ReadU64, ReadU32, ReadU8, WriteWord, PushU64, PopU64, Or64, And64,
         HandleSyscall, DecodeMovW, DecodeRexWR, DecodeRexOther, DecodeLoad32, DecodeStore32, DecodePlain,
         Load, Store, Branch;
    var c := cpu.State();
    if b[0] == 0x48 && b[1] == 0x8D && b[2] == 0x7C && b[3] == 0xC2 && b[4] == 0x08 {
      cpu.Put(RDI, Wrap64(c.rdx + c.rax * 8 + 8));
      cpu.Advance(5);
      return Continue;
    }
    if b[0] == 0x48 && b[1] == 0x8D {
      var mode, reg, rm := b[2] / 64, b[2] / 8 % 8, b[2] % 8;
      if mode == 1 && rm != 4 {
        var at := Wrap64(Get(c, GeneralReg(rm)) + Signed8(b[3]));
        match reg {
          case 0 => cpu.Put(RAX, at);
          case 2 => cpu.Put(RDX, at);
          case 5 => cpu.Put(RBP, at);
          case 6 => cpu.Put(RSI, at);
          case 7 => cpu.Put(RDI, at);
          case _ =>
        }
        cpu.Advance(4);
        return Continue;
      }
    }
    r := ExecLeaRest(cpu, base, mem, i, b, reply);
  }

  /** The arms for two particular leas that come after the general one. None of their encodings gets past
      that arm, so here they are shown to do what it does. */
  method ExecLeaRest(cpu: Cpu, base: u64, mem: array<byte>, ghost i: nat, b: window, reply: Reply) returns (r: Control)
    requires Fetched(base, mem[..], cpu.State().rip, i, b)
    requires b[0] == 0x48 && b[1] == 0x8D && b[2] != 0x3D && b[2] != 0x35
    requires !(b[2] == 0x7C && b[3] == 0xC2 && b[4] == 0x08)
    requires b[2..4] == [0x57, 0x08] || b[2..4] == [0x52, 0xFF] || !(b[2] / 64 == 1 && b[2] % 8 != 4)
    modifies cpu, mem
    ensures Ends(r, old(Current(cpu, mem)), Current(cpu, mem),
                 Carry(base, old(Current(cpu, mem)), i, b, Decode(b), reply))
  {
    hide Cpu.State, Set, Window, Imm32, ReadU64, ReadU32, ReadU8, WriteWord, PushU64, PopU64, Or64, And64,
         HandleSyscall, DecodeMovW, DecodeRexWR, DecodeRexOther, DecodeLoad32, DecodeStore32, DecodePlain,
         Load, Store, Branch;
    var c := cpu.State();
    if b[0] == 0x48 && b[1] == 0x8D && b[2] == 0x57 && b[3] == 0x08 {
      cpu.Put(RDX, Wrap64(c.rdi + 8));
      cpu.Advance(4);
      return Continue;
    }
    if b[0] == 0x48 && b[1] == 0x8D && b[2] == 0x52 && b[3] == 0xFF {
      cpu.Put(RDX, Wrap64(c.rdx - 1));
      cpu.Advance(4);
      return Continue;
    }
    assert b[2..4][0] == b[2] && b[2..4][1] == b[3];
    return Stopped(UnsupportedInstruction(c.rip, b));
  }

  /** Arms 48 8D relative to rip. */
  method ExecRipW(cpu: Cpu, base: u64, mem: array<byte>, ghost i: nat, b: window, reply: Reply) returns (r: Control)
    requires Fetched(base, mem[..], cpu.State().rip, i, b)
    requires b[0] == 0x48 && b[1] == 0x8D && (b[2] == 0x3D || b[2] == 0x35)
    modifies cpu, mem
    ensures Ends(r, old(Current(cpu, mem)), Current(cpu, mem),
                 Carry(base, old(Current(cpu, mem)), i, b, Decode(b), reply))
  {
    hide Cpu.State, Set, Window, Imm32, ReadU64, ReadU32, ReadU8, WriteWord, PushU64, PopU64, Or64, And64,
         HandleSyscall, DecodeMovW, DecodeRexWR, DecodeRexOther, DecodeLoad32, DecodeStore32, DecodePlain,
         Load, Store, Branch;
    var c := cpu.State();
    if b[0] == 0x48 && b[1] == 0x8D && b[2] == 0x3D {
      var disp := FetchImm(base, mem, c.rip, i, b, 3);
      if disp == None {
        return Stopped(AddressOutOfRange);
      }
      var next := Wrap64(c.rip + 7);
      cpu.Put(RDI, Wrap64(next + Signed32(disp.value)));
      cpu.Jump(next);
      return Continue;
    }
    if b[0] == 0x48 && b[1] == 0x8D && b[2] == 0x35 {
      var disp := FetchImm(base, mem, c.rip, i, b, 3);
      if disp == None {
        return Stopped(AddressOutOfRange);
      }
      var next := Wrap64(c.rip + 7);
      cpu.Put(RSI, Wrap64(next + Signed32(disp.value)));
      cpu.Jump(next);
      return Continue;
    }
    return Stopped(UnsupportedInstruction(c.rip, b));
  }

  /** Arms 48 83. */
  method ExecAluW(cpu: Cpu, base: u64, mem: array<byte>, ghost i: nat, b: window, reply: Reply) returns (r: Control)
    requires Fetched(base, mem[..], cpu.State().rip, i, b)
    requires b[0] == 0x48 && b[1] == 0x83
    modifies cpu, mem
    ensures Ends(r, old(Current(cpu, mem)), Current(cpu, mem),
                 Carry(base, old(Current(cpu, mem)), i, b, Decode(b), reply))
  {
    hide Cpu.State, Set, Window, Imm32, ReadU64, ReadU32, ReadU8, WriteWord, PushU64, PopU64, Or64, And64,
         HandleSyscall, DecodeMovW, DecodeLeaW, DecodeRexWR, DecodeRexOther, DecodeLoad32, DecodeStore32,
         DecodePlain, Load, Store, Branch;
    var c := cpu.State();
    if b[0] == 0x48 && b[1] == 0x83 && b[2] >= 0xC0 {
      var op, reg, imm := b[2] / 8 % 8, b[2] % 8, Signed8(b[3]);
      if op == 0 || op == 1 || op == 5 {
        var cur := Get(c, GeneralReg(reg));
        cpu.Put(GeneralReg(reg),
                if op == 0 then Wrap64(cur + imm)
                else if op == 1 then Or64(cur, Wrap64(imm))
                else Wrap64(cur - imm));
        cpu.Advance(4);
        return Continue;
      }
    }
    if b[0] == 0x48 && b[1] == 0x83 && b[2] == 0xE4 {
      cpu.Put(RSP, And64(c.rsp, Wrap64(Signed8(b[3]))));
      cpu.Advance(4);
      return Continue;
    }
    return Stopped(UnsupportedInstruction(c.rip, b));
  }

  /** Arm 48 81. */
  method ExecAlu4W(cpu: Cpu, base: u64, mem: array<byte>, ghost i: nat, b: window, reply: Reply) returns (r: Control)
    requires Fetched(base, mem[..], cpu.State().rip, i, b)
    requires b[0] == 0x48 && b[1] == 0x81
    modifies cpu, mem
    ensures Ends(r, old(Current(cpu, mem)), Current(cpu, mem),
                 Carry(base, old(Current(cpu, mem)), i, b, Decode(b), reply))
  {
    hide Cpu.State, Set, Window, Imm32, ReadU64, ReadU32, ReadU8, WriteWord, PushU64, PopU64, Or64, And64,
         HandleSyscall, DecodeMovW, DecodeLeaW, DecodeRexWR, DecodeRexOther, DecodeLoad32, DecodeStore32,
         DecodePlain, Load, Store, Branch;
    var c := cpu.State();
    if b[0] == 0x48 && b[1] == 0x81 && b[2] >= 0xC0 {
      var op, reg := b[2] / 8 % 8, b[2] % 8;
      var word32 := FetchImm(base, mem, c.rip, i, b, 3);
      if word32 == None {
        return Stopped(AddressOutOfRange);
      }
      var imm := Signed32(word32.value);
      if op == 0 || op == 1 || op == 5 {
        var cur := Get(c, GeneralReg(reg));
        cpu.Put(GeneralReg(reg),
                if op == 0 then Wrap64(cur + imm)
                else if op == 1 then Or64(cur, Wrap64(imm))
                else Wrap64(cur - imm));
        cpu.Advance(7);
        return Continue;
      }
    }
    return Stopped(UnsupportedInstruction(c.rip, b));
  }

  /** Arms 48 C7. */
  method ExecImmW(cpu: Cpu, base: u64, mem: array<byte>, ghost i: nat, b: window, reply: Reply) returns (r: Control)
    requires Fetched(base, mem[..], cpu.State().rip, i, b)
    requires b[0] == 0x48 && b[1] == 0xC7
    modifies cpu, mem
    ensures Ends(r, old(Current(cpu, mem)), Current(cpu, mem),
                 Carry(base, old(Current(cpu, mem)), i, b, Decode(b), reply))
  {
    hide Cpu.State, Set, Window, Imm32, ReadU64, ReadU32, ReadU8, WriteWord, PushU64, PopU64, Or64, And64,
         HandleSyscall, DecodeMovW, DecodeLeaW, DecodeRexWR, DecodeRexOther, DecodeLoad32, DecodeStore32,
         DecodePlain, Load, Store, Branch;
    var c := cpu.State();
    if b[0] == 0x48 && b[1] == 0xC7 && b[2] == 0xC0 {
      var imm := FetchImm(base, mem, c.rip, i, b, 3);
      if imm == None {
        return Stopped(AddressOutOfRange);
      }
      cpu.Put(RAX, imm.value);
      cpu.Advance(7);
      return Continue;
    }
    if b[0] == 0x48 && b[1] == 0xC7 && b[2] == 0xC7 {
      var imm := FetchImm(base, mem, c.rip, i, b, 3);
      if imm == None {
        return Stopped(AddressOutOfRange);
      }
      cpu.Put(RDI, imm.value);
      cpu.Advance(7);
      return Continue;
    }
    if b[0] == 0x48 && b[1] == 0xC7 && b[2] == 0xC6 {
      var imm := FetchImm(base, mem, c.rip, i, b, 3);
      if imm == None {
        return Stopped(AddressOutOfRange);
      }
      cpu.Put(RSI, imm.value);
      cpu.Advance(7);
      return Continue;
    }
    if b[0] == 0x48 && b[1] == 0xC7 && b[2] == 0xC2 {
      var imm := FetchImm(base, mem, c.rip, i, b, 3);
      if imm == None {
        return Stopped(AddressOutOfRange);
      }
      cpu.Put(RDX, imm.value);
      cpu.Advance(7);
      return Continue;
    }
    return Stopped(UnsupportedInstruction(c.rip, b));
  }

  /** The other arms with prefix 48. */
  method ExecMiscW(cpu: Cpu, base: u64, mem: array<byte>, ghost i: nat, b: window, reply: Reply) returns (r: Control)
    requires Fetched(base, mem[..], cpu.State().rip, i, b)
    requires b[0] == 0x48 && b[1] !in {0x89, 0x8B, 0x8D, 0x83, 0x81, 0xC7}
    modifies cpu, mem
    ensures Ends(r, old(Current(cpu, mem)), Current(cpu, mem),
                 Carry(base, old(Current(cpu, mem)), i, b, Decode(b), reply))
  {
    hide Cpu.State, Set, Window, Imm32, ReadU64, ReadU32, ReadU8, WriteWord, PushU64, PopU64, Or64, And64,
         HandleSyscall, DecodeMovW, DecodeLeaW, DecodeRexWR, DecodeRexOther, DecodeLoad32, DecodeStore32,
         DecodePlain, Load, Store, Branch;
    var c := cpu.State();
    if b[0] == 0x48 && b[1] == 0x63 && b[2] == 0xC6 {
      cpu.Put(RAX, Wrap64(Signed32(c.rsi % TWO32)));
      cpu.Advance(3);
      return Continue;
    }
    if b[0] == 0x48 && b[1] == 0x31 && b[2] == 0xED {
      cpu.Put(RBP, 0);
      cpu.Advance(3);
      return Continue;
    }
    r := ExecTestW(cpu, base, mem, i, b, reply);
  }

  /** Arms 48 85 and the conditional move. */
  method ExecTestW(cpu: Cpu, base: u64, mem: array<byte>, ghost i: nat, b: window, reply: Reply) returns (r: Control)
    requires Fetched(base, mem[..], cpu.State().rip, i, b)
    requires b[0] == 0x48 && b[1] !in {0x89, 0x8B, 0x8D, 0x83, 0x81, 0xC7}
    requires !(b[1] == 0x63 && b[2] == 0xC6) && !(b[1] == 0x31 && b[2] == 0xED)
    modifies cpu, mem
    ensures Ends(r, old(Current(cpu, mem)), Current(cpu, mem),
                 Carry(base, old(Current(cpu, mem)), i, b, Decode(b), reply))
  {
    hide Cpu.State, Set, Window, Imm32, ReadU64, ReadU32, ReadU8, WriteWord, PushU64, PopU64, Or64, And64,
         HandleSyscall, DecodeMovW, DecodeLeaW, DecodeRexWR, DecodeRexOther, DecodeLoad32, DecodeStore32,
         DecodePlain, Load, Store, Branch;
    var c := cpu.State();
    if b[0] == 0x48 && b[1] == 0x85 && b[2] == 0xC0 {
      cpu.SetFlags(c.rax == 0, c.rax / TWO63 != 0);
      cpu.Advance(3);
      return Continue;
    }
    if b[0] == 0x48 && b[1] == 0x85 && b[2] == 0xD2 {
      cpu.SetFlags(c.rdx == 0, c.rdx / TWO63 != 0);
      cpu.Advance(3);
      return Continue;
    }
    if b[0] == 0x48 && b[1] == 0x0F && b[2] == 0x49 && b[3] == 0xD0 {
      if !c.sf {
        cpu.Put(RDX, c.rax);
      }
      cpu.Advance(4);
      return Continue;
    }
    return Stopped(UnsupportedInstruction(c.rip, b));
  }

  /** Arms with prefix 41. */
  method ExecRexB(cpu: Cpu, base: u64, mem: array<byte>, ghost i: nat, b: window, reply: Reply) returns (r: Control)
    requires Fetched(base, mem[..], cpu.State().rip, i, b)
    requires b[0] == 0x41
    modifies cpu, mem
    ensures Ends(r, old(Current(cpu, mem)), Current(cpu, mem),
                 Carry(base, old(Current(cpu, mem)), i, b, Decode(b), reply))
  {
    hide Cpu.State, Set, Window, Imm32, ReadU64, ReadU32, ReadU8, WriteWord, PushU64, PopU64, Or64, And64,
         HandleSyscall, DecodeRexW, DecodeMovW, DecodeLeaW, DecodeRexWR, DecodeLoad32, DecodeStore32,
         DecodePlain, Branch;
    var c := cpu.State();
    var ok: bool;
    var word: Option<u64>;
    if b[0] == 0x41 && b[1] == 0x55 {
      ok := PushWord(base, mem, cpu, c.r13);
      if !ok {
        return Stopped(AddressOutOfRange);
      }
      cpu.Advance(2);
      return Continue;
    }
    if b[0] == 0x41 && b[1] == 0x5D {
      word := PopWord(base, mem, cpu);
      if word == None {
        return Stopped(AddressOutOfRange);
      }
      cpu.Put(R13, word.value);
      cpu.Advance(2);
      return Continue;
    }
    r := ExecRexB12(cpu, base, mem, i, b, reply);
  }

  /** The arms for r12, and the immediate moves. */
  method ExecRexB12(cpu: Cpu, base: u64, mem: array<byte>, ghost i: nat, b: window, reply: Reply) returns (r: Control)
    requires Fetched(base, mem[..], cpu.State().rip, i, b)
    requires b[0] == 0x41 && b[1] !in {0x55, 0x5D}
    modifies cpu, mem
    ensures Ends(r, old(Current(cpu, mem)), Current(cpu, mem),
                 Carry(base, old(Current(cpu, mem)), i, b, Decode(b), reply))
  {
    hide Cpu.State, Set, Window, Imm32, ReadU64, ReadU32, ReadU8, WriteWord, PushU64, PopU64, Or64, And64,
         HandleSyscall, DecodeRexW, DecodeMovW, DecodeLeaW, DecodeRexWR, DecodeLoad32, DecodeStore32,
         DecodePlain, Branch;
    var c := cpu.State();
    var ok: bool;
    var word: Option<u64>;
    if b[0] == 0x41 && b[1] == 0x54 {
      ok := PushWord(base, mem, cpu, c.r12);
      if !ok {
        return Stopped(AddressOutOfRange);
      }
      cpu.Advance(2);
      return Continue;
    }
    if b[0] == 0x41 && b[1] == 0x5C {
      word := PopWord(base, mem, cpu);
      if word == None {
        return Stopped(AddressOutOfRange);
      }
      cpu.Put(R12, word.value);
      cpu.Advance(2);
      return Continue;
    }
    r := ExecImmB(cpu, base, mem, i, b, reply);
  }

  /** Arms 41 B8 to 41 BF. */
  method ExecImmB(cpu: Cpu, base: u64, mem: array<byte>, ghost i: nat, b: window, reply: Reply) returns (r: Control)
    requires Fetched(base, mem[..], cpu.State().rip, i, b)
    requires b[0] == 0x41 && b[1] !in {0x55, 0x5D, 0x54, 0x5C}
    modifies cpu, mem
    ensures Ends(r, old(Current(cpu, mem)), Current(cpu, mem),
                 Carry(base, old(Current(cpu, mem)), i, b, Decode(b), reply))
  {
    hide Cpu.State, Set, Window, Imm32, ReadU64, ReadU32, ReadU8, WriteWord, PushU64, PopU64, Or64, And64,
         HandleSyscall, DecodeRexW, DecodeMovW, DecodeLeaW, DecodeRexWR, DecodeLoad32, DecodeStore32,
         DecodePlain, Branch;
    var c := cpu.State();
    if b[0] == 0x41 && 0xB8 <= b[1] <= 0xBF {
      var imm := FetchImm(base, mem, c.rip, i, b, 2);
      if imm == None {
        return Stopped(AddressOutOfRange);
      }
      match b[1] - 0xB8 {
        case 0 => cpu.Put(R8, imm.value);
        case 1 => cpu.Put(R9, imm.value);
        case _ =>
      }
      cpu.Advance(6);
      return Continue;
    }
    return Stopped(UnsupportedInstruction(c.rip, b));
  }

  /** Arms with prefix 49. */
  method ExecRexWB(cpu: Cpu, base: u64, mem: array<byte>, ghost i: nat, b: window, reply: Reply) returns (r: Control)
    requires Fetched(base, mem[..], cpu.State().rip, i, b)
    requires b[0] == 0x49
    modifies cpu, mem
    ensures Ends(r, old(Current(cpu, mem)), Current(cpu, mem),
                 Carry(base, old(Current(cpu, mem)), i, b, Decode(b), reply))
  {
    hide Cpu.State, Set, Window, Imm32, ReadU64, ReadU32, ReadU8, WriteWord, PushU64, PopU64, Or64, And64,
         HandleSyscall, DecodeRexW, DecodeMovW, DecodeLeaW, DecodeRexWR, DecodeLoad32, DecodeStore32,
         DecodePlain, Load, Store, Branch;
    var c := cpu.State();
    if b[0] == 0x49 && b[1] == 0x89 && b[2] == 0xFD {
      cpu.Put(R13, c.rdi);
      cpu.Advance(3);
      return Continue;
    }
    if b[0] == 0x49 && b[1] == 0x89 && b[2] == 0xD1 {
      cpu.Put(R9, c.rdx);
      cpu.Advance(3);
      return Continue;
    }
    if b[0] == 0x49 && b[1] == 0x89 && b[2] == 0xD0 {
      cpu.Put(R8, c.rdx);
      cpu.Advance(3);
      return Continue;
    }
    return Stopped(UnsupportedInstruction(c.rip, b));
  }

  /** Arms with prefixes 43 and 45. */
  method ExecRexRB(cpu: Cpu, base: u64, mem: array<byte>, ghost i: nat, b: window, reply: Reply) returns (r: Control)
    requires Fetched(base, mem[..], cpu.State().rip, i, b)
    requires b[0] in {0x43, 0x45}
    modifies cpu, mem
    ensures Ends(r, old(Current(cpu, mem)), Current(cpu, mem),
                 Carry(base, old(Current(cpu, mem)), i, b, Decode(b), reply))
  {
    hide Cpu.State, Set, Window, Imm32, ReadU64, ReadU32, ReadU8, WriteWord, PushU64, PopU64, Or64, And64,
         HandleSyscall, DecodeRexW, DecodeMovW, DecodeLeaW, DecodeRexWR, DecodeLoad32, DecodeStore32,
         DecodePlain, Store, Branch;
    var c := cpu.State();
    if b[0] == 0x45 && b[1] == 0x31 && b[2] == 0xC0 {
      cpu.Put(R8, 0);
      cpu.Advance(3);
      return Continue;
    }
    if b[0] == 0x45 && b[1] == 0x31 && b[2] == 0xC9 {
      cpu.Put(R9, 0);
      cpu.Advance(3);
      return Continue;
    }
    if b[0] == 0x45 && b[1] == 0x31 && b[2] == 0xD2 {
      cpu.Put(R10, 0);
      cpu.Advance(3);
      return Continue;
    }
    if b[0] == 0x43 && b[1] == 0x8A && b[2] == 0x44 && b[3] == 0x01 && b[4] == 0xFF {
      var v := ReadByte(base, mem, Wrap64(c.r9 + c.r8 - 1));
      if v == None {
        return Stopped(AddressOutOfRange);
      }
      LowByteReplaced(c.rax, v.value);
      cpu.Put(RAX, Or64(And64(c.rax, Not64(0xff)), v.value));
      cpu.Advance(5);
      return Continue;
    }
    return Stopped(UnsupportedInstruction(c.rip, b));
  }

  /** Register moves with prefix 4C. */
  method ExecMovWR(cpu: Cpu, base: u64, mem: array<byte>, ghost i: nat, b: window, reply: Reply) returns (r: Control)
    requires Fetched(base, mem[..], cpu.State().rip, i, b)
    requires b[0] == 0x4C && b[1] != 0x8D
    modifies cpu, mem
    ensures Ends(r, old(Current(cpu, mem)), Current(cpu, mem),
                 Carry(base, old(Current(cpu, mem)), i, b, Decode(b), reply))
  {
    hide Cpu.State, Set, Window, Imm32, ReadU64, ReadU32, ReadU8, WriteWord, PushU64, PopU64, Or64, And64,
         HandleSyscall, DecodeRexW, DecodeMovW, DecodeLeaW, DecodeRexOther, DecodeLoad32, DecodeStore32,
         DecodePlain, Load, Store, Branch;
    var c := cpu.State();
    if b[0] == 0x4C && b[1] == 0x89 && b[2] == 0xC2 {
      cpu.Put(RDX, c.r8);
      cpu.Advance(3);
      return Continue;
    }
    if b[0] == 0x4C && b[1] == 0x89 && b[2] == 0xCE {
      cpu.Put(RSI, c.r9);
      cpu.Advance(3);
      return Continue;
    }
    return Stopped(UnsupportedInstruction(c.rip, b));
  }

  /** Arms 4C 8D with a register base. */
  method ExecLeaWR(cpu: Cpu, base: u64, mem: array<byte>, ghost i: nat, b: window, reply: Reply) returns (r: Control)
    requires Fetched(base, mem[..], cpu.State().rip, i, b)
    requires b[0] == 0x4C && b[1] == 0x8D && b[2] != 0x05 && b[2] != 0x0D
    modifies cpu, mem
    ensures Ends(r, old(Current(cpu, mem)), Current(cpu, mem),
                 Carry(base, old(Current(cpu, mem)), i, b, Decode(b), reply))
  {
    hide Cpu.State, Set, Window, Imm32, ReadU64, ReadU32, ReadU8, WriteWord, PushU64, PopU64, Or64, And64,
         HandleSyscall, DecodeRexW, DecodeMovW, DecodeLeaW, DecodeRexOther, DecodeLoad32, DecodeStore32,
         DecodePlain, Load, Store, Branch;
    var c := cpu.State();
    if b[0] == 0x4C && b[1] == 0x8D {
      var mode, reg, rm := b[2] / 64, b[2] / 8 % 8, b[2] % 8;
      if mode == 1 && rm != 4 {
        var at := Wrap64(Get(c, GeneralReg(rm)) + Signed8(b[3]));
        match reg {
          case 0 => cpu.Put(R8, at);
          case 1 => cpu.Put(R9, at);
          case _ =>
        }
        cpu.Advance(4);
        return Continue;
      }
    }
    if b[0] == 0x4C && b[1] == 0x8D && b[2] == 0x4C && b[3] == 0x24 {
      cpu.Put(R9, Wrap64(c.rsp + Signed8(b[4])));
      cpu.Advance(5);
      return Continue;
    }
    return Stopped(UnsupportedInstruction(c.rip, b));
  }

  /** Arms 4C 8D relative to rip. */
  method ExecRipWR(cpu: Cpu, base: u64, mem: array<byte>, ghost i: nat, b: window, reply: Reply) returns (r: Control)
    requires Fetched(base, mem[..], cpu.State().rip, i, b)
    requires b[0] == 0x4C && b[1] == 0x8D && (b[2] == 0x05 || b[2] == 0x0D)
    modifies cpu, mem
    ensures Ends(r, old(Current(cpu, mem)), Current(cpu, mem),
                 Carry(base, old(Current(cpu, mem)), i, b, Decode(b), reply))
  {
    hide Cpu.State, Set, Window, Imm32, ReadU64, ReadU32, ReadU8, WriteWord, PushU64, PopU64, Or64, And64,
         HandleSyscall, DecodeRexW, DecodeMovW, DecodeLeaW, DecodeRexOther, DecodeLoad32, DecodeStore32,
         DecodePlain, Load, Store, Branch;
    var c := cpu.State();
    if b[0] == 0x4C && b[1] == 0x8D && b[2] == 0x05 {
      var disp := FetchImm(base, mem, c.rip, i, b, 3);
      if disp == None {
        return Stopped(AddressOutOfRange);
      }
      var next := Wrap64(c.rip + 7);
      cpu.Put(R8, Wrap64(next + Signed32(disp.value)));
      cpu.Jump(next);
      return Continue;
    }
    if b[0] == 0x4C && b[1] == 0x8D && b[2] == 0x0D {
      var disp := FetchImm(base, mem, c.rip, i, b, 3);
      if disp == None {
        return Stopped(AddressOutOfRange);
      }
      var next := Wrap64(c.rip + 7);
      cpu.Put(R9, Wrap64(next + Signed32(disp.value)));
      cpu.Jump(next);
      return Continue;
    }
    return Stopped(UnsupportedInstruction(c.rip, b));
  }

  /** The 32-bit load itself, once its address is known. */
  method LoadInto(cpu: Cpu, base: u64, mem: array<byte>, at: u64, reg: int, len: nat) returns (r: Control)
    modifies cpu
    ensures match ReadU32(base, mem[..], at)
            case None => r == Stopped(AddressOutOfRange) && cpu.State() == old(cpu.State())
            case Some(v) => r == Continue && cpu.State() == SetIf(old(cpu.State()), LoadTarget(reg), v).(
                                                             rip := Wrap64(old(cpu.State()).rip + len))
  {
    hide Cpu.State, ReadU32;
    var v := Read4(base, mem, at);
    if v == None {
      return Stopped(AddressOutOfRange);
    }
    match reg {
      case 0 => cpu.Put(RAX, v.value);
      case 1 => cpu.Put(RCX, v.value);
      case 2 => cpu.Put(RDX, v.value);
      case 6 => cpu.Put(RSI, v.value);
      case 7 => cpu.Put(RDI, v.value);
      case _ =>
    }
    cpu.Advance(len);
    return Continue;
  }

  /** Arm 8B. */
  method ExecLoad32(cpu: Cpu, base: u64, mem: array<byte>, ghost i: nat, b: window, reply: Reply) returns (r: Control)
    requires Fetched(base, mem[..], cpu.State().rip, i, b)
    requires b[0] == 0x8B
    modifies cpu, mem
    ensures Ends(r, old(Current(cpu, mem)), Current(cpu, mem),
                 Carry(base, old(Current(cpu, mem)), i, b, Decode(b), reply))
  {
    hide Cpu.State, Set, Window, Imm32, ReadU64, ReadU32, ReadU8, WriteWord, PushU64, PopU64, Or64, And64,
         HandleSyscall, DecodeRexW, DecodeMovW, DecodeLeaW, DecodeRexWR, DecodeRexOther, DecodeStore32,
         DecodePlain, Compute, Store, Branch;
    var c := cpu.State();
    if b[0] == 0x8B {
      var mode, reg, rm := b[1] / 64, b[1] / 8 % 8, b[1] % 8;
      if rm != 4 {
        var at: Option<u64> := None;
        if mode == 0 {
          if rm != 5 {
            at := Some(Get(c, GeneralReg(rm)));
          }
        } else if mode == 1 {
          at := Some(Wrap64(Get(c, GeneralReg(rm)) + Signed8(b[2])));
        }
        if at.Some? {
          r := LoadInto(cpu, base, mem, at.value, reg, if mode == 1 then 3 else 2);
          return;
        }
      }
    }
    return Stopped(UnsupportedInstruction(c.rip, b));
  }

  /** Arm C7. */
  method ExecStore32(cpu: Cpu, base: u64, mem: array<byte>, ghost i: nat, b: window, reply: Reply) returns (r: Control)
    requires Fetched(base, mem[..], cpu.State().rip, i, b)
    requires b[0] == 0xC7
    modifies cpu, mem
    ensures Ends(r, old(Current(cpu, mem)), Current(cpu, mem),
                 Carry(base, old(Current(cpu, mem)), i, b, Decode(b), reply))
  {
    hide Cpu.State, Set, Window, Imm32, ReadU64, ReadU32, ReadU8, WriteWord, PushU64, PopU64, Or64, And64,
         HandleSyscall, DecodeRexW, DecodeMovW, DecodeLeaW, DecodeRexWR, DecodeRexOther, DecodeLoad32,
         DecodePlain, Compute, Load, Branch;
    var c := cpu.State();
    var ok: bool;
    if b[0] == 0xC7 {
      var mode, reg, rm := b[1] / 64, b[1] / 8 % 8, b[1] % 8;
      if reg == 0 {
        if mode == 1 && rm != 4 {
          var at := Wrap64(Get(c, GeneralReg(rm)) + Signed8(b[2]));
          var imm := FetchImm(base, mem, c.rip, i, b, 3);
          if imm == None {
            return Stopped(AddressOutOfRange);
          }
          ok := Write(base, mem, at, 4, imm.value);
          if !ok {
            return Stopped(AddressOutOfRange);
          }
          cpu.Advance(7);
          return Continue;
        }
        if mode == 1 && rm == 4 && b[2] == 0x24 {
          var at := Wrap64(c.rsp + Signed8(b[3]));
          var imm := FetchImm(base, mem, c.rip, i, b, 4);
          if imm == None {
            return Stopped(AddressOutOfRange);
          }
          ok := Write(base, mem, at, 4, imm.value);
          if !ok {
            return Stopped(AddressOutOfRange);
          }
          cpu.Advance(8);
          return Continue;
        }
      }
    }
    return Stopped(UnsupportedInstruction(c.rip, b));
  }

  /** System calls. */
  method ExecSyscall(cpu: Cpu, base: u64, mem: array<byte>, ghost i: nat, b: window, reply: Reply) returns (r: Control)
    requires Fetched(base, mem[..], cpu.State().rip, i, b)
    requires b[0] == 0x0F
    modifies cpu, mem
    ensures Ends(r, old(Current(cpu, mem)), Current(cpu, mem),
                 Carry(base, old(Current(cpu, mem)), i, b, Decode(b), reply))
  {
    hide Cpu.State, Set, Window, Imm32, ReadU64, ReadU32, ReadU8, WriteWord, PushU64, PopU64, Or64, And64,
         HandleSyscall, DecodeRexW, DecodeMovW, DecodeLeaW, DecodeRexWR, DecodeRexOther, DecodeLoad32,
         DecodeStore32, Compute, Load, Store, Branch;
    var c := cpu.State();
    if b[0] == 0x0F && b[1] == 0x05 {
      r := HandleSyscallIn(base, mem, cpu, reply);
      if r.Stopped? {
        return;
      }
      cpu.Advance(2);
      return;
    }
    return Stopped(UnsupportedInstruction(c.rip, b));
  }

  /** Arm E8. */
  method ExecCall(cpu: Cpu, base: u64, mem: array<byte>, ghost i: nat, b: window, reply: Reply) returns (r: Control)
    requires Fetched(base, mem[..], cpu.State().rip, i, b)
    requires b[0] == 0xE8
    modifies cpu, mem
    ensures Ends(r, old(Current(cpu, mem)), Current(cpu, mem),
                 Carry(base, old(Current(cpu, mem)), i, b, Decode(b), reply))
  {
    hide Cpu.State, Set, Window, Imm32, ReadU64, ReadU32, ReadU8, WriteWord, PushU64, PopU64, Or64, And64,
         HandleSyscall, DecodeRexW, DecodeMovW, DecodeLeaW, DecodeRexWR, DecodeRexOther, DecodeLoad32,
         DecodeStore32, Compute, Load, Store;
    var c := cpu.State();
    var ok: bool;
    if b[0] == 0xE8 {
      var rel := FetchImm(base, mem, c.rip, i, b, 1);
      if rel == None {
        return Stopped(AddressOutOfRange);
      }
      var next := Wrap64(c.rip + 5);
      ok := PushWord(base, mem, cpu, next);
      if !ok {
        return Stopped(AddressOutOfRange);
      }
      cpu.Jump(Wrap64(next + Signed32(rel.value)));
      return Continue;
    }
    return Stopped(UnsupportedInstruction(c.rip, b));
  }

  /** The indirect call once its target is known: a target outside memory gives way to a usable rdi. */
  method CallThrough(cpu: Cpu, base: u64, mem: array<byte>, target: u64, next: u64) returns (r: Control)
    modifies cpu, mem
    ensures var before := old(Current(cpu, mem));
            var end := Wrap64(base + mem.Length);
            Ends(r, before, Current(cpu, mem),
                 if !(base <= target < end) && base <= before.cpu.rdi < end
                 then Running(before.(cpu := before.cpu.(rip := before.cpu.rdi)))
                 else PushAnd(base, before, next, target))
  {
    hide Cpu.State, PushU64;
    var rdi := cpu.State().rdi;
    if target < base || target >= Wrap64(base + mem.Length) {
      if rdi >= base && rdi < Wrap64(base + mem.Length) {
        cpu.Jump(rdi);
        return Continue;
      }
    }
    var ok := PushWord(base, mem, cpu, next);
    if !ok {
      return Stopped(AddressOutOfRange);
    }
    cpu.Jump(target);
    return Continue;
  }

  /** Arm FF 15. */
  method ExecCallInd(cpu: Cpu, base: u64, mem: array<byte>, ghost i: nat, b: window, reply: Reply) returns (r: Control)
    requires Fetched(base, mem[..], cpu.State().rip, i, b)
    requires b[0] == 0xFF
    modifies cpu, mem
    ensures Ends(r, old(Current(cpu, mem)), Current(cpu, mem),
                 Carry(base, old(Current(cpu, mem)), i, b, Decode(b), reply))
  {
    hide Cpu.State, Set, Window, Imm32, ReadU64, ReadU32, ReadU8, WriteWord, PushU64, PopU64, Or64, And64,
         HandleSyscall, DecodeRexW, DecodeMovW, DecodeLeaW, DecodeRexWR, DecodeRexOther, DecodeLoad32,
         DecodeStore32, Compute, Load, Store;
    var c := cpu.State();
    if b[0] == 0xFF && b[1] == 0x15 {
      var disp := FetchImm(base, mem, c.rip, i, b, 2);
      if disp == None {
        return Stopped(AddressOutOfRange);
      }
      var next := Wrap64(c.rip + 6);
      var target := Read8(base, mem, Wrap64(next + Signed32(disp.value)));
      if target == None {
        return Stopped(AddressOutOfRange);
      }
      r := CallThrough(cpu, base, mem, target.value, next);
      return;
    }
    return Stopped(UnsupportedInstruction(c.rip, b));
  }

  /** Jumps. */
  method ExecJump(cpu: Cpu, base: u64, mem: array<byte>, ghost i: nat, b: window, reply: Reply) returns (r: Control)
    requires Fetched(base, mem[..], cpu.State().rip, i, b)
    requires b[0] in JUMPS
    modifies cpu, mem
    ensures Ends(r, old(Current(cpu, mem)), Current(cpu, mem),
                 Carry(base, old(Current(cpu, mem)), i, b, Decode(b), reply))
  {
    hide Cpu.State, Set, Window, Imm32, ReadU64, ReadU32, ReadU8, WriteWord, PushU64, PopU64, Or64, And64,
         HandleSyscall, DecodeRexW, DecodeMovW, DecodeLeaW, DecodeRexWR, DecodeRexOther, DecodeLoad32,
         DecodeStore32, Compute, Load, Store;
    var c := cpu.State();
    if b[0] == 0xE9 {
      var rel := FetchImm(base, mem, c.rip, i, b, 1);
      if rel == None {
        return Stopped(AddressOutOfRange);
      }
      var next := Wrap64(c.rip + 5);
      cpu.Jump(Wrap64(next + Signed32(rel.value)));
      return Continue;
    }
    r := ExecShortJump(cpu, base, mem, i, b, reply);
  }

  /** Jumps by one byte. */
  method ExecShortJump(
    cpu: Cpu, base: u64, mem: array<byte>, ghost i: nat, b: window, reply: Reply) returns (r: Control)
    requires Fetched(base, mem[..], cpu.State().rip, i, b)
    requires b[0] in JUMPS && b[0] != 0xE9
    modifies cpu, mem
    ensures Ends(r, old(Current(cpu, mem)), Current(cpu, mem),
                 Carry(base, old(Current(cpu, mem)), i, b, Decode(b), reply))
  {
    hide Cpu.State, Set, Window, Imm32, ReadU64, ReadU32, ReadU8, WriteWord, PushU64, PopU64, Or64, And64,
         HandleSyscall, DecodeRexW, DecodeMovW, DecodeLeaW, DecodeRexWR, DecodeRexOther, DecodeLoad32,
         DecodeStore32, Compute, Load, Store;
    var c := cpu.State();
    if b[0] == 0xEB {
      var next := Wrap64(c.rip + 2);
      cpu.Jump(Wrap64(next + Signed8(b[1])));
      return Continue;
    }
    if b[0] == 0x74 {
      var next := Wrap64(c.rip + 2);
      cpu.Jump(if c.zf then Wrap64(next + Signed8(b[1])) else next);
      return Continue;
    }
    return Stopped(UnsupportedInstruction(c.rip, b));
  }

  /** One-byte pushes. */
  method ExecPush(cpu: Cpu, base: u64, mem: array<byte>, ghost i: nat, b: window, reply: Reply) returns (r: Control)
    requires Fetched(base, mem[..], cpu.State().rip, i, b)
    requires b[0] in PUSHES
    modifies cpu, mem
    ensures Ends(r, old(Current(cpu, mem)), Current(cpu, mem),
                 Carry(base, old(Current(cpu, mem)), i, b, Decode(b), reply))
  {
    hide Cpu.State, Set, Window, Imm32, ReadU64, ReadU32, ReadU8, WriteWord, PushU64, PopU64, Or64, And64,
         HandleSyscall, DecodeRexW, DecodeMovW, DecodeLeaW, DecodeRexWR, DecodeRexOther, DecodeLoad32,
         DecodeStore32, Compute, Load, Branch;
    var c := cpu.State();
    var ok: bool;
    if b[0] == 0x53 {
      ok := PushWord(base, mem, cpu, c.rbx);
      if !ok {
        return Stopped(AddressOutOfRange);
      }
      cpu.Advance(1);
      return Continue;
    }
    if b[0] == 0x55 {
      ok := PushWord(base, mem, cpu, c.rbp);
      if !ok {
        return Stopped(AddressOutOfRange);
      }
      cpu.Advance(1);
      return Continue;
    }
    r := ExecPushRax(cpu, base, mem, i, b, reply);
  }

  /** Pushes of rax and rsp. */
  method ExecPushRax(cpu: Cpu, base: u64, mem: array<byte>, ghost i: nat, b: window, reply: Reply) returns (r: Control)
    requires Fetched(base, mem[..], cpu.State().rip, i, b)
    requires b[0] in {0x50, 0x54}
    modifies cpu, mem
    ensures Ends(r, old(Current(cpu, mem)), Current(cpu, mem),
                 Carry(base, old(Current(cpu, mem)), i, b, Decode(b), reply))
  {
    hide Cpu.State, Set, Window, Imm32, ReadU64, ReadU32, ReadU8, WriteWord, PushU64, PopU64, Or64, And64,
         HandleSyscall, DecodeRexW, DecodeMovW, DecodeLeaW, DecodeRexWR, DecodeRexOther, DecodeLoad32,
         DecodeStore32, Compute, Load, Branch;
    var c := cpu.State();
    var ok: bool;
    if b[0] == 0x50 {
      ok := PushWord(base, mem, cpu, c.rax);
      if !ok {
        return Stopped(AddressOutOfRange);
      }
      cpu.Advance(1);
      return Continue;
    }
    if b[0] == 0x54 {
      ok := PushWord(base, mem, cpu, c.rsp);
      if !ok {
        return Stopped(AddressOutOfRange);
      }
      cpu.Advance(1);
      return Continue;
    }
    return Stopped(UnsupportedInstruction(c.rip, b));
  }

  /** One-byte pops, ret and hlt. */
  method ExecStack(cpu: Cpu, base: u64, mem: array<byte>, ghost i: nat, b: window, reply: Reply) returns (r: Control)
    requires Fetched(base, mem[..], cpu.State().rip, i, b)
    requires b[0] in POPS
    modifies cpu, mem
    ensures Ends(r, old(Current(cpu, mem)), Current(cpu, mem),
                 Carry(base, old(Current(cpu, mem)), i, b, Decode(b), reply))
  {
    hide Cpu.State, Set, Window, Imm32, ReadU64, ReadU32, ReadU8, WriteWord, PushU64, PopU64, Or64, And64,
         HandleSyscall, DecodeRexW, DecodeMovW, DecodeLeaW, DecodeRexWR, DecodeRexOther, DecodeLoad32,
         DecodeStore32, Compute, Store;
    var c := cpu.State();
    var word: Option<u64>;
    if b[0] == 0xC3 || b[0] == 0xF4 {
      return Halted;
    }
    if b[0] == 0x5B {
      word := PopWord(base, mem, cpu);
      if word == None {
        return Stopped(AddressOutOfRange);
      }
      cpu.Put(RBX, word.value);
      cpu.Advance(1);
      return Continue;
    }
    if b[0] == 0x5D {
      word := PopWord(base, mem, cpu);
      if word == None {
        return Stopped(AddressOutOfRange);
      }
      cpu.Put(RBP, word.value);
      cpu.Advance(1);
      return Continue;
    }
    if b[0] == 0x5E {
      word := PopWord(base, mem, cpu);
      if word == None {
        return Stopped(AddressOutOfRange);
      }
      cpu.Put(RSI, word.value);
      cpu.Advance(1);
      return Continue;
    }
    return Stopped(UnsupportedInstruction(c.rip, b));
  }

  /** Arms 31. */
  method ExecZero(cpu: Cpu, base: u64, mem: array<byte>, ghost i: nat, b: window, reply: Reply) returns (r: Control)
    requires Fetched(base, mem[..], cpu.State().rip, i, b)
    requires b[0] == 0x31
    modifies cpu, mem
    ensures Ends(r, old(Current(cpu, mem)), Current(cpu, mem),
                 Carry(base, old(Current(cpu, mem)), i, b, Decode(b), reply))
  {
    hide Cpu.State, Set, Window, Imm32, ReadU64, ReadU32, ReadU8, WriteWord, PushU64, PopU64, Or64, And64,
         HandleSyscall, DecodeRexW, DecodeMovW, DecodeLeaW, DecodeRexWR, DecodeRexOther, DecodeLoad32,
         DecodeStore32, Load, Store, Branch;
    var c := cpu.State();
    if b[0] == 0x31 && b[1] == 0xED {
      cpu.Put(RBP, 0);
      cpu.Advance(2);
      return Continue;
    }
    if b[0] == 0x31 && b[1] == 0xC9 {
      cpu.Put(RCX, 0);
      cpu.Advance(2);
      return Continue;
    }
    if b[0] == 0x31 && b[1] == 0xD2 {
      cpu.Put(RDX, 0);
      cpu.Advance(2);
      return Continue;
    }
    if b[0] == 0x31 && b[1] == 0xC0 {
      cpu.Put(RAX, 0);
      cpu.Advance(2);
      return Continue;
    }
    if b[0] == 0x31 && b[1] == 0xFF {
      cpu.Put(RDI, 0);
      cpu.Advance(2);
      return Continue;
    }
    return Stopped(UnsupportedInstruction(c.rip, b));
  }

  /** All remaining arms. */
  method ExecPlain(cpu: Cpu, base: u64, mem: array<byte>, ghost i: nat, b: window, reply: Reply) returns (r: Control)
    requires Fetched(base, mem[..], cpu.State().rip, i, b)
    requires b[0] !in REX && b[0] !in {0x8B, 0xC7, 0x31, 0x0F, 0xE8, 0xFF} && b[0] !in JUMPS && b[0] !in PUSHES
             && b[0] !in POPS
    modifies cpu, mem
    ensures Ends(r, old(Current(cpu, mem)), Current(cpu, mem),
                 Carry(base, old(Current(cpu, mem)), i, b, Decode(b), reply))
  {
    hide Cpu.State, Set, Window, Imm32, ReadU64, ReadU32, ReadU8, WriteWord, PushU64, PopU64, Or64, And64,
         HandleSyscall, DecodeRexW, DecodeMovW, DecodeLeaW, DecodeRexWR, DecodeRexOther, DecodeLoad32,
         DecodeStore32, Load, Store, Branch;
    var c := cpu.State();
    if b[0] == 0xF3 && b[1] == 0x0F && b[2] == 0x1E && b[3] == 0xFA {
      cpu.Advance(4);
      return Continue;
    }
    if b[0] == 0x90 {
      cpu.Advance(1);
      return Continue;
    }
    if b[0] == 0x3C {
      var lhs, rhs := c.rax % TWO8, b[1];
      cpu.SetFlags(lhs == rhs, (lhs - rhs) % TWO8 >= 0x80);
      cpu.Advance(2);
      return Continue;
    }
    r := ExecImm(cpu, base, mem, i, b, reply);
  }

  /** Arms B8 to BF. */
  method ExecImm(cpu: Cpu, base: u64, mem: array<byte>, ghost i: nat, b: window, reply: Reply) returns (r: Control)
    requires Fetched(base, mem[..], cpu.State().rip, i, b)
    requires b[0] !in REX && b[0] !in {0x8B, 0xC7, 0x31, 0x0F, 0xE8, 0xFF} && b[0] !in JUMPS && b[0] !in PUSHES
             && b[0] !in POPS
    requires b[0] !in {0x90, 0x3C} && !(b[0] == 0xF3 && b[1] == 0x0F && b[2] == 0x1E && b[3] == 0xFA)
    modifies cpu, mem
    ensures Ends(r, old(Current(cpu, mem)), Current(cpu, mem),
                 Carry(base, old(Current(cpu, mem)), i, b, Decode(b), reply))
  {
    hide Cpu.State, Set, Window, Imm32, ReadU64, ReadU32, ReadU8, WriteWord, PushU64, PopU64, Or64, And64,
         HandleSyscall, DecodeRexW, DecodeMovW, DecodeLeaW, DecodeRexWR, DecodeRexOther, DecodeLoad32,
         DecodeStore32, Load, Store, Branch;
    var c := cpu.State();
    if 0xB8 <= b[0] <= 0xBF {
      var imm := FetchImm(base, mem, c.rip, i, b, 1);
      if imm == None {
        return Stopped(AddressOutOfRange);
      }
      match b[0] - 0xB8 {
        case 0 => cpu.Put(RAX, imm.value);
        case 1 => cpu.Put(RCX, imm.value);
        case 2 => cpu.Put(RDX, imm.value);
        case 4 => cpu.Put(RSP, imm.value);
        case 5 => cpu.Put(RBP, imm.value);
        case 6 => cpu.Put(RSI, imm.value);
        case 7 => cpu.Put(RDI, imm.value);
        case _ =>
      }
      cpu.Advance(5);
      return Continue;
    }
    return Stopped(UnsupportedInstruction(c.rip, b));
  }

  /** The arms with prefix 48. */
  method ExecW(cpu: Cpu, base: u64, mem: array<byte>, ghost i: nat, b: window, reply: Reply) returns (r: Control)
    requires Fetched(base, mem[..], cpu.State().rip, i, b)
    requires b[0] == 0x48
    modifies cpu, mem
    ensures Ends(r, old(Current(cpu, mem)), Current(cpu, mem),
                 Carry(base, old(Current(cpu, mem)), i, b, Decode(b), reply))
  {
    hide Decode, Carry, Cpu.State;
    match b[1] {
      case 0x89 =>
        if b[2] == 0x7C {
          r := ExecTableW(cpu, base, mem, i, b, reply);
        } else {
          r := ExecMovW(cpu, base, mem, i, b, reply);
        }
      case 0x8B => r := ExecTableW(cpu, base, mem, i, b, reply);
      case 0x8D =>
        if b[2] == 0x3D || b[2] == 0x35 {
          r := ExecRipW(cpu, base, mem, i, b, reply);
        } else {
          r := ExecLeaW(cpu, base, mem, i, b, reply);
        }
      case 0x83 => r := ExecAluW(cpu, base, mem, i, b, reply);
      case 0x81 => r := ExecAlu4W(cpu, base, mem, i, b, reply);
      case 0xC7 => r := ExecImmW(cpu, base, mem, i, b, reply);
      case _ => r := ExecMiscW(cpu, base, mem, i, b, reply);
    }
  }

  /** One step. Arms that share no first opcode byte exclude each other; the others keep their order. */
  method ExecOne(cpu: Cpu, base: u64, mem: array<byte>, reply: Reply) returns (r: Control)
    requires Bounded(mem.Length)
    modifies cpu, mem
    ensures Ends(r, old(Current(cpu, mem)), Current(cpu, mem), Step(base, old(Current(cpu, mem)), reply))
  {
    hide Decode, Carry, Cpu.State;
    var rip := cpu.State().rip;
    var code := ReadBytes(base, mem, rip);
    if code == None {
      return Stopped(AddressOutOfRange);
    }
    var b := code.value;
    ghost var i := rip - base;
    match b[0] {
      case 0x48 => r := ExecW(cpu, base, mem, i, b, reply);
      case 0x4C =>
        if b[1] != 0x8D {
          r := ExecMovWR(cpu, base, mem, i, b, reply);
        } else if b[2] == 0x05 || b[2] == 0x0D {
          r := ExecRipWR(cpu, base, mem, i, b, reply);
        } else {
          r := ExecLeaWR(cpu, base, mem, i, b, reply);
        }
      case 0x41 => r := ExecRexB(cpu, base, mem, i, b, reply);
      case 0x49 => r := ExecRexWB(cpu, base, mem, i, b, reply);
      case 0x43 => r := ExecRexRB(cpu, base, mem, i, b, reply);
      case 0x45 => r := ExecRexRB(cpu, base, mem, i, b, reply);
      case 0x8B => r := ExecLoad32(cpu, base, mem, i, b, reply);
      case 0xC7 => r := ExecStore32(cpu, base, mem, i, b, reply);
      case 0x31 => r := ExecZero(cpu, base, mem, i, b, reply);
      case 0x0F => r := ExecSyscall(cpu, base, mem, i, b, reply);
      case 0xE8 => r := ExecCall(cpu, base, mem, i, b, reply);
      case 0xFF => r := ExecCallInd(cpu, base, mem, i, b, reply);
      case _ =>
        if b[0] in JUMPS {
          r := ExecJump(cpu, base, mem, i, b, reply);
        } else if b[0] in PUSHES {
          r := ExecPush(cpu, base, mem, i, b, reply);
        } else if b[0] in POPS {
          r := ExecStack(cpu, base, mem, i, b, reply);
        } else {
          r := ExecPlain(cpu, base, mem, i, b, reply);
        }
    }
  }
}
