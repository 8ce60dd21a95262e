/** What one instruction does to a machine, one step of the interpreter, and its bounded run.
    Plain additions on addresses wrap, as they do in a release build. */
module Execution {
  import opened Words
  import opened Bits
  import opened Memory
  import opened UserStrings
  import opened Instructions
  import Paths
  import Lfs

  const MAX_STEPS := 128 * 1024
  const MAX_STRINGS := 64

  const SYS_READ := 0
  const SYS_WRITE := 1
  const SYS_EXECVE := 59
  const SYS_EXIT := 60
  const SYS_EXIT_GROUP := 231
  const ENOENT := 2
  const ENOEXEC := 8
  const EFAULT := 14

  datatype RunError =
    | AddressOutOfRange
    | UnsupportedInstruction(rip: u64, code: window)
    | StepLimit(steps: nat, lastRip: u64)

  datatype Outcome = Running(m: Machine) | Finished(m: Machine) | Fault(e: RunError)

  /** What the rest of the kernel answers to a system call: the value for rax, the bytes a read
      delivers, the mounted image, and whether the program of an execve runs to completion. */
  datatype Reply = Reply(rax: u64, data: bytes, root: Option<bytes>, execed: bool)

  // ---------------------------------------------------------------- stack words

  function PushU64(base: u64, mem: bytes, sp: u64, v: u64): Option<(u64, bytes)> {
    if sp < 8 then None
    else match WriteWord(base, mem, sp - 8, 8, v)
    case None => None
    case Some(mem') => Some((sp - 8, mem'))
  }

  function PopU64(base: u64, mem: bytes, sp: u64): Option<(u64, u64)> {
    match ReadU64(base, mem, sp)
    case None => None
    case Some(v) => if sp + 8 >= TWO64 then None else Some((v, sp + 8))
  }

  // ---------------------------------------------------------------- system calls

  /** What a line read from the keyboard leaves in a buffer of cap bytes. */
  function Line(input: bytes, cap: nat): (l: bytes)
    ensures |l| <= cap
  {
    if cap == 0 || input == [] then []
    else
      var c := if input[0] == 13 then 10 else input[0];
      if c == 10 then [c] else [c] + Line(input[1..], cap - 1)
  }

  function Min(a: nat, b: nat): nat {
    if a < b then a else b
  }

  function SysRead(base: u64, m: Machine, reply: Reply): Outcome {
    match VaToIndex(base, |m.mem|, m.cpu.rsi)
    case None => Fault(AddressOutOfRange)
    case Some(start) =>
      var cap := Min(m.cpu.rdx, |m.mem| - start);
      if cap == 0 then Running(m.(cpu := m.cpu.(rax := 0)))
      else if m.cpu.rdi == 0 then
        var l := Line(reply.data, cap);
        Running(Machine(m.cpu.(rax := Wrap64(|l|)), Splice(m.mem, start, l)))
      else if reply.rax >= TWO63 then Running(m.(cpu := m.cpu.(rax := reply.rax)))
      else
        var got := reply.data[..Min(|reply.data|, Min(cap, 256))];
        Running(Machine(m.cpu.(rax := |got|), Splice(m.mem, start, got)))
  }

  function SysWrite(base: u64, m: Machine, reply: Reply): Outcome {
    match VaToIndex(base, |m.mem|, m.cpu.rsi)
    case None => Fault(AddressOutOfRange)
    case Some(start) =>
      if start + m.cpu.rdx > |m.mem| then Fault(AddressOutOfRange)
      else Running(m.(cpu := m.cpu.(rax := reply.rax)))
  }

  /** path denotes a file of the mounted image. */
  predicate ProgramExists(path: bytes, root: Option<bytes>) {
    match Paths.ExecName(path)
    case None => false
    case Some(name) => root.Some? && Lfs.Open(root.value, name).Ok?
  }

  function SysExecve(base: u64, m: Machine, reply: Reply): Outcome {
    match Cstr(base, m.mem, m.cpu.rdi)
    case None => Fault(AddressOutOfRange)
    case Some(None) => Running(m.(cpu := m.cpu.(rax := TWO64 - EFAULT)))
    case Some(Some(path)) =>
      if StrArray(base, m.mem, m.cpu.rsi, MAX_STRINGS) == None || StrArray(base, m.mem, m.cpu.rdx, MAX_STRINGS) == None
      then Fault(AddressOutOfRange)
      else if !ProgramExists(path, reply.root) then Running(m.(cpu := m.cpu.(rax := TWO64 - ENOENT)))
      else if reply.execed then Finished(m.(cpu := m.cpu.(rax := 0)))
      else Running(m.(cpu := m.cpu.(rax := TWO64 - ENOEXEC)))
  }

  function HandleSyscall(base: u64, m: Machine, reply: Reply): (o: Outcome)
    ensures !o.Fault? ==> o.m.cpu.rip == m.cpu.rip && |o.m.mem| == |m.mem|
  {
    if m.cpu.rax == SYS_READ then SysRead(base, m, reply)
    else if m.cpu.rax == SYS_WRITE then SysWrite(base, m, reply)
    else if m.cpu.rax == SYS_EXECVE then SysExecve(base, m, reply)
    else if m.cpu.rax == SYS_EXIT || m.cpu.rax == SYS_EXIT_GROUP then Finished(m.(cpu := m.cpu.(rax := 0)))
    else Running(m.(cpu := m.cpu.(rax := reply.rax)))
  }

  function AtRip(o: Outcome, rip: u64): Outcome {
    match o
    case Running(m) => Running(m.(cpu := m.cpu.(rip := rip)))
    case Finished(m) => Finished(m.(cpu := m.cpu.(rip := rip)))
    case Fault(e) => Fault(e)
  }

  // ---------------------------------------------------------------- instructions

  function Ea(c: CpuState, at: Reg, disp: int): u64 {
    Wrap64(Get(c, at) + disp)
  }

  /** The address rdx + rax * 8 + 8. */
  function TableEa(c: CpuState): u64 {
    Wrap64(c.rdx + c.rax * 8 + 8)
  }

  function AluResult(op: AluOp, cur: u64, imm: int): u64 {
    match op
    case Add => Wrap64(cur + imm)
    case Or => Or64(cur, Wrap64(imm))
    case Sub => Wrap64(cur - imm)
  }

  /** Stores the n low bytes of v at va and goes on at rip. */
  function StoreAt(base: u64, m: Machine, va: u64, n: nat, v: nat, rip: u64): Outcome {
    match WriteWord(base, m.mem, va, n, v)
    case None => Fault(AddressOutOfRange)
    case Some(mem') => Running(Machine(m.cpu.(rip := rip), mem'))
  }

  /** Pushes v and goes on at rip. */
  function PushAnd(base: u64, m: Machine, v: u64, rip: u64): Outcome {
    match PushU64(base, m.mem, m.cpu.rsp, v)
    case None => Fault(AddressOutOfRange)
    case Some(p) => Running(Machine(m.cpu.(rsp := p.0).(rip := rip), p.1))
  }

  /** The registers, rip aside, after an instruction that touches neither memory nor the flow of control. */
  function Compute(c: CpuState, i: Instr, next: u64): CpuState {
    match i
    case Mov(dst, src) => Set(c, dst, Get(c, src))
    case Zero(dst) => Set(c, dst, 0)
    case SignExtendEsi => Set(c, RAX, Wrap64(Signed32(c.rsi % TWO32)))
    case LeaTable => Set(c, RDI, TableEa(c))
    case Alu(op, dst, imm) => Set(c, dst, AluResult(op, Get(c, dst), imm))
    case AndRsp(imm) => Set(c, RSP, And64(c.rsp, Wrap64(imm)))
    case Lea(to, at, disp) => SetIf(c, to, Ea(c, at, disp))
    case LeaRip(dst, disp) => Set(c, dst, Wrap64(next + disp))
    case Test(src) => c.(zf := Get(c, src) == 0, sf := Get(c, src) >= TWO63)
    case MoveIfNotSign => if c.sf then c else Set(c, RDX, c.rax)
    case CmpAl(imm) => c.(zf := c.rax % TWO8 == imm, sf := (c.rax % TWO8 - imm) % TWO8 >= 0x80)
    case MovImm(to, word) => SetIf(c, to, word)
    case _ => c
  }

  /** The registers, rip aside, after an instruction that reads memory; None when the read fails. */
  function Load(base: u64, mem: bytes, c: CpuState, i: Instr): Option<CpuState> {
    match i
    case Pop(dst) =>
      (match PopU64(base, mem, c.rsp)
       case None => None
       case Some(p) => Some(Set(c.(rsp := p.1), dst, p.0)))
    case LoadTable => Loaded(c, ReadU64(base, mem, TableEa(c)), Some(RDI))
    case Load32(to, at, disp) => Loaded(c, ReadU32(base, mem, Ea(c, at, disp)), to)
    case Load64(dst, at) => Loaded(c, ReadU64(base, mem, Get(c, at)), Some(dst))
    case _ =>
      (match ReadU8(base, mem, Wrap64(c.r9 + c.r8 - 1))
       case None => None
       case Some(v) => Some(Set(c, RAX, c.rax - c.rax % TWO8 + v)))
  }

  function Loaded(c: CpuState, v: Option<u64>, to: Option<Reg>): Option<CpuState> {
    match v
    case None => None
    case Some(w) => Some(SetIf(c, to, w))
  }

  function Store(base: u64, m: Machine, i: Instr, next: u64): Outcome {
    match i
    case Push(src) => PushAnd(base, m, Get(m.cpu, src), next)
    case Store32(at, disp, word) => StoreAt(base, m, Ea(m.cpu, at, disp), 4, word, next)
    case _ => StoreAt(base, m, TableEa(m.cpu), 8, m.cpu.rdi, next)
  }

  function Branch(base: u64, m: Machine, i: Instr, next: u64): Outcome {
    var c := m.cpu;
    match i
    case Call(rel) => PushAnd(base, m, next, Wrap64(next + rel))
    case Jump(rel) => Running(m.(cpu := c.(rip := Wrap64(next + rel))))
    case JumpIfZero(rel) => Running(m.(cpu := c.(rip := if c.zf then Wrap64(next + rel) else next)))
    case CallIndirect(disp) =>
      (match ReadU64(base, m.mem, Wrap64(next + disp))
       case None => Fault(AddressOutOfRange)
       case Some(target) =>
         if !(base <= target < Wrap64(base + |m.mem|)) && base <= c.rdi < Wrap64(base + |m.mem|)
         then Running(m.(cpu := c.(rip := c.rdi)))
         else PushAnd(base, m, next, target))
    case _ => Finished(m)
  }

  datatype Kind = Computes | Loads | Stores | Branches | Traps

  function KindOf(i: Instr): Kind {
    match i
    case Pop(_) => Loads
    case LoadTable => Loads
    case Load32(_, _, _) => Loads
    case Load64(_, _) => Loads
    case LoadAl => Loads
    case Push(_) => Stores
    case StoreTable => Stores
    case Store32(_, _, _) => Stores
    case Stop => Branches
    case Call(_) => Branches
    case Jump(_) => Branches
    case JumpIfZero(_) => Branches
    case CallIndirect(_) => Branches
    case Syscall => Traps
    case _ => Computes
  }

  /** The effect of instruction i, where next is the address after it. */
  function Execute(base: u64, m: Machine, i: Instr, next: u64, reply: Reply): Outcome {
    match KindOf(i)
    case Computes => Running(m.(cpu := Compute(m.cpu, i, next).(rip := next)))
    case Loads =>
      (match Load(base, m.mem, m.cpu, i)
       case None => Fault(AddressOutOfRange)
       case Some(c) => Running(m.(cpu := c.(rip := next))))
    case Stores => Store(base, m, i, next)
    case Branches => Branch(base, m, i, next)
    case Traps => AtRip(HandleSyscall(base, m, reply), next)
  }

  /** The eight bytes at index i, zero where memory ends. */
  function Window(mem: bytes, i: nat): window {
    seq(8, k => if 0 <= k && i + k < |mem| then mem[i + k] else 0)
  }

  /** The immediate in the last four of len bytes at rip, which is index i, can be read: they are in memory and
      its address does not wrap. */
  predicate ImmediateIn(rip: u64, i: nat, len: nat, memLen: nat) {
    i + len <= memLen && rip + len - 4 < TWO64
  }

  /** What happens once the window b at index i has been decoded as d. */
  function Carry(base: u64, m: Machine, i: nat, b: window, d: Decoded, reply: Reply): Outcome {
    match d
    case Unknown(full) =>
      if full && !ImmediateIn(m.cpu.rip, i, 7, |m.mem|) then Fault(AddressOutOfRange)
      else Fault(UnsupportedInstruction(m.cpu.rip, b))
    case Op(instr, len, full) =>
      if full && !ImmediateIn(m.cpu.rip, i, len, |m.mem|) then Fault(AddressOutOfRange)
      else Execute(base, m, instr, Wrap64(m.cpu.rip + len), reply)
  }

  /** One turn of the interpreter. */
  function Step(base: u64, m: Machine, reply: Reply): Outcome {
    match VaToIndex(base, |m.mem|, m.cpu.rip)
    case None => Fault(AddressOutOfRange)
    case Some(i) => Carry(base, m, i, Window(m.mem, i), Decode(Window(m.mem, i)), reply)
  }
}
