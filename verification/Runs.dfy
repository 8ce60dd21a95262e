/** Whole runs of the interpreter: how they end, what a step may change, straight-line code,
    and the user stack as a stack. */
module Runs {
  import opened Words
  import UserStrings
  import opened Memory
  import opened Instructions
  import opened Execution
  import opened Interpreter

  // ---------------------------------------------------------------- the bounded run

  datatype RunResult = Done(m: Machine) | Failed(e: RunError, m: Machine)

  function Run(base: u64, m: Machine, k: nat, limit: nat, replies: nat -> Reply): RunResult
    decreases limit - k, |m.mem|
  {
    if k >= limit then Failed(StepLimit(limit, m.cpu.rip), m)
    else match Step(base, m, replies(k))
    case Running(m') => Run(base, m', k + 1, limit, replies)
    case Finished(m') => Done(m')
    case Fault(e) => Failed(e, m)
  }

  /** The step loop of `run_linux_elf_with_args`. */
  method RunLoop(cpu: Cpu, base: u64, mem: array<byte>, replies: nat -> Reply) returns (r: Option<RunError>)
    requires Bounded(mem.Length)
    modifies cpu, mem
    ensures Run(base, old(Current(cpu, mem)), 0, MAX_STEPS, replies) ==
            if r == None then Done(Current(cpu, mem)) else Failed(r.value, Current(cpu, mem))
  {
    hide Step, Cpu.State;
    for k := 0 to MAX_STEPS
      invariant Run(base, old(Current(cpu, mem)), 0, MAX_STEPS, replies) ==
                Run(base, Current(cpu, mem), k, MAX_STEPS, replies)
    {
      var control := ExecOne(cpu, base, mem, replies(k));
      if control.Halted? {
        return None;
      }
      if control.Stopped? {
        return Some(control.e);
      }
    }
    return Some(StepLimit(MAX_STEPS, cpu.State().rip));
  }

  /** The first n steps of a run, counted from step k; a step that does not run on ends them. */
  function Steps(base: u64, m: Machine, n: nat, k: nat, replies: nat -> Reply): Outcome
    decreases n, |m.mem|
  {
    if n == 0 then Running(m)
    else match Step(base, m, replies(k))
    case Running(m') => Steps(base, m', n - 1, k + 1, replies)
    case Finished(m') => Finished(m')
    case Fault(e) => Fault(e)
  }

  lemma {:induction false} RunAfterSteps(base: u64, m: Machine, n: nat, k: nat, limit: nat, replies: nat -> Reply)
    requires k + n <= limit && Steps(base, m, n, k, replies).Running?
    ensures Run(base, m, k, limit, replies) == Run(base, Steps(base, m, n, k, replies).m, k + n, limit, replies)
    decreases n
  {
    hide Step;
    if n > 0 {
      RunAfterSteps(base, Step(base, m, replies(k)).m, n - 1, k + 1, limit, replies);
    }
  }

  /** Step number k + n ends the run and does not run on. */
  predicate EndsAfter(base: u64, m: Machine, n: nat, k: nat, replies: nat -> Reply) {
    Steps(base, m, n, k, replies).Running? && !Step(base, Steps(base, m, n, k, replies).m, replies(k + n)).Running?
  }

  lemma {:induction false} RunLength(base: u64, m: Machine, k: nat, limit: nat, replies: nat -> Reply) returns (n: nat)
    requires k <= limit
    ensures k + n <= limit && Steps(base, m, n, k, replies).Running?
    ensures k + n < limit ==> EndsAfter(base, m, n, k, replies)
    decreases limit - k
  {
    hide Step;
    n := 0;
    if k < limit && Step(base, m, replies(k)).Running? {
      n := RunLength(base, Step(base, m, replies(k)).m, k + 1, limit, replies);
      n := n + 1;
    }
  }

  lemma {:induction false} StepNeverLimits(base: u64, m: Machine, reply: Reply)
    ensures Step(base, m, reply).Fault? ==> !Step(base, m, reply).e.StepLimit?
  {
    hide Decode, Compute, Load, PopU64, PushU64, WriteWord, ReadU64;
  }

  /** A run ends after some n steps that all ran on: with StepLimit exactly when n is the whole limit,
      and otherwise with what its next step says. */
  lemma {:induction false} RunEnds(base: u64, m: Machine, limit: nat, replies: nat -> Reply) returns (n: nat)
    ensures n <= limit && Steps(base, m, n, 0, replies).Running?
    ensures var last, r := Steps(base, m, n, 0, replies).m, Run(base, m, 0, limit, replies);
            if n == limit then r == Failed(StepLimit(limit, last.cpu.rip), last)
            else match Step(base, last, replies(n))
                 case Running(_) => false
                 case Finished(m') => r == Done(m')
                 case Fault(e) => r == Failed(e, last) && !e.StepLimit?
  {
    hide Step;
    n := RunLength(base, m, 0, limit, replies);
    RunAfterSteps(base, m, n, 0, limit, replies);
    if n < limit {
      StepNeverLimits(base, Steps(base, m, n, 0, replies).m, replies(n));
    }
  }

  /** The instruction a machine is about to execute. */
  function Next(base: u64, m: Machine): Decoded {
    match VaToIndex(base, |m.mem|, m.cpu.rip)
    case None => Unknown(false)
    case Some(i) => Decode(Window(m.mem, i))
  }

  /** An execve call whose path and arrays can be read, whose program exists, and whose program ran. */
  predicate ExecRuns(base: u64, m: Machine, reply: Reply) {
    && reply.execed
    && UserStrings.StrArray(base, m.mem, m.cpu.rsi, 64).Some? && UserStrings.StrArray(base, m.mem, m.cpu.rdx, 64).Some?
    && match UserStrings.Cstr(base, m.mem, m.cpu.rdi)
       case Some(Some(path)) => ProgramExists(path, reply.root)
       case _ => false
  }

  /** m is about to execute ret, hlt, an exit call (60 or 231), or an execve call (59) whose program ran. */
  predicate AtStop(base: u64, m: Machine, reply: Reply) {
    && Next(base, m).Op?
    && (Next(base, m).instr == Stop
        || (Next(base, m).instr == Syscall
            && (m.cpu.rax == 60 || m.cpu.rax == 231 || (m.cpu.rax == 59 && ExecRuns(base, m, reply)))))
  }

  lemma {:induction false} SyscallFinishes(base: u64, m: Machine, reply: Reply)
    ensures HandleSyscall(base, m, reply).Finished? <==>
            m.cpu.rax == 60 || m.cpu.rax == 231 || (m.cpu.rax == 59 && ExecRuns(base, m, reply))
  {
    hide UserStrings.Cstr, UserStrings.StrArray, ProgramExists, Line;
  }

  lemma {:induction false} ExecuteFinishes(base: u64, m: Machine, i: Instr, next: u64, reply: Reply)
    ensures Execute(base, m, i, next, reply).Finished? <==>
            i == Stop || (i == Syscall && HandleSyscall(base, m, reply).Finished?)
  {
    hide HandleSyscall, Compute, Load, PopU64, PushU64, WriteWord, ReadU64, Get;
  }

  /** A step ends the program successfully if and only if it executes one of these: exit always does. */
  lemma {:induction false} SuccessExactly(base: u64, m: Machine, reply: Reply)
    ensures Step(base, m, reply).Finished? <==> AtStop(base, m, reply)
  {
    SyscallFinishes(base, m, reply);
    var d := Next(base, m);
    if d.Op? {
      var next := Wrap64(m.cpu.rip + d.len);
      ExecuteFinishes(base, m, d.instr, next, reply);
      StopIsShort(base, m);
    }
    hide Decode, Execute, HandleSyscall, ExecRuns, Window;
  }

  /** ret, hlt and syscall have no immediate. */
  lemma {:induction false} StopIsShort(base: u64, m: Machine)
    ensures Next(base, m).Op? && (Next(base, m).instr == Stop || Next(base, m).instr == Syscall) ==> !Next(base, m).full
  {
    hide Imm32, DecodeMovW, DecodeLeaW, DecodeRexWR, DecodeLoad32, DecodeStore32, Window;
    match VaToIndex(base, |m.mem|, m.cpu.rip)
    case None =>
    case Some(i) => StopShort(Window(m.mem, i));
  }

  lemma {:induction false} StopShort(b: window)
    ensures Decode(b).Op? && (Decode(b).instr == Stop || Decode(b).instr == Syscall) ==> !Decode(b).full
  {
    hide Imm32;
  }

  /** A successful run has an instruction that ended it: after n steps that ran on it stood at ret or hlt,
      an exit call, or an execve whose program ran. */
  lemma {:induction false} RunSucceedsBy(base: u64, m: Machine, limit: nat, replies: nat -> Reply) returns (n: nat)
    requires Run(base, m, 0, limit, replies).Done?
    ensures n < limit && Steps(base, m, n, 0, replies).Running?
    ensures var last := Steps(base, m, n, 0, replies).m;
            && AtStop(base, last, replies(n))
            && Step(base, last, replies(n)) == Finished(Run(base, m, 0, limit, replies).m)
  {
    hide Step, Run, Steps, AtStop;
    n := RunEnds(base, m, limit, replies);
    SuccessExactly(base, Steps(base, m, n, 0, replies).m, replies(n));
  }

  /** After n steps that all ran on, the program stands at an instruction that ends it. */
  predicate StopsAfter(base: u64, m: Machine, n: nat, replies: nat -> Reply) {
    Steps(base, m, n, 0, replies).Running? && AtStop(base, Steps(base, m, n, 0, replies).m, replies(n))
  }

  /** A run succeeds if and only if it comes to such an instruction within the limit. */
  lemma {:induction false} RunSucceedsExactly(base: u64, m: Machine, limit: nat, replies: nat -> Reply)
    ensures Run(base, m, 0, limit, replies).Done? <==> exists n: nat :: n < limit && StopsAfter(base, m, n, replies)
  {
    hide Step, Steps, AtStop;
    if Run(base, m, 0, limit, replies).Done? {
      var n := RunSucceedsBy(base, m, limit, replies);
      assert StopsAfter(base, m, n, replies);
    }
    if n: nat :| n < limit && StopsAfter(base, m, n, replies) {
      RunAfterSteps(base, m, n, 0, limit, replies);
      SuccessExactly(base, Steps(base, m, n, 0, replies).m, replies(n));
    }
  }

  // ---------------------------------------------------------------- what a step may change

  /** The addresses an instruction stores to: start and length. */
  function Target(c: CpuState, i: Instr): (int, nat) {
    match i
    case Push(_) => (c.rsp - 8, 8)
    case Call(_) => (c.rsp - 8, 8)
    case CallIndirect(_) => (c.rsp - 8, 8)
    case StoreTable => (TableEa(c), 8)
    case Store32(at, disp, _) => (Ea(c, at, disp), 4)
    case _ => (0, 0)
  }

  predicate Inside(va: int, t: (int, nat)) {
    t.0 <= va < t.0 + t.1
  }

  predicate SameOutside(base: u64, before: bytes, after: bytes, t: (int, nat)) {
    |after| == |before| && forall j :: 0 <= j < |before| && !Inside(base + j, t) ==> after[j] == before[j]
  }

  lemma {:induction false} WriteWordFrame(base: u64, mem: bytes, va: u64, n: nat, v: nat)
    requires WriteWord(base, mem, va, n, v).Some?
    ensures SameOutside(base, mem, WriteWord(base, mem, va, n, v).value, (va, n))
  {
  }

  lemma {:induction false} PushFrame(base: u64, m: Machine, v: u64, rip: u64)
    requires PushAnd(base, m, v, rip).Running?
    ensures SameOutside(base, m.mem, PushAnd(base, m, v, rip).m.mem, (m.cpu.rsp - 8, 8))
  {
    WriteWordFrame(base, m.mem, m.cpu.rsp - 8, 8, v);
  }

  /** Apart from system calls, an instruction changes at most its own window of at most eight bytes. */
  lemma {:induction false} ExecuteFrame(base: u64, m: Machine, i: Instr, next: u64, reply: Reply)
    requires i != Syscall && Execute(base, m, i, next, reply).Running?
    ensures Target(m.cpu, i).1 <= 8
    ensures SameOutside(base, m.mem, Execute(base, m, i, next, reply).m.mem, Target(m.cpu, i))
  {
    hide Compute, Load, ReadU64, WriteWord, PushU64;
    if i.Push? {
      PushFrame(base, m, Get(m.cpu, i.src), next);
    } else if i.Store32? {
      WriteWordFrame(base, m.mem, Ea(m.cpu, i.at, i.disp), 4, i.word);
    } else if i.StoreTable? {
      WriteWordFrame(base, m.mem, TableEa(m.cpu), 8, m.cpu.rdi);
    } else if i.Call? {
      PushFrame(base, m, next, Wrap64(next + i.rel));
    } else if i.CallIndirect? && Execute(base, m, i, next, reply).m.mem != m.mem {
      PushFrame(base, m, next, ReadU64(base, m.mem, Wrap64(next + i.disp)).value);
    }
  }

  lemma {:induction false} OnlyStopFinishes(base: u64, m: Machine, i: Instr, next: u64)
    requires KindOf(i) == Branches && Branch(base, m, i, next).Finished?
    ensures Branch(base, m, i, next) == Finished(m)
  {
  }

  /** What the next step may store to: for a read call the caller's buffer, for other calls nothing. */
  function StepTarget(base: u64, m: Machine): (int, nat) {
    match Next(base, m)
    case Unknown(_) => (0, 0)
    case Op(Syscall, _, _) => if m.cpu.rax == SYS_READ then (m.cpu.rsi, m.cpu.rdx) else (0, 0)
    case Op(i, _, _) => Target(m.cpu, i)
  }

  lemma {:induction false} SyscallFrame(base: u64, m: Machine, reply: Reply)
    requires !HandleSyscall(base, m, reply).Fault?
    ensures SameOutside(base, m.mem, HandleSyscall(base, m, reply).m.mem,
                        if m.cpu.rax == SYS_READ then (m.cpu.rsi, m.cpu.rdx) else (0, 0))
  {
    hide UserStrings.Cstr, UserStrings.StrArray, Line, ProgramExists;
  }

  /** A step that does not fail, system calls included, changes nothing outside its target, which is at most
      eight bytes long unless it is the buffer of a read call. It never changes the length of memory. */
  lemma {:induction false} StepFrame(base: u64, m: Machine, reply: Reply)
    requires !Step(base, m, reply).Fault?
    ensures SameOutside(base, m.mem, Step(base, m, reply).m.mem, StepTarget(base, m))
    ensures Next(base, m).Op? && (Next(base, m).instr != Syscall ==> StepTarget(base, m).1 <= 8)
  {
    hide Decode, Compute, Load, Store, Branch, Get, HandleSyscall;
    var d := Next(base, m);
    var next := Wrap64(m.cpu.rip + d.len);
    if d.instr == Syscall {
      SyscallFrame(base, m, reply);
    } else if Step(base, m, reply).Running? {
      ExecuteFrame(base, m, d.instr, next, reply);
    } else {
      FinishFrame(base, m, d.instr, next, reply);
    }
  }

  lemma {:induction false} FinishFrame(base: u64, m: Machine, i: Instr, next: u64, reply: Reply)
    requires i != Syscall && Execute(base, m, i, next, reply).Finished?
    ensures Execute(base, m, i, next, reply) == Finished(m) && Target(m.cpu, i).1 <= 8
  {
    hide Compute, Load, Get;
    if KindOf(i) == Branches {
      OnlyStopFinishes(base, m, i, next);
    }
  }

  /** Over any run: memory keeps its length to the end. */
  lemma {:induction false} RunKeepsLength(base: u64, m: Machine, k: nat, limit: nat, replies: nat -> Reply)
    ensures |Run(base, m, k, limit, replies).m.mem| == |m.mem|
    decreases limit - k
  {
    hide Step, StepTarget;
    if k < limit && !Step(base, m, replies(k)).Fault? {
      StepFrame(base, m, replies(k));
      if Step(base, m, replies(k)).Running? {
        RunKeepsLength(base, Step(base, m, replies(k)).m, k + 1, limit, replies);
      }
    }
  }

  predicate Misses(t: (int, nat), lo: int, hi: int) {
    t.0 + t.1 <= lo || hi <= t.0 || t.1 == 0
  }

  /** No step of the run stores into lo to hi. */
  predicate RunMisses(base: u64, m: Machine, k: nat, limit: nat, replies: nat -> Reply, lo: int, hi: int)
    decreases limit - k, |m.mem|
  {
    k < limit && !Step(base, m, replies(k)).Fault? ==>
      && Misses(StepTarget(base, m), lo, hi)
      && (Step(base, m, replies(k)).Running? ==>
            RunMisses(base, Step(base, m, replies(k)).m, k + 1, limit, replies, lo, hi))
  }

  /** The frame of whole runs: where no step stores, nothing has changed when the run is over, however it ends. */
  lemma {:induction false} RunFrame(
    base: u64, m: Machine, k: nat, limit: nat, replies: nat -> Reply, lo: int, hi: int)
    requires RunMisses(base, m, k, limit, replies, lo, hi)
    ensures var m' := Run(base, m, k, limit, replies).m;
            && |m'.mem| == |m.mem|
            && forall j :: 0 <= j < |m.mem| && lo <= base + j < hi ==> m'.mem[j] == m.mem[j]
    decreases limit - k
  {
    hide Step, StepTarget;
    if k < limit && !Step(base, m, replies(k)).Fault? {
      StepFrame(base, m, replies(k));
      if Step(base, m, replies(k)).Running? {
        RunFrame(base, Step(base, m, replies(k)).m, k + 1, limit, replies, lo, hi);
      }
    }
  }

  // ---------------------------------------------------------------- straight-line code

  /** A memory in which no address wraps. */
  predicate Fits(base: u64, len: nat) {
    base + len < TWO64 && Bounded(len)
  }

  datatype Code = Code(instr: Instr, enc: bytes)

  function Padded(enc: bytes): window
    requires |enc| <= 8
  {
    enc + seq(8 - |enc|, _ => 0)
  }

  /** enc is a complete encoding of an instruction that neither jumps nor traps. */
  predicate Straight(c: Code) {
    && 1 <= |c.enc| <= 8
    && KindOf(c.instr) in {Computes, Loads, Stores}
    && Decode(Padded(c.enc)).Op?
    && Decode(Padded(c.enc)).instr == c.instr
    && Decode(Padded(c.enc)).len == |c.enc|
  }

  predicate AllStraight(prog: seq<Code>) {
    forall k :: 0 <= k < |prog| ==> Straight(prog[k])
  }

  function Bytes(prog: seq<Code>): bytes {
    if prog == [] then [] else prog[0].enc + Bytes(prog[1..])
  }

  const NO_REPLY := Reply(0, [], None, false)

  /** The meanings of the instructions, one after another. */
  function Fold(base: u64, m: Machine, prog: seq<Code>): Outcome
    decreases |prog|
  {
    if prog == [] then Running(m)
    else
      var o := Execute(base, m, prog[0].instr, Wrap64(m.cpu.rip + |prog[0].enc|), NO_REPLY);
      if o.Running? then Fold(base, o.m, prog[1..]) else o
  }

  /** No instruction stores into the addresses lo to hi. */
  predicate StoresMiss(base: u64, m: Machine, prog: seq<Code>, lo: int, hi: int)
    decreases |prog|
  {
    prog != [] ==>
      var t := Target(m.cpu, prog[0].instr);
      var o := Execute(base, m, prog[0].instr, Wrap64(m.cpu.rip + |prog[0].enc|), NO_REPLY);
      && (t.0 + t.1 <= lo || hi <= t.0 || t.1 == 0)
      && (o.Running? ==> StoresMiss(base, o.m, prog[1..], lo, hi))
  }

  predicate LoadedAt(mem: bytes, i: int, code: bytes) {
    0 <= i && i + |code| <= |mem| && mem[i..i + |code|] == code
  }

  /** An encoding at index i is decoded as its instruction, whatever bytes follow it. */
  lemma {:induction false} DecodesAt(mem: bytes, i: nat, c: Code)
    requires Straight(c) && LoadedAt(mem, i, c.enc)
    ensures Decode(Window(mem, i)) == Decode(Padded(c.enc))
  {
    hide Decode;
    var b, n := Window(mem, i), |c.enc|;
    assert b[..n] == c.enc by {
      assert forall k :: 0 <= k < n ==> b[k] == mem[i..i + n][k];
    }
    assert Padded(c.enc)[..n] == c.enc;
    DecodeIsLocal(Padded(c.enc), b);
  }

  /** A straight instruction moves rip to the address it is given, and asks nothing of the kernel. */
  lemma {:induction false} StraightExecute(base: u64, m: Machine, i: Instr, next: u64, reply: Reply)
    requires KindOf(i) in {Computes, Loads, Stores}
    ensures Execute(base, m, i, next, reply) == Execute(base, m, i, next, NO_REPLY)
    ensures !Execute(base, m, i, next, reply).Finished?
    ensures Execute(base, m, i, next, reply).Running? ==> Execute(base, m, i, next, reply).m.cpu.rip == next
  {
    hide Compute, Load, WriteWord, PushU64;
  }

  lemma {:induction false} StraightStep(base: u64, m: Machine, c: Code, reply: Reply)
    requires Fits(base, |m.mem|) && Straight(c) && LoadedAt(m.mem, m.cpu.rip - base, c.enc)
    ensures Step(base, m, reply) == Execute(base, m, c.instr, Wrap64(m.cpu.rip + |c.enc|), NO_REPLY)
  {
    hide Execute, Decode, Window;
    DecodesAt(m.mem, m.cpu.rip - base, c);
    StraightExecute(base, m, c.instr, Wrap64(m.cpu.rip + |c.enc|), reply);
  }

  /** A store that misses an address range leaves the code there loaded. */
  lemma {:induction false} StillLoaded(base: u64, before: bytes, after: bytes, t: (int, nat), i: nat, code: bytes)
    requires LoadedAt(before, i, code) && SameOutside(base, before, after, t)
    requires t.0 + t.1 <= base + i || base + i + |code| <= t.0 || t.1 == 0
    ensures LoadedAt(after, i, code)
  {
    forall j | 0 <= j < |code|
      ensures after[i..i + |code|][j] == code[j]
    {
      assert before[i..i + |code|][j] == before[i + j];
      assert !Inside(base + (i + j), t);
    }
  }

  lemma {:induction false} LoadedParts(base: u64, mem: bytes, rip: u64, prog: seq<Code>)
    requires prog != [] && LoadedAt(mem, rip - base, Bytes(prog))
    ensures base <= rip && |Bytes(prog)| == |prog[0].enc| + |Bytes(prog[1..])|
    ensures LoadedAt(mem, rip - base, prog[0].enc) && LoadedAt(mem, rip - base + |prog[0].enc|, Bytes(prog[1..]))
  {
    var i, a, b := rip - base, prog[0].enc, Bytes(prog[1..]);
    var w := mem[i..i + |a + b|];
    assert mem[i..i + |a|] == w[..|a|];
    assert mem[i + |a|..i + |a| + |b|] == w[|a|..];
  }

  lemma {:induction false} StoresMissParts(base: u64, m: Machine, prog: seq<Code>, lo: int, hi: int)
    requires prog != [] && StoresMiss(base, m, prog, lo, hi)
    ensures var t := Target(m.cpu, prog[0].instr); t.0 + t.1 <= lo || hi <= t.0 || t.1 == 0
    ensures First(base, m, prog).Running? ==> StoresMiss(base, First(base, m, prog).m, prog[1..], lo, hi)
  {
    hide Execute, Target;
  }

  /** The machine after the first instruction of prog, if it runs on. */
  function First(base: u64, m: Machine, prog: seq<Code>): Outcome
    requires prog != []
  {
    Execute(base, m, prog[0].instr, Wrap64(m.cpu.rip + |prog[0].enc|), NO_REPLY)
  }

  /** prog is encoded at rip inside lo to hi, and nothing in it stores there. */
  predicate Ready(base: u64, m: Machine, prog: seq<Code>, lo: int, hi: int) {
    && Fits(base, |m.mem|) && AllStraight(prog)
    && LoadedAt(m.mem, m.cpu.rip - base, Bytes(prog))
    && StoresMiss(base, m, prog, lo, hi) && lo <= m.cpu.rip && m.cpu.rip + |Bytes(prog)| <= hi
  }

  lemma {:induction false} Onward(base: u64, m: Machine, m': Machine, prog: seq<Code>, lo: int, hi: int)
    requires prog != [] && Ready(base, m, prog, lo, hi)
    requires SameOutside(base, m.mem, m'.mem, Target(m.cpu, prog[0].instr))
    requires m'.cpu.rip == m.cpu.rip + |prog[0].enc| && StoresMiss(base, m', prog[1..], lo, hi)
    ensures Ready(base, m', prog[1..], lo, hi)
  {
    hide Execute, Target, LoadedAt, Straight, AllStraight, SameOutside, Fits, StoresMiss, Bytes;
    LoadedParts(base, m.mem, m.cpu.rip, prog);
    StoresMissParts(base, m, prog, lo, hi);
    StraightParts(prog);
    var t := Target(m.cpu, prog[0].instr);
    StillLoaded(base, m.mem, m'.mem, t, m.cpu.rip - base + |prog[0].enc|, Bytes(prog[1..]));
    FitsStill(base, m.mem, m'.mem, t);
  }

  lemma {:induction false} FirstRuns(base: u64, m: Machine, prog: seq<Code>, lo: int, hi: int, reply: Reply)
    requires prog != [] && Ready(base, m, prog, lo, hi)
    ensures Step(base, m, reply) == First(base, m, prog) && !First(base, m, prog).Finished?
    ensures First(base, m, prog).Running? ==>
              && First(base, m, prog).m.cpu.rip == m.cpu.rip + |prog[0].enc|
              && SameOutside(base, m.mem, First(base, m, prog).m.mem, Target(m.cpu, prog[0].instr))
  {
    hide Execute, Step, Target, LoadedAt, Straight, AllStraight, SameOutside, Fits, KindOf, StoresMiss, Bytes;
    var c := prog[0];
    var next := Wrap64(m.cpu.rip + |c.enc|);
    LoadedParts(base, m.mem, m.cpu.rip, prog);
    NoWrap(base, m.mem, m.cpu.rip, c.enc);
    StraightParts(prog);
    StraightStep(base, m, c, reply);
    StraightExecute(base, m, c.instr, next, NO_REPLY);
    if First(base, m, prog).Running? {
      ExecuteFrame(base, m, c.instr, next, NO_REPLY);
    }
  }

  lemma {:induction false} FirstStep(base: u64, m: Machine, prog: seq<Code>, lo: int, hi: int, reply: Reply)
    requires prog != [] && Ready(base, m, prog, lo, hi)
    ensures Step(base, m, reply) == First(base, m, prog) && !First(base, m, prog).Finished?
    ensures First(base, m, prog).Running? ==>
              && Ready(base, First(base, m, prog).m, prog[1..], lo, hi)
              && First(base, m, prog).m.cpu.rip == m.cpu.rip + |prog[0].enc|
  {
    FirstRuns(base, m, prog, lo, hi, reply);
    hide Step, First, Target, SameOutside;
    if First(base, m, prog).Running? {
      StoresMissParts(base, m, prog, lo, hi);
      hide Ready, StoresMiss;
      Onward(base, m, First(base, m, prog).m, prog, lo, hi);
    }
  }

  lemma {:induction false} StraightParts(prog: seq<Code>)
    requires AllStraight(prog) && prog != []
    ensures Straight(prog[0]) && KindOf(prog[0].instr) in {Computes, Loads, Stores} && prog[0].instr != Syscall
    ensures AllStraight(prog[1..])
  {
  }

  lemma {:induction false} NoWrap(base: u64, mem: bytes, rip: u64, code: bytes)
    requires Fits(base, |mem|) && LoadedAt(mem, rip - base, code)
    ensures base <= rip && Wrap64(rip + |code|) == rip + |code|
  {
  }

  lemma {:induction false} FitsStill(base: u64, before: bytes, after: bytes, t: (int, nat))
    requires Fits(base, |before|) && SameOutside(base, before, after, t)
    ensures Fits(base, |after|)
  {
  }

  lemma {:induction false} StraightLineFrom(
    base: u64, m: Machine, prog: seq<Code>, lo: int, hi: int, k: nat, replies: nat -> Reply)
    requires Ready(base, m, prog, lo, hi)
    ensures Steps(base, m, |prog|, k, replies) == Fold(base, m, prog)
    ensures Fold(base, m, prog).Running? ==> Fold(base, m, prog).m.cpu.rip == m.cpu.rip + |Bytes(prog)|
    decreases |prog|
  {
    hide Execute, Step, Ready;
    if prog != [] {
      FirstStep(base, m, prog, lo, hi, replies(k));
      if First(base, m, prog).Running? {
        StraightLineFrom(base, First(base, m, prog).m, prog[1..], lo, hi, k + 1, replies);
      }
    }
  }

  /** Straight-line code encoded at rip whose stores miss its own bytes runs as the fold of its
      instructions' meanings, faults included, and advances rip by its length. */
  lemma {:induction false} StraightLine(base: u64, m: Machine, prog: seq<Code>, replies: nat -> Reply)
    requires Fits(base, |m.mem|) && AllStraight(prog)
    requires LoadedAt(m.mem, m.cpu.rip - base, Bytes(prog))
    requires StoresMiss(base, m, prog, m.cpu.rip, m.cpu.rip + |Bytes(prog)|)
    ensures Steps(base, m, |prog|, 0, replies) == Fold(base, m, prog)
    ensures Fold(base, m, prog).Running? ==> Fold(base, m, prog).m.cpu.rip == m.cpu.rip + |Bytes(prog)|
  {
    hide StoresMiss, Steps, Fold, LoadedAt, AllStraight, Bytes, Fits;
    StraightLineFrom(base, m, prog, m.cpu.rip, m.cpu.rip + |Bytes(prog)|, 0, replies);
  }

  /** The arms for `lea rdx, [rdi + 8]` and `lea rdx, [rdx - 1]` are never reached, and need not be:
      the general lea arm that shadows them has their effect. */
  lemma {:induction false} ShadowedLea(base: u64, m: Machine, b: window, next: u64, reply: Reply)
    requires b[0] == 0x48 && b[1] == 0x8D && ((b[2] == 0x57 && b[3] == 0x08) || (b[2] == 0x52 && b[3] == 0xFF))
    ensures Decode(b).Op? && Decode(b).len == 4
    ensures Execute(base, m, Decode(b).instr, next, reply) ==
            var at := Wrap64(if b[2] == 0x57 then m.cpu.rdi + 8 else m.cpu.rdx - 1);
            Running(m.(cpu := m.cpu.(rdx := at, rip := next)))
  {
  }

  // ---------------------------------------------------------------- pushes and pops

  function PushMany(base: u64, mem: bytes, sp: u64, vs: seq<u64>): Option<(u64, bytes)>
    decreases |vs|
  {
    if vs == [] then Some((sp, mem))
    else match PushU64(base, mem, sp, vs[0])
    case None => None
    case Some(p) => PushMany(base, p.1, p.0, vs[1..])
  }

  /** n popped values, first popped first, and the final stack pointer. */
  function PopMany(base: u64, mem: bytes, sp: u64, n: nat): Option<(seq<u64>, u64)>
    decreases n, |mem|
  {
    if n == 0 then Some(([], sp))
    else match PopU64(base, mem, sp)
    case None => None
    case Some(p) =>
      match PopMany(base, mem, p.1, n - 1)
      case None => None
      case Some(q) => Some(([p.0] + q.0, q.1))
  }

  lemma {:induction false} PopManyAppend(base: u64, mem: bytes, sp: u64, n: nat, vs: seq<u64>, mid: u64, v: u64)
    requires PopMany(base, mem, sp, n) == Some((vs, mid))
    requires PopU64(base, mem, mid).Some? && PopU64(base, mem, mid).value.0 == v
    ensures PopMany(base, mem, sp, n + 1) == Some((vs + [v], PopU64(base, mem, mid).value.1))
    decreases n
  {
    hide PopU64;
    if n == 0 {
      assert PopMany(base, mem, PopU64(base, mem, mid).value.1, 0) == Some(([], PopU64(base, mem, mid).value.1));
      assert [v] + [] == vs + [v];
    } else {
      var p := PopU64(base, mem, sp).value;
      PopManyAppend(base, mem, p.1, n - 1, vs[1..], mid, v);
      assert [p.0] + (vs[1..] + [v]) == vs + [v];
    }
  }

  predicate SameFrom(base: u64, before: bytes, after: bytes, sp: u64) {
    |after| == |before| && forall j :: 0 <= j < |before| && sp <= base + j ==> after[j] == before[j]
  }

  lemma {:induction false} PopOfPush(base: u64, mem: bytes, sp: u64, v: u64, later: bytes)
    requires PushU64(base, mem, sp, v).Some?
    requires SameFrom(base, PushU64(base, mem, sp, v).value.1, later, sp - 8)
    ensures PopU64(base, later, sp - 8) == Some((v, sp))
    ensures SameFrom(base, mem, PushU64(base, mem, sp, v).value.1, sp)
  {
    var mem', i := PushU64(base, mem, sp, v).value.1, sp - 8 - base;
    WriteThenRead(base, mem, sp - 8, 8, v);
    Powers();
    assert later[i..i + 8] == mem'[i..i + 8];
  }

  /** k pushes and then k pops give the values back in reverse and restore the stack pointer, and
      memory at and above it is as before. */
  lemma {:induction false} PushesThenPops(base: u64, mem: bytes, sp: u64, vs: seq<u64>)
    requires PushMany(base, mem, sp, vs).Some?
    ensures var p := PushMany(base, mem, sp, vs).value;
            && p.0 == sp - 8 * |vs|
            && PopMany(base, p.1, p.0, |vs|) == Some((Reversed(vs), sp))
            && SameFrom(base, mem, p.1, sp)
    decreases |vs|
  {
    hide PopU64, PushU64;
    if vs != [] {
      var q := PushU64(base, mem, sp, vs[0]).value;
      var p := PushMany(base, mem, sp, vs).value;
      PushMoves(base, mem, sp, vs[0]);
      ReversedFromFront(vs);
      PushesThenPops(base, q.1, q.0, vs[1..]);
      PopOfPush(base, mem, sp, vs[0], p.1);
      PopManyAppend(base, p.1, p.0, |vs| - 1, Reversed(vs[1..]), q.0, vs[0]);
    }
  }

  lemma {:induction false} PushMoves(base: u64, mem: bytes, sp: u64, v: u64)
    requires PushU64(base, mem, sp, v).Some?
    ensures PushU64(base, mem, sp, v).value.0 == sp - 8
  {
  }
}
