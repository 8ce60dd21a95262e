/** A whole interpreted program: load, build the stack, run. */
module ElfRunner {
  import opened Words
  import opened Elf
  import opened Loader
  import opened Memory
  import opened InitialStack
  import opened StackLayout
  import opened UserStrings
  import opened Instructions
  import Execution
  import Interpreter
  import Runs

  datatype Ending = Unloadable(reason: LoadError) | NoMemory | Panic | Ended | Error(e: Execution.RunError)

  /** The stack top, 16 bytes below the end of the memory, is an address. */
  predicate NoWrap(segs: seq<LoadSegment>) {
    Highest(segs) + STACK_SIZE - 0x10 < TWO64
  }

  /** The loaded memory, stack area included. */
  function LoadedBytes(image: bytes): (m: bytes)
    requires Loadable(image, Interpreted)
    ensures |m| == MemLen(Segments(image)) + STACK_SIZE
  {
    var segs := Segments(image);
    PlacedInImage(image);
    seq<byte>(MemLen(segs) + STACK_SIZE, j requires j >= 0 => ByteAt(image, segs, Lowest(segs) + j))
  }

  lemma {:induction false} MemoryBounded(image: bytes)
    requires Loadable(image, Interpreted)
    ensures Interpreter.Bounded(MemLen(Segments(image)) + STACK_SIZE)
  {
  }

  lemma {:induction false} PlacedInImage(image: bytes)
    requires Loadable(image, Interpreted)
    ensures InImage(Segments(image), image)
  {
    var segs := Segments(image);
    forall k | 0 <= k < |segs| ensures segs[k].fileOffset + segs[k].fileSize <= |image| {
      assert Place(segs[k], Lowest(segs), MemLen(segs) + STACK_SIZE, |image|) == Placed;
    }
  }

  function StackTop(segs: seq<LoadSegment>): u64 {
    Wrap64(Highest(segs) + STACK_SIZE - 0x10)
  }

  /** The machine about to execute the program's first instruction, if its stack can be built. */
  function Start(image: bytes, argv: seq<bytes>, envp: seq<bytes>): Option<Machine>
    requires Loadable(image, Interpreted)
  {
    var segs := Segments(image);
    match Build(Lowest(segs), LoadedBytes(image), StackTop(segs), argv, envp)
    case None => None
    case Some(st) =>
      Some(Machine(CpuState(0, 0, 0, st.sp, 0, 0, 0, 0, 0, 0, 0, 0, 0, Xword(image, 24), false, false), st.mem))
  }

  /** free is the room left in the kernel's heap when the program's memory is asked for. */
  method RunLinuxElf(
    image: bytes, argv: seq<bytes>, envp: seq<bytes>, free: nat, replies: nat -> Execution.Reply) returns (r: Ending)
    requires |image| < TWO63
    ensures !Sized(image, Interpreted) ==> r.Unloadable? && Refuses(image, Interpreted, r.reason)
    ensures r.NoMemory? <==> Sized(image, Interpreted) && MemorySize(image, Interpreted) > free
    ensures Sized(image, Interpreted) && MemorySize(image, Interpreted) <= free ==>
              && (r == Unloadable(LoadError.AddressOutOfRange) <==> Trouble(image, Interpreted, OutOfRange))
              && (r.Panic? <==> Trouble(image, Interpreted, Overruns))
    ensures r.Unloadable? || r.NoMemory? || r.Panic? <==>
            !(Loadable(image, Interpreted) && MemorySize(image, Interpreted) <= free)
    ensures Loadable(image, Interpreted) && MemorySize(image, Interpreted) <= free ==>
              match Start(image, argv, envp)
              case None => r == Error(Execution.AddressOutOfRange)
              case Some(m) =>
                match Runs.Run(Lowest(Segments(image)), m, 0, Execution.MAX_STEPS, replies)
                case Done(_) => r == Ended
                case Failed(e, _) => r == Error(e)
  {
    hide Sized, Refuses, WellFormed, Loads, Lowest, Highest, Build, Runs.Run, Execution.Step, Trouble;
    var loading, mem := LoadProgram(image, Interpreted, free);
    match loading {
      case Refused(e) => return Unloadable(e);
      case OutOfMemory => return NoMemory;
      case Panicked => return Panic;
      case Loaded(base, entry) =>
        AsLoaded(image, mem[..]);
        MemoryBounded(image);
        var stackTop := Wrap64(base + mem.Length - 0x10);
        var sp := BuildInitialStack(base, mem, stackTop, argv, envp);
        if sp == None {
          return Error(Execution.AddressOutOfRange);
        }
        var cpu := new Interpreter.Cpu(sp.value, entry);
        var e := Runs.RunLoop(cpu, base, mem, replies);
        r := if e == None then Ended else Error(e.value);
    }
  }

  lemma {:induction false} AsLoaded(image: bytes, mem: bytes)
    requires Loadable(image, Interpreted) && InImage(Segments(image), image)
    requires |mem| == MemLen(Segments(image)) + STACK_SIZE
             && Holds(mem, Lowest(Segments(image)), image, Segments(image))
    ensures mem == LoadedBytes(image)
  {
    hide ByteAt;
    var segs := Segments(image);
    forall j | 0 <= j < |mem| ensures mem[j] == LoadedBytes(image)[j] {
      assert mem[j] == ByteAt(image, segs, Lowest(segs) + j);
    }
  }

  // ---------------------------------------------------------------- the program's first state

  /** If the strings need at most STACK_SIZE - 31 bytes the program starts, at its entry point, with the stack
      pointer in the stack area and every loaded byte in place. */
  lemma {:induction false} ProgramStarts(image: bytes, argv: seq<bytes>, envp: seq<bytes>)
    requires Loadable(image, Interpreted) && NoWrap(Segments(image))
    requires Need(argv, envp) <= STACK_SIZE - 31
    ensures Start(image, argv, envp).Some?
    ensures var m, segs := Start(image, argv, envp).value, Segments(image);
            && m.cpu == CpuState(rax := 0, rbp := 0, rbx := 0, rsp := m.cpu.rsp, rdi := 0, rsi := 0, rdx := 0, rcx := 0,
                                 r8 := 0, r9 := 0, r10 := 0, r12 := 0, r13 := 0, rip := Xword(image, 24),
                                 zf := false, sf := false)
            && Highest(segs) <= m.cpu.rsp < Highest(segs) + STACK_SIZE - 0x10
            && |m.mem| == |LoadedBytes(image)|
            && m.mem[..MemLen(segs)] == LoadedBytes(image)[..MemLen(segs)]
  {
    hide Build, LoadedBytes, Loads, Lowest, Highest, Need;
    var segs := Segments(image);
    var base, mem, top := Lowest(segs), LoadedBytes(image), StackTop(segs);
    EnoughSpaceSucceeds(base, mem, top, argv, envp);
    StackSpaceAndFrame(base, mem, top, argv, envp);
    var st := Build(base, mem, top, argv, envp).value;
    var n := MemLen(segs);
    assert st.mem[..n] == st.mem[..st.sp - base][..n];
    assert mem[..n] == mem[..st.sp - base][..n];
  }

  /** An image whose stack top is no address never starts. */
  lemma {:induction false} WrappedProgramFails(image: bytes, argv: seq<bytes>, envp: seq<bytes>)
    requires Loadable(image, Interpreted) && !NoWrap(Segments(image))
    ensures Start(image, argv, envp) == None
  {
    hide Build, LoadedBytes, Loads, Lowest, Highest;
    var segs := Segments(image);
    SizeIsFlat(argv);
    SizeIsFlat(envp);
    BuildBelow(Lowest(segs), LoadedBytes(image), StackTop(segs), argv, envp);
  }

  /** A loadable program whose strings fit starts exactly when its stack top is an address. */
  lemma {:induction false} StartsExactly(image: bytes, argv: seq<bytes>, envp: seq<bytes>)
    requires Loadable(image, Interpreted) && Need(argv, envp) <= STACK_SIZE - 31
    ensures Start(image, argv, envp).Some? <==> Highest(Segments(image)) + STACK_SIZE - 0x10 < TWO64
  {
    hide Start, Loads, Highest, Lowest, Need;
    if NoWrap(Segments(image)) {
      ProgramStarts(image, argv, envp);
    } else {
      WrappedProgramFails(image, argv, envp);
    }
  }

  /** An image of one byte just below the end of the address space: it is loaded, and never starts. */
  lemma {:induction false} WrapHappens(argv: seq<bytes>, envp: seq<bytes>)
    ensures var image := OneSegmentImage(TWO64 - 4096, 1, 0, 0);
            Loadable(image, Interpreted) && Start(image, argv, envp) == None
  {
    var image := OneSegmentImage(TWO64 - 4096, 1, 0, 0);
    OneSegmentFares(TWO64 - 4096, 1, 0, 0, Interpreted);
    OneSegment(TWO64 - 4096, 1, 0, 0);
    OneRange(Segments(image)[0]);
    hide OneSegmentImage, Loadable, Start, Loads, Lowest, Highest;
    WrappedProgramFails(image, argv, envp);
  }

  /** The stack pointer a program starts with is 16-byte aligned exactly for an odd number of strings. */
  lemma {:induction false} StartAlignment(image: bytes, argv: seq<bytes>, envp: seq<bytes>)
    requires Loadable(image, Interpreted) && Start(image, argv, envp).Some?
    ensures Start(image, argv, envp).value.cpu.rsp % 16 == if (|argv| + |envp|) % 2 == 1 then 0 else 8
  {
    hide Build, LoadedBytes, Loads, Lowest, Highest, Need;
    var segs := Segments(image);
    StackSpaceAndFrame(Lowest(segs), LoadedBytes(image), StackTop(segs), argv, envp);
  }

  /** So every program that can start, starts misaligned without arguments and environment. */
  lemma {:induction false} MisalignedStart(image: bytes)
    requires Loadable(image, Interpreted) && NoWrap(Segments(image))
    ensures Start(image, [], []).Some? && Start(image, [], []).value.cpu.rsp % 16 == 8
  {
    assert Need([], []) == 71;
    hide Start, Loads, Lowest, Highest, Need;
    ProgramStarts(image, [], []);
    StartAlignment(image, [], []);
  }

  /** Every byte of every segment, at its own address: the file's bytes first, zero after them. */
  lemma {:induction false} SegmentsAtStart(image: bytes, argv: seq<bytes>, envp: seq<bytes>, i: nat, a: u64)
    requires Loadable(image, Interpreted) && NoWrap(Segments(image))
    requires Need(argv, envp) <= STACK_SIZE - 31
    requires Disjoint(Segments(image)) && i < |Segments(image)| && Within(Segments(image)[i], a)
    requires forall k :: 0 <= k < |Segments(image)| ==> Segments(image)[k].fileSize <= Segments(image)[k].memSize
    ensures Start(image, argv, envp).Some?
    ensures var m, s := Start(image, argv, envp).value, Segments(image)[i];
            s.fileOffset + s.fileSize <= |image| &&
            ReadU8(Lowest(Segments(image)), m.mem, a) ==
            Some(if a - s.vaddr < s.fileSize then image[s.fileOffset + (a - s.vaddr)] else 0)
  {
    hide Start, Loads, Lowest, Highest, Need, ByteAt, Disjoint;
    var segs := Segments(image);
    ProgramStarts(image, argv, envp);
    PlacedInImage(image);
    SegmentContents(image, segs, i, a);
    Extent(segs);
    assert End(segs[i]) <= Highest(segs);
    var m, j := Start(image, argv, envp).value, a - Lowest(segs);
    assert m.mem[..MemLen(segs)][j] == LoadedBytes(image)[..MemLen(segs)][j];
  }

  /** The program finds its own arguments and environment. */
  lemma {:induction false} ArgumentsAtStart(image: bytes, argv: seq<bytes>, envp: seq<bytes>, max: nat)
    requires Loadable(image, Interpreted) && Start(image, argv, envp).Some?
    requires AllReadable(argv) && AllReadable(envp) && |argv| <= max && |envp| <= max
    ensures var m, base := Start(image, argv, envp).value, Lowest(Segments(image));
            && ReadU64(base, m.mem, m.cpu.rsp) == Some(|argv|)
            && m.cpu.rsp + 8 * (|argv| + 2) < TWO64
            && StrArray(base, m.mem, m.cpu.rsp + 8, max) == Some(argv)
            && StrArray(base, m.mem, m.cpu.rsp + 8 * (|argv| + 2), max) == Some(envp)
  {
    hide Build, LoadedBytes, Loads, Lowest, Highest, ReadU64, StrArray, AllReadable;
    var segs := Segments(image);
    ArgumentRoundTrip(Lowest(segs), LoadedBytes(image), StackTop(segs), argv, envp, max);
  }
}
