/** Loading: the address range of the segments, one byte array for them and the stack, and the copy loop. */
module Loader {
  import opened Words
  import opened Elf

  const MAX_INTERP_MEM := 16 * 1024 * 1024
  const MAX_NATIVE_MEM := 32 * 1024 * 1024
  const ET_EXEC := 2
  const STACK_SIZE := 128 * 1024
  const NATIVE_STACK_SIZE := 256 * 1024
  const MAX_SEGMENTS := 16

  /** The interpreter keeps the program's own addresses; the native runner relocates it. */
  datatype Runner = Interpreted | Native

  function Limit(runner: Runner): nat {
    if runner.Native? then MAX_NATIVE_MEM else MAX_INTERP_MEM
  }

  /** The room for the stack above the segments. */
  function StackSize(runner: Runner): nat {
    if runner.Native? then NATIVE_STACK_SIZE else STACK_SIZE
  }

  /** `saturating_add` of two 64-bit values. */
  function SatAdd(a: u64, b: u64): u64 {
    if a + b < TWO64 then a + b else TWO64 - 1
  }

  // ---------------------------------------------------------------- the address range

  function Lowest(segs: seq<LoadSegment>): u64 {
    if segs == [] then TWO64 - 1
    else
      var m, v := Lowest(segs[..|segs| - 1]), segs[|segs| - 1].vaddr;
      if v < m then v else m
  }

  function End(s: LoadSegment): u64 {
    SatAdd(s.vaddr, s.memSize)
  }

  function Highest(segs: seq<LoadSegment>): u64 {
    if segs == [] then 0
    else
      var m, v := Highest(segs[..|segs| - 1]), End(segs[|segs| - 1]);
      if v > m then v else m
  }

  /** The least address and the greatest end, both attained. */
  lemma {:induction false} Extent(segs: seq<LoadSegment>)
    ensures forall k :: 0 <= k < |segs| ==> Lowest(segs) <= segs[k].vaddr && End(segs[k]) <= Highest(segs)
    ensures segs != [] ==> exists k :: 0 <= k < |segs| && segs[k].vaddr == Lowest(segs)
    ensures segs != [] ==> exists k :: 0 <= k < |segs| && End(segs[k]) == Highest(segs)
  {
    hide End;
    if segs != [] {
      var n := |segs| - 1;
      Extent(segs[..n]);
      if n > 0 {
        var j :| 0 <= j < n && segs[..n][j].vaddr == Lowest(segs[..n]);
        var k :| 0 <= k < n && End(segs[..n][k]) == Highest(segs[..n]);
        assert segs[j].vaddr == Lowest(segs) || segs[n].vaddr == Lowest(segs);
        assert End(segs[k]) == Highest(segs) || End(segs[n]) == Highest(segs);
      } else {
        assert segs[n].vaddr == Lowest(segs);
        assert End(segs[n]) == Highest(segs);
      }
    }
  }

  method ScanSegments(segs: seq<LoadSegment>) returns (lo: u64, hi: u64)
    ensures lo == Lowest(segs) && hi == Highest(segs)
  {
    lo, hi := TWO64 - 1, 0;
    for i := 0 to |segs|
      invariant lo == Lowest(segs[..i]) && hi == Highest(segs[..i])
    {
      assert segs[..i + 1][..i] == segs[..i];
      lo := if segs[i].vaddr < lo then segs[i].vaddr else lo;
      var end := SatAdd(segs[i].vaddr, segs[i].memSize);
      hi := if end > hi then end else hi;
    }
    assert segs[..|segs|] == segs;
  }

  // ---------------------------------------------------------------- the copy loop

  /** What becomes of one segment; Overruns is the slice-index panic of the copy itself. */
  datatype Placement = Placed | OutOfRange | Overruns

  function Place(s: LoadSegment, base: u64, total: nat, imageLen: nat): Placement
    requires base <= s.vaddr
  {
    if s.vaddr - base + s.memSize > total || s.fileOffset + s.fileSize > imageLen then OutOfRange
    else if s.vaddr - base + s.fileSize > total then Overruns
    else Placed
  }

  predicate AllPlaced(segs: seq<LoadSegment>, base: u64, total: nat, imageLen: nat)
    requires Above(segs, base)
  {
    forall k :: 0 <= k < |segs| ==> Place(segs[k], base, total, imageLen) == Placed
  }

  /** The first segment that cannot be placed fails with p. */
  ghost predicate Stuck(segs: seq<LoadSegment>, base: u64, total: nat, imageLen: nat, p: Placement)
    requires Above(segs, base)
  {
    p != Placed &&
    exists k :: 0 <= k < |segs| && Place(segs[k], base, total, imageLen) == p
      && AllPlaced(segs[..k], base, total, imageLen)
  }

  lemma {:induction false} OneTrouble(
    segs: seq<LoadSegment>, base: u64, total: nat, imageLen: nat, p: Placement, p': Placement)
    requires Above(segs, base) && Stuck(segs, base, total, imageLen, p)
    ensures !AllPlaced(segs, base, total, imageLen)
    ensures Stuck(segs, base, total, imageLen, p') ==> p == p'
  {
    var k :| 0 <= k < |segs| && Place(segs[k], base, total, imageLen) == p
      && AllPlaced(segs[..k], base, total, imageLen);
    if Stuck(segs, base, total, imageLen, p') {
      var j :| 0 <= j < |segs| && Place(segs[j], base, total, imageLen) == p'
        && AllPlaced(segs[..j], base, total, imageLen);
    }
  }

  lemma {:induction false} NoTrouble(segs: seq<LoadSegment>, base: u64, total: nat, imageLen: nat)
    requires Above(segs, base) && AllPlaced(segs, base, total, imageLen)
    ensures !Stuck(segs, base, total, imageLen, OutOfRange) && !Stuck(segs, base, total, imageLen, Overruns)
  {
  }

  predicate Above(segs: seq<LoadSegment>, base: u64) {
    forall k :: 0 <= k < |segs| ==> base <= segs[k].vaddr
  }

  predicate InImage(segs: seq<LoadSegment>, image: bytes) {
    forall k :: 0 <= k < |segs| ==> segs[k].fileOffset + segs[k].fileSize <= |image|
  }

  predicate Covers(s: LoadSegment, a: nat) {
    s.vaddr <= a < s.vaddr + s.fileSize
  }

  /** The byte at address a: the file's, as the last segment covering a has it, or zero. */
  function ByteAt(image: bytes, segs: seq<LoadSegment>, a: nat): byte
    requires InImage(segs, image)
  {
    if segs == [] then 0
    else
      var s := segs[|segs| - 1];
      if Covers(s, a) then image[s.fileOffset + (a - s.vaddr)] else ByteAt(image, segs[..|segs| - 1], a)
  }

  ghost predicate Holds(mem: bytes, base: u64, image: bytes, segs: seq<LoadSegment>)
    requires InImage(segs, image)
  {
    forall j :: 0 <= j < |mem| ==> mem[j] == ByteAt(image, segs, base + j)
  }

  lemma {:induction false} HoldsOneMore(
    mem: bytes, mem': bytes, base: u64, image: bytes, segs: seq<LoadSegment>, s: LoadSegment)
    requires InImage(segs, image) && Holds(mem, base, image, segs)
    requires base <= s.vaddr && Place(s, base, |mem|, |image|) == Placed
    requires mem' == Splice(mem, s.vaddr - base, image[s.fileOffset..s.fileOffset + s.fileSize])
    ensures InImage(segs + [s], image) && Holds(mem', base, image, segs + [s])
  {
    assert (segs + [s])[..|segs|] == segs;
    forall j | 0 <= j < |mem'| ensures mem'[j] == ByteAt(image, segs + [s], base + j) {
      assert mem[j] == ByteAt(image, segs, base + j);
    }
  }

  /** Copies the segments in order into zeroed memory; stops at the first that cannot be placed. */
  method CopySegments(mem: array<byte>, base: u64, segs: seq<LoadSegment>, image: bytes) returns (r: Placement)
    requires Above(segs, base) && |image| < TWO63 && mem.Length < TWO63
    requires forall j :: 0 <= j < mem.Length ==> mem[j] == 0
    modifies mem
    ensures r == Placed <==> AllPlaced(segs, base, mem.Length, |image|)
    ensures r == Placed ==> InImage(segs, image) && Holds(mem[..], base, image, segs)
    ensures forall p :: p != Placed ==> (r == p <==> Stuck(segs, base, mem.Length, |image|, p))
  {
    for i := 0 to |segs|
      invariant AllPlaced(segs[..i], base, mem.Length, |image|)
      invariant InImage(segs[..i], image) && Holds(mem[..], base, image, segs[..i])
    {
      ghost var before := mem[..];
      r := CopyOne(mem, base, segs[i], image);
      if r != Placed {
        assert Stuck(segs, base, mem.Length, |image|, r);
        OneTrouble(segs, base, mem.Length, |image|, r, OutOfRange);
        OneTrouble(segs, base, mem.Length, |image|, r, Overruns);
        return;
      }
      HoldsOneMore(before, mem[..], base, image, segs[..i], segs[i]);
      assert segs[..i + 1] == segs[..i] + [segs[i]];
    }
    assert segs[..|segs|] == segs;
    NoTrouble(segs, base, mem.Length, |image|);
    return Placed;
  }

  method CopyOne(mem: array<byte>, base: u64, s: LoadSegment, image: bytes) returns (r: Placement)
    requires base <= s.vaddr && |image| < TWO63 && mem.Length < TWO63
    modifies mem
    ensures r == Place(s, base, mem.Length, |image|)
    ensures r == Placed ==>
              mem[..] == Splice(old(mem[..]), s.vaddr - base, image[s.fileOffset..s.fileOffset + s.fileSize])
  {
    var dst := s.vaddr - base;
    var dstEnd := SatAdd(dst, s.memSize);
    if dstEnd > mem.Length {
      return OutOfRange;
    }
    var src := s.fileOffset;
    var srcEnd := SatAdd(src, s.fileSize);
    if srcEnd > |image| {
      return OutOfRange;
    }
    if dst + s.fileSize > mem.Length {
      return Overruns;
    }
    CopyInto(mem, dst, image[src..srcEnd]);
    return Placed;
  }

  // ---------------------------------------------------------------- what the checks amount to

  function MemLen(segs: seq<LoadSegment>): int {
    Highest(segs) - Lowest(segs)
  }

  /** Given the scan, a segment fails the destination check exactly when its end lies beyond the address
      space by more than the stack area; so without address wrap the check never fails. */
  lemma {:induction false} DestinationCheck(segs: seq<LoadSegment>, k: nat, stack: nat)
    requires k < |segs|
    ensures segs[k].vaddr >= Lowest(segs)
    ensures segs[k].vaddr - Lowest(segs) + segs[k].memSize > MemLen(segs) + stack <==>
            segs[k].vaddr + segs[k].memSize >= TWO64 + stack
  {
    Extent(segs);
    assert End(segs[k]) <= Highest(segs);
  }

  /** The fate of one segment after the scan, in terms of the program headers alone. */
  lemma {:induction false} PlacementExactly(segs: seq<LoadSegment>, k: nat, stack: nat, imageLen: nat)
    requires k < |segs| && MemLen(segs) >= 0
    ensures segs[k].vaddr >= Lowest(segs)
    ensures var s, total := segs[k], MemLen(segs) + stack;
            Place(s, Lowest(segs), total, imageLen) ==
            if s.vaddr + s.memSize >= TWO64 + stack || s.fileOffset + s.fileSize > imageLen then OutOfRange
            else if s.vaddr + s.fileSize > Highest(segs) + stack then Overruns
            else Placed
  {
    DestinationCheck(segs, k, stack);
  }

  /** When the copy loop places everything. */
  lemma {:induction false} PlacedExactly(segs: seq<LoadSegment>, stack: nat, imageLen: nat)
    ensures Above(segs, Lowest(segs))
    ensures MemLen(segs) >= 0 ==>
              (AllPlaced(segs, Lowest(segs), MemLen(segs) + stack, imageLen) <==>
               forall k :: 0 <= k < |segs| ==>
                             && segs[k].vaddr + segs[k].memSize < TWO64 + stack
                             && segs[k].fileOffset + segs[k].fileSize <= imageLen
                             && segs[k].vaddr + segs[k].fileSize <= Highest(segs) + stack)
  {
    hide Lowest, Highest, Place;
    Extent(segs);
    if MemLen(segs) >= 0 {
      forall k | 0 <= k < |segs|
        ensures Place(segs[k], Lowest(segs), MemLen(segs) + stack, imageLen) == Placed <==>
                && segs[k].vaddr + segs[k].memSize < TWO64 + stack
                && segs[k].fileOffset + segs[k].fileSize <= imageLen
                && segs[k].vaddr + segs[k].fileSize <= Highest(segs) + stack
      {
        PlacementExactly(segs, k, stack, imageLen);
      }
    }
  }

  /** For ordinary segments the copy can neither fail nor overrun. */
  lemma {:induction false} OrdinarySegmentsLoad(segs: seq<LoadSegment>, stack: nat, imageLen: nat)
    requires MemLen(segs) >= 0
    requires forall k :: 0 <= k < |segs| ==>
                           && segs[k].vaddr + segs[k].memSize < TWO64 && segs[k].fileSize <= segs[k].memSize
                           && segs[k].fileOffset + segs[k].fileSize <= imageLen
    ensures Above(segs, Lowest(segs)) && AllPlaced(segs, Lowest(segs), MemLen(segs) + stack, imageLen)
  {
    PlacedExactly(segs, stack, imageLen);
    Extent(segs);
    forall k | 0 <= k < |segs| ensures segs[k].vaddr + segs[k].fileSize <= Highest(segs) + stack {
      assert End(segs[k]) <= Highest(segs);
    }
  }

  // ---------------------------------------------------------------- what the memory holds

  /** Where no segment's file bytes reach, the byte is zero. */
  lemma {:induction false} Untouched(image: bytes, segs: seq<LoadSegment>, a: nat)
    requires InImage(segs, image) && forall k :: 0 <= k < |segs| ==> !Covers(segs[k], a)
    ensures ByteAt(image, segs, a) == 0
  {
    hide Covers;
    if segs != [] {
      Untouched(image, segs[..|segs| - 1], a);
    }
  }

  /** Where several segments cover an address the last one wins. */
  lemma {:induction false} LastWriter(image: bytes, segs: seq<LoadSegment>, i: nat, a: nat)
    requires InImage(segs, image) && i < |segs| && Covers(segs[i], a)
    requires forall k :: i < k < |segs| ==> !Covers(segs[k], a)
    ensures ByteAt(image, segs, a) == image[segs[i].fileOffset + (a - segs[i].vaddr)]
  {
    var n := |segs| - 1;
    if i < n {
      LastWriter(image, segs[..n], i, a);
    }
  }

  predicate Within(s: LoadSegment, a: nat) {
    s.vaddr <= a < s.vaddr + s.memSize
  }

  ghost predicate Disjoint(segs: seq<LoadSegment>) {
    forall i, j, a: nat :: 0 <= i < j < |segs| && Within(segs[i], a) ==> !Within(segs[j], a)
  }

  /** Disjoint segments: the file's bytes in each, zero in the rest of each and between them. */
  lemma {:induction false} SegmentContents(image: bytes, segs: seq<LoadSegment>, i: nat, a: nat)
    requires InImage(segs, image) && Disjoint(segs) && i < |segs| && Within(segs[i], a)
    requires forall k :: 0 <= k < |segs| ==> segs[k].fileSize <= segs[k].memSize
    ensures ByteAt(image, segs, a) ==
            if a - segs[i].vaddr < segs[i].fileSize then image[segs[i].fileOffset + (a - segs[i].vaddr)] else 0
  {
    forall k | 0 <= k < |segs| && k != i ensures !Covers(segs[k], a) {
      assert !Within(segs[k], a);
    }
    if Covers(segs[i], a) {
      LastWriter(image, segs, i, a);
    } else {
      Untouched(image, segs, a);
    }
  }

  lemma {:induction false} GapContents(image: bytes, segs: seq<LoadSegment>, a: nat)
    requires InImage(segs, image) && forall k :: 0 <= k < |segs| ==> segs[k].fileSize <= segs[k].memSize
    requires forall k :: 0 <= k < |segs| ==> !Within(segs[k], a)
    ensures ByteAt(image, segs, a) == 0
  {
    forall k | 0 <= k < |segs| ensures !Covers(segs[k], a) {
      assert !Within(segs[k], a);
    }
    Untouched(image, segs, a);
  }

  // ---------------------------------------------------------------- loading a whole image

  datatype LoadError =
    | Parse(e: ElfError)
    | NoLoadSegment
    | FixedVaddrUnsupported(minVaddr: u64, eType: u16)
    | AddressOutOfRange
    | UnsupportedComplexElf(entry: u64, segments: nat, memorySize: nat)

  /** OutOfMemory is the allocation-error loop of the kernel. */
  datatype Loading = Refused(e: LoadError) | OutOfMemory | Panicked | Loaded(base: u64, entry: u64)

  function Segments(image: bytes): seq<LoadSegment>
    requires WellFormed(image)
  {
    Loads(image, PhNum(image))
  }

  /** The image passes every check made before its segments are copied. */
  predicate Sized(image: bytes, runner: Runner) {
    && WellFormed(image) && Segments(image) != []
    && !(runner.Native? && Half(image, 16) == ET_EXEC)
    && 0 < MemLen(Segments(image)) <= Limit(runner) && |Segments(image)| <= MAX_SEGMENTS
  }

  /** The first reason to refuse the image before its segments are copied. */
  predicate Refuses(image: bytes, runner: Runner, e: LoadError) {
    if !WellFormed(image) then e.Parse? && Faulty(image, e.e)
    else
      var segs := Segments(image);
      if segs == [] then e == NoLoadSegment
      else if runner.Native? && Half(image, 16) == ET_EXEC then e == FixedVaddrUnsupported(Lowest(segs), ET_EXEC)
      else if MemLen(segs) <= 0 then e == AddressOutOfRange
      else e == UnsupportedComplexElf(Xword(image, 24), |segs|, MemLen(segs))
  }

  /** The length of the memory a program gets, stack area included. */
  function MemorySize(image: bytes, runner: Runner): nat
    requires WellFormed(image) && MemLen(Segments(image)) >= 0
  {
    MemLen(Segments(image)) + StackSize(runner)
  }

  /** Nothing in the image keeps it from being loaded. */
  predicate Loadable(image: bytes, runner: Runner) {
    Sized(image, runner) &&
    var segs := Segments(image);
    Above(segs, Lowest(segs)) && AllPlaced(segs, Lowest(segs), MemLen(segs) + StackSize(runner), |image|)
  }

  /** The copy loop stops at a segment with trouble p. */
  ghost predicate Trouble(image: bytes, runner: Runner, p: Placement)
    requires WellFormed(image) && MemLen(Segments(image)) >= 0
  {
    var segs := Segments(image);
    Extent(segs);
    Stuck(segs, Lowest(segs), MemLen(segs) + StackSize(runner), |image|, p)
  }

  /** free is the room left in the kernel's heap when the memory is asked for. */
  method LoadProgram(image: bytes, runner: Runner, free: nat) returns (r: Loading, mem: array<byte>)
    requires |image| < TWO63
    ensures fresh(mem)
    ensures r.Loaded? <==> Loadable(image, runner) && MemorySize(image, runner) <= free
    ensures r.Loaded? ==>
              var segs := Segments(image);
              && r == Loaded(Lowest(segs), Xword(image, 24)) && mem.Length == MemorySize(image, runner)
              && InImage(segs, image) && Holds(mem[..], r.base, image, segs)
    ensures r.OutOfMemory? <==> Sized(image, runner) && MemorySize(image, runner) > free
    ensures !Sized(image, runner) ==> r.Refused? && Refuses(image, runner, r.e)
    ensures Sized(image, runner) && MemorySize(image, runner) <= free ==>
              && (r == Refused(AddressOutOfRange) <==> Trouble(image, runner, OutOfRange))
              && (r.Panicked? <==> Trouble(image, runner, Overruns))
              && (r.Refused? ==> r.e == AddressOutOfRange)
  {
    hide WellFormed, Faulty, Loads, Lowest, Highest, Holds, Stuck, AllPlaced;
    mem := new byte[0];
    var parsed := ParseElf64(image);
    if parsed.Err? {
      return Refused(Parse(parsed.e)), mem;
    }
    var elf := parsed.elf;
    if elf.segments == [] {
      return Refused(NoLoadSegment), mem;
    }
    var lo, hi := ScanSegments(elf.segments);
    if runner.Native? && elf.eType == ET_EXEC {
      return Refused(FixedVaddrUnsupported(lo, elf.eType)), mem;
    }
    if hi <= lo {
      return Refused(AddressOutOfRange), mem;
    }
    if hi - lo > Limit(runner) || |elf.segments| > MAX_SEGMENTS {
      return Refused(UnsupportedComplexElf(elf.entry, |elf.segments|, hi - lo)), mem;
    }
    var total := hi - lo + StackSize(runner);
    if total > free {
      return OutOfMemory, mem;
    }
    mem := new byte[total](_ => 0);
    Extent(elf.segments);
    var placed := CopySegments(mem, lo, elf.segments, image);
    match placed {
      case Placed => r := Loaded(lo, elf.entry);
      case OutOfRange => r := Refused(AddressOutOfRange);
      case Overruns => r := Panicked;
    }
  }

  // ---------------------------------------------------------------- images of one segment

  const ET_DYN := 3

  /** A position-independent image of one load segment that begins with the file, and pad more bytes. */
  function OneSegmentImage(vaddr: u64, memSize: u64, fileSize: u64, pad: nat): (image: bytes)
    ensures |image| == EHDR_SIZE + PHDR_SIZE + pad
  {
    var h := FileHeader(
      ELFCLASS64, ELFDATA2LSB, ET_DYN, EM_X86_64, 1, 0, EHDR_SIZE, 0, 0, EHDR_SIZE, PHDR_SIZE, 1, 0, 0, 0);
    EncodeFile(h) + EncodeAll([ProgramHeader(PT_LOAD, 0, 0, vaddr, 0, fileSize, memSize, 0)]) + seq<byte>(pad, _ => 0)
  }

  lemma {:induction false} OneSegment(vaddr: u64, memSize: u64, fileSize: u64, pad: nat)
    ensures var image := OneSegmentImage(vaddr, memSize, fileSize, pad);
            && WellFormed(image) && Half(image, 16) == ET_DYN
            && Segments(image) == [LoadSegment(vaddr, memSize, 0, fileSize, 0)]
  {
    hide EncodeFile, EncodeAll, WellFormed, Loads;
    var image := OneSegmentImage(vaddr, memSize, fileSize, pad);
    var hs := [ProgramHeader(PT_LOAD, 0, 0, vaddr, 0, fileSize, memSize, 0)];
    var h := FileHeader(
      ELFCLASS64, ELFDATA2LSB, ET_DYN, EM_X86_64, 1, 0, EHDR_SIZE, 0, 0, EHDR_SIZE, PHDR_SIZE, 1, 0, 0, 0);
    FileRoundTrip(image, h, hs);
    assert hs[..0] == [];
  }

  lemma {:induction false} OneRange(s: LoadSegment)
    requires s.vaddr + s.memSize < TWO64
    ensures Lowest([s]) == s.vaddr && Highest([s]) == s.vaddr + s.memSize
  {
    assert [s][..0] == [];
  }

  /** Whether such an image without address wrap is sized and how its segment fares. */
  lemma {:induction false} OneSegmentFares(vaddr: u64, memSize: u64, fileSize: u64, pad: nat, runner: Runner)
    requires 0 < memSize <= Limit(runner) && vaddr + memSize < TWO64
    ensures var image := OneSegmentImage(vaddr, memSize, fileSize, pad);
            && Sized(image, runner) && MemorySize(image, runner) == memSize + StackSize(runner)
            && (fileSize <= |image| ==>
                  && (fileSize <= memSize + StackSize(runner) ==> Loadable(image, runner))
                  && (fileSize > memSize + StackSize(runner) ==> Trouble(image, runner, Overruns)))
  {
    OneSegment(vaddr, memSize, fileSize, pad);
    hide OneSegmentImage, WellFormed, Loads, Half;
    var image, s := OneSegmentImage(vaddr, memSize, fileSize, pad), LoadSegment(vaddr, memSize, 0, fileSize, 0);
    OneRange(s);
    hide Lowest, Highest;
    var place := Place([s][0], vaddr, memSize + StackSize(runner), |image|);
    assert AllPlaced([s][..0], vaddr, memSize + StackSize(runner), |image|);
    if place == Placed {
      assert AllPlaced([s], vaddr, memSize + StackSize(runner), |image|);
    }
  }

  /** The limits in numbers: 16 MiB and 128 KiB of stack for the interpreter, 32 MiB and 256 KiB for the native
      runner, 16 segments for both; and what is said of an image beyond them. */
  lemma {:induction false} LimitsMeaning(image: bytes, runner: Runner, e: LoadError)
    requires WellFormed(image) && Segments(image) != [] && Half(image, 16) != 2 && MemLen(Segments(image)) > 0
    ensures var n, limit := MemLen(Segments(image)), if runner.Native? then 33_554_432 else 16_777_216;
            && (Sized(image, runner) <==> n <= limit && |Segments(image)| <= 16)
            && MemorySize(image, runner) == n + (if runner.Native? then 262_144 else 131_072)
            && (!Sized(image, runner) ==>
                  (Refuses(image, runner, e) <==> e == UnsupportedComplexElf(Xword(image, 24), |Segments(image)|, n)))
  {
    hide WellFormed, Loads, Lowest, Highest, Half, Xword;
  }

  /** No segment, a fixed address for the native runner, and an empty range, in this order. */
  lemma {:induction false} RefusalMeaning(image: bytes, runner: Runner, e: LoadError)
    requires WellFormed(image)
    ensures Segments(image) == [] ==> !Sized(image, runner) && (Refuses(image, runner, e) <==> e == NoLoadSegment)
    ensures Segments(image) != [] && runner.Native? && Half(image, 16) == 2 ==>
              !Sized(image, runner) &&
              (Refuses(image, runner, e) <==> e == FixedVaddrUnsupported(Lowest(Segments(image)), 2))
    ensures Segments(image) != [] && !(runner.Native? && Half(image, 16) == 2) && MemLen(Segments(image)) <= 0 ==>
              !Sized(image, runner) && (Refuses(image, runner, e) <==> e == AddressOutOfRange)
  {
    hide WellFormed, Loads, Lowest, Highest, Half, Xword;
  }

  /** One byte in memory, and more in the file than the stack area holds. */
  function OverrunningImage(runner: Runner): bytes {
    OneSegmentImage(0, 1, StackSize(runner) + 2, StackSize(runner))
  }

  /** It passes every check of the runner, and the copy of its segment panics. */
  lemma {:induction false} OverrunHappens(runner: Runner)
    ensures Sized(OverrunningImage(runner), runner)
    ensures Trouble(OverrunningImage(runner), runner, Overruns)
  {
    hide OneSegmentImage, Sized, Loadable, Trouble;
    OneSegmentFares(0, 1, StackSize(runner) + 2, StackSize(runner), runner);
  }

  /** The native runner loads whatever the interpreter loads, fixed-address programs aside. */
  lemma {:induction false} NativeLoadsMore(image: bytes)
    requires Loadable(image, Interpreted) && Half(image, 16) != ET_EXEC
    ensures Loadable(image, Native)
  {
    hide WellFormed, Loads, Lowest, Highest, Half;
    var segs := Segments(image);
    PlacedExactly(segs, StackSize(Interpreted), |image|);
    PlacedExactly(segs, StackSize(Native), |image|);
  }

  /** But not the other way round: its larger stack area takes the image on which the interpreter panics. */
  lemma {:induction false} NativeLoadsStrictlyMore()
    ensures Loadable(OverrunningImage(Interpreted), Native)
  {
    hide OneSegmentImage, Sized, Loadable, Trouble;
    OneSegmentFares(0, 1, STACK_SIZE + 2, STACK_SIZE, Native);
  }
}
