/** The heap that programs' memories come from: what a load needs, and how many programs a boot can load. */
module ProgramHeap {
  import opened Words
  import opened BumpAllocator
  import Loader

  // ---------------------------------------------------------------- room

  /** What is left of the heap. */
  function Room(h: Heap, s: State): int {
    h.start + h.size - s.next
  }

  ghost predicate AllGood(h: Heap, es: seq<Event>) {
    forall k :: 0 <= k < |es| ==> GoodEvent(h, es[k])
  }

  /** The room is never more than the heap. */
  lemma {:induction false} RoomBounded(h: Heap, es: seq<Event>)
    requires h.start + h.size < TWO64 && AllGood(h, es) && Run(h, BOOT, es).initialized
    ensures 0 <= Room(h, Run(h, BOOT, es)) <= h.size
  {
    BootInv(h);
    RunInv(h, BOOT, es);
  }

  /** The buffer of n bytes for a program's memory is granted exactly when the room suffices. */
  lemma {:induction false} MemoryGranted(h: Heap, es: seq<Event>, n: u64)
    requires h.start + h.size < TWO64 && AllGood(h, es) && Quiet(h, Run(h, BOOT, es))
    ensures var s := Run(h, BOOT, es);
            Run(h, s, AllocEvents(Layout(n, 1))).blocks ==
            if n <= Room(h, s) then s.blocks + [Block(s.next, Layout(n, 1))] else s.blocks
  {
    hide Run, AllocEvents;
    var s := Run(h, BOOT, es);
    NoRounding(s.next);
    AllocRuns(h, s, Layout(n, 1));
  }

  /** The same for one attempt among other threads: it is granted exactly when it wins and the room suffices. */
  lemma {:induction false} AttemptGranted(h: Heap, s: State, t: nat, n: u64, current: u64)
    requires h.start + h.size < TWO64 && h.start <= current <= h.start + h.size && 0 < n <= ISIZE_MAX
    ensures AttemptStep(s, t, Layout(n, 1), h.start + h.size, current).blocks ==
            if s.next == current && n <= Room(h, s) then s.blocks + [Block(current, Layout(n, 1))] else s.blocks
  {
    NoRounding(current);
    AttemptOutcome(h, s, t, Layout(n, 1), current);
  }

  // ---------------------------------------------------------------- programs too large for the heap

  /** A native program within the runner's limits that leaves less than the stack area of the heap is never
      loaded, whatever has happened since boot. */
  lemma {:induction false} LargeNativeNeverLoads(image: bytes, h: Heap, es: seq<Event>)
    requires h.size == HEAP_SIZE && h.start + h.size < TWO64 && AllGood(h, es) && Run(h, BOOT, es).initialized
    requires Loader.Sized(image, Loader.Native)
    requires Loader.MemLen(Loader.Segments(image)) > HEAP_SIZE - Loader.NATIVE_STACK_SIZE
    ensures Loader.MemorySize(image, Loader.Native) > Room(h, Run(h, BOOT, es))
  {
    RoomBounded(h, es);
  }

  /** Such a program fits in 120 bytes of file, and the runner finds nothing wrong with it. */
  lemma {:induction false} LargeNativeHappens()
    ensures var image := Loader.OneSegmentImage(0, Loader.MAX_NATIVE_MEM, 0, 0);
            && |image| == 120 && Loader.Loadable(image, Loader.Native)
            && Loader.MemorySize(image, Loader.Native) == HEAP_SIZE + Loader.NATIVE_STACK_SIZE
  {
    hide Loader.OneSegmentImage, Loader.Loadable, Loader.Trouble, Loader.MemorySize;
    Loader.OneSegmentFares(0, Loader.MAX_NATIVE_MEM, 0, 0, Loader.Native);
  }

  // ---------------------------------------------------------------- how many programs

  function Total(blocks: seq<Block>): nat {
    if blocks == [] then 0 else Total(blocks[..|blocks| - 1]) + blocks[|blocks| - 1].l.size
  }

  /** How many of the blocks can be a program's memory: both runners ask for more than the stack area. */
  function Programs(blocks: seq<Block>): nat {
    if blocks == [] then 0
    else Programs(blocks[..|blocks| - 1]) + if blocks[|blocks| - 1].l.size > Loader.STACK_SIZE then 1 else 0
  }

  lemma {:induction false} MemoryIsLarge(image: bytes, runner: Loader.Runner)
    requires Loader.Sized(image, runner)
    ensures Loader.MemorySize(image, runner) > Loader.STACK_SIZE
  {
  }

  lemma {:induction false} TotalInside(h: Heap, s: State, n: nat)
    requires Inv(h, s) && n <= |s.blocks|
    ensures Total(s.blocks[..n]) <= if n == 0 then 0 else s.blocks[n - 1].start + s.blocks[n - 1].l.size - h.start
  {
    if n > 0 {
      TotalInside(h, s, n - 1);
      assert s.blocks[..n][..n - 1] == s.blocks[..n - 1];
      assert GoodBlock(h, s, s.blocks[n - 1]);
    }
  }

  lemma {:induction false} ProgramsCost(blocks: seq<Block>)
    ensures (Loader.STACK_SIZE + 1) * Programs(blocks) <= Total(blocks)
  {
    if blocks != [] {
      ProgramsCost(blocks[..|blocks| - 1]);
    }
  }

  /** Nothing is ever freed: all blocks of a run together fit the heap, so at most 255 programs can be loaded
      between one boot and the next. */
  lemma {:induction false} FewPrograms(h: Heap, es: seq<Event>)
    requires h.start + h.size < TWO64 && AllGood(h, es)
    ensures Total(Run(h, BOOT, es).blocks) <= h.size
    ensures h.size == HEAP_SIZE ==> Programs(Run(h, BOOT, es).blocks) <= 255
  {
    BootInv(h);
    RunInv(h, BOOT, es);
    var s := Run(h, BOOT, es);
    var n := |s.blocks|;
    TotalInside(h, s, n);
    assert s.blocks[..n] == s.blocks;
    if n > 0 {
      assert GoodBlock(h, s, s.blocks[n - 1]);
    }
    ProgramsCost(s.blocks);
  }
}
