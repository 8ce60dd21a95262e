/** The bump allocator under every interleaving: one initialization and any number of threads, each
    loading the flag, the limit and the cursor and retrying its compare-exchange. */
module BumpAllocator {
  import opened Words
  import opened Bits

  // ---------------------------------------------------------------- alignment

  /** `(addr + align - 1) & !(align - 1)`. */
  function AlignUp(addr: u64, align: u64): u64
    requires align > 0
  {
    And64(Wrap64(addr + align - 1), Not64(align - 1))
  }

  ghost predicate IsPowerOfTwo(align: u64) {
    exists k: nat :: k < 64 && Pow2(k) == align
  }

  lemma {:induction false} AlignUpValue(addr: u64, align: u64)
    requires align > 0 && IsPowerOfTwo(align)
    ensures AlignUp(addr, align) == Wrap64(addr + align - 1) - Wrap64(addr + align - 1) % align
  {
    var k: nat :| k < 64 && Pow2(k) == align;
    MaskRoundsDown(k, Wrap64(addr + align - 1));
  }

  /** Where the sum does not wrap, the mask gives the least multiple of align that is at least addr. */
  lemma {:induction false} AlignUpIsLeast(addr: u64, align: u64, m: nat)
    requires align > 0 && IsPowerOfTwo(align) && addr + align - 1 < TWO64
    ensures addr <= AlignUp(addr, align) < addr + align && AlignUp(addr, align) % align == 0
    ensures m % align == 0 && addr <= m ==> AlignUp(addr, align) <= m
  {
    hide AlignUp;
    AlignUpValue(addr, align);
    var x := addr + align - 1;
    RemainderIs(x - x % align, align, x / align, 0);
    if m % align == 0 && addr <= m {
      var q, p := m / align, x / align;
      assert m == align * q && x - x % align == align * p;
      Multiples(align, q, p);
    }
  }

  lemma {:induction false} Multiples(a: nat, q: nat, p: nat)
    ensures q < p ==> a * q + a <= a * p
    ensures p <= q ==> a * p <= a * q
  {
    if q < p {
      Monotonic(a, q + 1, p);
      assert a * (q + 1) == a * q + a;
    } else {
      Monotonic(a, p, q);
    }
  }

  /** The sum wraps exactly when the result falls below addr, and then the result is 0. */
  lemma {:induction false} AlignUpWraps(addr: u64, align: u64)
    requires align > 0 && IsPowerOfTwo(align)
    ensures AlignUp(addr, align) < addr <==> addr + align - 1 >= TWO64
    ensures addr + align - 1 >= TWO64 ==> AlignUp(addr, align) == 0
  {
    hide AlignUp;
    AlignUpValue(addr, align);
    if addr + align - 1 >= TWO64 {
      var w := addr + align - 1 - TWO64;
      assert Wrap64(addr + align - 1) == w < align;
      RemainderIs(w, align, 0, w);
    } else {
      AlignUpIsLeast(addr, align, 0);
    }
  }

  // ---------------------------------------------------------------- the protocol

  datatype Layout = Layout(size: u64, align: u64)

  /** Where a thread stands in `alloc`. */
  datatype Pc = Idle | Checked(l: Layout) | HaveEnd(l: Layout, end: u64) | Ready(l: Layout, end: u64, current: u64)

  datatype Block = Block(start: u64, l: Layout)

  datatype Heap = Heap(start: u64, size: nat)

  datatype State = State(
    heapStart: u64, heapEnd: u64, next: u64, initialized: bool, stores: nat, threads: map<nat, Pc>, blocks: seq<Block>)

  const BOOT := State(0, 0, 0, false, 0, map[], [])

  datatype Event = Init | Call(t: nat, l: Layout) | LoadEnd(t: nat) | LoadNext(t: nat) | Attempt(t: nat)

  function PcOf(s: State, t: nat): Pc {
    if t in s.threads then s.threads[t] else Idle
  }

  function Goto(s: State, t: nat, pc: Pc): State {
    s.(threads := s.threads[t := pc])
  }

  /** The four stores of `init`, one at a time. */
  function InitStep(h: Heap, s: State): State
    requires h.start + h.size < TWO64
  {
    if s.stores == 0 then s.(heapStart := h.start, stores := 1)
    else if s.stores == 1 then s.(heapEnd := h.start + h.size, stores := 2)
    else if s.stores == 2 then s.(next := h.start, stores := 3)
    else if s.stores == 3 then s.(initialized := true, stores := 4)
    else s
  }

  /** One turn of the retry loop: local arithmetic and one compare-exchange. */
  function AttemptStep(s: State, t: nat, l: Layout, end: u64, current: u64): State
    requires l.align > 0
  {
    var at := AlignUp(current, l.align);
    if at + l.size >= TWO64 || at + l.size > end then Goto(s, t, Idle)
    else if s.next == current then Goto(s, t, Idle).(next := at + l.size, blocks := s.blocks + [Block(at, l)])
    else Goto(s, t, Ready(l, end, s.next))
  }

  /** The state after an event; an event that is not enabled changes nothing. */
  function Next(h: Heap, s: State, e: Event): State
    requires h.start + h.size < TWO64
  {
    match e
    case Init => InitStep(h, s)
    case Call(t, l) => if PcOf(s, t) == Idle && s.initialized && l.align > 0 then Goto(s, t, Checked(l)) else s
    case LoadEnd(t) =>
      (match PcOf(s, t)
       case Checked(l) => Goto(s, t, HaveEnd(l, s.heapEnd))
       case _ => s)
    case LoadNext(t) =>
      (match PcOf(s, t)
       case HaveEnd(l, end) => Goto(s, t, Ready(l, end, s.next))
       case _ => s)
    case Attempt(t) =>
      (match PcOf(s, t)
       case Ready(l, end, current) => if l.align > 0 then AttemptStep(s, t, l, end, current) else s
       case _ => s)
  }

  function Run(h: Heap, s: State, es: seq<Event>): State
    requires h.start + h.size < TWO64
    decreases |es|
  {
    if es == [] then s else Run(h, Next(h, s, es[0]), es[1..])
  }

  // ---------------------------------------------------------------- safety

  /** A layout whose rounding cannot wrap anywhere in the heap. */
  ghost predicate Roundable(h: Heap, l: Layout) {
    l.align > 0 && IsPowerOfTwo(l.align) && h.start + h.size + l.align <= TWO64
  }

  /** A layout whose rounding cannot wrap, or that is too large to be served wherever it is put. */
  ghost predicate Harmless(h: Heap, l: Layout) {
    l.align > 0 && (Roundable(h, l) || l.size > h.start + h.size)
  }

  ghost predicate GoodEvent(h: Heap, e: Event) {
    e.Call? ==> Harmless(h, e.l)
  }

  ghost predicate GoodPc(h: Heap, s: State, pc: Pc) {
    match pc
    case Idle => true
    case Checked(l) => Harmless(h, l)
    case HaveEnd(l, end) => Harmless(h, l) && end == h.start + h.size
    case Ready(l, end, current) => Harmless(h, l) && end == h.start + h.size && h.start <= current <= s.next
  }

  function Cost(blocks: seq<Block>): nat {
    if blocks == [] then 0
    else
      var b := blocks[|blocks| - 1];
      Cost(blocks[..|blocks| - 1]) + b.l.size + if b.l.align > 0 then b.l.align - 1 else 0
  }

  ghost predicate GoodBlock(h: Heap, s: State, b: Block) {
    b.l.align > 0 && h.start <= b.start && b.start + b.l.size <= s.next && b.start % b.l.align == 0
  }

  ghost predicate Inv(h: Heap, s: State) {
    && h.start + h.size < TWO64
    && s.stores <= 4 && (s.initialized <==> s.stores == 4)
    && (s.stores < 4 ==> s.blocks == [] && forall t :: t in s.threads ==> s.threads[t] == Idle)
    && (s.stores >= 2 ==> s.heapEnd == h.start + h.size)
    && (s.stores >= 3 ==> h.start <= s.next <= h.start + h.size && s.next <= h.start + Cost(s.blocks))
    && (forall t :: t in s.threads ==> GoodPc(h, s, s.threads[t]))
    && (forall i :: 0 <= i < |s.blocks| ==> GoodBlock(h, s, s.blocks[i]))
    && (forall i, j :: 0 <= i < j < |s.blocks| ==> s.blocks[i].start + s.blocks[i].l.size <= s.blocks[j].start)
  }

  lemma {:induction false} BootInv(h: Heap)
    requires h.start + h.size < TWO64
    ensures Inv(h, BOOT)
  {
  }

  lemma {:induction false} CostSnoc(blocks: seq<Block>, b: Block)
    requires b.l.align > 0
    ensures Cost(blocks + [b]) == Cost(blocks) + b.l.size + b.l.align - 1
  {
    assert (blocks + [b])[..|blocks|] == blocks;
  }

  lemma {:induction false} AttemptInv(h: Heap, s: State, t: nat, l: Layout, end: u64, current: u64)
    requires Inv(h, s) && PcOf(s, t) == Ready(l, end, current)
    ensures Inv(h, AttemptStep(s, t, l, end, current))
    ensures AttemptStep(s, t, l, end, current).next >= s.next
  {
    if Roundable(h, l) {
      AlignUpIsLeast(current, l.align, 0);
    }
    hide AlignUp, IsPowerOfTwo;
    var at := AlignUp(current, l.align);
    var s' := AttemptStep(s, t, l, end, current);
    if s'.blocks != s.blocks {
      CostSnoc(s.blocks, Block(at, l));
      hide Cost;
      assert s'.blocks == s.blocks + [Block(at, l)];
      forall i | 0 <= i < |s'.blocks|
        ensures GoodBlock(h, s', s'.blocks[i])
      {
        assert i < |s.blocks| ==> GoodBlock(h, s, s.blocks[i]);
      }
    }
  }

  lemma {:induction false} StepInv(h: Heap, s: State, e: Event)
    requires Inv(h, s) && GoodEvent(h, e)
    ensures Inv(h, Next(h, s, e))
    ensures s.stores == 4 ==> Next(h, s, e).next >= s.next
  {
    if e.Attempt? && PcOf(s, e.t).Ready? {
      AttemptInv(h, s, e.t, PcOf(s, e.t).l, PcOf(s, e.t).end, PcOf(s, e.t).current);
    }
    hide AttemptStep, Cost, IsPowerOfTwo;
  }

  predicate Disjoint(a: Block, b: Block) {
    a.start + a.l.size <= b.start || b.start + b.l.size <= a.start
  }

  predicate Inside(h: Heap, b: Block) {
    h.start <= b.start && b.start + b.l.size <= h.start + h.size
  }

  /** The blocks handed out so far are pairwise disjoint, inside the heap and aligned. */
  ghost predicate Safe(h: Heap, s: State) {
    && (forall i, j :: 0 <= i < j < |s.blocks| ==> Disjoint(s.blocks[i], s.blocks[j]))
    && (forall b :: b in s.blocks ==> Inside(h, b) && b.l.align > 0 && b.start % b.l.align == 0)
  }

  /** After any interleaving of calls with harmless layouts, with the initialization somewhere in it, the
      returned blocks are safe, and together cost at least what the cursor has moved. */
  lemma {:induction false} BlocksAreSafe(h: Heap, es: seq<Event>)
    requires h.start + h.size < TWO64 && forall k :: 0 <= k < |es| ==> GoodEvent(h, es[k])
    ensures Safe(h, Run(h, BOOT, es))
    ensures var s := Run(h, BOOT, es); s.initialized ==> s.next - h.start <= Cost(s.blocks)
  {
    BootInv(h);
    RunInv(h, BOOT, es);
    var s := Run(h, BOOT, es);
    assert forall i :: 0 <= i < |s.blocks| ==> GoodBlock(h, s, s.blocks[i]);
  }

  lemma {:induction false} RunInv(h: Heap, s: State, es: seq<Event>)
    requires h.start + h.size < TWO64
    requires Inv(h, s) && forall k :: 0 <= k < |es| ==> GoodEvent(h, es[k])
    ensures Inv(h, Run(h, s, es))
    decreases |es|
  {
    hide Inv, GoodEvent, Next;
    if es != [] {
      StepInv(h, s, es[0]);
      RunInv(h, Next(h, s, es[0]), es[1..]);
    }
  }

  /** Once initialized, the cursor never moves back. */
  lemma {:induction false} CursorMonotonic(h: Heap, s: State, es: seq<Event>)
    requires Inv(h, s) && s.initialized && forall k :: 0 <= k < |es| ==> GoodEvent(h, es[k])
    ensures s.next <= Run(h, s, es).next
    decreases |es|
  {
    if es != [] {
      StepInv(h, s, es[0]);
      assert Next(h, s, es[0]).initialized by {
        hide AttemptStep;
        StillInitialized(h, s, es[0]);
      }
      CursorMonotonic(h, Next(h, s, es[0]), es[1..]);
    }
  }

  lemma {:induction false} StillInitialized(h: Heap, s: State, e: Event)
    requires Inv(h, s) && s.initialized
    ensures Next(h, s, e).initialized
  {
    hide AlignUp, IsPowerOfTwo, Cost;
  }

  // ---------------------------------------------------------------- progress

  /** A failed compare-exchange leaves its thread with a strictly larger cursor, still within the heap. */
  lemma {:induction false} FailureProgresses(h: Heap, s: State, t: nat)
    requires Inv(h, s) && PcOf(s, t).Ready? && PcOf(Next(h, s, Attempt(t)), t).Ready?
    ensures PcOf(s, t).current < PcOf(Next(h, s, Attempt(t)), t).current <= h.start + h.size
  {
    hide AlignUp, IsPowerOfTwo, Cost;
  }

  /** Thread t stays in its retry loop throughout. */
  predicate StaysReady(h: Heap, s: State, es: seq<Event>, t: nat)
    requires h.start + h.size < TWO64
    decreases |es|
  {
    PcOf(s, t).Ready? && (es != [] ==> StaysReady(h, Next(h, s, es[0]), es[1..], t))
  }

  function Failures(es: seq<Event>, t: nat): nat {
    if es == [] then 0 else (if es[0] == Attempt(t) then 1 else 0) + Failures(es[1..], t)
  }

  /** So however the others run, one call retries at most as often as the heap has bytes. */
  lemma {:induction false} RetriesBounded(h: Heap, s: State, es: seq<Event>, t: nat)
    requires Inv(h, s) && (forall k :: 0 <= k < |es| ==> GoodEvent(h, es[k])) && StaysReady(h, s, es, t)
    ensures StaysReady(h, Run(h, s, es), [], t)
    ensures Failures(es, t) <= PcOf(Run(h, s, es), t).current - PcOf(s, t).current <= h.size
    decreases |es|
  {
    hide Next;
    if es == [] {
      assert PcOf(s, t).Ready?;
    } else {
      var s' := Next(h, s, es[0]);
      StepInv(h, s, es[0]);
      RetriesBounded(h, s', es[1..], t);
      RunInv(h, s', es[1..]);
      if es[0] == Attempt(t) {
        FailureProgresses(h, s, t);
      } else {
        OthersKeepCursor(h, s, es[0], t);
      }
    }
  }

  /** Nobody else touches a thread's own copy of the cursor. */
  lemma {:induction false} OthersKeepCursor(h: Heap, s: State, e: Event, t: nat)
    requires h.start + h.size < TWO64 && PcOf(s, t).Ready? && e != Attempt(t)
    ensures PcOf(Next(h, s, e), t) == PcOf(s, t)
  {
    hide AlignUp;
  }

  // ---------------------------------------------------------------- when exactly it is safe

  const ISIZE_MAX := TWO63 - 1

  /** The layouts `alloc` may be called with: not empty, and of a size that rounded up to the alignment is
      at most isize::MAX, as every Layout is. */
  ghost predicate Admitted(l: Layout) {
    l.align > 0 && IsPowerOfTwo(l.align) && 0 < l.size && l.size + l.align - 1 <= ISIZE_MAX
  }

  /** A call with l, or one with an admitted layout that cannot wrap. */
  ghost predicate Offered(h: Heap, l: Layout, e: Event) {
    e.Call? ==> e.l == l || (Admitted(e.l) && Roundable(h, e.l))
  }

  ghost predicate AllOffered(h: Heap, l: Layout, es: seq<Event>) {
    forall k :: 0 <= k < |es| ==> Offered(h, l, es[k])
  }

  /** l can be allocated along with layouts that cannot wrap, in every run. */
  ghost predicate SafeToUse(h: Heap, l: Layout)
    requires h.start + h.size < TWO64
  {
    forall es :: AllOffered(h, l, es) ==> Safe(h, Run(h, BOOT, es))
  }

  /** The exact condition, known before the call: the end of the heap and the alignment together do not
      exceed 2^64, or the request exceeds the end of the heap. */
  lemma {:induction false} SafeExactly(h: Heap, l: Layout)
    requires 0 < h.start && h.start + h.size < TWO64 && Admitted(l)
    ensures SafeToUse(h, l) <==> h.start + h.size + l.align <= TWO64 || l.size > h.start + h.size
  {
    hide Run, Safe;
    if Harmless(h, l) {
      forall es | AllOffered(h, l, es) ensures Safe(h, Run(h, BOOT, es)) {
        assert forall k :: 0 <= k < |es| ==> GoodEvent(h, es[k]);
        BlocksAreSafe(h, es);
      }
    } else {
      WrappedRoundingEscapes(h, l);
      assert !SafeToUse(h, l);
    }
  }

  // ---------------------------------------------------------------- the run that escapes

  /** One whole call of thread 0 with nobody else moving. */
  function AllocEvents(l: Layout): seq<Event> {
    [Call(0, l), LoadEnd(0), LoadNext(0), Attempt(0)]
  }

  /** Calls that take n bytes without rounding. */
  function FillEvents(n: nat): seq<Event> {
    if n == 0 then []
    else
      var m := if n <= ISIZE_MAX then n else ISIZE_MAX;
      AllocEvents(Layout(m, 1)) + FillEvents(n - m)
  }

  /** Fill the heap, then ask for l. */
  function EscapeEvents(h: Heap, l: Layout): seq<Event> {
    [Init, Init, Init, Init] + (FillEvents(h.size) + AllocEvents(l))
  }

  /** Initialized, with thread 0 between calls. */
  predicate Quiet(h: Heap, s: State) {
    s.initialized && s.heapEnd == h.start + h.size && PcOf(s, 0) == Idle
  }

  /** What one undisturbed call does. */
  lemma {:induction false} AllocRuns(h: Heap, s: State, l: Layout)
    requires h.start + h.size < TWO64 && Quiet(h, s) && l.align > 0
    ensures var (s', at) := (Run(h, s, AllocEvents(l)), AlignUp(s.next, l.align));
            && Quiet(h, s')
            && (at + l.size <= h.start + h.size ==> s'.next == at + l.size && s'.blocks == s.blocks + [Block(at, l)])
            && (at + l.size > h.start + h.size ==> s'.next == s.next && s'.blocks == s.blocks)
  {
    hide AlignUp;
    var s1 := Next(h, s, Call(0, l));
    var s2 := Next(h, s1, LoadEnd(0));
    var s3 := Next(h, s2, LoadNext(0));
    RunCons(h, s, Call(0, l), [LoadEnd(0), LoadNext(0), Attempt(0)]);
    RunCons(h, s1, LoadEnd(0), [LoadNext(0), Attempt(0)]);
    RunCons(h, s2, LoadNext(0), [Attempt(0)]);
    RunCons(h, s3, Attempt(0), []);
    hide Run;
    assert PcOf(s3, 0) == Ready(l, h.start + h.size, s.next) && s3.next == s.next && s3.blocks == s.blocks;
  }

  lemma {:induction false} NoRounding(addr: u64)
    ensures AlignUp(addr, 1) == addr && IsPowerOfTwo(1)
  {
    assert Pow2(0) == 1;
    AlignUpIsLeast(addr, 1, addr);
  }

  lemma {:induction false} FillRuns(h: Heap, s: State, n: nat)
    requires h.start + h.size < TWO64 && Quiet(h, s) && s.next + n <= h.start + h.size
    ensures Quiet(h, Run(h, s, FillEvents(n))) && Run(h, s, FillEvents(n)).next == s.next + n
    decreases n
  {
    hide AlignUp, Quiet, AllocEvents;
    if n > 0 {
      var m := if n <= ISIZE_MAX then n else ISIZE_MAX;
      NoRounding(s.next);
      AllocRuns(h, s, Layout(m, 1));
      var s' := Run(h, s, AllocEvents(Layout(m, 1)));
      FillRuns(h, s', n - m);
      RunJoin(h, s, AllocEvents(Layout(m, 1)), FillEvents(n - m));
    }
  }

  lemma {:induction false} FillOffered(h: Heap, l: Layout, n: nat)
    requires h.start + h.size < TWO64
    ensures AllOffered(h, l, FillEvents(n))
    decreases n
  {
    if n > 0 {
      var m := if n <= ISIZE_MAX then n else ISIZE_MAX;
      NoRounding(0);
      FillOffered(h, l, n - m);
      hide IsPowerOfTwo;
      assert AllOffered(h, l, AllocEvents(Layout(m, 1)));
    }
  }

  /** Whenever the condition fails, one thread is enough: it fills the heap with unaligned blocks, asks for l
      and is given the block at address 0, and the cursor falls below the heap. */
  lemma {:induction false} WrappedRoundingEscapes(h: Heap, l: Layout)
    requires 0 < h.start && h.start + h.size < TWO64 && Admitted(l)
    requires h.start + h.size + l.align > TWO64 && l.size <= h.start + h.size
    ensures AllOffered(h, l, EscapeEvents(h, l))
    ensures var s := Run(h, BOOT, EscapeEvents(h, l));
            Block(0, l) in s.blocks && s.next == l.size && !Safe(h, s)
  {
    FillOffered(h, l, h.size);
    hide AlignUp, FillEvents, Quiet;
    var s0 := State(h.start, h.start + h.size, h.start, true, 4, map[], []);
    RunFour(h, FillEvents(h.size) + AllocEvents(l));
    RunJoin(h, s0, FillEvents(h.size), AllocEvents(l));
    assert Quiet(h, s0) by {
      Settled(h, s0);
    }
    FillRuns(h, s0, h.size);
    var s1 := Run(h, s0, FillEvents(h.size));
    AlignUpWraps(h.start + h.size, l.align);
    hide IsPowerOfTwo;
    AllocRuns(h, s1, l);
    assert Run(h, BOOT, EscapeEvents(h, l)).blocks == s1.blocks + [Block(0, l)];
    assert !Inside(h, Block(0, l));
  }

  lemma {:induction false} Settled(h: Heap, s: State)
    requires s.initialized && s.heapEnd == h.start + h.size && s.threads == map[]
    ensures Quiet(h, s)
  {
  }

  const HEAP_SIZE := 32 * 1024 * 1024

  /** Such a heap and an admitted layout exist: a heap of the kernel's size at the start of the upper half of
      the address space, and an alignment of 2^62. */
  lemma {:induction false} EscapeHappens()
    ensures var h, l := Heap(0xFFFF_8000_0000_0000, HEAP_SIZE), Layout(64, 0x4000_0000_0000_0000);
            Admitted(l) && !SafeToUse(h, l) && Block(0, l) in Run(h, BOOT, EscapeEvents(h, l)).blocks
  {
    Pow2Of64();
    assert Pow2(64) == 4 * Pow2(62);
    var h, l := Heap(0xFFFF_8000_0000_0000, HEAP_SIZE), Layout(64, 0x4000_0000_0000_0000);
    assert IsPowerOfTwo(l.align);
    hide Run, EscapeEvents, IsPowerOfTwo;
    WrappedRoundingEscapes(h, l);
    SafeExactly(h, l);
  }

  /** One attempt on its own: it yields a block inside the heap, a block at address 0, or no block. */
  lemma {:induction false} AttemptOutcome(h: Heap, s: State, t: nat, l: Layout, current: u64)
    requires h.start + h.size < TWO64 && h.start <= current <= h.start + h.size && Admitted(l)
    ensures var (s', at) := (AttemptStep(s, t, l, h.start + h.size, current), AlignUp(current, l.align));
            if s.next != current then s'.blocks == s.blocks
            else if current + l.align > TWO64
            then s'.blocks == if l.size <= h.start + h.size then s.blocks + [Block(0, l)] else s.blocks
            else && current <= at < current + l.align && at % l.align == 0
                 && s'.blocks == if at + l.size <= h.start + h.size then s.blocks + [Block(at, l)] else s.blocks
  {
    AlignUpWraps(current, l.align);
    if current + l.align <= TWO64 {
      AlignUpIsLeast(current, l.align, 0);
    }
    hide AlignUp, IsPowerOfTwo;
  }

  /** A thread retries exactly when it lost its compare-exchange, with the cursor it saw, and gives up or returns
      otherwise; losing changes nothing else, and no attempt concerns another thread. */
  lemma {:induction false} RetriesExactly(h: Heap, s: State, t: nat)
    requires h.start + h.size < TWO64 && PcOf(s, t).Ready? && PcOf(s, t).l.align > 0
    ensures var Ready(l, end, current) := PcOf(s, t);
            var s' := Next(h, s, Attempt(t));
            var fits := AlignUp(current, l.align) + l.size < 0x1_0000_0000_0000_0000
                        && AlignUp(current, l.align) + l.size <= end;
            && PcOf(s', t) == (if fits && s.next != current then Ready(l, end, s.next) else Idle)
            && s'.next == (if fits && s.next == current then AlignUp(current, l.align) + l.size else s.next)
            && (!(fits && s.next == current) ==> s'.blocks == s.blocks)
            && forall u: nat :: u != t ==> PcOf(s', u) == PcOf(s, u)
  {
    hide AlignUp;
  }

  lemma {:induction false} RunJoin(h: Heap, s: State, es: seq<Event>, fs: seq<Event>)
    requires h.start + h.size < TWO64
    ensures Run(h, s, es + fs) == Run(h, Run(h, s, es), fs)
    decreases |es|
  {
    hide Next;
    if es == [] {
      assert es + fs == fs;
    } else {
      RunJoin(h, Next(h, s, es[0]), es[1..], fs);
      assert (es + fs)[1..] == es[1..] + fs;
    }
  }

  lemma {:induction false} RunCons(h: Heap, s: State, e: Event, es: seq<Event>)
    requires h.start + h.size < TWO64
    ensures Run(h, s, [e] + es) == Run(h, Next(h, s, e), es)
    ensures es == [] ==> Run(h, s, [e]) == Next(h, s, e)
  {
    assert ([e] + es)[1..] == es;
  }

  /** The completed initialization. */
  lemma {:induction false} RunFour(h: Heap, es: seq<Event>)
    requires h.start + h.size < TWO64
    ensures Run(h, BOOT, [Init, Init, Init, Init] + es) ==
            Run(h, State(h.start, h.start + h.size, h.start, true, 4, map[], []), es)
  {
    var s1 := Next(h, BOOT, Init);
    var s2 := Next(h, s1, Init);
    var s3 := Next(h, s2, Init);
    RunCons(h, BOOT, Init, [Init, Init, Init] + es);
    RunCons(h, s1, Init, [Init, Init] + es);
    RunCons(h, s2, Init, [Init] + es);
    RunCons(h, s3, Init, es);
    assert [Init, Init, Init, Init] + es == [Init] + ([Init, Init, Init] + es);
    assert [Init, Init, Init] + es == [Init] + ([Init, Init] + es);
    assert [Init, Init] + es == [Init] + ([Init] + es);
  }
}
