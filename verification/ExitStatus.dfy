/** Exit marks and wait4: one recorded exit code and a flag that a wait consumes. */
module ExitStatus {
  import opened Words

  const SELF_PID := 3
  const ECHILD := 10

  datatype ExitState = ExitState(last: int, waitable: bool)

  /** Marks come from exit and exit_group (an argument cut to 32 bits) and from the program runners. */
  datatype Op = Exit(arg: u64) | Mark(code: int) | Wait(pid: int, hasStatus: bool)

  /** Return value, and the status word stored through a non-null pointer. */
  datatype Answer = Answer(s: ExitState, ret: int, status: Option<nat>)

  function Apply(s: ExitState, op: Op): Answer {
    match op
    case Exit(arg) => Answer(ExitState(Signed32(arg % TWO32), true), 0, None)
    case Mark(code) => Answer(ExitState(code, true), 0, None)
    case Wait(pid, hasStatus) =>
      if pid > 0 && pid != SELF_PID then Answer(s, -ECHILD, None)
      else if !s.waitable then Answer(s.(waitable := false), -ECHILD, None)
      else Answer(s.(waitable := false), SELF_PID, if hasStatus then Some(s.last % TWO8 * TWO8) else None)
  }

  class ExitCell {
    var last: int
    var waitable: bool

    constructor ()
      ensures State() == ExitState(0, false)
    {
      last, waitable := 0, false;
    }

    function State(): ExitState
      reads this
    {
      ExitState(last, waitable)
    }

    method MarkExitCode(code: int)
      modifies this
      ensures State() == Apply(old(State()), Mark(code)).s
    {
      last := code;
      waitable := true;
    }

    method Wait4(pid: int, hasStatus: bool) returns (ret: int, status: Option<nat>)
      modifies this
      ensures Apply(old(State()), Wait(pid, hasStatus)) == Answer(State(), ret, status)
    {
      if pid > 0 && pid != SELF_PID {
        return -ECHILD, None;
      }
      var was := waitable;
      waitable := false;
      if !was {
        return -ECHILD, None;
      }
      status := None;
      if hasStatus {
        status := Some((last % TWO8) * TWO8);
      }
      return SELF_PID, status;
    }
  }

  function Run(s: ExitState, ops: seq<Op>): ExitState
    decreases |ops|
  {
    if ops == [] then s else Run(Apply(s, ops[0]).s, ops[1..])
  }

  predicate IsMark(op: Op) {
    op.Exit? || op.Mark?
  }

  predicate Succeeds(s: ExitState, op: Op) {
    op.Wait? && Apply(s, op).ret >= 0
  }

  function Marks(ops: seq<Op>): nat {
    if ops == [] then 0 else (if IsMark(ops[0]) then 1 else 0) + Marks(ops[1..])
  }

  function Successes(s: ExitState, ops: seq<Op>): nat
    decreases |ops|
  {
    if ops == [] then 0 else (if Succeeds(s, ops[0]) then 1 else 0) + Successes(Apply(s, ops[0]).s, ops[1..])
  }

  /** Every successful wait uses up a mark of its own: over any run there are never more of them,
      and a mark still waiting at the end has not been counted. */
  lemma {:induction false} WaitsNeverOutnumberMarks(s: ExitState, ops: seq<Op>)
    ensures Successes(s, ops) + (if Run(s, ops).waitable then 1 else 0) <= Marks(ops) + (if s.waitable then 1 else 0)
    decreases |ops|
  {
    if ops != [] {
      WaitsNeverOutnumberMarks(Apply(s, ops[0]).s, ops[1..]);
    }
  }

  lemma {:induction false} NoMarkNoSuccess(s: ExitState, ops: seq<Op>)
    requires !s.waitable && forall k :: 0 <= k < |ops| ==> !IsMark(ops[k])
    ensures !Run(s, ops).waitable && Successes(s, ops) == 0
    decreases |ops|
  {
    if ops != [] {
      NoMarkNoSuccess(Apply(s, ops[0]).s, ops[1..]);
    }
  }

  /** Two successful waits always have a mark between them. */
  lemma {:induction false} MarkBetweenSuccesses(s: ExitState, first: Op, between: seq<Op>, second: Op)
    requires Succeeds(s, first)
    requires Succeeds(Run(Apply(s, first).s, between), second)
    ensures exists k :: 0 <= k < |between| && IsMark(between[k])
  {
    if forall k :: 0 <= k < |between| ==> !IsMark(between[k]) {
      NoMarkNoSuccess(Apply(s, first).s, between);
    }
  }

  /** Waiting for another process fails and consumes nothing. */
  lemma {:induction false} ForeignWaitConsumesNothing(s: ExitState, pid: int, hasStatus: bool)
    ensures pid > 0 && pid != SELF_PID ==> Apply(s, Wait(pid, hasStatus)) == Answer(s, -ECHILD, None)
    ensures !(pid > 0 && pid != SELF_PID) ==> (Succeeds(s, Wait(pid, hasStatus)) <==> s.waitable)
  {
  }

  function CodeOf(op: Op): int
    requires IsMark(op)
  {
    if op.Exit? then Signed32(op.arg % TWO32) else op.code
  }

  /** An exit with a code, or a mark, is waited for once: the status word holds the code's low byte in its second
      byte, and the next wait fails with ECHILD. */
  lemma {:induction false} ExitThenWait(s: ExitState, arg: u64, code: int, pid: int)
    requires pid <= 0 || pid == 3
    ensures var a := Apply(Apply(s, Exit(arg)).s, Wait(pid, true));
            a.ret == 3 && a.status == Some(arg % 256 * 256) && Apply(a.s, Wait(pid, true)).ret == -10
    ensures var a := Apply(Apply(s, Mark(code)).s, Wait(pid, true));
            a.ret == 3 && a.status == Some(code % 256 * 256) && Apply(a.s, Wait(pid, true)).ret == -10
  {
  }

  /** The code of the last mark of a run, or the one before it. */
  function Latest(code: int, ops: seq<Op>): int
    decreases |ops|
  {
    if ops == [] then code else Latest(if IsMark(ops[0]) then CodeOf(ops[0]) else code, ops[1..])
  }

  lemma {:induction false} LatestIsLast(s: ExitState, ops: seq<Op>)
    ensures Run(s, ops).last == Latest(s.last, ops)
    decreases |ops|
  {
    if ops != [] {
      LatestIsLast(Apply(s, ops[0]).s, ops[1..]);
    }
  }

  predicate Exited(status: nat) {
    status % 0x80 == 0
  }

  function ExitCode(status: nat): nat {
    status / TWO8 % TWO8
  }

  /** After any run, a successful wait reports a normal exit with the latest code, modulo 256. */
  lemma {:induction false} WaitReportsLatest(s: ExitState, ops: seq<Op>, pid: int)
    requires Succeeds(Run(s, ops), Wait(pid, true))
    ensures var a := Apply(Run(s, ops), Wait(pid, true));
            && a.ret == SELF_PID && a.status.Some?
            && Exited(a.status.value) && ExitCode(a.status.value) == Latest(s.last, ops) % TWO8
  {
    LatestIsLast(s, ops);
  }
}
