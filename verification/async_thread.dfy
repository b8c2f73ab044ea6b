/** The one-shot load task `vfs::async_thread` (src/vfs/vfs-async-thread.cxx).
    `run` starts the worker and joins it before returning, so the worker is
    modelled as finished by the time `run` returns; the task function itself is
    the caller's business and only its effect on the flags is modelled here.
    Every operation returns the new flags and the payloads of the
    `task_finish` signals it emitted, in order. */
module AsyncThread {

  datatype Task = Task(
    running: bool,    // running_
    finished: bool,   // finished_
    cancel: bool,     // cancel_: cancellation requested
    canceled: bool,   // canceled_: cancellation completed
    joinable: bool)   // thread_.joinable()

  /** A transition: the new flags and the `task_finish(canceled)` payloads emitted. */
  datatype Step = Step(task: Task, finishes: seq<bool>)

  /** `async_thread::create`: every flag starts cleared and no thread exists. */
  function Create(): (t: Task)
    ensures !t.running && !t.joinable && !t.cancel && !t.canceled
  {
    Task(false, false, false, false, false)
  }

  /** The part of `run` before the join: flags reset and the worker started. */
  function Spawn(t: Task): (t': Task)
    ensures t'.running && t'.joinable && !t'.finished && !t'.canceled
    ensures t'.cancel == t.cancel
  {
    t.(running := true, finished := false, canceled := false, joinable := true)
  }

  /** `run`: a no-op while running; otherwise reset, execute, join, and emit
      `task_finish(canceled_)` once. */
  function Run(t: Task): (s: Step)
    ensures t.running ==> s == Step(t, [])
    ensures !t.running ==> !s.task.running && s.task.finished && !s.task.joinable
    ensures !t.running ==> s.finishes == [false]
    ensures s.task.cancel == t.cancel
  {
    if t.running then Step(t, [])
    else
      var started := Spawn(t);
      var joined := started.(joinable := false);
      var done := joined.(running := false, finished := true);
      Step(done, [done.canceled])
  }

  /** `cleanup(finalize)`: join a live worker, mark it finished, and emit
      `task_finish` unless finalizing (the destructor's call). */
  function Cleanup(t: Task, finalize: bool): (s: Step)
    ensures !t.joinable ==> s == Step(t, [])
    ensures t.joinable ==> !s.task.joinable && s.task.finished
    ensures finalize ==> s.finishes == []
    ensures t.joinable && !finalize ==> s.finishes == [t.canceled]
    ensures s.task.cancel == t.cancel && s.task.canceled == t.canceled
  {
    if !t.joinable then Step(t, [])
    else
      var joined := t.(joinable := false, finished := true);
      Step(joined, if finalize then [] else [joined.canceled])
  }

  /** `cancel`: request cancellation, clean up (emitting the OLD `canceled_`),
      then record that the task was cancelled. */
  function Cancel(t: Task): (s: Step)
    ensures !t.joinable ==> s == Step(t, [])
    ensures t.joinable ==> s.task.cancel && s.task.canceled && !s.task.joinable
    ensures t.joinable ==> s.finishes == [t.canceled]
  {
    if !t.joinable then Step(t, [])
    else
      var requested := t.(cancel := true);
      var cleaned := Cleanup(requested, false);
      Step(cleaned.task.(canceled := true), cleaned.finishes)
  }

  /** `is_canceled` reports the request flag `cancel_`, not `canceled_`, and
      neither a run nor a cleanup clears the answer. */
  function IsCanceled(t: Task): (r: bool)
    ensures r == Run(t).task.cancel && r == Cleanup(t, false).task.cancel
  {
    t.cancel
  }

  /** The destructor: `cleanup(true)`. */
  function Destroy(t: Task): (s: Step)
    ensures s.finishes == []
  {
    Cleanup(t, true)
  }

  /** A cancelled task that is run again reports cancellation from the start of
      the new run: `run` resets `canceled_` but not `cancel_`. */
  lemma RunKeepsCancelRequest(t: Task)
    requires !t.running && t.cancel
    ensures IsCanceled(Spawn(t)) && !Spawn(t).canceled
    ensures IsCanceled(Run(t).task)
  {
  }

  /** The public operations a holder can apply. */
  datatype Op = RunOp | CancelOp | CleanupOp(finalize: bool) | DestroyOp

  function Apply(t: Task, op: Op): Step
  {
    match op
    case RunOp => Run(t)
    case CancelOp => Cancel(t)
    case CleanupOp(f) => Cleanup(t, f)
    case DestroyOp => Destroy(t)
  }

  /** Apply a sequence of operations, collecting every emission. */
  function ApplyAll(t: Task, ops: seq<Op>): Step
    decreases |ops|
  {
    if |ops| == 0 then Step(t, [])
    else
      var s := Apply(t, ops[0]);
      var rest := ApplyAll(s.task, ops[1..]);
      Step(rest.task, s.finishes + rest.finishes)
  }

  /** Number of `run` calls in `ops`. */
  function Runs(ops: seq<Op>): nat
  {
    if |ops| == 0 then 0 else (if ops[0] == RunOp then 1 else 0) + Runs(ops[1..])
  }

  /** Since `run` joins before it returns, no worker is ever left joinable from
      outside, so `cancel` and `cleanup` never act: from a fresh task, any
      sequence of public calls leaves the thread non-joinable, never sets the
      cancellation flags, and emits exactly one `task_finish(false)` per `run`. */
  lemma {:induction false} NeverJoinableOutsideRun(t: Task, ops: seq<Op>)
    requires !t.running && !t.joinable && !t.cancel && !t.canceled
    ensures var s := ApplyAll(t, ops);
      && !s.task.running && !s.task.joinable && !s.task.cancel && !s.task.canceled
      && s.finishes == seq(Runs(ops), _ => false)
    decreases |ops|
  {
    if |ops| > 0 {
      var s := Apply(t, ops[0]);
      NeverJoinableOutsideRun(s.task, ops[1..]);
      var rest := ApplyAll(s.task, ops[1..]);
      if ops[0] == RunOp {
        assert s.finishes == [false];
        assert seq(Runs(ops), _ => false) == [false] + seq(Runs(ops[1..]), _ => false);
      } else {
        assert s.finishes == [];
        assert Runs(ops) == Runs(ops[1..]);
      }
    }
  }
}
