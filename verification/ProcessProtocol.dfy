/** The life of one `basic_process` over its descriptor handle (pidfd) or its signal handle: API calls,
    asynchronous waits and the exiting child interleave freely and share one cached exit status. */
module ProcessProtocol {
  import opened Wrappers

  // ---- wait statuses (exit_code.hpp, sys/wait.h) ------------------------------------------------

  const STILL_ACTIVE := 0x17f

  predicate IfExited(status: int) { status % 128 == 0 }
  predicate IfSignaled(status: int) { 1 <= status % 128 <= 126 }

  predicate IsRunning(status: int) {
    !IfExited(status) && !IfSignaled(status)
  }

  function EvaluateExitCode(status: int): int {
    if IfExited(status) then (status / 256) % 256
    else if IfSignaled(status) then status % 128
    else status
  }

  // ---- the system ---------------------------------------------------------------------------------

  const NO_ERROR := 0
  const ESRCH := 3
  const EINTR := 4
  const EBADF := 9
  const ECHILD := 10
  const ABORTED := 125

  /** The child as the kernel sees it. */
  datatype Kernel = Alive | Zombie(status: int) | Gone(status: int)

  datatype WaitResult = NoChild | NotYet | Reaped(status: int)

  /** `waitpid(pid, &status, WNOHANG)` */
  function Poll(k: Kernel): WaitResult {
    match k
    case Alive => NotYet
    case Zombie(s) => Reaped(s)
    case Gone(_) => NoChild
  }

  function AfterPoll(k: Kernel): Kernel {
    if k.Zombie? then Gone(k.status) else k
  }

  // ---- the process object -------------------------------------------------------------------------

  datatype Backend = Descriptor | Signal

  /** `Armed`: suspended in `async_wait` of the descriptor or the signal set. `Woken`: its handler is about
      to run, after a signal or (`aborted`) after a cancel of the signal set or of this wait. `cancelled` is
      the operation's own cancellation state. `Finishing`: the completion is dispatched, with the status
      captured when it was known before waiting. */
  datatype OpState =
    | Armed(cancelled: bool)
    | Woken(aborted: bool, cancelled: bool)
    | Finishing(ec: int, captured: Option<int>)
    | Done

  datatype Completion = Completion(op: nat, ec: int, code: int)

  /** `reaps` counts the successful `waitpid` calls and `noChild` those that found no child; `log` holds
      the handler invocations. */
  datatype Process = Process(
    backend: Backend, pid: int, kernel: Kernel, exitStatus: int,
    ops: seq<OpState>, sigPending: bool, undelivered: nat, destroyed: bool,
    reaps: nat, noChild: nat, log: seq<Completion>)

  datatype Event =
    | ChildExits(status: int) | SpuriousSignal | DeliverSignal
    | CallRunning(ec: int) | CallWait(ec: int, status: int) | CallTerminate(ec: int, status: int)
    | StartAsync | Ready(op: nat) | ReadyInterrupted(op: nat) | Cancel(op: nat) | Resume(op: nat) | Complete(op: nat)
    | Destroy(status: int)

  /** The child is running, or has exited before the object and its signal set were there, so that its
      SIGCHLD never reaches them; a SIGCHLD of another child may be pending. */
  ghost predicate Start(p: Process) {
    && p.pid > 0 && p.exitStatus == STILL_ACTIVE
    && !p.kernel.Gone? && (p.kernel.Zombie? ==> !IsRunning(p.kernel.status))
    && p.ops == [] && !p.destroyed
    && p.reaps == 0 && p.noChild == 0 && p.log == []
  }

  function Counted(p: Process, r: WaitResult): Process {
    match r
    case NotYet => p
    case NoChild => p.(noChild := p.noChild + 1)
    case Reaped(_) => p.(reaps := p.reaps + 1, kernel := AfterPoll(p.kernel))
  }

  function Polled(p: Process): Process {
    Counted(p, Poll(p.kernel))
  }

  /** A child that is waited for without WNOHANG has exited by the time the call returns. */
  function Exited(p: Process, status: int): Process {
    if p.kernel.Alive? then p.(kernel := Zombie(status), sigPending := true) else p
  }

  /** `process_handle::wait`: a blocking `waitpid` whose interruptions are retried. */
  function HandleWait(p: Process, ec: int, status: int): (Process, int) {
    if p.pid <= 0 then (p, ec)
    else
      var q := Exited(p, status);
      match Poll(q.kernel)
      case Reaped(s) => (Polled(q).(exitStatus := s), ec)
      case _ => (Polled(q), ECHILD)
  }

  /** `basic_process::running`: the state, the answer and the error code. */
  function Running(p: Process, ec: int): (Process, bool, int) {
    if !IsRunning(p.exitStatus) then (p, false, ec)
    else if p.pid <= 0 then (if ec == NO_ERROR then p.(exitStatus := 0) else p, false, ec)
    else match Poll(p.kernel)
      case NoChild => (Polled(p), false, ECHILD)
      case NotYet => (p, true, ec)
      case Reaped(s) => (Polled(p).(exitStatus := s), false, NO_ERROR)
  }

  /** `basic_process::wait` */
  function Wait(p: Process, ec: int, status: int): (Process, int) {
    var (q, running, ec') := Running(p, ec);
    if running then HandleWait(q, ec', status) else (q, ec')
  }

  /** `basic_process::terminate`: `kill` fails on a child that is gone. */
  function Terminate(p: Process, ec: int, status: int): (Process, int) {
    if p.pid <= 0 then (p, ec)
    else if p.kernel.Gone? then (p, ESRCH)
    else HandleWait(p, ec, status)
  }

  /** `terminate_if_running` of the destructor; the status goes nowhere. */
  function DestroyStep(p: Process, status: int): Process {
    if p.pid <= 0 then p.(destroyed := true)
    else match Poll(p.kernel)
      case NotYet => Polled(Exited(p, status)).(destroyed := true)
      case _ => Polled(p).(destroyed := true)
  }

  // ---- asynchronous waits -------------------------------------------------------------------------

  function SetOp(p: Process, op: nat, s: OpState): Process
    requires op < |p.ops|
  {
    p.(ops := p.ops[op := s])
  }

  /** Every suspended operation of the signal set is woken at once, by a signal or by its `cancel`. */
  function WakeAll(ops: seq<OpState>, aborted: bool): (r: seq<OpState>)
    ensures |r| == |ops|
    ensures forall i :: 0 <= i < |ops| ==>
      r[i] == if ops[i].Armed? then Woken(aborted, ops[i].cancelled) else ops[i]
  {
    if ops == [] then []
    else [if ops[0].Armed? then Woken(aborted, ops[0].cancelled) else ops[0]] + WakeAll(ops[1..], aborted)
  }

  /** `signal_set::async_wait`: a queued signal completes it at once. */
  function ArmSignal(p: Process, op: nat, cancelled: bool): Process
    requires op < |p.ops|
  {
    if p.undelivered > 0 then SetOp(p.(undelivered := p.undelivered - 1), op, Woken(false, cancelled))
    else SetOp(p, op, Armed(cancelled))
  }

  /** Polls for a handle's operation: suspended again, or on its way to completion. */
  function PollOp(p: Process, op: nat, cancelled: bool): Process
    requires op < |p.ops|
  {
    if p.pid <= 0 then SetOp(p, op, Finishing(EBADF, None))
    else if !IsRunning(p.exitStatus) then SetOp(p, op, Finishing(NO_ERROR, None))
    else match Poll(p.kernel)
      case NoChild => SetOp(Polled(p), op, Finishing(ECHILD, None))
      case Reaped(s) => SetOp(Polled(p).(exitStatus := s), op, Finishing(NO_ERROR, None))
      case NotYet => if p.backend.Descriptor? then SetOp(p, op, Armed(cancelled)) else ArmSignal(p, op, cancelled)
  }

  /** The handle's `async_wait`: the descriptor polls now; the signal set arms and cancels itself, so
      that every suspended operation is rescheduled on its executor. */
  function HandleAsyncWait(p: Process, op: nat): Process
    requires op < |p.ops|
  {
    if p.backend.Descriptor? then PollOp(p, op, false)
    else var q := ArmSignal(p, op, false); q.(ops := WakeAll(q.ops, true))
  }

  /** `basic_process::async_wait` */
  function AsyncWait(p: Process): Process {
    if !IsRunning(p.exitStatus) then p.(ops := p.ops + [Finishing(NO_ERROR, Some(p.exitStatus))])
    else HandleAsyncWait(p.(ops := p.ops + [Armed(false)]), |p.ops|)
  }

  /** The handler of the signal set's wait: an abort counts only if this operation was cancelled itself. A
      signal that came first is followed up in spite of a cancel, and the cancellation state stays. */
  function ResumeStep(p: Process, op: nat): Process
    requires op < |p.ops| && p.ops[op].Woken?
  {
    var Woken(aborted, cancelled) := p.ops[op];
    if aborted && cancelled then SetOp(p, op, Finishing(if p.pid <= 0 then EBADF else ABORTED, None))
    else PollOp(p, op, cancelled)
  }

  /** A caller cancels one wait. One that is woken already only notes it. */
  function CancelStep(p: Process, op: nat): Process
    requires op < |p.ops|
  {
    if p.backend.Descriptor? then SetOp(p, op, Finishing(ABORTED, None))
    else SetOp(p, op, Woken(if p.ops[op].Woken? then p.ops[op].aborted else true, true))
  }

  /** The pidfd became readable: a blocking `waitpid`, unless the status is known by now. */
  function ReadyStep(p: Process, op: nat, interrupted: bool): Process
    requires op < |p.ops|
  {
    if !IsRunning(p.exitStatus) then SetOp(p, op, Finishing(NO_ERROR, None))
    else if interrupted then SetOp(p, op, Finishing(EINTR, None))
    else match Poll(p.kernel)
      case Reaped(s) => SetOp(Polled(p).(exitStatus := s), op, Finishing(NO_ERROR, None))
      case _ => SetOp(Polled(p), op, Finishing(ECHILD, None))
  }

  /** The dispatched completion: `async_wait_op_::operator()(self, ec)` of `basic_process`. */
  function CompleteStep(p: Process, op: nat): Process
    requires op < |p.ops| && p.ops[op].Finishing?
  {
    var Finishing(ec, captured) := p.ops[op];
    if captured.Some? then
      SetOp(p, op, Done).(log := p.log + [Completion(op, NO_ERROR, EvaluateExitCode(captured.value))])
    else if ec == NO_ERROR && IsRunning(p.exitStatus) then HandleAsyncWait(p, op)
    else SetOp(p, op, Done).(log := p.log + [Completion(op, ec, EvaluateExitCode(p.exitStatus))])
  }

  // ---- steps and runs -----------------------------------------------------------------------------

  predicate Enabled(p: Process, e: Event) {
    !p.destroyed &&
    match e
    case ChildExits(s) => p.kernel.Alive? && !IsRunning(s)
    case SpuriousSignal => true
    case DeliverSignal => p.sigPending && p.backend.Signal?
    case CallRunning(_) => true
    case CallWait(_, s) => !IsRunning(s)
    case CallTerminate(_, s) => !IsRunning(s)
    case StartAsync => true
    case Ready(op) => p.backend.Descriptor? && op < |p.ops| && p.ops[op].Armed? && !p.kernel.Alive?
    case ReadyInterrupted(op) => p.backend.Descriptor? && op < |p.ops| && p.ops[op].Armed? && !p.kernel.Alive?
    case Cancel(op) => op < |p.ops| && (p.ops[op].Armed? || p.ops[op].Woken?)
    case Resume(op) => p.backend.Signal? && op < |p.ops| && p.ops[op].Woken?
    case Complete(op) => op < |p.ops| && p.ops[op].Finishing?
    case Destroy(s) => !IsRunning(s)
  }

  function Apply(p: Process, e: Event): Process
    requires Enabled(p, e)
  {
    match e
    case ChildExits(s) => p.(kernel := Zombie(s), sigPending := true)
    case SpuriousSignal => p.(sigPending := true)
    case DeliverSignal =>
      var q := p.(sigPending := false);
      if exists i :: 0 <= i < |p.ops| && p.ops[i].Armed? then q.(ops := WakeAll(q.ops, false))
      else q.(undelivered := q.undelivered + 1)
    case CallRunning(ec) => Running(p, ec).0
    case CallWait(ec, s) => Wait(p, ec, s).0
    case CallTerminate(ec, s) => Terminate(p, ec, s).0
    case StartAsync => AsyncWait(p)
    case Ready(op) => ReadyStep(p, op, false)
    case ReadyInterrupted(op) => ReadyStep(p, op, true)
    case Cancel(op) => CancelStep(p, op)
    case Resume(op) => ResumeStep(p, op)
    case Complete(op) => CompleteStep(p, op)
    case Destroy(s) => DestroyStep(p, s)
  }

  predicate IsRun(p: Process, es: seq<Event>)
    decreases |es|
  {
    es == [] || (Enabled(p, es[0]) && IsRun(Apply(p, es[0]), es[1..]))
  }

  function Run(p: Process, es: seq<Event>): Process
    requires IsRun(p, es)
    decreases |es|
  {
    if es == [] then p else Run(Apply(p, es[0]), es[1..])
  }

  // ---- what every step keeps ------------------------------------------------------------------------

  /** The cached status and the kernel's view of the child agree. */
  ghost predicate StatusInv(p: Process) {
    && p.pid > 0
    && (p.kernel.Zombie? || p.kernel.Gone? ==> !IsRunning(p.kernel.status))
    && (if p.destroyed then p.kernel.Gone? else p.noChild == 0)
    && p.reaps == (if p.kernel.Gone? then 1 else 0)
    && (!p.destroyed ==> p.exitStatus == if p.kernel.Gone? then p.kernel.status else STILL_ACTIVE)
  }

  ghost predicate OpInv(p: Process, s: OpState) {
    && (s.Finishing? && s.ec == NO_ERROR ==> p.kernel.Gone?)
    && (s.Finishing? && s.captured.Some? ==> s.ec == NO_ERROR && p.kernel.Gone? && s.captured.value == p.kernel.status)
    && (s.Woken? ==> p.backend.Signal?)
    && (s.Armed? && p.backend.Signal? ==> p.undelivered == 0 && (p.kernel.Alive? || p.sigPending))
  }

  ghost predicate OpsInv(p: Process) {
    forall i :: 0 <= i < |p.ops| ==> OpInv(p, p.ops[i])
  }

  /** Handlers run once, for operations that are done, and without an error they get the real status. */
  ghost predicate LogInv(p: Process) {
    && (forall k :: 0 <= k < |p.log| ==> p.log[k].op < |p.ops| && p.ops[p.log[k].op].Done?)
    && (forall j, k :: 0 <= j < k < |p.log| ==> p.log[j].op != p.log[k].op)
    && (forall i :: 0 <= i < |p.ops| && p.ops[i].Done? ==> exists k :: 0 <= k < |p.log| && p.log[k].op == i)
    && (forall k :: 0 <= k < |p.log| ==> CodeInv(p, p.log[k]))
  }

  /** Without an error a handler gets the real exit code; with one, that or the code of a process that is
      still active. */
  ghost predicate CodeInv(p: Process, c: Completion) {
    (c.ec != NO_ERROR && c.code == EvaluateExitCode(STILL_ACTIVE)) ||
    (p.kernel.Gone? && c.code == EvaluateExitCode(p.kernel.status))
  }

  ghost predicate Inv(p: Process) {
    StatusInv(p) && (!p.destroyed ==> OpsInv(p)) && LogInv(p)
  }

  /** A step that changes neither the operations' number nor which of them are done keeps the log. */
  lemma LogKept(p: Process, q: Process)
    requires LogInv(p) && q.log == p.log && |q.ops| >= |p.ops|
    requires forall i :: 0 <= i < |p.ops| ==> (q.ops[i].Done? <==> p.ops[i].Done?)
    requires forall i :: |p.ops| <= i < |q.ops| ==> !q.ops[i].Done?
    requires p.kernel.Gone? ==> q.kernel == p.kernel
    ensures LogInv(q)
  {
    forall i | 0 <= i < |q.ops| && q.ops[i].Done? ensures exists k :: 0 <= k < |q.log| && q.log[k].op == i {
      assert p.ops[i].Done?;
    }
  }

  predicate IsCall(e: Event) {
    e.ChildExits? || e.SpuriousSignal? || e.CallRunning? || e.CallWait? || e.CallTerminate? || e.Destroy?
  }

  /** A step that does not touch the operations; the kernel only moves on, and an exit raises a signal. */
  ghost predicate OpsUntouched(p: Process, q: Process) {
    && q.ops == p.ops && q.log == p.log && q.backend == p.backend && q.undelivered == p.undelivered
    && (p.kernel.Gone? ==> q.kernel == p.kernel)
    && (p.kernel.Alive? ==> q.kernel.Alive? || q.sigPending)
    && (p.sigPending ==> q.sigPending)
  }

  lemma CallStatus(p: Process, e: Event)
    requires StatusInv(p) && Enabled(p, e) && IsCall(e)
    ensures StatusInv(Apply(p, e)) && OpsUntouched(p, Apply(p, e))
  {
  }

  lemma CallInv(p: Process, e: Event)
    requires Inv(p) && Enabled(p, e) && IsCall(e)
    ensures Inv(Apply(p, e))
  {
    var q := Apply(p, e);
    CallStatus(p, e);
    LogKept(p, q);
    forall i | 0 <= i < |q.ops| ensures OpInv(q, q.ops[i]) {
      assert OpInv(p, p.ops[i]);
    }
  }

  lemma DeliverInv(p: Process)
    requires Inv(p) && Enabled(p, DeliverSignal)
    ensures Inv(Apply(p, DeliverSignal))
  {
    var q := Apply(p, DeliverSignal);
    LogKept(p, q);
    forall i | 0 <= i < |q.ops| ensures OpInv(q, q.ops[i]) {
      assert OpInv(p, p.ops[i]);
    }
  }

  /** One operation moves on and the others see the new state of the process. */
  lemma MovedInv(p: Process, op: nat, q: Process)
    requires Inv(p) && !p.destroyed && op < |p.ops| && !p.ops[op].Done?
    requires |q.ops| == |p.ops| && q.ops == p.ops[op := q.ops[op]] && !q.ops[op].Done? && OpInv(q, q.ops[op])
    requires StatusInv(q) && q.log == p.log && !q.destroyed && q.backend == p.backend && q.sigPending == p.sigPending
    requires q.undelivered <= p.undelivered
    requires p.kernel.Gone? ==> q.kernel == p.kernel
    requires q.kernel.Alive? <==> p.kernel.Alive?
    ensures Inv(q)
  {
    LogKept(p, q);
    forall i | 0 <= i < |q.ops| ensures OpInv(q, q.ops[i]) {
      assert OpInv(p, p.ops[i]);
    }
  }

  lemma PollOpInv(p: Process, op: nat, cancelled: bool)
    requires Inv(p) && !p.destroyed && op < |p.ops| && !p.ops[op].Done?
    ensures Inv(PollOp(p, op, cancelled))
  {
    MovedInv(p, op, PollOp(p, op, cancelled));
  }

  lemma SignalWaitInv(p: Process, op: nat, q: Process)
    requires StatusInv(p) && LogInv(p) && !p.destroyed && p.backend.Signal?
    requires op < |p.ops| && !p.ops[op].Done?
    requires forall i :: 0 <= i < |p.ops| && i != op ==> OpInv(p, p.ops[i])
    requires q == HandleAsyncWait(p, op)
    ensures Inv(q)
  {
    LogKept(p, q);
    forall i | 0 <= i < |q.ops| ensures OpInv(q, q.ops[i]) {
      if i != op {
        assert OpInv(p, p.ops[i]);
      }
    }
  }

  lemma AsyncWaitInv(p: Process)
    requires Inv(p) && Enabled(p, StartAsync)
    ensures Inv(Apply(p, StartAsync))
  {
    var q, r := Apply(p, StartAsync), p.(ops := p.ops + [Armed(false)]);
    forall i | 0 <= i < |p.ops| ensures OpInv(r, r.ops[i]) {
      assert OpInv(p, p.ops[i]);
    }
    LogKept(p, r);
    if !IsRunning(p.exitStatus) {
      LogKept(p, q);
      forall i | 0 <= i < |q.ops| ensures OpInv(q, q.ops[i]) {
        if i < |p.ops| { assert OpInv(p, p.ops[i]); }
      }
    } else if p.backend.Signal? {
      SignalWaitInv(r, |p.ops|, q);
    } else {
      PollOpInv(r, |p.ops|, false);
    }
  }

  lemma MoveInv(p: Process, e: Event)
    requires Inv(p) && Enabled(p, e)
    requires e.Ready? || e.ReadyInterrupted? || e.Cancel? || e.Resume?
    ensures Inv(Apply(p, e))
  {
    assert OpInv(p, p.ops[e.op]);
    if e.Resume? && !(p.ops[e.op].aborted && p.ops[e.op].cancelled) {
      PollOpInv(p, e.op, p.ops[e.op].cancelled);
    } else {
      MovedInv(p, e.op, Apply(p, e));
    }
  }

  /** The handler of one operation runs and is logged. */
  lemma LogAppended(p: Process, op: nat, c: Completion, q: Process)
    requires LogInv(p) && op < |p.ops| && !p.ops[op].Done? && c.op == op
    requires q.log == p.log + [c] && q.ops == p.ops[op := Done] && q.kernel == p.kernel
    requires CodeInv(p, c)
    ensures LogInv(q)
  {
    LogEntries(p, op, c, q);
    forall i | 0 <= i < |q.ops| && q.ops[i].Done? ensures exists k :: 0 <= k < |q.log| && q.log[k].op == i {
      if i == op {
        assert q.log[|p.log|].op == i;
      } else {
        assert p.ops[i].Done?;
        var k :| 0 <= k < |p.log| && p.log[k].op == i;
        assert q.log[k].op == i;
      }
    }
  }

  lemma LogEntries(p: Process, op: nat, c: Completion, q: Process)
    requires LogInv(p) && op < |p.ops| && !p.ops[op].Done? && c.op == op
    requires q.log == p.log + [c] && q.ops == p.ops[op := Done] && q.kernel == p.kernel
    requires CodeInv(p, c)
    ensures forall k :: 0 <= k < |q.log| ==> q.log[k].op < |q.ops| && q.ops[q.log[k].op].Done? && CodeInv(q, q.log[k])
    ensures forall j, k :: 0 <= j < k < |q.log| ==> q.log[j].op != q.log[k].op
  {
    forall k | 0 <= k < |q.log|
      ensures q.log[k].op < |q.ops| && q.ops[q.log[k].op].Done? && CodeInv(q, q.log[k])
      ensures k < |p.log| ==> q.log[k] == p.log[k] && q.log[k].op != op
    {
      if k < |p.log| {
        assert CodeInv(p, p.log[k]) && p.ops[p.log[k].op].Done?;
      }
    }
  }

  lemma CompleteOne(p: Process, op: nat) returns (c: Completion)
    requires Inv(p) && Enabled(p, Complete(op))
    ensures c.op == op
    ensures p.ops[op].ec == c.ec && CodeInv(p, c)
    ensures c.code == EvaluateExitCode(if p.kernel.Gone? then p.kernel.status else STILL_ACTIVE)
    ensures Apply(p, Complete(op)) == p.(ops := p.ops[op := Done], log := p.log + [c])
  {
    assert OpInv(p, p.ops[op]);
    var Finishing(ec, captured) := p.ops[op];
    c := if captured.Some? then Completion(op, NO_ERROR, EvaluateExitCode(captured.value))
    else Completion(op, ec, EvaluateExitCode(p.exitStatus));
  }

  /** The retry in `basic_process`'s own completion is never taken. */
  lemma CompleteInv(p: Process, op: nat)
    requires Inv(p) && Enabled(p, Complete(op))
    ensures Inv(Apply(p, Complete(op)))
    ensures Apply(p, Complete(op)).ops == p.ops[op := Done]
  {
    var q := Apply(p, Complete(op));
    var c := CompleteOne(p, op);
    LogAppended(p, op, c, q);
    forall i | 0 <= i < |q.ops| ensures OpInv(q, q.ops[i]) {
      assert OpInv(p, p.ops[i]);
    }
  }

  lemma StepInv(p: Process, e: Event)
    requires Inv(p) && Enabled(p, e)
    ensures Inv(Apply(p, e))
  {
    match e
    case DeliverSignal => DeliverInv(p);
    case StartAsync => AsyncWaitInv(p);
    case Ready(_) => MoveInv(p, e);
    case ReadyInterrupted(_) => MoveInv(p, e);
    case Cancel(_) => MoveInv(p, e);
    case Resume(_) => MoveInv(p, e);
    case Complete(op) => CompleteInv(p, op);
    case _ => CallInv(p, e);
  }

  lemma {:induction false} RunInv(p: Process, es: seq<Event>)
    requires Inv(p) && IsRun(p, es)
    ensures Inv(Run(p, es))
    decreases |es|
  {
    if es != [] {
      StepInv(p, es[0]);
      RunInv(Apply(p, es[0]), es[1..]);
    }
  }

  // ---- the promises ---------------------------------------------------------------------------------

  /** Over every interleaving: the child is reaped at most once and no call of the live object asks for
      a child that is gone; once reaped, the cached status is the real one; every handler runs at
      most once, and without an error it receives the real exit code. */
  lemma ReapedOnce(p: Process, es: seq<Event>)
    requires Start(p) && IsRun(p, es)
    ensures var r := Run(p, es);
            && r.reaps <= 1
            && (r.reaps == 1 <==> r.kernel.Gone?)
            && (!r.destroyed ==> r.noChild == 0 && (r.reaps == 1 <==> !IsRunning(r.exitStatus)))
            && (!r.destroyed && r.reaps == 1 ==> r.exitStatus == r.kernel.status)
            && (r.destroyed ==> r.reaps == 1)
            && (forall j, k :: 0 <= j < k < |r.log| ==> r.log[j].op != r.log[k].op)
            && (forall k :: 0 <= k < |r.log| && r.log[k].ec == NO_ERROR ==>
                  r.kernel.Gone? && r.log[k].code == EvaluateExitCode(r.kernel.status))
  {
    RunInv(p, es);
  }

  lemma {:induction false} GoneForGood(p: Process, es: seq<Event>)
    requires IsRun(p, es) && p.kernel.Gone?
    ensures Run(p, es).kernel == p.kernel
    decreases |es|
  {
    if es != [] {
      KernelKept(p, es[0]);
      GoneForGood(Apply(p, es[0]), es[1..]);
    }
  }

  /** A status once collected is the child's, and whatever happens later the object reports the same one. */
  lemma StatusIsFinal(p: Process, es: seq<Event>)
    requires Inv(p) && !p.destroyed && !IsRunning(p.exitStatus) && IsRun(p, es)
    ensures p.kernel == Gone(p.exitStatus)
    ensures var r := Run(p, es);
            r.kernel == p.kernel && (!r.destroyed ==> r.exitStatus == p.exitStatus)
  {
    GoneForGood(p, es);
    RunInv(p, es);
  }

  lemma KernelKept(p: Process, e: Event)
    requires Enabled(p, e) && p.kernel.Gone?
    ensures Apply(p, e).kernel == p.kernel
  {
  }

  // ---- no wait is forgotten ---------------------------------------------------------------------------

  /** Steps that happen by themselves once the child has exited. */
  predicate Internal(e: Event) {
    e.DeliverSignal? || e.Ready? || e.Resume? || e.Complete?
  }

  ghost predicate Quiescent(p: Process) {
    forall e :: Enabled(p, e) ==> !Internal(e)
  }

  /** The operation is over and its handler has run. */
  ghost predicate Answered(p: Process, i: nat) {
    i < |p.ops| && p.ops[i].Done? && exists k :: 0 <= k < |p.log| && p.log[k].op == i
  }

  /** When nothing more happens by itself and the child has exited, every wait has been answered. */
  lemma NoWaitForgotten(p: Process, es: seq<Event>)
    requires Start(p) && IsRun(p, es)
    ensures var r := Run(p, es);
            !r.destroyed && Quiescent(r) && !r.kernel.Alive? ==> AllAnswered(r)
  {
    RunInv(p, es);
    var r := Run(p, es);
    if !r.destroyed && Quiescent(r) && !r.kernel.Alive? {
      QuiescentAnswered(r);
    }
  }

  lemma QuiescentOp(r: Process, i: nat)
    requires Inv(r) && !r.destroyed && Quiescent(r) && !r.kernel.Alive? && i < |r.ops|
    ensures Answered(r, i)
  {
    assert OpInv(r, r.ops[i]);
    match r.ops[i] {
      case Armed(_) =>
        if r.backend.Signal? {
          NotEnabled(r, DeliverSignal);
        } else {
          NotEnabled(r, Ready(i));
        }
      case Woken(_, _) => NotEnabled(r, Resume(i));
      case Finishing(_, _) => NotEnabled(r, Complete(i));
      case Done =>
    }
    assert LogInv(r) && r.ops[i].Done?;
  }

  lemma NotEnabled(r: Process, e: Event)
    requires Quiescent(r) && Internal(e)
    ensures !Enabled(r, e)
  {
  }

  function OpWork(b: Backend, s: OpState): nat {
    match s
    case Armed(_) => if b.Descriptor? then 2 else 0
    case Woken(_, _) => 2
    case Finishing(_, _) => 1
    case Done => 0
  }

  function OpsWork(b: Backend, ops: seq<OpState>): nat {
    if ops == [] then 0 else OpWork(b, ops[0]) + OpsWork(b, ops[1..])
  }

  /** Bounds the number of internal steps left. */
  function Work(p: Process): nat {
    OpsWork(p.backend, p.ops) + p.undelivered + if p.sigPending then 2 * |p.ops| + 2 else 0
  }

  lemma {:induction false} OpsWorkUpdate(b: Backend, ops: seq<OpState>, i: nat, s: OpState)
    requires i < |ops|
    ensures OpsWork(b, ops[i := s]) == OpsWork(b, ops) - OpWork(b, ops[i]) + OpWork(b, s)
  {
    if i > 0 {
      OpsWorkUpdate(b, ops[1..], i - 1, s);
      assert ops[i := s][1..] == ops[1..][i - 1 := s];
    } else {
      assert ops[i := s][1..] == ops[1..];
    }
  }

  lemma {:induction false} OpsWorkBound(b: Backend, ops: seq<OpState>)
    ensures OpsWork(b, ops) <= 2 * |ops|
  {
    if ops != [] {
      OpsWorkBound(b, ops[1..]);
    }
  }

  lemma MoveWorks(p: Process, i: nat, q: Process)
    requires i < |p.ops| == |q.ops| && q.ops == p.ops[i := q.ops[i]]
    requires q.backend == p.backend && q.sigPending == p.sigPending
    requires OpWork(p.backend, q.ops[i]) + q.undelivered < OpWork(p.backend, p.ops[i]) + p.undelivered
    ensures Work(q) < Work(p)
  {
    OpsWorkUpdate(p.backend, p.ops, i, q.ops[i]);
  }

  lemma DeliverWorks(p: Process)
    requires Enabled(p, DeliverSignal)
    ensures Work(Apply(p, DeliverSignal)) < Work(p)
  {
    var q := Apply(p, DeliverSignal);
    OpsWorkBound(q.backend, q.ops);
  }

  lemma ResumeWorks(p: Process, i: nat)
    requires Enabled(p, Resume(i))
    ensures Work(Apply(p, Resume(i))) < Work(p)
  {
    MoveWorks(p, i, ResumeStep(p, i));
  }

  lemma InternalStepWorks(p: Process, e: Event)
    requires Inv(p) && Enabled(p, e) && Internal(e)
    ensures Work(Apply(p, e)) < Work(p)
  {
    match e
    case DeliverSignal => DeliverWorks(p);
    case Ready(i) => MoveWorks(p, i, ReadyStep(p, i, false));
    case Resume(i) => ResumeWorks(p, i);
    case Complete(i) =>
      CompleteInv(p, i);
      var c := CompleteOne(p, i);
      MoveWorks(p, i, CompleteStep(p, i));
    case _ =>
  }

  /** The steps that happen by themselves run out. */
  lemma {:induction false} InternalRunsEnd(p: Process, es: seq<Event>)
    requires Inv(p) && IsRun(p, es) && forall i :: 0 <= i < |es| ==> Internal(es[i])
    ensures |es| + Work(Run(p, es)) <= Work(p)
    decreases |es|
  {
    if es != [] {
      InternalStepWorks(p, es[0]);
      StepInv(p, es[0]);
      InternalRunsEnd(Apply(p, es[0]), es[1..]);
    }
  }

  ghost predicate AllAnswered(p: Process) {
    forall i :: 0 <= i < |p.ops| ==> Answered(p, i)
  }

  lemma QuiescentAnswered(r: Process)
    requires Inv(r) && !r.destroyed && Quiescent(r) && !r.kernel.Alive?
    ensures AllAnswered(r)
  {
    forall i | 0 <= i < |r.ops| ensures Answered(r, i) {
      QuiescentOp(r, i);
    }
  }

  lemma RunCons(p: Process, e: Event, es: seq<Event>)
    requires Enabled(p, e) && IsRun(Apply(p, e), es)
    ensures IsRun(p, [e] + es) && Run(p, [e] + es) == Run(Apply(p, e), es)
  {
    assert ([e] + es)[1..] == es;
  }

  /** A step that happens by itself neither destroys the object nor brings the child back. */
  lemma InternalKeeps(p: Process, e: Event)
    requires Inv(p) && Enabled(p, e) && Internal(e) && !p.kernel.Alive?
    ensures !Apply(p, e).destroyed && !Apply(p, e).kernel.Alive?
  {
    if e.Complete? {
      var c := CompleteOne(p, e.op);
    }
  }

  lemma {:induction false} OwnStepsAnswer(p: Process) returns (more: seq<Event>)
    requires Inv(p) && !p.destroyed && !p.kernel.Alive?
    ensures IsRun(p, more) && AllAnswered(Run(p, more)) && !Run(p, more).destroyed
    ensures forall i :: 0 <= i < |more| ==> Internal(more[i])
    decreases Work(p)
  {
    if e :| Enabled(p, e) && Internal(e) {
      StepInv(p, e);
      InternalKeeps(p, e);
      InternalStepWorks(p, e);
      var rest := OwnStepsAnswer(Apply(p, e));
      RunCons(p, e, rest);
      more := [e] + rest;
    } else {
      QuiescentAnswered(p);
      more := [];
    }
  }

  /** Whatever has been called and has happened: once the child has exited, the object's own steps alone
      answer every asynchronous wait, also when the child was gone before the object was made. */
  lemma EveryWaitAnswered(p: Process, es: seq<Event>) returns (more: seq<Event>)
    requires Start(p) && IsRun(p, es) && !Run(p, es).destroyed && !Run(p, es).kernel.Alive?
    ensures IsRun(Run(p, es), more) && AllAnswered(Run(Run(p, es), more))
    ensures forall i :: 0 <= i < |more| ==> Internal(more[i])
  {
    RunInv(p, es);
    more := OwnStepsAnswer(Run(p, es));
  }

  /** And no schedule of them puts it off for ever. */
  lemma ReachedRunsEnd(p: Process, es: seq<Event>, more: seq<Event>)
    requires Start(p) && IsRun(p, es) && IsRun(Run(p, es), more)
    requires forall i :: 0 <= i < |more| ==> Internal(more[i])
    ensures |more| <= Work(Run(p, es))
  {
    RunInv(p, es);
    InternalRunsEnd(Run(p, es), more);
  }
}
