/** The code of `basic_process` and of its handles as methods over the fields they update, each tied to
    the step of `ProcessProtocol` it performs. */
module BasicProcess {
  import opened Wrappers
  import opened ProcessProtocol
  import opened ProcessAnswers

  class ProcessObject {
    const backend: Backend
    var pid: int
    var exitStatus: int
    var ops: seq<OpState>
    /** The system's side: the child, its pending SIGCHLD and the signal set's queue. */
    var kernel: Kernel
    var sigPending: bool
    var undelivered: nat
    var destroyed: bool
    var reaps: nat
    var noChild: nat
    var log: seq<Completion>

    function State(): Process
      reads this
    {
      Process(backend, pid, kernel, exitStatus, ops, sigPending, undelivered, destroyed, reaps, noChild, log)
    }

    /** An object for a child that may have exited already, in a program that may have other children. */
    constructor (backend: Backend, pid: int, child: Kernel, sigPending: bool)
      requires pid > 0 && !child.Gone? && (child.Zombie? ==> !IsRunning(child.status))
      ensures Start(State()) && this.backend == backend && this.pid == pid
      ensures kernel == child && this.sigPending == sigPending
    {
      this.backend, this.pid, kernel, this.sigPending := backend, pid, child, sigPending;
      exitStatus, ops, undelivered, destroyed := STILL_ACTIVE, [], 0, false;
      reaps, noChild, log := 0, 0, [];
    }

    /** `::waitpid(pid_, &status, WNOHANG)`: -1, 0 or the pid. */
    method WaitPid() returns (res: int, status: int)
      requires pid > 0
      modifies this
      ensures State() == Polled(old(State()))
      ensures match Poll(old(kernel))
              case NoChild => res == -1
              case NotYet => res == 0
              case Reaped(s) => res == pid && status == s
    {
      status := 0;
      match kernel {
        case Alive => res := 0;
        case Gone(_) => res, noChild := -1, noChild + 1;
        case Zombie(s) => res, status, kernel, reaps := pid, s, Gone(s), reaps + 1;
      }
    }

    /** `process_handle::running` */
    method HandleRunning(code0: int, ec0: int) returns (running: bool, code: int, ec: int)
      modifies this
      ensures pid <= 0 ==> State() == old(State()) && !running && code == code0 && ec == ec0
      ensures pid > 0 ==>
                && State() == Polled(old(State()))
                && match Poll(old(kernel))
                   case NoChild => !running && code == code0 && ec == ECHILD
                   case NotYet => running && code == code0 && ec == ec0
                   case Reaped(s) => !running && code == s && ec == NO_ERROR
    {
      code, ec := code0, ec0;
      if pid <= 0 {
        return false, code, ec;
      }
      var res, status := WaitPid();
      if res == -1 {
        ec := ECHILD;
      } else if res == 0 {
        return true, code, ec;
      } else {
        ec, code := NO_ERROR, status;
      }
      running := false;
    }

    /** `process_handle::wait`: `interrupts` EINTRs, then the child has exited with `status` at the
        latest. */
    method BlockingWait(ec0: int, interrupts: nat, status: int) returns (ec: int)
      modifies this
      ensures (State(), ec) == HandleWait(old(State()), ec0, status)
    {
      ec := ec0;
      if pid <= 0 {
        return;
      }
      var left, waiting := interrupts, true;
      while waiting
        invariant waiting ==> State() == old(State()) && ec == ec0
        invariant !waiting ==> (State(), ec) == HandleWait(old(State()), ec0, status)
        decreases waiting, left
      {
        if left > 0 {
          left := left - 1;
        } else {
          if kernel.Alive? {
            kernel, sigPending := Zombie(status), true;
          }
          var res, s := WaitPid();
          if res < 0 {
            ec := ECHILD;
          } else {
            exitStatus := s;
          }
          waiting := false;
        }
      }
    }

    /** `basic_process::running(ec)` */
    method CheckRunning(ec0: int) returns (running: bool, ec: int)
      modifies this
      ensures (State(), running, ec) == Running(old(State()), ec0)
      ensures Inv(old(State())) && !old(destroyed) ==>
                && (running <==> old(kernel).Alive?) && (ec0 == NO_ERROR ==> ec == NO_ERROR)
                && (!running ==> !IsRunning(exitStatus) && kernel == Gone(exitStatus))
    {
      ec := ec0;
      if !IsRunning(exitStatus) {
        return false, ec;
      }
      var code;
      running, code, ec := HandleRunning(0, ec);
      if ec == NO_ERROR && !running {
        exitStatus := code;
      }
    }

    /** `basic_process::wait(ec)` */
    method WaitForExit(ec0: int, interrupts: nat, status: int) returns (code: int, ec: int)
      modifies this
      ensures (State(), ec) == Wait(old(State()), ec0, status)
      ensures Inv(old(State())) && !old(destroyed) && ec0 == NO_ERROR && !IsRunning(status) ==>
                ec == NO_ERROR && code == EvaluateExitCode(kernel.status) && CodeTold(State(), code)
    {
      var running;
      running, ec := CheckRunning(ec0);
      if running {
        ec := BlockingWait(ec, interrupts, status);
      }
      code := EvaluateExitCode(exitStatus);
      if kernel.Gone? && code == EvaluateExitCode(kernel.status) {
        RealCodeTold(State(), code);
      }
    }

    /** `basic_process::terminate(ec)` */
    method TerminateChild(ec0: int, interrupts: nat, status: int) returns (ec: int)
      modifies this
      ensures (State(), ec) == Terminate(old(State()), ec0, status)
      ensures Inv(old(State())) && !old(destroyed) && ec0 == NO_ERROR && !IsRunning(status) ==>
                kernel.Gone? && exitStatus == kernel.status && (ec == NO_ERROR <==> !old(kernel).Gone?)
    {
      ec := ec0;
      if pid <= 0 {
        return;
      }
      if kernel.Gone? {
        ec := ESRCH;
      } else {
        ec := BlockingWait(ec, interrupts, status);
      }
    }

    /** `signal_set::async_wait` */
    method SuspendOnSignals(op: nat, cancelled: bool)
      requires op < |ops|
      modifies this
      ensures State() == ArmSignal(old(State()), op, cancelled)
    {
      if undelivered > 0 {
        undelivered := undelivered - 1;
        ops := ops[op := Woken(false, cancelled)];
      } else {
        ops := ops[op := Armed(cancelled)];
      }
    }

    /** The polling part common to the handles' operations. */
    method PollOperation(op: nat, cancelled: bool)
      requires op < |ops|
      modifies this
      ensures State() == PollOp(old(State()), op, cancelled)
    {
      var ec, waitRes := NO_ERROR, -1;
      if pid <= 0 {
        ec := EBADF;
      } else if IsRunning(exitStatus) {
        var status;
        waitRes, status := WaitPid();
        if waitRes == -1 {
          ec := ECHILD;
        } else if waitRes > 0 {
          exitStatus := status;
        }
      }
      if ec == NO_ERROR && waitRes == 0 {
        if backend.Descriptor? {
          ops := ops[op := Armed(cancelled)];
        } else {
          SuspendOnSignals(op, cancelled);
        }
        return;
      }
      ops := ops[op := Finishing(ec, None)];
    }

    /** `handle.async_wait`; for the signal set followed by its `cancel`. */
    method HandleWaitAsync(op: nat)
      requires op < |ops|
      modifies this
      ensures State() == HandleAsyncWait(old(State()), op)
    {
      if backend.Descriptor? {
        PollOperation(op, false);
      } else {
        SuspendOnSignals(op, false);
        ops := WakeAll(ops, true);
      }
    }

    /** `basic_process::async_wait` */
    method StartWait()
      modifies this
      ensures State() == AsyncWait(old(State()))
    {
      if !IsRunning(exitStatus) {
        ops := ops + [Finishing(NO_ERROR, Some(exitStatus))];
      } else {
        ops := ops + [Armed(false)];
        HandleWaitAsync(|ops| - 1);
      }
    }

    /** The completion: `basic_process::async_wait_op_::operator()(self, ec)`. */
    method FinishWait(op: nat)
      requires op < |ops| && ops[op].Finishing?
      modifies this
      ensures State() == CompleteStep(old(State()), op)
    {
      var Finishing(ec, captured) := ops[op];
      if captured.Some? {
        ops, log := ops[op := Done], log + [Completion(op, NO_ERROR, EvaluateExitCode(captured.value))];
      } else if ec == NO_ERROR && IsRunning(exitStatus) {
        HandleWaitAsync(op);
      } else {
        ops, log := ops[op := Done], log + [Completion(op, ec, EvaluateExitCode(exitStatus))];
      }
    }

    /** The destructor: `terminate_if_running`. It leaves no zombie and kills nothing that is gone. */
    method TerminateIfRunning(status: int)
      requires !destroyed
      modifies this
      ensures State() == DestroyStep(old(State()), status)
      ensures pid > 0 ==> kernel.Gone?
    {
      if pid <= 0 {
        destroyed := true;
        return;
      }
      var res, s := WaitPid();
      if res == 0 {
        kernel, sigPending := Zombie(status), true;
        res, s := WaitPid();
      }
      destroyed := true;
    }

    /** The descriptor handle's second operator: the pidfd is readable. */
    method BecomeReady(op: nat, interrupted: bool)
      requires op < |ops| && pid > 0 && !kernel.Alive?
      modifies this
      ensures State() == ReadyStep(old(State()), op, interrupted)
    {
      var ec := NO_ERROR;
      if IsRunning(exitStatus) {
        if interrupted {
          ec := EINTR;
        } else {
          var res, status := WaitPid();
          if res == -1 {
            ec := ECHILD;
          } else {
            exitStatus := status;
          }
        }
      }
      ops := ops[op := Finishing(ec, None)];
    }

    /** The signal handle's second operator: its wait on the signal set ended, by a signal or a cancel. */
    method ResumeWait(op: nat)
      requires op < |ops| && ops[op].Woken?
      modifies this
      ensures State() == ResumeStep(old(State()), op)
    {
      var Woken(aborted, cancelled) := ops[op];
      var ec := if aborted && cancelled then ABORTED else NO_ERROR;
      if pid <= 0 {
        ec := EBADF;
      }
      if ec == NO_ERROR {
        PollOperation(op, cancelled);
      } else {
        ops := ops[op := Finishing(ec, None)];
      }
    }

    /** A caller cancels one asynchronous wait. */
    method CancelWait(op: nat)
      requires op < |ops|
      modifies this
      ensures State() == CancelStep(old(State()), op)
    {
      if backend.Descriptor? {
        ops := ops[op := Finishing(ABORTED, None)];
      } else if ops[op].Woken? {
        ops := ops[op := Woken(ops[op].aborted, true)];
      } else {
        ops := ops[op := Woken(true, true)];
      }
    }

    /** The system: the child exits, SIGCHLD becomes pending, the signal set receives it. */
    method SystemStep(e: Event)
      requires e.ChildExits? || e.SpuriousSignal? || e.DeliverSignal?
      requires Enabled(State(), e)
      modifies this
      ensures State() == Apply(old(State()), e)
    {
      if e.ChildExits? {
        kernel, sigPending := Zombie(e.status), true;
      } else if e.SpuriousSignal? {
        sigPending := true;
      } else {
        sigPending := false;
        if exists i :: 0 <= i < |ops| && ops[i].Armed? {
          ops := WakeAll(ops, false);
        } else {
          undelivered := undelivered + 1;
        }
      }
    }

    /** One thing that may happen to the object: a call, a turn of an asynchronous wait, or the system. */
    method Perform(e: Event, interrupts: nat)
      requires Enabled(State(), e) && pid > 0
      modifies this
      ensures State() == Apply(old(State()), e)
    {
      match e {
        case CallRunning(ec0) =>
          var running, ec := CheckRunning(ec0);
        case CallWait(ec0, status) =>
          var code, ec := WaitForExit(ec0, interrupts, status);
        case CallTerminate(ec0, status) =>
          var ec := TerminateChild(ec0, interrupts, status);
        case StartAsync => StartWait();
        case Ready(op) => BecomeReady(op, false);
        case ReadyInterrupted(op) => BecomeReady(op, true);
        case Cancel(op) => CancelWait(op);
        case Resume(op) => ResumeWait(op);
        case Complete(op) => FinishWait(op);
        case Destroy(status) => TerminateIfRunning(status);
        case _ => SystemStep(e);
      }
    }
  }

  /** Whatever happens to an object, in any order and with any interruptions: its methods make a run of the
      protocol. The child is reaped at most once, no call of the live object asks for a child that is
      gone, the cached status is the child's and never changes once known, and an exit code is delivered
      to each handler once. */
  method Session(p: ProcessObject, es: seq<Event>, interrupts: nat) returns (ghost done: seq<Event>)
    requires Inv(p.State())
    modifies p
    ensures IsRun(old(p.State()), done) && p.State() == Run(old(p.State()), done)
    ensures Inv(p.State()) && p.reaps <= 1
    ensures !p.destroyed ==> p.noChild == 0 && (p.reaps == 1 <==> !IsRunning(p.exitStatus))
    ensures !p.destroyed && p.reaps == 1 ==> p.exitStatus == p.kernel.status
    ensures !old(p.destroyed) && !IsRunning(old(p.exitStatus)) && !p.destroyed ==> p.exitStatus == old(p.exitStatus)
    ensures forall k :: 0 <= k < |p.log| && p.log[k].ec == NO_ERROR ==> CodeTold(p.State(), p.log[k].code)
    ensures Undisturbed(es) ==> Undisturbed(done)
  {
    done := [];
    for i := 0 to |es|
      invariant IsRun(old(p.State()), done) && p.State() == Run(old(p.State()), done)
      invariant Inv(p.State())
      invariant Undisturbed(es) ==> Undisturbed(done)
    {
      if Enabled(p.State(), es[i]) {
        ghost var before := p.State();
        StepInv(before, es[i]);
        RunSnoc(old(p.State()), done, es[i]);
        p.Perform(es[i], interrupts);
        done := done + [es[i]];
      }
    }
    if !old(p.destroyed) && !IsRunning(old(p.exitStatus)) {
      StatusIsFinal(old(p.State()), done);
    }
    forall k | 0 <= k < |p.log| && p.log[k].ec == NO_ERROR ensures CodeTold(p.State(), p.log[k].code) {
      assert CodeInv(p.State(), p.log[k]);
      RealCodeTold(p.State(), p.log[k].code);
    }
  }

  lemma {:induction false} RunSnoc(p: Process, es: seq<Event>, e: Event)
    requires IsRun(p, es) && Enabled(Run(p, es), e)
    ensures IsRun(p, es + [e]) && Run(p, es + [e]) == Apply(Run(p, es), e)
    decreases |es|
  {
    var all := es + [e];
    if es == [] {
      assert all[1..] == [];
    } else {
      RunSnoc(Apply(p, es[0]), es[1..], e);
      assert all[1..] == es[1..] + [e];
    }
  }

  /** Over its whole life, from the launch to the destructor, an object reaps its child exactly once; and
      without cancels and interrupted waits, every asynchronous wait that completes is a success. */
  method Lifetime(backend: Backend, pid: int, child: Kernel, sigPending: bool,
                  es: seq<Event>, interrupts: nat, status: int)
    returns (p: ProcessObject)
    requires pid > 0 && !child.Gone? && (child.Zombie? ==> !IsRunning(child.status)) && !IsRunning(status)
    ensures fresh(p) && p.destroyed && p.reaps == 1
    ensures Undisturbed(es) ==> forall k :: 0 <= k < |p.log| ==> p.log[k].ec == NO_ERROR
  {
    p := new ProcessObject(backend, pid, child, sigPending);
    ghost var start := p.State();
    ghost var done := Session(p, es, interrupts);
    WaitsSucceed(start, done);
    if !p.destroyed {
      var last := Destroy(status);
      StepInv(p.State(), last);
      p.Perform(last, interrupts);
    }
  }
}
