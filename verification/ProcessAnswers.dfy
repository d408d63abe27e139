/** What the callers and handlers of a `basic_process` are told: exit codes, and the errors an asynchronous
    wait can end with. */
module ProcessAnswers {
  import opened Wrappers
  import opened ProcessProtocol

  // ---- exit codes -------------------------------------------------------------------------------

  /** How a process ends: with an exit code, or by a signal, leaving a core or not. */
  datatype Ending = Exited(code: int) | Killed(signal: int, core: bool)

  predicate ValidEnding(e: Ending) {
    match e
    case Exited(code) => 0 <= code < 256
    case Killed(signal, _) => 1 <= signal <= 126
  }

  /** The status word the system reports. */
  function Encoded(e: Ending): int {
    match e
    case Exited(code) => 256 * code
    case Killed(signal, core) => signal + if core then 128 else 0
  }

  function CodeOf(e: Ending): int {
    match e
    case Exited(code) => code
    case Killed(signal, _) => signal
  }

  /** The exit code is the one the process gave to `exit`, or the signal that killed it. */
  lemma EndingRecovered(e: Ending)
    requires ValidEnding(e)
    ensures !IsRunning(Encoded(e)) && EvaluateExitCode(Encoded(e)) == CodeOf(e)
    ensures e.Exited? ==> IfExited(Encoded(e)) && !IfSignaled(Encoded(e))
    ensures e.Killed? ==> IfSignaled(Encoded(e)) && !IfExited(Encoded(e))
  {
  }

  /** Only the lowest sixteen bits of the status word count. */
  lemma HighBitsIgnored(e: Ending, high: int)
    requires ValidEnding(e)
    ensures var status := Encoded(e) + 0x1_0000 * high;
            && !IsRunning(status) && EvaluateExitCode(status) == CodeOf(e)
            && IfExited(status) == e.Exited? && IfSignaled(status) == e.Killed?
  {
    LowBits(Encoded(e), high);
    EndingRecovered(e);
  }

  lemma LowBits(x: int, high: int)
    ensures (x + 0x1_0000 * high) % 128 == x % 128
    ensures ((x + 0x1_0000 * high) / 256) % 256 == (x / 256) % 256
  {
    Whole(x, 512 * high, 128);
    Whole(x, 256 * high, 256);
    Whole(x / 256, high, 256);
  }

  /** Adding a multiple of `n` leaves the remainder. */
  lemma Whole(x: int, k: int, n: nat)
    requires n == 128 || n == 256
    ensures (x + n * k) % n == x % n && (x + n * k) / n == x / n + k
  {
  }

  /** A stopped or continued process has not ended, and neither has one nothing is known about. */
  lemma NotEnded(signal: int)
    requires 0 <= signal < 256
    ensures IsRunning(256 * signal + 0x7f) && IsRunning(0xffff) && IsRunning(STILL_ACTIVE)
    ensures EvaluateExitCode(STILL_ACTIVE) == STILL_ACTIVE
  {
    assert (256 * signal + 0x7f) % 128 == 0x7f;
  }

  ghost predicate CodeTold(p: Process, code: int) {
    p.kernel.Gone? && forall e :: ValidEnding(e) && p.kernel.status == Encoded(e) ==> code == CodeOf(e)
  }

  lemma RealCodeTold(p: Process, code: int)
    requires p.kernel.Gone? && code == EvaluateExitCode(p.kernel.status)
    ensures CodeTold(p, code)
  {
    forall e | ValidEnding(e) && p.kernel.status == Encoded(e) ensures code == CodeOf(e) {
      EndingRecovered(e);
    }
  }

  // ---- why an asynchronous wait fails -------------------------------------------------------------

  /** The only reasons: the caller cancelled this wait, or a signal interrupted its blocking `waitpid`. */
  predicate Excused(ec: int, op: nat, past: seq<Event>) {
    ec == NO_ERROR || (ec == ABORTED && Cancel(op) in past) || (ec == EINTR && ReadyInterrupted(op) in past)
  }

  predicate OpExcused(s: OpState, op: nat, past: seq<Event>) {
    match s
    case Armed(cancelled) => cancelled ==> Cancel(op) in past
    case Woken(_, cancelled) => cancelled ==> Cancel(op) in past
    case Finishing(ec, _) => Excused(ec, op, past)
    case Done => true
  }

  ghost predicate AllExcused(p: Process, past: seq<Event>) {
    && (forall i :: 0 <= i < |p.ops| ==> OpExcused(p.ops[i], i, past))
    && (forall k :: 0 <= k < |p.log| ==> Excused(p.log[k].ec, p.log[k].op, past))
  }

  lemma MorePast(p: Process, past: seq<Event>, e: Event)
    requires AllExcused(p, past)
    ensures AllExcused(p, past + [e])
  {
  }

  /** One operation moves on; the others and the log stay. */
  lemma OneMoves(p: Process, q: Process, op: nat, past: seq<Event>)
    requires AllExcused(p, past) && op < |p.ops| == |q.ops|
    requires q.ops == p.ops[op := q.ops[op]] && q.log == p.log && OpExcused(q.ops[op], op, past)
    ensures AllExcused(q, past)
  {
  }

  lemma PollExcused(p: Process, op: nat, cancelled: bool, past: seq<Event>)
    requires StatusInv(p) && !p.destroyed && AllExcused(p, past) && op < |p.ops|
    requires cancelled ==> Cancel(op) in past
    ensures AllExcused(PollOp(p, op, cancelled), past)
  {
    OneMoves(p, PollOp(p, op, cancelled), op, past);
  }

  lemma WakeExcused(p: Process, aborted: bool, past: seq<Event>)
    requires AllExcused(p, past)
    ensures AllExcused(p.(ops := WakeAll(p.ops, aborted)), past)
  {
    var q := p.(ops := WakeAll(p.ops, aborted));
    forall i | 0 <= i < |q.ops| ensures OpExcused(q.ops[i], i, past) {
      assert OpExcused(p.ops[i], i, past);
    }
  }

  lemma StartExcused(p: Process, past: seq<Event>)
    requires StatusInv(p) && Enabled(p, StartAsync) && AllExcused(p, past)
    ensures AllExcused(Apply(p, StartAsync), past)
  {
    var n, r := |p.ops|, p.(ops := p.ops + [Armed(false)]);
    forall i | 0 <= i < |r.ops| ensures OpExcused(r.ops[i], i, past) {
      assert i < n ==> OpExcused(p.ops[i], i, past);
    }
    var q := Apply(p, StartAsync);
    if !IsRunning(p.exitStatus) {
      forall i | 0 <= i < |q.ops| ensures OpExcused(q.ops[i], i, past) {
        assert i < n ==> OpExcused(p.ops[i], i, past);
      }
    } else if p.backend.Descriptor? {
      PollExcused(r, n, false, past);
    } else {
      var armed := ArmSignal(r, n, false);
      OneMoves(r, armed, n, past);
      WakeExcused(armed, true, past);
    }
  }

  lemma ResumeExcused(p: Process, op: nat, past: seq<Event>)
    requires StatusInv(p) && Enabled(p, Resume(op)) && AllExcused(p, past)
    ensures AllExcused(Apply(p, Resume(op)), past)
  {
    var Woken(aborted, cancelled) := p.ops[op];
    assert OpExcused(p.ops[op], op, past);
    if aborted && cancelled {
      OneMoves(p, ResumeStep(p, op), op, past);
    } else {
      PollExcused(p, op, cancelled, past);
    }
  }

  /** A blocking wait on a readable pidfd collects the status without an error. */
  lemma ReadyExcused(p: Process, op: nat, interrupted: bool, past: seq<Event>)
    requires StatusInv(p) && !p.destroyed && op < |p.ops| && !p.kernel.Alive? && AllExcused(p, past)
    requires interrupted ==> ReadyInterrupted(op) in past
    ensures AllExcused(ReadyStep(p, op, interrupted), past)
  {
    OneMoves(p, ReadyStep(p, op, interrupted), op, past);
  }

  lemma CompleteExcused(p: Process, op: nat, past: seq<Event>)
    requires Inv(p) && Enabled(p, Complete(op)) && AllExcused(p, past)
    ensures AllExcused(Apply(p, Complete(op)), past)
  {
    var q := Apply(p, Complete(op));
    var c := CompleteOne(p, op);
    assert OpExcused(p.ops[op], op, past);
    forall i | 0 <= i < |q.ops| ensures OpExcused(q.ops[i], i, past) {
      assert OpExcused(p.ops[i], i, past);
    }
  }

  lemma CallExcused(p: Process, e: Event, past: seq<Event>)
    requires StatusInv(p) && Enabled(p, e) && IsCall(e) && AllExcused(p, past)
    ensures AllExcused(Apply(p, e), past)
  {
    CallStatus(p, e);
  }

  lemma StepExcused(p: Process, e: Event, past: seq<Event>)
    requires Inv(p) && Enabled(p, e) && AllExcused(p, past)
    ensures AllExcused(Apply(p, e), past + [e])
  {
    var now := past + [e];
    MorePast(p, past, e);
    assert e in now;
    match e
    case DeliverSignal => WakeExcused(p, false, now);
    case StartAsync => StartExcused(p, now);
    case Ready(op) => ReadyExcused(p, op, false, now);
    case ReadyInterrupted(op) => ReadyExcused(p, op, true, now);
    case Cancel(op) => OneMoves(p, CancelStep(p, op), op, now);
    case Resume(op) => ResumeExcused(p, op, now);
    case Complete(op) => CompleteExcused(p, op, now);
    case _ => CallExcused(p, e, now);
  }

  lemma {:induction false} RunExcused(p: Process, es: seq<Event>, past: seq<Event>)
    requires Inv(p) && AllExcused(p, past) && IsRun(p, es)
    ensures AllExcused(Run(p, es), past + es)
    decreases |es|
  {
    if es == [] {
      assert past + es == past;
    } else {
      StepExcused(p, es[0], past);
      StepInv(p, es[0]);
      RunExcused(Apply(p, es[0]), es[1..], past + [es[0]]);
      assert (past + [es[0]]) + es[1..] == past + es;
    }
  }

  predicate Undisturbed(es: seq<Event>) {
    forall i :: 0 <= i < |es| ==> !es[i].Cancel? && !es[i].ReadyInterrupted?
  }

  /** Over every run: an asynchronous wait succeeds, and tells the code the child ended with; the only
      errors are that it was cancelled itself and that its `waitpid` was interrupted. Without either of
      these, every completion is a success. */
  lemma WaitsSucceed(p: Process, es: seq<Event>)
    requires Start(p) && IsRun(p, es)
    ensures var r := Run(p, es);
            forall k :: 0 <= k < |r.log| ==>
              && Excused(r.log[k].ec, r.log[k].op, es)
              && (r.log[k].ec == NO_ERROR ==> CodeTold(r, r.log[k].code))
              && (Undisturbed(es) ==> r.log[k].ec == NO_ERROR)
  {
    RunInv(p, es);
    RunExcused(p, es, []);
    assert [] + es == es;
    var r := Run(p, es);
    forall k | 0 <= k < |r.log| && r.log[k].ec == NO_ERROR ensures CodeTold(r, r.log[k].code) {
      assert CodeInv(r, r.log[k]);
      RealCodeTold(r, r.log[k].code);
    }
  }

  // ---- cancelling works ---------------------------------------------------------------------------

  lemma RunTwo(p: Process, a: Event, b: Event)
    requires Enabled(p, a) && Enabled(Apply(p, a), b)
    ensures IsRun(p, [a, b]) && Run(p, [a, b]) == Apply(Apply(p, a), b)
  {
    RunCons(Apply(p, a), b, []);
    RunCons(p, a, [b] + []);
    assert [a] + ([b] + []) == [a, b];
  }

  lemma RunThree(p: Process, a: Event, p1: Process, b: Event, p2: Process, c: Event, p3: Process)
    requires Enabled(p, a) && Apply(p, a) == p1 && Enabled(p1, b) && Apply(p1, b) == p2
    requires Enabled(p2, c) && Apply(p2, c) == p3
    ensures IsRun(p, [a, b, c]) && Run(p, [a, b, c]) == p3
  {
    RunTwo(p1, b, c);
    RunCons(p, a, [b, c]);
    assert [a] + [b, c] == [a, b, c];
  }

  /** A wait that is suspended when it is cancelled, or has only been rescheduled by the start of another
      one, ends with the abort in the next steps of its own, with the code of a process that is still active
      or the real one. */
  lemma CancelAborts(p: Process, op: nat) returns (more: seq<Event>, c: Completion)
    requires Inv(p) && !p.destroyed && op < |p.ops| && (p.ops[op].Armed? || (p.ops[op].Woken? && p.ops[op].aborted))
    ensures IsRun(p, [Cancel(op)] + more) && forall i :: 0 <= i < |more| ==> more[i] == Resume(op) || more[i] == Complete(op)
    ensures c.op == op && c.ec == ABORTED
    ensures Run(p, [Cancel(op)] + more).log == p.log + [c]
  {
    assert OpInv(p, p.ops[op]);
    var p1 := Apply(p, Cancel(op));
    StepInv(p, Cancel(op));
    var p2 := p1;
    more := [Complete(op)] + [];
    if p.backend.Signal? {
      p2 := Apply(p1, Resume(op));
      StepInv(p1, Resume(op));
    }
    c := CompleteOne(p2, op);
    RunCons(p2, Complete(op), []);
    if p.backend.Signal? {
      RunCons(p1, Resume(op), more);
      more := [Resume(op)] + more;
    }
    RunCons(p, Cancel(op), more);
  }

  /** So a new wait that is cancelled at once ends with the abort, and so does any other one suspended
      when it was started, unless a signal was in the queue of the signal set. */
  lemma StartThenCancel(p: Process, op: nat) returns (more: seq<Event>, c: Completion)
    requires Inv(p) && !p.destroyed && p.kernel.Alive?
    requires if op < |p.ops| then p.ops[op].Armed? else op == |p.ops| && p.undelivered == 0
    ensures IsRun(p, [StartAsync] + ([Cancel(op)] + more)) && c.op == op && c.ec == ABORTED
    ensures Run(p, [StartAsync] + ([Cancel(op)] + more)).log == p.log + [c]
  {
    var q := Apply(p, StartAsync);
    StepInv(p, StartAsync);
    assert op < |p.ops| ==> OpInv(p, p.ops[op]);
    assert q.ops[op] == if p.backend.Descriptor? then (if op < |p.ops| then p.ops[op] else Armed(false))
                        else Woken(true, if op < |p.ops| then p.ops[op].cancelled else false);
    more, c := CancelAborts(q, op);
    RunCons(p, StartAsync, [Cancel(op)] + more);
  }

  /** A `waitpid` that is interrupted ends the wait with that error. */
  lemma InterruptTells(p: Process, op: nat)
    requires Inv(p) && !p.destroyed && p.backend.Descriptor? && p.kernel.Zombie? && op < |p.ops| && p.ops[op].Armed?
    ensures IsRun(p, [ReadyInterrupted(op), Complete(op)])
    ensures Run(p, [ReadyInterrupted(op), Complete(op)]).log == p.log + [Completion(op, EINTR, STILL_ACTIVE)]
  {
    var p1 := Apply(p, ReadyInterrupted(op));
    StepInv(p, ReadyInterrupted(op));
    var c := CompleteOne(p1, op);
    RunTwo(p, ReadyInterrupted(op), Complete(op));
  }

  /** The signal of another child wakes every suspended wait, and each polls and suspends again as it was. */
  lemma OtherSignalWakes(p: Process)
    requires !p.destroyed && p.backend.Signal? && exists i :: 0 <= i < |p.ops| && p.ops[i].Armed?
    ensures Enabled(p, SpuriousSignal) && Enabled(Apply(p, SpuriousSignal), DeliverSignal)
    ensures Apply(Apply(p, SpuriousSignal), DeliverSignal) == p.(ops := WakeAll(p.ops, false), sigPending := false)
  {
    assert Apply(p, SpuriousSignal) == p.(sigPending := true);
  }

  lemma SuspendsAgain(p: Process, op: nat, cancelled: bool)
    requires !p.destroyed && p.pid > 0 && p.backend.Signal? && p.kernel.Alive? && IsRunning(p.exitStatus)
    requires p.undelivered == 0 && op < |p.ops| && p.ops[op] == Woken(false, cancelled)
    ensures Enabled(p, Resume(op)) && Apply(p, Resume(op)) == p.(ops := p.ops[op := Armed(cancelled)])
  {
  }

  /** A wait that suspends while signals are queued. */
  predicate TakesSignal(p: Process, e: Event)
    requires Enabled(p, e)
  {
    p.backend.Signal? && p.undelivered > 0 &&
    match e
    case StartAsync => IsRunning(p.exitStatus)
    case Resume(op) => p.kernel.Alive? && !(p.ops[op].aborted && p.ops[op].cancelled)
    case _ => false
  }

  /** A signal that finds no wait suspended is queued, and each wait that suspends takes one; nothing else
      changes the queue. */
  lemma SignalsQueued(p: Process, e: Event)
    requires Inv(p) && Enabled(p, e)
    ensures var queued := e.DeliverSignal? && forall i :: 0 <= i < |p.ops| ==> !p.ops[i].Armed?;
            Apply(p, e).undelivered ==
            p.undelivered + (if queued then 1 else 0) - (if TakesSignal(p, e) then 1 else 0)
  {
    if e.Complete? {
      CompleteInv(p, e.op);
    }
  }

  /** As long as the object lives, everything may be called, and a wait under way may be cancelled. */
  lemma CallableAnyTime(p: Process, ec: int, status: int, op: nat)
    requires !p.destroyed && !IsRunning(status)
    ensures Enabled(p, CallRunning(ec)) && Enabled(p, CallWait(ec, status)) && Enabled(p, CallTerminate(ec, status))
    ensures Enabled(p, StartAsync) && Enabled(p, Destroy(status)) && Enabled(p, SpuriousSignal)
    ensures op < |p.ops| && !p.ops[op].Finishing? && !p.ops[op].Done? ==> Enabled(p, Cancel(op))
    ensures Enabled(p, Ready(op)) <==> Enabled(p, ReadyInterrupted(op))
  {
  }

  /** A signal that comes before the cancel is followed up: the wait succeeds. */
  lemma FollowedUp(p: Process, op: nat, e: Ending)
    requires Inv(p) && !p.destroyed && p.backend.Signal? && ValidEnding(e) && p.kernel == Zombie(Encoded(e))
    requires op < |p.ops| && p.ops[op].Woken? && !p.ops[op].aborted
    ensures IsRun(p, [Cancel(op), Resume(op), Complete(op)])
    ensures Run(p, [Cancel(op), Resume(op), Complete(op)]).log == p.log + [Completion(op, NO_ERROR, CodeOf(e))]
  {
    EndingRecovered(e);
    var p1 := Apply(p, Cancel(op));
    var p2 := Apply(p1, Resume(op));
    assert p2.ops[op] == Finishing(NO_ERROR, None) && p2.exitStatus == Encoded(e);
    RunThree(p, Cancel(op), p1, Resume(op), p2, Complete(op), Apply(p2, Complete(op)));
  }

  /** So does one whose signal is delivered while it is suspended. */
  lemma DeliveredFirst(p: Process, op: nat, e: Ending)
    requires Inv(p) && !p.destroyed && p.backend.Signal? && ValidEnding(e) && p.kernel == Zombie(Encoded(e))
    requires op < |p.ops| && p.ops[op].Armed?
    ensures Enabled(p, DeliverSignal)
    ensures var q := Apply(p, DeliverSignal);
            && IsRun(q, [Cancel(op), Resume(op), Complete(op)])
            && Run(q, [Cancel(op), Resume(op), Complete(op)]).log == p.log + [Completion(op, NO_ERROR, CodeOf(e))]
  {
    assert OpInv(p, p.ops[op]);
    StepInv(p, DeliverSignal);
    FollowedUp(Apply(p, DeliverSignal), op, e);
  }

  /** And one that finds a queued signal when it suspends again, and whose child ends then: a signal that
      finds no wait suspended is kept. */
  lemma QueuedFirst(p: Process, op: nat, e: Ending)
    requires Inv(p) && !p.destroyed && p.backend.Signal? && ValidEnding(e) && p.kernel.Alive? && p.sigPending
    requires forall i :: 0 <= i < |p.ops| ==> !p.ops[i].Armed?
    requires op < |p.ops| && p.ops[op].Woken? && !(p.ops[op].aborted && p.ops[op].cancelled)
    ensures var before := [DeliverSignal, Resume(op), ChildExits(Encoded(e))];
            && IsRun(p, before) && IsRun(Run(p, before), [Cancel(op), Resume(op), Complete(op)])
            && Run(Run(p, before), [Cancel(op), Resume(op), Complete(op)]).log ==
               p.log + [Completion(op, NO_ERROR, CodeOf(e))]
  {
    EndingRecovered(e);
    var exit := ChildExits(Encoded(e));
    var p1 := Apply(p, DeliverSignal);
    assert p1.ops == p.ops && p1.undelivered > 0;
    var p2 := Apply(p1, Resume(op));
    StepInv(p, DeliverSignal);
    StepInv(p1, Resume(op));
    StepInv(p2, exit);
    RunThree(p, DeliverSignal, p1, Resume(op), p2, exit, Apply(p2, exit));
    FollowedUp(Apply(p2, exit), op, e);
  }

  // ---- from the exit to the code ------------------------------------------------------------------

  /** A child that ends while the object lives: own steps of the object alone answer every asynchronous
      wait, and each that succeeds, all of them when nothing was cancelled or interrupted, tells how that
      child ended. */
  lemma ExitCodeArrives(p: Process, es: seq<Event>, e: Ending) returns (more: seq<Event>)
    requires Start(p) && IsRun(p, es) && Run(p, es).kernel.Alive? && !Run(p, es).destroyed && ValidEnding(e)
    ensures forall i :: 0 <= i < |more| ==> Internal(more[i])
    ensures Enabled(Run(p, es), ChildExits(Encoded(e))) && IsRun(Apply(Run(p, es), ChildExits(Encoded(e))), more)
    ensures var q := Run(Apply(Run(p, es), ChildExits(Encoded(e))), more);
            && AllAnswered(q)
            && (forall k :: 0 <= k < |q.log| ==> Undisturbed(es) ==> q.log[k].ec == NO_ERROR)
            && (forall k :: 0 <= k < |q.log| ==> q.log[k].ec == NO_ERROR ==> q.log[k].code == CodeOf(e))
  {
    EndingRecovered(e);
    var exit := ChildExits(Encoded(e));
    RunInv(p, es);
    StepInv(Run(p, es), exit);
    var r := Apply(Run(p, es), exit);
    more := OwnStepsAnswer(r);
    RunExcused(p, es, []);
    StepExcused(Run(p, es), exit, [] + es);
    RunExcused(r, more, [] + es + [exit]);
    assert [] + es == es;
    RunInv(r, more);
    StatusStays(r, more);
    ExcusedCodes(Run(r, more), e, es + [exit] + more, es);
  }

  lemma ExcusedCodes(q: Process, e: Ending, past: seq<Event>, es: seq<Event>)
    requires Inv(q) && AllExcused(q, past) && ValidEnding(e) && !q.kernel.Alive? && q.kernel.status == Encoded(e)
    requires forall x :: x in past ==> x in es || x == ChildExits(Encoded(e)) || Internal(x)
    ensures forall k :: 0 <= k < |q.log| ==> Undisturbed(es) ==> q.log[k].ec == NO_ERROR
    ensures forall k :: 0 <= k < |q.log| ==> q.log[k].ec == NO_ERROR ==> q.log[k].code == CodeOf(e)
  {
    EndingRecovered(e);
    forall k | 0 <= k < |q.log|
      ensures Undisturbed(es) ==> q.log[k].ec == NO_ERROR
      ensures q.log[k].ec == NO_ERROR ==> q.log[k].code == CodeOf(e)
    {
      assert Excused(q.log[k].ec, q.log[k].op, past) && CodeInv(q, q.log[k]);
    }
  }

  lemma {:induction false} StatusStays(p: Process, es: seq<Event>)
    requires IsRun(p, es) && !p.kernel.Alive?
    ensures var k := Run(p, es).kernel; !k.Alive? && k.status == p.kernel.status
    decreases |es|
  {
    if es != [] {
      StatusStep(p, es[0]);
      StatusStays(Apply(p, es[0]), es[1..]);
    }
  }

  lemma StatusStep(p: Process, e: Event)
    requires Enabled(p, e) && !p.kernel.Alive?
    ensures var k := Apply(p, e).kernel; !k.Alive? && k.status == p.kernel.status
  {
  }

  /** A blocking wait, and a termination, of a child that then ends collect how it ended. */
  lemma EndCollected(p: Process, e: Ending, ec: int)
    requires Inv(p) && !p.destroyed && p.kernel.Alive? && ValidEnding(e)
    ensures var q := Wait(p, ec, Encoded(e)).0; q.reaps == 1 && EvaluateExitCode(q.exitStatus) == CodeOf(e)
    ensures Terminate(p, ec, Encoded(e)) == Wait(p, ec, Encoded(e))
    ensures EvaluateExitCode(Apply(p, CallWait(ec, Encoded(e))).exitStatus) == CodeOf(e)
    ensures EvaluateExitCode(Apply(p, CallTerminate(ec, Encoded(e))).exitStatus) == CodeOf(e)
  {
    EndingRecovered(e);
  }

  /** What the calls do to the caller's error code: it is cleared when the status is collected without
      waiting, and `kill` fails on a child that has been collected; otherwise it stays. */
  lemma ErrorCodes(p: Process, ec: int, status: int)
    requires Inv(p) && !p.destroyed && !IsRunning(status)
    ensures Running(p, ec).2 == if p.kernel.Zombie? then NO_ERROR else ec
    ensures Wait(p, ec, status).1 == if p.kernel.Zombie? then NO_ERROR else ec
    ensures Terminate(p, ec, status).1 == if p.kernel.Gone? then ESRCH else ec
  {
  }

  /** The destructor collects the child, whose status then goes nowhere. */
  lemma DestroyCollects(p: Process, status: int)
    requires Inv(p) && !p.destroyed && !IsRunning(status)
    ensures var q := Apply(p, Destroy(status));
            && q.destroyed && q.reaps == 1 && q.exitStatus == p.exitStatus && q.log == p.log
            && q.kernel == Gone(if p.kernel.Alive? then status else p.kernel.status)
  {
  }

  // ---- an object without a process ----------------------------------------------------------------

  predicate VacantOp(backend: Backend, s: OpState) {
    match s
    case Armed(_) => false
    case Woken(_, _) => backend.Signal?
    case Finishing(ec, captured) => (ec == EBADF && captured == None) || (ec == NO_ERROR && captured == Some(0))
    case Done => true
  }

  predicate VacantAnswer(c: Completion) {
    if c.ec == NO_ERROR then c.code == 0 else c.ec == EBADF && c.code in {0, STILL_ACTIVE}
  }

  /** It never asks the system, and its waits end with an error, or with 0 once `running` or `wait` has
      answered. */
  ghost predicate Vacant(p: Process) {
    && p.pid <= 0 && p.exitStatus in {0, STILL_ACTIVE} && p.reaps == 0 && p.noChild == 0
    && (forall i :: 0 <= i < |p.ops| ==> VacantOp(p.backend, p.ops[i]))
    && (forall k :: 0 <= k < |p.log| ==> VacantAnswer(p.log[k]))
  }

  /** A wait on it is on its way to the error, at once or when it is resumed. */
  lemma VacantWait(p: Process)
    requires Vacant(p) && p.exitStatus == STILL_ACTIVE
    ensures var n, q := |p.ops|, AsyncWait(p);
            && |q.ops| == n + 1
            && (p.backend.Descriptor? ==> q.ops[n] == Finishing(EBADF, None))
            && (p.backend.Signal? ==> q.ops[n].Woken? && ResumeStep(q, n).ops[n] == Finishing(EBADF, None))
  {
  }

  lemma VacantAsync(p: Process)
    requires Vacant(p)
    ensures Vacant(AsyncWait(p)) && AsyncWait(p).kernel == p.kernel
  {
  }

  lemma VacantComplete(p: Process, op: nat)
    requires Vacant(p) && Enabled(p, Complete(op))
    ensures Vacant(Apply(p, Complete(op))) && Apply(p, Complete(op)).kernel == p.kernel
  {
    assert VacantOp(p.backend, p.ops[op]);
  }

  lemma VacantStep(p: Process, e: Event)
    requires Vacant(p) && Enabled(p, e)
    ensures Vacant(Apply(p, e)) && (e.ChildExits? || Apply(p, e).kernel == p.kernel)
  {
    match e
    case StartAsync => VacantAsync(p);
    case Complete(op) => VacantComplete(p, op);
    case _ =>
  }

  /** Over every run of an object without a process; and its calls answer at once, keeping the error code. */
  lemma {:induction false} WithoutProcess(p: Process, es: seq<Event>, ec: int, status: int)
    requires Vacant(p) && IsRun(p, es)
    ensures var r := Run(p, es);
            && Vacant(r)
            && !Running(r, ec).1 && Running(r, ec).2 == ec
            && (ec == NO_ERROR ==> Running(r, ec).0.exitStatus == 0)
            && Wait(r, ec, status) == (Running(r, ec).0, ec) && Terminate(r, ec, status) == (r, ec)
    decreases |es|
  {
    if es != [] {
      VacantStep(p, es[0]);
      WithoutProcess(Apply(p, es[0]), es[1..], ec, status);
    }
  }
}
