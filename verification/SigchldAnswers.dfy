/** What the handlers of `sigchld_service` are told: which result, when it is decided, and for which child. */
module SigchldAnswers {
  import opened Wrappers
  import opened SigchldProtocol

  /** What there is to say about a child that is not running: the status nobody has collected yet, or that
      there is no such child (any more). */
  function Finding(s: Service, pid: int): Result {
    if pid in s.children && s.children[pid].Zombie? then Exit(s.children[pid].status) else NoChild
  }

  /** The handler is the one being registered, or the one whose turn it is in the scan. */
  predicate Asking(s: Service, e: Event, o: Outcome) {
    match e
    case Register(pid) => pid == o.pid && s.registered == o.handler
    case PollNext =>
      s.pc.Scanning? && s.pc.next < |s.receivers| && s.receivers[s.pc.next] == Receiver(o.pid, o.handler)
    case _ => false
  }

  /** At most one result is new: that of the handler that asks, if its child is not running, and then
      exactly what there is to say. In a scan the handler is called at once, at its registration it is
      posted. */
  ghost predicate DecidesOne(s: Service, e: Event)
    requires Enabled(s, e)
  {
    var n, after := |s.outcomes|, Apply(s, e).outcomes;
    && n <= |after| <= n + 1
    && (|after| == n + 1 ==>
          && Asking(s, e, after[n]) && !IsRunning(s, after[n].pid)
          && after[n].result == Finding(s, after[n].pid)
          && (after[n].invoked <==> e.PollNext?))
    && (e.Register? && !IsRunning(s, e.pid) ==> |after| == n + 1)
    && (e.PollNext? && !IsRunning(s, s.receivers[s.pc.next].pid) ==> |after| == n + 1)
  }

  lemma RegisterDecides(s: Service, pid: int)
    requires Enabled(s, Register(pid))
    ensures DecidesOne(s, Register(pid))
  {
  }

  lemma PollDecides(s: Service)
    requires Enabled(s, PollNext)
    ensures DecidesOne(s, PollNext)
  {
  }

  lemma StepDecides(s: Service, e: Event)
    requires Enabled(s, e)
    ensures DecidesOne(s, e)
  {
    match e
    case Register(pid) => RegisterDecides(s, pid);
    case PollNext => PollDecides(s);
    case _ => assert Apply(s, e).outcomes == s.outcomes || e.RunPosted?;
  }

  /** Every result of a run has a moment at which it was decided, and tells what was the case then: an exit
      with the status of a child that was waiting to be collected, or no child, when the process was
      unknown or had been collected before. */
  lemma {:induction false} DecidedWhen(s: Service, es: seq<Event>, k: nat) returns (i: nat)
    requires IsRun(s, es) && |s.outcomes| <= k < |Run(s, es).outcomes|
    ensures i < |es| && IsRun(s, es[..i])
    ensures var before, o := Run(s, es[..i]), Run(s, es).outcomes[k];
            && |before.outcomes| == k && Asking(before, es[i], o)
            && !IsRunning(before, o.pid) && o.result == Finding(before, o.pid)
    decreases |es|
  {
    var s' := Apply(s, es[0]);
    StepDecides(s, es[0]);
    if k < |s'.outcomes| {
      OutcomesStay(s', es[1..]);
      assert es[..0] == [];
      i := 0;
    } else {
      var j := DecidedWhen(s', es[1..], k);
      assert es[..j + 1][1..] == es[1..][..j];
      i := j + 1;
    }
  }

  // ---- every collected exit is handed over --------------------------------------------------------

  /** The handler that is told the exit of `p`. */
  ghost predicate TellsExit(s: Service, k: int, p: int) {
    0 <= k < |s.outcomes| && s.outcomes[k].pid == p && s.outcomes[k].result.Exit? &&
    p in s.children && s.children[p] == Reaped(s.outcomes[k].result.status)
  }

  ghost predicate HandedOver(s: Service) {
    forall p :: p in s.reapedHere ==> exists k :: TellsExit(s, k, p)
  }

  lemma TellingStays(s: Service, e: Event, k: int, p: int)
    requires Enabled(s, e) && TellsExit(s, k, p)
    ensures TellsExit(Apply(s, e), k, p)
  {
    RunOne(s, e);
    OutcomesStay(s, [e]);
    CollectedStays(s, e, p);
  }

  lemma RunOne(s: Service, e: Event)
    requires Enabled(s, e)
    ensures IsRun(s, [e]) && Run(s, [e]) == Apply(s, e)
  {
    assert [e][1..] == [];
  }

  lemma CollectedStays(s: Service, e: Event, p: int)
    requires Enabled(s, e) && p in s.children && s.children[p].Reaped?
    ensures p in Apply(s, e).children && Apply(s, e).children[p] == s.children[p]
  {
  }

  /** A status newly collected goes into the result decided in the same step. */
  lemma CollectingTells(s: Service, e: Event, p: int)
    requires Enabled(s, e) && p in Apply(s, e).reapedHere && p !in s.reapedHere
    ensures TellsExit(Apply(s, e), |s.outcomes|, p)
  {
  }

  lemma StepHandsOver(s: Service, e: Event)
    requires HandedOver(s) && Enabled(s, e)
    ensures HandedOver(Apply(s, e))
  {
    var s' := Apply(s, e);
    forall p | p in s'.reapedHere ensures exists k :: TellsExit(s', k, p) {
      if p in s.reapedHere {
        var k :| TellsExit(s, k, p);
        TellingStays(s, e, k, p);
      } else {
        CollectingTells(s, e, p);
      }
    }
  }

  lemma {:induction false} RunHandsOver(s: Service, es: seq<Event>)
    requires HandedOver(s) && IsRun(s, es)
    ensures HandedOver(Run(s, es))
    decreases |es|
  {
    if es != [] {
      StepHandsOver(s, es[0]);
      RunHandsOver(Apply(s, es[0]), es[1..]);
    }
  }

  // ---- every handler is told about its own child --------------------------------------------------

  /** The processes asked about, in the order of registration. */
  function Asked(es: seq<Event>): seq<int> {
    if es == [] then [] else (if es[0].Register? then [es[0].pid] else []) + Asked(es[1..])
  }

  predicate NamedBy(asked: seq<int>, handler: nat, pid: int) {
    handler < |asked| && asked[handler] == pid
  }

  ghost predicate OwnChild(s: Service, asked: seq<int>) {
    && s.registered == |asked|
    && (forall k :: 0 <= k < |s.outcomes| ==> NamedBy(asked, s.outcomes[k].handler, s.outcomes[k].pid))
    && (forall k :: 0 <= k < |s.receivers| && s.receivers[k].pid != 0 ==>
          NamedBy(asked, s.receivers[k].handler, s.receivers[k].pid))
    && (s.initiating.Some? ==> NamedBy(asked, s.initiating.value.handler, s.initiating.value.pid))
  }

  lemma MoreAsked(s: Service, asked: seq<int>, pid: int)
    requires OwnChild(s, asked)
    ensures OwnChild(s.(registered := s.registered + 1), asked + [pid])
  {
  }

  lemma OwnChildRegister(s: Service, asked: seq<int>, pid: int)
    requires OwnChild(s, asked) && Enabled(s, Register(pid))
    ensures OwnChild(Apply(s, Register(pid)), asked + [pid])
  {
    MoreAsked(s, asked, pid);
  }

  lemma OwnChildPoll(s: Service, asked: seq<int>)
    requires OwnChild(s, asked) && MarkInv(s) && Enabled(s, PollNext)
    ensures OwnChild(Apply(s, PollNext), asked)
  {
    var i, s' := s.pc.next, Apply(s, PollNext);
    assert s.receivers[i].pid != 0;
    assert NamedBy(asked, s.receivers[i].handler, s.receivers[i].pid);
    StepDecides(s, PollNext);
  }

  lemma OwnChildEnd(s: Service, asked: seq<int>)
    requires OwnChild(s, asked) && Enabled(s, EndScan)
    ensures OwnChild(Apply(s, EndScan), asked)
  {
    var s' := Apply(s, EndScan);
    LiveMembers(s.receivers);
    forall k | 0 <= k < |s'.receivers| ensures NamedBy(asked, s'.receivers[k].handler, s'.receivers[k].pid) {
      var j :| 0 <= j < |s.receivers| && s.receivers[j] == s'.receivers[k];
    }
  }

  lemma OwnChildStep(s: Service, e: Event, asked: seq<int>)
    requires OwnChild(s, asked) && MarkInv(s) && Enabled(s, e)
    ensures OwnChild(Apply(s, e), if e.Register? then asked + [e.pid] else asked)
  {
    match e
    case Register(pid) => OwnChildRegister(s, asked, pid);
    case PollNext => OwnChildPoll(s, asked);
    case EndScan => OwnChildEnd(s, asked);
    case _ =>
  }

  lemma {:induction false} OwnChildRun(s: Service, es: seq<Event>, asked: seq<int>)
    requires OwnChild(s, asked) && Inv(s) && IsRun(s, es)
    ensures OwnChild(Run(s, es), asked + Asked(es))
    decreases |es|
  {
    if es == [] {
      assert asked + [] == asked;
    } else {
      var more := if es[0].Register? then [es[0].pid] else [];
      OwnChildStep(s, es[0], asked);
      StepInv(s, es[0]);
      assert asked + [] == asked;
      OwnChildRun(Apply(s, es[0]), es[1..], asked + more);
      Associate(asked, more, Asked(es[1..]));
    }
  }

  // ---- the promise --------------------------------------------------------------------------------

  /** Over every run from the start: every status the service has collected is told, as an exit with that
      status, to a handler that was registered for that process, and to no other; every other result says
      that there was no child to collect when it was decided (`DecidedWhen`). */
  lemma ExitsHandedOver(s: Service, es: seq<Event>)
    requires Start(s) && IsRun(s, es)
    ensures var r := Run(s, es);
            && HandedOver(r)
            && (forall j, k, p :: TellsExit(r, j, p) && TellsExit(r, k, p) ==> j == k)
            && OwnChild(r, Asked(es))
  {
    RunInv(s, es);
    RunHandsOver(s, es);
    OwnChildRun(s, es, []);
    assert [] + Asked(es) == Asked(es);
  }

  /** Any SIGCHLD, also one of a child nobody asks about, starts a scan when receivers wait, and is kept for
      the next wait otherwise. */
  lemma SpuriousStartsScan(s: Service)
    requires !s.sigPending
    ensures IsRun(s, [SpuriousSignal, Deliver])
    ensures Run(s, [SpuriousSignal, Deliver]) ==
            if s.armed then s.(armed := false, pending := true) else s.(queued := s.queued + 1)
  {
    RunOne(Apply(s, SpuriousSignal), Deliver);
    RunCons(s, SpuriousSignal, [Deliver]);
    assert [SpuriousSignal] + [Deliver] == [SpuriousSignal, Deliver];
  }

  function Received(es: seq<Event>): nat {
    if es == [] then 0 else (if es[0].Deliver? then 1 else 0) + Received(es[1..])
  }

  function Scans(es: seq<Event>): nat {
    if es == [] then 0 else (if es[0].BeginScan? then 1 else 0) + Scans(es[1..])
  }

  /** The scans still to come for signals received. */
  function Owed(s: Service): nat {
    s.queued + if s.pending then 1 else 0
  }

  /** Every signal received starts exactly one scan, at once or later. */
  lemma {:induction false} OneScanEach(s: Service, es: seq<Event>)
    requires Inv(s) && IsRun(s, es)
    ensures Scans(es) + Owed(Run(s, es)) == Owed(s) + Received(es)
    decreases |es|
  {
    if es != [] {
      StepInv(s, es[0]);
      OneScanStep(s, es[0]);
      OneScanEach(Apply(s, es[0]), es[1..]);
    }
  }

  lemma OneScanStep(s: Service, e: Event)
    requires ArmInv(s) && Enabled(s, e)
    ensures Owed(Apply(s, e)) + (if e.BeginScan? then 1 else 0) == Owed(s) + if e.Deliver? then 1 else 0
  {
  }

  // ---- from the exit to the handler ---------------------------------------------------------------

  /** What has ended stays ended with its status, which only this service collects meanwhile. */
  ghost predicate StillEnded(s: Service, s': Service, p: int)
    requires p in s.children
  {
    p in s'.children &&
    match s.children[p]
    case Running => true
    case Zombie(st) => s'.children[p] == Zombie(st) || (s'.children[p] == Reaped(st) && p in s'.reapedHere)
    case Reaped(st) => s'.children[p] == Reaped(st)
  }

  predicate AllInternal(es: seq<Event>) {
    forall i :: 0 <= i < |es| ==> Internal(es[i])
  }

  lemma {:induction false} EndedStays(s: Service, es: seq<Event>, p: int)
    requires IsRun(s, es) && AllInternal(es) && p in s.children && !IsRunning(s, p)
    ensures StillEnded(s, Run(s, es), p)
    ensures p in s.reapedHere ==> p in Run(s, es).reapedHere
    decreases |es|
  {
    if es != [] {
      assert Internal(es[0]);
      EndedStep(s, es[0], p);
      EndedStays(Apply(s, es[0]), es[1..], p);
    }
  }

  lemma EndedStep(s: Service, e: Event, p: int)
    requires Enabled(s, e) && Internal(e) && p in s.children && !IsRunning(s, p)
    ensures StillEnded(s, Apply(s, e), p) && !IsRunning(Apply(s, e), p)
    ensures p in s.reapedHere ==> p in Apply(s, e).reapedHere
  {
  }

  lemma {:induction false} NoneWaiting(rs: seq<Receiver>, h: nat)
    requires forall k :: 0 <= k < |rs| ==> rs[k].pid == 0 || rs[k].handler != h
    ensures Waiting(rs, h) == 0
  {
    if rs != [] {
      NoneWaiting(rs[1..], h);
    }
  }

  lemma AnsweredNotWaiting(s: Service, asked: seq<int>, h: nat, pid: int)
    requires OwnChild(s, asked) && AllAnswered(s) && NamedBy(asked, h, pid) && !IsRunning(s, pid)
    ensures Waiting(s.receivers, h) == 0
  {
    forall k | 0 <= k < |s.receivers| ensures s.receivers[k].pid == 0 || s.receivers[k].handler != h {
      assert IsRunning(s, s.receivers[k].pid);
      assert s.receivers[k].pid != 0 ==> NamedBy(asked, s.receivers[k].handler, s.receivers[k].pid);
    }
    NoneWaiting(s.receivers, h);
  }

  lemma {:induction false} DecidedWitness(os: seq<Outcome>, h: nat) returns (k: nat)
    requires Decided(os, h) > 0
    ensures k < |os| && os[k].handler == h
  {
    if os[0].handler == h {
      k := 0;
    } else {
      var j := DecidedWitness(os[1..], h);
      k := j + 1;
    }
  }

  /** A receiver whose child is not running is decided by own steps of the service alone. */
  lemma WaiterDecided(s: Service, es: seq<Event>, j: nat) returns (more: seq<Event>, k: nat)
    requires Start(s) && IsRun(s, es)
    requires j < |Run(s, es).receivers| && Run(s, es).receivers[j].pid in Run(s, es).children
    requires !IsRunning(Run(s, es), Run(s, es).receivers[j].pid)
    ensures AllInternal(more) && IsRun(s, es + more) && IsRun(Run(s, es), more) && AllAnswered(Run(s, es + more))
    ensures var r, q := Run(s, es), Run(s, es + more);
            && q == Run(r, more) && |r.outcomes| <= k < |q.outcomes| && q.outcomes[k].invoked
            && q.outcomes[k].handler == r.receivers[j].handler && q.outcomes[k].pid == r.receivers[j].pid
  {
    var r := Run(s, es);
    var pid, h := r.receivers[j].pid, r.receivers[j].handler;
    more := EverybodyAnswered(s, es);
    RunSplit(s, es, more);
    var q := Run(s, es + more);
    ExitsHandedOver(s, es);
    ExitsHandedOver(s, es + more);
    AskedConcat(es, more);
    EndedStays(r, more, pid);
    RunInv(s, es);
    assert pid != 0 && NamedBy(Asked(es), h, pid) && NamedBy(Asked(es + more), h, pid);
    assert h < q.registered;
    AnsweredNotWaiting(q, Asked(es + more), h, pid);
    k := DecidedWitness(q.outcomes, h);
    assert NamedBy(Asked(es + more), h, q.outcomes[k].pid);
    Notification(s, es);
    OutcomesStay(r, more);
  }

  /** A child that exits while a handler waits for it: own steps of the service alone tell that very
      status to a handler registered for it, and run the handler. */
  lemma ExitIsTold(s: Service, es: seq<Event>, j: nat, status: int) returns (more: seq<Event>, k: nat)
    requires Start(s) && IsRun(s, es)
    requires j < |Run(s, es).receivers| && IsRunning(Run(s, es), Run(s, es).receivers[j].pid)
    ensures var pid := Run(s, es).receivers[j].pid;
            var all := es + [ChildExits(pid, status)] + more;
            && AllInternal(more) && IsRun(s, all)
            && k < |Run(s, all).outcomes| && Run(s, all).outcomes[k].invoked
            && Run(s, all).outcomes[k].pid == pid && Run(s, all).outcomes[k].result == Exit(status)
  {
    var r := Run(s, es);
    var pid := r.receivers[j].pid;
    var e := ChildExits(pid, status);
    RunOne(r, e);
    RunConcat(s, es, [e]);
    var r1 := Run(s, es + [e]);
    RunInv(s, es);
    assert r1.children[pid] == Zombie(status);
    more, k := WaiterDecided(s, es + [e], j);
    var q := Run(s, es + [e] + more);
    var i := DecidedWhen(r1, more, k);
    EndedStays(r1, more[..i], pid);
    assert more[..i] + more[i..] == more;
    RunSplit(r1, more[..i], more[i..]);
    EndedStays(Run(r1, more[..i]), more[i..], pid);
    if q.outcomes[k].result != Exit(status) {
      ExitsHandedOver(s, es + [e] + more);
      k :| TellsExit(q, k, pid);
    }
  }

  /** When another part of the program collects the child first, the waiting handler is told so. */
  lemma CollectedElsewhere(s: Service, es: seq<Event>, j: nat, status: int) returns (more: seq<Event>, k: nat)
    requires Start(s) && IsRun(s, es)
    requires j < |Run(s, es).receivers| && IsRunning(Run(s, es), Run(s, es).receivers[j].pid)
    ensures var r := Run(s, es).receivers[j];
            var all := es + [ChildExits(r.pid, status), ForeignReap(r.pid)] + more;
            && AllInternal(more) && IsRun(s, all)
            && k < |Run(s, all).outcomes| && Run(s, all).outcomes[k] == Outcome(r.handler, r.pid, NoChild, true)
  {
    var r := Run(s, es);
    var pid := r.receivers[j].pid;
    var e, f := ChildExits(pid, status), ForeignReap(pid);
    RunOne(Apply(r, e), f);
    RunCons(r, e, [f]);
    assert [e] + [f] == [e, f];
    RunConcat(s, es, [e, f]);
    var r1 := Run(s, es + [e, f]);
    more, k := WaiterDecided(s, es + [e, f], j);
    var i := DecidedWhen(r1, more, k);
    EndedStays(r1, more[..i], pid);
  }

  /** From the start of a process to its handler: a process started, asked about and then gone. */
  lemma SpawnedIsTold(s: Service, es: seq<Event>, pid: int, status: int) returns (more: seq<Event>, k: nat)
    requires Start(s) && IsRun(s, es) && pid > 0 && pid !in Run(s, es).children && Run(s, es).initiating.None?
    ensures var all := es + [Spawn(pid), Register(pid), Enqueue] + [ChildExits(pid, status)] + more;
            && AllInternal(more) && IsRun(s, all)
            && k < |Run(s, all).outcomes| && Run(s, all).outcomes[k].invoked
            && Run(s, all).outcomes[k].pid == pid && Run(s, all).outcomes[k].result == Exit(status)
  {
    var r := Run(s, es);
    var r1 := Apply(r, Spawn(pid));
    var r2 := Apply(r1, Register(pid));
    RunOne(r2, Enqueue);
    RunCons(r1, Register(pid), [Enqueue]);
    RunCons(r, Spawn(pid), [Register(pid)] + [Enqueue]);
    var start := [Spawn(pid), Register(pid), Enqueue];
    assert [Spawn(pid)] + ([Register(pid)] + [Enqueue]) == start;
    RunConcat(s, es, start);
    more, k := ExitIsTold(s, es + start, |r.receivers|, status);
  }

  lemma {:induction false} RunSplit(s: Service, es: seq<Event>, more: seq<Event>)
    requires IsRun(s, es) && IsRun(s, es + more)
    ensures IsRun(Run(s, es), more) && Run(s, es + more) == Run(Run(s, es), more)
    decreases |es|
  {
    if es == [] {
      assert es + more == more;
    } else {
      assert (es + more)[1..] == es[1..] + more;
      RunSplit(Apply(s, es[0]), es[1..], more);
    }
  }

  lemma {:induction false} AskedConcat(es: seq<Event>, more: seq<Event>)
    ensures Asked(es + more) == Asked(es) + Asked(more)
  {
    if es == [] {
      assert es + more == more;
    } else {
      assert (es + more)[1..] == es[1..] + more;
      AskedConcat(es[1..], more);
      Associate(if es[0].Register? then [es[0].pid] else [], Asked(es[1..]), Asked(more));
    }
  }
}
