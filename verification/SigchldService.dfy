/** The methods of `sigchld_service` over the fields they update. What the system does between two
    `waitpid` calls is a parameter, and each method is tied to the steps of `SigchldProtocol`. */
module SigchldService {
  import opened Wrappers
  import opened SigchldProtocol
  import opened SigchldAnswers

  predicate System(e: Event) {
    e.Spawn? || e.ChildExits? || e.SpuriousSignal? || e.ForeignReap? || e.Deliver?
  }

  /** The system's events that are possible, in order. */
  function Happen(s: Service, es: seq<Event>): (s': Service)
    ensures s'.receivers == s.receivers && s'.pc == s.pc && s'.initiating == s.initiating
    ensures s'.outcomes == s.outcomes && s'.registered == s.registered && s'.reapedHere == s.reapedHere
    decreases |es|
  {
    if es == [] then s
    else Happen(if System(es[0]) && Enabled(s, es[0]) then Apply(s, es[0]) else s, es[1..])
  }

  lemma HappenFirst(s: Service, e: Event, es: seq<Event>)
    ensures Happen(s, [e] + es) == Happen(Happen(s, [e]), es)
  {
    assert ([e] + es)[1..] == es && [e][1..] == [];
  }

  function Before(meanwhile: seq<seq<Event>>, i: nat): seq<Event> {
    if i < |meanwhile| then meanwhile[i] else []
  }

  /** The rest of a scan, with the system's events before each poll. */
  function ScanFrom(s: Service, meanwhile: seq<seq<Event>>): Service
    requires s.pc.Scanning?
    decreases |s.receivers| - s.pc.next
  {
    var i := s.pc.next;
    if i >= |s.receivers| then EndStep(s)
    else ScanFrom(PollStep(Happen(s, Before(meanwhile, i)), i), meanwhile)
  }

  lemma {:induction false} HappenIsRun(s: Service, es: seq<Event>) returns (r: seq<Event>)
    ensures IsRun(s, r) && Run(s, r) == Happen(s, es)
    decreases |es|
  {
    if es == [] {
      r := [];
    } else if System(es[0]) && Enabled(s, es[0]) {
      var rest := HappenIsRun(Apply(s, es[0]), es[1..]);
      RunCons(s, es[0], rest);
      r := [es[0]] + rest;
    } else {
      r := HappenIsRun(s, es[1..]);
    }
  }

  /** A scan with anything going on meanwhile is a run of the protocol. */
  lemma {:induction false} ScanIsRun(s: Service, meanwhile: seq<seq<Event>>) returns (r: seq<Event>)
    requires s.pc.Scanning? && s.initiating.None?
    ensures IsRun(s, r) && Run(s, r) == ScanFrom(s, meanwhile)
    decreases |s.receivers| - s.pc.next
  {
    var i := s.pc.next;
    if i >= |s.receivers| {
      RunCons(s, EndScan, []);
      r := [EndScan] + [];
    } else {
      var mid := Happen(s, Before(meanwhile, i));
      var before := HappenIsRun(s, Before(meanwhile, i));
      var after := ScanIsRun(PollStep(mid, i), meanwhile);
      RunCons(mid, PollNext, after);
      RunConcat(s, before, [PollNext] + after);
      r := before + ([PollNext] + after);
    }
  }

  /** A registration with anything going on meanwhile is a run of the protocol. */
  lemma WaitIsRun(s: Service, pid: int, meanwhile: seq<Event>) returns (r: seq<Event>)
    requires Enabled(s, Register(pid))
    ensures IsRun(s, r)
    ensures var t := RegisterStep(s, pid);
            Run(s, r) == if t.initiating.None? then t else EnqueueStep(Happen(t, meanwhile))
  {
    var t := RegisterStep(s, pid);
    r := [];
    if t.initiating.Some? {
      var mid := Happen(t, meanwhile);
      var before := HappenIsRun(t, meanwhile);
      RunCons(mid, Enqueue, []);
      RunConcat(t, before, [Enqueue] + []);
      r := before + ([Enqueue] + []);
    }
    RunCons(s, Register(pid), r);
    r := [Register(pid)] + r;
  }

  lemma SignalIsRun(s: Service, meanwhile: seq<seq<Event>>) returns (r: seq<Event>)
    requires Enabled(s, BeginScan)
    ensures IsRun(s, r) && Run(s, r) == ScanFrom(Apply(s, BeginScan), meanwhile)
  {
    r := ScanIsRun(Apply(s, BeginScan), meanwhile);
    RunCons(s, BeginScan, r);
    r := [BeginScan] + r;
  }

  lemma {:induction false} RunKeepsInv(s: Service, a: seq<Event>, b: seq<Event>)
    requires Inv(s) && IsRun(s, a) && IsRun(Run(s, a), b)
    ensures IsRun(s, a + b) && Run(s, a + b) == Run(Run(s, a), b) && Inv(Run(s, a + b))
  {
    RunConcat(s, a, b);
    RunInv(s, a + b);
  }

  class SignalService {
    // the system
    var children: map<int, Child>
    var sigPending: bool
    ghost var reapedHere: set<int>
    // the signal set and the strand
    var armed: bool
    var pending: bool
    var queued: nat
    // the service
    var receivers: seq<Receiver>
    var outcomes: seq<Outcome>
    var registered: nat

    ghost function State(pc: Pc, initiating: Option<Receiver>): Service
      reads this
    {
      Service(children, sigPending, armed, pending, queued, pc, receivers, initiating, outcomes, registered, reapedHere)
    }

    constructor (children: map<int, Child>, sigPending: bool)
      requires 0 !in children
      ensures Start(State(Idle, None))
      ensures this.children == children && this.sigPending == sigPending
    {
      this.children, this.sigPending, armed, pending, queued := children, sigPending, false, false, 0;
      receivers, outcomes, registered, reapedHere := [], [], 0, {};
    }

    /** One event of the system, if it is possible. */
    method Occur(e: Event, ghost pc: Pc, ghost initiating: Option<Receiver>)
      modifies this
      ensures receivers == old(receivers)
      ensures State(pc, initiating) == Happen(old(State(pc, initiating)), [e])
    {
      match e {
        case Spawn(pid) =>
          if pid > 0 && pid !in children { children := children[pid := Running]; }
        case ChildExits(pid, status) =>
          if pid in children && children[pid].Running? {
            children, sigPending := children[pid := Zombie(status)], true;
          }
        case SpuriousSignal => sigPending := true;
        case ForeignReap(pid) =>
          if pid in children && children[pid].Zombie? {
            children := children[pid := Reaped(children[pid].status)];
          }
        case Deliver =>
          if sigPending {
            sigPending := false;
            if armed { armed, pending := false, true; } else { queued := queued + 1; }
          }
        case _ =>
      }
    }

    /** What the system does while the service is between two of its steps. */
    method Elapse(es: seq<Event>, ghost pc: Pc, ghost initiating: Option<Receiver>)
      modifies this
      ensures State(pc, initiating) == Happen(old(State(pc, initiating)), es)
      ensures receivers == old(receivers)
    {
      for k := 0 to |es|
        invariant Happen(State(pc, initiating), es[k..]) == Happen(old(State(pc, initiating)), es)
        invariant receivers == old(receivers)
      {
        HappenFirst(State(pc, initiating), es[k], es[k + 1..]);
        assert es[k..] == [es[k]] + es[k + 1..];
        Occur(es[k], pc, initiating);
      }
    }

    /** `::waitpid(pid, &status, WNOHANG)`: -1, 0 or the pid. */
    method WaitPid(pid: int) returns (res: int, status: int)
      requires pid > 0
      modifies this`children, this`reapedHere
      ensures if pid in old(children) && old(children)[pid].Zombie? then
                && res == pid && status == old(children)[pid].status
                && children == old(children)[pid := Reaped(status)] && reapedHere == old(reapedHere) + {pid}
              else
                && res == (if pid in children && children[pid].Running? then 0 else -1)
                && children == old(children) && reapedHere == old(reapedHere)
    {
      status := 0;
      if pid !in children || children[pid].Reaped? {
        res := -1;
      } else if children[pid].Running? {
        res := 0;
      } else {
        res, status := pid, children[pid].status;
        children, reapedHere := children[pid := Reaped(status)], reapedHere + {pid};
      }
    }

    /** `_signal_set.async_wait` */
    method WaitForSignal()
      modifies this`armed, this`pending, this`queued
      ensures queued == (if old(queued) > 0 then old(queued) - 1 else 0)
      ensures pending == (old(pending) || old(queued) > 0)
      ensures armed == (old(armed) || old(queued) == 0)
    {
      if queued > 0 {
        queued, pending := queued - 1, true;
      } else {
        armed := true;
      }
    }

    /** The `waitpid` of a registration, and what it settles at once. */
    method BeginWait(pid: int) returns (running: bool)
      requires pid > 0
      modifies this
      ensures var r := if running then Some(Receiver(pid, old(registered))) else None;
              State(Idle, r) == RegisterStep(old(State(Idle, None)), pid)
    {
      var handler := registered;
      registered := registered + 1;
      var res, status := WaitPid(pid);
      if res != 0 {
        outcomes := outcomes + [Outcome(handler, pid, if res < 0 then NoChild else Exit(status), false)];
      }
      running := res == 0;
    }

    /** Arm for the first receiver, then append. */
    method EnterList(r: Receiver)
      modifies this
      ensures State(Idle, None) == EnqueueStep(old(State(Idle, Some(r))))
    {
      if receivers == [] {
        WaitForSignal();
      }
      receivers := receivers + [r];
    }

    /** `async_wait(pid, handler)`, with what happens between its `waitpid` and the list. */
    method AsyncWait(pid: int, meanwhile: seq<Event>)
      requires pid > 0
      modifies this
      ensures var s := RegisterStep(old(State(Idle, None)), pid);
              State(Idle, None) == if s.initiating.None? then s else EnqueueStep(Happen(s, meanwhile))
    {
      var r := Receiver(pid, registered);
      var running := BeginWait(pid);
      if running {
        Elapse(meanwhile, Idle, Some(r));
        EnterList(r);
      }
    }

    /** One turn of the loop in `_handle_signal`. */
    method PollReceiver(i: nat)
      requires i < |receivers| && receivers[i].pid > 0
      modifies this`children, this`reapedHere, this`receivers, this`outcomes
      ensures State(Scanning(i + 1), None) == PollStep(old(State(Scanning(i), None)), i)
      ensures |receivers| == |old(receivers)| && forall k :: i < k < |receivers| ==> receivers[k] == old(receivers[k])
    {
      var r := receivers[i];
      var res, status := WaitPid(r.pid);
      if res < 0 {
        outcomes := outcomes + [Outcome(r.handler, r.pid, NoChild, true)];
        receivers := receivers[i := Receiver(0, r.handler)];
      } else if res == r.pid {
        outcomes := outcomes + [Outcome(r.handler, r.pid, Exit(status), true)];
        receivers := receivers[i := Receiver(0, r.handler)];
      }
    }

    /** `_handle_signal` without an error, with what happens before each `waitpid`. */
    method HandleSignal(meanwhile: seq<seq<Event>>)
      requires pending && forall k :: 0 <= k < |receivers| ==> receivers[k].pid > 0
      modifies this
      ensures State(Idle, None) == ScanFrom(old(State(Idle, None)).(pending := false, pc := Scanning(0)), meanwhile)
    {
      pending := false;
      ghost var begin := State(Scanning(0), None);
      var i := 0;
      while i < |receivers|
        invariant 0 <= i <= |receivers|
        invariant forall k :: i <= k < |receivers| ==> receivers[k].pid > 0
        invariant ScanFrom(State(Scanning(i), None), meanwhile) == ScanFrom(begin, meanwhile)
        decreases |receivers| - i
      {
        Elapse(Before(meanwhile, i), Scanning(i), None);
        PollReceiver(i);
        i := i + 1;
      }
      receivers := Live(receivers);
      if receivers != [] {
        WaitForSignal();
      }
    }

    /** A posted handler runs on the strand. */
    method RunHandler(k: nat)
      requires k < |outcomes| && !outcomes[k].invoked
      modifies this`outcomes
      ensures State(Idle, None) == Apply(old(State(Idle, None)), RunPosted(k))
    {
      outcomes := outcomes[k := outcomes[k].(invoked := true)];
    }
  }

  /** What may be asked of a service, with what the system does meanwhile. */
  datatype Call =
    | Wait(pid: int, during: seq<Event>)
    | Signal(between: seq<seq<Event>>)
    | Handler(k: nat)
    | SystemOnly(es: seq<Event>)

  /** One call, if it is possible. In a reached state `_handle_signal` never meets a marked receiver. */
  method Serve(s: SignalService, call: Call) returns (ghost done: seq<Event>)
    requires Inv(s.State(Idle, None))
    modifies s
    ensures IsRun(old(s.State(Idle, None)), done)
    ensures s.State(Idle, None) == Run(old(s.State(Idle, None)), done)
  {
    ghost var before := s.State(Idle, None);
    done := [];
    match call {
      case Wait(pid, during) =>
        if pid > 0 {
          done := WaitIsRun(before, pid, during);
          s.AsyncWait(pid, during);
        }
      case Signal(between) =>
        if s.pending {
          done := SignalIsRun(before, between);
          s.HandleSignal(between);
        }
      case Handler(k) =>
        if k < |s.outcomes| && !s.outcomes[k].invoked {
          RunCons(before, RunPosted(k), []);
          done := [RunPosted(k)] + [];
          s.RunHandler(k);
        }
      case SystemOnly(es) =>
        done := HappenIsRun(before, es);
        s.Elapse(es, Idle, None);
    }
  }

  /** Any sequence of calls on a service is a run of the protocol and keeps its invariant. */
  method Session(s: SignalService, calls: seq<Call>) returns (ghost done: seq<Event>)
    requires Inv(s.State(Idle, None))
    modifies s
    ensures IsRun(old(s.State(Idle, None)), done)
    ensures s.State(Idle, None) == Run(old(s.State(Idle, None)), done)
    ensures Inv(s.State(Idle, None))
  {
    done := [];
    for i := 0 to |calls|
      invariant IsRun(old(s.State(Idle, None)), done)
      invariant s.State(Idle, None) == Run(old(s.State(Idle, None)), done)
      invariant Inv(s.State(Idle, None))
    {
      ghost var more := Serve(s, calls[i]);
      RunKeepsInv(old(s.State(Idle, None)), done, more);
      done := done + more;
    }
  }

  /** A service from its start: whatever was called, receivers of children that are gone are about to be
      polled, no handler has two results or a result and a place in the list, the statuses handed out are
      the children's, and every status collected is handed out. */
  method NewSession(children: map<int, Child>, sigPending: bool, calls: seq<Call>) returns (s: SignalService)
    requires 0 !in children
    ensures fresh(s) && Inv(s.State(Idle, None))
    ensures s.receivers != [] <==> s.armed || s.pending
    ensures forall k :: 0 <= k < |s.receivers| && !IsRunning(s.State(Idle, None), s.receivers[k].pid) ==>
              SignalComing(s.State(Idle, None))
    ensures forall j, k :: 0 <= j < k < |s.outcomes| ==> s.outcomes[j].handler != s.outcomes[k].handler
    ensures forall k :: 0 <= k < |s.outcomes| && s.outcomes[k].result.Exit? ==>
              s.outcomes[k].pid in s.children && s.children[s.outcomes[k].pid] == Reaped(s.outcomes[k].result.status)
    ensures HandedOver(s.State(Idle, None))
  {
    s := new SignalService(children, sigPending);
    ghost var start := s.State(Idle, None);
    ghost var done := Session(s, calls);
    Notification(start, done);
    ExitsHandedOver(start, done);
  }
}
