/** `sigchld_service` as a step protocol: children exit, SIGCHLD coalesces, the signal set queues what it
    cannot deliver, and the receiver list is scanned one `waitpid` at a time. Anything of this may
    happen between two steps of the service. */
module SigchldProtocol {
  import opened Wrappers

  datatype Child = Running | Zombie(status: int) | Reaped(status: int)

  datatype Result = Exit(status: int) | NoChild

  /** An entry of `_receivers`; pid 0 marks it for deletion. */
  datatype Receiver = Receiver(pid: int, handler: nat)

  /** A decided result; `invoked` once the handler has run. */
  datatype Outcome = Outcome(handler: nat, pid: int, result: Result, invoked: bool)

  datatype Pc = Idle | Scanning(next: nat)

  /** `armed`: an `async_wait` of the signal set is outstanding. `pending`: `_handle_signal` waits on the
      strand. `queued`: signals the set has kept because no wait was outstanding. `initiating`: a
      registration between its own `waitpid` and its entry into the list. `reapedHere` records the
      pids whose status this service collected; handlers are numbered by registration. */
  datatype Service = Service(
    children: map<int, Child>, sigPending: bool,
    armed: bool, pending: bool, queued: nat, pc: Pc,
    receivers: seq<Receiver>, initiating: Option<Receiver>,
    outcomes: seq<Outcome>, registered: nat, reapedHere: set<int>)

  datatype Event =
    | Spawn(pid: int) | ChildExits(pid: int, status: int) | SpuriousSignal | ForeignReap(pid: int)
    | Deliver | Register(pid: int) | Enqueue | RunPosted(k: nat) | BeginScan | PollNext | EndScan

  /** A service may be made when some children have exited already, and their signals have come and gone. */
  ghost predicate Start(s: Service) {
    && 0 !in s.children && !s.armed && !s.pending && s.pc == Idle
    && s.receivers == [] && s.initiating == None && s.outcomes == [] && s.registered == 0 && s.reapedHere == {}
  }

  // ---- the steps ------------------------------------------------------------------------------------

  predicate IsRunning(s: Service, pid: int) {
    pid in s.children && s.children[pid].Running?
  }

  /** `waitpid(pid, &status, WNOHANG)` finds an exited child. */
  predicate CanReap(s: Service, pid: int) {
    pid in s.children && s.children[pid].Zombie?
  }

  function Reap(s: Service, pid: int): Service
    requires CanReap(s, pid)
  {
    s.(children := s.children[pid := Reaped(s.children[pid].status)], reapedHere := s.reapedHere + {pid})
  }

  /** `_signal_set.async_wait`: a queued signal completes it at once. */
  function Arm(s: Service): Service {
    if s.queued > 0 then s.(queued := s.queued - 1, pending := true) else s.(armed := true)
  }

  function Decide(s: Service, r: Receiver, result: Result, invoked: bool): Service {
    s.(outcomes := s.outcomes + [Outcome(r.handler, r.pid, result, invoked)])
  }

  /** `async_wait` up to and including its `waitpid`. */
  function RegisterStep(s: Service, pid: int): Service {
    var r := Receiver(pid, s.registered);
    var s' := s.(registered := s.registered + 1);
    if IsRunning(s, pid) then s'.(initiating := Some(r))
    else if CanReap(s, pid) then Decide(Reap(s', pid), r, Exit(s.children[pid].status), false)
    else Decide(s', r, NoChild, false)
  }

  /** The rest of it: arm for the first receiver, then append. */
  function EnqueueStep(s: Service): Service
    requires s.initiating.Some?
  {
    var s' := if s.receivers == [] then Arm(s) else s;
    s'.(receivers := s.receivers + [s.initiating.value], initiating := None)
  }

  /** One turn of the loop in `_handle_signal`. */
  function PollStep(s: Service, i: nat): Service
    requires i < |s.receivers|
  {
    var r := s.receivers[i];
    var marked := s.receivers[i := Receiver(0, r.handler)];
    if IsRunning(s, r.pid) then s.(pc := Scanning(i + 1))
    else if CanReap(s, r.pid) then
      Decide(Reap(s, r.pid), r, Exit(s.children[r.pid].status), true).(receivers := marked, pc := Scanning(i + 1))
    else Decide(s, r, NoChild, true).(receivers := marked, pc := Scanning(i + 1))
  }

  /** `erase(remove_if(...))` */
  function Live(rs: seq<Receiver>): seq<Receiver> {
    if rs == [] then [] else (if rs[0].pid != 0 then [rs[0]] else []) + Live(rs[1..])
  }

  function EndStep(s: Service): Service {
    var s' := s.(receivers := Live(s.receivers), pc := Idle);
    if s'.receivers == [] then s' else Arm(s')
  }

  /** Registrations may come at any time, also from a handler called by the scan; the strand keeps the
      scan and posted handlers apart, and a scan waits for a registration in progress. */
  predicate Enabled(s: Service, e: Event) {
    match e
    case Spawn(pid) => pid > 0 && pid !in s.children
    case ChildExits(pid, _) => IsRunning(s, pid)
    case SpuriousSignal => true
    case ForeignReap(pid) => CanReap(s, pid)
    case Deliver => s.sigPending
    case Register(pid) => pid > 0 && s.initiating.None?
    case Enqueue => s.initiating.Some?
    case RunPosted(k) => s.pc.Idle? && k < |s.outcomes| && !s.outcomes[k].invoked
    case BeginScan => s.pc.Idle? && s.pending && s.initiating.None?
    case PollNext => s.pc.Scanning? && s.pc.next < |s.receivers| && s.initiating.None?
    case EndScan => s.pc.Scanning? && s.pc.next >= |s.receivers| && s.initiating.None?
  }

  function Apply(s: Service, e: Event): Service
    requires Enabled(s, e)
  {
    match e
    case Spawn(pid) => s.(children := s.children[pid := Running])
    case ChildExits(pid, status) => s.(children := s.children[pid := Zombie(status)], sigPending := true)
    case SpuriousSignal => s.(sigPending := true)
    case ForeignReap(pid) => s.(children := s.children[pid := Reaped(s.children[pid].status)])
    case Deliver =>
      if s.armed then s.(sigPending := false, armed := false, pending := true)
      else s.(sigPending := false, queued := s.queued + 1)
    case Register(pid) => RegisterStep(s, pid)
    case Enqueue => EnqueueStep(s)
    case RunPosted(k) => s.(outcomes := s.outcomes[k := s.outcomes[k].(invoked := true)])
    case BeginScan => s.(pending := false, pc := Scanning(0))
    case PollNext => PollStep(s, s.pc.next)
    case EndScan => EndStep(s)
  }

  predicate IsRun(s: Service, es: seq<Event>)
    decreases |es|
  {
    es == [] || (Enabled(s, es[0]) && IsRun(Apply(s, es[0]), es[1..]))
  }

  function Run(s: Service, es: seq<Event>): Service
    requires IsRun(s, es)
    decreases |es|
  {
    if es == [] then s else Run(Apply(s, es[0]), es[1..])
  }

  // ---- what every step keeps ------------------------------------------------------------------------

  /** Outside a scan, a non-empty list means exactly one of "armed" and "handler on the strand". */
  ghost predicate ArmInv(s: Service) {
    && !(s.armed && s.pending)
    && (s.armed ==> s.queued == 0)
    && (s.pc.Idle? ==> (s.receivers != [] <==> s.armed || s.pending))
    && (s.pc.Scanning? ==> !s.armed && !s.pending && s.receivers != [])
  }

  /** A scan or a signal is still to come. */
  predicate SignalComing(s: Service) {
    s.sigPending || s.queued > 0 || s.pending
  }

  /** Every receiver whose child is no longer running will be polled: by the scan under way, or by one
      that a signal will start. */
  ghost predicate NoLostExit(s: Service) {
    && (forall k :: 0 <= k < |s.receivers| && s.receivers[k].pid != 0 && !IsRunning(s, s.receivers[k].pid) ==>
          SignalComing(s) || (s.pc.Scanning? && s.pc.next <= k))
    && (s.initiating.Some? && !IsRunning(s, s.initiating.value.pid) ==> SignalComing(s))
  }

  ghost predicate MarkInv(s: Service) {
    && 0 !in s.children
    && (s.initiating.Some? ==> s.initiating.value.pid > 0)
    && (forall k :: 0 <= k < |s.receivers| ==> s.receivers[k].pid >= 0)
    && (forall k :: 0 <= k < |s.receivers| && s.receivers[k].pid == 0 ==> s.pc.Scanning? && k < s.pc.next)
  }

  /** Statuses are real, and each exit is reported to one handler only. */
  ghost predicate ReportInv(s: Service) {
    && (forall p :: p in s.reapedHere ==> p in s.children && s.children[p].Reaped?)
    && (forall k :: 0 <= k < |s.outcomes| && s.outcomes[k].result.Exit? ==>
          && s.outcomes[k].pid in s.reapedHere
          && s.children[s.outcomes[k].pid] == Reaped(s.outcomes[k].result.status))
    && (forall j, k :: 0 <= j < k < |s.outcomes| && s.outcomes[j].result.Exit? && s.outcomes[k].result.Exit? ==>
          s.outcomes[j].pid != s.outcomes[k].pid)
  }

  /** How often a handler has a decided result, waits in the list, or is on its way into it. */
  function Decided(os: seq<Outcome>, h: nat): nat {
    if os == [] then 0 else (if os[0].handler == h then 1 else 0) + Decided(os[1..], h)
  }

  function Waiting(rs: seq<Receiver>, h: nat): nat {
    if rs == [] then 0 else (if rs[0].pid != 0 && rs[0].handler == h then 1 else 0) + Waiting(rs[1..], h)
  }

  function Entering(r: Option<Receiver>, h: nat): nat {
    if r.Some? && r.value.handler == h then 1 else 0
  }

  function Places(s: Service, h: nat): nat {
    Decided(s.outcomes, h) + Waiting(s.receivers, h) + Entering(s.initiating, h)
  }

  /** Every registered handler is in exactly one place. */
  ghost predicate HandlerInv(s: Service) {
    forall h: nat :: Places(s, h) == if h < s.registered then 1 else 0
  }

  /** A scan never runs past the end of the list, which only grows while it lasts. */
  ghost predicate ScanInRange(s: Service) {
    s.pc.Scanning? ==> s.pc.next <= |s.receivers|
  }

  ghost predicate ListInv(s: Service) {
    ArmInv(s) && NoLostExit(s) && MarkInv(s) && ReportInv(s) && ScanInRange(s)
  }

  ghost predicate Inv(s: Service) {
    ListInv(s) && HandlerInv(s)
  }

  // ---- lists ----------------------------------------------------------------------------------------

  lemma {:induction false} DecidedSnoc(os: seq<Outcome>, o: Outcome, h: nat)
    ensures Decided(os + [o], h) == Decided(os, h) + if o.handler == h then 1 else 0
  {
    if os != [] {
      assert (os + [o])[1..] == os[1..] + [o];
      DecidedSnoc(os[1..], o, h);
    } else {
      assert os + [o] == [o];
    }
  }

  lemma {:induction false} DecidedInvoked(os: seq<Outcome>, k: nat, h: nat)
    requires k < |os|
    ensures Decided(os[k := os[k].(invoked := true)], h) == Decided(os, h)
  {
    if k > 0 {
      assert os[k := os[k].(invoked := true)][1..] == os[1..][k - 1 := os[1..][k - 1].(invoked := true)];
      DecidedInvoked(os[1..], k - 1, h);
    }
  }

  lemma {:induction false} WaitingSnoc(rs: seq<Receiver>, r: Receiver, h: nat)
    requires r.pid != 0
    ensures Waiting(rs + [r], h) == Waiting(rs, h) + if r.handler == h then 1 else 0
  {
    if rs != [] {
      assert (rs + [r])[1..] == rs[1..] + [r];
      WaitingSnoc(rs[1..], r, h);
    } else {
      assert rs + [r] == [r];
    }
  }

  lemma {:induction false} WaitingMarked(rs: seq<Receiver>, i: nat, h: nat)
    requires i < |rs| && rs[i].pid != 0
    ensures Waiting(rs, h) == Waiting(rs[i := Receiver(0, rs[i].handler)], h) + if rs[i].handler == h then 1 else 0
  {
    var marked := rs[i := Receiver(0, rs[i].handler)];
    if i > 0 {
      assert marked[1..] == rs[1..][i - 1 := Receiver(0, rs[1..][i - 1].handler)];
      WaitingMarked(rs[1..], i - 1, h);
    } else {
      assert marked[1..] == rs[1..];
    }
  }

  lemma {:induction false} LiveWaiting(rs: seq<Receiver>, h: nat)
    ensures Waiting(Live(rs), h) == Waiting(rs, h)
  {
    if rs != [] {
      LiveWaiting(rs[1..], h);
      if rs[0].pid != 0 {
        assert Live(rs)[1..] == Live(rs[1..]);
      } else {
        assert Live(rs) == Live(rs[1..]);
      }
    }
  }

  lemma {:induction false} LiveMembers(rs: seq<Receiver>)
    ensures |Live(rs)| <= |rs|
    ensures forall k :: 0 <= k < |Live(rs)| ==> Live(rs)[k].pid != 0 && Live(rs)[k] in rs
  {
    if rs != [] {
      LiveMembers(rs[1..]);
      forall k | 0 <= k < |Live(rs)| ensures Live(rs)[k].pid != 0 && Live(rs)[k] in rs {
        if rs[0].pid == 0 || k > 0 {
          assert Live(rs)[k] in Live(rs[1..]);
        }
      }
    }
  }

  // ---- preservation ---------------------------------------------------------------------------------

  lemma PollPlaces(s: Service, h: nat)
    requires Enabled(s, PollNext) && s.receivers[s.pc.next].pid != 0
    ensures Places(Apply(s, PollNext), h) == Places(s, h)
  {
    var i, s' := s.pc.next, Apply(s, PollNext);
    if !IsRunning(s, s.receivers[i].pid) {
      WaitingMarked(s.receivers, i, h);
      DecidedSnoc(s.outcomes, s'.outcomes[|s.outcomes|], h);
    }
  }

  lemma RegisterPlaces(s: Service, pid: int, h: nat)
    requires Enabled(s, Register(pid))
    ensures Places(Apply(s, Register(pid)), h) == Places(s, h) + if h == s.registered then 1 else 0
  {
    if !IsRunning(s, pid) {
      DecidedSnoc(s.outcomes, Apply(s, Register(pid)).outcomes[|s.outcomes|], h);
    }
  }

  lemma EndPlaces(s: Service, h: nat)
    requires Enabled(s, EndScan)
    ensures Places(Apply(s, EndScan), h) == Places(s, h)
  {
    LiveWaiting(s.receivers, h);
  }

  lemma EnqueuePlaces(s: Service, h: nat)
    requires Enabled(s, Enqueue) && s.initiating.value.pid != 0
    ensures Places(Apply(s, Enqueue), h) == Places(s, h)
  {
    WaitingSnoc(s.receivers, s.initiating.value, h);
  }

  /** A handler enters the service when it is registered, and from then on only changes place. */
  lemma StepPlaces(s: Service, e: Event, h: nat)
    requires Enabled(s, e) && MarkInv(s)
    ensures Places(Apply(s, e), h) == Places(s, h) + if e.Register? && h == s.registered then 1 else 0
  {
    match e
    case Register(pid) => RegisterPlaces(s, pid, h);
    case Enqueue => EnqueuePlaces(s, h);
    case PollNext => PollPlaces(s, h);
    case RunPosted(k) => DecidedInvoked(s.outcomes, k, h);
    case EndScan => EndPlaces(s, h);
    case _ =>
  }

  lemma StepHandlerInv(s: Service, e: Event)
    requires HandlerInv(s) && Enabled(s, e) && MarkInv(s)
    ensures HandlerInv(Apply(s, e))
  {
    var s' := Apply(s, e);
    forall h: nat ensures Places(s', h) == if h < s'.registered then 1 else 0 {
      StepPlaces(s, e, h);
    }
  }

  lemma EndListInv(s: Service)
    requires ListInv(s) && Enabled(s, EndScan)
    ensures ListInv(Apply(s, EndScan))
  {
    var s' := Apply(s, EndScan);
    LiveMembers(s.receivers);
    forall k | 0 <= k < |s'.receivers| && !IsRunning(s', s'.receivers[k].pid) ensures SignalComing(s') {
      var j :| 0 <= j < |s.receivers| && s.receivers[j] == s'.receivers[k];
      assert SignalComing(s);
    }
  }

  /** The exit found by a poll becomes the report of one handler. */
  lemma ReportKept(s: Service, r: Receiver, invoked: bool)
    requires ReportInv(s) && CanReap(s, r.pid)
    ensures ReportInv(Decide(Reap(s, r.pid), r, Exit(s.children[r.pid].status), invoked))
  {
  }

  lemma RegisterListInv(s: Service, pid: int)
    requires ListInv(s) && Enabled(s, Register(pid))
    ensures ListInv(Apply(s, Register(pid)))
  {
    var r := Receiver(pid, s.registered);
    if CanReap(s, pid) {
      ReportKept(s, r, false);
    }
    var s' := Apply(s, Register(pid));
    assert ReportInv(s');
    forall k | 0 <= k < |s'.receivers| && s'.receivers[k].pid != 0 && !IsRunning(s', s'.receivers[k].pid)
      ensures SignalComing(s') || (s'.pc.Scanning? && s'.pc.next <= k)
    {
      assert !IsRunning(s, s.receivers[k].pid);
    }
  }

  lemma PollListInv(s: Service)
    requires ListInv(s) && Enabled(s, PollNext)
    ensures ListInv(Apply(s, PollNext))
  {
    var i := s.pc.next;
    var r := s.receivers[i];
    if CanReap(s, r.pid) {
      ReportKept(s, r, true);
    }
    var s' := Apply(s, PollNext);
    assert ReportInv(s');
    forall k | 0 <= k < |s'.receivers| && s'.receivers[k].pid != 0 && !IsRunning(s', s'.receivers[k].pid)
      ensures SignalComing(s') || s'.pc.next <= k
    {
      assert s.receivers[k] == s'.receivers[k] && !IsRunning(s, s.receivers[k].pid);
    }
  }

  lemma SystemListInv(s: Service, e: Event)
    requires ListInv(s) && Enabled(s, e)
    requires e.Spawn? || e.ChildExits? || e.SpuriousSignal? || e.ForeignReap? || e.Deliver?
    ensures ListInv(Apply(s, e))
  {
  }

  lemma EnqueueListInv(s: Service)
    requires ListInv(s) && Enabled(s, Enqueue)
    ensures ListInv(Apply(s, Enqueue))
  {
  }

  lemma StepListInv(s: Service, e: Event)
    requires ListInv(s) && Enabled(s, e)
    ensures ListInv(Apply(s, e))
  {
    match e
    case Register(pid) => RegisterListInv(s, pid);
    case Enqueue => EnqueueListInv(s);
    case RunPosted(_) =>
    case BeginScan =>
    case PollNext => PollListInv(s);
    case EndScan => EndListInv(s);
    case _ => SystemListInv(s, e);
  }

  lemma StepInv(s: Service, e: Event)
    requires Inv(s) && Enabled(s, e)
    ensures Inv(Apply(s, e))
  {
    StepListInv(s, e);
    StepHandlerInv(s, e);
  }

  lemma {:induction false} RunInv(s: Service, es: seq<Event>)
    requires Inv(s) && IsRun(s, es)
    ensures Inv(Run(s, es))
    decreases |es|
  {
    if es != [] {
      StepInv(s, es[0]);
      RunInv(Apply(s, es[0]), es[1..]);
    }
  }

  // ---- the promises ---------------------------------------------------------------------------------

  lemma {:induction false} DecidedMember(os: seq<Outcome>, k: nat)
    requires k < |os|
    ensures Decided(os, os[k].handler) >= 1
  {
    if k > 0 {
      DecidedMember(os[1..], k - 1);
    }
  }

  lemma {:induction false} DecidedTwice(os: seq<Outcome>, j: nat, k: nat)
    requires j < k < |os| && os[j].handler == os[k].handler
    ensures Decided(os, os[k].handler) >= 2
  {
    if j > 0 {
      DecidedTwice(os[1..], j - 1, k - 1);
    } else {
      DecidedMember(os[1..], k - 1);
    }
  }

  lemma {:induction false} WaitingMember(rs: seq<Receiver>, k: nat)
    requires k < |rs| && rs[k].pid != 0
    ensures Waiting(rs, rs[k].handler) >= 1
  {
    if k > 0 {
      WaitingMember(rs[1..], k - 1);
    }
  }

  /** Over every run: the signal set is armed or the signal handler is on the strand, never both, exactly
      while receivers wait outside a scan; an exited child's receiver is always about to be polled;
      a handler gets one result, never again appears in the list, and every exit goes to one handler
      with its real status. */
  lemma Notification(s: Service, es: seq<Event>)
    requires Start(s) && IsRun(s, es)
    ensures var r := Run(s, es);
            && !(r.armed && r.pending)
            && (r.pc.Idle? ==> (r.receivers != [] <==> r.armed || r.pending))
            && NoLostExit(r) && ReportInv(r)
            && (forall j, k :: 0 <= j < k < |r.outcomes| ==> r.outcomes[j].handler != r.outcomes[k].handler)
            && (forall j, k :: 0 <= j < |r.outcomes| && 0 <= k < |r.receivers| && r.receivers[k].pid != 0 ==>
                  r.outcomes[j].handler != r.receivers[k].handler)
  {
    RunInv(s, es);
    var r := Run(s, es);
    forall j, k | 0 <= j < k < |r.outcomes| ensures r.outcomes[j].handler != r.outcomes[k].handler {
      assert Places(r, r.outcomes[k].handler) <= 1;
      if r.outcomes[j].handler == r.outcomes[k].handler {
        DecidedTwice(r.outcomes, j, k);
      }
    }
    forall j, k | 0 <= j < |r.outcomes| && 0 <= k < |r.receivers| && r.receivers[k].pid != 0
      ensures r.outcomes[j].handler != r.receivers[k].handler
    {
      DecidedMember(r.outcomes, j);
      WaitingMember(r.receivers, k);
      assert Places(r, r.outcomes[j].handler) <= 1;
    }
  }

  /** A decided result stays as it is, and a handler that has run is not run again. */
  lemma {:induction false} OutcomesStay(s: Service, es: seq<Event>)
    requires IsRun(s, es)
    ensures var r := Run(s, es);
            && |s.outcomes| <= |r.outcomes|
            && forall k :: 0 <= k < |s.outcomes| ==>
                 r.outcomes[k] == s.outcomes[k] || r.outcomes[k] == s.outcomes[k].(invoked := true)
    decreases |es|
  {
    if es != [] {
      OutcomesStay(Apply(s, es[0]), es[1..]);
    }
  }

  predicate Internal(e: Event) {
    e.Deliver? || e.Enqueue? || e.RunPosted? || e.BeginScan? || e.PollNext? || e.EndScan?
  }

  ghost predicate Quiescent(s: Service) {
    forall e :: Enabled(s, e) ==> !Internal(e)
  }

  /** Every handler registered so far has run, once, or waits for a child that is still running. */
  ghost predicate AllAnswered(s: Service) {
    && (forall k :: 0 <= k < |s.outcomes| ==> s.outcomes[k].invoked)
    && (forall k :: 0 <= k < |s.receivers| ==> IsRunning(s, s.receivers[k].pid))
    && (forall h: nat :: h < s.registered ==> Decided(s.outcomes, h) + Waiting(s.receivers, h) == 1)
  }

  /** Once nothing more happens by itself, every registered handler has been run, except those whose child
      is still running. */
  lemma NobodyWaitsInVain(s: Service, es: seq<Event>)
    requires Start(s) && IsRun(s, es) && Quiescent(Run(s, es))
    ensures AllAnswered(Run(s, es))
  {
    RunInv(s, es);
    var r := Run(s, es);
    assert !Enabled(r, Deliver) && !Enabled(r, Enqueue) && !Enabled(r, BeginScan);
    assert !Enabled(r, PollNext) && !Enabled(r, EndScan);
    assert r.pc.Idle? && r.initiating.None?;
    forall k | 0 <= k < |r.outcomes| ensures r.outcomes[k].invoked {
      assert !Enabled(r, RunPosted(k));
    }
    forall h: nat | h < r.registered ensures Decided(r.outcomes, h) + Waiting(r.receivers, h) == 1 {
      assert Places(r, h) == 1;
    }
  }

  function Unrun(os: seq<Outcome>): nat {
    if os == [] then 0 else (if os[0].invoked then 0 else 1) + Unrun(os[1..])
  }

  lemma {:induction false} UnrunUpdate(os: seq<Outcome>, k: nat)
    requires k < |os| && !os[k].invoked
    ensures Unrun(os[k := os[k].(invoked := true)]) + 1 == Unrun(os)
  {
    var os' := os[k := os[k].(invoked := true)];
    if k > 0 {
      assert os'[1..] == os[1..][k - 1 := os[1..][k - 1].(invoked := true)];
      UnrunUpdate(os[1..], k - 1);
    } else {
      assert os'[1..] == os[1..];
    }
  }

  lemma {:induction false} UnrunSnoc(os: seq<Outcome>, o: Outcome)
    ensures Unrun(os + [o]) == Unrun(os) + if o.invoked then 0 else 1
  {
    if os != [] {
      assert (os + [o])[1..] == os[1..] + [o];
      UnrunSnoc(os[1..], o);
    } else {
      assert os + [o] == [o];
    }
  }

  /** Scans that may still come, weighted by what a signal becomes on its way to one. */
  function Passes(s: Service): nat {
    (if s.sigPending then 3 else 0) + 2 * s.queued + (if s.pending then 1 else 0)
  }

  /** What is left of the scan and the registration under way, and of the posted handlers. */
  function Chores(s: Service): int {
    (if s.pc.Scanning? then |s.receivers| - s.pc.next + 1 else 0) + (if s.initiating.Some? then 2 else 0) + Unrun(s.outcomes)
  }

  ghost predicate Less(s': Service, s: Service) {
    && ScanInRange(s') && Chores(s') >= 0
    && (Passes(s') < Passes(s) || (Passes(s') == Passes(s) && Chores(s') < Chores(s)))
  }

  lemma PollWorks(s: Service)
    requires Enabled(s, PollNext) && ScanInRange(s)
    ensures Less(Apply(s, PollNext), s)
  {
    var s', r := Apply(s, PollNext), s.receivers[s.pc.next];
    if !IsRunning(s, r.pid) {
      UnrunSnoc(s.outcomes, s'.outcomes[|s.outcomes|]);
    }
  }

  lemma EnqueueWorks(s: Service)
    requires Enabled(s, Enqueue) && ScanInRange(s)
    ensures Less(Apply(s, Enqueue), s)
  {
  }

  lemma EndWorks(s: Service)
    requires Enabled(s, EndScan) && ScanInRange(s)
    ensures Less(Apply(s, EndScan), s)
  {
  }

  /** Internal steps go down in a lexicographic order, so no schedule of them goes on for ever. */
  lemma InternalStepWorks(s: Service, e: Event)
    requires Enabled(s, e) && Internal(e) && ScanInRange(s)
    ensures Less(Apply(s, e), s)
  {
    match e
    case RunPosted(k) => UnrunUpdate(s.outcomes, k);
    case PollNext => PollWorks(s);
    case Enqueue => EnqueueWorks(s);
    case EndScan => EndWorks(s);
    case Deliver =>
    case BeginScan =>
    case _ =>
  }

  lemma RunCons(s: Service, e: Event, es: seq<Event>)
    requires Enabled(s, e) && IsRun(Apply(s, e), es)
    ensures IsRun(s, [e] + es) && Run(s, [e] + es) == Run(Apply(s, e), es)
  {
    assert ([e] + es)[1..] == es;
  }

  lemma {:induction false} RunConcat(s: Service, a: seq<Event>, b: seq<Event>)
    requires IsRun(s, a) && IsRun(Run(s, a), b)
    ensures IsRun(s, a + b) && Run(s, a + b) == Run(Run(s, a), b)
    decreases |a|
  {
    if a == [] {
      assert a + b == b;
    } else {
      RunConcat(Apply(s, a[0]), a[1..], b);
      assert (a + b)[1..] == a[1..] + b;
    }
  }

  /** Whenever the scan index is in range, internal steps lead to a state where nothing more happens by
      itself. */
  lemma {:induction false} ReachesQuiescence(s: Service) returns (es: seq<Event>)
    requires ScanInRange(s)
    ensures IsRun(s, es) && Quiescent(Run(s, es))
    ensures forall i :: 0 <= i < |es| ==> Internal(es[i])
    decreases Passes(s), Chores(s)
  {
    if e :| Enabled(s, e) && Internal(e) {
      InternalStepWorks(s, e);
      var rest := ReachesQuiescence(Apply(s, e));
      RunCons(s, e, rest);
      es := [e] + rest;
    } else {
      es := [];
    }
  }

  /** After any run whatever, the service's own steps alone bring it to answering everybody. */
  lemma EverybodyAnswered(s: Service, es: seq<Event>) returns (more: seq<Event>)
    requires Start(s) && IsRun(s, es)
    ensures forall i :: 0 <= i < |more| ==> Internal(more[i])
    ensures IsRun(s, es + more) && AllAnswered(Run(s, es + more))
  {
    RunInv(s, es);
    more := ReachesQuiescence(Run(s, es));
    RunConcat(s, es, more);
    NobodyWaitsInVain(s, es + more);
  }

  /** And no schedule of them puts it off for ever: from any reached state each internal step goes down. */
  lemma ReachedStepWorks(s: Service, es: seq<Event>, e: Event)
    requires Start(s) && IsRun(s, es) && Enabled(Run(s, es), e) && Internal(e)
    ensures Less(Apply(Run(s, es), e), Run(s, es))
  {
    RunInv(s, es);
    InternalStepWorks(Run(s, es), e);
  }
}
