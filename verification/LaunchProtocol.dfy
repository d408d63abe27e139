/** The fork/exec protocol of the POSIX `default_launcher`: parent and child as two programs whose
    steps interleave freely, joined by the close-on-exec error pipe. */
module LaunchProtocol {
  import opened Wrappers
  import opened CloseAll

  const EINTR := 4
  const EBADF := 9
  const ECHILD := 10
  const EAGAIN := 11

  /** What a descriptor of the child refers to: the write end of the error pipe, or anything else. */
  datatype File = Sink | Foreign

  /** One `on_exec_setup` initializer. */
  datatype Hook = Succeed | Dup2(src: int, dst: int) | Fail(errno: int)

  datatype ChildPc = Hooks(todo: seq<Hook>) | CloseFds | Exec | Report | Exiting | NewProgram | Dead

  datatype Child = Child(pc: ChildPc, fds: map<int, File>, cloexec: bool, errno: int)

  datatype ParentPc = ClosingSink | Reading | OnError | Reaping | Returned

  /** How the parent's read loop ended. */
  datatype Seen = Nothing | Data(value: int) | Eof | Failure(err: int)

  datatype Parent = Parent(pc: ParentPc, sinkOpen: bool, ec: int, errno: int, seen: Seen)

  /** `execed`, `report`, `killed` and `reaped` record history; `interrupts` is the number of EINTR or
      EAGAIN results the environment may still produce. */
  datatype World = World(
    sink: int, whitelist: seq<int>,
    child: Child, parent: Parent, channel: seq<int>,
    execed: bool, report: Option<int>, killed: bool, reaped: nat, interrupts: nat)

  datatype Event =
    | ChildHook | ChildCloseFds | ChildExec(ok: bool, errno: int) | ChildReport | ChildExit | ProgramExit | Kill
    | ParentCloseSink | ReadInterrupted(err: int) | ReadData | ReadEof | ReadFailed(err: int)
    | ParentOnError(errno: int) | WaitInterrupted | Wait

  /** After `fork`: the child has closed its read end; only `sink` refers to the pipe's write end. */
  ghost predicate Start(w: World) {
    && w.child.pc.Hooks? && w.child.cloexec
    && ValidTable(w.child.fds.Keys)
    && w.sink in w.child.fds && w.child.fds[w.sink] == Sink
    && (forall fd :: fd in w.child.fds && fd != w.sink ==> w.child.fds[fd] == Foreign)
    && Descriptors(w.whitelist) && w.sink in w.whitelist
    && w.parent.pc == ClosingSink && w.parent.sinkOpen && w.parent.ec == 0 && w.parent.seen == Nothing
    && w.channel == [] && !w.execed && w.report == None && !w.killed && w.reaped == 0
  }

  // ---- the steps ------------------------------------------------------------------------------

  /** The child can still write to the pipe through some descriptor. */
  predicate ChildHoldsSink(c: Child) {
    exists fd :: fd in c.fds && c.fds[fd] == Sink
  }

  /** `close_all_fds`: the interval form over the sorted whitelist. */
  function AfterCloseAll(fds: map<int, File>, whitelist: seq<int>): map<int, File> {
    var kept := Close(fds.Keys, Gaps(Sorted(whitelist)));
    map fd | fd in fds && fd in kept :: fds[fd]
  }

  /** `dup2(src, dst)` fails on a descriptor that is not open, and on a number out of range. */
  predicate DupFails(fds: map<int, File>, src: int, dst: int) {
    src !in fds || !(0 <= dst <= INT_MAX)
  }

  /** It does nothing when both are the same, and else replaces what `dst` referred to. */
  function AfterDup(fds: map<int, File>, src: int, dst: int): map<int, File>
    requires !DupFails(fds, src, dst)
  {
    if src == dst then fds else fds[dst := fds[src]]
  }

  function RunHook(sink: int, c: Child): Child
    requires c.pc.Hooks? && c.pc.todo != []
  {
    var rest := Hooks(c.pc.todo[1..]);
    match c.pc.todo[0]
    case Succeed => c.(pc := rest)
    case Fail(errno) => c.(pc := Report, errno := errno)
    case Dup2(src, dst) =>
      if DupFails(c.fds, src, dst) then c.(pc := Report, errno := EBADF)
      else c.(pc := rest, fds := AfterDup(c.fds, src, dst), cloexec := c.cloexec && (src == dst || dst != sink))
  }

  /** The errors after which the parent reads again. */
  predicate Interruption(err: int) {
    err == EAGAIN || err == EINTR
  }

  function Undecided(pc: ChildPc): bool {
    pc.Hooks? || pc.CloseFds? || pc.Exec? || pc.Report?
  }

  predicate Enabled(w: World, e: Event) {
    match e
    case ChildHook => w.child.pc.Hooks?
    case ChildCloseFds => w.child.pc == CloseFds
    case ChildExec(_, _) => w.child.pc == Exec
    case ChildReport => w.child.pc == Report
    case ChildExit => w.child.pc == Exiting
    case ProgramExit => w.child.pc == NewProgram
    case Kill => Undecided(w.child.pc)
    case ParentCloseSink => w.parent.pc == ClosingSink
    case ReadInterrupted(err) => w.parent.pc == Reading && w.interrupts > 0 && Interruption(err)
    case ReadData => w.parent.pc == Reading && w.channel != []
    case ReadEof => w.parent.pc == Reading && w.channel == [] && !w.parent.sinkOpen && !ChildHoldsSink(w.child)
    case ReadFailed(err) => w.parent.pc == Reading && err != 0 && !Interruption(err)
    case ParentOnError(_) => w.parent.pc == OnError
    case WaitInterrupted => w.parent.pc == Reaping && w.reaped == 0 && w.interrupts > 0
    case Wait => w.parent.pc == Reaping && (w.child.pc == Dead || w.reaped > 0)
  }

  /** The two assignments to `ec` after the read loop: a failed read sets the read's error, and then
      everything but end-of-file is overwritten with what arrived in `child_error`. */
  function Decision(count: int, readError: int, childError: int): int {
    var ec := if count == -1 then readError else 0;
    if count != 0 then childError else ec
  }

  function AfterRead(p: Parent, seen: Seen, ec: int): Parent {
    p.(seen := seen, ec := ec, pc := if ec != 0 then OnError else Returned)
  }

  function Die(c: Child): Child {
    c.(pc := Dead, fds := map[])
  }

  function Apply(w: World, e: Event): World
    requires Enabled(w, e)
  {
    match e
    case ChildHook =>
      if w.child.pc.todo == [] then w.(child := w.child.(pc := CloseFds))
      else w.(child := RunHook(w.sink, w.child))
    case ChildCloseFds =>
      w.(child := w.child.(pc := Exec, fds := AfterCloseAll(w.child.fds, w.whitelist)))
    case ChildExec(ok, errno) =>
      if ok then
        w.(execed := true,
           child := w.child.(pc := NewProgram, fds := if w.child.cloexec then w.child.fds - {w.sink} else w.child.fds))
      else w.(child := w.child.(pc := Report, errno := errno))
    case ChildReport =>
      if w.sink in w.child.fds && w.child.fds[w.sink] == Sink then
        w.(child := w.child.(pc := Exiting), channel := w.channel + [w.child.errno], report := Some(w.child.errno))
      else w.(child := w.child.(pc := Exiting))
    case ChildExit => w.(child := Die(w.child))
    case ProgramExit => w.(child := Die(w.child))
    case Kill => w.(child := Die(w.child), killed := true)
    case ParentCloseSink => w.(parent := w.parent.(pc := Reading, sinkOpen := false))
    case ReadInterrupted(err) => w.(parent := w.parent.(errno := err), interrupts := w.interrupts - 1)
    case ReadData =>
      w.(parent := AfterRead(w.parent, Data(w.channel[0]), Decision(4, 0, w.channel[0])), channel := w.channel[1..])
    case ReadEof => w.(parent := AfterRead(w.parent, Eof, Decision(0, 0, 0)))
    case ReadFailed(err) =>
      w.(parent := AfterRead(w.parent.(errno := err), Failure(err), Decision(-1, err, 0)))
    case ParentOnError(errno) => w.(parent := w.parent.(pc := Reaping, errno := errno))
    case WaitInterrupted => w.(parent := w.parent.(errno := EINTR), interrupts := w.interrupts - 1)
    case Wait =>
      // a successful waitpid leaves errno alone, so a stale EINTR sends the loop round once more
      if w.reaped == 0 then w.(reaped := 1, parent := w.parent.(pc := if w.parent.errno == EINTR then Reaping else Returned))
      else w.(parent := w.parent.(pc := Returned, errno := ECHILD))
  }

  // ---- runs -----------------------------------------------------------------------------------

  predicate IsRun(w: World, es: seq<Event>)
    decreases |es|
  {
    es == [] || (Enabled(w, es[0]) && IsRun(Apply(w, es[0]), es[1..]))
  }

  function Run(w: World, es: seq<Event>): World
    requires IsRun(w, es)
    decreases |es|
  {
    if es == [] then w else Run(Apply(w, es[0]), es[1..])
  }

  // ---- what every step keeps --------------------------------------------------------------------

  ghost predicate ReadInv(w: World) {
    match w.parent.seen
    case Nothing =>
      && w.parent.pc in {ClosingSink, Reading} && w.parent.ec == 0
      && w.channel == (if w.report.Some? then [w.report.value] else [])
    case Data(v) => w.report == Some(v) && w.parent.ec == v && w.channel == []
    case Eof => w.report == None && w.parent.ec == 0 && !ChildHoldsSink(w.child) && w.channel == []
    case Failure(_) => w.parent.ec == 0
  }

  ghost predicate Inv(w: World) {
    && ReadInv(w)
    && (w.parent.pc == ClosingSink <==> w.parent.sinkOpen)
    && (w.parent.seen != Nothing ==> w.parent.pc in {OnError, Reaping, Returned})
    && (w.report.Some? ==> w.child.pc in {Exiting, Dead} && !w.execed && !w.killed)
    && (w.execed ==> w.child.pc in {NewProgram, Dead} && !w.killed)
    && (w.child.pc == NewProgram ==> w.execed)
    && (w.killed ==> w.child.pc == Dead)
    && (w.child.pc == Dead ==> w.child.fds == map[])
    && (w.parent.pc in {OnError, Reaping} ==> w.parent.ec != 0)
    && w.reaped <= 1
    && (w.reaped == 1 ==> w.child.pc == Dead && w.parent.ec != 0 && w.parent.pc in {Reaping, Returned})
    && (w.parent.pc == Returned ==> (w.reaped == 1 <==> w.parent.ec != 0))
  }

  lemma StartInv(w: World)
    requires Start(w)
    ensures Inv(w)
  {
  }

  lemma StepInv(w: World, e: Event)
    requires Inv(w) && Enabled(w, e)
    ensures Inv(Apply(w, e))
  {
    match e
    case ChildHook => ChildStepInv(w, e);
    case ChildCloseFds => ChildStepInv(w, e);
    case ChildExec(_, _) => ChildStepInv(w, e);
    case _ =>
  }

  lemma ChildStepInv(w: World, e: Event)
    requires Inv(w) && Enabled(w, e) && (e.ChildHook? || e.ChildCloseFds? || e.ChildExec?)
    ensures Inv(Apply(w, e))
  {
    var w' := Apply(w, e);
    if ChildHoldsSink(w'.child) {
      assert ChildHoldsSink(w.child);
    }
  }

  lemma {:induction false} RunInv(w: World, es: seq<Event>)
    requires Inv(w) && IsRun(w, es)
    ensures Inv(Run(w, es))
    decreases |es|
  {
    if es != [] {
      StepInv(w, es[0]);
      RunInv(Apply(w, es[0]), es[1..]);
    }
  }

  // ---- safety: what the parent's answer means ---------------------------------------------------

  /** Without any assumption on hooks, errno values, signals or read errors: when the launcher returns,
      an error is exactly a non-zero value read from the pipe, it is the errno the child wrote, the
      program was not started and the child has been reaped exactly once; without an error nothing
      was reaped. */
  lemma AnswerExact(w: World, es: seq<Event>)
    requires Start(w) && IsRun(w, es) && Run(w, es).parent.pc == Returned
    ensures var r := Run(w, es);
            && (r.parent.ec != 0 <==> r.parent.seen.Data? && r.parent.seen.value != 0)
            && (r.parent.ec != 0 ==>
                  && r.report == Some(r.parent.ec) && !r.execed
                  && r.child.pc == Dead && r.reaped == 1)
            && (r.parent.ec == 0 ==> r.reaped == 0)
  {
    StartInv(w);
    RunInv(w, es);
  }

  /** Without any assumption: a launch that has returned tells the truth exactly when the program was
      started, or the child wrote a non-zero errno and the read did not fail. */
  lemma TruthfulIff(w: World, es: seq<Event>)
    requires Start(w) && IsRun(w, es) && Run(w, es).parent.pc == Returned
    ensures var r := Run(w, es);
            Truthful(r) <==> r.execed || (r.report.Some? && r.report.value != 0 && !r.parent.seen.Failure?)
  {
    StartInv(w);
    RunInv(w, es);
  }

  /** The launcher's answer: no error exactly when `execve` succeeded. */
  predicate Truthful(w: World) {
    w.parent.ec == 0 <==> w.execed
  }

  // ---- when the promise holds ---------------------------------------------------------------------

  /** What the protocol leaves to its surroundings: nobody kills the child before it has decided, the
      read does not fail, and a failing `execve` sets errno. */
  predicate Regular(e: Event) {
    && !e.Kill? && !e.ReadFailed?
    && (e.ChildExec? && !e.ok ==> e.errno != 0)
  }

  predicate AllRegular(es: seq<Event>) {
    forall i :: 0 <= i < |es| ==> Regular(es[i])
  }

  predicate HoldsSink(sink: int, fds: map<int, File>) {
    sink in fds && fds[sink] == Sink
  }

  /** What the hooks must be: whichever way they end, the error pipe is where it was put when they end,
      and a hook that fails sets errno. A hook may replace the pipe if a later one puts it back. */
  predicate Reports(sink: int, fds: map<int, File>, hooks: seq<Hook>)
    decreases |hooks|
  {
    if hooks == [] then HoldsSink(sink, fds)
    else match hooks[0]
      case Succeed => Reports(sink, fds, hooks[1..])
      case Fail(errno) => errno != 0 && HoldsSink(sink, fds)
      case Dup2(src, dst) =>
        if DupFails(fds, src, dst) then HoldsSink(sink, fds)
        else Reports(sink, AfterDup(fds, src, dst), hooks[1..])
  }

  /** Such hooks never lose the pipe altogether. */
  lemma {:induction false} ReportsHolds(sink: int, fds: map<int, File>, hooks: seq<Hook>)
    requires Reports(sink, fds, hooks)
    ensures exists fd :: fd in fds && fds[fd] == Sink
    decreases |hooks|
  {
    if hooks != [] {
      match hooks[0]
      case Succeed => ReportsHolds(sink, fds, hooks[1..]);
      case Fail(_) =>
      case Dup2(src, dst) =>
        if !DupFails(fds, src, dst) {
          var after := AfterDup(fds, src, dst);
          ReportsHolds(sink, after, hooks[1..]);
          var fd :| fd in after && after[fd] == Sink;
          assert fds[if fd == dst then src else fd] == Sink;
        }
    }
  }

  ghost predicate RegularInv(w: World) {
    && Inv(w)
    && Descriptors(w.whitelist) && w.sink in w.whitelist && ValidTable(w.child.fds.Keys)
    && (w.child.pc.Hooks? ==> Reports(w.sink, w.child.fds, w.child.pc.todo))
    && (w.child.pc == CloseFds || w.child.pc == Exec || w.child.pc == Report ==> HoldsSink(w.sink, w.child.fds))
    && (w.child.pc == Report ==> w.child.errno != 0)
    && (w.report.Some? ==> w.report.value != 0)
    && !w.parent.seen.Failure?
    && (w.child.pc == Exiting ==> w.report.Some?)
    && (w.child.pc == Dead ==> w.execed || w.report.Some?)
  }

  /** `close_all_fds` keeps the error pipe: the sink was put on the whitelist before the fork. */
  lemma CloseAllKeepsSink(fds: map<int, File>, whitelist: seq<int>, sink: int)
    requires Descriptors(whitelist) && sink in whitelist && sink in fds && ValidTable(fds.Keys)
    ensures sink in AfterCloseAll(fds, whitelist)
    ensures AfterCloseAll(fds, whitelist) == map fd | fd in fds && fd in whitelist :: fds[fd]
  {
    CloseAllFilters(fds, whitelist);
  }

  lemma CloseAllFilters(fds: map<int, File>, whitelist: seq<int>)
    requires Descriptors(whitelist) && ValidTable(fds.Keys)
    ensures AfterCloseAll(fds, whitelist) == map fd | fd in fds && fd in whitelist :: fds[fd]
  {
    SortedIsOrdered(whitelist);
    SortedMembers(whitelist);
    CloseGapsIsFilter(fds.Keys, Sorted(whitelist));
  }

  lemma HookKeepsRegular(w: World)
    requires RegularInv(w) && Enabled(w, ChildHook)
    ensures RegularInv(Apply(w, ChildHook))
  {
    StepInv(w, ChildHook);
  }

  lemma RegularStep(w: World, e: Event)
    requires RegularInv(w) && Enabled(w, e) && Regular(e)
    ensures RegularInv(Apply(w, e))
  {
    StepInv(w, e);
    if e.ChildHook? {
      HookKeepsRegular(w);
    } else if e.ChildCloseFds? {
      CloseAllKeepsSink(w.child.fds, w.whitelist, w.sink);
    }
  }

  lemma {:induction false} RegularRun(w: World, es: seq<Event>)
    requires RegularInv(w) && IsRun(w, es) && AllRegular(es)
    ensures RegularInv(Run(w, es))
    decreases |es|
  {
    if es != [] {
      RegularStep(w, es[0]);
      RegularRun(Apply(w, es[0]), es[1..]);
    }
  }

  /** With such hooks, over every interleaving: no error exactly when `execve` succeeded, and otherwise the
      child's errno, the child reaped. */
  lemma NoErrorIffExecuted(w: World, es: seq<Event>)
    requires Start(w) && Reports(w.sink, w.child.fds, w.child.pc.todo)
    requires IsRun(w, es) && AllRegular(es) && Run(w, es).parent.pc == Returned
    ensures var r := Run(w, es);
            && Truthful(r)
            && (!r.execed ==> r.report == Some(r.parent.ec) && r.reaped == 1)
  {
    StartInv(w);
    RegularRun(w, es);
    var r := Run(w, es);
    if r.child.pc.Hooks? {
      ReportsHolds(r.sink, r.child.fds, r.child.pc.todo);
      assert ChildHoldsSink(r.child);
    }
    assert HoldsSink(r.sink, r.child.fds) ==> ChildHoldsSink(r.child);
  }

  ghost predicate AlwaysTruthful(w: World) {
    forall es :: IsRun(w, es) && AllRegular(es) && Run(w, es).parent.pc == Returned ==> Truthful(Run(w, es))
  }

  /** The promise of the launcher holds over all regular runs exactly for the hooks that `Reports` admits. */
  lemma TruthfulHooksIff(w: World)
    requires Start(w)
    ensures AlwaysTruthful(w) <==> Reports(w.sink, w.child.fds, w.child.pc.todo)
  {
    if Reports(w.sink, w.child.fds, w.child.pc.todo) {
      forall es | IsRun(w, es) && AllRegular(es) && Run(w, es).parent.pc == Returned
        ensures Truthful(Run(w, es))
      {
        NoErrorIffExecuted(w, es);
      }
    } else {
      var es := SilentRun(w);
      assert !Truthful(Run(w, es));
    }
  }

  // ---- runs that end in a wrong answer ------------------------------------------------------------

  /** The launcher reports success although the program was not started. */
  ghost predicate SilentFailure(w: World, es: seq<Event>) {
    IsRun(w, es) && Run(w, es).parent.pc == Returned && Run(w, es).parent.ec == 0 && !Run(w, es).execed
  }

  lemma RunCons(w: World, e: Event, es: seq<Event>)
    requires Enabled(w, e) && IsRun(Apply(w, e), es)
    ensures IsRun(w, [e] + es) && Run(w, [e] + es) == Run(Apply(w, e), es)
  {
    assert ([e] + es)[1..] == es;
  }

  lemma {:induction false} RunConcat(w: World, a: seq<Event>, b: seq<Event>)
    requires IsRun(w, a) && IsRun(Run(w, a), b)
    ensures IsRun(w, a + b) && Run(w, a + b) == Run(Run(w, a), b)
    decreases |a|
  {
    if a == [] {
      assert a + b == b;
    } else {
      var tail, rest := a[1..], a[1..] + b;
      var w' := Apply(w, a[0]);
      assert Run(w, a) == Run(w', tail);
      RunConcat(w', tail, b);
      RunCons(w, a[0], rest);
      assert a + b == [a[0]] + rest;
    }
  }

  /** The child on its own with the pipe undisturbed: nothing written yet, and the program not started. */
  ghost predicate Untold(w: World) {
    && w.channel == [] && w.report == None && !w.execed && !w.killed
    && Descriptors(w.whitelist) && w.sink in w.whitelist && ValidTable(w.child.fds.Keys)
  }

  /** The rest of the world is as it was; the child is gone and has told `r.report`. */
  ghost predicate Told(w: World, r: World) {
    && r.child.pc == Dead && r.child.fds == map[] && !r.execed && r.parent == w.parent && r.reaped == w.reaped
    && r.channel == (if r.report.Some? then [r.report.value] else [])
  }

  /** A child in `Report` writes, if the pipe is there, and exits. */
  lemma ReportAndExit(w: World) returns (es: seq<Event>)
    requires Untold(w) && w.child.pc == Report
    ensures IsRun(w, es) && AllRegular(es) && Told(w, Run(w, es))
    ensures Run(w, es).report == if HoldsSink(w.sink, w.child.fds) then Some(w.child.errno) else None
  {
    var w' := Apply(w, ChildReport);
    RunCons(w', ChildExit, []);
    RunCons(w, ChildReport, [ChildExit] + []);
    es := [ChildReport] + ([ChildExit] + []);
  }

  /** A child whose hooks succeed and whose `execve` fails. */
  lemma ExecFails(w: World, errno: int) returns (es: seq<Event>)
    requires Untold(w) && w.child.pc == CloseFds && errno != 0
    ensures IsRun(w, es) && AllRegular(es) && Told(w, Run(w, es))
    ensures Run(w, es).report == if HoldsSink(w.sink, w.child.fds) then Some(errno) else None
  {
    var w1 := Apply(w, ChildCloseFds);
    var w2 := Apply(w1, ChildExec(false, errno));
    if w.sink in w.child.fds {
      CloseAllKeepsSink(w.child.fds, w.whitelist, w.sink);
    }
    assert HoldsSink(w2.sink, w2.child.fds) == HoldsSink(w.sink, w.child.fds);
    var rest := ReportAndExit(w2);
    RunCons(w1, ChildExec(false, errno), rest);
    RunCons(w, ChildCloseFds, [ChildExec(false, errno)] + rest);
    es := [ChildCloseFds] + ([ChildExec(false, errno)] + rest);
  }

  /** A child that never starts the program: it tells a non-zero errno exactly if its hooks are as
      `Reports` demands. */
  lemma {:induction false} ChildGivesUp(w: World, errno: int) returns (es: seq<Event>)
    requires Untold(w) && w.child.pc.Hooks? && errno != 0
    ensures IsRun(w, es) && AllRegular(es) && Told(w, Run(w, es))
    ensures var r := Run(w, es).report;
            Reports(w.sink, w.child.fds, w.child.pc.todo) <==> r.Some? && r.value != 0
    decreases |w.child.pc.todo|
  {
    var w', rest := Apply(w, ChildHook), [];
    if w.child.pc.todo == [] {
      rest := ExecFails(w', errno);
    } else if w'.child.pc.Hooks? {
      rest := ChildGivesUp(w', errno);
    } else {
      rest := ReportAndExit(w');
    }
    RunCons(w, ChildHook, rest);
    es := [ChildHook] + rest;
  }

  /** Hooks that `Reports` does not admit have a regular run with a wrong answer. */
  lemma SilentRun(w: World) returns (es: seq<Event>)
    requires Start(w) && !Reports(w.sink, w.child.fds, w.child.pc.todo)
    ensures SilentFailure(w, es) && AllRegular(es)
  {
    var child := ChildGivesUp(w, ECHILD);
    var w1 := Run(w, child);
    var w2 := Apply(w1, ParentCloseSink);
    var last := if w1.report.Some? then ReadData else ReadEof;
    RunCons(w2, last, []);
    RunCons(w1, ParentCloseSink, [last] + []);
    var parent := [ParentCloseSink] + ([last] + []);
    RunConcat(w, child, parent);
    es := child + parent;
  }

  /** A failed read is forgotten: `count != 0` overwrites its error with the untouched `child_error`. The
      child has failed, has told its errno and is gone; the launcher reports success and leaves it
      unreaped. */
  lemma FailedReadUnnoticed(w: World, err: int, errno: int) returns (es: seq<Event>)
    requires Start(w) && Reports(w.sink, w.child.fds, w.child.pc.todo) && errno != 0
    requires err != 0 && err != EINTR && err != EAGAIN
    ensures SilentFailure(w, es)
    ensures var r := Run(w, es);
            && r.report.Some? && r.report.value != 0
            && r.child.pc == Dead && r.reaped == 0 && r.parent.seen == Failure(err)
  {
    var child := ChildGivesUp(w, errno);
    var w1 := Run(w, child);
    var w2 := Apply(w1, ParentCloseSink);
    RunCons(w2, ReadFailed(err), []);
    RunCons(w1, ParentCloseSink, [ReadFailed(err)] + []);
    var parent := [ParentCloseSink] + ([ReadFailed(err)] + []);
    RunConcat(w, child, parent);
    es := child + parent;
  }

  /** A child killed before it has decided goes unnoticed, whatever its hooks are. */
  lemma KilledChildUnnoticed(w: World) returns (es: seq<Event>)
    requires Start(w)
    ensures SilentFailure(w, es) && Run(w, es).killed && Run(w, es).reaped == 0
  {
    var w1 := Apply(w, Kill);
    var w2 := Apply(w1, ParentCloseSink);
    RunCons(w2, ReadEof, []);
    RunCons(w1, ParentCloseSink, [ReadEof] + []);
    RunCons(w, Kill, [ParentCloseSink] + ([ReadEof] + []));
    es := [Kill] + ([ParentCloseSink] + ([ReadEof] + []));
  }

  /** So does a hook that fails without setting errno. */
  lemma ZeroErrnoUnnoticed(w: World) returns (es: seq<Event>)
    requires Start(w) && w.child.pc.todo == [Fail(0)]
    ensures SilentFailure(w, es) && AllRegular(es)
  {
    es := SilentRun(w);
  }

  /** And one that replaces the pipe for good, when `execve` fails after it. */
  lemma SinkOverwrittenUnnoticed(w: World, src: int) returns (es: seq<Event>)
    requires Start(w) && 0 <= w.sink && src in w.child.fds && src != w.sink
    requires w.child.pc.todo == [Dup2(src, w.sink)]
    ensures SilentFailure(w, es) && AllRegular(es)
  {
    assert w.child.pc.todo[1..] == [];
    es := SilentRun(w);
  }

  /** Hooks that replace the pipe and put it back, or copy it onto itself, are harmless. */
  lemma HarmlessHooks(sink: int, fds: map<int, File>, src: int, spare: int)
    requires HoldsSink(sink, fds) && 0 <= sink <= INT_MAX && 0 <= spare <= INT_MAX
    requires src in fds && src != sink && src != spare && sink != spare
    ensures Reports(sink, fds, [Dup2(sink, spare), Dup2(src, sink), Dup2(spare, sink)])
    ensures Reports(sink, fds, [Dup2(sink, sink)])
  {
    var hooks := [Dup2(sink, spare), Dup2(src, sink), Dup2(spare, sink)];
    var fds1 := AfterDup(fds, sink, spare);
    var fds2 := AfterDup(fds1, src, sink);
    assert hooks[1..] == [Dup2(src, sink), Dup2(spare, sink)];
    assert [Dup2(src, sink), Dup2(spare, sink)][1..] == [Dup2(spare, sink)];
    assert [Dup2(spare, sink)][1..] == [];
    assert Reports(sink, AfterDup(fds2, spare, sink), []);
    assert Reports(sink, fds2, [Dup2(spare, sink)]);
    assert Reports(sink, fds1, [Dup2(src, sink), Dup2(spare, sink)]);
    assert [Dup2(sink, sink)][1..] == [];
  }

  // ---- the parent's own view ----------------------------------------------------------------------

  predicate ByParent(e: Event) {
    || e.ParentCloseSink? || e.ReadInterrupted? || e.ReadData? || e.ReadEof? || e.ReadFailed?
    || e.ParentOnError? || e.WaitInterrupted? || e.Wait?
  }

  /** What the parent knows of the world, and one thing it does or hears, with the value of a read. */
  datatype ParentView = ParentView(parent: Parent, reaped: nat)

  datatype Heard = Heard(event: Event, value: int)

  function View(w: World): ParentView {
    ParentView(w.parent, w.reaped)
  }

  function ParentStep(v: ParentView, h: Heard): ParentView {
    var p := v.parent;
    match h.event
    case ParentCloseSink => v.(parent := p.(pc := Reading, sinkOpen := false))
    case ReadInterrupted(err) => v.(parent := p.(errno := err))
    case ReadData => v.(parent := AfterRead(p, Data(h.value), Decision(4, 0, h.value)))
    case ReadEof => v.(parent := AfterRead(p, Eof, Decision(0, 0, 0)))
    case ReadFailed(err) => v.(parent := AfterRead(p.(errno := err), Failure(err), Decision(-1, err, 0)))
    case ParentOnError(errno) => v.(parent := p.(pc := Reaping, errno := errno))
    case WaitInterrupted => v.(parent := p.(errno := EINTR))
    case Wait =>
      if v.reaped == 0 then ParentView(p.(pc := if p.errno == EINTR then Reaping else Returned), 1)
      else v.(parent := p.(pc := Returned, errno := ECHILD))
    case _ => v
  }

  function ParentRun(v: ParentView, hs: seq<Heard>): ParentView
    decreases |hs|
  {
    if hs == [] then v else ParentRun(ParentStep(v, hs[0]), hs[1..])
  }

  function Hears(w: World, e: Event): seq<Heard>
    requires Enabled(w, e)
  {
    if ByParent(e) then [Heard(e, if e.ReadData? then w.channel[0] else 0)] else []
  }

  /** What the parent does and hears in a run. */
  function Transcript(w: World, es: seq<Event>): seq<Heard>
    requires IsRun(w, es)
    decreases |es|
  {
    if es == [] then [] else Hears(w, es[0]) + Transcript(Apply(w, es[0]), es[1..])
  }

  lemma ParentSees(w: World, e: Event)
    requires Enabled(w, e)
    ensures View(Apply(w, e)) ==
            if ByParent(e) then ParentStep(View(w), Hears(w, e)[0]) else View(w)
  {
  }

  /** The parent's state is decided by its transcript. */
  lemma {:induction false} TranscriptDecides(w: World, es: seq<Event>)
    requires IsRun(w, es)
    ensures View(Run(w, es)) == ParentRun(View(w), Transcript(w, es))
    decreases |es|
  {
    if es != [] {
      var w' := Apply(w, es[0]);
      ParentSees(w, es[0]);
      TranscriptDecides(w', es[1..]);
      if ByParent(es[0]) {
        assert Transcript(w, es)[1..] == Transcript(w', es[1..]);
      } else {
        assert Transcript(w, es) == Transcript(w', es[1..]);
      }
    }
  }

  lemma ParentRunOne(v: ParentView, h: Heard)
    ensures ParentRun(v, [h]) == ParentStep(v, h)
  {
    assert [h][1..] == [];
  }

  lemma {:induction false} ParentRunConcat(v: ParentView, a: seq<Heard>, b: seq<Heard>)
    ensures ParentRun(v, a + b) == ParentRun(ParentRun(v, a), b)
    decreases |a|
  {
    if a == [] {
      assert a + b == b;
    } else {
      ParentRunConcat(ParentStep(v, a[0]), a[1..], b);
      assert (a + b)[1..] == a[1..] + b;
    }
  }

  // ---- progress -----------------------------------------------------------------------------------

  function ChildWork(pc: ChildPc): nat {
    match pc
    case Hooks(todo) => |todo| + 6
    case CloseFds => 5
    case Exec => 4
    case Report => 3
    case Exiting => 2
    case NewProgram => 1
    case Dead => 0
  }

  function ParentWork(p: Parent, reaped: nat): nat {
    match p.pc
    case ClosingSink => 5
    case Reading => 4
    case OnError => 3
    case Reaping => if reaped == 0 then 2 else 1
    case Returned => 0
  }

  /** Bounds the length of every run. */
  function Work(w: World): nat {
    ChildWork(w.child.pc) + ParentWork(w.parent, w.reaped) + w.interrupts
  }

  lemma StepWorks(w: World, e: Event)
    requires Enabled(w, e)
    ensures Work(Apply(w, e)) < Work(w)
  {
  }

  /** No run goes on for ever, not even through a stale EINTR. */
  lemma {:induction false} RunsEnd(w: World, es: seq<Event>)
    requires IsRun(w, es)
    ensures |es| + Work(Run(w, es)) <= Work(w)
    decreases |es|
  {
    if es != [] {
      StepWorks(w, es[0]);
      RunsEnd(Apply(w, es[0]), es[1..]);
    }
  }

  /** Until the launcher has returned, parent or child can take a step that is no outside interference. */
  lemma NoDeadlock(w: World, es: seq<Event>)
    requires Start(w) && IsRun(w, es) && Run(w, es).parent.pc != Returned
    ensures exists e :: Enabled(Run(w, es), e) && Regular(e)
  {
    StartInv(w);
    RunInv(w, es);
    var r := Run(w, es);
    var child :=
      match r.child.pc
      case Hooks(_) => ChildHook
      case CloseFds => ChildCloseFds
      case Exec => ChildExec(true, 0)
      case Report => ChildReport
      case Exiting => ChildExit
      case _ => ProgramExit;
    var e :=
      match r.parent.pc
      case ClosingSink => ParentCloseSink
      case Reading => if r.channel != [] then ReadData else if ChildHoldsSink(r.child) then child else ReadEof
      case OnError => ParentOnError(0)
      case _ => if r.child.pc == Dead || r.reaped > 0 then Wait else child;
    assert Enabled(r, e) && Regular(e);
  }
}
