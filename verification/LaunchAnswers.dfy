/** What a launch tells and what it leaves to the new program: the errno of a failed launch, and the
    descriptors of a started one, by the hooks alone. */
module LaunchAnswers {
  import opened Wrappers
  import opened CloseAll
  import opened LaunchProtocol

  // ---- what the hooks come to ---------------------------------------------------------------------

  predicate Dups(fds: map<int, File>, src: int, dst: int) {
    src in fds && 0 <= dst <= INT_MAX
  }

  /** The errno of the first hook that fails, if one does. */
  function HookErrno(fds: map<int, File>, hooks: seq<Hook>): Option<int>
    decreases |hooks|
  {
    if hooks == [] then None
    else match hooks[0]
      case Succeed => HookErrno(fds, hooks[1..])
      case Fail(errno) => Some(errno)
      case Dup2(src, dst) => if Dups(fds, src, dst) then HookErrno(fds[dst := fds[src]], hooks[1..]) else Some(EBADF)
  }

  /** The descriptors after the hooks, when none fails. */
  function AfterHooks(fds: map<int, File>, hooks: seq<Hook>): map<int, File>
    decreases |hooks|
  {
    if hooks == [] then fds
    else match hooks[0]
      case Dup2(src, dst) => AfterHooks(if Dups(fds, src, dst) then fds[dst := fds[src]] else fds, hooks[1..])
      case _ => AfterHooks(fds, hooks[1..])
  }

  /** Some hook puts another descriptor in the place of the error pipe. That place is then inherited. */
  predicate Rebound(sink: int, hooks: seq<Hook>) {
    exists i :: 0 <= i < |hooks| && hooks[i].Dup2? && hooks[i].dst == sink && hooks[i].src != sink
  }

  /** What the new program gets: what is on the whitelist, but not the error pipe in its own place. */
  function Inherited(w: World): map<int, File>
    requires w.child.pc.Hooks?
  {
    var after := AfterHooks(w.child.fds, w.child.pc.todo);
    map fd | fd in after && fd in w.whitelist && (fd != w.sink || Rebound(w.sink, w.child.pc.todo)) :: after[fd]
  }

  lemma ReboundCons(sink: int, h: Hook, rest: seq<Hook>)
    ensures Rebound(sink, [h] + rest) <==> (h.Dup2? && h.dst == sink && h.src != sink) || Rebound(sink, rest)
  {
    var all := [h] + rest;
    assert all[0] == h;
    if Rebound(sink, rest) {
      var i :| 0 <= i < |rest| && rest[i].Dup2? && rest[i].dst == sink && rest[i].src != sink;
      assert all[i + 1] == rest[i];
    }
  }

  // ---- following a run ----------------------------------------------------------------------------

  /** Where an errno the child reports comes from. */
  predicate Cause(w0: World, errno: int, past: seq<Event>)
    requires w0.child.pc.Hooks?
  {
    var hook := HookErrno(w0.child.fds, w0.child.pc.todo);
    if hook.Some? then errno == hook.value else ChildExec(false, errno) in past
  }

  ghost predicate HooksFollow(w0: World, w: World)
    requires w0.child.pc.Hooks? && w.child.pc.Hooks?
  {
    var hooks0, todo := w0.child.pc.todo, w.child.pc.todo;
    var hook := HookErrno(w0.child.fds, hooks0);
    && HookErrno(w.child.fds, todo) == hook
    && (hook.None? ==>
          && AfterHooks(w.child.fds, todo) == AfterHooks(w0.child.fds, hooks0)
          && (Rebound(w0.sink, hooks0) <==> !w.child.cloexec || Rebound(w0.sink, todo)))
  }

  ghost predicate ChildFollows(w0: World, w: World, past: seq<Event>)
    requires w0.child.pc.Hooks?
  {
    var hooks0 := w0.child.pc.todo;
    var after, done := AfterHooks(w0.child.fds, hooks0), HookErrno(w0.child.fds, hooks0).None?;
    var kept := map fd | fd in after && fd in w.whitelist :: after[fd];
    match w.child.pc
    case Hooks(_) => HooksFollow(w0, w)
    case CloseFds => done && w.child.fds == after && w.child.cloexec == !Rebound(w0.sink, hooks0)
    case Exec => done && w.child.fds == kept && w.child.cloexec == !Rebound(w0.sink, hooks0)
    case Report => Cause(w0, w.child.errno, past)
    case NewProgram => done && w.child.fds == Inherited(w0)
    case _ => true
  }

  ghost predicate Follows(w0: World, w: World, past: seq<Event>)
    requires w0.child.pc.Hooks?
  {
    && w.sink == w0.sink && w.whitelist == w0.whitelist
    && Descriptors(w.whitelist) && ValidTable(w.child.fds.Keys)
    && ChildFollows(w0, w, past)
    && (w.report.Some? ==> Cause(w0, w.report.value, past))
    && (w.execed ==> HookErrno(w0.child.fds, w0.child.pc.todo).None?)
  }

  lemma MorePast(w0: World, w: World, past: seq<Event>, e: Event)
    requires w0.child.pc.Hooks? && Follows(w0, w, past)
    ensures Follows(w0, w, past + [e])
  {
  }

  lemma HookFollows(w0: World, w: World, past: seq<Event>)
    requires w0.child.pc.Hooks? && Follows(w0, w, past) && Enabled(w, ChildHook)
    ensures Follows(w0, Apply(w, ChildHook), past)
  {
    var todo := w.child.pc.todo;
    if todo != [] {
      assert todo == [todo[0]] + todo[1..];
      ReboundCons(w.sink, todo[0], todo[1..]);
      DupSame(w.child.fds, todo[0]);
    } else {
      assert !Rebound(w.sink, []);
    }
  }

  lemma DupSame(fds: map<int, File>, h: Hook)
    ensures h.Dup2? ==> (DupFails(fds, h.src, h.dst) <==> !Dups(fds, h.src, h.dst))
    ensures h.Dup2? && Dups(fds, h.src, h.dst) ==> AfterDup(fds, h.src, h.dst) == fds[h.dst := fds[h.src]]
  {
    if h.Dup2? && h.src == h.dst && h.src in fds {
      assert fds[h.dst := fds[h.src]] == fds;
    }
  }

  lemma CloseFollows(w0: World, w: World, past: seq<Event>)
    requires w0.child.pc.Hooks? && Follows(w0, w, past) && Enabled(w, ChildCloseFds)
    ensures Follows(w0, Apply(w, ChildCloseFds), past)
  {
    CloseAllFilters(w.child.fds, w.whitelist);
  }

  lemma ExecFollows(w0: World, w: World, past: seq<Event>, ok: bool, errno: int)
    requires w0.child.pc.Hooks? && Follows(w0, w, past) && Enabled(w, ChildExec(ok, errno))
    requires ChildExec(ok, errno) in past
    ensures Follows(w0, Apply(w, ChildExec(ok, errno)), past)
  {
    if ok {
      assert Apply(w, ChildExec(ok, errno)).child.fds == Inherited(w0);
    }
  }

  lemma EndFollows(w0: World, w: World, past: seq<Event>, e: Event)
    requires w0.child.pc.Hooks? && Follows(w0, w, past) && Enabled(w, e)
    requires e.ChildReport? || e.ChildExit? || e.ProgramExit? || e.Kill?
    ensures Follows(w0, Apply(w, e), past)
  {
  }

  lemma ParentFollows(w0: World, w: World, past: seq<Event>, e: Event)
    requires w0.child.pc.Hooks? && Follows(w0, w, past) && Enabled(w, e) && ByParent(e)
    ensures Follows(w0, Apply(w, e), past)
  {
    var w' := Apply(w, e);
    assert w'.child == w.child && w'.report == w.report && w'.execed == w.execed;
    assert w'.sink == w.sink && w'.whitelist == w.whitelist;
  }

  lemma StepFollows(w0: World, w: World, past: seq<Event>, e: Event)
    requires w0.child.pc.Hooks? && Follows(w0, w, past) && Enabled(w, e)
    ensures Follows(w0, Apply(w, e), past + [e])
  {
    MorePast(w0, w, past, e);
    match e
    case ChildHook => HookFollows(w0, w, past + [e]);
    case ChildCloseFds => CloseFollows(w0, w, past + [e]);
    case ChildExec(ok, errno) => ExecFollows(w0, w, past + [e], ok, errno);
    case _ =>
      if ByParent(e) {
        ParentFollows(w0, w, past + [e], e);
      } else {
        EndFollows(w0, w, past + [e], e);
      }
  }

  lemma {:induction false} RunFollows(w0: World, w: World, past: seq<Event>, es: seq<Event>)
    requires w0.child.pc.Hooks? && Follows(w0, w, past) && IsRun(w, es)
    ensures Follows(w0, Run(w, es), past + es)
    decreases |es|
  {
    if es == [] {
      assert past + es == past;
    } else {
      StepFollows(w0, w, past, es[0]);
      RunFollows(w0, Apply(w, es[0]), past + [es[0]], es[1..]);
      assert (past + [es[0]]) + es[1..] == past + es;
    }
  }

  // ---- the promises -------------------------------------------------------------------------------

  /** Over every run: whatever errno the child reports, and so whatever error the launcher returns with, is
      the errno of the first hook that failed, or that of `execve` when none did; and the program is
      started only when none did. */
  lemma ErrnoIsTheCause(w: World, es: seq<Event>)
    requires Start(w) && IsRun(w, es)
    ensures var r := Run(w, es);
            && (r.report.Some? ==> Cause(w, r.report.value, es))
            && (r.parent.pc == Returned && r.parent.ec != 0 ==> Cause(w, r.parent.ec, es))
            && (r.execed ==> HookErrno(w.child.fds, w.child.pc.todo).None?)
  {
    RunFollows(w, w, [], es);
    assert [] + es == es;
    if Run(w, es).parent.pc == Returned {
      AnswerExact(w, es);
    }
  }

  /** The program starts with exactly the descriptors the hooks have set up that are on the whitelist. The
      error pipe is not among them in its own place, unless a hook has put a descriptor there. */
  lemma ProgramInherits(w: World, es: seq<Event>)
    requires Start(w) && IsRun(w, es) && Run(w, es).child.pc == NewProgram
    ensures Run(w, es).child.fds == Inherited(w)
  {
    RunFollows(w, w, [], es);
  }

  // ---- where runs start, and what may delay them --------------------------------------------------

  /** The world after `fork`: the child has the parent's descriptors `others` and the write end `sink`. */
  function Forked(others: set<int>, sink: int, whitelist: seq<int>, hooks: seq<Hook>, interrupts: nat, errno: int): World {
    World(sink, whitelist,
          Child(Hooks(hooks), map fd | fd in others + {sink} :: if fd == sink then Sink else Foreign, true, 0),
          Parent(ClosingSink, true, 0, errno, Nothing), [],
          false, None, false, 0, interrupts)
  }

  /** Every launch starts a run, and hooks that leave the number of the error pipe alone are admitted if
      they fail only with an errno. */
  lemma OrdinaryLaunch(others: set<int>, sink: int, whitelist: seq<int>, hooks: seq<Hook>, interrupts: nat, errno: int)
    requires Descriptors(whitelist) && sink in whitelist && ValidTable(others + {sink})
    requires forall i :: 0 <= i < |hooks| ==> Ordinary(sink, hooks[i])
    ensures var w := Forked(others, sink, whitelist, hooks, interrupts, errno);
            Start(w) && Reports(w.sink, w.child.fds, w.child.pc.todo)
  {
    var w := Forked(others, sink, whitelist, hooks, interrupts, errno);
    assert w.child.fds.Keys == others + {sink};
    OrdinaryReports(sink, w.child.fds, hooks);
  }

  predicate Ordinary(sink: int, h: Hook) {
    match h
    case Succeed => true
    case Fail(errno) => errno != 0
    case Dup2(_, dst) => dst != sink
  }

  lemma {:induction false} OrdinaryReports(sink: int, fds: map<int, File>, hooks: seq<Hook>)
    requires HoldsSink(sink, fds) && forall i :: 0 <= i < |hooks| ==> Ordinary(sink, hooks[i])
    ensures Reports(sink, fds, hooks)
    decreases |hooks|
  {
    if hooks != [] {
      assert Ordinary(sink, hooks[0]);
      if !hooks[0].Fail? && !(hooks[0].Dup2? && DupFails(fds, hooks[0].src, hooks[0].dst)) {
        OrdinaryReports(sink, if hooks[0].Dup2? then AfterDup(fds, hooks[0].src, hooks[0].dst) else fds, hooks[1..]);
      }
    }
  }

  /** An interruption, `EINTR` or `EAGAIN` for a read, only leaves its errno: the parent reads, or waits,
      again. */
  lemma InterruptsOnlyDelay(w: World, err: int)
    requires w.interrupts > 0
    ensures w.parent.pc == Reading && (err == EINTR || err == EAGAIN) ==>
              && Enabled(w, ReadInterrupted(err))
              && Apply(w, ReadInterrupted(err)) == w.(parent := w.parent.(errno := err), interrupts := w.interrupts - 1)
    ensures !Enabled(w, ReadFailed(EINTR)) && !Enabled(w, ReadFailed(EAGAIN))
    ensures w.parent.pc == Reaping && w.reaped == 0 ==>
              && Enabled(w, WaitInterrupted)
              && Apply(w, WaitInterrupted) == w.(parent := w.parent.(errno := EINTR), interrupts := w.interrupts - 1)
  {
  }
}
