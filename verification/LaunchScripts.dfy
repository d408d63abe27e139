/** Every script of answers that `Launcher` takes occurs: some child and some run of the protocol give it. */
module LaunchScripts {
  import opened Wrappers
  import opened CloseAll
  import opened LaunchProtocol
  import opened LaunchAnswers
  import opened Launcher

  /** The read loop goes on through `EINTR` and `EAGAIN`, and through nothing else. */
  lemma {:induction false} ReadsSettle(results: seq<ReadResult>, k: nat)
    requires k < |results|
    requires forall i :: 0 <= i < k ==> results[i] == MinusOne(EINTR) || results[i] == MinusOne(EAGAIN)
    requires results[k] != MinusOne(EINTR) && results[k] != MinusOne(EAGAIN)
    ensures (exists i :: 0 <= i < |results| && !Retried(results[i])) && Settled(results) == results[k]
    decreases k
  {
    assert !Retried(results[k]);
    if k > 0 {
      ReadsSettle(results[1..], k - 1);
    }
  }

  lemma TranscriptCons(w: World, e: Event, es: seq<Event>)
    requires Enabled(w, e) && IsRun(Apply(w, e), es)
    ensures IsRun(w, [e] + es) && Run(w, [e] + es) == Run(Apply(w, e), es)
    ensures Transcript(w, [e] + es) == Hears(w, e) + Transcript(Apply(w, e), es)
  {
    RunCons(w, e, es);
    assert ([e] + es)[1..] == es;
  }

  /** Results a read can have. */
  predicate Possible(results: seq<ReadResult>) {
    (exists i :: 0 <= i < |results| && !Retried(results[i])) &&
    forall i :: 0 <= i < |results| && results[i].MinusOne? ==> results[i].err != 0
  }

  /** The child is gone and has left what the script reads; the parent is about to read. */
  predicate Readable(w: World, results: seq<ReadResult>, waits: nat)
    requires Possible(results)
  {
    && w.parent.pc == Reading && !w.parent.sinkOpen && w.parent.ec == 0 && w.reaped == 0
    && w.child.pc == Dead && !ChildHoldsSink(w.child)
    && w.interrupts >= |results| + waits
    && w.channel == if Settled(results).Int? then [Settled(results).value] else []
  }

  /** What the parent does after the reads. */
  function Afterwards(answer: int, waits: nat, errno: int): seq<Heard> {
    if answer == 0 then [] else [Heard(ParentOnError(errno), 0)] + Waits(waits, errno)
  }

  lemma {:induction false} WaitsHappen(w: World, interrupts: nat, errno: int) returns (es: seq<Event>)
    requires w.parent.pc == Reaping && w.parent.errno == errno && w.reaped == 0
    requires w.child.pc == Dead && w.interrupts >= interrupts
    ensures IsRun(w, es) && Transcript(w, es) == Waits(interrupts, errno)
    decreases interrupts
  {
    if interrupts > 0 {
      es := WaitsHappen(Apply(w, WaitInterrupted), interrupts - 1, EINTR);
      TranscriptCons(w, WaitInterrupted, es);
      es := [WaitInterrupted] + es;
    } else {
      es := [];
      if errno == EINTR {
        TranscriptCons(Apply(w, Wait), Wait, []);
        es := [Wait] + [];
      }
      TranscriptCons(w, Wait, es);
      es := [Wait] + es;
    }
  }

  lemma AfterwardsHappens(w: World, waits: nat, errno: int) returns (es: seq<Event>)
    requires w.parent.pc == (if w.parent.ec == 0 then Returned else OnError) && w.reaped == 0
    requires w.child.pc == Dead && w.interrupts >= waits
    ensures IsRun(w, es) && Transcript(w, es) == Afterwards(w.parent.ec, waits, errno)
  {
    es := [];
    if w.parent.ec != 0 {
      es := WaitsHappen(Apply(w, ParentOnError(errno)), waits, errno);
      TranscriptCons(w, ParentOnError(errno), es);
      es := [ParentOnError(errno)] + es;
    }
  }

  lemma {:induction false} ReadsHappen(w: World, results: seq<ReadResult>, waits: nat, errno: int) returns (es: seq<Event>)
    requires Possible(results) && Readable(w, results, waits)
    ensures IsRun(w, es)
    ensures Transcript(w, es) == Reads(results) + Afterwards(Answer(results), waits, errno)
    decreases |results|
  {
    var e, w' := OneRead(w, results, waits);
    var tail := Afterwards(Answer(results), waits, errno);
    if Retried(results[0]) {
      es := ReadsHappen(w', results[1..], waits, errno);
      Associate(Hears(w, e), Reads(results[1..]), tail);
    } else {
      es := AfterwardsHappens(w', waits, errno);
    }
    TranscriptCons(w, e, es);
    es := [e] + es;
  }

  lemma OneRead(w: World, results: seq<ReadResult>, waits: nat) returns (e: Event, w': World)
    requires Possible(results) && Readable(w, results, waits)
    ensures Enabled(w, e) && w' == Apply(w, e)
    ensures if Retried(results[0]) then
              && Possible(results[1..]) && Readable(w', results[1..], waits)
              && Settled(results) == Settled(results[1..]) && Reads(results) == Hears(w, e) + Reads(results[1..])
            else
              && w'.parent.ec == Answer(results) && w'.parent.pc == (if w'.parent.ec == 0 then Returned else OnError)
              && w'.reaped == 0 && w'.child.pc == Dead && w'.interrupts >= waits && Reads(results) == Hears(w, e)
  {
    e := match results[0]
      case Int(_) => ReadData
      case EndOfFile => ReadEof
      case MinusOne(err) => if Retried(results[0]) then ReadInterrupted(err) else ReadFailed(err);
    w' := Apply(w, e);
    assert forall i :: 1 <= i < |results| ==> results[i] == results[1..][i - 1];
  }

  /** A child whose only hook fails leaves that errno, and one that is killed leaves nothing. */
  lemma ChildFails(w: World, errno: int) returns (w1: World, w2: World, w3: World)
    requires Start(w) && w.child.pc == Hooks([Fail(errno)])
    ensures Enabled(w, ChildHook) && w1 == Apply(w, ChildHook)
    ensures Enabled(w1, ChildReport) && w2 == Apply(w1, ChildReport)
    ensures Enabled(w2, ChildExit) && w3 == Apply(w2, ChildExit)
    ensures w3 == w.(child := Die(w3.child), channel := [errno], report := Some(errno))
  {
    w1 := Apply(w, ChildHook);
    w2 := Apply(w1, ChildReport);
    w3 := Apply(w2, ChildExit);
  }

  lemma ChildKilled(w: World)
    requires Start(w)
    ensures Enabled(w, Kill) && Apply(w, Kill) == w.(child := Die(w.child), killed := true)
  {
  }

  /** What the child does goes unheard. */
  lemma Unheard(w: World, e: Event, es: seq<Event>)
    requires Enabled(w, e) && !ByParent(e) && IsRun(Apply(w, e), es)
    ensures IsRun(w, [e] + es) && Transcript(w, [e] + es) == Transcript(Apply(w, e), es)
  {
    TranscriptCons(w, e, es);
    assert Hears(w, e) == [];
  }

  lemma ParentHears(w: World, s: Script) returns (es: seq<Event>)
    requires Possible(s.results)
    requires Enabled(w, ParentCloseSink) && Readable(Apply(w, ParentCloseSink), s.results, s.waitInterrupts)
    ensures IsRun(w, es) && Transcript(w, es) == Scripted(s)
  {
    var heard := ReadsHappen(Apply(w, ParentCloseSink), s.results, s.waitInterrupts, s.errnoBeforeWait);
    TranscriptCons(w, ParentCloseSink, heard);
    es := [ParentCloseSink] + heard;
    var tail := Afterwards(Answer(s.results), s.waitInterrupts, s.errnoBeforeWait);
    Associate([Heard(ParentCloseSink, 0)], Reads(s.results), tail);
  }

  lemma FailureHeard(w: World, s: Script, errno: int) returns (es: seq<Event>)
    requires Possible(s.results) && Start(w) && w.child.pc == Hooks([Fail(errno)])
    requires Settled(s.results) == Int(errno) && w.interrupts >= |s.results| + s.waitInterrupts
    ensures IsRun(w, es) && Transcript(w, es) == Scripted(s)
  {
    var w1, w2, w3 := ChildFails(w, errno);
    es := ParentHears(w3, s);
    Unheard(w2, ChildExit, es);
    Unheard(w1, ChildReport, [ChildExit] + es);
    Unheard(w, ChildHook, [ChildReport] + ([ChildExit] + es));
    es := [ChildHook] + ([ChildReport] + ([ChildExit] + es));
  }

  lemma SilenceHeard(w: World, s: Script) returns (es: seq<Event>)
    requires Possible(s.results) && Start(w)
    requires !Settled(s.results).Int? && w.interrupts >= |s.results| + s.waitInterrupts
    ensures IsRun(w, es) && Transcript(w, es) == Scripted(s)
  {
    ChildKilled(w);
    es := ParentHears(Apply(w, Kill), s);
    Unheard(w, Kill, es);
    es := [Kill] + es;
  }

  /** For every script there is a launch in which the parent hears it. */
  lemma ScriptHappens(s: Script) returns (w: World, es: seq<Event>)
    requires Possible(s.results) && 0 <= s.sink < INT_MAX
    ensures Start(w) && IsRun(w, es) && Transcript(w, es) == Scripted(s)
  {
    var last, n := Settled(s.results), |s.results| + s.waitInterrupts;
    var hooks := if last.Int? then [Fail(last.value)] else [];
    OrdinaryStart(s.sink, hooks, n);
    w := Forked({}, s.sink, [s.sink], hooks, n, 0);
    if last.Int? {
      es := FailureHeard(w, s, last.value);
    } else {
      es := SilenceHeard(w, s);
    }
  }

  lemma OrdinaryStart(sink: int, hooks: seq<Hook>, n: nat)
    requires 0 <= sink < INT_MAX
    ensures Start(Forked({}, sink, [sink], hooks, n, 0))
  {
    assert Forked({}, sink, [sink], hooks, n, 0).child.fds.Keys == {sink};
  }
}
