/** The parent-side code of `default_launcher::operator()` and the child-side `close_all_fds`, with the
    answers of the system calls supplied by a script. */
module Launcher {
  import opened Wrappers
  import opened CloseAll
  import opened LaunchProtocol

  /** One return of `::read` on the error pipe: -1 with an errno, an int, or end-of-file. */
  datatype ReadResult = MinusOne(err: int) | Int(value: int) | EndOfFile

  /** What an initializer's `on_setup` does: it puts descriptors on the launcher's whitelist (as `bind_fd`
      does with its target) and returns an error code, 0 for none. */
  datatype Setup = Setup(adds: seq<int>, ec: int)

  datatype Script = Script(
    pipeError: int, cloexecError: int, source: int, sink: int,
    setup: seq<Setup>, forkedPid: int, forkErrno: int,
    results: seq<ReadResult>, waitInterrupts: nat, errnoBeforeWait: int)

  predicate Retried(r: ReadResult) {
    r.MinusOne? && Interruption(r.err)
  }

  /** The first result that ends the read loop. */
  function Settled(results: seq<ReadResult>): ReadResult
    requires exists i :: 0 <= i < |results| && !Retried(results[i])
  {
    if !Retried(results[0]) then results[0]
    else
      assert forall i :: 1 <= i < |results| ==> results[i] == results[1..][i - 1];
      Settled(results[1..])
  }

  /** The recursive `on_setup` dispatcher: the error code and the whitelist it leaves. */
  function OnSetup(inits: seq<Setup>, whitelist: seq<int>): (int, seq<int>)
    decreases |inits|
  {
    if inits == [] then (0, whitelist)
    else
      var whitelist' := whitelist + inits[0].adds;
      if inits[0].ec != 0 then (inits[0].ec, whitelist') else OnSetup(inits[1..], whitelist')
  }

  /** Everything a prefix of the initializers adds. */
  function Added(inits: seq<Setup>): seq<int> {
    if inits == [] then [] else inits[0].adds + Added(inits[1..])
  }

  predicate FirstError(inits: seq<Setup>, i: nat) {
    i < |inits| && inits[i].ec != 0 && forall j :: 0 <= j < i ==> inits[j].ec == 0
  }

  /** The dispatcher asks the initializers up to the first that fails, answers with its error, and leaves
      on the whitelist exactly what those asked have added. */
  lemma {:induction false} OnSetupIsFirstError(inits: seq<Setup>, whitelist: seq<int>)
    ensures var (ec, after) := OnSetup(inits, whitelist);
            if forall i :: 0 <= i < |inits| ==> inits[i].ec == 0 then ec == 0 && after == whitelist + Added(inits)
            else exists i: nat :: FirstError(inits, i) && ec == inits[i].ec && after == whitelist + Added(inits[..i + 1])
    decreases |inits|
  {
    if inits == [] {
      assert whitelist + [] == whitelist;
    } else {
      var rest, grown := inits[1..], whitelist + inits[0].adds;
      assert inits == [inits[0]] + rest;
      if inits[0].ec != 0 {
        assert inits[..1] == [inits[0]] && Added([inits[0]]) == inits[0].adds + [] == inits[0].adds;
        assert FirstError(inits, 0);
      } else {
        OnSetupIsFirstError(rest, grown);
        if forall i :: 0 <= i < |rest| ==> rest[i].ec == 0 {
          Associate(whitelist, inits[0].adds, Added(rest));
        } else {
          var i: nat :| FirstError(rest, i) && OnSetup(rest, grown) == (rest[i].ec, grown + Added(rest[..i + 1]));
          LaterError(inits, whitelist, i);
        }
      }
    }
  }

  lemma LaterError(inits: seq<Setup>, whitelist: seq<int>, i: nat)
    requires inits != [] && inits[0].ec == 0 && FirstError(inits[1..], i)
    ensures FirstError(inits, i + 1)
    ensures (whitelist + inits[0].adds) + Added(inits[1..][..i + 1]) == whitelist + Added(inits[..i + 2])
  {
    ghost var front := inits[..i + 2];
    assert front[0] == inits[0] && front[1..] == inits[1..][..i + 1];
    Associate(whitelist, inits[0].adds, Added(front[1..]));
    assert inits[i + 1] == inits[1..][i];
    forall j | 0 <= j < i + 1 ensures inits[j].ec == 0 {
      assert j > 0 ==> inits[j] == inits[1..][j - 1];
    }
  }

  /** What the caller gets once setup has succeeded. */
  predicate Answered(s: Script, ec: int, proc: bool, reaped: nat)
    requires exists i :: 0 <= i < |s.results| && !Retried(s.results[i])
  {
    if s.forkedPid == -1 then ec == s.forkErrno && !proc && reaped == 0
    else
      && ec == (if Settled(s.results).Int? then Settled(s.results).value else 0)
      && (proc <==> ec == 0)
      && reaped == if ec == 0 then 0 else 1
  }

  class DefaultLauncher {
    var pid: int
    var fdWhitelist: seq<int>
    /** Descriptors of the error pipe that the launching process has open. */
    var pipeEnds: set<int>

    constructor ()
      ensures pid == -1 && fdWhitelist == [0, 1, 2] && pipeEnds == {}
    {
      pid, fdWhitelist, pipeEnds := -1, [0, 1, 2], {};
    }

    ghost static predicate ReapPhase(interrupts: nat, errno0: int, left: nat, errno: int, reaped: nat, rounds: nat) {
      var errno1 := if interrupts > 0 then EINTR else errno0;
      || (reaped == 0 && rounds == interrupts - left && errno == if rounds > 0 then EINTR else errno0)
      || (reaped == 1 && left == 0 && rounds == interrupts + 1 && errno == errno1)
      || (reaped == 1 && left == 0 && rounds == interrupts + 2 && errno == ECHILD && errno1 == EINTR)
    }

    /** `do { ::waitpid(pid, nullptr, 0); } while (errno == EINTR);` with a finite number of
        interruptions. A success does not reset errno, so a stale EINTR costs one more round, which
        ends with ECHILD; either way the child is reaped once. */
    method Reap(interrupts: nat, errno0: int) returns (reaped: nat, rounds: nat)
      ensures reaped == 1
      ensures rounds == if interrupts > 0 || errno0 == EINTR then interrupts + 2 else 1
    {
      var left, errno := interrupts, errno0;
      reaped, rounds := 0, 0;
      while rounds == 0 || errno == EINTR
        invariant ReapPhase(interrupts, errno0, left, errno, reaped, rounds)
        decreases interrupts + 2 - rounds
      {
        rounds := rounds + 1;
        if left > 0 {
          left, errno := left - 1, EINTR;
        } else if reaped == 0 {
          reaped := 1;
        } else {
          errno := ECHILD;
        }
      }
    }

    method RunSetup(inits: seq<Setup>) returns (ec: int)
      modifies this`fdWhitelist
      ensures (ec, fdWhitelist) == OnSetup(inits, old(fdWhitelist))
      decreases |inits|
    {
      if inits == [] {
        return 0;
      }
      fdWhitelist := fdWhitelist + inits[0].adds;
      if inits[0].ec != 0 {
        return inits[0].ec;
      }
      ec := RunSetup(inits[1..]);
    }

    /** The launch as the parent runs it. Whatever happens, `pipe_guard` and the explicit `close` leave
        no end of the error pipe open. After a fork the answer is the int that arrived, or success
        for end-of-file - and for a failed read. The sink stays on the parent's whitelist. */
    method Launch(s: Script) returns (ec: int, proc: bool, reaped: nat)
      requires pipeEnds == {} && s.source != s.sink
      requires exists i :: 0 <= i < |s.results| && !Retried(s.results[i])
      requires s.forkedPid == -1 || s.forkedPid > 0
      modifies this
      ensures pipeEnds == {}
      ensures proc ==> ec == 0 && reaped == 0 && pid == s.forkedPid != -1
      ensures s.pipeError != 0 || s.cloexecError != 0 ==>
                && ec == (if s.pipeError != 0 then s.pipeError else s.cloexecError)
                && !proc && reaped == 0 && fdWhitelist == old(fdWhitelist)
      ensures s.pipeError == 0 && s.cloexecError == 0 ==>
                var (setupError, whitelist) := OnSetup(s.setup, old(fdWhitelist));
                if setupError != 0 then ec == setupError && !proc && reaped == 0 && fdWhitelist == whitelist
                else fdWhitelist == whitelist + [s.sink] && Answered(s, ec, proc, reaped)
    {
      reaped := 0;
      if s.pipeError != 0 {
        return s.pipeError, false, 0;
      }
      pipeEnds := pipeEnds + {s.source, s.sink};
      if s.cloexecError != 0 {
        pipeEnds := pipeEnds - {s.source, s.sink};
        return s.cloexecError, false, 0;
      }
      ec := RunSetup(s.setup);
      if ec != 0 {
        pipeEnds := pipeEnds - {s.source, s.sink};
        return ec, false, 0;
      }
      fdWhitelist := fdWhitelist + [s.sink];
      pid := s.forkedPid;
      if pid == -1 {
        pipeEnds := pipeEnds - {s.source, s.sink};
        return s.forkErrno, false, 0;
      }
      pipeEnds := pipeEnds - {s.sink};
      var i := 0;
      assert s.results[0..] == s.results;
      while Retried(s.results[i])
        invariant 0 <= i < |s.results|
        invariant exists k :: 0 <= k < |s.results[i..]| && !Retried(s.results[i..][k])
        invariant Settled(s.results[i..]) == Settled(s.results)
        decreases |s.results| - i
      {
        var k :| 0 <= k < |s.results[i..]| && !Retried(s.results[i..][k]);
        assert s.results[i..][1..] == s.results[i + 1..];
        assert s.results[i + 1..][k - 1] == s.results[i..][k];
        i := i + 1;
      }
      var last := s.results[i];
      var count := if last.MinusOne? then -1 else if last.Int? then 4 else 0;
      var readError := if last.MinusOne? then last.err else 0;
      var childError := if last.Int? then last.value else 0;
      ec := Decision(count, readError, childError);
      if ec != 0 {
        var rounds;
        reaped, rounds := Reap(s.waitInterrupts, s.errnoBeforeWait);
      }
      pipeEnds := pipeEnds - {s.source};
      proc := ec == 0;
    }

    /** The child's `close_all_fds`. */
    method CloseAllFds(table: DescriptorTable)
      requires Descriptors(fdWhitelist) && ValidTable(table.open)
      modifies this, table
      ensures table.open == set fd | fd in old(table.open) && fd in old(fdWhitelist)
      ensures fdWhitelist == [0, 1, 2]
      ensures pid == old(pid) && pipeEnds == old(pipeEnds)
    {
      SortedIsOrdered(fdWhitelist);
      SortedMembers(fdWhitelist);
      fdWhitelist := Sorted(fdWhitelist);
      CloseAllRanges(fdWhitelist, table);
      fdWhitelist := [0, 1, 2];
    }
  }

  // ---- the launch as a run of the protocol --------------------------------------------------------

  /** The parent's reads, as a script gives them. */
  function Reads(results: seq<ReadResult>): seq<Heard>
    requires exists i :: 0 <= i < |results| && !Retried(results[i])
  {
    match results[0]
    case Int(value) => [Heard(ReadData, value)]
    case EndOfFile => [Heard(ReadEof, 0)]
    case MinusOne(err) =>
      if Retried(results[0]) then
        assert forall i :: 1 <= i < |results| ==> results[i] == results[1..][i - 1];
        [Heard(ReadInterrupted(err), 0)] + Reads(results[1..])
      else [Heard(ReadFailed(err), 0)]
  }

  /** Its waits: after a stale or fresh EINTR the one that succeeds is followed by another. */
  function Waits(interrupts: nat, errno: int): seq<Heard> {
    if interrupts > 0 then [Heard(WaitInterrupted, 0)] + Waits(interrupts - 1, EINTR)
    else if errno == EINTR then [Heard(Wait, 0), Heard(Wait, 0)]
    else [Heard(Wait, 0)]
  }

  function Answer(results: seq<ReadResult>): int
    requires exists i :: 0 <= i < |results| && !Retried(results[i])
  {
    if Settled(results).Int? then Settled(results).value else 0
  }

  function Scripted(s: Script): seq<Heard>
    requires exists i :: 0 <= i < |s.results| && !Retried(s.results[i])
  {
    [Heard(ParentCloseSink, 0)] + Reads(s.results) +
    if Answer(s.results) == 0 then [] else [Heard(ParentOnError(s.errnoBeforeWait), 0)] + Waits(s.waitInterrupts, s.errnoBeforeWait)
  }

  lemma {:induction false} ReadsRun(v: ParentView, results: seq<ReadResult>)
    requires exists i :: 0 <= i < |results| && !Retried(results[i])
    ensures var r := ParentRun(v, Reads(results));
            && r.parent.ec == Answer(results) && r.reaped == v.reaped
            && r.parent.pc == if Answer(results) == 0 then Returned else OnError
    decreases |results|
  {
    var h := Reads(results)[0];
    if Retried(results[0]) {
      assert forall i :: 1 <= i < |results| ==> results[i] == results[1..][i - 1];
      ReadsRun(ParentStep(v, h), results[1..]);
      assert Reads(results)[1..] == Reads(results[1..]);
    } else {
      assert Reads(results)[1..] == [];
    }
  }

  lemma {:induction false} WaitsRun(v: ParentView, interrupts: nat, errno: int)
    requires v.parent.errno == errno && v.reaped == 0
    ensures var r := ParentRun(v, Waits(interrupts, errno));
            r.parent.ec == v.parent.ec && r.reaped == 1 && r.parent.pc == Returned
    decreases interrupts
  {
    var hs := Waits(interrupts, errno);
    if interrupts > 0 {
      WaitsRun(ParentStep(v, hs[0]), interrupts - 1, EINTR);
      assert hs[1..] == Waits(interrupts - 1, EINTR);
    } else {
      var v1 := ParentStep(v, Heard(Wait, 0));
      if errno == EINTR {
        assert hs[1..] == [Heard(Wait, 0)];
        ParentRunOne(v1, Heard(Wait, 0));
      } else {
        ParentRunOne(v, Heard(Wait, 0));
      }
    }
  }

  lemma ScriptedRun(v: ParentView, s: Script)
    requires exists i :: 0 <= i < |s.results| && !Retried(s.results[i])
    requires v.reaped == 0
    ensures var r := ParentRun(v, Scripted(s));
            && r.parent.ec == Answer(s.results) && r.parent.pc == Returned
            && r.reaped == if Answer(s.results) == 0 then 0 else 1
  {
    ghost var close, heard := [Heard(ParentCloseSink, 0)], Reads(s.results);
    ghost var v1 := ParentRun(v, close);
    ghost var v2 := ParentRun(v1, heard);
    ParentRunOne(v, close[0]);
    ReadsRun(v1, s.results);
    ParentRunConcat(v, close, heard);
    if Answer(s.results) == 0 {
      assert Scripted(s) == close + heard;
    } else {
      ghost var onError := [Heard(ParentOnError(s.errnoBeforeWait), 0)];
      ghost var waits := Waits(s.waitInterrupts, s.errnoBeforeWait);
      ghost var v3 := ParentRun(v2, onError);
      ParentRunOne(v2, onError[0]);
      WaitsRun(v3, s.waitInterrupts, s.errnoBeforeWait);
      ParentRunConcat(v2, onError, waits);
      ParentRunConcat(v, close + heard, onError + waits);
      assert Scripted(s) == (close + heard) + (onError + waits);
    }
  }

  /** What `Launch` answers to a script is what the protocol's parent answers in every run in which it hears
      that script, whatever the child does in between. */
  lemma LaunchAgrees(w: World, es: seq<Event>, s: Script, ec: int, proc: bool, reaped: nat)
    requires exists i :: 0 <= i < |s.results| && !Retried(s.results[i])
    requires Start(w) && IsRun(w, es) && Transcript(w, es) == Scripted(s)
    requires s.forkedPid != -1 && Answered(s, ec, proc, reaped)
    ensures var r := Run(w, es);
            && r.parent.pc == Returned && r.parent.ec == ec && r.reaped == reaped
            && (AllRegular(es) && Reports(w.sink, w.child.fds, w.child.pc.todo) ==> (proc <==> r.execed))
  {
    TranscriptDecides(w, es);
    ScriptedRun(View(w), s);
    if AllRegular(es) && Reports(w.sink, w.child.fds, w.child.pc.todo) {
      NoErrorIffExecuted(w, es);
    }
  }
}
