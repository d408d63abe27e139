/** The Windows environment block: `build_env` writes it, `next` and `find_end` walk it. Reading past the
    block is undefined, which `None` stands for. */
module EnvironmentBlock {
  import opened Wrappers

  /** Every entry with its terminator, and one more terminator. */
  function Block(entries: seq<string>): (b: string)
    ensures b != ""
  {
    if entries == [] then "\0" else entries[0] + "\0" + Block(entries[1..])
  }

  method BuildEnv(args: seq<string>) returns (res: string)
    ensures res == Block(args)
  {
    res := "";
    for i := 0 to |args|
      invariant res + Block(args[i..]) == Block(args)
    {
      assert args[i..][1..] == args[i + 1..];
      Associate(res, args[i] + "\0", Block(args[i + 1..]));
      res := res + (args[i] + "\0");
    }
    res := res + "\0";
  }

  /** How far `next` moves a pointer that has `s` before it. */
  function Next(s: string): (r: Option<nat>)
    ensures r.Some? ==> 0 < r.value <= |s| && s[r.value - 1] == '\0' && '\0' !in s[..r.value - 1]
    ensures r.None? ==> '\0' !in s
  {
    if s == "" then None
    else if s[0] == '\0' then Some(1)
    else match Next(s[1..])
      case None => None
      case Some(k) =>
        assert s[..k] == [s[0]] + s[1..][..k - 1];
        Some(k + 1)
  }

  predicate Neighbours(s: string, i: nat) {
    0 < i < |s| && s[i - 1] == '\0' && s[i] == '\0'
  }

  /** How far `find_end` moves: to the second of the first two neighbouring NULs. */
  function FindEnd(s: string): (r: Option<nat>)
    ensures r.Some? ==> 0 < r.value < |s|
  {
    if |s| < 2 then None
    else if s[0] == '\0' && s[1] == '\0' then Some(1)
    else match FindEnd(s[1..]) case None => None case Some(k) => Some(k + 1)
  }

  lemma {:induction false} FindEndIsFirst(s: string)
    ensures match FindEnd(s)
            case None => forall i :: 0 <= i < |s| ==> !Neighbours(s, i)
            case Some(end) => Neighbours(s, end) && forall i :: 0 <= i < end ==> !Neighbours(s, i)
    decreases s
  {
    if |s| >= 2 && !(s[0] == '\0' && s[1] == '\0') {
      FindEndIsFirst(s[1..]);
      assert forall i :: 1 < i < |s| ==> Neighbours(s, i) == Neighbours(s[1..], i - 1);
    }
  }

  /** A pointer moved by `n` characters. */
  function Moved(n: nat, r: Option<nat>): Option<nat> {
    match r case None => None case Some(k) => Some(n + k)
  }

  lemma NextStep(block: string, nh: nat)
    requires nh < |block|
    ensures Moved(nh, Next(block[nh..])) ==
            if block[nh] == '\0' then Some(nh + 1) else Moved(nh + 1, Next(block[nh + 1..]))
  {
    ghost var s := block[nh..];
    assert s[0] == block[nh] && s[1..] == block[nh + 1..];
  }

  method NextEntry(block: string, start: nat) returns (r: Option<nat>)
    requires start <= |block|
    ensures r == Moved(start, Next(block[start..]))
  {
    var nh := start;
    while nh < |block| && block[nh] != '\0'
      invariant start <= nh <= |block|
      invariant Moved(start, Next(block[start..])) == Moved(nh, Next(block[nh..]))
      decreases |block| - nh
    {
      NextStep(block, nh);
      nh := nh + 1;
    }
    if nh < |block| {
      NextStep(block, nh);
    }
    r := if nh == |block| then None else Some(nh + 1);
  }

  method FindBlockEnd(block: string) returns (r: Option<nat>)
    ensures r == FindEnd(block)
  {
    var nh := 0;
    assert block[0..] == block;
    while nh + 1 < |block| && (block[nh] != '\0' || block[nh + 1] != '\0')
      invariant 0 <= nh <= |block|
      invariant FindEnd(block) == Moved(nh, FindEnd(block[nh..]))
      decreases |block| - nh
    {
      ghost var s := block[nh..];
      assert s[0] == block[nh] && s[1] == block[nh + 1] && s[1..] == block[nh + 1..];
      nh := nh + 1;
    }
    r := if nh + 1 < |block| then Some(nh + 1) else None;
  }

  /** The entries seen from a pointer that has `s` before it and `end` characters up to the end. */
  function Walk(s: string, end: nat): Option<seq<string>>
    decreases |s|
  {
    if end == 0 then Some([])
    else match Next(s)
      case None => None
      case Some(k) =>
        if k > end then None
        else match Walk(s[k..], end - k)
          case None => None
          case Some(rest) => Some([s[..k - 1]] + rest)
  }

  function Entries(block: string): Option<seq<string>> {
    match FindEnd(block) case None => None case Some(end) => Walk(block, end)
  }

  /** The loop over an environment view: from the handle to `find_end`, with `next`. */
  method ReadEntries(block: string) returns (r: Option<seq<string>>)
    ensures r == Entries(block)
  {
    var end := FindBlockEnd(block);
    if end.None? {
      return None;
    }
    // the pointer is what it has before it, and how far it is from the end
    var nh, left: nat, seen: seq<string> := block, end.value, [];
    AfterNothing(Walk(block, end.value));
    while left != 0
      invariant left <= |nh| && Entries(block) == After(seen, Walk(nh, left))
      decreases left
    {
      assert nh[0..] == nh;
      var next := NextEntry(nh, 0);
      WalkOnce(nh, left);
      if next.None? || next.value > left {
        return None;
      }
      var entry, rest := nh[..next.value - 1], nh[next.value..];
      AfterOne(seen, entry, Walk(rest, left - next.value));
      nh, left, seen := rest, left - next.value, seen + [entry];
    }
    assert seen + [] == seen;
    r := Some(seen);
  }

  lemma WalkOnce(s: string, end: nat)
    requires end > 0
    ensures match Next(s)
            case None => Walk(s, end) == None
            case Some(k) => Walk(s, end) == if k > end then None else After([s[..k - 1]], Walk(s[k..], end - k))
  {
  }

  function After(seen: seq<string>, r: Option<seq<string>>): Option<seq<string>> {
    match r case None => None case Some(rest) => Some(seen + rest)
  }

  lemma AfterNothing(r: Option<seq<string>>)
    ensures After([], r) == r
  {
    if r.Some? {
      assert [] + r.value == r.value;
    }
  }

  lemma AfterOne(seen: seq<string>, e: string, r: Option<seq<string>>)
    ensures After(seen, After([e], r)) == After(seen + [e], r)
  {
    if r.Some? {
      assert seen + ([e] + r.value) == (seen + [e]) + r.value;
    }
  }

  // ---- what a walk sees -------------------------------------------------------------------------

  lemma {:induction false} NextEntryLength(e: string, s: string)
    requires '\0' !in e
    ensures Next(e + "\0" + s) == Some(|e| + 1)
    decreases e
  {
    var t := e + "\0" + s;
    if e != "" {
      assert e[0] in e;
      NextEntryLength(e[1..], s);
      assert t[1..] == e[1..] + "\0" + s;
    }
  }

  lemma {:induction false} FindEndEntry(e: string, s: string)
    requires '\0' !in e && s != ""
    ensures FindEnd(e + "\0" + s) ==
            if s[0] == '\0' then Some(|e| + 1)
            else match FindEnd(s) case None => None case Some(k) => Some(|e| + 1 + k)
    decreases e
  {
    var t := e + "\0" + s;
    if e == "" {
      assert t[0] == '\0' && t[1] == s[0] && t[1..] == s;
    } else {
      assert e[0] in e;
      FindEndEntry(e[1..], s);
      assert t[1..] == e[1..] + "\0" + s;
    }
  }

  /** The entries before the first empty one, the first entry apart, which may be empty itself. */
  function UpToEmpty(entries: seq<string>): seq<string>
    requires entries != []
  {
    if |entries| == 1 || entries[1] == "" then [entries[0]] else [entries[0]] + UpToEmpty(entries[1..])
  }

  predicate Terminated(entries: seq<string>) {
    forall i :: 0 <= i < |entries| ==> '\0' !in entries[i]
  }

  lemma BlockStart(entries: seq<string>)
    requires Terminated(entries)
    ensures Block(entries)[0] == '\0' <==> entries == [] || entries[0] == ""
  {
    if entries != [] && entries[0] != "" {
      assert Block(entries)[0] == entries[0][0];
      assert entries[0][0] in entries[0];
    }
  }

  /** A walk over a written block sees the entries before the first empty one. */
  lemma {:induction false} WalkSees(entries: seq<string>)
    requires entries != [] && Terminated(entries)
    ensures Entries(Block(entries)) == Some(UpToEmpty(entries))
    decreases |entries|
  {
    var e, rest := entries[0], entries[1..];
    var s, b := Block(rest), Block(entries);
    FindEndEntry(e, s);
    NextEntryLength(e, s);
    BlockStart(rest);
    assert b[..|e|] == e && b[|e| + 1..] == s;
    assert Walk(s, 0) == Some([]);
    if rest != [] && rest[0] != "" {
      WalkSees(rest);
    } else {
      assert [e] + [] == [e];
    }
  }

  lemma {:induction false} WalkTerminated(s: string, end: nat)
    ensures Walk(s, end).Some? ==> Terminated(Walk(s, end).value)
    decreases |s|
  {
    if end != 0 && Next(s).Some? {
      var k := Next(s).value;
      if k <= end {
        WalkTerminated(s[k..], end - k);
      }
    }
  }

  lemma {:induction false} UpToEmptyWhole(entries: seq<string>)
    requires entries != []
    ensures UpToEmpty(entries) == entries <==> forall i :: 1 <= i < |entries| ==> entries[i] != ""
    ensures |UpToEmpty(entries)| <= |entries|
    decreases |entries|
  {
    if |entries| == 1 {
    } else {
      var rest := entries[1..];
      UpToEmptyWhole(rest);
      assert entries == [entries[0]] + rest;
      assert ([entries[0]] + UpToEmpty(rest))[1..] == UpToEmpty(rest);
      assert forall i :: 1 <= i < |rest| ==> rest[i] == entries[i + 1];
      if forall i :: 1 <= i < |rest| ==> rest[i] != "" {
        assert forall i :: 2 <= i < |entries| ==> entries[i] == rest[i - 1];
      }
    }
  }

  // ---- where things lie ------------------------------------------------------------------------

  /** Where entry `i` starts. */
  function Offset(entries: seq<string>, i: nat): nat
    requires i <= |entries|
  {
    if i == 0 then 0 else |entries[0]| + 1 + Offset(entries[1..], i - 1)
  }

  lemma {:induction false} BlockFrom(entries: seq<string>, i: nat)
    requires i <= |entries|
    ensures Offset(entries, i) <= |Block(entries)|
    ensures Block(entries)[Offset(entries, i)..] == Block(entries[i..])
    decreases i
  {
    if i == 0 {
      assert entries[0..] == entries;
    } else {
      ghost var b, k, t := Block(entries), |entries[0]| + 1, Block(entries[1..]);
      BlockFrom(entries[1..], i - 1);
      assert entries[1..][i - 1..] == entries[i..];
      assert b[k..] == t;
      Dropped(b, k, Offset(entries[1..], i - 1));
    }
  }

  lemma Dropped(b: string, j: nat, k: nat)
    requires j + k <= |b|
    ensures b[j..][k..] == b[j + k..]
  {
  }

  /** Every entry lies at its offset with a NUL behind it; one NUL follows the last and ends the block. */
  lemma BlockContents(entries: seq<string>, i: nat)
    requires i <= |entries|
    ensures var b, at := Block(entries), Offset(entries, i);
            if i == |entries| then |b| == at + 1 && b[at] == '\0'
            else at + |entries[i]| < |b| && b[at..at + |entries[i]|] == entries[i] && b[at + |entries[i]|] == '\0'
  {
    ghost var b, at := Block(entries), Offset(entries, i);
    BlockFrom(entries, i);
    if i < |entries| {
      ghost var e := entries[i];
      assert entries[i..][0] == e;
      assert b[at..][..|e|] == e && b[at..][|e|] == '\0';
      assert b[at..][..|e|] == b[at..at + |e|];
    } else {
      assert entries[i..] == [];
    }
  }

  /** `find_end` points at the last character of the block up to the first empty entry, and so at the
      last one of the whole block exactly when none but the first entry is empty. */
  lemma {:induction false} EndFound(entries: seq<string>)
    requires entries != [] && Terminated(entries)
    ensures FindEnd(Block(entries)) == Some(|Block(UpToEmpty(entries))| - 1)
    ensures FindEnd(Block(entries)) == Some(|Block(entries)| - 1) <==>
            forall i :: 1 <= i < |entries| ==> entries[i] != ""
    decreases |entries|
  {
    ghost var e, rest := entries[0], entries[1..];
    FindEndEntry(e, Block(rest));
    BlockStart(rest);
    assert Block(entries) == e + "\0" + Block(rest);
    assert Block([e]) == e + "\0" + "\0" by {
      assert [e][1..] == [];
    }
    assert forall i :: 1 <= i < |rest| ==> rest[i] == entries[i + 1];
    if rest == [] {
    } else if rest[0] == "" {
      assert entries[1] == "";
      BlockLonger(rest);
    } else {
      EndFound(rest);
      assert ([e] + UpToEmpty(rest))[1..] == UpToEmpty(rest);
      assert forall i :: 2 <= i < |entries| ==> entries[i] == rest[i - 1];
    }
  }

  lemma BlockLonger(rest: seq<string>)
    requires rest != []
    ensures |Block(rest)| > 1
  {
  }

  // ---- reading any block ------------------------------------------------------------------------

  /** `head` is what lies before the end. */
  lemma {:induction false} WalkCovers(s: string, end: nat, head: string)
    requires end <= |s| && head == s[..end] && (end == 0 || s[end - 1] == '\0')
    ensures Walk(s, end).Some? && Block(Walk(s, end).value) == head + "\0"
    decreases |s|
  {
    if end == 0 {
      assert head + "\0" == "\0";
    } else {
      NextWithin(s, end);
      ghost var k, rest := Next(s).value, head[Next(s).value..];
      BehindEntry(s, k, end, head);
      WalkCovers(s[k..], end - k, rest);
      WalkStep(s, k, end, Walk(s[k..], end - k).value);
      BlockCons(s[..k - 1], rest, head, Walk(s[k..], end - k).value);
    }
  }

  lemma WalkStep(s: string, k: nat, end: nat, es: seq<string>)
    requires Next(s) == Some(k) && k <= end && Walk(s[k..], end - k) == Some(es)
    ensures Walk(s, end) == Some([s[..k - 1]] + es)
  {
  }

  lemma BehindEntry(s: string, k: nat, end: nat, head: string)
    requires 0 < k <= end <= |s| && s[k - 1] == '\0' && head == s[..end] && s[end - 1] == '\0'
    ensures head[k..] == s[k..][..end - k] && head == s[..k - 1] + "\0" + head[k..]
    ensures end == k || s[k..][end - k - 1] == '\0'
  {
  }

  lemma NextWithin(s: string, end: nat)
    requires 0 < end <= |s| && s[end - 1] == '\0'
    ensures Next(s).Some? && Next(s).value <= end
  {
    assert s[end - 1] in s;
    ghost var before := s[..Next(s).value - 1];
    assert forall i :: 0 <= i < |before| ==> before[i] in before && before[i] == s[i];
  }

  lemma BlockCons(e: string, rest: string, head: string, es: seq<string>)
    requires Block(es) == rest + "\0" && head == e + "\0" + rest
    ensures Block([e] + es) == head + "\0"
  {
    assert ([e] + es)[1..] == es;
    Associate(e + "\0", rest, "\0");
  }

  /** Whatever the block, it is read exactly when it has two neighbouring NULs, and writing what was
      read gives the block back up to them. */
  lemma WriteBack(b: string)
    ensures Entries(b).Some? <==> exists i :: Neighbours(b, i)
    ensures Entries(b).Some? ==> Block(Entries(b).value) == b[..FindEnd(b).value + 1]
  {
    FindEndIsFirst(b);
    if FindEnd(b).Some? {
      ghost var end := FindEnd(b).value;
      WalkCovers(b, end, b[..end]);
      assert b[..end] + "\0" == b[..end + 1];
    }
  }

  /** Walking a written block gives the entries back exactly when there is one, none holds a NUL, and
      none but the first is empty. */
  lemma BlockIff(entries: seq<string>)
    ensures Entries(Block(entries)) == Some(entries) <==>
            entries != [] && Terminated(entries) && forall i :: 1 <= i < |entries| ==> entries[i] != ""
  {
    ghost var b := Block(entries);
    if FindEnd(b).Some? {
      WalkTerminated(b, FindEnd(b).value);
    }
    if entries != [] && Terminated(entries) {
      WalkSees(entries);
      UpToEmptyWhole(entries);
    }
  }
}
