/** `build_cmd_shell` and `build_args` of the POSIX command initializer: how far the second undoes the
    first. */
module PosixCommand {
  import opened QuoteText
  import opened Wrappers

  // ---- the printer ------------------------------------------------------------------------------

  function Quoted(a: string): string {
    if ' ' in Escape(a) then "\"" + Escape(a) + "\"" else Escape(a)
  }

  function Shell(st: string, args: seq<string>): string
    decreases |args|
  {
    if args == [] then st
    else Shell((if st != "" then st + " " else st) + Quoted(args[0]), args[1..])
  }

  method BuildCmdShell(exe: string, data: seq<string>) returns (st: string)
    ensures st == Shell(exe, data)
  {
    st := exe;
    for i := 0 to |data|
      invariant Shell(st, data[i..]) == Shell(exe, data)
    {
      assert data[i..][1..] == data[i + 1..];
      var arg := Escape(data[i]);
      if ' ' in arg {
        arg := "\"" + arg;
        arg := arg + "\"";
      }
      if st != "" {
        st := st + " ";
      }
      st := st + arg;
    }
  }

  /** What follows a non-empty command: a space before each argument. */
  function Tail(args: seq<string>): string
    decreases |args|, 1
  {
    if args == [] then "" else " " + Text(args)
  }

  function Text(args: seq<string>): string
    requires args != []
    decreases |args|, 0
  {
    Quoted(args[0]) + Tail(args[1..])
  }

  lemma {:induction false} ShellIsTail(st: string, args: seq<string>)
    requires st != ""
    ensures Shell(st, args) == st + Tail(args)
    decreases |args|
  {
    if args != [] {
      ghost var q, t := Quoted(args[0]), Tail(args[1..]);
      ShellIsTail(st + " " + q, args[1..]);
      Regroup(st, q, t);
    } else {
      assert st + "" == st;
    }
  }

  lemma Regroup(a: string, b: string, c: string)
    ensures (a + " " + b) + c == a + (" " + (b + c))
  {
    Associate(a + " ", b, c);
    Associate(a, " ", b + c);
  }

  // ---- the parser -------------------------------------------------------------------------------

  /** `make_entry`. A lone quote is both the first and the last character; stripping it twice is
      undefined, which `None` stands for. */
  function Entry(part: string): Option<string>
    requires part != ""
  {
    if part[0] == '"' && part[|part| - 1] == '"' then
      if |part| == 1 then None else Some(Unescape(part[1..|part| - 1]))
    else Some(Unescape(part))
  }

  function Flush(part: string, rest: Option<seq<string>>): Option<seq<string>> {
    if part == "" then rest
    else if Entry(part).None? || rest.None? then None
    else Some([Entry(part).value] + rest.value)
  }

  /** The splitting of `s` when `part` has been collected and `q` says whether a quote is open. */
  function Scan(s: string, q: bool, part: string): Option<seq<string>>
    decreases |s|
  {
    if s == "" then Flush(part, Some([]))
    else
      var q' := q != (s[0] == '"');
      if !q' && s[0] == ' ' then Flush(part, Scan(s[1..], q', ""))
      else Scan(s[1..], q', part + [s[0]])
  }

  function Prepend(st: seq<string>, r: Option<seq<string>>): Option<seq<string>> {
    if r.None? then None else Some(st + r.value)
  }

  lemma PrependNothing(r: Option<seq<string>>)
    ensures Prepend([], r) == r
  {
    if r.Some? {
      assert [] + r.value == r.value;
    }
  }

  lemma PrependFlush(st: seq<string>, part: string, r: Option<seq<string>>)
    requires part != "" && Entry(part).Some?
    ensures Prepend(st, Flush(part, r)) == Prepend(st + [Entry(part).value], r)
  {
    if r.Some? {
      assert st + ([Entry(part).value] + r.value) == (st + [Entry(part).value]) + r.value;
    }
  }

  lemma ScanStep(data: string, itr: nat, q: bool, part: string)
    requires itr < |data|
    ensures var q' := q != (data[itr] == '"');
            Scan(data[itr..], q, part) ==
            if !q' && data[itr] == ' ' then Flush(part, Scan(data[itr + 1..], q', ""))
            else Scan(data[itr + 1..], q', part + [data[itr]])
  {
    assert data[itr..][0] == data[itr] && data[itr..][1..] == data[itr + 1..];
  }

  method BuildArgs(data: string) returns (r: Option<seq<string>>)
    ensures r == Scan(data, false, "")
  {
    var st: seq<string>, inQuote, partBeg, itr := [], false, 0, 0;
    assert data[0..] == data && data[0..0] == "";
    PrependNothing(Scan(data, false, ""));
    while itr != |data|
      invariant 0 <= partBeg <= itr <= |data|
      invariant Scan(data, false, "") == Prepend(st, Scan(data[itr..], inQuote, data[partBeg..itr]))
      invariant itr > 0 && data[itr - 1] == ' ' && !inQuote ==> partBeg == itr
      invariant partBeg == itr ==> itr == 0 || data[itr - 1] == ' '
      decreases |data| - itr
    {
      ghost var part := data[partBeg..itr];
      ScanStep(data, itr, inQuote, part);
      assert data[partBeg..itr + 1] == part + [data[itr]] && data[itr + 1..itr + 1] == "";
      if data[itr] == '"' {
        inQuote := !inQuote;
      }
      if !inQuote && data[itr] == ' ' {
        if itr != 0 && data[itr - 1] != ' ' {
          var entry := Entry(data[partBeg..itr]);
          if entry.None? {
            return None;
          }
          PrependFlush(st, part, Scan(data[itr + 1..], inQuote, ""));
          st := st + [entry.value];
        }
        partBeg := itr + 1;
      }
      itr := itr + 1;
    }
    if partBeg != itr {
      var entry := Entry(data[partBeg..itr]);
      if entry.None? {
        return None;
      }
      PrependFlush(st, data[partBeg..itr], Some([]));
      st := st + [entry.value];
    }
    assert st + [] == st;
    r := Some(st);
  }

  // ---- quotes and spaces ------------------------------------------------------------------------

  /** The quote state after `s`, entered with `q`. */
  function After(s: string, q: bool): bool {
    if s == "" then q else After(s[1..], q != (s[0] == '"'))
  }

  /** No space of `s`, entered with quote state `q`, ends a part. */
  predicate Solid(s: string, q: bool) {
    s == "" ||
    var q' := q != (s[0] == '"');
    (s[0] == ' ' ==> q') && Solid(s[1..], q')
  }

  lemma {:induction false} AfterCounts(s: string, q: bool)
    ensures After(s, q) == (q != (Quotes(s) % 2 == 1))
  {
    if s != "" {
      AfterCounts(s[1..], q != (s[0] == '"'));
    }
  }

  lemma {:induction false} SolidMeans(s: string, q: bool)
    ensures Solid(s, q) <==> forall i :: 0 <= i < |s| && s[i] == ' ' ==> After(s[..i], q)
  {
    if s != "" {
      var q' := q != (s[0] == '"');
      SolidMeans(s[1..], q');
      assert s[0] == ' ' ==> After(s[..0], q) == q';
      forall i | 0 < i < |s|
        ensures s[1..][i - 1] == s[i] && After(s[..i], q) == After(s[1..][..i - 1], q')
      {
        assert s[..i][1..] == s[1..][..i - 1];
      }
      assert forall i :: 0 <= i < |s| - 1 ==> After(s[1..][..i], q') == After(s[..i + 1], q);
    }
  }

  lemma EscapeStep(c: char, t: string, q: bool)
    ensures var q' := q != (c == '"');
            Solid(Mark(c) + t, q) == ((c == ' ' ==> q') && Solid(t, q')) &&
            After(Mark(c) + t, q) == After(t, q')
  {
    var m := Mark(c) + t;
    if c == '"' {
      assert m[1..] == "\"" + t && ("\"" + t)[1..] == t;
    } else {
      assert m[1..] == t;
    }
  }

  lemma {:induction false} EscapeKeepsQuotes(a: string, q: bool)
    ensures Solid(Escape(a), q) == Solid(a, q) && After(Escape(a), q) == After(a, q)
    decreases a
  {
    if a != "" {
      EscapeKeepsQuotes(a[1..], q != (a[0] == '"'));
      EscapeStep(a[0], Escape(a[1..]), q);
    }
  }

  /** A text in which no space ends a part is collected whole. */
  lemma {:induction false} Advance(u: string, rest: string, q: bool, part: string)
    requires Solid(u, q)
    ensures Scan(u + rest, q, part) == Scan(rest, After(u, q), part + u)
    decreases u
  {
    if u == "" {
      assert u + rest == rest && part + u == part;
    } else {
      Advance(u[1..], rest, q != (u[0] == '"'), part + [u[0]]);
      assert (u + rest)[1..] == u[1..] + rest;
      assert (part + [u[0]]) + u[1..] == part + u;
    }
  }

  /** Whatever follows, the first entry begins with the part collected so far. */
  lemma {:induction false} FirstEntry(s: string, q: bool, part: string) returns (z: string)
    requires part != ""
    ensures Scan(s, q, part).Some? ==>
      Entry(part + z).Some? && Scan(s, q, part).value != [] && Scan(s, q, part).value[0] == Entry(part + z).value
    decreases |s|
  {
    z := "";
    assert part + "" == part;
    if s != "" {
      var q' := q != (s[0] == '"');
      if q' || s[0] != ' ' {
        z := FirstEntry(s[1..], q', part + [s[0]]);
        assert (part + [s[0]]) + z == part + ([s[0]] + z);
        z := [s[0]] + z;
      }
    }
  }

  lemma {:induction false} FirstBreak(a: string, q: bool) returns (u: string, v: string)
    requires !Solid(a, q)
    ensures a == u + " " + v && Solid(u, q) && !After(u, q)
    decreases a
  {
    var q' := q != (a[0] == '"');
    if a[0] == ' ' && !q' {
      u, v := "", a[1..];
    } else {
      var w;
      w, v := FirstBreak(a[1..], q');
      u := [a[0]] + w;
      assert u[1..] == w;
    }
  }

  // ---- counting spaces --------------------------------------------------------------------------

  function Spaces(s: string): nat {
    if s == "" then 0 else (if s[0] == ' ' then 1 else 0) + Spaces(s[1..])
  }

  function AllSpaces(r: seq<string>): nat {
    if r == [] then 0 else Spaces(r[0]) + AllSpaces(r[1..])
  }

  /** The spaces of `s` that end a part. */
  function Breaks(s: string, q: bool): nat {
    if s == "" then 0
    else
      var q' := q != (s[0] == '"');
      (if !q' && s[0] == ' ' then 1 else 0) + Breaks(s[1..], q')
  }

  lemma {:induction false} SpacesConcat(u: string, v: string)
    ensures Spaces(u + v) == Spaces(u) + Spaces(v)
    decreases u
  {
    if u == "" {
      assert u + v == v;
    } else {
      SpacesConcat(u[1..], v);
      assert (u + v)[1..] == u[1..] + v;
    }
  }

  lemma {:induction false} EscapeSpaces(a: string)
    ensures Spaces(Escape(a)) == Spaces(a)
    decreases a
  {
    if a != "" {
      EscapeSpaces(a[1..]);
      SpacesConcat(Mark(a[0]), Escape(a[1..]));
      assert Mark('"')[1..] == "\"";
    }
  }

  lemma {:induction false} UnescapeSpaces(s: string)
    ensures Spaces(Unescape(s)) == Spaces(s)
    decreases s
  {
    if s == "" {
    } else if |s| >= 2 && s[0] == '\\' && s[1] == '"' {
      UnescapeSpaces(s[2..]);
      assert s[1..][1..] == s[2..];
    } else {
      UnescapeSpaces(s[1..]);
    }
  }

  lemma EntrySpaces(part: string)
    requires part != "" && Entry(part).Some?
    ensures Spaces(Entry(part).value) == Spaces(part)
  {
    UnescapeSpaces(part);
    if part[0] == '"' && part[|part| - 1] == '"' {
      ghost var inner := part[1..|part| - 1];
      UnescapeSpaces(inner);
      assert part == "\"" + (inner + "\"");
      SpacesConcat("\"", inner + "\"");
      SpacesConcat(inner, "\"");
    }
  }

  lemma QuotedSpaces(a: string)
    ensures Spaces(Quoted(a)) == Spaces(a)
  {
    QuotedShape(a);
    EscapeSpaces(a);
    SpacesConcat("\"" + Escape(a), "\"");
    SpacesConcat("\"", Escape(a));
  }

  lemma {:induction false} TailSpaces(args: seq<string>)
    ensures Spaces(Tail(args)) == AllSpaces(args) + |args|
    decreases |args|
  {
    if args != [] {
      ghost var q, t := Quoted(args[0]), Tail(args[1..]);
      TailSpaces(args[1..]);
      QuotedSpaces(args[0]);
      SpacesConcat(" ", q + t);
      SpacesConcat(q, t);
    }
  }

  /** The parser loses only the spaces at which it cuts, and every cut yields at most one entry more. */
  lemma {:induction false} ScanSpaces(s: string, q: bool, part: string)
    requires Scan(s, q, part).Some?
    ensures AllSpaces(Scan(s, q, part).value) + Breaks(s, q) == Spaces(part) + Spaces(s)
    ensures |Scan(s, q, part).value| <= Breaks(s, q) + 1
    decreases |s|
  {
    var r := Scan(s, q, part).value;
    if s == "" {
      FlushSpaces(part, []);
    } else {
      var q' := q != (s[0] == '"');
      if !q' && s[0] == ' ' {
        var rest := Scan(s[1..], q', "");
        ScanSpaces(s[1..], q', "");
        FlushSpaces(part, rest.value);
      } else {
        ScanSpaces(s[1..], q', part + [s[0]]);
        SpacesConcat(part, [s[0]]);
      }
    }
  }

  lemma FlushSpaces(part: string, rest: seq<string>)
    requires Flush(part, Some(rest)).Some?
    ensures AllSpaces(Flush(part, Some(rest)).value) == Spaces(part) + AllSpaces(rest)
  {
    if part != "" {
      EntrySpaces(part);
      assert ([Entry(part).value] + rest)[1..] == rest;
    }
  }

  // ---- the first word ---------------------------------------------------------------------------

  /** The first entry has the spaces of the first word only if the parser cuts exactly behind that word.
      `q` is the word as printed, `a` the word as given, and `t` what follows. */
  lemma FirstWord(q: string, a: string, t: string)
    requires q != "" && q[0] != ' ' && Spaces(q) == Spaces(a) && (t == "" || t[0] == ' ')
    ensures var r := Scan(q + t, false, "");
            if Solid(q, false) && (t == "" || !After(q, false)) then
              r == Flush(q, if t == "" then Some([]) else Scan(t[1..], false, ""))
            else r.Some? ==> r.value != [] && r.value[0] != a
  {
    if !Solid(q, false) {
      CutInside(q, a, t);
    } else {
      Advance(q, t, false, "");
      assert "" + q == q;
      if t != "" && After(q, false) {
        var w := SpaceSwallowed(q, t);
        SpacesConcat(q + " ", w);
        SpacesConcat(q, " ");
        if Entry(q + " " + w).Some? {
          EntrySpaces(q + " " + w);
        }
      }
    }
  }

  lemma SpaceSwallowed(q: string, t: string) returns (w: string)
    requires t != "" && t[0] == ' '
    ensures var r := Scan(t, true, q);
            r.Some? ==> Entry(q + " " + w).Some? && r.value != [] && r.value[0] == Entry(q + " " + w).value
  {
    w := FirstEntry(t[1..], true, q + " ");
  }

  lemma CutInside(q: string, a: string, t: string)
    requires q != "" && q[0] != ' ' && Spaces(q) == Spaces(a) && !Solid(q, false)
    ensures var r := Scan(q + t, false, "");
            r.Some? ==> r.value != [] && r.value[0] != a
  {
    var u, v := FirstBreak(q, false);
    Regroup(u, v, t);
    ScanCut(u, v + t);
    SpacesConcat(u + " ", v);
    SpacesConcat(u, " ");
    assert (u + " " + v)[|u|] == ' ';
    if Entry(u).Some? {
      EntrySpaces(u);
    }
  }

  lemma ScanCut(u: string, rest: string)
    requires Solid(u, false) && !After(u, false)
    ensures Scan(u + (" " + rest), false, "") == Flush(u, Scan(rest, false, ""))
  {
    Advance(u, " " + rest, false, "");
    assert "" + u == u && (" " + rest)[1..] == rest;
  }

  /** A line that starts with a space yields too few entries to hold one for each of `es`. */
  lemma SpaceFirst(s: string, es: seq<string>)
    requires s != "" && s[0] == ' ' && Spaces(s) < AllSpaces(es) + |es|
    ensures Scan(s, false, "") != Some(es)
  {
    if Scan(s[1..], false, "").Some? {
      ScanSpaces(s[1..], false, "");
    }
  }

  // ---- the arguments ----------------------------------------------------------------------------

  /** An even number of quotes before each space, and an even number in all unless the text is the last
      one. */
  predicate Even(a: string, last: bool) {
    (forall i :: 0 <= i < |a| && a[i] == ' ' ==> Quotes(a[..i]) % 2 == 0) &&
    (last || Quotes(a) % 2 == 0)
  }

  /** What an argument must be to come back. */
  predicate Kept(a: string, last: bool) {
    a != "" && Even(a, last)
  }

  lemma EvenMeans(a: string, last: bool)
    ensures Even(a, last) <==> Solid(a, true) && (last || !After(a, false))
  {
    SolidMeans(a, true);
    forall i | 0 <= i < |a| && a[i] == ' '
      ensures After(a[..i], true) <==> Quotes(a[..i]) % 2 == 0
    {
      AfterCounts(a[..i], true);
    }
    AfterCounts(a, false);
  }

  lemma {:induction false} SolidConcat(u: string, v: string, q: bool)
    ensures Solid(u + v, q) == (Solid(u, q) && Solid(v, After(u, q)))
    ensures After(u + v, q) == After(v, After(u, q))
    decreases u
  {
    if u == "" {
      assert u + v == v;
    } else {
      SolidConcat(u[1..], v, q != (u[0] == '"'));
      assert (u + v)[1..] == u[1..] + v;
    }
  }

  lemma OpeningQuote(e: string)
    ensures Solid("\"" + e, false) == Solid(e, true) && After("\"" + e, false) == After(e, true)
  {
    assert ("\"" + e)[1..] == e;
  }

  lemma QuotedShape(a: string)
    ensures ' ' in a ==> Quoted(a) == "\"" + Escape(a) + "\""
    ensures ' ' !in a ==> Quoted(a) == Escape(a)
  {
    EscapeKeepsSpaces(a);
  }

  lemma QuotedSolid(a: string)
    ensures Solid(Quoted(a), false) == Solid(a, true) && After(Quoted(a), false) == After(a, false)
  {
    QuotedShape(a);
    if ' ' in a {
      ghost var e := Escape(a);
      EscapeKeepsQuotes(a, true);
      OpeningQuote(e);
      AfterCounts(a, true);
      AfterCounts(a, false);
      SolidConcat("\"" + e, "\"", false);
    } else {
      EscapeKeepsQuotes(a, false);
      SolidMeans(a, false);
      SolidMeans(a, true);
    }
  }

  lemma QuotedEntry(a: string)
    requires a != ""
    ensures Quoted(a) != "" && Quoted(a)[0] != ' ' && Entry(Quoted(a)) == Some(a)
  {
    QuotedShape(a);
    EscapeShape(a);
    UnescapeEscape(a);
    ghost var e := Escape(a);
    if ' ' in a {
      assert ("\"" + e + "\"")[1..|e| + 1] == e;
    } else {
      assert a[0] in a;
    }
  }

  predicate AllKept(args: seq<string>) {
    forall i :: 0 <= i < |args| ==> Kept(args[i], i == |args| - 1)
  }

  lemma AllKeptCons(args: seq<string>)
    requires args != []
    ensures AllKept(args) <==> Kept(args[0], |args| == 1) && AllKept(args[1..])
  {
    if Kept(args[0], |args| == 1) && AllKept(args[1..]) {
      forall i | 0 <= i < |args| ensures Kept(args[i], i == |args| - 1) {
        if i > 0 {
          assert Kept(args[1..][i - 1], i - 1 == |args[1..]| - 1);
        }
      }
    }
    if AllKept(args) {
      forall i | 0 <= i < |args| - 1 ensures Kept(args[1..][i], i == |args[1..]| - 1) {
        assert Kept(args[i + 1], i + 1 == |args| - 1);
      }
    }
  }

  lemma ConsSame(a: string, r: seq<string>, rest: seq<string>)
    ensures [a] + r == [a] + rest <==> r == rest
  {
    assert ([a] + r)[1..] == r && ([a] + rest)[1..] == rest;
  }

  lemma {:induction false} TextRecovered(args: seq<string>)
    requires args != []
    ensures Scan(Text(args), false, "") == Some(args) <==> AllKept(args)
    decreases |args|
  {
    ghost var a, rest, t := args[0], args[1..], Tail(args[1..]);
    assert args == [a] + rest && (rest == [] ==> args == [a]);
    EvenMeans(a, |args| == 1);
    AllKeptCons(args);
    TailSpaces(rest);
    if a == "" {
      assert Quoted("") == "" && Text(args) == t;
      if rest != [] {
        SpaceFirst(t, args);
      }
    } else {
      QuotedSolid(a);
      QuotedEntry(a);
      QuotedSpaces(a);
      FirstWord(Quoted(a), a, t);
      if rest != [] {
        assert t[1..] == Text(rest);
        TextRecovered(rest);
        ghost var r := Scan(Text(rest), false, "");
        if r.Some? {
          ConsSame(a, r.value, rest);
        }
      }
    }
  }

  // ---- the command ------------------------------------------------------------------------------

  predicate HoldsMark(s: string) {
    exists i :: 0 <= i < |s| - 1 && s[i] == '\\' && s[i + 1] == '"'
  }

  lemma {:induction false} UnescapeSame(s: string)
    ensures |Unescape(s)| <= |s| && (Unescape(s) == s <==> !HoldsMark(s))
    decreases s
  {
    if s == "" {
    } else if |s| >= 2 && s[0] == '\\' && s[1] == '"' {
      UnescapeSame(s[2..]);
      assert HoldsMark(s);
    } else {
      UnescapeSame(s[1..]);
      assert s == [s[0]] + s[1..];
      if HoldsMark(s) {
        var i :| 0 <= i < |s| - 1 && s[i] == '\\' && s[i + 1] == '"';
        assert i > 0 && s[1..][i - 1] == '\\' && s[1..][i - 1 + 1] == '"';
      }
      if HoldsMark(s[1..]) {
        var i :| 0 <= i < |s[1..]| - 1 && s[1..][i] == '\\' && s[1..][i + 1] == '"';
        assert s[i + 1] == '\\' && s[i + 1 + 1] == '"';
      }
      assert ([s[0]] + Unescape(s[1..]))[1..] == Unescape(s[1..]);
    }
  }

  /** What a command must be to come back, since the printer neither quotes nor escapes it: not empty,
      every space after an odd number of quotes, an even number in all when arguments follow, not
      enclosed in quotes, and no quote after a backslash. */
  predicate CommandKept(exe: string, last: bool) {
    exe != "" &&
    (forall i :: 0 <= i < |exe| && exe[i] == ' ' ==> Quotes(exe[..i]) % 2 == 1) &&
    (last || Quotes(exe) % 2 == 0) &&
    !(exe[0] == '"' && exe[|exe| - 1] == '"') && !HoldsMark(exe)
  }

  lemma EntryWhole(exe: string)
    requires exe != ""
    ensures Entry(exe) == Some(exe) <==> !(exe[0] == '"' && exe[|exe| - 1] == '"') && !HoldsMark(exe)
  {
    UnescapeSame(exe);
    if |exe| >= 2 {
      UnescapeSame(exe[1..|exe| - 1]);
    }
  }

  lemma CommandMeans(exe: string, last: bool)
    requires exe != ""
    ensures CommandKept(exe, last) <==>
            Solid(exe, false) && (last || !After(exe, false)) && Entry(exe) == Some(exe)
  {
    SolidMeans(exe, false);
    forall i | 0 <= i < |exe| && exe[i] == ' '
      ensures After(exe[..i], false) <==> Quotes(exe[..i]) % 2 == 1
    {
      AfterCounts(exe[..i], false);
    }
    AfterCounts(exe, false);
    EntryWhole(exe);
  }

  lemma {:induction false} PrintedEmpty(args: seq<string>)
    ensures var s := Shell("", args);
            if args == [] then s == "" else Spaces(s) < AllSpaces(args) + |args|
  {
    if args != [] {
      var a, rest := args[0], args[1..];
      QuotedSpaces(a);
      assert "" + Quoted(a) == Quoted(a);
      if Quoted(a) == "" {
        PrintedEmpty(rest);
      } else {
        ShellIsTail(Quoted(a), rest);
        SpacesConcat(Quoted(a), Tail(rest));
        TailSpaces(rest);
      }
    }
  }

  /** An empty command never comes back. */
  lemma EmptyCommand(args: seq<string>)
    ensures Scan(Shell("", args), false, "") != Some([""] + args)
  {
    ghost var s, es := Shell("", args), [""] + args;
    PrintedEmpty(args);
    assert es[1..] == args;
    if Scan(s, false, "").Some? {
      ScanSpaces(s, false, "");
    }
  }

  /** Parsing a printed command line gives the command and its arguments back exactly when the command
      satisfies `CommandKept` and every argument satisfies `Kept`. */
  lemma RoundTripIff(exe: string, args: seq<string>)
    ensures Scan(Shell(exe, args), false, "") == Some([exe] + args) <==>
            CommandKept(exe, args == []) && AllKept(args)
  {
    if exe == "" {
      EmptyCommand(args);
    } else {
      ghost var t, es := Tail(args), [exe] + args;
      ShellIsTail(exe, args);
      CommandMeans(exe, args == []);
      TailSpaces(args);
      SpacesConcat(exe, t);
      assert es[0] == exe && es[1..] == args;
      if exe[0] == ' ' {
        SpaceFirst(exe + t, es);
      } else {
        FirstWord(exe, exe, t);
        WholeCommand(exe, args);
      }
    }
  }

  lemma WholeCommand(exe: string, args: seq<string>)
    requires exe != ""
    ensures var t := Tail(args);
            Flush(exe, if t == "" then Some([]) else Scan(t[1..], false, "")) == Some([exe] + args) <==>
            Entry(exe) == Some(exe) && AllKept(args)
  {
    assert [exe] + [] == [exe];
    if args != [] {
      TextRecovered(args);
      assert Tail(args)[1..] == Text(args);
    }
    ghost var r := if args == [] then Some([]) else Scan(Text(args), false, "");
    if r.Some? && Entry(exe).Some? {
      ghost var got := [Entry(exe).value] + r.value;
      assert got[0] == Entry(exe).value && got[1..] == r.value;
      assert ([exe] + args)[0] == exe && ([exe] + args)[1..] == args;
    }
  }
}
