/** The Windows command line: `escaped_argv_length`, `escape_argv_string` and `build_command_line`, and a
    splitter of command lines that gives the executable and its arguments back. */
module WindowsCommand {
  import opened QuoteText
  import opened Wrappers

  // ---- the printer ------------------------------------------------------------------------------

  predicate Enclosed(a: string)
    requires a != ""
  {
    a[0] == '"' && a[|a| - 1] == '"'
  }

  predicate NeedsEscape(a: string) {
    a != "" && ' ' in a && !Enclosed(a)
  }

  function Escaped(a: string): string {
    if a == "" then "\"\""
    else if !NeedsEscape(a) then a
    else "\"" + Escape(a) + "\""
  }

  /** An element without spaces, unless it is empty, and one that is enclosed already are copied. */
  lemma CopiedAsIs(u: string)
    ensures u != "" && ' ' !in u ==> Escaped(u) == u
    ensures Escaped("\"" + u + "\"") == "\"" + u + "\""
  {
  }

  /** Any other one is wrapped: between the outer quotes every quote follows a backslash, and removing
      those backslashes gives the element. */
  lemma WrappedIff(e: string, t: string)
    requires ' ' in e && (e[0] != '"' || e[|e| - 1] != '"')
    ensures Escaped(e) == "\"" + t + "\"" <==> AllMarked(t) && Unescape(t) == e
  {
    EscapeIff(e, t);
    EscapedWrapped(e);
    BetweenQuotes(t, Escape(e));
  }

  lemma BetweenQuotes(t: string, u: string)
    ensures "\"" + t + "\"" == "\"" + u + "\"" <==> t == u
  {
    ghost var w, v := "\"" + t + "\"", "\"" + u + "\"";
    assert w[1..|w| - 1] == t && v[1..|v| - 1] == u;
  }

  function EscapedArgvLength(a: string): nat {
    if a == "" then 2
    else if !NeedsEscape(a) then |a|
    else |a| + Quotes(a) + 2
  }

  lemma {:induction false} EscapeLength(a: string)
    ensures |Escape(a)| == |a| + Quotes(a)
  {
    if a != "" {
      EscapeLength(a[1..]);
    }
  }

  /** The length announced is the length written. */
  lemma LengthExact(a: string)
    ensures EscapedArgvLength(a) == |Escaped(a)|
  {
    EscapeLength(a);
  }

  /** The executable and the arguments, separated by single spaces. */
  function CommandLine(es: seq<string>): string
    requires es != []
  {
    if |es| == 1 then Escaped(es[0]) else Escaped(es[0]) + " " + CommandLine(es[1..])
  }

  method PutChar(out: array<char>, itr: nat, c: char) returns (next: nat)
    requires itr < out.Length
    modifies out
    ensures next == itr + 1
    ensures out[..] == old(out[..itr]) + [c] + old(out[itr + 1..])
  {
    out[itr] := c;
    next := itr + 1;
  }

  /** `std::copy` of the whole argument. */
  method CopyArg(out: array<char>, start: nat, ws: string) returns (itr: nat)
    requires start + |ws| <= out.Length
    modifies out
    ensures itr == start + |ws|
    ensures out[..] == old(out[..start]) + ws + old(out[itr..])
  {
    ghost var before := out[..];
    itr := start;
    var i := 0;
    assert before == before[..start] + ws[..0] + before[start..];
    while i < |ws|
      invariant 0 <= i <= |ws| && itr == start + i
      invariant out[..] == before[..start] + ws[..i] + before[itr..]
    {
      ghost var cur := out[..];
      itr := PutChar(out, itr, ws[i]);
      Written(before, cur, out[..], ws[..i], [ws[i]], start, itr - 1, itr);
      assert ws[..i + 1] == ws[..i] + [ws[i]];
      i := i + 1;
    }
    assert ws[..i] == ws;
  }

  /** The body of the character loop: a quote is preceded by a backslash. */
  method PutMarked(out: array<char>, start: nat, c: char) returns (itr: nat)
    requires start + |Mark(c)| <= out.Length
    modifies out
    ensures itr == start + |Mark(c)|
    ensures out[..] == old(out[..start]) + Mark(c) + old(out[itr..])
  {
    ghost var before, done: string := out[..], "";
    itr := start;
    assert before == before[..start] + done + before[start..];
    if c == '"' {
      itr := PutChar(out, itr, '\\');
      done := "\\";
    }
    ghost var cur, at := out[..], itr;
    itr := PutChar(out, itr, c);
    Written(before, cur, out[..], done, [c], start, at, itr);
    assert done + [c] == Mark(c);
  }

  lemma EscapeSnoc(a: string, i: nat)
    requires i < |a|
    ensures Escape(a[..i + 1]) == Escape(a[..i]) + Mark(a[i])
    ensures |Escape(a[..i + 1])| <= |Escape(a)|
  {
    assert a[..i + 1] == a[..i] + [a[i]];
    EscapeConcat(a[..i], [a[i]]);
    assert Escape([a[i]]) == Mark(a[i]) + "" == Mark(a[i]);
    assert a == a[..i + 1] + a[i + 1..];
    EscapeConcat(a[..i + 1], a[i + 1..]);
  }

  method PutEscaped(out: array<char>, start: nat, ws: string) returns (itr: nat)
    requires start + |Escape(ws)| <= out.Length
    modifies out
    ensures itr == start + |Escape(ws)|
    ensures out[..] == old(out[..start]) + Escape(ws) + old(out[itr..])
  {
    ghost var before := out[..];
    itr := start;
    var i := 0;
    assert before == before[..start] + Escape(ws[..0]) + before[start..];
    while i < |ws|
      invariant 0 <= i <= |ws| && itr == start + |Escape(ws[..i])| <= out.Length
      invariant out[..] == before[..start] + Escape(ws[..i]) + before[itr..]
    {
      ghost var done, cur := itr, out[..];
      EscapeSnoc(ws, i);
      itr := PutMarked(out, itr, ws[i]);
      Written(before, cur, out[..], Escape(ws[..i]), Mark(ws[i]), start, done, itr);
      i := i + 1;
    }
    assert ws[..i] == ws;
  }

  method PutQuoted(out: array<char>, start: nat, ws: string) returns (itr: nat)
    requires start + |Escape(ws)| + 2 <= out.Length
    modifies out
    ensures itr == start + |Escape(ws)| + 2
    ensures out[..] == old(out[..start]) + ("\"" + Escape(ws) + "\"") + old(out[itr..])
  {
    ghost var before, e := out[..], Escape(ws);
    itr := PutChar(out, start, '"');
    itr := PutEscaped(out, itr, ws);
    assert out[..] == before[..start] + "\"" + e + before[itr..];
    itr := PutChar(out, itr, '"');
    assert out[..] == before[..start] + "\"" + e + "\"" + before[itr..];
    AssociateThree(before[..start], "\"", e, "\"", before[itr..]);
  }

  lemma AssociateThree(a: string, b: string, c: string, d: string, e: string)
    ensures a + b + c + d + e == a + (b + c + d) + e
  {
  }

  /** The three ways to write an argument once there is room for it. */
  method PutArg(out: array<char>, start: nat, ws: string) returns (itr: nat)
    requires start + |Escaped(ws)| <= out.Length
    modifies out
    ensures itr == start + |Escaped(ws)|
    ensures out[..] == old(out[..start]) + Escaped(ws) + old(out[itr..])
  {
    if ws == "" {
      assert Escaped(ws) == "\"\"";
      itr := CopyArg(out, start, "\"\"");
    } else if !NeedsEscape(ws) {
      assert Escaped(ws) == ws;
      itr := CopyArg(out, start, ws);
    } else {
      EscapedWrapped(ws);
      itr := PutQuoted(out, start, ws);
    }
  }

  /** Either the text fits and exactly it is written at `start`, or nothing is. */
  method EscapeArgvString(out: array<char>, start: nat, maxSize: nat, ws: string) returns (n: nat)
    requires start + maxSize <= out.Length
    modifies out
    ensures |Escaped(ws)| > maxSize ==> n == 0 && out[..] == old(out[..])
    ensures |Escaped(ws)| <= maxSize ==>
      n == |Escaped(ws)| && out[..] == old(out[..start]) + Escaped(ws) + old(out[start + n..])
  {
    LengthExact(ws);
    var sz := EscapedArgvLength(ws);
    if sz > maxSize {
      return 0;
    }
    var itr := PutArg(out, start, ws);
    n := itr - start;
  }

  lemma EscapedWrapped(ws: string)
    requires NeedsEscape(ws)
    ensures Escaped(ws) == "\"" + Escape(ws) + "\"" && |Escaped(ws)| == |Escape(ws)| + 2
  {
  }

  lemma {:induction false} CommandLineSnoc(es: seq<string>, a: string)
    requires es != []
    ensures CommandLine(es + [a]) == CommandLine(es) + " " + Escaped(a)
    decreases |es|
  {
    ghost var all, e := es + [a], Escaped(es[0]);
    if |es| == 1 {
      assert all[1..] == [a] && [a][0] == a && |[a]| == 1;
    } else {
      ghost var line := CommandLine(es[1..]);
      CommandLineSnoc(es[1..], a);
      assert all[1..] == es[1..] + [a];
      Associate(e + " ", line + " ", Escaped(a));
      Associate(e + " ", line, " ");
    }
  }

  /** The fold over the arguments that sizes the result. */
  method RequiredSize(pt: string, argv: seq<string>) returns (size: nat)
    ensures size == |CommandLine([pt] + argv)|
  {
    ghost var es := [pt] + argv;
    LengthExact(pt);
    assert es[..1] == [pt];
    size := EscapedArgvLength(pt);
    for i := 0 to |argv|
      invariant size == |CommandLine(es[..i + 1])|
    {
      LengthExact(argv[i]);
      PrefixFits(es, i + 1);
      assert es[i + 1] == argv[i];
      size := size + 1 + EscapedArgvLength(argv[i]);
    }
    assert es[..|argv| + 1] == es;
  }

  lemma {:induction false} PrefixFits(es: seq<string>, i: nat)
    requires 0 < i <= |es|
    ensures |CommandLine(es[..i])| <= |CommandLine(es)|
    ensures i < |es| ==> CommandLine(es[..i + 1]) == CommandLine(es[..i]) + " " + Escaped(es[i])
    ensures i < |es| ==> |CommandLine(es[..i + 1])| <= |CommandLine(es)|
    decreases |es| - i
  {
    if i == |es| {
      assert es[..i] == es;
    } else {
      PrefixFits(es, i + 1);
      CommandLineSnoc(es[..i], es[i]);
      assert es[..i + 1] == es[..i] + [es[i]];
    }
  }

  /** One argument: the separator is already in the buffer, which was filled with spaces. */
  method AppendArg(out: array<char>, start: nat, ghost line: string, ws: string) returns (itr: nat)
    requires start == |line| && start + 1 + |Escaped(ws)| <= out.Length
    requires out[..start] == line
    requires forall k :: start <= k < out.Length ==> out[k] == ' '
    modifies out
    ensures itr == start + 1 + |Escaped(ws)|
    ensures out[..itr] == line + " " + Escaped(ws)
    ensures forall k :: itr <= k < out.Length ==> out[k] == ' '
  {
    ghost var before := out[..];
    var next := start + 1;
    assert before[..next] == line + " ";
    var n := EscapeArgvString(out, next, out.Length - next, ws);
    itr := next + n;
    assert out[..itr] == before[..next] + Escaped(ws);
  }

  /** The buffer is sized once and filled exactly: no call runs short, nothing is written outside it,
      and the last argument ends at its end. */
  method BuildCommandLine(pt: string, argv: seq<string>) returns (res: array<char>)
    ensures fresh(res)
    ensures res[..] == CommandLine([pt] + argv)
  {
    ghost var es := [pt] + argv;
    var reqSize := RequiredSize(pt, argv);
    res := new char[reqSize](_ => ' ');
    PrefixFits(es, 1);
    assert es[..1] == [pt] && CommandLine([pt]) == Escaped(pt);
    var itr := EscapeArgvString(res, 0, res.Length, pt);
    var i := 0;
    while i < |argv|
      invariant 0 <= i <= |argv|
      invariant itr == |CommandLine(es[..i + 1])| <= res.Length
      invariant res[..itr] == CommandLine(es[..i + 1])
      invariant forall k :: itr <= k < res.Length ==> res[k] == ' '
    {
      ghost var line := CommandLine(es[..i + 1]);
      PrefixFits(es, i + 1);
      assert es[i + 1] == argv[i];
      itr := AppendArg(res, itr, line, argv[i]);
      i := i + 1;
    }
    assert es[..i + 1] == es;
  }

  // ---- the splitter -----------------------------------------------------------------------------

  /** Unquoted spaces separate, a quote toggles quoting, and a backslash before a quote makes it a
      character. `begun` says whether the current word, of which `part` is known, has begun. */
  function Split(s: string, q: bool, part: string, begun: bool): seq<string>
    decreases |s|
  {
    if s == "" then Word(part, begun)
    else if |s| > 1 && s[0] == '\\' && s[1] == '"' then Split(s[2..], q, part + "\"", true)
    else if s[0] == '"' then Split(s[1..], !q, part, true)
    else if s[0] == ' ' && !q then Word(part, begun) + Split(s[1..], false, "", false)
    else Split(s[1..], q, part + [s[0]], true)
  }

  function Word(part: string, begun: bool): seq<string> {
    if begun then [part] else []
  }

  /** What an element must be to come back: if it is wrapped it does not end in a backslash, and if it
      is not it holds no quote. */
  predicate Recoverable(e: string) {
    if NeedsEscape(e) then e[|e| - 1] != '\\' else '"' !in e
  }

  /** A text the splitter cannot merge with what it follows. */
  predicate NoQuoteFirst(s: string) {
    s == "" || s[0] != '"'
  }

  lemma {:induction false} SplitPlain(u: string, rest: string, part: string)
    requires '"' !in u && ' ' !in u && NoQuoteFirst(rest)
    ensures u != "" ==> Split(u + rest, false, part, true) == Split(rest, false, part + u, true)
    decreases u
  {
    if u != "" {
      var t := u[1..] + rest;
      assert u + rest == [u[0]] + t && (u + rest)[1..] == t;
      assert u[0] in u && (u[1..] != "" ==> u[1] in u);
      assert NoQuoteFirst(t);
      SplitPlain(u[1..], rest, part + [u[0]]);
      assert (part + [u[0]]) + u[1..] == part + u;
      if u[1..] == "" {
        assert t == rest;
      }
    }
  }

  lemma SplitMark(c: char, t: string, part: string)
    requires c == '\\' ==> NoQuoteFirst(t)
    ensures Split(Mark(c) + t, true, part, true) == Split(t, true, part + [c], true)
  {
    ghost var s := Mark(c) + t;
    if c == '"' {
      assert s[0] == '\\' && s[1] == '"' && s[2..] == t;
    } else {
      assert s[0] == c && s[1..] == t && (t != "" ==> s[1] == t[0]);
    }
  }

  /** Inside quotes an escaped text is read back, unless its last character is a backslash and a quote
      follows. */
  lemma {:induction false} SplitEscaped(u: string, rest: string, part: string)
    requires NoQuoteFirst(rest) || u == "" || u[|u| - 1] != '\\'
    ensures Split(Escape(u) + rest, true, part, true) == Split(rest, true, part + u, true)
    decreases u
  {
    if u == "" {
      assert Escape(u) + rest == rest && part + u == part;
    } else {
      var t := Escape(u[1..]) + rest;
      Associate(Mark(u[0]), Escape(u[1..]), rest);
      EscapeShape(u[1..]);
      assert u[0] == '\\' ==> NoQuoteFirst(t);
      SplitMark(u[0], t, part);
      SplitEscaped(u[1..], rest, part + [u[0]]);
      assert (part + [u[0]]) + u[1..] == part + u;
    }
  }

  /** A recoverable element is read back whole when a space or the end follows. */
  lemma SplitOne(e: string, rest: string)
    requires Recoverable(e) && (rest == "" || rest[0] == ' ')
    ensures Split(Escaped(e) + rest, false, "", false) == Split(rest, false, e, true)
  {
    ghost var s := Escaped(e) + rest;
    if NeedsEscape(e) {
      SplitWrapped(e, rest);
    } else if e == "" {
      assert s[1..] == "\"" + rest && ("\"" + rest)[1..] == rest;
    } else {
      SplitUnwrapped(e, rest);
    }
  }

  lemma SplitUnwrapped(e: string, rest: string)
    requires e != "" && !NeedsEscape(e) && '"' !in e && (rest == "" || rest[0] == ' ')
    ensures Split(e + rest, false, "", false) == Split(rest, false, e, true)
  {
    ghost var c, t := e[0], e[1..];
    assert e == [c] + t && c in e;
    assert e + rest == [c] + (t + rest);
    if t == "" {
      assert t + rest == rest;
    } else {
      assert (t + rest)[0] == e[1] && e[1] in e;
      assert "" + [c] == [c] && [c] + t == e;
      SplitPlain(t, rest, [c]);
    }
    SplitFirst(c, t + rest);
  }

  lemma SplitFirst(c: char, s: string)
    requires c != '"' && c != ' ' && NoQuoteFirst(s)
    ensures Split([c] + s, false, "", false) == Split(s, false, [c], true)
  {
    ghost var all := [c] + s;
    assert all[1..] == s && (s != "" ==> all[1] == s[0]) && "" + [c] == [c];
  }

  lemma SplitWrapped(e: string, rest: string)
    requires NeedsEscape(e) && e[|e| - 1] != '\\'
    ensures Split(Escaped(e) + rest, false, "", false) == Split(rest, false, e, true)
  {
    ghost var t := "\"" + rest;
    WrappedText(e, rest);
    SplitQuote(Escape(e) + t, false, "", false);
    SplitEscaped(e, t, "");
    assert "" + e == e;
    SplitQuote(rest, true, e, true);
  }

  lemma WrappedText(e: string, rest: string)
    requires NeedsEscape(e)
    ensures Escaped(e) + rest == "\"" + (Escape(e) + ("\"" + rest))
  {
  }

  lemma SplitQuote(s: string, q: bool, part: string, begun: bool)
    ensures Split("\"" + s, q, part, begun) == Split(s, !q, part, true)
  {
    assert ("\"" + s)[1..] == s;
  }

  // ---- counting ---------------------------------------------------------------------------------

  /** The characters of all words and one separator each. */
  function Weight(es: seq<string>): nat {
    if es == [] then 0 else |es[0]| + 1 + Weight(es[1..])
  }

  function Stray(es: seq<string>): nat {
    if es == [] then 0 else (if NeedsEscape(es[0]) then 0 else Quotes(es[0])) + Stray(es[1..])
  }

  /** Every quote of a command line costs one of its characters. */
  lemma {:induction false} SplitWeight(s: string, q: bool, part: string, begun: bool)
    requires begun || part == ""
    ensures Weight(Split(s, q, part, begun)) + Quotes(s) <= |part| + |s| + 1
    decreases |s|
  {
    if s == "" {
      assert Word(part, begun)[..] == Word(part, begun);
    } else if |s| > 1 && s[0] == '\\' && s[1] == '"' {
      assert s[1..][1..] == s[2..];
      SplitWeight(s[2..], q, part + "\"", true);
    } else if s[0] == '"' {
      SplitWeight(s[1..], !q, part, true);
    } else if s[0] == ' ' && !q {
      SplitWeight(s[1..], false, "", false);
      var r := Split(s[1..], false, "", false);
      if begun {
        assert ([part] + r)[1..] == r;
      } else {
        assert [] + r == r;
      }
    } else {
      SplitWeight(s[1..], q, part + [s[0]], true);
    }
  }

  lemma {:induction false} EscapeQuotes(a: string)
    ensures Quotes(Escape(a)) == Quotes(a)
  {
    if a != "" {
      EscapeQuotes(a[1..]);
      QuotesConcat(Mark(a[0]), Escape(a[1..]));
      assert Mark('"')[1..] == "\"";
    }
  }

  lemma EscapedQuotes(e: string)
    ensures |Escaped(e)| - Quotes(Escaped(e)) == |e| - (if NeedsEscape(e) then 0 else Quotes(e))
  {
    if e == "" {
      assert "\"\""[1..] == "\"";
    } else if NeedsEscape(e) {
      EscapeLength(e);
      EscapeQuotes(e);
      QuotesConcat("\"" + Escape(e), "\"");
      QuotesConcat("\"", Escape(e));
    }
  }

  lemma {:induction false} LineWeight(es: seq<string>)
    requires es != []
    ensures |CommandLine(es)| + 1 - Quotes(CommandLine(es)) == Weight(es) - Stray(es)
    decreases |es|
  {
    EscapedQuotes(es[0]);
    if |es| == 1 {
      assert es[1..] == [];
    } else {
      LineWeight(es[1..]);
      QuotesConcat(Escaped(es[0]) + " ", CommandLine(es[1..]));
      QuotesConcat(Escaped(es[0]), " ");
    }
  }

  lemma {:induction false} NoQuotes(a: string)
    ensures Quotes(a) == 0 <==> '"' !in a
  {
    if a != "" {
      NoQuotes(a[1..]);
      assert a == [a[0]] + a[1..];
    }
  }

  lemma {:induction false} NoStray(es: seq<string>)
    ensures Stray(es) == 0 <==> forall i :: 0 <= i < |es| && !NeedsEscape(es[i]) ==> '"' !in es[i]
  {
    if es != [] {
      NoQuotes(es[0]);
      NoStray(es[1..]);
      assert es == [es[0]] + es[1..];
    }
  }

  // ---- recovering a command line ----------------------------------------------------------------

  lemma {:induction false} FirstWord(s: string, q: bool, part: string)
    ensures Split(s, q, part, true) != [] && part <= Split(s, q, part, true)[0]
    decreases |s|
  {
    if s == "" {
    } else if |s| > 1 && s[0] == '\\' && s[1] == '"' {
      FirstWord(s[2..], q, part + "\"");
    } else if s[0] == '"' {
      FirstWord(s[1..], !q, part);
    } else if !(s[0] == ' ' && !q) {
      FirstWord(s[1..], q, part + [s[0]]);
    }
  }

  /** A wrapped element that ends in a backslash comes back with a quote in its place. */
  lemma BackslashLost(e: string, rest: string)
    requires NeedsEscape(e) && e[|e| - 1] == '\\'
    ensures var r := Split(Escaped(e) + rest, false, "", false);
            r != [] && r[0] != e
  {
    ghost var u, w := e[..|e| - 1], "\\\"" + rest;
    assert e == u + "\\";
    EscapeConcat(u, "\\");
    assert Escape("\\") == "\\" + "" == "\\";
    WrappedText(e, rest);
    assert Escape(e) + ("\"" + rest) == Escape(u) + w;
    SplitQuote(Escape(u) + w, false, "", false);
    SplitEscaped(u, w, "");
    assert "" + u == u && w[2..] == rest;
    FirstWord(rest, true, u + "\"");
  }

  lemma {:induction false} SplitLine(es: seq<string>)
    requires es != []
    requires forall i :: 0 <= i < |es| && !NeedsEscape(es[i]) ==> '"' !in es[i]
    ensures Split(CommandLine(es), false, "", false) == es <==> forall i :: 0 <= i < |es| ==> Recoverable(es[i])
    decreases |es|
  {
    ghost var e, more := es[0], es[1..];
    ghost var t := if more == [] then "" else " " + CommandLine(more);
    assert es == [e] + more;
    assert CommandLine(es) == Escaped(e) + t by {
      if more != [] {
        Associate(Escaped(e), " ", CommandLine(more));
      } else {
        assert Escaped(e) + "" == Escaped(e);
      }
    }
    if !Recoverable(e) {
      BackslashLost(e, t);
    } else {
      SplitOne(e, t);
      if more != [] {
        SplitLine(more);
        SplitSpace(CommandLine(more), e);
        ghost var r := Split(CommandLine(more), false, "", false);
        assert ([e] + r)[1..] == r && ([e] + r)[0] == e;
      }
    }
  }

  lemma SplitSpace(s: string, part: string)
    ensures Split(" " + s, false, part, true) == [part] + Split(s, false, "", false)
  {
    assert (" " + s)[1..] == s;
  }

  /** The splitter gives the executable and the arguments back exactly when no wrapped element ends in
      a backslash and no element that is not wrapped holds a quote. */
  lemma RecoversIff(es: seq<string>)
    requires es != []
    ensures Split(CommandLine(es), false, "", false) == es <==> forall i :: 0 <= i < |es| ==> Recoverable(es[i])
  {
    NoStray(es);
    if Stray(es) == 0 {
      SplitLine(es);
    } else {
      ghost var line := CommandLine(es);
      SplitWeight(line, false, "", false);
      LineWeight(es);
      assert Weight(Split(line, false, "", false)) < Weight(es);
    }
  }
}
