/** What `build_args` makes of any line: where it cuts, and what becomes of each piece. */
module PosixWords {
  import opened PosixCommand
  import opened QuoteText
  import opened Wrappers

  function Between(ps: seq<string>, sep: string): string
    requires ps != []
  {
    if |ps| == 1 then ps[0] else ps[0] + (sep + Between(ps[1..], sep))
  }

  // ---- removing the escapes ---------------------------------------------------------------------

  predicate NoMarks(ps: seq<string>) {
    forall i :: 0 <= i < |ps| ==> !HoldsMark(ps[i])
  }

  /** Each backslash before a quote goes, whatever the pieces around them are. */
  lemma {:induction false} UnescapeBetween(ps: seq<string>)
    requires ps != [] && NoMarks(ps)
    ensures Unescape(Between(ps, "\\\"")) == Between(ps, "\"")
    decreases |ps|
  {
    if |ps| == 1 {
      UnescapeSame(ps[0]);
    } else {
      UnescapeBetween(ps[1..]);
      UnescapeBefore(ps[0], Between(ps[1..], "\\\""));
    }
  }

  lemma {:induction false} UnescapeBefore(p: string, t: string)
    requires !HoldsMark(p)
    ensures Unescape(p + ("\\\"" + t)) == p + ("\"" + Unescape(t))
    decreases p
  {
    ghost var m := "\\\"" + t;
    if p == "" {
      assert p + m == m && p + ("\"" + Unescape(t)) == "\"" + Unescape(t);
      UnescapePair(m, t);
    } else {
      MarksInside(p);
      UnescapeBefore(p[1..], t);
      Associate([p[0]], p[1..], m);
      Associate([p[0]], p[1..], "\"" + Unescape(t));
      assert [p[0]] + p[1..] == p;
      assert p[0] == '\\' && |p| >= 2 ==> p[1] != '"';
      UnescapeOne(p + m, p[0], p[1..] + m);
    }
  }

  lemma MarksInside(p: string)
    requires p != "" && !HoldsMark(p)
    ensures !HoldsMark(p[1..])
  {
    forall i | 0 <= i < |p| - 2 ensures !(p[1..][i] == '\\' && p[1..][i + 1] == '"') {
      assert !(p[i + 1] == '\\' && p[i + 1 + 1] == '"');
    }
  }

  /** Every text consists of such pieces. */
  lemma {:induction false} EveryTextSplits(s: string) returns (ps: seq<string>)
    ensures ps != [] && NoMarks(ps) && s == Between(ps, "\\\"")
    decreases s
  {
    if !HoldsMark(s) {
      ps := [s];
    } else if s[0] == '\\' && s[1] == '"' {
      var qs := EveryTextSplits(s[2..]);
      ps := [""] + qs;
      assert ps[1..] == qs && s == "" + ("\\\"" + s[2..]);
    } else {
      var qs := EveryTextSplits(s[1..]);
      ps := PutFirst(s[0], qs, "\\\"");
      assert s == [s[0]] + s[1..];
      FirstUnmarked(s, qs, ps);
    }
  }

  function PutFirst(c: char, qs: seq<string>, sep: string): (ps: seq<string>)
    requires qs != []
    ensures ps != [] && ps[0] == [c] + qs[0] && ps[1..] == qs[1..]
    ensures Between(ps, sep) == [c] + Between(qs, sep)
  {
    var ps := [[c] + qs[0]] + qs[1..];
    assert ps[1..] == qs[1..];
    assert |qs| > 1 ==> ([c] + qs[0]) + (sep + Between(qs[1..], sep)) == [c] + (qs[0] + (sep + Between(qs[1..], sep)));
    ps
  }

  lemma FirstUnmarked(s: string, qs: seq<string>, ps: seq<string>)
    requires |s| >= 2 && !(s[0] == '\\' && s[1] == '"') && qs != [] && NoMarks(qs)
    requires s[1..] == Between(qs, "\\\"") && ps == [[s[0]] + qs[0]] + qs[1..]
    ensures NoMarks(ps)
  {
    ghost var p, q := ps[0], qs[0];
    assert !HoldsMark(q);
    assert q != "" ==> q[0] == s[1..][0];
    forall i | 0 <= i < |p| - 1 ensures !(p[i] == '\\' && p[i + 1] == '"') {
      assert i > 0 ==> !(q[i - 1] == '\\' && q[i - 1 + 1] == '"');
    }
    assert forall i :: 1 <= i < |ps| ==> ps[i] == qs[i];
  }

  // ---- one piece --------------------------------------------------------------------------------

  function Enclosed(u: string): string {
    "\"" + u + "\""
  }

  /** The outer quotes go, whatever they enclose. */
  lemma EnclosedEntry(u: string)
    ensures Entry(Enclosed(u)) == Some(Unescape(u)) && Entry(Enclosed(Escape(u))) == Some(u)
  {
    UnescapeEscape(u);
    assert Enclosed(u)[1..|u| + 1] == u;
    assert Enclosed(Escape(u))[1..|Escape(u)| + 1] == Escape(u);
  }

  /** Other pieces only lose their escapes; the lone quote has no entry. */
  lemma EntryShapes(part: string)
    requires part != ""
    ensures part == "\"" || (exists u :: part == Enclosed(u)) || Entry(part) == Some(Unescape(part))
    ensures Entry(part) == None <==> part == "\""
  {
    if |part| >= 2 && part[0] == '"' && part[|part| - 1] == '"' {
      assert part == Enclosed(part[1..|part| - 1]);
    }
  }

  // ---- the whole line ---------------------------------------------------------------------------

  /** No space of a piece ends it, and all pieces but the last have their quotes closed. */
  predicate Pieces(ps: seq<string>) {
    forall i :: 0 <= i < |ps| ==> Solid(ps[i], false) && (i == |ps| - 1 || !After(ps[i], false))
  }

  /** The entries of the pieces, without the empty pieces. */
  function Entries(ps: seq<string>): Option<seq<string>> {
    if ps == [] then Some([])
    else if ps[0] == "" then Entries(ps[1..])
    else if ps[0] == "\"" || Entries(ps[1..]).None? then None
    else Some([Entry(ps[0]).value] + Entries(ps[1..]).value)
  }

  /** The line is cut at exactly the spaces outside quotes. */
  lemma {:induction false} CutAtSpaces(ps: seq<string>)
    requires ps != [] && Pieces(ps)
    ensures Scan(Between(ps, " "), false, "") == Entries(ps)
    decreases |ps|
  {
    assert Solid(ps[0], false) && (|ps| == 1 || !After(ps[0], false));
    assert Entries([]) == Some([]);
    if |ps| == 1 {
      Advance(ps[0], "", false, "");
      assert ps[0] + "" == ps[0] && "" + ps[0] == ps[0] && ps[1..] == [];
    } else {
      assert Pieces(ps[1..]) by {
        assert forall i :: 0 <= i < |ps[1..]| ==> ps[1..][i] == ps[i + 1];
      }
      CutAtSpaces(ps[1..]);
      ScanCut(ps[0], Between(ps[1..], " "));
    }
    if ps[0] != "" {
      EntryShapes(ps[0]);
    }
  }

  /** Every line consists of such pieces. */
  lemma {:induction false} EveryLineIsCut(s: string) returns (ps: seq<string>)
    ensures ps != [] && Pieces(ps) && s == Between(ps, " ")
    decreases |s|
  {
    if Solid(s, false) {
      ps := [s];
    } else {
      var u, v := FirstBreak(s, false);
      var qs := EveryLineIsCut(v);
      ps := [u] + qs;
      assert ps[1..] == qs && s == u + (" " + v);
    }
  }

  // ---- enclosing every text ---------------------------------------------------------------------

  predicate AllEven(us: seq<string>) {
    us == [] || (Even(us[0], |us| == 1) && AllEven(us[1..]))
  }

  /** Every text escaped and enclosed, with a space between them. */
  function Line(us: seq<string>): string {
    if us == [] then ""
    else if |us| == 1 then Enclosed(Escape(us[0]))
    else Enclosed(Escape(us[0])) + (" " + Line(us[1..]))
  }

  lemma EnclosedSolid(u: string)
    ensures var q := Enclosed(Escape(u));
            Solid(q, false) == Solid(u, true) && After(q, false) == After(u, false) && Spaces(q) == Spaces(u)
  {
    ghost var e := Escape(u);
    EscapeKeepsQuotes(u, true);
    OpeningQuote(e);
    AfterCounts(u, true);
    AfterCounts(u, false);
    SolidConcat("\"" + e, "\"", false);
    EscapeSpaces(u);
    SpacesConcat("\"" + e, "\"");
    SpacesConcat("\"", e);
  }

  /** Enclosed texts, the empty one and those without spaces included, come back exactly when quotes
      inside them do not open or close the enclosing ones before a space. */
  lemma {:induction false} EnclosedRecovered(us: seq<string>)
    ensures Scan(Line(us), false, "") == Some(us) <==> AllEven(us)
    decreases |us|
  {
    if us != [] {
      ghost var u, rest := us[0], us[1..];
      ghost var q, t := Enclosed(Escape(u)), if rest == [] then "" else " " + Line(rest);
      assert us == [u] + rest && (rest == [] ==> us == [u]);
      assert q + "" == q;
      EvenMeans(u, |us| == 1);
      EnclosedSolid(u);
      EnclosedEntry(u);
      FirstWord(q, u, t);
      if rest != [] {
        assert t[1..] == Line(rest);
        EnclosedRecovered(rest);
        ghost var r := Scan(Line(rest), false, "");
        if r.Some? {
          ConsSame(u, r.value, rest);
        }
      }
    }
  }

  /** Texts without quotes always come back. */
  lemma {:induction false} QuotelessRecovered(us: seq<string>)
    requires forall i :: 0 <= i < |us| ==> '"' !in us[i]
    ensures Scan(Line(us), false, "") == Some(us)
    decreases |us|
  {
    EnclosedRecovered(us);
    if us != [] {
      assert '"' !in us[0];
      NoQuotes(us[0]);
      QuotelessRecovered(us[1..]);
      EnclosedRecovered(us[1..]);
    }
  }

  lemma NoQuotes(u: string)
    requires '"' !in u
    ensures Even(u, false)
  {
    forall i | 0 <= i <= |u| ensures Quotes(u[..i]) == 0 {
      QuotesZero(u[..i]);
    }
    assert u[..|u|] == u;
  }

  lemma {:induction false} QuotesZero(u: string)
    requires '"' !in u
    ensures Quotes(u) == 0
    decreases u
  {
    if u != "" {
      QuotesZero(u[1..]);
    }
  }
}
