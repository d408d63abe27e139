/** Inserting and removing escapes and counting quotes, shared by the POSIX and the Windows command lines. */
module QuoteText {
  import opened Wrappers

  /** A backslash before every quote. */
  function Escape(a: string): string {
    if a == "" then "" else Mark(a[0]) + Escape(a[1..])
  }

  function Mark(c: char): string {
    if c == '"' then "\\\"" else [c]
  }

  /** `replace_all(data, "\\\"", "\"")` */
  function Unescape(s: string): string {
    if s == "" then ""
    else if |s| >= 2 && s[0] == '\\' && s[1] == '"' then "\"" + Unescape(s[2..])
    else [s[0]] + Unescape(s[1..])
  }

  function Quotes(s: string): nat {
    if s == "" then 0 else (if s[0] == '"' then 1 else 0) + Quotes(s[1..])
  }

  lemma {:induction false} EscapeShape(a: string)
    ensures Escape(a) == "" <==> a == ""
    ensures a != "" ==> Escape(a)[0] != '"' && Escape(a)[|Escape(a)| - 1] == a[|a| - 1]
    decreases a
  {
    if a != "" {
      var t := Escape(a[1..]);
      EscapeShape(a[1..]);
      assert t == "" ==> a == [a[0]];
    }
  }

  lemma {:induction false} EscapeKeepsSpaces(a: string)
    ensures ' ' in Escape(a) <==> ' ' in a
    decreases a
  {
    if a != "" {
      EscapeKeepsSpaces(a[1..]);
      assert a == [a[0]] + a[1..];
    }
  }

  lemma {:induction false} EscapeConcat(u: string, v: string)
    ensures Escape(u + v) == Escape(u) + Escape(v)
  {
    if u == "" {
      assert u + v == v;
    } else {
      EscapeConcat(u[1..], v);
      assert (u + v)[1..] == u[1..] + v;
      Associate(Mark(u[0]), Escape(u[1..]), Escape(v));
    }
  }

  lemma {:induction false} QuotesConcat(u: string, v: string)
    ensures Quotes(u + v) == Quotes(u) + Quotes(v)
    decreases u
  {
    if u == "" {
      assert u + v == v;
    } else {
      QuotesConcat(u[1..], v);
      assert (u + v)[1..] == u[1..] + v;
    }
  }

  lemma UnescapePair(s: string, t: string)
    requires s == "\\\"" + t
    ensures Unescape(s) == "\"" + Unescape(t)
  {
    assert s[0] == '\\' && s[1] == '"' && s[2..] == t;
  }

  lemma UnescapeOne(s: string, c: char, t: string)
    requires s == [c] + t && (c == '\\' ==> t == "" || t[0] != '"')
    ensures Unescape(s) == [c] + Unescape(t)
  {
    assert s[0] == c && s[1..] == t && (t != "" ==> s[1] == t[0]);
  }

  lemma UnescapeMark(c: char, t: string)
    requires c == '\\' ==> t == "" || t[0] != '"'
    ensures Unescape(Mark(c) + t) == [c] + Unescape(t)
  {
    if c == '"' {
      UnescapePair(Mark(c) + t, t);
    } else {
      UnescapeOne(Mark(c) + t, c, t);
    }
  }

  /** Removing the escapes undoes inserting them. */
  lemma {:induction false} UnescapeEscape(u: string)
    ensures Unescape(Escape(u)) == u
    decreases u
  {
    if u != "" {
      UnescapeEscape(u[1..]);
      EscapeShape(u[1..]);
      UnescapeMark(u[0], Escape(u[1..]));
      assert [u[0]] + u[1..] == u;
    }
  }

  /** Every quote follows a backslash. */
  predicate AllMarked(t: string) {
    forall i :: 0 <= i < |t| && t[i] == '"' ==> i > 0 && t[i - 1] == '\\'
  }

  lemma {:induction false} EscapeMarksAll(a: string)
    ensures AllMarked(Escape(a))
    decreases a
  {
    if a != "" {
      ghost var t, r := Escape(a), Escape(a[1..]);
      EscapeMarksAll(a[1..]);
      forall i | 0 <= i < |t| && t[i] == '"' ensures i > 0 && t[i - 1] == '\\' {
        if i >= |Mark(a[0])| {
          assert t[i] == r[i - |Mark(a[0])|];
        }
      }
    }
  }

  lemma {:induction false} EscapeUnescape(t: string)
    requires AllMarked(t)
    ensures Escape(Unescape(t)) == t
    decreases t
  {
    if t == "" {
    } else if |t| >= 2 && t[0] == '\\' && t[1] == '"' {
      assert forall i :: 0 <= i < |t| - 2 ==> t[2..][i] == t[i + 2];
      EscapeUnescape(t[2..]);
      assert ("\"" + Unescape(t[2..]))[1..] == Unescape(t[2..]);
      assert "\\\"" + t[2..] == t;
    } else {
      assert forall i :: 0 <= i < |t| - 1 ==> t[1..][i] == t[i + 1];
      EscapeUnescape(t[1..]);
      assert ([t[0]] + Unescape(t[1..]))[1..] == Unescape(t[1..]);
      assert [t[0]] + t[1..] == t;
    }
  }

  /** The escaped text is the one text in which every quote follows a backslash and which gives `a` when
      those backslashes are removed. */
  lemma EscapeIff(a: string, t: string)
    ensures t == Escape(a) <==> AllMarked(t) && Unescape(t) == a
  {
    EscapeMarksAll(a);
    UnescapeEscape(a);
    if AllMarked(t) {
      EscapeUnescape(t);
    }
  }
}
