/** The `:`-separated lists held in `boost::process::v1` environment entries: `assign`, `append` and
    `to_vector`. */
module ValueLists {
  import opened CStrings
  import opened Wrappers

  // ---- joining and splitting --------------------------------------------------------------------

  function Join(vs: seq<string>): string {
    if vs == [] then ""
    else if |vs| == 1 then vs[0]
    else vs[0] + ":" + Join(vs[1..])
  }

  /** `boost::split` at every colon, without compressing neighbours: never an empty vector. */
  function Split(s: string): (r: seq<string>)
    ensures r != []
  {
    if s == "" then [""]
    else if s[0] == ':' then [""] + Split(s[1..])
    else var r := Split(s[1..]); [[s[0]] + r[0]] + r[1..]
  }

  lemma {:induction false} SplitParts(s: string)
    ensures forall i :: 0 <= i < |Split(s)| ==> ':' !in Split(s)[i]
  {
    if s != "" {
      SplitParts(s[1..]);
    }
  }

  lemma {:induction false} JoinSplit(s: string)
    ensures Join(Split(s)) == s
  {
    if s != "" {
      JoinSplit(s[1..]);
      var r := Split(s[1..]);
      assert s == [s[0]] + s[1..];
      if s[0] == ':' {
        assert Split(s)[1..] == r;
      } else {
        JoinHead([s[0]], r[0], r[1..]);
        assert r == [r[0]] + r[1..];
      }
    }
  }

  lemma JoinHead(c: string, head: string, rest: seq<string>)
    ensures Join([c + head] + rest) == c + Join([head] + rest)
  {
    assert ([c + head] + rest)[1..] == rest && ([head] + rest)[1..] == rest;
    if rest != [] {
      Associate(c, head, ":");
      Associate(c, head + ":", Join(rest));
    }
  }

  lemma TailOfConcat(a: seq<string>, b: seq<string>)
    requires a != []
    ensures (a + b)[0] == a[0] && (a + b)[1..] == a[1..] + b
  {
  }

  lemma {:induction false} SplitConcat(u: string, v: string)
    ensures Split(u + ":" + v) == Split(u) + Split(v)
  {
    var s := u + ":" + v;
    if u == "" {
      assert s[1..] == v;
    } else {
      SplitConcat(u[1..], v);
      assert s[1..] == u[1..] + ":" + v;
      var r, t := Split(u[1..]), Split(v);
      TailOfConcat(r, t);
      if u[0] == ':' {
        Associate([""], r, t);
      } else {
        Associate([[u[0]] + r[0]], r[1..], t);
      }
    }
  }

  lemma {:induction false} SplitPlain(s: string)
    requires ':' !in s
    ensures Split(s) == [s]
  {
    if s != "" {
      assert s == [s[0]] + s[1..];
      SplitPlain(s[1..]);
    }
  }

  predicate NoColons(vs: seq<string>) {
    forall i :: 0 <= i < |vs| ==> ':' !in vs[i]
  }

  lemma {:induction false} SplitJoin(vs: seq<string>)
    requires vs != []
    ensures Split(Join(vs)) == vs <==> NoColons(vs)
  {
    SplitParts(Join(vs));
    if NoColons(vs) {
      SplitPlain(vs[0]);
      if |vs| > 1 {
        SplitJoin(vs[1..]);
        SplitConcat(vs[0], Join(vs[1..]));
      }
    }
  }

  // ---- the value of an entry --------------------------------------------------------------------

  /** What `reload` leaves in the entry after its variable was set to `text`: nothing when `find` does
      not see it, and else the C string. */
  function Stored(text: string): Option<string> {
    if Visible(text) == "" then None else Some(Visible(text))
  }

  function ToVector(d: Option<string>): seq<string> {
    match d case None => [] case Some(text) => Split(text)
  }

  function AppendText(d: Option<string>, value: string): string {
    match d case None => value case Some(text) => text + ":" + value
  }

  function AppendAll(d: Option<string>, values: seq<string>): Option<string>
    decreases |values|
  {
    if values == [] then d else AppendAll(Stored(AppendText(d, values[0])), values[1..])
  }

  lemma {:induction false} JoinHolds(vs: seq<string>, c: char)
    requires c != ':'
    ensures c in Join(vs) <==> exists i :: 0 <= i < |vs| && c in vs[i]
  {
    if vs == [] {
    } else if |vs| == 1 {
      assert vs == [vs[0]];
    } else {
      JoinHolds(vs[1..], c);
      var t := Join(vs[1..]);
      assert c in vs[0] + ":" + t <==> c in vs[0] || c in t;
      if c in t {
        var i :| 0 <= i < |vs[1..]| && c in vs[1..][i];
        assert c in vs[i + 1];
      }
      if i :| 0 < i < |vs| && c in vs[i] {
        assert c in vs[1..][i - 1];
      }
    }
  }

  predicate Clean(vs: seq<string>) {
    forall i :: 0 <= i < |vs| ==> ':' !in vs[i] && '\0' !in vs[i]
  }

  /** A list comes back exactly when it is empty, or is not one empty text and holds no separator and
      no NUL. */
  lemma AssignIff(vs: seq<string>)
    ensures ToVector(Stored(Join(vs))) == vs <==> vs == [] || (vs != [""] && Clean(vs))
  {
    ghost var text := Join(vs);
    assert Split("") == [""];
    if vs != [] {
      SplitJoin(vs);
      VisibleWhole(text);
      JoinHolds(vs, '\0');
      JoinSplit(Visible(text));
      if vs != [""] && Clean(vs) {
        assert NoColons(vs);
        assert '\0' !in text;
      }
      if ToVector(Stored(text)) == vs {
        assert Split(Visible(text)) == vs;
        forall i | 0 <= i < |vs| ensures ':' !in vs[i] && '\0' !in vs[i] {
          assert ':' !in vs[i];
        }
      }
    }
  }

  /** A text an entry may hold: one that `reload` has stored. */
  predicate IsStored(d: Option<string>) {
    d.Some? ==> d == Stored(d.value)
  }

  /** What `append` adds at the end: the parts of what a C string shows of the text, and nothing when an
      absent value gets a text that shows nothing. */
  lemma AppendExtends(d: Option<string>, value: string)
    requires IsStored(d)
    ensures var d', shown := Stored(AppendText(d, value)), Visible(value);
            ToVector(d') == ToVector(d) + if d.None? && shown == "" then [] else Split(shown)
  {
    match d {
      case None =>
        assert ToVector(d) + Split(Visible(value)) == Split(Visible(value));
      case Some(text) =>
        VisibleWhole(text);
        VisibleAfter(text + ":", value);
        SplitConcat(text, Visible(value));
    }
  }

  /** The parts of all appended texts in order; texts that show nothing are lost at the start of an absent
      value. */
  function Parts(absent: bool, values: seq<string>): seq<string> {
    if values == [] then []
    else if absent && Visible(values[0]) == "" then Parts(true, values[1..])
    else Split(Visible(values[0])) + Parts(false, values[1..])
  }

  /** Any sequence of `append` calls extends the vector at its end. */
  lemma {:induction false} AppendRun(d: Option<string>, values: seq<string>)
    requires IsStored(d)
    ensures ToVector(AppendAll(d, values)) == ToVector(d) + Parts(d.None?, values)
    decreases |values|
  {
    if values == [] {
      assert ToVector(d) + [] == ToVector(d);
    } else {
      var d' := Stored(AppendText(d, values[0]));
      AppendExtends(d, values[0]);
      StoredTwice(AppendText(d, values[0]));
      AppendRun(d', values[1..]);
      if d.None? && Visible(values[0]) == "" {
        assert ToVector(d) + [] == ToVector(d);
      } else {
        assert d'.Some? by { AppendStays(d, values[0]); }
        Associate(ToVector(d), Split(Visible(values[0])), Parts(false, values[1..]));
      }
    }
  }

  lemma AppendStays(d: Option<string>, value: string)
    requires IsStored(d) && (d.Some? || Visible(value) != "")
    ensures Stored(AppendText(d, value)).Some?
  {
    if d.Some? {
      VisibleWhole(d.value);
      VisibleAfter(d.value + ":", value);
    }
  }

  lemma StoredTwice(text: string)
    ensures Stored(text).Some? ==> Stored(Stored(text).value) == Stored(text)
  {
    VisibleWhole(Visible(text));
  }

  /** A list that comes back, then elements without separators: the list and the elements. */
  lemma {:induction false} AssignAppend(vs: seq<string>, values: seq<string>)
    requires vs != [] && vs != [""] && Clean(vs) && Clean(values)
    ensures ToVector(AppendAll(Stored(Join(vs)), values)) == vs + values
  {
    AssignIff(vs);
    StoredTwice(Join(vs));
    AppendRun(Stored(Join(vs)), values);
    PlainParts(values);
  }

  lemma {:induction false} PlainParts(values: seq<string>)
    requires Clean(values)
    ensures Parts(false, values) == values
  {
    if values != [] {
      SplitPlain(values[0]);
      VisibleWhole(values[0]);
      PlainParts(values[1..]);
      assert values == [values[0]] + values[1..];
    }
  }
}
