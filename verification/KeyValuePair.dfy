/** The key/value texts of `boost::process::v2::environment`: a pair built from a key and a list, its
    `key()` and `value()`, and the iterator over a value that is a list. Texts are written with their size
    and read as C strings. */
module KeyValuePair {
  import opened CStrings
  import opened Wrappers
  import opened ValueLists

  // ---- the pair ---------------------------------------------------------------------------------

  predicate EndsEqual(s: string) {
    s != "" && s[|s| - 1] == '='
  }

  /** The loop of the list constructor: a delimiter goes in unless the text ends in an equal sign. */
  function Listed(text: string, values: seq<string>): string
    decreases |values|
  {
    if values == [] then text
    else Listed((if EndsEqual(text) then text else text + ":") + values[0], values[1..])
  }

  /** The position of the first equal sign at or after `from`; `|s|` when there is none. */
  function FindEqual(s: string, from: nat): (r: nat)
    requires from <= |s|
    ensures from <= r <= |s|
    ensures forall i :: from <= i < r ==> s[i] != '='
    ensures r < |s| ==> s[r] == '='
    decreases |s| - from
  {
    if from == |s| || s[from] == '=' then from else FindEqual(s, from + 1)
  }

  /** Where the key ends. A leading equal sign belongs to the key when another one follows. */
  function KeyEnd(s: string): (r: nat)
    ensures r <= |s|
  {
    var eq := FindEqual(s, 0);
    if eq != 0 || s == "" then eq
    else
      var eq2 := FindEqual(s, 1);
      if eq2 == |s| then eq else eq2
  }

  function Before(s: string): string {
    s[..KeyEnd(s)]
  }

  /** A text without an equal sign stands before and behind it. */
  function Behind(s: string): string {
    if KeyEnd(s) == |s| then s else s[KeyEnd(s) + 1..]
  }

  /** `key()`: the equal sign is searched in the whole text, the key is taken from the C string. */
  function Key(s: string): string {
    Visible(s)[..Min(KeyEnd(s), |Visible(s)|)]
  }

  /** `value()`: the C string behind the equal sign. */
  function Value(s: string): string {
    Visible(Behind(s))
  }

  class Pair {
    var text: string

    constructor FromValue(key: string, value: string)
      ensures text == key + "=" + value
    {
      text := key + "=" + value;
    }

    constructor FromList(key: string, values: seq<string>)
      ensures text == Listed(key + "=", values)
    {
      var value_ := key;
      value_ := value_ + "=";
      for i := 0 to |values|
        invariant value_ != "" && Listed(value_, values[i..]) == Listed(key + "=", values)
      {
        assert values[i..][1..] == values[i + 1..];
        if value_[|value_| - 1] != '=' {
          value_ := value_ + ":";
        }
        value_ := value_ + values[i];
      }
      text := value_;
    }

    /** The search that `key()` and `value()` share. */
    method SearchKeyEnd() returns (eq: nat)
      ensures eq == KeyEnd(text)
    {
      eq := FindEqual(text, 0);
      if eq == 0 && text != "" {
        var eq2 := FindEqual(text, 1);
        if eq2 != |text| {
          eq := eq2;
        }
      }
    }

    method ReadKey() returns (key: string)
      ensures key == Key(text)
    {
      var eq := SearchKeyEnd();
      var native := Visible(text);
      key := native[..Min(eq, |native|)];
    }

    method ReadValue() returns (value: string)
      ensures value == Value(text)
    {
      var eq := SearchKeyEnd();
      value := Visible(if eq == |text| then text else text[eq + 1..]);
    }
  }

  // ---- the iterator -----------------------------------------------------------------------------

  function FindDelimiter(view: string): (r: nat)
    ensures r <= |view|
  {
    if view == "" || view[0] == ':' then 0 else 1 + FindDelimiter(view[1..])
  }

  function Front(view: string): string {
    view[..FindDelimiter(view)]
  }

  function Rest(view: string): (r: string)
    ensures view != "" ==> |r| < |view|
  {
    var delim := FindDelimiter(view);
    if delim != |view| then view[delim + 1..] else ""
  }

  /** The elements a walk from `begin` to `end` visits: it stops when nothing is left to view. */
  function Elements(view: string): seq<string>
    decreases |view|
  {
    if view == "" then [] else [Front(view)] + Elements(Rest(view))
  }

  class ValueIterator {
    var view: string

    constructor (text: string, offset: nat)
      requires offset <= |text|
      ensures view == text[offset..]
    {
      view := text[offset..];
    }

    method Advance()
      modifies this
      ensures view == Rest(old(view))
    {
      var delim := FindDelimiter(view);
      if delim != |view| {
        view := view[delim + 1..];
      } else {
        view := view[|view|..];
      }
    }

    method Deref() returns (element: string)
      ensures element == Front(view)
    {
      var delim := FindDelimiter(view);
      element := if delim == |view| then view else view[..delim];
    }
  }

  /** The walk over a `value_view`, whose `begin` and `end` are made from a pointer to the text. */
  method Iterate(text: string) returns (elements: seq<string>)
    ensures elements == Elements(Visible(text))
  {
    var native := Visible(text);
    var it := new ValueIterator(native, 0);
    var end := new ValueIterator(native, |native|);
    assert native[0..] == native;
    elements := [];
    while it.view != end.view
      invariant end.view == "" && elements + Elements(it.view) == Elements(native)
      decreases |it.view|
    {
      ghost var view := it.view;
      var element := it.Deref();
      Associate(elements, [element], Elements(Rest(view)));
      elements := elements + [element];
      it.Advance();
    }
  }

  /** What the walk over a `value`, which owns its text, gives: `end` is made with the size of the text and
      throws (`None`) when the C string is shorter. */
  function OwnedElements(text: string): Option<seq<string>> {
    if '\0' in text then None else Some(Elements(text))
  }

  method IterateOwned(text: string) returns (elements: Option<seq<string>>)
    ensures elements == OwnedElements(text)
  {
    VisibleWhole(text);
    if |text| > |Visible(text)| {
      return None;
    }
    var read := Iterate(text);
    elements := Some(read);
  }

  /** The walk visits the parts between delimiters, except an empty one at the end. */
  function WithoutEmptyEnd(r: seq<string>): seq<string>
    requires r != []
  {
    if r[|r| - 1] == "" then r[..|r| - 1] else r
  }

  lemma {:induction false} SplitFront(view: string)
    ensures Split(view) == if FindDelimiter(view) == |view| then [view] else [Front(view)] + Split(Rest(view))
  {
    if view != "" && view[0] != ':' {
      SplitFront(view[1..]);
      assert Rest(view[1..]) == Rest(view);
      assert Front(view) == [view[0]] + Front(view[1..]);
      assert view == [view[0]] + view[1..];
    }
  }

  lemma {:induction false} ElementsAreParts(view: string)
    ensures Elements(view) == WithoutEmptyEnd(Split(view))
    decreases |view|
  {
    SplitFront(view);
    if view != "" {
      ElementsAreParts(Rest(view));
      if FindDelimiter(view) == |view| {
        assert Front(view) == view && Rest(view) == "" && [view] + [] == [view];
      } else {
        EndOfCons(Front(view), Split(Rest(view)));
      }
    }
  }

  lemma EndOfCons(front: string, r: seq<string>)
    requires r != []
    ensures WithoutEmptyEnd([front] + r) == [front] + WithoutEmptyEnd(r)
  {
    ghost var all := [front] + r;
    assert all[|all| - 1] == r[|r| - 1];
    assert all[..|r|] == [front] + r[..|r| - 1];
  }

  // ---- the key comes back -----------------------------------------------------------------------

  lemma BeforeIff(key: string, v: string)
    ensures Before(key + "=" + v) == key <==> if key == "" then '=' !in v else '=' !in key[1..]
    ensures Before(key + "=" + v) == key ==> Behind(key + "=" + v) == v
  {
    ghost var s, n := key + "=" + v, |key|;
    assert s[..n] == key && s[n] == '=' && s[n + 1..] == v;
    if key == "" {
      assert FindEqual(s, 0) == 0;
      if '=' in v {
        ghost var i :| 0 <= i < |v| && v[i] == '=';
        assert s[i + 1] == '=';
      }
      assert forall i :: 1 <= i < |s| ==> s[i] == v[i - 1];
    } else if '=' !in key[1..] {
      assert forall i :: 1 <= i < n ==> s[i] == key[1..][i - 1];
    } else {
      ghost var i :| 0 <= i < |key[1..]| && key[1..][i] == '=';
      assert s[i + 1] == '=';
      assert KeyEnd(s) <= i + 1;
      assert |Before(s)| < n;
    }
  }

  /** A pair whose value text is `v` gives the key back exactly when the key holds no NUL, and is not empty
      and holds no equal sign after its first character, or is empty and `v` holds no equal sign. Then the
      value is `v` up to its first NUL. */
  lemma KeyIff(key: string, v: string)
    ensures Key(key + "=" + v) == key <==>
            '\0' !in key && if key == "" then '=' !in v else '=' !in key[1..]
    ensures Key(key + "=" + v) == key ==> Value(key + "=" + v) == Visible(v)
  {
    BeforeIff(key, v);
    if '\0' in key {
      KeyShown(key + "=" + v);
    } else {
      KeyCut(key, v);
    }
  }

  lemma KeyShown(s: string)
    ensures '\0' !in Key(s)
  {
    ghost var vis := Visible(s);
    forall i | 0 <= i < |Key(s)| ensures Key(s)[i] != '\0' {
      assert Key(s)[i] == vis[i] && vis[i] in vis;
    }
  }

  lemma KeyCut(key: string, v: string)
    requires '\0' !in key
    ensures Key(key + "=" + v) == key <==> Before(key + "=" + v) == key
  {
    ghost var s := key + "=" + v;
    ghost var vis, n := Visible(s), |key|;
    VisibleAfter(key + "=", v);
    assert vis == key + "=" + Visible(v);
    assert |vis| > n && vis[..n] == key && s[..n] == key;
    assert |Key(s)| == Min(KeyEnd(s), |vis|) && |Before(s)| == KeyEnd(s);
  }

  // ---- the list comes back ----------------------------------------------------------------------

  /** The value text of a list, collected after `v`: no delimiter while it is empty. */
  function Collected(v: string, values: seq<string>): string
    decreases |values|
  {
    if values == [] then v
    else Collected((if v == "" || EndsEqual(v) then v else v + ":") + values[0], values[1..])
  }

  lemma {:induction false} ListedAfterKey(pre: string, v: string, values: seq<string>)
    requires EndsEqual(pre)
    ensures Listed(pre + v, values) == pre + Collected(v, values)
    decreases |values|
  {
    if values != [] {
      var sep := if v == "" || EndsEqual(v) then "" else ":";
      var v' := v + sep + values[0];
      assert EndsEqual(pre + v) <==> sep == "";
      assert v + "" == v && (pre + v) + "" == pre + v;
      assert ((pre + v) + sep) + values[0] == pre + v';
      ListedAfterKey(pre, v', values[1..]);
    }
  }

  /** Every value is set off from the ones before it. */
  predicate Chained(v: string, values: seq<string>)
    decreases |values|
  {
    values == [] || (v != "" && !EndsEqual(v) && Chained(v + ":" + values[0], values[1..]))
  }

  lemma {:induction false} JoinMerge(v: string, x: string, rest: seq<string>)
    ensures Join([v, x] + rest) == Join([v + ":" + x] + rest)
    ensures |Join([v + x] + rest)| < |Join([v, x] + rest)|
  {
    ghost var a, b := [x] + rest, [v, x] + rest;
    assert b[1..] == a && ([v + ":" + x] + rest)[1..] == rest && a[1..] == rest && ([v + x] + rest)[1..] == rest;
    if rest != [] {
      ghost var t := Join(rest);
      assert v + ":" + (x + ":" + t) == (v + ":" + x) + ":" + t;
    }
  }

  lemma {:induction false} CollectedLength(v: string, values: seq<string>)
    ensures Chained(v, values) ==> Collected(v, values) == Join([v] + values)
    ensures !Chained(v, values) ==> |Collected(v, values)| < |Join([v] + values)|
    decreases |values|
  {
    if values == [] {
      assert [v] + values == [v];
    } else {
      var x, rest := values[0], values[1..];
      assert [v] + values == [v, x] + rest;
      JoinMerge(v, x, rest);
      if v == "" || EndsEqual(v) {
        CollectedLength(v + x, rest);
      } else {
        CollectedLength(v + ":" + x, rest);
      }
    }
  }

  /** Only the last of the values may end in an equal sign. */
  predicate InnerPlain(values: seq<string>) {
    forall i :: 0 <= i < |values| - 1 ==> !EndsEqual(values[i])
  }

  lemma InnerPlainCons(x: string, rest: seq<string>)
    ensures InnerPlain([x] + rest) <==> rest == [] || (!EndsEqual(x) && InnerPlain(rest))
  {
    ghost var all := [x] + rest;
    assert all[0] == x;
    if InnerPlain(all) {
      forall i | 0 <= i < |rest| - 1 ensures !EndsEqual(rest[i]) {
        assert !EndsEqual(all[i + 1]);
      }
    }
  }

  lemma {:induction false} ChainedMeans(v: string, values: seq<string>)
    ensures Chained(v, values) <==> values == [] || (v != "" && !EndsEqual(v) && InnerPlain(values))
    decreases |values|
  {
    if values != [] {
      ChainedMeans(v + ":" + values[0], values[1..]);
      InnerPlainCons(values[0], values[1..]);
      assert [values[0]] + values[1..] == values;
      assert EndsEqual(v + ":" + values[0]) <==> EndsEqual(values[0]);
    }
  }

  /** What a list must be to come back: empty, or without delimiters, with a first and a last element
      that are not empty, and no element but the last ending in an equal sign. */
  predicate ListKept(values: seq<string>) {
    values == [] ||
    (NoColons(values) && values[0] != "" && values[|values| - 1] != "" && InnerPlain(values))
  }

  lemma KeptChained(values: seq<string>)
    requires values != []
    ensures ListKept(values) <==>
            NoColons(values) && values[|values| - 1] != "" && Chained(values[0], values[1..])
    ensures Collected("", values) == Collected(values[0], values[1..])
  {
    assert "" + values[0] == values[0] && [values[0]] + values[1..] == values;
    ChainedMeans(values[0], values[1..]);
    InnerPlainCons(values[0], values[1..]);
  }

  lemma {:induction false} JoinEndsEmpty(values: seq<string>)
    requires values != []
    ensures Join(values + [""]) == Join(values) + ":"
    decreases |values|
  {
    var all := values + [""];
    if |values| == 1 {
      assert all[1..] == [""] && values[0] + ":" + "" == values[0] + ":";
    } else {
      JoinEndsEmpty(values[1..]);
      assert all[1..] == values[1..] + [""];
      assert values[0] + ":" + (Join(values[1..]) + ":") == (values[0] + ":" + Join(values[1..])) + ":";
    }
  }

  /** No text shorter than the joined list is read as the list. */
  lemma ElementsJoin(v: string, values: seq<string>)
    requires values != [] && |v| <= |Join(values)| && Elements(v) == values
    ensures v == Join(values) && values[|values| - 1] != "" && NoColons(values)
  {
    ElementsAreParts(v);
    JoinSplit(v);
    SplitParts(v);
    JoinEndsEmpty(values);
    EndCases(Split(v), values);
  }

  lemma EndCases(r: seq<string>, values: seq<string>)
    requires r != [] && values != [] && WithoutEmptyEnd(r) == values
    ensures r == values + [""] || (r == values && values[|values| - 1] != "")
  {
    if r[|r| - 1] == "" {
      assert r == r[..|r| - 1] + [""];
    }
  }

  lemma JoinElements(values: seq<string>)
    requires values != [] && values[|values| - 1] != "" && NoColons(values)
    ensures Elements(Join(values)) == values
  {
    SplitJoin(values);
    ElementsAreParts(Join(values));
  }

  /** Iterating the value of a list gives the list exactly when `ListKept`. */
  lemma ListIff(values: seq<string>)
    ensures Elements(Collected("", values)) == values <==> ListKept(values)
  {
    if values != [] {
      KeptChained(values);
      CollectedLength(values[0], values[1..]);
      assert [values[0]] + values[1..] == values;
      if ListKept(values) {
        JoinElements(values);
      }
      if Elements(Collected("", values)) == values {
        ElementsJoin(Collected("", values), values);
      }
    }
  }

  predicate NoNul(values: seq<string>) {
    forall i :: 0 <= i < |values| ==> '\0' !in values[i]
  }

  lemma {:induction false} CollectedNul(v: string, values: seq<string>)
    ensures '\0' !in Collected(v, values) <==> '\0' !in v && NoNul(values)
    decreases |values|
  {
    if values != [] {
      var w := (if v == "" || EndsEqual(v) then v else v + ":") + values[0];
      CollectedNul(w, values[1..]);
      assert '\0' in w <==> '\0' in v || '\0' in values[0];
      assert values == [values[0]] + values[1..];
    }
  }

  lemma {:induction false} ElementsNul(view: string)
    requires '\0' !in view
    ensures NoNul(Elements(view))
    decreases |view|
  {
    if view != "" {
      assert forall c :: c in Front(view) || c in Rest(view) ==> c in view;
      ElementsNul(Rest(view));
    }
  }

  /** Iterating the value of a list, read as a C string, gives the list exactly when it does so read with
      its size, and no element holds a NUL. */
  lemma CutListIff(values: seq<string>)
    ensures Elements(Visible(Collected("", values))) == values <==> ListKept(values) && NoNul(values)
  {
    ghost var v := Collected("", values);
    ListIff(values);
    CollectedNul("", values);
    VisibleWhole(v);
    ElementsNul(Visible(v));
  }

  /** A pair built from a key and a list gives both back exactly when both conditions hold. */
  lemma PairIff(key: string, values: seq<string>)
    ensures var text := Listed(key + "=", values);
            Key(text) == key && Elements(Value(text)) == values <==>
            ListKept(values) && NoNul(values) &&
            '\0' !in key && if key == "" then '=' !in Collected("", values) else '=' !in key[1..]
  {
    ghost var pre, v := key + "=", Collected("", values);
    ListedAfterKey(pre, "", values);
    assert pre + "" == pre;
    KeyIff(key, v);
    CutListIff(values);
  }

  /** The text is empty or ends in a delimiter. */
  predicate Open(text: string) {
    text == "" || text[|text| - 1] == ':'
  }

  lemma PushParted(text: string, sv: string)
    ensures Elements(text + ":" + sv) == Elements(text) + [sv] <==> ':' !in sv && (sv == "" <==> Open(text))
  {
    ghost var all := text + ":" + sv;
    ElementsAreParts(all);
    if ':' !in sv {
      SplitConcat(text, sv);
      SplitPlain(sv);
      ElementsAreParts(text);
      OpenEnd(text);
      PushParts(Split(text), sv);
    } else {
      SplitParts(all);
      PushForeign(Split(all), Elements(text), sv);
    }
  }

  /** When `push_back` adds one element to a list: neither text holds a NUL, and the element holds no
      delimiter and is empty just when the list was open. */
  predicate Grows(text: string, sv: string) {
    '\0' !in text && '\0' !in sv && ':' !in sv && (sv == "" <==> Open(text))
  }

  /** `push_back` on a value: the delimiter always goes in, so the list grows by the element exactly when
      `Grows`. */
  lemma PushBackIff(text: string, sv: string)
    ensures Grows(text, sv) <==>
            OwnedElements(text).Some? && OwnedElements(text + ":" + sv) == Some(OwnedElements(text).value + [sv])
  {
    ghost var all := text + ":" + sv;
    PushParted(text, sv);
    assert '\0' in all <==> '\0' in text || '\0' in sv;
  }

  /** The same holds when the value is walked through a view of it. */
  lemma PushBackViewIff(text: string, sv: string)
    ensures Grows(text, sv) <==> Elements(Visible(text + ":" + sv)) == Elements(Visible(text)) + [sv]
  {
    if '\0' in text {
      CutBefore(text, ":" + sv);
      assert text + (":" + sv) == text + ":" + sv;
    } else {
      ghost var all := text + ":" + Visible(sv);
      PushParted(text, sv);
      VisibleWhole(text);
      VisibleAfter(text + ":", sv);
      VisibleWhole(sv);
      ElementsNul(all);
      PushedLast(Elements(all), Elements(text), sv);
    }
  }

  lemma PushedLast(r: seq<string>, t: seq<string>, sv: string)
    requires NoNul(r)
    ensures r == t + [sv] ==> '\0' !in sv
  {
    if r == t + [sv] {
      assert r[|t|] == sv;
    }
  }

  lemma {:induction false} CutBefore(u: string, v: string)
    requires '\0' in u
    ensures Visible(u + v) == Visible(u)
    decreases u
  {
    assert (u + v)[1..] == u[1..] + v;
    if u[0] != '\0' {
      CutBefore(u[1..], v);
    }
  }

  lemma PushParts(t: seq<string>, sv: string)
    requires t != []
    ensures WithoutEmptyEnd(t + [sv]) == WithoutEmptyEnd(t) + [sv] <==> (sv == "" <==> t[|t| - 1] == "")
  {
    assert (t + [sv])[..|t|] == t;
    if sv == "" && t[|t| - 1] == "" {
      assert t == t[..|t| - 1] + [""];
    }
  }

  lemma PushForeign(t: seq<string>, w: seq<string>, sv: string)
    requires ':' in sv && t != [] && NoColons(t)
    ensures WithoutEmptyEnd(t) != w + [sv]
  {
    ghost var r, all := WithoutEmptyEnd(t), w + [sv];
    assert all[|w|] == sv;
    assert forall i :: 0 <= i < |r| ==> r[i] == t[i];
  }

  lemma {:induction false} OpenEnd(text: string)
    ensures Split(text)[|Split(text)| - 1] == "" <==> Open(text)
  {
    if text != "" {
      OpenEnd(text[1..]);
    }
  }
}
