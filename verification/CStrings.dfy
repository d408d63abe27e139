/** Texts read through a pointer: a C string ends at its first NUL. */
module CStrings {

  /** What a C string shows of `st`: the characters before the first NUL. */
  function Visible(st: string): (r: string)
    ensures r <= st && '\0' !in r
    ensures r != st ==> st[|r|] == '\0'
  {
    if st == "" || st[0] == '\0' then "" else [st[0]] + Visible(st[1..])
  }

  lemma {:induction false} VisibleAfter(u: string, v: string)
    ensures '\0' !in u ==> Visible(u + v) == u + Visible(v)
  {
    if u == "" {
      assert u + v == v;
    } else {
      VisibleAfter(u[1..], v);
      assert u == [u[0]] + u[1..] && (u + v)[1..] == u[1..] + v;
    }
  }

  lemma {:induction false} VisibleWhole(s: string)
    ensures Visible(s) == s <==> '\0' !in s
  {
    if s != "" {
      VisibleWhole(s[1..]);
      assert s == [s[0]] + s[1..];
    }
  }
}
