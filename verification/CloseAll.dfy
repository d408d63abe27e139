/** `close_all` of `src/posix/close_handles.cpp`: the interval form over an ordered whitelist and the
    walking form over the descriptor table, proved to agree. */
module CloseAll {
  import opened Wrappers

  const INT_MAX := 0x7FFF_FFFF

  datatype Range = Range(first: int, last: int)

  ghost predicate Ordered(w: seq<int>) {
    forall i, j :: 0 <= i < j < |w| ==> w[i] <= w[j]
  }

  ghost predicate Descriptors(w: seq<int>) {
    forall i :: 0 <= i < |w| ==> 0 <= w[i] < INT_MAX
  }

  ghost predicate Covers(rs: seq<Range>, fd: int) {
    exists i :: 0 <= i < |rs| && rs[i].first <= fd <= rs[i].last
  }

  /** Well formed, ascending and disjoint: between two ranges there is always a kept descriptor. */
  ghost predicate Ascending(rs: seq<Range>) {
    && (forall i :: 0 <= i < |rs| ==> 0 <= rs[i].first <= rs[i].last <= INT_MAX)
    && (forall i, j :: 0 <= i < j < |rs| ==> rs[i].last + 1 < rs[j].first)
  }

  // ---- the ranges issued ------------------------------------------------------------------

  /** The ranges between neighbouring entries. */
  function GapsBetween(w: seq<int>): seq<Range> {
    if |w| <= 1 then [] else Gap(w[0], w[1]) + GapsBetween(w[1..])
  }

  function Gap(mine: int, next: int): seq<Range> {
    if mine + 1 != next && mine != next then [Range(mine + 1, next - 1)] else []
  }

  function FrontGap(w: seq<int>): seq<Range>
    requires w != []
  {
    if w[0] != 0 then [Range(0, w[0] - 1)] else []
  }

  function Gaps(w: seq<int>): seq<Range> {
    if w == [] then [Range(0, INT_MAX)]
    else FrontGap(w) + GapsBetween(w) + [Range(w[|w| - 1] + 1, INT_MAX)]
  }

  lemma CoversConcat(a: seq<Range>, b: seq<Range>, fd: int)
    ensures Covers(a + b, fd) <==> Covers(a, fd) || Covers(b, fd)
  {
    if Covers(a, fd) {
      var i :| 0 <= i < |a| && a[i].first <= fd <= a[i].last;
      assert (a + b)[i] == a[i];
    }
    if Covers(b, fd) {
      var i :| 0 <= i < |b| && b[i].first <= fd <= b[i].last;
      assert (a + b)[|a| + i] == b[i];
    }
  }

  lemma OrderedTail(w: seq<int>)
    requires |w| > 1 && Ordered(w)
    ensures Ordered(w[1..]) && w[0] <= w[1] <= w[|w| - 1]
    ensures forall x :: x in w[1..] ==> w[1] <= x
  {
    forall x | x in w[1..] ensures w[1] <= x {
      var i :| 0 <= i < |w[1..]| && w[1..][i] == x;
      assert w[i + 1] == x;
    }
  }

  lemma CoversSpan(r: Range, fd: int)
    ensures Covers([r], fd) <==> r.first <= fd <= r.last
  {
    assert [r][0] == r;
  }

  lemma {:induction false} GapsBetweenCover(w: seq<int>, fd: int)
    requires w != [] && Ordered(w)
    ensures Covers(GapsBetween(w), fd) <==> w[0] < fd < w[|w| - 1] && fd !in w
  {
    if |w| > 1 {
      var gap, tail := Range(w[0] + 1, w[1] - 1), w[1..];
      var head := Gap(w[0], w[1]);
      OrderedTail(w);
      GapsBetweenCover(tail, fd);
      CoversConcat(head, GapsBetween(tail), fd);
      CoversSpan(gap, fd);
      assert Covers(head, fd) <==> w[0] < fd < w[1];
      assert fd in w <==> fd == w[0] || fd in tail by {
        assert w == [w[0]] + tail;
      }
    }
  }

  lemma {:induction false} GapsBetweenAscend(w: seq<int>)
    requires w != [] && Ordered(w) && Descriptors(w)
    ensures Ascending(GapsBetween(w))
    ensures forall i :: 0 <= i < |GapsBetween(w)| ==> w[0] < GapsBetween(w)[i].first && GapsBetween(w)[i].last < w[|w| - 1]
  {
    if |w| > 1 {
      GapsBetweenAscend(w[1..]);
    }
  }

  /** The issued ranges cover exactly the descriptors that are not on the whitelist. */
  lemma GapsCoverComplement(w: seq<int>, fd: int)
    requires Ordered(w) && Descriptors(w) && 0 <= fd <= INT_MAX
    ensures Covers(Gaps(w), fd) <==> fd !in w
  {
    if w == [] {
      assert Gaps(w)[0].first <= fd <= Gaps(w)[0].last;
    } else {
      var front, between, back := FrontGap(w), GapsBetween(w), Range(w[|w| - 1] + 1, INT_MAX);
      assert Gaps(w) == front + between + [back];
      assert w[0] in w && w[|w| - 1] in w;
      if fd in w {
        OrderedBounds(w, fd);
      }
      GapsBetweenCover(w, fd);
      CoversConcat(front + between, [back], fd);
      CoversConcat(front, between, fd);
      CoversSpan(back, fd);
      if w[0] != 0 {
        CoversSpan(Range(0, w[0] - 1), fd);
      }
    }
  }

  lemma OrderedBounds(w: seq<int>, x: int)
    requires w != [] && Ordered(w) && x in w
    ensures w[0] <= x <= w[|w| - 1]
  {
  }

  lemma GapsAscend(w: seq<int>)
    requires Ordered(w) && Descriptors(w)
    ensures Ascending(Gaps(w))
  {
    if w != [] {
      GapsBetweenAscend(w);
      AscendingAround(w, GapsBetween(w));
    }
  }

  lemma AscendingAround(w: seq<int>, between: seq<Range>)
    requires w != [] && Ordered(w) && Descriptors(w) && Ascending(between)
    requires forall i :: 0 <= i < |between| ==> w[0] < between[i].first && between[i].last < w[|w| - 1]
    ensures Ascending(FrontGap(w) + between + [Range(w[|w| - 1] + 1, INT_MAX)])
  {
    ghost var front := FrontGap(w);
    ghost var all := front + between + [Range(w[|w| - 1] + 1, INT_MAX)];
    assert 0 <= w[0] <= w[|w| - 1] < INT_MAX;
    forall i | 0 <= i < |all| ensures 0 <= all[i].first <= all[i].last <= INT_MAX {
      assert |front| <= i < |front| + |between| ==> all[i] == between[i - |front|];
    }
    forall i, j | 0 <= i < j < |all| ensures all[i].last + 1 < all[j].first {
      assert |front| <= i < |front| + |between| ==> all[i] == between[i - |front|];
      assert |front| <= j < |front| + |between| ==> all[j] == between[j - |front|];
    }
  }

  // ---- the descriptor table -----------------------------------------------------------------

  function CloseSpan(open: set<int>, r: Range): set<int> {
    set fd | fd in open && !(r.first <= fd <= r.last)
  }

  /** Closing the ranges one after the other. */
  function Close(open: set<int>, rs: seq<Range>): set<int> {
    if rs == [] then open else CloseSpan(Close(open, rs[..|rs| - 1]), rs[|rs| - 1])
  }

  lemma CloseOneMore(open: set<int>, rs: seq<Range>, r: Range)
    ensures Close(open, rs + [r]) == CloseSpan(Close(open, rs), r)
  {
    assert (rs + [r])[..|rs + [r]| - 1] == rs;
  }

  lemma {:induction false} CloseKeepsUncovered(open: set<int>, rs: seq<Range>)
    ensures Close(open, rs) == set fd | fd in open && !Covers(rs, fd)
  {
    if rs != [] {
      var init, last := rs[..|rs| - 1], rs[|rs| - 1];
      CloseKeepsUncovered(open, init);
      assert rs == init + [last];
      forall fd ensures Covers(rs, fd) <==> Covers(init, fd) || last.first <= fd <= last.last {
        CoversConcat(init, [last], fd);
        CoversSpan(last, fd);
      }
    }
  }

  predicate ValidTable(open: set<int>) {
    forall fd :: fd in open ==> 0 <= fd <= INT_MAX
  }

  /** The interval form closes exactly what is not on the whitelist. */
  lemma CloseGapsIsFilter(open: set<int>, w: seq<int>)
    requires Ordered(w) && Descriptors(w) && ValidTable(open)
    ensures Close(open, Gaps(w)) == set fd | fd in open && fd in w
  {
    CloseKeepsUncovered(open, Gaps(w));
    forall fd | fd in open ensures Covers(Gaps(w), fd) <==> fd !in w {
      GapsCoverComplement(w, fd);
    }
  }

  class DescriptorTable {
    var open: set<int>
    ghost var issued: seq<Range>

    constructor (open: set<int>)
      ensures this.open == open && issued == []
    {
      this.open, issued := open, [];
    }

    /** `::close_range(first, last, CLOSE_RANGE_UNSHARE)` */
    method CloseRange(first: int, last: int)
      modifies this
      ensures issued == old(issued) + [Range(first, last)]
      ensures open == CloseSpan(old(open), Range(first, last))
    {
      open := CloseSpan(open, Range(first, last));
      issued := issued + [Range(first, last)];
    }

    /** `::close(fd)` */
    method CloseOne(fd: int)
      modifies this
      ensures issued == old(issued)
      ensures open == old(open) - {fd}
    {
      open := open - {fd};
    }
  }

  lemma GapsBetweenSnoc(w: seq<int>, idx: nat)
    requires idx + 1 < |w|
    ensures GapsBetween(w[..idx + 2]) ==
            GapsBetween(w[..idx + 1]) + Gap(w[idx], w[idx + 1])
  {
    if idx > 0 {
      GapsBetweenSnoc(w[1..], idx - 1);
      assert w[..idx + 2][1..] == w[1..][..idx + 1];
      assert w[..idx + 1][1..] == w[1..][..idx];
    }
  }

  /** One range, after `rs`. */
  method Issue(table: DescriptorTable, first: int, last: int, ghost open: set<int>, ghost rs: seq<Range>)
    requires table.open == Close(open, rs)
    modifies table
    ensures table.issued == old(table.issued) + [Range(first, last)]
    ensures table.open == Close(open, rs + [Range(first, last)])
  {
    CloseOneMore(open, rs, Range(first, last));
    table.CloseRange(first, last);
  }

  /** One turn of the loop over neighbouring entries. */
  method CloseGap(table: DescriptorTable, mine: int, next: int, ghost open: set<int>, ghost rs: seq<Range>)
    requires table.open == Close(open, rs)
    modifies table
    ensures table.issued == old(table.issued) + Gap(mine, next)
    ensures table.open == Close(open, rs + Gap(mine, next))
  {
    assert rs + [] == rs && table.issued + [] == table.issued;
    if mine + 1 != next && mine != next {
      Issue(table, mine + 1, next - 1, open, rs);
    }
  }

  /** That loop. */
  method CloseBetween(whitelist: seq<int>, table: DescriptorTable, ghost open: set<int>, ghost rs: seq<Range>)
    requires whitelist != [] && table.open == Close(open, rs)
    modifies table
    ensures table.issued == old(table.issued) + GapsBetween(whitelist)
    ensures table.open == Close(open, rs + GapsBetween(whitelist))
  {
    ghost var issued, done: seq<Range> := table.issued, [];
    assert rs + done == rs && issued + done == issued;
    for idx := 0 to |whitelist| - 1
      invariant done == GapsBetween(whitelist[..idx + 1])
      invariant table.issued == issued + done && table.open == Close(open, rs + done)
    {
      ghost var gap := Gap(whitelist[idx], whitelist[idx + 1]);
      GapsBetweenSnoc(whitelist, idx);
      CloseGap(table, whitelist[idx], whitelist[idx + 1], open, rs + done);
      Associate(rs, done, gap);
      Associate(issued, done, gap);
      done := done + gap;
    }
    assert whitelist[..|whitelist|] == whitelist;
  }

  /** The `close_range` form. What it issues is `Gaps(whitelist)`, what survives is the whitelist. */
  method CloseAllRanges(whitelist: seq<int>, table: DescriptorTable)
    requires Ordered(whitelist) && Descriptors(whitelist) && ValidTable(table.open)
    modifies table
    ensures table.issued == old(table.issued) + Gaps(whitelist)
    ensures table.open == set fd | fd in old(table.open) && fd in whitelist
  {
    ghost var open := table.open;
    CloseGapsIsFilter(open, whitelist);
    if whitelist != [] {
      IssueGaps(whitelist, table, open);
    } else {
      assert Close(open, []) == open && [] + [Range(0, INT_MAX)] == Gaps(whitelist);
      Issue(table, 0, INT_MAX, open, []);
    }
  }

  method IssueFront(whitelist: seq<int>, table: DescriptorTable)
    requires whitelist != []
    modifies table
    ensures table.issued == old(table.issued) + FrontGap(whitelist)
    ensures table.open == Close(old(table.open), FrontGap(whitelist))
  {
    ghost var open, issued := table.open, table.issued;
    assert issued + [] == issued && Close(open, []) == open;
    if whitelist[0] != 0 {
      Issue(table, 0, whitelist[0] - 1, open, []);
      assert [] + [Range(0, whitelist[0] - 1)] == FrontGap(whitelist);
    }
  }

  method IssueGaps(whitelist: seq<int>, table: DescriptorTable, ghost open: set<int>)
    requires whitelist != [] && table.open == open
    modifies table
    ensures table.issued == old(table.issued) + Gaps(whitelist)
    ensures table.open == Close(open, Gaps(whitelist))
  {
    var last := whitelist[|whitelist| - 1] + 1;
    ghost var issued, front, between, back := table.issued, FrontGap(whitelist), GapsBetween(whitelist), [Range(last, INT_MAX)];
    assert Gaps(whitelist) == front + between + back;
    IssueFront(whitelist, table);
    CloseBetween(whitelist, table, open, front);
    Issue(table, last, INT_MAX, open, front + between);
    Associate(issued, front, between);
    Associate(issued, front + between, back);
  }

  /** One `::close` in the walk. After a failure the system decides whether the descriptor is gone. */
  datatype CloseAnswer = Closed | Failed(errno: int, gone: bool)

  /** Where the walk stops: `fdwalk` goes on only while its callback returns 0. */
  function Stop(whitelist: seq<int>, visited: seq<int>, answers: seq<CloseAnswer>): (n: nat)
    requires |answers| == |visited|
    ensures n <= |visited|
    ensures n < |visited| ==> visited[n] !in whitelist && answers[n].Failed?
    ensures forall i :: 0 <= i < n ==> visited[i] in whitelist || answers[i].Closed?
  {
    if visited == [] || (visited[0] !in whitelist && answers[0].Failed?) then 0
    else 1 + Stop(whitelist, visited[1..], answers[1..])
  }

  /** The `fdwalk` form: the system visits the open descriptors in some order, and the callback closes
      those it does not find on the whitelist, which need not be ordered. If no close fails it leaves what
      the interval form leaves. The error code is whatever errno holds in the end, also when nothing
      failed and errno is a stale one. */
  method CloseAllWalking(whitelist: seq<int>, table: DescriptorTable, visited: seq<int>,
                         answers: seq<CloseAnswer>, errno0: int)
    returns (ec: int)
    requires forall fd :: fd in table.open <==> fd in visited
    requires |answers| == |visited|
    modifies table
    ensures table.issued == old(table.issued)
    ensures var n := Stop(whitelist, visited, answers);
            if n == |visited| then
              ec == errno0 && table.open == set fd | fd in old(table.open) && fd in whitelist
            else
              && ec == answers[n].errno
              && table.open == set fd | fd in old(table.open) &&
                   (fd in whitelist || (fd !in visited[..n] && !(answers[n].gone && fd == visited[n])))
  {
    var errno, i := errno0, 0;
    ghost var n := Stop(whitelist, visited, answers);
    while i < |visited|
      invariant 0 <= i <= n && errno == errno0 && table.issued == old(table.issued)
      invariant table.open == set fd | fd in old(table.open) && (fd !in visited[..i] || fd in whitelist)
    {
      assert visited[..i + 1] == visited[..i] + [visited[i]];
      StopUnique(whitelist, visited, answers, i);
      if visited[i] !in whitelist {
        match answers[i] {
          case Closed => table.CloseOne(visited[i]);
          case Failed(e, gone) =>
            errno := e;
            if gone {
              table.CloseOne(visited[i]);
            }
            return errno;
        }
      }
      i := i + 1;
    }
    assert visited[..|visited|] == visited;
    assert forall fd :: fd in old(table.open) ==> fd in visited;
    ec := errno;
  }

  lemma StopUnique(whitelist: seq<int>, visited: seq<int>, answers: seq<CloseAnswer>, i: nat)
    requires |answers| == |visited| && i < |visited| && i <= Stop(whitelist, visited, answers)
    ensures visited[i] !in whitelist && answers[i].Failed? <==> i == Stop(whitelist, visited, answers)
  {
  }

  // ---- ordering the whitelist -----------------------------------------------------------------

  function InsertOrdered(x: int, w: seq<int>): (r: seq<int>)
    ensures multiset(r) == multiset(w) + multiset{x}
  {
    if w == [] || x <= w[0] then assert [x] + w == [x] + w; [x] + w
    else assert w == [w[0]] + w[1..]; [w[0]] + InsertOrdered(x, w[1..])
  }

  /** The result of `std::sort`. */
  function Sorted(w: seq<int>): (r: seq<int>)
    ensures multiset(r) == multiset(w)
  {
    if w == [] then [] else assert w == [w[0]] + w[1..]; InsertOrdered(w[0], Sorted(w[1..]))
  }

  lemma {:induction false} InsertMembers(x: int, w: seq<int>)
    ensures forall k :: 0 <= k < |InsertOrdered(x, w)| ==> InsertOrdered(x, w)[k] == x || InsertOrdered(x, w)[k] in w
  {
    if w != [] && x > w[0] {
      InsertMembers(x, w[1..]);
      assert w == [w[0]] + w[1..];
    }
  }

  lemma {:induction false} InsertKeepsOrder(x: int, w: seq<int>)
    requires Ordered(w)
    ensures Ordered(InsertOrdered(x, w))
  {
    if w != [] && x > w[0] {
      InsertMembers(x, w[1..]);
      InsertKeepsOrder(x, w[1..]);
    }
  }

  lemma {:induction false} SortedIsOrdered(w: seq<int>)
    ensures Ordered(Sorted(w))
  {
    if w != [] {
      SortedIsOrdered(w[1..]);
      InsertKeepsOrder(w[0], Sorted(w[1..]));
    }
  }

  lemma SortedMembers(w: seq<int>)
    ensures forall x :: x in Sorted(w) <==> x in w
    ensures Descriptors(w) ==> Descriptors(Sorted(w))
  {
    var r := Sorted(w);
    forall x ensures x in r <==> x in w {
      assert x in multiset(r) <==> x in multiset(w);
    }
    if Descriptors(w) {
      forall i | 0 <= i < |r| ensures 0 <= r[i] < INT_MAX {
        assert r[i] in w;
      }
    }
  }
}
