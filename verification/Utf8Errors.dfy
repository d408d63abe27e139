/** Which input ends in which error: the decoding of any octets whatever, told by the grammar. */
module Utf8Errors {
  import opened Utf8
  import opened Utf8Laws
  import opened Utf8Spec
  import opened Wrappers

  /** A lead octet that cannot be one, or an octet that is not a continuation where one is announced. */
  predicate BadStart(bs: seq<Octet>) {
    bs != [] &&
    (InvalidLead(bs[0]) || exists i :: 1 <= i < Min(|bs|, OctetCount(bs[0])) && InvalidContinuing(bs[i]))
  }

  /** The input ends inside a character that is right so far. */
  predicate CutStart(bs: seq<Octet>) {
    bs != [] && !InvalidLead(bs[0]) && |bs| < OctetCount(bs[0]) &&
    forall i :: 1 <= i < |bs| ==> !InvalidContinuing(bs[i])
  }

  lemma {:induction false} ContinuationErrors(acc: int, n: nat, bs: seq<Octet>)
    ensures ReadCont(acc, n, bs).Malformed? <==> exists i :: 0 <= i < Min(|bs|, n) && InvalidContinuing(bs[i])
    ensures ReadCont(acc, n, bs).Complete? ==> n <= |bs|
    ensures ReadCont(acc, n, bs).Truncated? ==> |bs| < n
    decreases n
  {
    if n > 0 && bs != [] && !InvalidContinuing(bs[0]) {
      ContinuationErrors(acc * 64 + (bs[0] - 0x80), n - 1, bs[1..]);
      assert forall i :: 0 <= i < |bs| - 1 ==> bs[1..][i] == bs[i + 1];
      assert forall i :: 1 <= i < |bs| ==> bs[i] == bs[1..][i - 1];
    }
  }

  lemma ReadErrors(bs: seq<Octet>)
    requires bs != []
    ensures ReadOne(bs).Malformed? <==> BadStart(bs)
    ensures ReadOne(bs).Truncated? <==> CutStart(bs)
    ensures ReadOne(bs).Complete? ==> OctetCount(bs[0]) <= |bs| && IsGroup(bs[..OctetCount(bs[0])])
  {
    ContinuationErrors(LeadBits(bs[0]), OctetCount(bs[0]) - 1, bs[1..]);
    assert forall i :: 0 <= i < |bs| - 1 ==> bs[1..][i] == bs[i + 1];
    assert forall i :: 1 <= i < |bs| ==> bs[i] == bs[1..][i - 1];
    if ReadOne(bs).Complete? {
      ReadIsGroup(bs);
    }
  }

  /** Every input is a run of complete characters followed by nothing, by a bad start or by a cut one. */
  lemma {:induction false} EveryInputSplits(bs: seq<Octet>) returns (gs: seq<seq<Octet>>, rest: seq<Octet>)
    ensures AllGroups(gs) && bs == Flatten(gs) + rest
    ensures rest == [] || BadStart(rest) || CutStart(rest)
    decreases |bs|
  {
    if bs != [] {
      ReadErrors(bs);
    }
    if bs != [] && ReadOne(bs).Complete? {
      var g := bs[..OctetCount(bs[0])];
      var hs;
      hs, rest := EveryInputSplits(bs[|g|..]);
      gs := [g] + hs;
      FlattenCons(g, hs);
      Associate(g, Flatten(hs), rest);
      CutAt(bs, |g|);
    } else {
      gs, rest := [], bs;
      assert bs == [] + bs;
    }
  }

  /** One value for each complete character that fits. */
  predicate Stores(gs: seq<seq<Octet>>, vs: seq<int>, cap: nat)
    requires AllGroups(gs)
  {
    |vs| == Min(|gs|, cap) && forall i :: 0 <= i < |vs| ==> ReadOne(gs[i]) == Complete(vs[i])
  }

  lemma DecodeIntoStep(g: seq<Octet>, tail: seq<Octet>, rest: seq<Octet>, cap: nat)
    requires IsGroup(g) && cap > 0
    ensures ReadOne(g).Complete?
    ensures var r := DecodeInto(tail + rest, cap - 1);
            DecodeInto((g + tail) + rest, cap) == r.(stored := [ReadOne(g).value] + r.stored)
  {
    Associate(g, tail, rest);
    GroupReads(g, tail + rest);
    assert (g + (tail + rest))[|g|..] == tail + rest;
  }

  lemma StoresCons(gs: seq<seq<Octet>>, v: int, vs: seq<int>, cap: nat)
    requires AllGroups(gs) && gs != [] && cap > 0
    requires ReadOne(gs[0]) == Complete(v) && Stores(gs[1..], vs, cap - 1)
    ensures Stores(gs, [v] + vs, cap)
  {
    forall i | 0 <= i < |vs| + 1 ensures ReadOne(gs[i]) == Complete(([v] + vs)[i]) {
      assert i > 0 ==> gs[i] == gs[1..][i - 1];
    }
  }

  /** Decoding stores the values of the complete characters that fit. A full buffer with input left is
      an insufficient buffer, whatever is left; otherwise the rest decides: nothing is success, a bad
      start an invalid character, and a cut one an insufficient buffer, the last two reporting 0 cells. */
  lemma {:induction false} DecodeEnds(gs: seq<seq<Octet>>, rest: seq<Octet>, cap: nat)
    requires AllGroups(gs) && (rest == [] || BadStart(rest) || CutStart(rest))
    ensures var r := DecodeInto(Flatten(gs) + rest, cap);
            && Stores(gs, r.stored, cap)
            && r.ec == (if Full(gs, rest, cap) then InsufficientBuffer
                        else if rest == [] then Ok
                        else if BadStart(rest) then InvalidCharacter else InsufficientBuffer)
            && r.aborted == (!Full(gs, rest, cap) && rest != [])
    decreases |gs|
  {
    if gs == [] {
      NothingComplete(rest, cap);
      assert Flatten(gs) + rest == rest;
    } else if cap > 0 {
      ghost var g, tail := gs[0], Flatten(gs[1..]);
      DecodeEnds(gs[1..], rest, cap - 1);
      DecodeIntoStep(g, tail, rest, cap);
      StoresCons(gs, ReadOne(g).value, DecodeInto(tail + rest, cap - 1).stored, cap);
    } else {
      assert IsGroup(gs[0]) && Flatten(gs) + rest != [];
    }
  }

  lemma NothingComplete(rest: seq<Octet>, cap: nat)
    requires rest == [] || BadStart(rest) || CutStart(rest)
    ensures var r := DecodeInto(rest, cap);
            && r.stored == []
            && r.ec == (if rest == [] then Ok
                        else if cap > 0 && BadStart(rest) then InvalidCharacter else InsufficientBuffer)
            && r.aborted == (cap > 0 && rest != [])
  {
    if rest != [] {
      ReadErrors(rest);
    }
  }

  predicate Full(gs: seq<seq<Octet>>, rest: seq<Octet>, cap: nat) {
    cap < |gs| || (cap == |gs| && rest != [])
  }

  /** A negative value is written as its lowest octet. */
  lemma NegativeOctet(w: WChar)
    requires w < 0
    ensures |EncodeOne(w)| == 1 && (EncodeOne(w)[0] - w) % 256 == 0
  {
    assert w / Shift(0) == w;
  }

  // ---- the size asked for -----------------------------------------------------------------------

  /** As many octets as the first of them announces, whatever they are. */
  predicate IsStride(g: seq<Octet>) {
    g != [] && |g| == OctetCount(g[0])
  }

  predicate AllStrides(gs: seq<seq<Octet>>) {
    forall i :: 0 <= i < |gs| ==> IsStride(gs[i])
  }

  ghost predicate StridesTo(bs: seq<Octet>, n: nat) {
    n <= |bs| && exists gs :: AllStrides(gs) && Flatten(gs) == bs[..n]
  }

  lemma StridesHead(bs: seq<Octet>, n: nat)
    requires bs != [] && 0 < n <= |bs| && StridesTo(bs, n)
    ensures OctetCount(bs[0]) <= n && StridesTo(bs[OctetCount(bs[0])..], n - OctetCount(bs[0]))
  {
    ghost var k := OctetCount(bs[0]);
    var gs :| AllStrides(gs) && Flatten(gs) == bs[..n];
    ghost var g, hs := gs[0], gs[1..];
    assert IsStride(g) && g[0] == bs[..n][0];
    assert g + Flatten(hs) == bs[..n];
    RestAt(bs[..n], 0, g, Flatten(hs));
    assert bs[..n][k..] == bs[k..][..n - k];
    assert AllStrides(hs);
  }

  lemma StridesCons(bs: seq<Octet>, n: nat)
    requires bs != [] && OctetCount(bs[0]) <= n <= |bs|
    requires StridesTo(bs[OctetCount(bs[0])..], n - OctetCount(bs[0]))
    ensures StridesTo(bs, n)
  {
    ghost var k := OctetCount(bs[0]);
    var hs :| AllStrides(hs) && Flatten(hs) == bs[k..][..n - k];
    ghost var gs := [bs[..k]] + hs;
    assert gs[1..] == hs;
    assert bs[..k] + bs[k..][..n - k] == bs[..n];
    assert AllStrides(gs) && Flatten(gs) == bs[..n];
  }

  /** `size_as_wide` is the length of the longest prefix made of whole strides. */
  lemma {:induction false} StridePrefixLongest(bs: seq<Octet>)
    ensures StridesTo(bs, StridePrefix(bs))
    ensures forall n :: StridePrefix(bs) < n <= |bs| ==> !StridesTo(bs, n)
    decreases |bs|
  {
    ghost var none: seq<seq<Octet>> := [];
    assert AllStrides(none) && Flatten(none) == bs[..0];
    if bs != [] {
      ghost var k := OctetCount(bs[0]);
      if k <= |bs| {
        StridePrefixLongest(bs[k..]);
        StridesCons(bs, StridePrefix(bs));
      }
      forall n | StridePrefix(bs) < n <= |bs| ensures !StridesTo(bs, n) {
        if StridesTo(bs, n) {
          StridesHead(bs, n);
        }
      }
    }
  }

  /** What a lead octet announces: a valid one the form whose range it lies in, any other one six. */
  lemma LeadTable(lead: Octet)
    ensures var n := OctetCount(lead) - 1;
            if InvalidLead(lead) then n == 5
            else Octet1Modifier(n) <= lead < Octet1Modifier(n) + LeadRoom(n)
  {
  }
}
