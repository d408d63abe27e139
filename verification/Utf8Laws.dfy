/** Laws of the UTF-8 functions: round trip, value bounds, normal form, grammar. */
module Utf8Laws {
  import opened Wrappers
  import opened Utf8Spec

  // ---- one character ------------------------------------------------------------------------

  lemma ShiftStep(w: int, n: nat)
    requires 0 <= w < 0x8000_0000 && 1 <= n <= 5
    ensures (w / Shift(n)) * 64 + (w / Shift(n - 1)) % 64 == w / Shift(n - 1)
  {
    assert n == 1 || n == 2 || n == 3 || n == 4 || n == 5;
  }

  lemma {:induction false} ReadContInvertsContOctets(w: WChar, n: nat, rest: seq<Octet>)
    requires w >= 0 && n <= 5
    ensures ReadCont(w / Shift(n), n, ContOctets(w, n) + rest) == Complete(w)
  {
    if n > 0 {
      var bs := ContOctets(w, n) + rest;
      assert bs[0] == ContOctet(w, n - 1);
      assert bs[1..] == ContOctets(w, n - 1) + rest;
      ShiftStep(w, n);
      ReadContInvertsContOctets(w, n - 1, rest);
    }
  }

  /** The first value whose top bits do not fit the lead octet of `n` continuation octets. */
  function LeadRoom(n: nat): nat
    requires n <= 5
  {
    match n
    case 0 => 0x80
    case 1 => 0x20
    case 2 => 0x10
    case 3 => 0x08
    case 4 => 0x04
    case _ => 0x02
  }

  lemma TopBits(w: WChar)
    requires w >= 0
    ensures 0 <= w / Shift(ContOctetOutCount(w)) < LeadRoom(ContOctetOutCount(w))
  {
  }

  lemma LeadOctetShape(w: WChar)
    requires w >= 0
    ensures !InvalidLead(LeadOctet(w))
    ensures OctetCount(LeadOctet(w)) == ContOctetOutCount(w) + 1
    ensures LeadBits(LeadOctet(w)) == w / Shift(ContOctetOutCount(w))
  {
    TopBits(w);
    ghost var n, top := ContOctetOutCount(w), w / Shift(ContOctetOutCount(w));
    assert LeadOctet(w) == Octet1Modifier(n) + top;
  }

  lemma ReadOneInvertsEncodeOne(w: WChar, rest: seq<Octet>)
    requires w >= 0
    ensures ReadOne(EncodeOne(w) + rest) == Complete(w)
    ensures OctetCount(EncodeOne(w)[0]) == |EncodeOne(w)|
  {
    var n, lead := ContOctetOutCount(w), LeadOctet(w);
    var bs := EncodeOne(w) + rest;
    LeadOctetShape(w);
    assert bs[0] == lead && bs[1..] == ContOctets(w, n) + rest;
    assert ReadOne(bs) == ReadCont(w / Shift(n), n, ContOctets(w, n) + rest);
    ReadContInvertsContOctets(w, n, rest);
  }

  /** Reading never yields a negative value, and `n` more octets pin the value to `acc`'s block. */
  lemma {:induction false} ReadContBounds(acc: int, n: nat, bs: seq<Octet>)
    requires n <= 5 && ReadCont(acc, n, bs).Complete?
    ensures acc * Shift(n) <= ReadCont(acc, n, bs).value < (acc + 1) * Shift(n)
    decreases n
  {
    if n > 0 {
      ReadContBounds(acc * 64 + (bs[0] - 0x80), n - 1, bs[1..]);
      assert n == 1 || n == 2 || n == 3 || n == 4 || n == 5;
    }
  }

  /** The decoder's value bound: below the encoder's threshold for the octets read. */
  lemma ReadOneBounds(bs: seq<Octet>)
    requires bs != [] && ReadOne(bs).Complete?
    ensures 0 <= ReadOne(bs).value < Threshold(OctetCount(bs[0]))
  {
    ReadContBounds(LeadBits(bs[0]), OctetCount(bs[0]) - 1, bs[1..]);
  }

  lemma {:induction false} ReadContDigits(acc: int, n: nat, bs: seq<Octet>, v: WChar)
    requires n <= 5 && acc >= 0 && v >= 0 && n <= |bs|
    requires ReadCont(acc, n, bs) == Complete(v)
    ensures v / Shift(n) == acc
    ensures ContOctets(v, n) == bs[..n]
    decreases n
  {
    if n > 0 {
      var acc' := acc * 64 + (bs[0] - 0x80);
      ReadContLength(acc, n, bs);
      ReadContDigits(acc', n - 1, bs[1..], v);
      ShiftStep(v, n);
      assert bs[..n] == [bs[0]] + bs[1..][..n - 1];
    }
  }

  lemma GroupReads(g: seq<Octet>, rest: seq<Octet>)
    requires IsGroup(g)
    ensures ReadOne(g + rest) == ReadOne(g)
    ensures ReadOne(g).Complete?
  {
    assert (g + rest)[1..] == g[1..] + rest;
    ContinuingReads(LeadBits(g[0]), g[1..], rest);
    ContinuingReads(LeadBits(g[0]), g[1..], []);
    assert g[1..] + [] == g[1..];
  }

  lemma {:induction false} ContinuingReads(acc: int, cs: seq<Octet>, rest: seq<Octet>)
    requires forall i :: 0 <= i < |cs| ==> !InvalidContinuing(cs[i])
    ensures ReadCont(acc, |cs|, cs + rest).Complete?
    ensures ReadCont(acc, |cs|, cs + rest) == ReadCont(acc, |cs|, cs)
    decreases |cs|
  {
    if cs != [] {
      assert (cs + rest)[1..] == cs[1..] + rest;
      ContinuingReads(acc * 64 + (cs[0] - 0x80), cs[1..], rest);
    }
  }

  /** A group whose value needs all its octets is the encoding of that value. */
  lemma MinimalGroup(g: seq<Octet>, v: WChar)
    requires IsGroup(g) && ReadOne(g) == Complete(v)
    requires v >= 0 && ContOctetOutCount(v) == |g| - 1
    ensures EncodeOne(v) == g
  {
    var n, lead := |g| - 1, g[0];
    ReadContDigits(LeadBits(lead), n, g[1..], v);
    assert g[1..][..n] == g[1..];
    SameLead(lead, v);
    assert g == [lead] + g[1..];
  }

  lemma SameLead(lead: Octet, v: WChar)
    requires !InvalidLead(lead) && v >= 0 && ContOctetOutCount(v) == OctetCount(lead) - 1
    requires v / Shift(ContOctetOutCount(v)) == LeadBits(lead)
    ensures LeadOctet(v) == lead
  {
  }

  lemma OctetsNeeded(v: WChar, k: nat)
    requires 1 <= k <= 6 && 0 <= v < Threshold(k)
    ensures ContOctetOutCount(v) + 1 <= k
    ensures ContOctetOutCount(v) + 1 == k <==> k == 1 || v >= Threshold(k - 1)
  {
  }

  /** Re-encoding the value of one group gives the group back exactly when the group is not overlong,
      and something shorter otherwise. */
  lemma GroupNormalForm(g: seq<Octet>)
    requires IsGroup(g)
    ensures ReadOne(g).Complete? && 0 <= ReadOne(g).value < 0x8000_0000
    ensures var e := EncodeOne(ReadOne(g).value);
            if Overlong(g) then |e| < |g| else e == g
  {
    GroupReads(g, []);
    assert g + [] == g;
    ReadOneBounds(g);
    var v: WChar := ReadOne(g).value;
    OverlongValue(g, v);
    OctetsNeeded(v, |g|);
    if !Overlong(g) {
      MinimalGroup(g, v);
    }
  }

  lemma OverlongValue(g: seq<Octet>, v: WChar)
    requires IsGroup(g) && ReadOne(g) == Complete(v)
    ensures Overlong(g) <==> |g| > 1 && v < Threshold(|g| - 1)
  {
    if |g| > 1 {
      var acc := LeadBits(g[0]) * 64 + (g[1] - 0x80);
      assert g[1..][0] == g[1];
      assert ReadCont(acc, |g| - 2, g[1..][1..]) == Complete(v);
      ReadContBounds(acc, |g| - 2, g[1..][1..]);
    }
  }

  // ---- whole strings ------------------------------------------------------------------------

  /** Every decoded value is non-negative and below 2^31. */
  lemma {:induction false} DecodeBounds(bs: seq<Octet>)
    requires Decode(bs).Some?
    ensures forall i :: 0 <= i < |Decode(bs).value| ==> 0 <= Decode(bs).value[i] < 0x8000_0000
  {
    if bs != [] {
      ReadContLength(LeadBits(bs[0]), OctetCount(bs[0]) - 1, bs[1..]);
      ReadOneBounds(bs);
      DecodeBounds(bs[OctetCount(bs[0])..]);
    }
  }

  lemma {:induction false} DecodeInvertsEncode(ws: seq<WChar>)
    requires forall i :: 0 <= i < |ws| ==> ws[i] >= 0
    ensures Decode(Encode(ws)) == Some(ws)
  {
    if ws != [] {
      var rest := Encode(ws[1..]);
      var bs := Encode(ws);
      ReadOneInvertsEncodeOne(ws[0], rest);
      assert bs[0] == EncodeOne(ws[0])[0];
      ReadContLength(LeadBits(bs[0]), OctetCount(bs[0]) - 1, bs[1..]);
      assert bs[OctetCount(bs[0])..] == rest;
      DecodeInvertsEncode(ws[1..]);
      assert ws == [ws[0]] + ws[1..];
    }
  }

  /** Over the whole range of a signed 32-bit `wchar_t`, the codec round-trips exactly the strings
      without negative values. */
  lemma RoundTripIff(ws: seq<WChar>)
    ensures Decode(Encode(ws)) == Some(ws) <==> forall i :: 0 <= i < |ws| ==> ws[i] >= 0
  {
    if Decode(Encode(ws)) == Some(ws) {
      DecodeBounds(Encode(ws));
    } else if forall i :: 0 <= i < |ws| ==> ws[i] >= 0 {
      DecodeInvertsEncode(ws);
    }
  }

  lemma ReadIsGroup(bs: seq<Octet>)
    requires bs != [] && ReadOne(bs).Complete?
    ensures OctetCount(bs[0]) <= |bs| && IsGroup(bs[..OctetCount(bs[0])])
  {
    ghost var n, tail := OctetCount(bs[0]) - 1, bs[1..];
    ReadContLength(LeadBits(bs[0]), n, tail);
    ghost var g := bs[..n + 1];
    forall i | 1 <= i < |g| ensures !InvalidContinuing(g[i]) {
      assert g[i] == tail[i - 1];
    }
  }

  lemma DecodeTail(bs: seq<Octet>)
    requires bs != [] && Decode(bs).Some?
    ensures ReadOne(bs).Complete? && OctetCount(bs[0]) <= |bs| && Decode(bs[OctetCount(bs[0])..]).Some?
  {
    if ReadOne(bs).Complete? {
      ReadContLength(LeadBits(bs[0]), OctetCount(bs[0]) - 1, bs[1..]);
    }
  }

  lemma CutAt(bs: seq<Octet>, k: nat)
    requires k <= |bs|
    ensures bs == bs[..k] + bs[k..]
  {
  }

  lemma FlattenCons(g: seq<Octet>, tail: seq<seq<Octet>>)
    requires IsGroup(g) && AllGroups(tail)
    ensures AllGroups([g] + tail) && Flatten([g] + tail) == g + Flatten(tail)
  {
    assert ([g] + tail)[1..] == tail;
  }

  /** The groups an accepted input is made of. */
  ghost function Groups(bs: seq<Octet>): (gs: seq<seq<Octet>>)
    requires Decode(bs).Some?
    ensures AllGroups(gs) && Flatten(gs) == bs
  {
    if bs == [] then []
    else
      var k := OctetCount(bs[0]);
      DecodeTail(bs);
      ReadIsGroup(bs);
      CutAt(bs, k);
      FlattenCons(bs[..k], Groups(bs[k..]));
      [bs[..k]] + Groups(bs[k..])
  }

  lemma {:induction false} DecodeFlatten(gs: seq<seq<Octet>>)
    requires AllGroups(gs)
    ensures Decode(Flatten(gs)).Some?
    ensures Groups(Flatten(gs)) == gs
  {
    if gs != [] {
      var g, rest := gs[0], Flatten(gs[1..]);
      var bs := Flatten(gs);
      GroupReads(g, rest);
      assert bs[0] == g[0];
      assert bs[OctetCount(bs[0])..] == rest && bs[..OctetCount(bs[0])] == g;
      DecodeFlatten(gs[1..]);
    }
  }

  /** The decoder accepts exactly the concatenations of complete lead-plus-continuation groups. */
  lemma AcceptsIffGrammar(bs: seq<Octet>)
    ensures Decode(bs).Some? <==> exists gs: seq<seq<Octet>> :: AllGroups(gs) && Flatten(gs) == bs
  {
    if Decode(bs).Some? {
      var gs := Groups(bs);
      assert AllGroups(gs) && Flatten(gs) == bs;
    }
    if gs: seq<seq<Octet>> :| AllGroups(gs) && Flatten(gs) == bs {
      DecodeFlatten(gs);
    }
  }

  lemma NoneOverlongCons(g: seq<Octet>, tail: seq<seq<Octet>>)
    requires IsGroup(g) && AllGroups(tail)
    ensures AllGroups([g] + tail)
    ensures NoneOverlong([g] + tail) <==> !Overlong(g) && NoneOverlong(tail)
  {
    var gs := [g] + tail;
    assert gs[0] == g && gs[1..] == tail;
    if NoneOverlong(gs) {
      forall i | 0 <= i < |tail| ensures !Overlong(tail[i]) {
        assert tail[i] == gs[i + 1];
      }
    }
  }

  /** Peels the first group off an accepted input. */
  lemma FirstGroup(bs: seq<Octet>) returns (g: seq<Octet>, rest: seq<Octet>)
    requires bs != [] && Decode(bs).Some?
    ensures bs == g + rest && IsGroup(g) && Decode(rest).Some?
    ensures ReadOne(bs) == ReadOne(g) && ReadOne(g).Complete?
    ensures Decode(bs).value == [ReadOne(g).value] + Decode(rest).value
    ensures Groups(bs) == [g] + Groups(rest)
  {
    var k := OctetCount(bs[0]);
    ReadContLength(LeadBits(bs[0]), k - 1, bs[1..]);
    g, rest := bs[..k], bs[k..];
    assert g[0] == bs[0];
    GroupReads(g, rest);
    assert g + rest == bs;
  }

  lemma ConcatEquality(e: seq<Octet>, es: seq<Octet>, g: seq<Octet>, rest: seq<Octet>)
    requires |e| < |g| || e == g
    requires |es| <= |rest|
    ensures e + es == g + rest <==> e == g && es == rest
  {
    if e + es == g + rest {
      assert |e| == |g|;
      assert e == (e + es)[..|e|] && es == (e + es)[|e|..];
      assert rest == (g + rest)[|g|..];
    }
  }

  /** Re-encoding accepted input never makes it longer, and gives the input back exactly when no
      group of it is overlong. */
  lemma {:induction false} NormalForm(bs: seq<Octet>)
    requires Decode(bs).Some?
    ensures forall i :: 0 <= i < |Decode(bs).value| ==> -0x8000_0000 <= Decode(bs).value[i] < 0x8000_0000
    ensures |Encode(Decode(bs).value)| <= |bs|
    ensures Encode(Decode(bs).value) == bs <==> NoneOverlong(Groups(bs))
  {
    DecodeBounds(bs);
    if bs != [] {
      var g, rest := FirstGroup(bs);
      NoneOverlongCons(g, Groups(rest));
      var vs: seq<WChar> := Decode(bs).value;
      assert vs[1..] == Decode(rest).value;
      GroupNormalForm(g);
      NormalForm(rest);
      ConcatEquality(EncodeOne(vs[0]), Encode(vs[1..]), g, rest);
    }
  }
}
