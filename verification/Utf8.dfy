/** The conversion loops of `src/detail/utf8.cpp` over bounded buffers, and `conv_string`. */
module Utf8 {
  import opened Wrappers
  import opened Utf8Spec
  import opened Utf8Laws

  datatype Errc = Ok | InvalidCharacter | InsufficientBuffer

  /** `*to = value` */
  method PutCell<T>(out: array<T>, to: nat, value: T)
    requires to < out.Length
    modifies out
    ensures out[..] == old(out[..to]) + [value] + old(out[to + 1..])
  {
    out[to] := value;
  }

  /** Writing `piece` behind the part of `all` already written, over `before`. */
  lemma Spliced<T>(all: seq<T>, before: seq<T>, cur: seq<T>, next: seq<T>, piece: seq<T>, start: nat)
    requires start + |piece| <= |before| && start + |piece| <= |all|
    requires cur == all[..start] + before[start..]
    requires next == cur[..start] + piece + cur[start + |piece|..]
    requires piece == all[start..start + |piece|]
    ensures next == all[..start + |piece|] + before[start + |piece|..]
  {
    assert cur[..start] == all[..start];
    assert cur[start + |piece|..] == before[start + |piece|..];
    assert all[..start + |piece|] == all[..start] + piece;
  }

  lemma PrefixAt<T>(all: seq<T>, start: nat, piece: seq<T>, n: nat)
    requires start + |piece| <= |all| && all[start..start + |piece|] == piece && n <= |piece|
    ensures piece[..n] == all[start..start + n]
  {
  }

  lemma RestAt<T>(all: seq<T>, start: nat, piece: seq<T>, rest: seq<T>)
    requires start <= |all| && all[start..] == piece + rest
    ensures start + |piece| <= |all| && all[start..start + |piece|] == piece && all[start + |piece|..] == rest
  {
    assert |all[start..]| == |piece| + |rest|;
    assert all[start..][..|piece|] == piece && all[start..][|piece|..] == rest;
  }

  // ---- wide to narrow -----------------------------------------------------------------------

  method SizeAsUtf8(input: seq<WChar>) returns (res: nat)
    ensures res == |Encode(input)|
  {
    res := 0;
    var from := 0;
    while from != |input|
      invariant 0 <= from <= |input|
      invariant res + |Encode(input[from..])| == |Encode(input)|
    {
      assert input[from..][1..] == input[from + 1..];
      res := res + ContOctetOutCount(input[from]) + 1;
      from := from + 1;
    }
  }

  /** `cap` octets end exactly after some character of the encoding. */
  predicate AtBoundary(ws: seq<WChar>, cap: nat) {
    cap == 0 || (ws != [] && |EncodeOne(ws[0])| <= cap && AtBoundary(ws[1..], cap - |EncodeOne(ws[0])|))
  }

  ghost predicate PrefixLength(ws: seq<WChar>, cap: nat) {
    exists i :: 0 <= i <= |ws| && |Encode(ws[..i])| == cap
  }

  lemma {:induction false} AtBoundaryMeaning(ws: seq<WChar>, cap: nat)
    ensures AtBoundary(ws, cap) <==> PrefixLength(ws, cap)
  {
    if cap == 0 {
      assert ws[..0] == [];
      assert |Encode(ws[..0])| == 0;
    } else if ws == [] {
      assert forall i :: 0 <= i <= |ws| ==> |Encode(ws[..i])| == 0;
    } else {
      PrefixLengthCons(ws, cap);
      if |EncodeOne(ws[0])| <= cap {
        AtBoundaryMeaning(ws[1..], cap - |EncodeOne(ws[0])|);
      }
    }
  }

  lemma PrefixLengthCons(ws: seq<WChar>, cap: nat)
    requires ws != [] && cap > 0
    ensures var k := |EncodeOne(ws[0])|;
            PrefixLength(ws, cap) <==> k <= cap && PrefixLength(ws[1..], cap - k)
  {
    var k := |EncodeOne(ws[0])|;
    forall i | 1 <= i <= |ws| ensures |Encode(ws[..i])| == k + |Encode(ws[1..][..i - 1])| {
      assert ws[..i][1..] == ws[1..][..i - 1];
    }
    if PrefixLength(ws, cap) {
      var i :| 0 <= i <= |ws| && |Encode(ws[..i])| == cap;
      assert i > 0;
      assert |Encode(ws[1..][..i - 1])| == cap - k;
    }
    if k <= cap && PrefixLength(ws[1..], cap - k) {
      var j :| 0 <= j <= |ws[1..]| && |Encode(ws[1..][..j])| == cap - k;
      assert |Encode(ws[..j + 1])| == cap;
    }
  }

  lemma {:induction false} ContOctetsAt(w: WChar, n: nat, i: nat)
    requires n <= 5 && i < n
    ensures ContOctets(w, n)[i] == ContOctet(w, n - 1 - i)
  {
    if i > 0 {
      ContOctetsAt(w, n - 1, i - 1);
    }
  }

  /** The continuation loop: octets go out until all `n` are written or the buffer is full. */
  method PutContinuation(word: WChar, n: nat, out: array<Octet>, start: nat, maxSize: nat) returns (to: nat)
    requires n <= 5 && start <= maxSize <= out.Length
    modifies out
    ensures to == start + Min(maxSize - start, n)
    ensures out[..] == old(out[..start]) + ContOctets(word, n)[..to - start] + old(out[to..])
  {
    ghost var octets, before := ContOctets(word, n), out[..];
    var i := 0;
    to := start;
    assert before == before[..start] + octets[..0] + before[start..];
    while i != n && to != maxSize
      invariant 0 <= i <= n && to == start + i <= maxSize
      invariant out[..] == before[..start] + octets[..i] + before[to..]
      decreases n - i
    {
      ghost var cur, at := out[..], to;
      ContOctetsAt(word, n, i);
      PutCell(out, to, ContOctet(word, n - 1 - i));
      to := to + 1;
      Written(before, cur, out[..], octets[..i], [octets[i]], start, at, to);
      assert octets[..i + 1] == octets[..i] + [octets[i]];
      i := i + 1;
    }
  }

  /** The body of the conversion loop for one character: the lead octet, then its continuation. */
  method PutCharacter(word: WChar, out: array<Octet>, start: nat, maxSize: nat) returns (to: nat, complete: bool)
    requires start < maxSize <= out.Length
    modifies out
    ensures complete <==> |EncodeOne(word)| <= maxSize - start
    ensures to == start + Min(maxSize - start, |EncodeOne(word)|)
    ensures out[..] == old(out[..start]) + EncodeOne(word)[..to - start] + old(out[to..])
  {
    var contCount := ContOctetOutCount(word);
    ghost var before := out[..];
    PutCell(out, start, LeadOctet(word));
    ghost var cur := out[..];
    to := PutContinuation(word, contCount, out, start + 1, maxSize);
    complete := !(to == maxSize && to - start != contCount + 1);
    LeadThenRest(before, cur, out[..], LeadOctet(word), ContOctets(word, contCount), start, to);
  }

  lemma LeadThenRest<T>(before: seq<T>, cur: seq<T>, next: seq<T>, lead: T, rest: seq<T>, start: nat, to: nat)
    requires start + 1 <= to <= |before| && to - start - 1 <= |rest|
    requires cur == before[..start] + [lead] + before[start + 1..]
    requires next == cur[..start + 1] + rest[..to - start - 1] + cur[to..]
    ensures next == before[..start] + ([lead] + rest)[..to - start] + before[to..]
  {
    assert cur[..start + 1] == before[..start] + [lead];
    assert cur[to..] == before[to..];
    assert ([lead] + rest)[..to - start] == [lead] + rest[..to - start - 1];
  }

  /** After `from` characters and `to` octets, the rest of the encoding is that of the rest. */
  ghost predicate Emitted(input: seq<WChar>, cap: nat, from: nat, to: nat) {
    && from <= |input| && to <= cap && to <= |Encode(input)|
    && Encode(input)[to..] == Encode(input[from..])
    && (AtBoundary(input, cap) <==> AtBoundary(input[from..], cap - to))
  }

  lemma EmittedStep(input: seq<WChar>, cap: nat, from: nat, to: nat)
    requires Emitted(input, cap, from, to) && from < |input| && to < cap
    ensures var one, all := EncodeOne(input[from]), Encode(input);
            && to + |one| <= |all| && all[to..to + |one|] == one
            && if to + |one| <= cap then Emitted(input, cap, from + 1, to + |one|)
               else !AtBoundary(input, cap)
  {
    ghost var one, all, rest := EncodeOne(input[from]), Encode(input), Encode(input[from + 1..]);
    assert input[from..][1..] == input[from + 1..];
    RestAt(all, to, one, rest);
  }

  lemma EmittedEnd(input: seq<WChar>, cap: nat, from: nat, to: nat)
    requires Emitted(input, cap, from, to) && (from == |input| || to == cap)
    ensures |Encode(input)| <= cap <==> from == |input|
    ensures from == |input| ==> to == |Encode(input)|
    ensures from < |input| ==> to == cap && AtBoundary(input, cap)
  {
    assert |Encode(input)[to..]| == |Encode(input)| - to;
    if from < |input| {
      assert |Encode(input[from..])| >= |EncodeOne(input[from..][0])| > 0;
    }
  }

  /** Whatever the capacity, the buffer receives exactly the part of the encoding that fits and the
      rest of it is left alone; the call succeeds exactly when all of it fits. A failing call still
      reports `maxSize` written octets when the space ran out between two characters, and 0 when it
      ran out inside one. */
  method ConvertToUtf8(input: seq<WChar>, out: array<Octet>, maxSize: nat) returns (written: nat, ec: Errc)
    requires maxSize <= out.Length
    modifies out
    ensures var n := Min(maxSize, |Encode(input)|);
            out[..] == Encode(input)[..n] + old(out[n..])
    ensures ec == if |Encode(input)| <= maxSize then Ok else InsufficientBuffer
    ensures written == if |Encode(input)| <= maxSize then |Encode(input)|
                       else if AtBoundary(input, maxSize) then maxSize else 0
  {
    ghost var all, before := Encode(input), out[..];
    ec := Ok;
    var from, to := 0, 0;
    while from != |input| && to != maxSize
      invariant 0 <= from <= |input| && 0 <= to <= maxSize
      invariant ec == Ok && Emitted(input, maxSize, from, to)
      invariant out[..] == all[..to] + before[to..]
      decreases |input| - from
    {
      EmittedStep(input, maxSize, from, to);
      to, ec := EmitNext(input, from, out, to, maxSize, all, before);
      if ec != Ok {
        assert to == maxSize < |all| && !AtBoundary(input, maxSize);
        return 0, ec;
      }
      from := from + 1;
    }
    EmittedEnd(input, maxSize, from, to);
    if from != |input| {
      ec := InsufficientBuffer;
    }
    written := to;
  }

  /** One turn of the loop, over what the buffer held before the call. */
  method EmitNext(input: seq<WChar>, from: nat, out: array<Octet>, start: nat, maxSize: nat,
                  ghost all: seq<Octet>, ghost before: seq<Octet>)
    returns (to: nat, ec: Errc)
    requires from < |input| && start < maxSize <= out.Length == |before|
    requires start + |EncodeOne(input[from])| <= |all|
    requires all[start..start + |EncodeOne(input[from])|] == EncodeOne(input[from])
    requires out[..] == all[..start] + before[start..]
    modifies out
    ensures to == start + Min(maxSize - start, |EncodeOne(input[from])|)
    ensures out[..] == all[..to] + before[to..]
    ensures ec == if |EncodeOne(input[from])| <= maxSize - start then Ok else InsufficientBuffer
  {
    ghost var one, cur := EncodeOne(input[from]), out[..];
    var complete;
    to, complete := PutCharacter(input[from], out, start, maxSize);
    PrefixAt(all, start, one, to - start);
    Spliced(all, before, cur, out[..], one[..to - start], start);
    ec := if complete then Ok else InsufficientBuffer;
  }

  // ---- narrow to wide -----------------------------------------------------------------------

  /** `size_as_wide` walks whole lead-octet strides and stops before an incomplete one. It counts
      octets, not characters, and does not look at continuation octets. */
  function StridePrefix(bs: seq<Octet>): (n: nat)
    ensures n <= |bs|
  {
    if bs == [] || OctetCount(bs[0]) > |bs| then 0
    else OctetCount(bs[0]) + StridePrefix(bs[OctetCount(bs[0])..])
  }

  method SizeAsWide(input: seq<Octet>) returns (res: nat)
    ensures res == StridePrefix(input)
  {
    res := 0;
    while res < |input|
      invariant 0 <= res <= |input|
      invariant res + StridePrefix(input[res..]) == StridePrefix(input)
    {
      var octetCount := OctetCount(input[res]);
      if octetCount > |input| - res {
        break;
      }
      assert input[res..][octetCount..] == input[res + octetCount..];
      res := res + octetCount;
    }
  }

  /** What decoding into `cap` cells stores, and how it ends; `aborted` runs report 0 cells. */
  datatype WideRun = WideRun(stored: seq<int>, ec: Errc, aborted: bool)

  function DecodeInto(bs: seq<Octet>, cap: nat): (r: WideRun)
    ensures |r.stored| <= cap
    decreases |bs|
  {
    if bs == [] then WideRun([], Ok, false)
    else if cap == 0 then WideRun([], InsufficientBuffer, false)
    else match ReadOne(bs)
      case Malformed => WideRun([], InvalidCharacter, true)
      case Truncated => WideRun([], InsufficientBuffer, true)
      case Complete(v) =>
        ReadContLength(LeadBits(bs[0]), OctetCount(bs[0]) - 1, bs[1..]);
        var r := DecodeInto(bs[OctetCount(bs[0])..], cap - 1);
        r.(stored := [v] + r.stored)
  }

  /** A bounded decoding succeeds exactly when the input is well formed and fits. */
  lemma {:induction false} DecodeIntoSucceedsIff(bs: seq<Octet>, cap: nat)
    ensures DecodeInto(bs, cap).ec.Ok? <==> Decode(bs).Some? && |Decode(bs).value| <= cap
    ensures DecodeInto(bs, cap).ec.Ok? ==> DecodeInto(bs, cap).stored == Decode(bs).value
    ensures DecodeInto(bs, cap).ec.Ok? ==> !DecodeInto(bs, cap).aborted
  {
    if bs != [] && cap > 0 && ReadOne(bs).Complete? {
      ReadContLength(LeadBits(bs[0]), OctetCount(bs[0]) - 1, bs[1..]);
      DecodeIntoSucceedsIff(bs[OctetCount(bs[0])..], cap - 1);
    }
  }

  /** For accepted input `size_as_wide` asks for one cell per octet, which is always enough. */
  lemma {:induction false} StridePrefixSuffices(bs: seq<Octet>)
    requires Decode(bs).Some?
    ensures |Decode(bs).value| <= |bs| == StridePrefix(bs)
  {
    if bs != [] {
      ReadContLength(LeadBits(bs[0]), OctetCount(bs[0]) - 1, bs[1..]);
      StridePrefixSuffices(bs[OctetCount(bs[0])..]);
    }
  }

  /** It is the number of characters exactly for input that is all ASCII. */
  lemma {:induction false} StridePrefixExactIff(bs: seq<Octet>)
    requires Decode(bs).Some?
    ensures StridePrefix(bs) == |Decode(bs).value| <==> forall i :: 0 <= i < |bs| ==> bs[i] < 0x80
  {
    if bs != [] {
      DecodeTail(bs);
      var k := OctetCount(bs[0]);
      var rest := bs[k..];
      StridePrefixExactIff(rest);
      StridePrefixSuffices(rest);
      StridePrefixSuffices(bs);
      if k == 1 {
        assert bs == [bs[0]] + rest;
      }
    }
  }

  /** The continuation loop: `n` octets still wanted, `acc` collected so far. */
  method GetContinuation(input: seq<Octet>, start: nat, acc: int, n: nat) returns (from: nat, r: Read)
    requires start <= |input|
    ensures r == ReadCont(acc, n, input[start..])
    ensures start <= from <= |input|
    ensures r.Complete? ==> from == start + n
  {
    var ucs, i := acc, 0;
    from := start;
    while i != n && from != |input|
      invariant 0 <= i <= n && from == start + i <= |input|
      invariant ReadCont(acc, n, input[start..]) == ReadCont(ucs, n - i, input[from..])
      decreases n - i
    {
      if InvalidContinuing(input[from]) {
        return from, Malformed;
      }
      assert input[from..][1..] == input[from + 1..];
      ucs := ucs * 64 + (input[from] - 0x80);
      from := from + 1;
      i := i + 1;
    }
    if from == |input| && i != n {
      return from, Truncated;
    }
    r := Complete(ucs);
  }

  /** The body of the conversion loop for one character. */
  method GetCharacter(input: seq<Octet>, start: nat) returns (from: nat, r: Read)
    requires start < |input|
    ensures r == ReadOne(input[start..])
    ensures start <= from <= |input|
    ensures r.Complete? ==> from == start + OctetCount(input[start])
  {
    var lead := input[start];
    if InvalidLead(lead) {
      return start, Malformed;
    }
    assert input[start..][1..] == input[start + 1..];
    var contCount := OctetCount(lead) - 1;
    from, r := GetContinuation(input, start + 1, lead - Octet1Modifier(contCount), contCount);
  }

  /** The run that has read `from` octets and stored `to` values goes on like the whole run. */
  ghost predicate Reaches(input: seq<Octet>, cap: nat, run: WideRun, from: nat, to: nat) {
    && from <= |input| && to <= cap && to <= |run.stored|
    && run.(stored := run.stored[to..]) == DecodeInto(input[from..], cap - to)
  }

  lemma ReachesStep(input: seq<Octet>, cap: nat, run: WideRun, from: nat, to: nat)
    requires Reaches(input, cap, run, from, to) && from < |input| && to < cap
    ensures ReadOne(input[from..]).Malformed? ==> run == WideRun(run.stored[..to], InvalidCharacter, true)
    ensures ReadOne(input[from..]).Truncated? ==> run == WideRun(run.stored[..to], InsufficientBuffer, true)
    ensures ReadOne(input[from..]).Complete? ==>
              && to < |run.stored| && run.stored[to] == ReadOne(input[from..]).value
              && 0 <= run.stored[to] < 0x8000_0000
              && Reaches(input, cap, run, from + OctetCount(input[from]), to + 1)
  {
    var bs, k := input[from..], OctetCount(input[from]);
    if ReadOne(bs).Complete? {
      ReadContLength(LeadBits(bs[0]), OctetCount(bs[0]) - 1, bs[1..]);
      ReadOneBounds(bs);
      assert bs[k..] == input[from + k..];
      assert run.stored[to..][1..] == run.stored[to + 1..];
    }
  }

  lemma ReachesEnd(input: seq<Octet>, cap: nat, run: WideRun, from: nat, to: nat)
    requires Reaches(input, cap, run, from, to) && (from == |input| || to == cap)
    ensures run == WideRun(run.stored[..to], if from == |input| then Ok else InsufficientBuffer, false)
  {
  }

  /** `*to++ = ucs_result`, over what the buffer held before the call. */
  method StoreNext(out: array<WChar>, to: nat, ucs: WChar, ghost stored: seq<int>, ghost before: seq<WChar>)
    requires to < |stored| && to < out.Length == |before| && stored[to] == ucs
    requires out[..] == stored[..to] + before[to..]
    modifies out
    ensures out[..] == stored[..to + 1] + before[to + 1..]
  {
    ghost var cur := out[..];
    PutCell(out, to, ucs);
    assert [ucs] == stored[to..to + 1];
    Spliced<int>(stored, before, cur, out[..], [ucs], to);
  }

  /** Decodes `input` into the first `maxSize` cells of `out`. All values stored are proved to fit a
      `wchar_t`; cells past the stored ones keep their content, for any input whatever. */
  method ConvertToWide(input: seq<Octet>, out: array<WChar>, maxSize: nat) returns (written: nat, ec: Errc)
    requires maxSize <= out.Length
    modifies out
    ensures var r := DecodeInto(input, maxSize);
            && out[..] == r.stored + old(out[|r.stored|..])
            && ec == r.ec && written == if r.aborted then 0 else |r.stored|
  {
    ghost var run, before := DecodeInto(input, maxSize), out[..];
    ec := Ok;
    var from, to := 0, 0;
    while from != |input| && to != maxSize
      invariant 0 <= from <= |input| && 0 <= to <= maxSize
      invariant Reaches(input, maxSize, run, from, to)
      invariant out[..] == run.stored[..to] + before[to..]
      decreases |input| - from
    {
      var next, r := GetCharacter(input, from);
      ReachesStep(input, maxSize, run, from, to);
      match r {
        case Malformed =>
          assert run.stored == run.stored[..to];
          return 0, InvalidCharacter;
        case Truncated =>
          assert run.stored == run.stored[..to];
          return 0, InsufficientBuffer;
        case Complete(ucs) =>
          StoreNext(out, to, ucs, run.stored, before);
          from, to := next, to + 1;
      }
    }
    ReachesEnd(input, maxSize, run, from, to);
    assert run.stored == run.stored[..to];
    if from != |input| {
      ec := InsufficientBuffer;
    }
    written := to;
  }

  // ---- conv_string --------------------------------------------------------------------------

  /** `conv_string<char>` of wide text: never throws, yields the encoding. */
  method ConvToNarrow(data: seq<WChar>) returns (r: Option<seq<Octet>>)
    ensures r == Some(Encode(data))
  {
    var reqSize := SizeAsUtf8(data);
    var res := new Octet[reqSize];
    var resSize, ec := ConvertToUtf8(data, res, reqSize);
    if ec != Ok {
      return None;
    }
    r := Some(res[..resSize]);
    assert r.value == Encode(data);
  }

  /** `conv_string<wchar_t>` of narrow text; `None` stands for the exception. */
  method ConvToWide(data: seq<Octet>) returns (r: Option<seq<int>>)
    ensures r == Decode(data)
  {
    var reqSize := SizeAsWide(data);
    var res := new WChar[reqSize];
    var resSize, ec := ConvertToWide(data, res, reqSize);
    DecodeIntoSucceedsIff(data, reqSize);
    if Decode(data).Some? {
      StridePrefixSuffices(data);
    }
    if ec != Ok {
      return None;
    }
    r := Some(res[..resSize]);
  }

  /** The exception of `conv_string<wchar_t>` characterised by the grammar alone. */
  lemma ConvToWideSucceedsIff(bs: seq<Octet>)
    ensures DecodeInto(bs, StridePrefix(bs)).ec.Ok? <==>
            exists gs: seq<seq<Octet>> :: AllGroups(gs) && Flatten(gs) == bs
  {
    DecodeIntoSucceedsIff(bs, StridePrefix(bs));
    AcceptsIffGrammar(bs);
    if Decode(bs).Some? {
      StridePrefixSuffices(bs);
    }
  }

  /** Narrowing and widening again through `conv_string` gives back exactly the non-negative texts. */
  method ConvRoundTrip(data: seq<WChar>) returns (back: Option<seq<int>>)
    ensures back == Some(data) <==> forall i :: 0 <= i < |data| ==> data[i] >= 0
  {
    var narrow := ConvToNarrow(data);
    back := ConvToWide(narrow.value);
    RoundTripIff(data);
  }
}
