/** The text of `src/detail/utf8.cpp` (POSIX branch, 4-byte signed `wchar_t`) as functions:
    octet counts, one encoded character, whole encodings and whole decodings. */
module Utf8Spec {
  import opened Wrappers

  type Octet = x: int | 0 <= x < 256
  type WChar = x: int | -0x8000_0000 <= x < 0x8000_0000

  /** `1 << (6 * n)` for the shifts the code uses. */
  function Shift(n: nat): (s: nat)
    requires n <= 5
    ensures s > 0
  {
    match n
    case 0 => 1
    case 1 => 0x40
    case 2 => 0x1000
    case 3 => 0x4_0000
    case 4 => 0x100_0000
    case _ => 0x4000_0000
  }

  /** First value that no longer fits an encoding of `k` octets. */
  function Threshold(k: nat): nat
    requires 1 <= k <= 6
  {
    match k
    case 1 => 0x80
    case 2 => 0x800
    case 3 => 0x1_0000
    case 4 => 0x20_0000
    case 5 => 0x400_0000
    case _ => 0x8000_0000
  }

  function ContOctetOutCount(word: WChar): (n: nat)
    ensures n <= 5
  {
    if word < 0x80 then 0
    else if word < 0x800 then 1
    else if word < 0x1_0000 then 2
    else if word < 0x20_0000 then 3
    else if word < 0x400_0000 then 4
    else 5
  }

  function OctetCount(lead: Octet): (n: nat)
    ensures 1 <= n <= 6
  {
    if lead <= 0x7f then 1
    else if 0xc0 <= lead <= 0xdf then 2
    else if 0xe0 <= lead <= 0xef then 3
    else if 0xf0 <= lead <= 0xf7 then 4
    else if 0xf8 <= lead <= 0xfb then 5
    else 6
  }

  predicate InvalidLead(octet: Octet) {
    0x7f < octet < 0xc0 || octet > 0xfd
  }

  predicate InvalidContinuing(octet: Octet) {
    octet < 0x80 || 0xbf < octet
  }

  /** The table added to (or subtracted from) a lead octet. */
  function Octet1Modifier(n: nat): Octet
    requires n <= 5
  {
    match n
    case 0 => 0x00
    case 1 => 0xc0
    case 2 => 0xe0
    case 3 => 0xf0
    case 4 => 0xf8
    case _ => 0xfc
  }

  /** The lead octet; both casts to `char` truncate to 8 bits. */
  function LeadOctet(word: WChar): Octet {
    var n := ContOctetOutCount(word);
    (Octet1Modifier(n) + (word / Shift(n)) % 256) % 256
  }

  function ContOctet(word: WChar, n: nat): Octet
    requires n <= 5
  {
    0x80 + (word / Shift(n)) % 64
  }

  function ContOctets(word: WChar, n: nat): (s: seq<Octet>)
    requires n <= 5
    ensures |s| == n
  {
    if n == 0 then [] else [ContOctet(word, n - 1)] + ContOctets(word, n - 1)
  }

  function EncodeOne(word: WChar): (s: seq<Octet>)
    ensures |s| == ContOctetOutCount(word) + 1
  {
    [LeadOctet(word)] + ContOctets(word, ContOctetOutCount(word))
  }

  function Encode(ws: seq<WChar>): seq<Octet> {
    if ws == [] then [] else EncodeOne(ws[0]) + Encode(ws[1..])
  }

  /** What reading one character from the front of the input ends in. */
  datatype Read = Complete(value: int) | Malformed | Truncated

  /** The continuation loop: `n` octets still wanted, `acc` collected so far. */
  function ReadCont(acc: int, n: nat, bs: seq<Octet>): Read
    decreases n
  {
    if n == 0 then Complete(acc)
    else if bs == [] then Truncated
    else if InvalidContinuing(bs[0]) then Malformed
    else ReadCont(acc * 64 + (bs[0] - 0x80), n - 1, bs[1..])
  }

  function LeadBits(lead: Octet): int {
    lead - Octet1Modifier(OctetCount(lead) - 1)
  }

  function ReadOne(bs: seq<Octet>): Read
    requires bs != []
  {
    if InvalidLead(bs[0]) then Malformed
    else ReadCont(LeadBits(bs[0]), OctetCount(bs[0]) - 1, bs[1..])
  }

  lemma {:induction false} ReadContLength(acc: int, n: nat, bs: seq<Octet>)
    requires ReadCont(acc, n, bs).Complete?
    ensures n <= |bs|
    ensures ReadCont(acc, n, bs[..n]) == ReadCont(acc, n, bs)
    ensures forall i :: 0 <= i < n ==> !InvalidContinuing(bs[i])
    decreases n
  {
    if n > 0 {
      ReadContLength(acc * 64 + (bs[0] - 0x80), n - 1, bs[1..]);
      assert bs[..n][1..] == bs[1..][..n - 1];
    }
  }

  /** Everything decoded, or nothing when some character cannot be read. */
  function Decode(bs: seq<Octet>): Option<seq<int>> {
    if bs == [] then Some([])
    else match ReadOne(bs)
      case Complete(v) =>
        ReadContLength(LeadBits(bs[0]), OctetCount(bs[0]) - 1, bs[1..]);
        var rest := Decode(bs[OctetCount(bs[0])..]);
        if rest.Some? then Some([v] + rest.value) else None
      case _ => None
  }

  // ---- the grammar, stated without the decoder --------------------------------------------

  /** One lead octet followed by exactly the continuation octets it announces. */
  predicate IsGroup(g: seq<Octet>) {
    && g != []
    && !InvalidLead(g[0])
    && |g| == OctetCount(g[0])
    && forall i :: 1 <= i < |g| ==> !InvalidContinuing(g[i])
  }

  /** Groups none of which is longer than its value needs. */
  predicate NoneOverlong(gs: seq<seq<Octet>>)
    requires AllGroups(gs)
  {
    forall i :: 0 <= i < |gs| ==> !Overlong(gs[i])
  }

  predicate AllGroups(gs: seq<seq<Octet>>) {
    forall i :: 0 <= i < |gs| ==> IsGroup(gs[i])
  }

  function Flatten(gs: seq<seq<Octet>>): seq<Octet> {
    if gs == [] then [] else gs[0] + Flatten(gs[1..])
  }

  /** The octet patterns by which section 3 of RFC 3629, extended to the five and six octet forms of
      section 2 of RFC 2279, recognises a sequence longer than its value needs. */
  predicate Overlong(g: seq<Octet>)
    requires IsGroup(g)
  {
    || (|g| == 2 && g[0] <= 0xc1)
    || (|g| == 3 && g[0] == 0xe0 && g[1] < 0xa0)
    || (|g| == 4 && g[0] == 0xf0 && g[1] < 0x90)
    || (|g| == 5 && g[0] == 0xf8 && g[1] < 0x88)
    || (|g| == 6 && g[0] == 0xfc && g[1] < 0x84)
  }
}
