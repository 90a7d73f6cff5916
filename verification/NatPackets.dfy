/**
 What translation makes of a packet, as a value, and which checksums survive it.
 A packet is the words of its IP header and the words that follow it, in
 network byte order.
 */
module NatPackets {
  import opened WordSums
  import opened IpHeader
  import opened NatSums

  const ICMP := 1
  const TCP := 6
  const UDP := 17

  datatype Packet = Packet(h: seq<Word>, l4: seq<Word>)

  /** How translation treats a packet. */
  datatype Kind = Tcp | Udp | Echo | IcmpError | OtherIcmp | Other

  /** The two ends of a packet: source (words 6 and 7 of the header) or destination (words 8 and 9). */
  datatype End = Source | Destination

  function Opposite(e: End): End {
    if e.Source? then Destination else Source
  }

  function IpAt(e: End): nat {
    if e.Source? then 6 else 8
  }

  /** The type is the high byte of the first ICMP word. */
  function IcmpType(little: bool, w: Word): nat {
    Ntohs(little, w) / 256
  }

  predicate IsEcho(t: nat) {
    t == 0 || t == 8
  }

  /** Destination unreachable, or time exceeded. */
  predicate IsError(t: nat) {
    t == 3 || t == 11
  }

  /** The bytes of an ICMP message, by the total length in the IP header. */
  function IcmpBytes(little: bool, h: seq<Word>): nat
    requires |h| >= HEADER_WORDS
  {
    var length := Ntohs(little, h[1]);
    if length < 20 then 0 else length - 20
  }

  /** The whole words of an ICMP message; a last odd byte is not among them. */
  function IcmpWords(little: bool, h: seq<Word>): nat
    requires |h| >= HEADER_WORDS
  {
    IcmpBytes(little, h) / 2
  }

  predicate OddLength(little: bool, h: seq<Word>)
    requires |h| >= HEADER_WORDS
  {
    IcmpBytes(little, h) % 2 == 1
  }

  /** The words that translation reads are there. */
  predicate Whole(little: bool, k: Packet) {
    && |k.h| >= HEADER_WORDS
    && (Protocol(little, k.h) == TCP ==> |k.l4| > 8)
    && (Protocol(little, k.h) == UDP ==> |k.l4| > 3)
    && (Protocol(little, k.h) == ICMP ==> |k.l4| > 3)
    && (Protocol(little, k.h) == ICMP && IsError(IcmpType(little, k.l4[0])) ==>
          |k.l4| > 16 && IcmpBytes(little, k.h) <= 2 * |k.l4|)
  }

  function KindOf(little: bool, k: Packet): Kind
    requires Whole(little, k)
  {
    var proto := Protocol(little, k.h);
    if proto == TCP then Tcp
    else if proto == UDP then Udp
    else if proto != ICMP then Other
    else if IsEcho(IcmpType(little, k.l4[0])) then Echo
    else if IsError(IcmpType(little, k.l4[0])) then IcmpError
    else OtherIcmp
  }

  predicate HasPort(kind: Kind) {
    kind.Tcp? || kind.Udp? || kind.Echo?
  }

  /** Where the checksum is. */
  function SumAt(kind: Kind): nat
    requires HasPort(kind)
  {
    match kind
    case Tcp => 8
    case Udp => 3
    case Echo => 1
  }

  /** Where the port of end `e` is; an echo has one identifier for both ends. */
  function PortAt(kind: Kind, e: End): nat {
    if kind.Echo? then 2 else if e.Source? then 0 else 1
  }

  // --- the packet quoted in an ICMP error ---------------------------------------------------

  /** The header of the packet quoted in an error begins at word 4, what follows it at word 14. */
  const QUOTED := 4
  const QUOTED_L4 := 14

  function QuotedProtocol(little: bool, l4: seq<Word>): nat
    requires |l4| > 16
  {
    Ntohs(little, l4[QUOTED + 4]) % 256
  }

  /** The port by which an error is looked up: of the quoted packet, which travelled the other way. */
  function QuotedPort(little: bool, l4: seq<Word>, e: End): Word
    requires |l4| > 16
  {
    var proto := QuotedProtocol(little, l4);
    if proto == TCP || proto == UDP then l4[QUOTED_L4 + PortAt(Tcp, Opposite(e))]
    else if proto == ICMP then l4[QUOTED_L4 + 2]
    else 0
  }

  /** The port stored for a new entry; for an error the first port of the quoted packet, whatever that is. */
  function NewPort(little: bool, k: Packet): Word
    requires Whole(little, k)
  {
    var kind := KindOf(little, k);
    if HasPort(kind) then k.l4[PortAt(kind, Source)]
    else if kind.IcmpError? then k.l4[QUOTED_L4]
    else 0
  }

  function KeyPort(little: bool, k: Packet, e: End): Word
    requires Whole(little, k)
  {
    var kind := KindOf(little, k);
    if HasPort(kind) then k.l4[PortAt(kind, e)]
    else if kind.IcmpError? then QuotedPort(little, k.l4, e)
    else 0
  }

  /** A header word of the address by which a packet is looked up; 0 for a protocol that is not translated. */
  function KeyIp(little: bool, k: Packet, e: End, low: nat): Word
    requires Whole(little, k) && low < 2
  {
    if KindOf(little, k).Other? then 0 else k.h[IpAt(e) + low]
  }

  // --- rewriting ---------------------------------------------------------------------------------

  /** A header with the address of end `e` replaced and its checksum made of `was`, adjusted by `neg`. */
  function HeaderTo(h: seq<Word>, e: End, q: Pair, was: Word, neg: Word): seq<Word>
    requires |h| >= HEADER_WORDS
  {
    h[IpAt(e) := q.hi][IpAt(e) + 1 := q.lo][5 := Adjusted(was, q.checksumIp, neg)]
  }

  /**
   The IP header with end `e` rewritten from `p` to `q`. Its checksum is adjusted
   with the sum of the old pair, port included; for an error it is cleared first.
   */
  function Header(kind: Kind, h: seq<Word>, e: End, p: Pair, q: Pair): seq<Word>
    requires |h| >= HEADER_WORDS
  {
    HeaderTo(h, e, q, if kind.IcmpError? then 0 else h[5], p.checksum)
  }

  /** A checksum field adjusted: a TCP or UDP checksum covers address and port, that of an echo only its identifier. */
  function SumFor(kind: Kind, was: Word, p: Pair, q: Pair): Word {
    if kind.Echo? then Adjusted(was, q.checksumPort, p.checksumPort) else Adjusted(was, q.checksum, p.checksum)
  }

  function Segment(kind: Kind, l4: seq<Word>, e: End, p: Pair, q: Pair): seq<Word>
    requires HasPort(kind) && |l4| > SumAt(kind) && |l4| > PortAt(kind, e)
  {
    l4[PortAt(kind, e) := q.port][SumAt(kind) := SumFor(kind, l4[SumAt(kind)], p, q)]
  }

  function QuotedHeader(l4: seq<Word>): seq<Word>
    requires |l4| > 16
  {
    l4[QUOTED..QUOTED_L4]
  }

  /** The quoted packet rewritten: its other end, and the checksum of its header with sums that leave out the port. */
  function Quote(little: bool, l4: seq<Word>, e: End, p: Pair, q: Pair): (r: seq<Word>)
    requires |l4| > 16
    ensures |r| == |l4| && r[0] == l4[0]
  {
    var o, proto := Opposite(e), QuotedProtocol(little, l4);
    var a := l4[..QUOTED] + HeaderTo(QuotedHeader(l4), o, q, l4[QUOTED + 5], p.checksumIp) + l4[QUOTED_L4..];
    if proto == TCP || proto == UDP then a[QUOTED_L4 + PortAt(Tcp, o) := q.port]
    else if proto == ICMP && IsEcho(IcmpType(little, l4[QUOTED_L4])) then
      a[QUOTED_L4 + 2 := q.port][QUOTED_L4 + 1 := Adjusted(l4[QUOTED_L4 + 1], q.checksumPort, p.checksumPort)]
    else a
  }

  /** The ICMP checksum of the first `n` words filled in anew. */
  function Refilled(little: bool, l4: seq<Word>, n: nat): (r: seq<Word>)
    requires 2 <= |l4| && n <= |l4| && n <= 65537
    ensures |r| == |l4| && r[0] == l4[0]
  {
    var cleared := l4[1 := 0];
    HeaderSumBound(little, cleared[..n]);
    cleared[1 := Ntohs(little, Complement(Sum(little, cleared[..n])))]
  }

  lemma IcmpWordsBound(little: bool, h: seq<Word>)
    requires |h| >= HEADER_WORDS
    ensures IcmpWords(little, h) <= 65537
  {
  }

  function Rewritten(little: bool, k: Packet, e: End, p: Pair, q: Pair): Packet
    requires Whole(little, k)
  {
    var kind := KindOf(little, k);
    IcmpWordsBound(little, k.h);
    Packet(Header(kind, k.h, e, p, q),
           if HasPort(kind) then Segment(kind, k.l4, e, p, q)
           else if kind.IcmpError? then Refilled(little, Quote(little, k.l4, e, p, q), IcmpWords(little, k.h))
           else k.l4)
  }

  /** What decides how a packet is treated does not change. */
  ghost predicate SameShape(little: bool, k: Packet, r: Packet)
    requires Whole(little, k)
  {
    && Whole(little, r) && KindOf(little, r) == KindOf(little, k)
    && |r.h| == |k.h| && |r.l4| == |k.l4|
    && r.h[0] == k.h[0] && r.h[1] == k.h[1] && r.h[3] == k.h[3] && r.h[4] == k.h[4]
  }

  lemma RewrittenShape(little: bool, k: Packet, e: End, p: Pair, q: Pair)
    requires Whole(little, k)
    ensures SameShape(little, k, Rewritten(little, k, e, p, q))
  {
    var r := Rewritten(little, k, e, p, q);
    assert Protocol(little, r.h) == Protocol(little, k.h) && IcmpWords(little, r.h) == IcmpWords(little, k.h);
  }

  // --- which checksums survive --------------------------------------------------------------

  /** Everything a transport checksum covers; `rest` stands for protocol and length in the pseudo header. */
  function Covered(little: bool, k: Packet, rest: nat): nat
    requires Whole(little, k)
  {
    match KindOf(little, k)
    case Tcp => CoveredWith(little, k, rest)
    case Udp => CoveredWith(little, k, rest)
    case IcmpError => Sum(little, k.l4[..IcmpWords(little, k.h)]) + 256 * LastByte(little, k)
    case _ => Sum(little, k.l4)
  }

  /**
   The last byte of an ICMP message of odd length, 0 for an even one. RFC 792
   covers it too, as the high byte of a word padded with zeros.
   */
  function LastByte(little: bool, k: Packet): (b: nat)
    requires |k.h| >= HEADER_WORDS && IcmpBytes(little, k.h) <= 2 * |k.l4|
    ensures b < 256
  {
    if OddLength(little, k.h) then Ntohs(little, k.l4[IcmpWords(little, k.h)]) / 256 else 0
  }

  function CoveredWith(little: bool, k: Packet, rest: nat): nat
    requires |k.h| >= HEADER_WORDS
  {
    IpSum(little, k.h[6], k.h[7]) + IpSum(little, k.h[8], k.h[9]) + rest + Sum(little, k.l4)
  }

  /** End `e` of the packet is `p`. */
  ghost predicate Carries(little: bool, k: Packet, e: End, p: Pair)
    requires Whole(little, k)
  {
    k.h[IpAt(e)] == p.hi && k.h[IpAt(e) + 1] == p.lo && KeyPort(little, k, e) == p.port
  }

  lemma SegmentSum(little: bool, kind: Kind, l4: seq<Word>, e: End, p: Pair, q: Pair)
    requires HasPort(kind) && |l4| > SumAt(kind) && |l4| > PortAt(kind, e) && l4[PortAt(kind, e)] == p.port
    ensures Sum(little, Segment(kind, l4, e, p, q)) ==
      Sum(little, l4) - Ntohs(little, p.port) + Ntohs(little, q.port)
      - Ntohs(little, l4[SumAt(kind)]) + Ntohs(little, SumFor(kind, l4[SumAt(kind)], p, q))
  {
    SumUpdated(little, l4, PortAt(kind, e), q.port);
    SumUpdated(little, l4[PortAt(kind, e) := q.port], SumAt(kind), SumFor(kind, l4[SumAt(kind)], p, q));
  }

  lemma CoveredAfter(little: bool, k: Packet, rest: nat, e: End, p: Pair, q: Pair)
    requires Whole(little, k) && Carries(little, k, e, p)
    requires KindOf(little, k).Tcp? || KindOf(little, k).Udp?
    ensures var sum := k.l4[SumAt(KindOf(little, k))];
            CoveredWith(little, Rewritten(little, k, e, p, q), rest) ==
              CoveredWith(little, k, rest) - PairSum(little, p.hi, p.lo, p.port) + PairSum(little, q.hi, q.lo, q.port)
              - Ntohs(little, sum) + Ntohs(little, Adjusted(sum, q.checksum, p.checksum))
  {
    SegmentSum(little, KindOf(little, k), k.l4, e, p, q);
  }

  /** A TCP or UDP checksum is correct afterwards exactly if it was, in both directions and on either host. */
  lemma TransportStaysCorrect(little: bool, k: Packet, rest: nat, e: End, p: Pair, q: Pair)
    requires Whole(little, k) && rest > 0 && Cached(little, p) && Cached(little, q) && Carries(little, k, e, p)
    requires KindOf(little, k).Tcp? || KindOf(little, k).Udp?
    ensures SameShape(little, k, Rewritten(little, k, e, p, q))
    ensures Correct(Covered(little, Rewritten(little, k, e, p, q), rest)) <==> Correct(Covered(little, k, rest))
  {
    var kind := KindOf(little, k);
    var was, now := CoveredWith(little, k, rest), CoveredWith(little, Rewritten(little, k, e, p, q), rest);
    RewrittenShape(little, k, e, p, q);
    CoveredAfter(little, k, rest, e, p, q);
    AdjustedWord(little, was, PairSum(little, p.hi, p.lo, p.port), PairSum(little, q.hi, q.lo, q.port),
                 p.checksum, q.checksum, k.l4[SumAt(kind)]);
    SameCorrect(now, was);
  }

  /** The words of an echo other than checksum and identifier. */
  function Body(l4: seq<Word>): seq<Word>
    requires |l4| > 3
  {
    l4[1 := 0][2 := 0]
  }

  lemma BodySum(little: bool, l4: seq<Word>)
    requires |l4| > 3
    ensures Sum(little, l4) == Sum(little, Body(l4)) + Ntohs(little, l4[1]) + Ntohs(little, l4[2])
  {
    SumUpdated(little, l4, 1, 0);
    SumUpdated(little, l4[1 := 0], 2, 0);
  }

  lemma NtohsZero(little: bool, w: Word)
    ensures Ntohs(little, w) == 0 <==> w == 0
  {
  }

  /** Nothing but zeros around a checksum and an identifier that are, or become, zero. */
  predicate Vanishes(l4: seq<Word>, p: Pair, q: Pair)
    requires |l4| > 3
  {
    || (l4[1] == 0 && p.port == 0 && q.port != 0)
    || (p.port < 65535 && l4[1] == 65535 - p.port && q.port == 0)
  }

  lemma EchoSame(little: bool, l4: seq<Word>, e: End, p: Pair, q: Pair)
    requires |l4| > 3 && l4[2] == p.port && p.checksumPort == 65535 - p.port && q.checksumPort == 65535 - q.port
    ensures Same(Sum(little, Segment(Echo, l4, e, p, q)), Sum(little, l4))
  {
    var before, after, was, now := Sum(little, l4), Sum(little, Segment(Echo, l4, e, p, q)), Ntohs(little, p.port), Ntohs(little, q.port);
    SegmentSum(little, Echo, l4, e, p, q);
    EchoAdjusted(little, before, after, p, q, l4[1]);
  }

  lemma EchoAdjusted(little: bool, before: int, after: int, p: Pair, q: Pair, sum: Word)
    requires p.checksumPort == 65535 - p.port && q.checksumPort == 65535 - q.port
    requires after == before - Ntohs(little, p.port) + Ntohs(little, q.port)
                      - Ntohs(little, sum) + Ntohs(little, Adjusted(sum, q.checksumPort, p.checksumPort))
    ensures Same(after, before)
  {
    CachedPort(little, p.port);
    CachedPort(little, q.port);
    AdjustedWord(little, before, Ntohs(little, p.port), Ntohs(little, q.port), p.checksumPort, q.checksumPort, sum);
  }

  lemma EchoBody(l4: seq<Word>, e: End, p: Pair, q: Pair)
    requires |l4| > 3
    ensures Body(Segment(Echo, l4, e, p, q)) == Body(l4)
    ensures Segment(Echo, l4, e, p, q)[2] == q.port
    ensures Segment(Echo, l4, e, p, q)[1] == Adjusted(l4[1], q.checksumPort, p.checksumPort)
  {
  }

  /** When the sum of an all but empty echo becomes 0. */
  lemma AdjustedToZero(sum: Word, p: Word, q: Word)
    ensures q == 0 && Adjusted(sum, 65535 - q, 65535 - p) == 0 <==>
      q == 0 && ((sum == 0 && p == 0) || (0 < sum && sum == 65535 - p))
  {
  }

  /**
   The checksum of an echo is correct afterwards exactly if it was, unless all
   words but checksum and identifier are zero and these two are or become zero
   as well: ones' complement has two zeros, and a sum of no ones is not correct.
   */
  lemma EchoStaysCorrect(little: bool, l4: seq<Word>, e: End, p: Pair, q: Pair)
    requires |l4| > 3 && l4[2] == p.port && p.checksumPort == 65535 - p.port && q.checksumPort == 65535 - q.port
    ensures (Correct(Sum(little, Segment(Echo, l4, e, p, q))) <==> Correct(Sum(little, l4))) <==>
      !(Sum(little, Body(l4)) == 0 && Vanishes(l4, p, q))
  {
    var r := Segment(Echo, l4, e, p, q);
    EchoSame(little, l4, e, p, q);
    EchoBody(l4, e, p, q);
    BodySum(little, l4);
    BodySum(little, r);
    EchoDecided(little, Sum(little, r), Sum(little, l4), Sum(little, Body(l4)), l4, p, q, r[1]);
  }

  lemma EchoDecided(little: bool, after: nat, before: nat, body: nat, l4: seq<Word>, p: Pair, q: Pair, adjusted: Word)
    requires |l4| > 3 && p.checksumPort == 65535 - p.port && q.checksumPort == 65535 - q.port
    requires adjusted == Adjusted(l4[1], q.checksumPort, p.checksumPort) && Same(after, before)
    requires before == body + Ntohs(little, l4[1]) + Ntohs(little, p.port)
    requires after == body + Ntohs(little, adjusted) + Ntohs(little, q.port)
    ensures (Correct(after) <==> Correct(before)) <==> !(body == 0 && Vanishes(l4, p, q))
  {
    EchoZeros(little, body, l4[1], p, q, adjusted);
    EchoVerdict(after, before);
  }

  lemma EchoZeros(little: bool, body: nat, sum: Word, p: Pair, q: Pair, adjusted: Word)
    requires p.checksumPort == 65535 - p.port && q.checksumPort == 65535 - q.port
    requires adjusted == Adjusted(sum, q.checksumPort, p.checksumPort)
    ensures body + Ntohs(little, sum) + Ntohs(little, p.port) == 0 <==> body == 0 && sum == 0 && p.port == 0
    ensures body + Ntohs(little, adjusted) + Ntohs(little, q.port) == 0 <==>
      body == 0 && q.port == 0 && ((sum == 0 && p.port == 0) || (0 < sum && sum == 65535 - p.port))
  {
    NtohsZero(little, sum);
    NtohsZero(little, p.port);
    NtohsZero(little, adjusted);
    NtohsZero(little, q.port);
    AdjustedToZero(sum, p.port, q.port);
  }

  /** Two sums of the same value are judged alike unless just one of them is 0. */
  lemma EchoVerdict(a: nat, b: nat)
    requires Same(a, b)
    ensures (Correct(a) <==> Correct(b)) <==> (a == 0 <==> b == 0)
  {
    if a > 0 && b > 0 {
      SameCorrect(a, b);
    } else {
      var k := Quotient(a, b);
    }
  }

  lemma {:induction false} ZeroSum(little: bool, ws: seq<Word>)
    requires forall i :: 0 <= i < |ws| ==> ws[i] == 0
    ensures Sum(little, ws) == 0
  {
    if ws != [] {
      ZeroSum(little, ws[..|ws| - 1]);
    }
  }

  /** An echo reply of four words, with an identifier and a checksum. */
  function BareReply(id: Word): seq<Word> {
    [0, 65535 - id, id, 0]
  }

  /** A correct echo reply with nothing but an identifier in it becomes zero throughout when that is translated to 0. */
  lemma EchoReplyZeroed(id: Word, hi: Word, lo: Word, e: End)
    requires id < 65535
    ensures var p, q := PairOf(false, hi, lo, id), PairOf(false, hi, lo, 0);
            Correct(Sum(false, BareReply(id))) && !Correct(Sum(false, Segment(Echo, BareReply(id), e, p, q)))
  {
    var p, q, l4 := PairOf(false, hi, lo, id), PairOf(false, hi, lo, 0), BareReply(id);
    BodySum(false, l4);
    ZeroSum(false, Body(l4));
    assert Correct(65535);
    EchoStaysCorrect(false, l4, e, p, q);
  }

  /** The whole words of an ICMP error have a correct sum afterwards, whatever it was. */
  lemma RefilledIsCorrect(little: bool, l4: seq<Word>, n: nat)
    requires 2 <= n <= |l4| && n <= 65537
    ensures Correct(Sum(little, Refilled(little, l4, n)[..n]))
  {
    var cleared := l4[1 := 0][..n];
    HeaderSumBound(little, cleared);
    var c := Complement(Sum(little, cleared));
    assert Refilled(little, l4, n)[..n] == cleared[1 := Ntohs(little, c)];
    SumUpdated(little, cleared, 1, Ntohs(little, c));
    NtohsTwice(little, c);
    CompletedIsCorrect(Sum(little, cleared));
  }

  /** One more byte in the high half of a word spoils a correct sum unless it is 0. */
  lemma OddByte(s: nat, b: nat)
    requires Correct(s) && b < 256
    ensures Correct(s + 256 * b) <==> b == 0
  {
    assert (s + 256 * b) % 65535 == 256 * b;
  }

  lemma QuoteKeepsTail(little: bool, l4: seq<Word>, e: End, p: Pair, q: Pair, n: nat)
    requires 16 < n < |l4|
    ensures Quote(little, l4, e, p, q)[n] == l4[n]
  {
  }

  /**
   The checksum of an ICMP error is formed anew over its whole words, so after
   translation it is correct exactly if the length is even or the last byte of
   the rewritten quote 0. That byte is the one the message had, unless the
   message ends before the words of the quoted packet that are rewritten do.
   */
  lemma ErrorChecksum(little: bool, k: Packet, e: End, p: Pair, q: Pair, rest: nat)
    requires Whole(little, k) && KindOf(little, k).IcmpError? && IcmpWords(little, k.h) >= 2
    ensures SameShape(little, k, Rewritten(little, k, e, p, q))
    ensures Correct(Covered(little, Rewritten(little, k, e, p, q), rest)) <==>
      !OddLength(little, k.h) || Ntohs(little, Quote(little, k.l4, e, p, q)[IcmpWords(little, k.h)]) / 256 == 0
    ensures Correct(Covered(little, Rewritten(little, k, e, p, q), rest)) <==> LastByte(little, Rewritten(little, k, e, p, q)) == 0
    ensures IcmpWords(little, k.h) > 16 ==> LastByte(little, Rewritten(little, k, e, p, q)) == LastByte(little, k)
  {
    var r, n := Rewritten(little, k, e, p, q), IcmpWords(little, k.h);
    RewrittenShape(little, k, e, p, q);
    IcmpWordsBound(little, k.h);
    RefilledIsCorrect(little, Quote(little, k.l4, e, p, q), n);
    OddByte(Sum(little, r.l4[..n]), LastByte(little, r));
    if n > 16 && OddLength(little, k.h) {
      QuoteKeepsTail(little, k.l4, e, p, q, n);
    }
  }

  /** An ICMP error of 35 bytes, the last of them 1, with a correct checksum. */
  function OddError(little: bool): Packet {
    var zeros: seq<Word> := seq(18, _ => 0);
    Packet([Ntohs(little, 0x4500), Ntohs(little, 55), 0, 0, Ntohs(little, 0x4001), 0, 0, 0, 0, 0],
           zeros[0 := Ntohs(little, 0x0300)][1 := Ntohs(little, 0xFBFF)][17 := Ntohs(little, 0x0100)])
  }

  lemma OddErrorShape(little: bool)
    ensures var k := OddError(little);
            && Whole(little, k) && KindOf(little, k).IcmpError? && WellFormed(little, k.h)
            && IcmpWords(little, k.h) == 17 && LastByte(little, k) == 1
  {
    NtohsTwice(little, 0x4500);
    NtohsTwice(little, 55);
    NtohsTwice(little, 0x4001);
    NtohsTwice(little, 0x0300);
    NtohsTwice(little, 0x0100);
  }

  lemma OddErrorIsCorrect(little: bool, rest: nat)
    ensures Whole(little, OddError(little)) && Correct(Covered(little, OddError(little), rest))
  {
    var k := OddError(little);
    OddErrorShape(little);
    var zeros: seq<Word> := seq(17, _ => 0);
    assert k.l4[..17] == zeros[0 := Ntohs(little, 0x0300)][1 := Ntohs(little, 0xFBFF)];
    ZeroSum(little, zeros);
    SumUpdated(little, zeros, 0, Ntohs(little, 0x0300));
    SumUpdated(little, zeros[0 := Ntohs(little, 0x0300)], 1, Ntohs(little, 0xFBFF));
    NtohsTwice(little, 0x0300);
    NtohsTwice(little, 0xFBFF);
    assert Correct(65535);
  }

  /** Translated by any entry, in either direction, its checksum is wrong. */
  lemma OddErrorBroken(little: bool, e: End, p: Pair, q: Pair, rest: nat)
    ensures var k := OddError(little);
            && Whole(little, k) && Correct(Covered(little, k, rest))
            && Whole(little, Rewritten(little, k, e, p, q))
            && !Correct(Covered(little, Rewritten(little, k, e, p, q), rest))
  {
    OddErrorShape(little);
    OddErrorIsCorrect(little, rest);
    ErrorChecksum(little, OddError(little), e, p, q, rest);
  }

  // --- the header checksum -------------------------------------------------------------------

  lemma {:induction false} SumAtLeast(little: bool, ws: seq<Word>, i: nat)
    requires i < |ws|
    ensures Sum(little, ws) >= Ntohs(little, ws[i])
  {
    var n := |ws| - 1;
    if i < n {
      SumAtLeast(little, ws[..n], i);
    }
  }

  lemma HeaderSumAfter(little: bool, h: seq<Word>, e: End, q: Pair, neg: Word)
    requires |h| == HEADER_WORDS
    ensures Sum(little, HeaderTo(h, e, q, h[5], neg)) ==
      Sum(little, h) - IpSum(little, h[IpAt(e)], h[IpAt(e) + 1]) + IpSum(little, q.hi, q.lo)
      - Ntohs(little, h[5]) + Ntohs(little, Adjusted(h[5], q.checksumIp, neg))
  {
    var a := h[IpAt(e) := q.hi];
    var b := a[IpAt(e) + 1 := q.lo];
    SumUpdated(little, h, IpAt(e), q.hi);
    SumUpdated(little, a, IpAt(e) + 1, q.lo);
    SumUpdated(little, b, 5, Adjusted(h[5], q.checksumIp, neg));
  }

  lemma HeaderNotZero(little: bool, h: seq<Word>, e: End, q: Pair, was: Word, neg: Word)
    requires |h| == HEADER_WORDS && h[0] != 0
    ensures Sum(little, h) > 0 && Sum(little, HeaderTo(h, e, q, was, neg)) > 0
  {
    SumAtLeast(little, h, 0);
    SumAtLeast(little, HeaderTo(h, e, q, was, neg), 0);
    NtohsZero(little, h[0]);
  }

  /**
   The header checksum survives translation only if the port given up is 0 or
   65535: the adjustment takes the port out of a sum it was never in.
   */
  lemma HeaderStaysCorrect(little: bool, h: seq<Word>, e: End, p: Pair, q: Pair)
    requires |h| == HEADER_WORDS && h[IpAt(e)] == p.hi && h[IpAt(e) + 1] == p.lo && h[0] != 0
    ensures Cached(little, p) && Cached(little, q) && Correct(Sum(little, h)) ==>
      (Correct(Sum(little, HeaderTo(h, e, q, h[5], p.checksum))) <==> Ntohs(little, p.port) == 0 || Ntohs(little, p.port) == 65535)
  {
    var total, port := Sum(little, h), Ntohs(little, p.port);
    HeaderSumAfter(little, h, e, q, p.checksum);
    HeaderNotZero(little, h, e, q, h[5], p.checksum);
    if Cached(little, p) && Cached(little, q) && Correct(total) {
      AdjustedWord(little, total, PairSum(little, p.hi, p.lo, p.port), IpSum(little, q.hi, q.lo),
                   p.checksum, q.checksumIp, h[5]);
      OffBy(Sum(little, HeaderTo(h, e, q, h[5], p.checksum)), total, port);
    }
  }

  lemma OffBy(after: nat, total: nat, port: Word)
    requires Same(after - port, total) && Correct(total) && after > 0
    ensures Correct(after) <==> port == 0 || port == 65535
  {
    var k := Quotient(after - port, total);
    SameBy(after, total + port, k);
    SameCorrect(after, total + port);
    assert (total + port) % 65535 == port % 65535;
  }

  /** The address at end `e` of a header, as a sum. */
  function AddressSum(little: bool, h: seq<Word>, e: End): nat
    requires |h| >= HEADER_WORDS
  {
    IpSum(little, h[IpAt(e)], h[IpAt(e) + 1])
  }

  lemma Exchanged(after: int, total: int, own: int, sp: int)
    requires Same(after - sp + own, total)
    ensures Same(after, total) <==> Same(own, sp)
  {
    var k := Quotient(after - sp + own, total);
    if Same(after, total) {
      var m := Quotient(after, total);
      SameBy(own, sp, k - m);
    }
    if Same(own, sp) {
      var m := Quotient(own, sp);
      SameBy(after, total, k - m);
    }
  }

  lemma CorrectIsSame(a: nat, b: nat)
    requires a > 0 && Correct(b)
    ensures Correct(a) <==> Same(a, b)
  {
    if Same(a, b) {
      SameCorrect(a, b);
    }
    if Correct(a) {
      SameBy(a, b, a / 65535 - b / 65535);
    }
  }

  /**
   The header quoted in an error is adjusted by sums without the port. If it had
   a correct checksum, it has one afterwards exactly if the address replaced in
   it, which the lookup does not compare, sums up as that of the entry.
   */
  lemma QuotedHeaderStaysCorrect(little: bool, h: seq<Word>, e: End, p: Pair, q: Pair)
    requires |h| == HEADER_WORDS && h[0] != 0
    ensures Cached(little, p) && Cached(little, q) && Correct(Sum(little, h)) ==>
      (Correct(Sum(little, HeaderTo(h, e, q, h[5], p.checksumIp))) <==> Same(AddressSum(little, h, e), IpSum(little, p.hi, p.lo)))
  {
    var total, after := Sum(little, h), Sum(little, HeaderTo(h, e, q, h[5], p.checksumIp));
    var own, sp := AddressSum(little, h, e), IpSum(little, p.hi, p.lo);
    HeaderSumAfter(little, h, e, q, p.checksumIp);
    HeaderNotZero(little, h, e, q, h[5], p.checksumIp);
    if Cached(little, p) && Cached(little, q) && Correct(total) {
      AdjustedWord(little, total, sp, IpSum(little, q.hi, q.lo), p.checksumIp, q.checksumIp, h[5]);
      Exchanged(after, total, own, sp);
      CorrectIsSame(after, total);
    }
  }

  lemma QuotedHeaderOfQuote(little: bool, l4: seq<Word>, e: End, p: Pair, q: Pair)
    requires |l4| > 16
    ensures QuotedHeader(Quote(little, l4, e, p, q)) == HeaderTo(QuotedHeader(l4), Opposite(e), q, l4[QUOTED + 5], p.checksumIp)
  {
  }

  /** The same of the packet quoted in a message, as it is rewritten. */
  lemma QuoteStaysCorrect(little: bool, l4: seq<Word>, e: End, p: Pair, q: Pair)
    requires |l4| > 16 && l4[QUOTED] != 0
    ensures Cached(little, p) && Cached(little, q) && Correct(Sum(little, QuotedHeader(l4))) ==>
      (Correct(Sum(little, QuotedHeader(Quote(little, l4, e, p, q)))) <==>
         Same(AddressSum(little, QuotedHeader(l4), Opposite(e)), IpSum(little, p.hi, p.lo)))
  {
    QuotedHeaderOfQuote(little, l4, e, p, q);
    QuotedHeaderStaysCorrect(little, QuotedHeader(l4), Opposite(e), p, q);
  }

  /** A UDP packet sent without a checksum (field 0) leaves with a field that claims to be one. */
  lemma UdpWithoutChecksum(pos: Word, neg: Word)
    ensures Adjusted(0, pos, neg) == 0 <==> pos == neg || (pos == 0 && neg == 65535)
  {
  }

  // --- all kinds together --------------------------------------------------------------------

  /** An ICMP error is left alone, or has a correct checksum exactly if its length is even or its last byte 0. */
  ghost predicate ErrorKept(little: bool, k: Packet, r: Packet, rest: nat)
    requires Whole(little, k) && Whole(little, r) && KindOf(little, k).IcmpError? && KindOf(little, r).IcmpError?
  {
    && (r.l4 == k.l4 || (Correct(Covered(little, r, rest)) <==> LastByte(little, r) == 0))
    && (IcmpWords(little, k.h) > 16 ==> LastByte(little, r) == LastByte(little, k))
  }

  /** What translation promises about a packet's transport checksum. */
  ghost predicate Preserved(little: bool, k: Packet, r: Packet, rest: nat)
    requires Whole(little, k)
  {
    && SameShape(little, k, r)
    && match KindOf(little, k)
       case Tcp => Correct(Covered(little, r, rest)) <==> Correct(Covered(little, k, rest))
       case Udp => Correct(Covered(little, r, rest)) <==> Correct(Covered(little, k, rest))
       case Echo =>
         && Body(r.l4) == Body(k.l4)
         && (Sum(little, Body(k.l4)) > 0 ==> (Correct(Sum(little, r.l4)) <==> Correct(Sum(little, k.l4))))
       case IcmpError => IcmpWords(little, k.h) >= 2 ==> ErrorKept(little, k, r, rest)
       case _ => r.l4 == k.l4
  }

  lemma RewrittenPreserves(little: bool, k: Packet, rest: nat, e: End, p: Pair, q: Pair)
    requires Whole(little, k) && rest > 0 && Cached(little, p) && Cached(little, q)
    requires HasPort(KindOf(little, k)) ==> Carries(little, k, e, p)
    ensures Preserved(little, k, Rewritten(little, k, e, p, q), rest)
  {
    RewrittenShape(little, k, e, p, q);
    match KindOf(little, k)
    case Tcp => TransportStaysCorrect(little, k, rest, e, p, q);
    case Udp => TransportStaysCorrect(little, k, rest, e, p, q);
    case Echo =>
      EchoBody(k.l4, e, p, q);
      EchoStaysCorrect(little, k.l4, e, p, q);
    case IcmpError =>
      if IcmpWords(little, k.h) >= 2 {
        ErrorChecksum(little, k, e, p, q, rest);
      }
    case _ =>
  }

  lemma PreservedTwice(little: bool, k: Packet, m: Packet, r: Packet, rest: nat)
    requires Whole(little, k) && Preserved(little, k, m, rest) && Preserved(little, m, r, rest)
    ensures Preserved(little, k, r, rest)
  {
  }

  lemma PreservedSelf(little: bool, k: Packet, rest: nat)
    requires Whole(little, k)
    ensures Preserved(little, k, k, rest)
  {
  }
}
