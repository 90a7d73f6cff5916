/**
 Network address translation on the forwarding path: the table, and the packet
 handlers that rewrite a packet in place.
 */
module Nat {
  import opened WordSums
  import opened IpHeader
  import opened NatSums
  import opened NatPackets

  // --- the table ---------------------------------------------------------------------------

  predicate IsSide(t: NatEntry, e: End, hi: Word, lo: Word, port: Word) {
    var side := if e.Destination? then t.ext else t.inside;
    side.hi == hi && side.lo == lo && side.port == port
  }

  /** The first entry whose side for end `e` is the given address and port: external for a destination. */
  function SideAt(table: seq<NatEntry>, e: End, hi: Word, lo: Word, port: Word): (i: int)
    ensures i == -1 ==> forall k :: 0 <= k < |table| ==> !IsSide(table[k], e, hi, lo, port)
    ensures i != -1 ==>
      && 0 <= i < |table| && IsSide(table[i], e, hi, lo, port)
      && forall k :: 0 <= k < i ==> !IsSide(table[k], e, hi, lo, port)
  {
    if table == [] then -1
    else if IsSide(table[0], e, hi, lo, port) then 0
    else
      var k := SideAt(table[1..], e, hi, lo, port);
      if k == -1 then -1 else k + 1
  }

  method GetNatTableEntry(table: seq<NatEntry>, e: End, hi: Word, lo: Word, port: Word) returns (i: int)
    ensures i == SideAt(table, e, hi, lo, port)
  {
    for n := 0 to |table|
      invariant forall k :: 0 <= k < n ==> !IsSide(table[k], e, hi, lo, port)
    {
      var side := if e.Destination? then table[n].ext else table[n].inside;
      if side.hi == hi && side.lo == lo && side.port == port {
        return n;
      }
    }
    return -1;
  }

  // --- what the handlers compute --------------------------------------------------------------

  function KeyAt(little: bool, table: seq<NatEntry>, k: Packet, e: End): int
    requires Whole(little, k)
  {
    SideAt(table, e, KeyIp(little, k, e, 0), KeyIp(little, k, e, 1), KeyPort(little, k, e))
  }

  /** A packet from outside: its destination is translated if the table knows it. */
  function Inward(little: bool, table: seq<NatEntry>, k: Packet): Packet
    requires Whole(little, k)
  {
    var i := KeyAt(little, table, k, Destination);
    if i == -1 then k else Rewritten(little, k, Destination, table[i].ext, table[i].inside)
  }

  /** An external address and the port drawn for a new entry. */
  datatype Drawn = Drawn(hi: Word, lo: Word, port: Word)

  function Extended(little: bool, table: seq<NatEntry>, k: Packet, d: Drawn): seq<NatEntry>
    requires Whole(little, k)
  {
    table + [NatEntry(PairOf(little, d.hi, d.lo, d.port), PairOf(little, k.h[6], k.h[7], NewPort(little, k)))]
  }

  /** The table once a packet to outside has an entry in it, and where. */
  function WithEntry(little: bool, table: seq<NatEntry>, k: Packet, d: Drawn): seq<NatEntry>
    requires Whole(little, k)
  {
    if KeyAt(little, table, k, Source) != -1 then table else Extended(little, table, k, d)
  }

  function EntryAt(little: bool, table: seq<NatEntry>, k: Packet): nat
    requires Whole(little, k)
  {
    var i := KeyAt(little, table, k, Source);
    if i != -1 then i else |table|
  }

  /** A packet to outside: its source is translated, through a new entry if need be. */
  function Outward(little: bool, table: seq<NatEntry>, k: Packet, d: Drawn): Packet
    requires Whole(little, k)
  {
    var t := WithEntry(little, table, k, d)[EntryAt(little, table, k)];
    Rewritten(little, k, Source, t.inside, t.ext)
  }

  lemma InwardPreserves(little: bool, table: seq<NatEntry>, k: Packet, rest: nat)
    requires Whole(little, k) && rest > 0 && AllCached(little, table)
    ensures Preserved(little, k, Inward(little, table, k), rest)
  {
    var i := KeyAt(little, table, k, Destination);
    if i == -1 {
      PreservedSelf(little, k, rest);
    } else {
      RewrittenPreserves(little, k, rest, Destination, table[i].ext, table[i].inside);
    }
  }

  lemma WithEntryCached(little: bool, table: seq<NatEntry>, k: Packet, d: Drawn)
    requires Whole(little, k) && AllCached(little, table)
    ensures AllCached(little, WithEntry(little, table, k, d))
  {
    PairOfCached(little, d.hi, d.lo, d.port);
    PairOfCached(little, k.h[6], k.h[7], NewPort(little, k));
  }

  lemma OutwardPreserves(little: bool, table: seq<NatEntry>, k: Packet, d: Drawn, rest: nat)
    requires Whole(little, k) && rest > 0 && AllCached(little, table)
    ensures Preserved(little, k, Outward(little, table, k, d), rest)
  {
    var t := WithEntry(little, table, k, d)[EntryAt(little, table, k)];
    WithEntryCached(little, table, k, d);
    RewrittenPreserves(little, k, rest, Source, t.inside, t.ext);
  }

  // --- rewriting in place ------------------------------------------------------------------------

  method RewriteHeader(kind: Kind, h: array<Word>, e: End, p: Pair, q: Pair)
    requires h.Length >= HEADER_WORDS
    modifies h
    ensures h[..] == Header(kind, old(h[..]), e, p, q)
  {
    h[IpAt(e)] := q.hi;
    h[IpAt(e) + 1] := q.lo;
    if kind.IcmpError? {
      h[5] := 0;
    }
    var sum := NatChecksum(h[5], q.checksumIp, p.checksum);
    h[5] := sum;
  }

  method RewriteSegment(kind: Kind, l4: array<Word>, e: End, p: Pair, q: Pair)
    requires HasPort(kind) && l4.Length > SumAt(kind) && l4.Length > PortAt(kind, e)
    modifies l4
    ensures l4[..] == Segment(kind, old(l4[..]), e, p, q)
  {
    l4[PortAt(kind, e)] := q.port;
    var sum;
    if kind.Echo? {
      sum := NatChecksum(l4[1], q.checksumPort, p.checksumPort);
    } else {
      sum := NatChecksum(l4[SumAt(kind)], q.checksum, p.checksum);
    }
    l4[SumAt(kind)] := sum;
  }

  lemma QuoteInPlace(l4: seq<Word>, o: End, q: Pair, neg: Word)
    requires |l4| > 16
    ensures l4[..QUOTED] + HeaderTo(QuotedHeader(l4), o, q, l4[QUOTED + 5], neg) + l4[QUOTED_L4..]
         == l4[QUOTED + IpAt(o) := q.hi][QUOTED + IpAt(o) + 1 := q.lo][QUOTED + 5 := Adjusted(l4[QUOTED + 5], q.checksumIp, neg)]
  {
  }

  method RewriteQuote(little: bool, l4: array<Word>, e: End, p: Pair, q: Pair)
    requires l4.Length > 16
    modifies l4
    ensures l4[..] == Quote(little, old(l4[..]), e, p, q)
  {
    var o, proto := Opposite(e), QuotedProtocol(little, l4[..]);
    var isEcho := IsEcho(IcmpType(little, l4[QUOTED_L4]));
    QuoteInPlace(l4[..], o, q, p.checksumIp);
    l4[QUOTED + IpAt(o)] := q.hi;
    l4[QUOTED + IpAt(o) + 1] := q.lo;
    var sum := NatChecksum(l4[QUOTED + 5], q.checksumIp, p.checksumIp);
    l4[QUOTED + 5] := sum;
    if proto == TCP || proto == UDP {
      l4[QUOTED_L4 + PortAt(Tcp, o)] := q.port;
    } else if proto == ICMP && isEcho {
      l4[QUOTED_L4 + 2] := q.port;
      sum := NatChecksum(l4[QUOTED_L4 + 1], q.checksumPort, p.checksumPort);
      l4[QUOTED_L4 + 1] := sum;
    }
  }

  /** Clears the checksum of an ICMP message of `n` words and fills it in anew. */
  method FillIcmpChecksum(little: bool, l4: array<Word>, n: nat)
    requires 2 <= l4.Length && n <= l4.Length && n <= 65537
    modifies l4
    ensures l4[..] == Refilled(little, old(l4[..]), n)
  {
    l4[1] := 0;
    var sum := 0;
    for i := 0 to n
      invariant l4[..] == old(l4[..])[1 := 0]
      invariant sum == Sum(little, l4[..i])
    {
      assert l4[..i + 1][..i] == l4[..i];
      if i != 1 {
        sum := sum + Ntohs(little, l4[i]);
      }
    }
    assert l4[..][..n] == l4[..n];
    HeaderSumBound(little, l4[..n]);
    var c := StoredComplement(little, sum);
    l4[1] := c;
  }

  method Rewrite(little: bool, h: array<Word>, l4: array<Word>, e: End, p: Pair, q: Pair)
    requires h != l4 && Whole(little, Packet(h[..], l4[..]))
    modifies h, l4
    ensures Packet(h[..], l4[..]) == Rewritten(little, old(Packet(h[..], l4[..])), e, p, q)
  {
    var kind, n := KindOf(little, Packet(h[..], l4[..])), IcmpWords(little, h[..]);
    IcmpWordsBound(little, h[..]);
    if HasPort(kind) {
      RewriteSegment(kind, l4, e, p, q);
    } else if kind.IcmpError? {
      RewriteQuote(little, l4, e, p, q);
      FillIcmpChecksum(little, l4, n);
    }
    RewriteHeader(kind, h, e, p, q);
  }

  // --- the packet handlers ----------------------------------------------------------------------

  method ProcessNatExtPacket(little: bool, table: seq<NatEntry>, h: array<Word>, l4: array<Word>)
    requires h != l4 && Whole(little, Packet(h[..], l4[..]))
    modifies h, l4
    ensures Packet(h[..], l4[..]) == Inward(little, table, old(Packet(h[..], l4[..])))
  {
    var k := Packet(h[..], l4[..]);
    var i := GetNatTableEntry(table, Destination, KeyIp(little, k, Destination, 0), KeyIp(little, k, Destination, 1),
                              KeyPort(little, k, Destination));
    if i != -1 {
      Rewrite(little, h, l4, Destination, table[i].ext, table[i].inside);
    }
  }

  /** For a protocol other than TCP, UDP and ICMP no entry is looked up, and the missing entry is dereferenced. */
  method ProcessNatIntPacket(little: bool, table: seq<NatEntry>, h: array<Word>, l4: array<Word>, d: Drawn)
    returns (now: seq<NatEntry>, crashed: bool)
    requires h != l4 && Whole(little, Packet(h[..], l4[..]))
    modifies h, l4
    ensures crashed <==> KindOf(little, old(Packet(h[..], l4[..]))).Other?
    ensures crashed ==> now == table && h[..] == old(h[..]) && l4[..] == old(l4[..])
    ensures !crashed ==>
      && now == WithEntry(little, table, old(Packet(h[..], l4[..])), d)
      && Packet(h[..], l4[..]) == Outward(little, table, old(Packet(h[..], l4[..])), d)
  {
    var k := Packet(h[..], l4[..]);
    now, crashed := table, KindOf(little, k).Other?;
    if crashed {
      return;
    }
    var i := GetNatTableEntry(table, Source, KeyIp(little, k, Source, 0), KeyIp(little, k, Source, 1), KeyPort(little, k, Source));
    if i == -1 {
      var ext := ComputeNatChecksums(little, d.hi, d.lo, d.port);
      var inside := ComputeNatChecksums(little, h[6], h[7], NewPort(little, k));
      i := |table|;
      now := table + [NatEntry(ext, inside)];
    }
    Rewrite(little, h, l4, Source, now[i].inside, now[i].ext);
  }

  // --- forwarding -------------------------------------------------------------------------------

  /** The transport checksum does not cover the TTL or the header checksum. */
  lemma NotCovered(little: bool, k: Packet, r: Packet, rest: nat)
    requires Whole(little, k) && r.l4 == k.l4 && |r.h| == |k.h| && r.h == k.h[4 := r.h[4]][5 := r.h[5]]
    requires Protocol(little, r.h) == Protocol(little, k.h)
    ensures Whole(little, r) && KindOf(little, r) == KindOf(little, k) && Covered(little, r, rest) == Covered(little, k, rest)
  {
    assert r.h[6] == k.h[6] && r.h[7] == k.h[7] && r.h[8] == k.h[8] && r.h[9] == k.h[9] && r.h[1] == k.h[1];
  }

  /** What is promised of the transport checksum, once the TTL has changed as well. */
  ghost predicate StaysCorrect(little: bool, k: Packet, r: Packet, rest: nat)
    requires Whole(little, k) && Whole(little, r)
  {
    && KindOf(little, r) == KindOf(little, k)
    && match KindOf(little, k)
       case Tcp => Correct(Covered(little, r, rest)) <==> Correct(Covered(little, k, rest))
       case Udp => Correct(Covered(little, r, rest)) <==> Correct(Covered(little, k, rest))
       case Echo => Sum(little, Body(k.l4)) > 0 ==> (Correct(Covered(little, r, rest)) <==> Correct(Covered(little, k, rest)))
       case IcmpError => IcmpWords(little, k.h) >= 2 ==> ErrorKept(little, k, r, rest)
       case _ => r.l4 == k.l4
  }

  lemma PreservedStaysCorrect(little: bool, k: Packet, m: Packet, r: Packet, rest: nat)
    requires Whole(little, k) && Preserved(little, k, m, rest)
    requires r.l4 == m.l4 && |r.h| == |m.h| && r.h == m.h[4 := r.h[4]][5 := r.h[5]]
    requires Protocol(little, r.h) == Protocol(little, m.h)
    ensures Whole(little, r) && StaysCorrect(little, k, r, rest)
  {
    NotCovered(little, m, r, rest);
  }

  lemma ShapeWellFormed(little: bool, k: Packet, r: Packet)
    requires Whole(little, k) && SameShape(little, k, r) && WellFormed(little, k.h)
    ensures WellFormed(little, r.h) && Ttl(little, r.h) == Ttl(little, k.h) && Protocol(little, r.h) == Protocol(little, k.h)
  {
  }

  /** What is promised of a packet forwarded as `r` that translation made `m` of `k`. */
  lemma ForwardedIs(little: bool, k: Packet, m: Packet, r: Packet, rest: nat)
    requires Whole(little, k) && Preserved(little, k, m, rest)
    requires r.l4 == m.l4 && |r.h| == |m.h| && r.h == m.h[4 := r.h[4]][5 := r.h[5]]
    requires Protocol(little, r.h) == Protocol(little, m.h)
    ensures Whole(little, r) && StaysCorrect(little, k, r, rest) && Protocol(little, r.h) == Protocol(little, k.h)
  {
    PreservedStaysCorrect(little, k, m, r, rest);
  }

  datatype Fate = Forwarded | Expired | Crashed

  /** The packet after the translation due on its way from one interface to another. */
  function Translated(little: bool, table: seq<NatEntry>, k: Packet, fromWan: bool, toWan: bool, d: Drawn): (r: Packet)
    requires Whole(little, k)
    ensures !toWan ==> Whole(little, r)
  {
    var m := if fromWan then Inward(little, table, k) else k;
    if fromWan then InwardShape(little, table, k); if toWan then Outward(little, table, m, d) else m
    else if toWan then Outward(little, table, m, d) else m
  }

  /** Which way is which: what comes from the WAN is translated inward, and what then goes to the WAN outward. */
  lemma TranslatedWays(little: bool, table: seq<NatEntry>, k: Packet, d: Drawn)
    requires Whole(little, k)
    ensures Translated(little, table, k, false, false, d) == k
    ensures Translated(little, table, k, true, false, d) == Inward(little, table, k)
    ensures Translated(little, table, k, false, true, d) == Outward(little, table, k, d)
    ensures Whole(little, Inward(little, table, k))
    ensures Translated(little, table, k, true, true, d) == Outward(little, table, Inward(little, table, k), d)
  {
    InwardShape(little, table, k);
  }

  lemma InwardShape(little: bool, table: seq<NatEntry>, k: Packet)
    requires Whole(little, k)
    ensures SameShape(little, k, Inward(little, table, k))
  {
    var i := KeyAt(little, table, k, Destination);
    if i != -1 {
      RewrittenShape(little, k, Destination, table[i].ext, table[i].inside);
    }
  }

  lemma TranslatedPreserves(little: bool, table: seq<NatEntry>, k: Packet, fromWan: bool, toWan: bool, d: Drawn, rest: nat)
    requires Whole(little, k) && rest > 0 && AllCached(little, table)
    ensures Preserved(little, k, Translated(little, table, k, fromWan, toWan, d), rest)
  {
    var m := if fromWan then Inward(little, table, k) else k;
    PreservedSelf(little, k, rest);
    InwardPreserves(little, table, k, rest);
    if toWan {
      OutwardPreserves(little, table, m, d, rest);
      PreservedTwice(little, k, m, Outward(little, table, m, d), rest);
    }
  }

  method Translate(little: bool, table: seq<NatEntry>, h: array<Word>, l4: array<Word>, fromWan: bool, toWan: bool, d: Drawn)
    returns (now: seq<NatEntry>, crashed: bool)
    requires h != l4 && Whole(little, Packet(h[..], l4[..])) && AllCached(little, table)
    modifies h, l4
    ensures AllCached(little, now)
    ensures crashed <==> toWan && KindOf(little, old(Packet(h[..], l4[..]))).Other?
    ensures !crashed ==> Packet(h[..], l4[..]) == Translated(little, table, old(Packet(h[..], l4[..])), fromWan, toWan, d)
    ensures !crashed ==>
      now == if toWan then WithEntry(little, table, Translated(little, table, old(Packet(h[..], l4[..])), fromWan, false, d), d) else table
  {
    ghost var k := Packet(h[..], l4[..]);
    now, crashed := table, false;
    if fromWan {
      InwardShape(little, table, k);
      ProcessNatExtPacket(little, table, h, l4);
    }
    if toWan {
      ghost var m := Packet(h[..], l4[..]);
      WithEntryCached(little, table, m, d);
      now, crashed := ProcessNatIntPacket(little, table, h, l4, d);
    }
  }

  /**
   Forwarding from one interface to another, of every protocol, with translation
   where an interface is the WAN. It crashes exactly for a packet to the WAN
   that is neither TCP, UDP nor ICMP. Otherwise a packet that is forwarded
   passes the validity check again, whatever translation did to its header
   checksum, and its transport checksum is as `StaysCorrect` says.
   */
  method ForwardPacket(little: bool, table: seq<NatEntry>, h: array<Word>, l4: array<Word>, fromWan: bool, toWan: bool,
                       d: Drawn, ghost rest: nat) returns (fate: Fate, now: seq<NatEntry>)
    requires h != l4 && Whole(little, Packet(h[..], l4[..])) && PacketValid(little, h[..])
    requires rest > 0 && AllCached(little, table)
    modifies h, l4
    ensures AllCached(little, now)
    ensures fate.Crashed? <==> toWan && Protocol(little, old(h[..])) !in {ICMP, TCP, UDP}
    ensures fate.Expired? <==> !fate.Crashed? && Ttl(little, old(h[..])) == 1
    ensures fate.Forwarded? ==>
      && PacketValid(little, h[..])
      && Whole(little, Packet(h[..], l4[..]))
      && StaysCorrect(little, old(Packet(h[..], l4[..])), Packet(h[..], l4[..]), rest)
      && Ttl(little, h[..]) == (old(Ttl(little, h[..])) + 255) % 256
      && Protocol(little, h[..]) == old(Protocol(little, h[..]))
    ensures fate.Forwarded? ==>
      var t := Translated(little, table, old(Packet(h[..], l4[..])), fromWan, toWan, d);
      l4[..] == t.l4 && |t.h| == h.Length && h[..] == t.h[4 := h[4]][5 := h[5]]
    ensures !fate.Crashed? ==>
      now == if toWan then WithEntry(little, table, Translated(little, table, old(Packet(h[..], l4[..])), fromWan, false, d), d) else table
  {
    ghost var k := Packet(h[..], l4[..]);
    var crashed;
    now, crashed := Translate(little, table, h, l4, fromWan, toWan, d);
    if crashed {
      return Crashed, now;
    }
    ghost var m := Packet(h[..], l4[..]);
    TranslatedPreserves(little, table, k, fromWan, toWan, d, rest);
    ShapeWellFormed(little, k, m);
    var forwarded := ForwardHeader(little, h);
    if !forwarded {
      return Expired, now;
    }
    ForwardedIs(little, k, m, Packet(h[..], l4[..]), rest);
    return Forwarded, now;
  }
}
