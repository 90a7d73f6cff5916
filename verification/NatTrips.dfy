/**
 Where translation sends a packet, read off the words of its header and of what
 follows it: words 6 and 7 of the header are the source address, 8 and 9 the
 destination, the low byte of word 4 the protocol (1 ICMP, 6 TCP, 17 UDP).
 */
module NatTrips {
  import opened WordSums
  import opened IpHeader
  import opened NatSums
  import opened NatPackets
  import opened Nat

  lemma FirstSide(table: seq<NatEntry>, e: End, hi: Word, lo: Word, port: Word, i: nat)
    requires i <= |table| && forall j :: 0 <= j < i ==> !IsSide(table[j], e, hi, lo, port)
    requires i < |table| ==> IsSide(table[i], e, hi, lo, port)
    ensures SideAt(table, e, hi, lo, port) == if i < |table| then i else -1
  {
  }

  // --- from outside -------------------------------------------------------------------------

  /**
   A TCP or UDP packet from outside goes to the inside pair of the first entry
   whose external pair is its destination: of its words only the destination,
   the destination port and the two checksums change. Without such an entry
   nothing changes.
   */
  lemma InwardTransport(little: bool, table: seq<NatEntry>, k: Packet, i: nat)
    requires Whole(little, k) && Ntohs(little, k.h[4]) % 256 in {6, 17} && i <= |table|
    requires forall j :: 0 <= j < i ==> (table[j].ext.hi, table[j].ext.lo, table[j].ext.port) != (k.h[8], k.h[9], k.l4[1])
    requires i < |table| ==> (table[i].ext.hi, table[i].ext.lo, table[i].ext.port) == (k.h[8], k.h[9], k.l4[1])
    ensures var r := Inward(little, table, k);
            var sum := if Ntohs(little, k.h[4]) % 256 == 6 then 8 else 3;
            if i == |table| then r == k
            else
              && r.h == k.h[8 := table[i].inside.hi][9 := table[i].inside.lo][5 := r.h[5]]
              && r.l4 == k.l4[1 := table[i].inside.port][sum := r.l4[sum]]
  {
    FirstSide(table, Destination, k.h[8], k.h[9], k.l4[1], i);
  }

  /** The same for an echo or its reply, whose identifier stands for the port. */
  lemma InwardEcho(little: bool, table: seq<NatEntry>, k: Packet, i: nat)
    requires Whole(little, k) && Ntohs(little, k.h[4]) % 256 == 1 && Ntohs(little, k.l4[0]) / 256 in {0, 8} && i <= |table|
    requires forall j :: 0 <= j < i ==> (table[j].ext.hi, table[j].ext.lo, table[j].ext.port) != (k.h[8], k.h[9], k.l4[2])
    requires i < |table| ==> (table[i].ext.hi, table[i].ext.lo, table[i].ext.port) == (k.h[8], k.h[9], k.l4[2])
    ensures var r := Inward(little, table, k);
            if i == |table| then r == k
            else
              && r.h == k.h[8 := table[i].inside.hi][9 := table[i].inside.lo][5 := r.h[5]]
              && r.l4 == k.l4[2 := table[i].inside.port][1 := r.l4[1]]
  {
    FirstSide(table, Destination, k.h[8], k.h[9], k.l4[2], i);
  }

  /**
   The words of an ICMP error after its quoted packet got the address of `q` at
   word `ip` and its port at word `port` or, for a quoted echo, its identifier;
   words 9, 15 and 1 are checksums.
   */
  ghost predicate Requoted(little: bool, l4: seq<Word>, r: seq<Word>, ip: nat, port: nat, q: Pair)
    requires |l4| > 16 && ip < 16 && port < 16
  {
    var proto, t := Ntohs(little, l4[8]) % 256, Ntohs(little, l4[14]) / 256;
    && |r| == |l4|
    && var quoted := l4[ip := q.hi][ip + 1 := q.lo][9 := r[9]];
    r == (if proto in {6, 17} then quoted[port := q.port]
          else if proto == 1 && t in {0, 8} then quoted[16 := q.port][15 := r[15]]
          else quoted)[1 := r[1]]
  }

  lemma QuoteRequoted(little: bool, l4: seq<Word>, e: End, p: Pair, q: Pair)
    requires |l4| > 16
    ensures Requoted(little, l4, Quote(little, l4, e, p, q), if e.Destination? then 10 else 12, if e.Destination? then 14 else 15, q)
  {
    QuoteInPlace(l4, Opposite(e), q, p.checksumIp);
  }

  lemma RefilledRequoted(little: bool, l4: seq<Word>, r: seq<Word>, ip: nat, port: nat, q: Pair, n: nat)
    requires |l4| > 16 && 2 <= ip < 16 && 2 <= port < 16 && n <= |r| && n <= 65537
    requires Requoted(little, l4, r, ip, port, q)
    ensures Requoted(little, l4, Refilled(little, r, n), ip, port, q)
  {
  }

  lemma RewrittenError(little: bool, k: Packet, e: End, p: Pair, q: Pair)
    requires Whole(little, k) && KindOf(little, k).IcmpError?
    ensures var r, ip := Rewritten(little, k, e, p, q), if e.Destination? then 8 else 6;
            && r.h == k.h[ip := q.hi][ip + 1 := q.lo][5 := r.h[5]]
            && Requoted(little, k.l4, r.l4, if e.Destination? then 10 else 12, if e.Destination? then 14 else 15, q)
  {
    IcmpWordsBound(little, k.h);
    QuoteRequoted(little, k.l4, e, p, q);
    RefilledRequoted(little, k.l4, Quote(little, k.l4, e, p, q), if e.Destination? then 10 else 12,
                     if e.Destination? then 14 else 15, q, IcmpWords(little, k.h));
  }

  /**
   An ICMP error (type 3 or 11) is looked up by a port of the packet it quotes,
   whose header begins at word 4: there the source becomes the inside pair too.
   */
  lemma InwardError(little: bool, table: seq<NatEntry>, k: Packet, i: nat, port: Word)
    requires Whole(little, k) && Ntohs(little, k.h[4]) % 256 == 1 && Ntohs(little, k.l4[0]) / 256 in {3, 11} && i <= |table|
    requires var proto := Ntohs(little, k.l4[8]) % 256;
             port == if proto in {6, 17} then k.l4[14] else if proto == 1 then k.l4[16] else 0
    requires forall j :: 0 <= j < i ==> (table[j].ext.hi, table[j].ext.lo, table[j].ext.port) != (k.h[8], k.h[9], port)
    requires i < |table| ==> (table[i].ext.hi, table[i].ext.lo, table[i].ext.port) == (k.h[8], k.h[9], port)
    ensures var r := Inward(little, table, k);
            if i == |table| then r == k
            else
              && r.h == k.h[8 := table[i].inside.hi][9 := table[i].inside.lo][5 := r.h[5]]
              && Requoted(little, k.l4, r.l4, 10, 14, table[i].inside)
  {
    FirstSide(table, Destination, k.h[8], k.h[9], port, i);
    if i < |table| {
      RewrittenError(little, k, Destination, table[i].ext, table[i].inside);
    }
  }

  /** Any other ICMP message is looked up with port 0, and of its words only address and header checksum change. */
  lemma InwardOther(little: bool, table: seq<NatEntry>, k: Packet, i: nat)
    requires Whole(little, k) && Ntohs(little, k.h[4]) % 256 == 1 && Ntohs(little, k.l4[0]) / 256 !in {0, 3, 8, 11}
    requires i <= |table|
    requires forall j :: 0 <= j < i ==> (table[j].ext.hi, table[j].ext.lo, table[j].ext.port) != (k.h[8], k.h[9], 0)
    requires i < |table| ==> (table[i].ext.hi, table[i].ext.lo, table[i].ext.port) == (k.h[8], k.h[9], 0)
    ensures var r := Inward(little, table, k);
            if i == |table| then r == k
            else r == Packet(k.h[8 := table[i].inside.hi][9 := table[i].inside.lo][5 := r.h[5]], k.l4)
  {
    FirstSide(table, Destination, k.h[8], k.h[9], 0, i);
  }

  // --- to outside ---------------------------------------------------------------------------

  /** The table is as it was, or one entry longer at `i`: the drawn pair beside the given source. */
  ghost predicate Stored(table: seq<NatEntry>, now: seq<NatEntry>, i: nat, d: Drawn, hi: Word, lo: Word, port: Word) {
    if i < |table| then now == table
    else
      && |now| == i + 1 && now[..i] == table
      && (now[i].ext.hi, now[i].ext.lo, now[i].ext.port) == (d.hi, d.lo, d.port)
      && (now[i].inside.hi, now[i].inside.lo, now[i].inside.port) == (hi, lo, port)
  }

  /**
   A TCP or UDP packet to outside leaves with the external pair of the first
   entry whose inside pair is its source, else with the pair drawn for it, which
   is then stored beside its source: of its words only the source, the source
   port and the two checksums change.
   */
  lemma OutwardTransport(little: bool, table: seq<NatEntry>, k: Packet, d: Drawn, i: nat)
    requires Whole(little, k) && Ntohs(little, k.h[4]) % 256 in {6, 17} && i <= |table|
    requires forall j :: 0 <= j < i ==>
      (table[j].inside.hi, table[j].inside.lo, table[j].inside.port) != (k.h[6], k.h[7], k.l4[0])
    requires i < |table| ==> (table[i].inside.hi, table[i].inside.lo, table[i].inside.port) == (k.h[6], k.h[7], k.l4[0])
    ensures Stored(table, WithEntry(little, table, k, d), i, d, k.h[6], k.h[7], k.l4[0])
    ensures var r, ext := Outward(little, table, k, d), WithEntry(little, table, k, d)[i].ext;
            var sum := if Ntohs(little, k.h[4]) % 256 == 6 then 8 else 3;
            && r.h == k.h[6 := ext.hi][7 := ext.lo][5 := r.h[5]]
            && r.l4 == k.l4[0 := ext.port][sum := r.l4[sum]]
  {
    FirstSide(table, Source, k.h[6], k.h[7], k.l4[0], i);
  }

  lemma OutwardEcho(little: bool, table: seq<NatEntry>, k: Packet, d: Drawn, i: nat)
    requires Whole(little, k) && Ntohs(little, k.h[4]) % 256 == 1 && Ntohs(little, k.l4[0]) / 256 in {0, 8} && i <= |table|
    requires forall j :: 0 <= j < i ==>
      (table[j].inside.hi, table[j].inside.lo, table[j].inside.port) != (k.h[6], k.h[7], k.l4[2])
    requires i < |table| ==> (table[i].inside.hi, table[i].inside.lo, table[i].inside.port) == (k.h[6], k.h[7], k.l4[2])
    ensures Stored(table, WithEntry(little, table, k, d), i, d, k.h[6], k.h[7], k.l4[2])
    ensures var r, ext := Outward(little, table, k, d), WithEntry(little, table, k, d)[i].ext;
            && r.h == k.h[6 := ext.hi][7 := ext.lo][5 := r.h[5]]
            && r.l4 == k.l4[2 := ext.port][1 := r.l4[1]]
  {
    FirstSide(table, Source, k.h[6], k.h[7], k.l4[2], i);
  }

  /** An ICMP error to outside: the quoted packet's destination becomes the external pair. */
  lemma OutwardError(little: bool, table: seq<NatEntry>, k: Packet, d: Drawn, i: nat, port: Word)
    requires Whole(little, k) && Ntohs(little, k.h[4]) % 256 == 1 && Ntohs(little, k.l4[0]) / 256 in {3, 11} && i <= |table|
    requires var proto := Ntohs(little, k.l4[8]) % 256;
             port == if proto in {6, 17} then k.l4[15] else if proto == 1 then k.l4[16] else 0
    requires forall j :: 0 <= j < i ==>
      (table[j].inside.hi, table[j].inside.lo, table[j].inside.port) != (k.h[6], k.h[7], port)
    requires i < |table| ==> (table[i].inside.hi, table[i].inside.lo, table[i].inside.port) == (k.h[6], k.h[7], port)
    ensures Stored(table, WithEntry(little, table, k, d), i, d, k.h[6], k.h[7], k.l4[14])
    ensures var r, ext := Outward(little, table, k, d), WithEntry(little, table, k, d)[i].ext;
            && r.h == k.h[6 := ext.hi][7 := ext.lo][5 := r.h[5]]
            && Requoted(little, k.l4, r.l4, 12, 15, ext)
  {
    FirstSide(table, Source, k.h[6], k.h[7], port, i);
    var t := WithEntry(little, table, k, d)[i];
    RewrittenError(little, k, Source, t.inside, t.ext);
  }

  /** Any other ICMP message to outside. */
  lemma OutwardOther(little: bool, table: seq<NatEntry>, k: Packet, d: Drawn, i: nat)
    requires Whole(little, k) && Ntohs(little, k.h[4]) % 256 == 1 && Ntohs(little, k.l4[0]) / 256 !in {0, 3, 8, 11}
    requires i <= |table|
    requires forall j :: 0 <= j < i ==> (table[j].inside.hi, table[j].inside.lo, table[j].inside.port) != (k.h[6], k.h[7], 0)
    requires i < |table| ==> (table[i].inside.hi, table[i].inside.lo, table[i].inside.port) == (k.h[6], k.h[7], 0)
    ensures Stored(table, WithEntry(little, table, k, d), i, d, k.h[6], k.h[7], 0)
    ensures var r, ext := Outward(little, table, k, d), WithEntry(little, table, k, d)[i].ext;
            r == Packet(k.h[6 := ext.hi][7 := ext.lo][5 := r.h[5]], k.l4)
  {
    FirstSide(table, Source, k.h[6], k.h[7], 0, i);
  }

  // --- there and back -----------------------------------------------------------------------

  /** The entries have the same address and port outside. */
  ghost predicate SameExt(s: NatEntry, t: NatEntry) {
    (s.ext.hi, s.ext.lo, s.ext.port) == (t.ext.hi, t.ext.lo, t.ext.port)
  }

  lemma FirstSameExt(table: seq<NatEntry>, i: nat) returns (j: nat)
    requires i < |table|
    ensures j <= i && SameExt(table[j], table[i]) && forall m :: 0 <= m < j ==> !SameExt(table[m], table[i])
  {
    j := 0;
    while !SameExt(table[j], table[i])
      invariant j <= i && forall m :: 0 <= m < j ==> !SameExt(table[m], table[i])
      decreases i - j
    {
      j := j + 1;
    }
  }

  /** A packet with ports at words 0 and 1 comes from the given address and port. */
  predicate ComesFrom(k: Packet, hi: Word, lo: Word, port: Word) {
    |k.h| > 9 && |k.l4| > 1 && k.h[6] == hi && k.h[7] == lo && k.l4[0] == port
  }

  predicate GoesTo(k: Packet, hi: Word, lo: Word, port: Word) {
    |k.h| > 9 && |k.l4| > 1 && k.h[8] == hi && k.h[9] == lo && k.l4[1] == port
  }

  /** Packet `a` has the ends of `k`, exchanged. */
  predicate Answers(a: Packet, k: Packet) {
    |k.h| > 9 && |k.l4| > 1 && ComesFrom(a, k.h[8], k.h[9], k.l4[1]) && GoesTo(a, k.h[6], k.h[7], k.l4[0])
  }

  /** Packet `a` has the addresses of `k` exchanged, and its identifier. */
  predicate EchoAnswers(a: Packet, k: Packet) {
    && |k.h| > 9 && |k.l4| > 2 && |a.h| > 9 && |a.l4| > 2
    && (a.h[6], a.h[7], a.h[8], a.h[9]) == (k.h[8], k.h[9], k.h[6], k.h[7])
    && a.l4[2] == k.l4[2]
  }

  /**
   A TCP or UDP packet is sent out and answered with its ends exchanged, when
   the table may have grown. The answer comes to where the packet was sent from
   exactly if no earlier entry has the packet's external pair; and it comes from
   where the packet was sent to.
   */
  lemma AnswerComesBack(little: bool, table: seq<NatEntry>, k: Packet, d: Drawn, i: nat, later: seq<NatEntry>, a: Packet)
    requires Whole(little, k) && Ntohs(little, k.h[4]) % 256 in {6, 17} && i <= |table|
    requires forall j :: 0 <= j < i ==>
      (table[j].inside.hi, table[j].inside.lo, table[j].inside.port) != (k.h[6], k.h[7], k.l4[0])
    requires i < |table| ==> (table[i].inside.hi, table[i].inside.lo, table[i].inside.port) == (k.h[6], k.h[7], k.l4[0])
    requires WithEntry(little, table, k, d) <= later
    requires Whole(little, a) && Ntohs(little, a.h[4]) % 256 in {6, 17} && Answers(a, Outward(little, table, k, d))
    ensures i < |later|
    ensures GoesTo(Inward(little, later, a), k.h[6], k.h[7], k.l4[0]) <==> forall j :: 0 <= j < i ==> !SameExt(later[j], later[i])
    ensures ComesFrom(Inward(little, later, a), k.h[8], k.h[9], k.l4[1])
  {
    OutwardTransport(little, table, k, d, i);
    assert later[i] == WithEntry(little, table, k, d)[i];
    var j := FirstSameExt(later, i);
    InwardTransport(little, later, a, j);
    assert j < i ==> later[j] == table[j];
  }

  /** The same for an echo and its reply, where word 2 holds the one identifier. */
  lemma EchoComesBack(little: bool, table: seq<NatEntry>, k: Packet, d: Drawn, i: nat, later: seq<NatEntry>, a: Packet)
    requires Whole(little, k) && Ntohs(little, k.h[4]) % 256 == 1 && Ntohs(little, k.l4[0]) / 256 in {0, 8} && i <= |table|
    requires forall j :: 0 <= j < i ==>
      (table[j].inside.hi, table[j].inside.lo, table[j].inside.port) != (k.h[6], k.h[7], k.l4[2])
    requires i < |table| ==> (table[i].inside.hi, table[i].inside.lo, table[i].inside.port) == (k.h[6], k.h[7], k.l4[2])
    requires WithEntry(little, table, k, d) <= later
    requires Whole(little, a) && Ntohs(little, a.h[4]) % 256 == 1 && Ntohs(little, a.l4[0]) / 256 in {0, 8}
    requires EchoAnswers(a, Outward(little, table, k, d))
    ensures i < |later|
    ensures EchoAnswers(Inward(little, later, a), k) <==> forall j :: 0 <= j < i ==> !SameExt(later[j], later[i])
  {
    OutwardEcho(little, table, k, d, i);
    assert later[i] == WithEntry(little, table, k, d)[i];
    var j := FirstSameExt(later, i);
    InwardEcho(little, later, a, j);
    assert j < i ==> later[j] == table[j];
  }

  // --- the external port ----------------------------------------------------------------------

  /** No entry holds `port`, compared with the stored word as it is. */
  predicate Unused(table: seq<NatEntry>, port: Word) {
    forall i :: 0 <= i < |table| ==> table[i].ext.port != port
  }

  predicate Acceptable(table: seq<NatEntry>, port: Word) {
    port > 1024 && Unused(table, port)
  }

  method IsUniqueNatExtPort(table: seq<NatEntry>, port: Word) returns (unique: bool)
    ensures unique <==> forall i :: 0 <= i < |table| ==> table[i].ext.port != port
  {
    for n := 0 to |table|
      invariant forall i :: 0 <= i < n ==> table[i].ext.port != port
    {
      if table[n].ext.port == port {
        return false;
      }
    }
    return true;
  }

  /** The first acceptable one of the random numbers `draws`; `|draws|` if it takes more of them. */
  method DrawPort(table: seq<NatEntry>, draws: seq<Word>) returns (n: nat)
    ensures n <= |draws| && (n < |draws| ==> Acceptable(table, draws[n]))
    ensures forall m :: 0 <= m < n ==> !Acceptable(table, draws[m])
  {
    n := 0;
    while n < |draws|
      invariant n <= |draws| && forall m :: 0 <= m < n ==> !Acceptable(table, draws[m])
    {
      var unique := IsUniqueNatExtPort(table, draws[n]);
      if draws[n] > 1024 && unique {
        return;
      }
      n := n + 1;
    }
  }

  /** External ports differ. */
  ghost predicate Distinct(table: seq<NatEntry>) {
    forall i, j :: 0 <= i < j < |table| ==> table[i].ext.port != table[j].ext.port
  }

  /** What is stored for a drawn port: the word in network byte order. */
  function DrawnFor(little: bool, hi: Word, lo: Word, port: Word): Drawn {
    Drawn(hi, lo, Ntohs(little, port))
  }

  /** A new entry's port differs from the others exactly if none holds the drawn port in network byte order. */
  lemma StaysDistinct(little: bool, table: seq<NatEntry>, k: Packet, hi: Word, lo: Word, port: Word)
    requires Whole(little, k) && Distinct(table)
    ensures Distinct(WithEntry(little, table, k, DrawnFor(little, hi, lo, port))) <==>
      KeyAt(little, table, k, Source) != -1 || Unused(table, Ntohs(little, port))
  {
    var now := WithEntry(little, table, k, DrawnFor(little, hi, lo, port));
    var n := |table|;
    if KeyAt(little, table, k, Source) == -1 {
      assert now[..n] == table && now[n].ext.port == Ntohs(little, port);
      if Distinct(now) {
        forall i | 0 <= i < n ensures table[i].ext.port != Ntohs(little, port) {
          assert now[i].ext.port != now[n].ext.port;
        }
      }
    }
  }

  /** A packet sent out, and the external address and port drawn should it need an entry. */
  datatype Sent = Sent(k: Packet, hi: Word, lo: Word, port: Word)

  ghost predicate AllWhole(little: bool, run: seq<Sent>) {
    forall n :: 0 <= n < |run| ==> Whole(little, run[n].k)
  }

  /** The table after a run of packets to outside. */
  function After(little: bool, run: seq<Sent>): seq<NatEntry>
    requires AllWhole(little, run)
  {
    if run == [] then []
    else
      var s := run[|run| - 1];
      WithEntry(little, After(little, run[..|run| - 1]), s.k, DrawnFor(little, s.hi, s.lo, s.port))
  }

  /** Every port drawn was accepted. */
  ghost predicate Accepted(little: bool, run: seq<Sent>)
    requires AllWhole(little, run)
  {
    forall n :: 0 <= n < |run| ==> Acceptable(After(little, run[..n]), run[n].port)
  }

  lemma AfterNext(little: bool, run: seq<Sent>, n: nat)
    requires AllWhole(little, run) && n < |run|
    ensures After(little, run[..n + 1])
         == WithEntry(little, After(little, run[..n]), run[n].k, DrawnFor(little, run[n].hi, run[n].lo, run[n].port))
  {
    assert run[..n + 1][..n] == run[..n];
  }

  lemma WithEntryGrows(little: bool, table: seq<NatEntry>, k: Packet, d: Drawn)
    requires Whole(little, k)
    ensures table <= WithEntry(little, table, k, d)
  {
  }

  lemma {:induction false} AfterGrows(little: bool, run: seq<Sent>, n: nat, m: nat)
    requires AllWhole(little, run) && n <= m <= |run|
    ensures After(little, run[..n]) <= After(little, run[..m])
    decreases m
  {
    if n < m {
      var s := run[m - 1];
      AfterGrows(little, run, n, m - 1);
      AfterNext(little, run, m - 1);
      WithEntryGrows(little, After(little, run[..m - 1]), s.k, DrawnFor(little, s.hi, s.lo, s.port));
    }
  }

  /** The table that a packet of a run was translated with is where the table at the end begins. */
  lemma EntriesStay(little: bool, run: seq<Sent>, n: nat)
    requires AllWhole(little, run) && n < |run|
    ensures WithEntry(little, After(little, run[..n]), run[n].k, DrawnFor(little, run[n].hi, run[n].lo, run[n].port))
         <= After(little, run)
  {
    AfterNext(little, run, n);
    AfterGrows(little, run, n + 1, |run|);
    assert run[..|run|] == run;
  }

  /** On a big-endian host external ports always differ. */
  lemma {:induction false} AlwaysDistinct(run: seq<Sent>)
    requires AllWhole(false, run) && Accepted(false, run)
    ensures Distinct(After(false, run))
  {
    if run != [] {
      var n := |run| - 1;
      var s := run[n];
      forall m | 0 <= m < n ensures Acceptable(After(false, run[..n][..m]), run[..n][m].port) {
        assert run[..n][..m] == run[..m];
      }
      AlwaysDistinct(run[..n]);
      StaysDistinct(false, After(false, run[..n]), s.k, s.hi, s.lo, s.port);
    }
  }

  /** Where the first entry is whose inside pair is the source of a TCP or UDP packet. */
  lemma EntryOf(little: bool, table: seq<NatEntry>, k: Packet) returns (i: nat)
    requires Whole(little, k) && Ntohs(little, k.h[4]) % 256 in {6, 17}
    ensures i <= |table| && (KeyAt(little, table, k, Source) == -1 <==> i == |table|)
    ensures forall j :: 0 <= j < i ==>
      (table[j].inside.hi, table[j].inside.lo, table[j].inside.port) != (k.h[6], k.h[7], k.l4[0])
    ensures i < |table| ==> (table[i].inside.hi, table[i].inside.lo, table[i].inside.port) == (k.h[6], k.h[7], k.l4[0])
  {
    i := EntryAt(little, table, k);
  }

  /**
   On a big-endian host every TCP or UDP packet that was sent out in a run, when
   answered at its end, is answered to where it was sent from.
   */
  lemma AnswersComeHome(run: seq<Sent>, n: nat, a: Packet)
    requires AllWhole(false, run) && Accepted(false, run) && n < |run|
    requires Ntohs(false, run[n].k.h[4]) % 256 in {6, 17}
    requires Whole(false, a) && Ntohs(false, a.h[4]) % 256 in {6, 17}
    requires Answers(a, Outward(false, After(false, run[..n]), run[n].k, DrawnFor(false, run[n].hi, run[n].lo, run[n].port)))
    ensures Answers(Inward(false, After(false, run), a), run[n].k)
  {
    var table, s := After(false, run[..n]), run[n];
    var i := EntryOf(false, table, s.k);
    EntriesStay(false, run, n);
    AlwaysDistinct(run);
    AnswerComesBack(false, table, s.k, DrawnFor(false, s.hi, s.lo, s.port), i, After(false, run), a);
  }

  /**
   On a little-endian host the drawn port is compared with stored words of the
   other byte order. Whatever port is drawn twice, such as 2000, is accepted
   twice unless its two bytes are the same, and the answer to the second sender
   goes to the first.
   */
  lemma PortDrawnTwice(k: Packet, m: Packet, hi: Word, lo: Word, port: Word, a: Packet)
    requires Whole(true, k) && Whole(true, m) && Whole(true, a)
    requires Ntohs(true, k.h[4]) % 256 in {6, 17} && Ntohs(true, m.h[4]) % 256 in {6, 17} && Ntohs(true, a.h[4]) % 256 in {6, 17}
    requires (k.h[6], k.h[7], k.l4[0]) != (m.h[6], m.h[7], m.l4[0])
    requires port > 1024 && port / 256 != port % 256
    requires Answers(a, Outward(true, After(true, [Sent(k, hi, lo, port)]), m, DrawnFor(true, hi, lo, port)))
    ensures var run := [Sent(k, hi, lo, port), Sent(m, hi, lo, port)];
            && AllWhole(true, run) && Accepted(true, run) && !Distinct(After(true, run))
            && GoesTo(Inward(true, After(true, run), a), k.h[6], k.h[7], k.l4[0])
  {
    var d := DrawnFor(true, hi, lo, port);
    var now := TwoEntries(k, m, d);
    RunOfTwo(Sent(k, hi, lo, port), Sent(m, hi, lo, port), now);
    SecondAnswered(m, d, now, a);
  }

  lemma RunOfTwo(s: Sent, t: Sent, now: seq<NatEntry>)
    requires Whole(true, s.k) && Whole(true, t.k) && |now| == 2
    requires WithEntry(true, [], s.k, DrawnFor(true, s.hi, s.lo, s.port)) == [now[0]]
    requires WithEntry(true, [now[0]], t.k, DrawnFor(true, t.hi, t.lo, t.port)) == now
    ensures AllWhole(true, [s]) && After(true, [s]) == [now[0]]
    ensures AllWhole(true, [s, t]) && After(true, [s, t]) == now
    ensures Accepted(true, [s, t]) <==> Acceptable([], s.port) && Acceptable([now[0]], t.port)
  {
    var run := [s, t];
    assert [s][..0] == [] && run[..0] == [] && run[..1] == [s];
    assert After(true, []) == [];
    assert run[0] == s && run[1] == t;
    assert Accepted(true, run) ==> Acceptable(After(true, run[..0]), run[0].port) && Acceptable(After(true, run[..1]), run[1].port);
  }

  /** Where both entries have the drawn pair outside, the answer to the second sender finds the first entry. */
  lemma SecondAnswered(m: Packet, d: Drawn, now: seq<NatEntry>, a: Packet)
    requires Whole(true, m) && Whole(true, a) && |now| == 2 && WithEntry(true, [now[0]], m, d) == now
    requires Ntohs(true, m.h[4]) % 256 in {6, 17} && Ntohs(true, a.h[4]) % 256 in {6, 17}
    requires (now[0].inside.hi, now[0].inside.lo, now[0].inside.port) != (m.h[6], m.h[7], m.l4[0])
    requires forall j :: 0 <= j < 2 ==> (now[j].ext.hi, now[j].ext.lo, now[j].ext.port) == (d.hi, d.lo, d.port)
    requires Answers(a, Outward(true, [now[0]], m, d))
    ensures GoesTo(Inward(true, now, a), now[0].inside.hi, now[0].inside.lo, now[0].inside.port)
  {
    OutwardTransport(true, [now[0]], m, d, 1);
    InwardTransport(true, now, a, 0);
  }

  lemma TwoEntries(k: Packet, m: Packet, d: Drawn) returns (now: seq<NatEntry>)
    requires Whole(true, k) && Whole(true, m)
    requires Ntohs(true, k.h[4]) % 256 in {6, 17} && Ntohs(true, m.h[4]) % 256 in {6, 17}
    requires (k.h[6], k.h[7], k.l4[0]) != (m.h[6], m.h[7], m.l4[0])
    ensures |now| == 2 && WithEntry(true, [], k, d) == [now[0]] && WithEntry(true, [now[0]], m, d) == now
    ensures (now[0].inside.hi, now[0].inside.lo, now[0].inside.port) == (k.h[6], k.h[7], k.l4[0])
    ensures forall j :: 0 <= j < 2 ==> (now[j].ext.hi, now[j].ext.lo, now[j].ext.port) == (d.hi, d.lo, d.port)
  {
    var one := WithEntry(true, [], k, d);
    OutwardTransport(true, [], k, d, 0);
    assert one == [one[0]];
    now := WithEntry(true, one, m, d);
    OutwardTransport(true, one, m, d, 1);
    assert now[..1] == one && now[0] == now[..1][0];
  }
}
