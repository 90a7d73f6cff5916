/**
 The arithmetic of network address translation: checksums are adjusted from sums
 cached in the translation entry (section 3 of RFC 1624, section 4.2 of RFC
 3022). All words are in network byte order, so it must hold for either host.
 */
module NatSums {
  import opened WordSums

  /** An address and port with the complements of their sums. */
  datatype Pair = Pair(hi: Word, lo: Word, port: Word, checksum: Word, checksumIp: Word, checksumPort: Word)

  datatype NatEntry = NatEntry(ext: Pair, inside: Pair)

  // --- equality in ones' complement arithmetic ----------------------------------------------

  function Times65535(k: int): int {
    65535 * k
  }

  /** `a` and `b` differ by a multiple of 65535. */
  ghost predicate Same(a: int, b: int) {
    exists k :: a - b == Times65535(k)
  }

  lemma SameBy(a: int, b: int, k: int)
    requires a - b == 65535 * k
    ensures Same(a, b)
  {
    assert a - b == Times65535(k);
  }

  lemma Quotient(a: int, b: int) returns (k: int)
    requires Same(a, b)
    ensures a - b == 65535 * k
  {
    k :| a - b == Times65535(k);
  }

  lemma SameByRemainder(a: int, b: int)
    requires (a - b) % 65535 == 0
    ensures Same(a, b)
  {
    SameBy(a, b, (a - b) / 65535);
  }

  /** Whether a positive sum is correct depends only on its value in ones' complement. */
  lemma SameCorrect(a: nat, b: nat)
    requires Same(a, b) && a > 0 && b > 0
    ensures Correct(a) <==> Correct(b)
  {
    var k := Quotient(a, b);
    assert a == b + 65535 * k;
  }

  // --- nat_checksum ----------------------------------------------------------------------------

  /** The sum `was` with `pos` added and `neg` taken away, carry and borrow brought round. */
  function Adjusted(was: Word, pos: Word, neg: Word): (r: Word) {
    var added := if was + pos > 65535 then was + pos - 65535 else was + pos;
    if added >= neg then added - neg else added - neg + 65535
  }

  /** `nat_checksum`, in 32-bit unsigned arithmetic: a negative difference wraps and is one too large. */
  method NatChecksum(was: Word, pos: Word, neg: Word) returns (r: Word)
    ensures r == Adjusted(was, pos, neg)
    ensures Same(r, was + pos - neg)
  {
    var word := was + pos;
    word := word / 0x1_0000 + word % 0x1_0000;
    ghost var folded := word;
    assert folded == if was + pos > 65535 then was + pos - 65535 else was + pos;
    word := (word - neg) % 0x1_0000_0000;
    if word > 0xFFFF {
      assert word == folded - neg + 0x1_0000_0000;
      word := word - 1;
      assert word % 0x1_0000 == folded - neg + 65535;
    }
    r := word % 0x1_0000;
    AdjustedValue(was, pos, neg);
  }

  lemma AdjustedValue(was: Word, pos: Word, neg: Word)
    ensures Same(Adjusted(was, pos, neg), was + pos - neg)
  {
    var carry := if was + pos > 65535 then 1 else 0;
    var borrow := if was + pos - 65535 * carry < neg then 1 else 0;
    SameBy(Adjusted(was, pos, neg), was + pos - neg, borrow - carry);
  }

  lemma SwapSame(w: Word)
    ensures Same(256 * w, Swap(w))
  {
    SwapIsTimes256(w);
    SameByRemainder(256 * w, Swap(w));
  }

  lemma SwappedSame(r: int, was: int, pos: int, neg: int, r': int, was': int, pos': int, neg': int)
    requires Same(r, was + pos - neg)
    requires Same(256 * r, r') && Same(256 * was, was') && Same(256 * pos, pos') && Same(256 * neg, neg')
    ensures Same(r', was' + pos' - neg')
  {
    var k := Quotient(r, was + pos - neg);
    var a := Quotient(256 * r, r');
    var b := Quotient(256 * was, was');
    var c := Quotient(256 * pos, pos');
    var d := Quotient(256 * neg, neg');
    SameBy(r', was' + pos' - neg', 256 * k - a + b + c - d);
  }

  /** The same on the values the words stand for, on either kind of host. */
  lemma AdjustedOnHost(little: bool, was: Word, pos: Word, neg: Word)
    ensures Same(Ntohs(little, Adjusted(was, pos, neg)),
                 Ntohs(little, was) + Ntohs(little, pos) - Ntohs(little, neg))
  {
    var r := Adjusted(was, pos, neg);
    AdjustedValue(was, pos, neg);
    if little {
      SwapSame(r);
      SwapSame(was);
      SwapSame(pos);
      SwapSame(neg);
      SwappedSame(r, was, pos, neg, Swap(r), Swap(was), Swap(pos), Swap(neg));
    }
  }

  // --- compute_nat_checksums ----------------------------------------------------------------------

  function IpSum(little: bool, hi: Word, lo: Word): (s: nat) {
    Ntohs(little, hi) + Ntohs(little, lo)
  }

  function PairSum(little: bool, hi: Word, lo: Word, port: Word): (s: nat) {
    IpSum(little, hi, lo) + Ntohs(little, port)
  }

  /** The cached sums of a pair are the negatives of what they stand for. */
  ghost predicate Cached(little: bool, p: Pair) {
    && Same(Ntohs(little, p.checksum), 0 - PairSum(little, p.hi, p.lo, p.port))
    && Same(Ntohs(little, p.checksumIp), 0 - IpSum(little, p.hi, p.lo))
    && p.checksumPort == 65535 - p.port
  }

  /** The cached sum of the port, which is formed without regard to byte order, stands for its negative all the same. */
  lemma CachedPort(little: bool, port: Word)
    ensures Same(Ntohs(little, 65535 - port), 0 - Ntohs(little, port))
  {
    var h, l := port / 256, port % 256;
    assert 65535 - port == (255 - h) * 256 + (255 - l);
    assert Swap(65535 - port) == 65535 - Swap(port);
    SameBy(Ntohs(little, 65535 - port), 0 - Ntohs(little, port), 1);
  }

  ghost predicate AllCached(little: bool, table: seq<NatEntry>) {
    forall i :: 0 <= i < |table| ==> Cached(little, table[i].ext) && Cached(little, table[i].inside)
  }

  lemma ComplementValue(s: nat)
    requires s < 0x1_0000_0000
    ensures Same(Complement(s), 0 - s)
  {
    FoldedValue(s);
    SameByRemainder(Folded(s), s);
    var k := Quotient(Folded(s), s);
    SameBy(Complement(s), 0 - s, 1 - k);
  }

  /** The pair with its cached sums. */
  function PairOf(little: bool, hi: Word, lo: Word, port: Word): Pair {
    Pair(hi, lo, port, Ntohs(little, Complement(PairSum(little, hi, lo, port))), Ntohs(little, Complement(IpSum(little, hi, lo))),
         65535 - port)
  }

  lemma PairOfCached(little: bool, hi: Word, lo: Word, port: Word)
    ensures Cached(little, PairOf(little, hi, lo, port))
  {
    var both, ip := PairSum(little, hi, lo, port), IpSum(little, hi, lo);
    ComplementValue(both);
    ComplementValue(ip);
    NtohsTwice(little, Complement(both));
    NtohsTwice(little, Complement(ip));
  }

  /** The complement of a sum, folded twice, as a word of the packet. */
  method StoredComplement(little: bool, s: nat) returns (c: Word)
    requires s < 0x1_0000_0000
    ensures c == Ntohs(little, Complement(s))
  {
    var sum := s / 0x1_0000 + s % 0x1_0000;
    sum := sum + sum / 0x1_0000;
    c := Ntohs(little, 65535 - sum % 0x1_0000);
  }

  method ComputeNatChecksums(little: bool, hi: Word, lo: Word, port: Word) returns (p: Pair)
    ensures p == PairOf(little, hi, lo, port) && Cached(little, p)
  {
    var both := StoredComplement(little, PairSum(little, hi, lo, port));
    var ip := StoredComplement(little, IpSum(little, hi, lo));
    p := Pair(hi, lo, port, both, ip, 65535 - port);
    PairOfCached(little, hi, lo, port);
  }

  // --- what an adjustment preserves -----------------------------------------------------------------

  /** What goes out with `sp` and comes in with `sq` is made good by their complements. */
  lemma Compensated(total: int, sp: int, sq: int, cp: int, cq: int, was: int, adjusted: int)
    requires Same(adjusted, was + cq - cp) && Same(cp, 0 - sp) && Same(cq, 0 - sq)
    ensures Same(total - sp + sq - was + adjusted, total)
  {
    var k := Quotient(adjusted, was + cq - cp);
    var a := Quotient(cp, 0 - sp);
    var b := Quotient(cq, 0 - sq);
    SameBy(total - sp + sq - was + adjusted, total, k + b - a);
  }

  /** A checksum word adjusted from the complements `rp`, `rq` of `sp`, `sq`. */
  lemma AdjustedWord(little: bool, total: int, sp: int, sq: int, rp: Word, rq: Word, sum: Word)
    requires Same(Ntohs(little, rp), 0 - sp) && Same(Ntohs(little, rq), 0 - sq)
    ensures Same(total - sp + sq - Ntohs(little, sum) + Ntohs(little, Adjusted(sum, rq, rp)), total)
  {
    AdjustedOnHost(little, sum, rq, rp);
    Compensated(total, sp, sq, Ntohs(little, rp), Ntohs(little, rq),
                Ntohs(little, sum), Ntohs(little, Adjusted(sum, rq, rp)));
  }
}
