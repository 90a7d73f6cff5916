/**
 The IP header on the forwarding path: checking it, and decrementing the TTL
 with a new header checksum. A header is an array of words in network byte order.
 */
module IpHeader {
  import opened WordSums

  const HEADER_WORDS := 10

  // --- fields -------------------------------------------------------------------------

  function Version(little: bool, h: seq<Word>): nat
    requires |h| >= HEADER_WORDS
  {
    Ntohs(little, h[0]) / 4096
  }

  function HeaderLength(little: bool, h: seq<Word>): nat
    requires |h| >= HEADER_WORDS
  {
    Ntohs(little, h[0]) / 256 % 16
  }

  function Ttl(little: bool, h: seq<Word>): nat
    requires |h| >= HEADER_WORDS
  {
    Ntohs(little, h[4]) / 256
  }

  function Protocol(little: bool, h: seq<Word>): nat
    requires |h| >= HEADER_WORDS
  {
    Ntohs(little, h[4]) % 256
  }

  /** Version 4, no options, not a fragment. */
  predicate WellFormed(little: bool, h: seq<Word>)
    requires |h| >= HEADER_WORDS
  {
    && Version(little, h) == 4
    && HeaderLength(little, h) == 5
    && Ntohs(little, h[3]) / 0x2000 % 2 == 0
    && Ntohs(little, h[3]) % 0x2000 == 0
  }

  predicate PacketValid(little: bool, h: seq<Word>)
    requires |h| >= HEADER_WORDS
  {
    WellFormed(little, h) && Correct(Sum(little, h[..HEADER_WORDS]))
  }

  /** The fields by their bits: 4 of version, 4 of header length; 1 reserved, 2 flags, 13 of offset; 8 of TTL, 8 of protocol. */
  lemma FieldsOfBits(little: bool, h: seq<Word>, version: nat, length: nat, tos: nat, dontFragment: bool, more: bool, offset: nat,
                     ttl: nat, proto: nat)
    requires |h| >= HEADER_WORDS && version < 16 && length < 16 && tos < 256 && offset < 8192 && ttl < 256 && proto < 256
    requires Ntohs(little, h[0]) == version * 4096 + length * 256 + tos
    requires Ntohs(little, h[3]) == (if dontFragment then 0x4000 else 0) + (if more then 0x2000 else 0) + offset
    requires Ntohs(little, h[4]) == ttl * 256 + proto
    ensures Ttl(little, h) == ttl && Protocol(little, h) == proto
    ensures WellFormed(little, h) <==> version == 4 && length == 5 && !more && offset == 0
  {
    BitsOfFirst(Ntohs(little, h[0]), version, length, tos);
    BitsOfFragment(Ntohs(little, h[3]), dontFragment, more, offset);
  }

  lemma BitsOfFirst(w: Word, version: nat, length: nat, tos: nat)
    requires length < 16 && tos < 256 && w == version * 4096 + length * 256 + tos
    ensures w / 4096 == version && w / 256 % 16 == length
  {
    assert w / 256 == version * 16 + length;
  }

  lemma BitsOfFragment(w: Word, dontFragment: bool, more: bool, offset: nat)
    requires offset < 8192 && w == (if dontFragment then 0x4000 else 0) + (if more then 0x2000 else 0) + offset
    ensures (w / 0x2000 % 2 == 0 <==> !more) && w % 0x2000 == offset
  {
    var high := (if dontFragment then 2 else 0) + (if more then 1 else 0);
    assert w == high * 0x2000 + offset;
  }

  // --- verify_checksum -------------------------------------------------------------------

  lemma WrapAdd(s: nat, w: nat)
    ensures (s % 0x1_0000_0000 + w) % 0x1_0000_0000 == (s + w) % 0x1_0000_0000
  {
  }

  /** The words added up in 32 bits. */
  method AddWords(little: bool, ws: seq<Word>) returns (sum: nat)
    ensures sum == Sum(little, ws) % 0x1_0000_0000
  {
    sum := 0;
    for i := 0 to |ws|
      invariant sum == Sum(little, ws[..i]) % 0x1_0000_0000
    {
      assert ws[..i + 1][..i] == ws[..i];
      WrapAdd(Sum(little, ws[..i]), Ntohs(little, ws[i]));
      sum := (sum + Ntohs(little, ws[i])) % 0x1_0000_0000;
    }
    assert ws[..|ws|] == ws;
  }

  /** True for words whose checksum is wrong. */
  method VerifyChecksum(little: bool, ws: seq<Word>) returns (wrong: bool)
    ensures |ws| <= 65537 ==> (!wrong <==> Correct(Sum(little, ws)) && Sum(little, ws) != 0xFFFF_FFFF)
  {
    var sum := AddWords(little, ws);
    var once := (sum / 0x1_0000 + sum % 0x1_0000) % 0x1_0000;
    wrong := once != 0xFFFF;
    SumBound(little, ws);
    if |ws| <= 65537 {
      assert Sum(little, ws) <= 65537 * 65535;
      OneFold(Sum(little, ws));
    }
  }

  /** The single fold judges correctly every sequence of up to 65537 words but one: 65537 times 0xFFFF. */
  lemma OneFoldIsExact(little: bool, ws: seq<Word>)
    requires |ws| <= 65537
    ensures (PassesFold(Sum(little, ws)) <==> Correct(Sum(little, ws))) <==>
      !(|ws| == 65537 && forall i :: 0 <= i < |ws| ==> ws[i] == ONES)
  {
    var s := Sum(little, ws);
    SumBound(little, ws);
    OneFold(s);
    assert |ws| == 65537 ==> |ws| * 65535 == 0xFFFF_FFFF;
    assert |ws| <= 65536 ==> |ws| * 65535 <= 65536 * 65535;
    assert Correct(0xFFFF_FFFF);
  }

  method IsPacketValid(little: bool, h: array<Word>) returns (ok: bool)
    requires h.Length >= HEADER_WORDS
    ensures ok <==> PacketValid(little, h[..])
  {
    if Version(little, h[..]) != 4 {
      return false;
    }
    if HeaderLength(little, h[..]) != 5 {
      return false;
    }
    var frag := Ntohs(little, h[3]);
    if frag / 0x2000 % 2 != 0 || frag % 0x2000 != 0 {
      return false;
    }
    assert h[..][..HEADER_WORDS] == h[..HEADER_WORDS];
    SumBound(little, h[..HEADER_WORDS]);
    var wrong := VerifyChecksum(little, h[..HEADER_WORDS]);
    return !wrong;
  }

  // --- compute_ip_checksum ---------------------------------------------------------------

  /** Clears the checksum field and returns the checksum of the header, options included, in host byte order. */
  method ComputeIpChecksum(little: bool, h: array<Word>) returns (c: Word)
    requires h.Length >= HEADER_WORDS && h.Length >= 2 * HeaderLength(little, h[..])
    modifies h
    ensures h[..] == old(h[..])[5 := 0]
    ensures var n := 2 * HeaderLength(little, h[..]);
            Sum(little, h[..n]) < 0x1_0000_0000 && c == Complement(Sum(little, h[..n]))
  {
    h[5] := 0;
    var words := HeaderLength(little, h[..]) * 2;
    var sum := 0;
    for i := 0 to words
      invariant h[..] == old(h[..])[5 := 0]
      invariant sum == Sum(little, h[..i])
    {
      assert h[..i + 1][..i] == h[..i];
      if i != 5 {
        sum := sum + Ntohs(little, h[i]);
      }
    }
    HeaderSumBound(little, h[..words]);
    c := Complement(sum);
  }

  lemma HeaderSumBound(little: bool, ws: seq<Word>)
    requires |ws| <= 65537
    ensures Sum(little, ws) < 0x1_0000_0000
  {
    SumBound(little, ws);
    assert |ws| * 65535 <= 65537 * 65535;
  }

  /** A header whose field is filled with the computed checksum is correct. */
  lemma FilledIsCorrect(little: bool, h: seq<Word>, c: Word)
    requires 5 < |h| && h[5] == 0
    requires Sum(little, h) < 0x1_0000_0000 && c == Complement(Sum(little, h))
    ensures Correct(Sum(little, h[5 := Ntohs(little, c)]))
  {
    SumUpdated(little, h, 5, Ntohs(little, c));
    NtohsTwice(little, c);
    CompletedIsCorrect(Sum(little, h));
  }

  /** Fills in the header checksum. */
  method FillChecksum(little: bool, h: array<Word>)
    requires h.Length >= HEADER_WORDS && WellFormed(little, h[..])
    modifies h
    ensures PacketValid(little, h[..])
    ensures h[..] == old(h[..])[5 := h[5]]
  {
    var c := ComputeIpChecksum(little, h);
    ghost var cleared := h[..HEADER_WORDS];
    h[5] := Ntohs(little, c);
    assert h[..][..HEADER_WORDS] == cleared[5 := Ntohs(little, c)];
    FilledIsCorrect(little, cleared, c);
  }

  /** The TTL is the high byte of its word; 0 wraps to 255. */
  lemma TtlDecremented(w: Word)
    ensures var r := (w / 256 + 255) % 256 * 256 + w % 256;
            0 <= r <= 65535 && r / 256 == (w / 256 + 255) % 256 && r % 256 == w % 256
  {
  }

  /**
   The last steps of forwarding. A TTL of 1 stops the packet; otherwise it leaves
   with the TTL one lower, in 8 bits, and passes the validity check again,
   whatever its checksum was before.
   */
  method ForwardHeader(little: bool, h: array<Word>) returns (forwarded: bool)
    requires h.Length >= HEADER_WORDS && WellFormed(little, h[..])
    modifies h
    ensures forwarded <==> old(Ttl(little, h[..])) != 1
    ensures !forwarded ==> h[..] == old(h[..])
    ensures forwarded ==>
      && PacketValid(little, h[..])
      && Ttl(little, h[..]) == (old(Ttl(little, h[..])) + 255) % 256
      && Protocol(little, h[..]) == old(Protocol(little, h[..]))
      && h[..] == old(h[..])[4 := h[4]][5 := h[5]]
  {
    var w := Ntohs(little, h[4]);
    if w / 256 == 1 {
      return false;
    }
    TtlDecremented(w);
    var r: Word := (w / 256 + 255) % 256 * 256 + w % 256;
    NtohsTwice(little, r);
    h[4] := Ntohs(little, r);
    FillChecksum(little, h);
    return true;
  }
}
