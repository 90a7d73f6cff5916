/**
 Ones' complement sums of 16-bit words, as the Internet checksum uses them
 (sections 1 and 2 of RFC 1071). Packets are in network byte order; a host reads
 their words either as they are or with the two bytes exchanged.
 */
module WordSums {
  import opened Numbers

  type Word = U16

  const ONES: Word := 0xFFFF

  /** The two bytes of a word exchanged. */
  function Swap(w: Word): Word {
    (w % 256) * 256 + w / 256
  }

  /** In ones' complement arithmetic exchanging bytes is multiplying by 256. */
  lemma SwapIsTimes256(w: Word)
    ensures (256 * w - Swap(w)) % 65535 == 0
  {
    var h, l := w / 256, w % 256;
    assert 256 * w - Swap(w) == 65535 * h;
  }

  lemma SwapTwice(w: Word)
    ensures Swap(Swap(w)) == w
  {
    var h, l := w / 256, w % 256;
    assert Swap(w) == l * 256 + h;
    assert (l * 256 + h) % 256 == h && (l * 256 + h) / 256 == l;
  }

  /** What the host reads as the value of word `w` of a packet; its own inverse. */
  function Ntohs(little: bool, w: Word): (r: Word) {
    if little then Swap(w) else w
  }

  /** What the host reads is the number that the two bytes on the wire stand for, the high one first. */
  lemma NtohsBytes(little: bool, high: nat, low: nat)
    requires high < 256 && low < 256
    ensures Ntohs(little, if little then 256 * low + high else 256 * high + low) == 256 * high + low
  {
  }

  lemma NtohsTwice(little: bool, w: Word)
    ensures Ntohs(little, Ntohs(little, w)) == w
  {
    SwapTwice(w);
  }

  /** The sum of the values of a packet's words. */
  function Sum(little: bool, ws: seq<Word>): nat {
    if ws == [] then 0 else Sum(little, ws[..|ws| - 1]) + Ntohs(little, ws[|ws| - 1])
  }

  lemma {:induction false} SumUpdated(little: bool, ws: seq<Word>, i: nat, w: Word)
    requires i < |ws|
    ensures Sum(little, ws[i := w]) == Sum(little, ws) - Ntohs(little, ws[i]) + Ntohs(little, w)
  {
    var n := |ws| - 1;
    if i == n {
      assert ws[i := w][..n] == ws[..n];
    } else {
      assert ws[i := w][..n] == ws[..n][i := w];
      SumUpdated(little, ws[..n], i, w);
    }
  }

  lemma {:induction false} SumBound(little: bool, ws: seq<Word>)
    ensures Sum(little, ws) <= |ws| * 65535
    ensures Sum(little, ws) == |ws| * 65535 <==> forall i :: 0 <= i < |ws| ==> ws[i] == ONES
  {
    if ws != [] {
      var n := |ws| - 1;
      SumBound(little, ws[..n]);
      assert Ntohs(little, ws[n]) == 65535 <==> ws[n] == ONES;
    }
  }

  /** A sum folded into 16 bits, twice, as the checksum routines do. */
  function Folded(s: nat): (r: nat) {
    var once := s / 0x1_0000 + s % 0x1_0000;
    (once + once / 0x1_0000) % 0x1_0000
  }

  /** For sums below 2^32 folding keeps the value in ones' complement, and 0 only for 0. */
  lemma FoldedValue(s: nat)
    requires s < 0x1_0000_0000
    ensures 0 <= Folded(s) <= 65535
    ensures (Folded(s) - s) % 65535 == 0
    ensures Folded(s) == 0 <==> s == 0
  {
    var h, l := s / 0x1_0000, s % 0x1_0000;
    assert s == 65535 * h + (h + l);
    if h + l >= 0x1_0000 {
      assert Folded(s) == h + l + 1 - 0x1_0000;
      assert s - Folded(s) == 65535 * (h + 1);
    } else {
      assert Folded(s) == h + l;
      assert s - Folded(s) == 65535 * h;
    }
  }

  /** The complement of the folded sum: the checksum of words that add up to `s`. */
  function Complement(s: nat): (r: Word)
    requires s < 0x1_0000_0000
  {
    FoldedValue(s);
    65535 - Folded(s)
  }

  /** Words with a correct checksum among them: their sum is a nonzero multiple of 65535. */
  predicate Correct(s: nat) {
    s > 0 && s % 65535 == 0
  }

  /** The test `verify_checksum` makes on a 32-bit sum: one fold, cut to 16 bits. */
  predicate PassesFold(s: nat) {
    (s / 0x1_0000 + s % 0x1_0000) % 0x1_0000 == 0xFFFF
  }

  /** One fold is enough, except for the largest 32-bit number. */
  lemma OneFold(s: nat)
    requires s < 0x1_0000_0000
    ensures PassesFold(s) <==> Correct(s) && s != 0xFFFF_FFFF
  {
    var h, l := s / 0x1_0000, s % 0x1_0000;
    assert s == 65535 * h + (h + l) && h + l <= 131070;
    MultipleOf65535(h, h + l);
  }

  lemma MultipleOf65535(h: nat, t: nat)
    requires t <= 131070
    ensures (65535 * h + t) % 65535 == 0 <==> t == 0 || t == 65535 || t == 131070
  {
    assert (65535 * h + t) % 65535 == t % 65535;
  }

  /** A sum completed by its complement is correct. */
  lemma CompletedIsCorrect(s: nat)
    requires s < 0x1_0000_0000
    ensures Correct(s + Complement(s))
  {
    FoldedValue(s);
  }
}
