/** Fields of fixed width, powers of two, and shifting. */
module Numbers {

  /** A 32-bit unsigned field. */
  type U32 = x: int | 0 <= x < 0x1_0000_0000

  const U16_SIZE := 0x1_0000

  /** A 16-bit unsigned field. */
  type U16 = x: int | 0 <= x < 0x1_0000

  function Pow2(n: nat): (p: nat)
    ensures p >= 1
  {
    if n == 0 then 1 else 2 * Pow2(n - 1)
  }

  function Shr(m: nat, i: nat): nat {
    if i == 0 then m else Shr(m, i - 1) / 2
  }

  /** Bitwise and of the low `n` bits. */
  function And(a: nat, b: nat, n: nat): (r: nat)
    ensures r <= a
  {
    if n == 0 then 0 else 2 * And(a / 2, b / 2, n - 1) + (if a % 2 == 1 && b % 2 == 1 then 1 else 0)
  }

  /** An address under a mask. */
  function Under(ip: U32, mask: U32): U32 {
    And(ip, mask, 32)
  }

  lemma {:induction false} AndTwice(a: nat, b: nat, n: nat)
    ensures And(And(a, b, n), b, n) == And(a, b, n)
  {
    if n > 0 {
      var r := And(a / 2, b / 2, n - 1);
      AndTwice(a / 2, b / 2, n - 1);
      assert And(a, b, n) / 2 == r;
    }
  }

  lemma UnderTwice(ip: U32, mask: U32)
    ensures Under(Under(ip, mask), mask) == Under(ip, mask)
  {
    AndTwice(ip, mask, 32);
  }

  function Shl(q: nat, n: nat): nat {
    if n == 0 then q else 2 * Shl(q, n - 1)
  }

  lemma {:induction false} ShlTwice(q: nat, a: nat, b: nat)
    ensures Shl(Shl(q, a), b) == Shl(q, a + b)
    decreases b
  {
    if b > 0 {
      ShlTwice(q, a, b - 1);
    }
  }

  lemma Shl4(q: nat)
    ensures Shl(q, 4) == 16 * q
  {
    assert Shl(q, 1) == 2 * q && Shl(q, 2) == 4 * q && Shl(q, 3) == 8 * q;
  }

  lemma Shl16(q: nat)
    ensures Shl(q, 16) == q * 0x1_0000
  {
    Shl4(q);
    Shl4(16 * q);
    Shl4(256 * q);
    Shl4(4096 * q);
    ShlTwice(q, 4, 4);
    ShlTwice(q, 8, 4);
    ShlTwice(q, 12, 4);
  }

  lemma Pow2Of16()
    ensures Pow2(16) == 0x1_0000
  {
    Shl16(1);
    Pow2IsShl(16);
  }

  lemma {:induction false} Pow2IsShl(n: nat)
    ensures Pow2(n) == Shl(1, n)
  {
    if n > 0 {
      Pow2IsShl(n - 1);
    }
  }

  /** A mask of ones over zeros keeps the high part of a number. */
  lemma {:induction false} AndHigh(a: nat, b: nat, r: nat, k: nat, n: nat)
    requires r < Pow2(k)
    ensures And(Shl(a, k) + r, Shl(b, k), n + k) == Shl(And(a, b, n), k)
    decreases k
  {
    if k > 0 {
      assert (Shl(a, k) + r) / 2 == Shl(a, k - 1) + r / 2 && Shl(b, k) / 2 == Shl(b, k - 1);
      AndHigh(a, b, r / 2, k - 1, n);
    }
  }

  lemma {:induction false} AndOnes(a: nat, n: nat)
    requires a < Pow2(n)
    ensures And(a, Pow2(n) - 1, n) == a
  {
    if n > 0 {
      assert (Pow2(n) - 1) / 2 == Pow2(n - 1) - 1;
      AndOnes(a / 2, n - 1);
    }
  }

  lemma Shl24(q: nat)
    ensures Shl(q, 24) == q * 0x100_0000
  {
    Shl16(q);
    Shl4(q * 0x1_0000);
    Shl4(q * 0x10_0000);
    ShlTwice(q, 16, 4);
    ShlTwice(q, 20, 4);
  }

  /** The first byte of an address is what a mask of eight bits keeps. */
  lemma UnderEightBits(a: nat, r: nat)
    requires a < 256 && r < 0x100_0000
    ensures Under(a * 0x100_0000 + r, 0xFF000000) == a * 0x100_0000
  {
    Pow2IsShl(24);
    Shl24(1);
    Shl24(a);
    Shl24(255);
    AndHigh(a, 255, r, 24, 8);
    Pow2Of8();
    AndOnes(a, 8);
  }

  lemma Pow2Of8()
    ensures Pow2(8) == 256
  {
    Shl4(1);
    Shl4(16);
    ShlTwice(1, 4, 4);
    Pow2IsShl(8);
  }

  /** Bit `i` of `a`. */
  function Bit(a: nat, i: nat): nat {
    Shr(a, i) % 2
  }

  lemma {:induction false} ShrHalf(a: nat, i: nat)
    ensures Shr(a, i + 1) == Shr(a / 2, i)
  {
    if i > 0 {
      ShrHalf(a, i - 1);
    }
  }

  lemma {:induction false} BitOfShl(q: nat, n: nat, i: nat)
    ensures Bit(Shl(q, n), i) == if i < n then 0 else Bit(q, i - n)
  {
    if n > 0 {
      var half := Shl(q, n - 1);
      assert 2 * half / 2 == half;
      if i > 0 {
        ShrHalf(2 * half, i - 1);
        BitOfShl(q, n - 1, i - 1);
      }
    }
  }

  lemma {:induction false} BitOfShr(m: nat, n: nat, i: nat)
    ensures Bit(Shr(m, n), i) == Bit(m, n + i)
    decreases i
  {
    if i > 0 {
      ShrHalf(Shr(m, n), i - 1);
      BitOfShr(m, n + 1, i - 1);
    }
  }

  /** `a` and `c` have the same bit wherever the low `n` bits of `b` have a one. */
  ghost predicate BitsAgree(a: nat, b: nat, c: nat, n: nat) {
    forall i :: 0 <= i < n && Bit(b, i) == 1 ==> Bit(a, i) == Bit(c, i)
  }

  lemma BitsAgreeHalf(a: nat, b: nat, c: nat, n: nat)
    requires n > 0
    ensures BitsAgree(a, b, c, n) <==> BitsAgree(a / 2, b / 2, c / 2, n - 1) && (b % 2 == 1 ==> a % 2 == c % 2)
  {
    forall i: nat ensures Bit(a, i + 1) == Bit(a / 2, i) && Bit(b, i + 1) == Bit(b / 2, i) && Bit(c, i + 1) == Bit(c / 2, i) {
      ShrHalf(a, i);
      ShrHalf(b, i);
      ShrHalf(c, i);
    }
    if BitsAgree(a, b, c, n) {
      assert Bit(b, 0) == b % 2 && Bit(a, 0) == a % 2 && Bit(c, 0) == c % 2;
      forall i | 0 <= i < n - 1 && Bit(b / 2, i) == 1 ensures Bit(a / 2, i) == Bit(c / 2, i) {
        assert Bit(b, i + 1) == 1;
      }
    }
    if BitsAgree(a / 2, b / 2, c / 2, n - 1) && (b % 2 == 1 ==> a % 2 == c % 2) {
      forall i | 0 <= i < n && Bit(b, i) == 1 ensures Bit(a, i) == Bit(c, i) {
        if i > 0 {
          assert Bit(b, i - 1 + 1) == Bit(b / 2, i - 1);
          assert Bit(a, i - 1 + 1) == Bit(a / 2, i - 1) && Bit(c, i - 1 + 1) == Bit(c / 2, i - 1);
        }
      }
    }
  }

  lemma {:induction false} AndBits(a: nat, b: nat, n: nat, i: nat)
    ensures Bit(And(a, b, n), i) == if i < n && Bit(a, i) == 1 && Bit(b, i) == 1 then 1 else 0
  {
    if n == 0 {
      ZeroBit(i);
    } else if i > 0 {
      AndBits(a / 2, b / 2, n - 1, i - 1);
      assert And(a, b, n) / 2 == And(a / 2, b / 2, n - 1);
      ShrHalf(And(a, b, n), i - 1);
      ShrHalf(a, i - 1);
      ShrHalf(b, i - 1);
    }
  }

  lemma {:induction false} ZeroBit(i: nat)
    ensures Shr(0, i) == 0
  {
    if i > 0 {
      ZeroBit(i - 1);
    }
  }

  lemma {:induction false} AndAgree(a: nat, b: nat, c: nat, n: nat)
    ensures And(a, b, n) == And(c, b, n) <==> BitsAgree(a, b, c, n)
  {
    if n > 0 {
      AndAgree(a / 2, b / 2, c / 2, n - 1);
      BitsAgreeHalf(a, b, c, n);
    }
  }

  lemma {:induction false} ShlIsTimes(q: nat, n: nat)
    ensures Shl(q, n) == q * Pow2(n)
  {
    if n > 0 {
      ShlIsTimes(q, n - 1);
      assert q * (2 * Pow2(n - 1)) == 2 * (q * Pow2(n - 1));
    }
  }

  lemma {:induction false} ShrIsQuotient(m: nat, n: nat)
    ensures Shr(m, n) == m / Pow2(n)
  {
    if n > 0 {
      ShrIsQuotient(m, n - 1);
      QuotientHalf(m, Pow2(n - 1));
    }
  }

  lemma QuotientHalf(m: nat, p: nat)
    requires p > 0
    ensures m / p / 2 == m / (2 * p)
  {
    var a, r := m / p, m % p;
    var b, c := a / 2, a % 2;
    assert m == (2 * p) * b + (c * p + r) && c * p + r < 2 * p;
    QuotientIs(m, 2 * p, b, c * p + r);
  }

  lemma QuotientIs(m: nat, p: nat, a: nat, r: nat)
    requires p > 0 && m == p * a + r && r < p
    ensures m / p == a
  {
    var b := m / p;
    assert m == p * b + m % p;
    TimesMonotone(a + 1, b, p);
    TimesMonotone(b + 1, a, p);
  }

  lemma {:induction false} Pow2Sum(a: nat, b: nat)
    ensures Pow2(a + b) == Pow2(a) * Pow2(b)
  {
    if a > 0 {
      Pow2Sum(a - 1, b);
      assert 2 * Pow2(a - 1) * Pow2(b) == 2 * (Pow2(a - 1) * Pow2(b));
    }
  }

  lemma Quotients(x: nat, p: nat, q: nat) returns (a: nat, r: nat)
    requires p > 0 && x < q * p
    ensures a == x / p && x == a * p + r && a < q && r < p
  {
    a, r := x / p, x % p;
    TimesMonotone(q, a, p);
  }

  lemma TimesMonotone(a: nat, b: nat, p: nat)
    ensures a <= b ==> a * p <= b * p
  {
    if a <= b {
      assert b * p == a * p + (b - a) * p;
    }
  }

  lemma AndParts(a: nat, r: nat, n: nat, k: nat)
    requires a < Pow2(n) && r < Pow2(k)
    ensures And(Shl(a, k) + r, Shl(Pow2(n) - 1, k), n + k) == Shl(a, k)
  {
    AndHigh(a, Pow2(n) - 1, r, k, n);
    AndOnes(a, n);
  }

  /** `x` is `a` with the `k` bits of `r` behind it. */
  ghost predicate Splits(x: nat, a: nat, r: nat, n: nat, k: nat) {
    x == Shl(a, k) + r && a < Pow2(n) && r < Pow2(k)
  }

  lemma SplitsAgree(x: nat, d: nat, mask: nat, a: nat, r: nat, b: nat, t: nat, n: nat, k: nat)
    requires Splits(x, a, r, n, k) && Splits(d, b, t, n, k) && mask == Shl(Pow2(n) - 1, k)
    ensures And(x, mask, n + k) == And(d, mask, n + k) <==> a == b
  {
    AndParts(a, r, n, k);
    AndParts(b, t, n, k);
    ShlIsTimes(a, k);
    ShlIsTimes(b, k);
    Cancelled(a, b, Pow2(k));
  }

  lemma DivisionSplits(x: nat, n: nat, k: nat) returns (a: nat, r: nat)
    requires x < Pow2(n + k)
    ensures a == x / Pow2(k) && Splits(x, a, r, n, k)
  {
    Pow2Sum(n, k);
    a, r := Quotients(x, Pow2(k), Pow2(n));
    ShlIsTimes(a, k);
  }

  lemma OnesOverZeros(n: nat, k: nat)
    ensures Pow2(n + k) - Pow2(k) == Shl(Pow2(n) - 1, k)
  {
    Pow2Sum(n, k);
    OneLess(Pow2(n), Pow2(k));
    ShlIsTimes(Pow2(n) - 1, k);
  }

  lemma OneLess(q: nat, p: nat)
    requires q >= 1
    ensures (q - 1) * p == q * p - p
  {
  }

  lemma Pow2IsLarge()
    ensures Pow2(32) == 0x1_0000_0000
  {
    Pow2Of16();
    Pow2Sum(16, 16);
  }

  /** Numbers agree under a mask of ones over `k` zeros exactly if they agree in what it keeps. */
  lemma PrefixAgree(x: nat, d: nat, mask: nat, n: nat, k: nat)
    requires mask == Pow2(n + k) - Pow2(k) && x < Pow2(n + k) && d < Pow2(n + k)
    ensures And(x, mask, n + k) == And(d, mask, n + k) <==> x / Pow2(k) == d / Pow2(k)
  {
    var a, r := DivisionSplits(x, n, k);
    var b, t := DivisionSplits(d, n, k);
    OnesOverZeros(n, k);
    SplitsAgree(x, d, mask, a, r, b, t, n, k);
  }

  lemma Cancelled(a: nat, b: nat, p: nat)
    requires p > 0
    ensures a * p == b * p <==> a == b
  {
    if a < b {
      assert b * p == a * p + (b - a) * p;
    } else if b < a {
      assert a * p == b * p + (a - b) * p;
    }
  }
}
