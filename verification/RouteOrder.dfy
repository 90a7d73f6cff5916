/**
 The order in which the routing table is kept: descending by mask, then by
 address, then static before dynamic; entries that tie keep their order.
 */
module RouteOrder {
  import opened Numbers

  /** A routing table entry; addresses and masks in host byte order. */
  datatype Entry = Entry(ip: U32, gw: U32, mask: U32, iface: string, isStatic: bool, isActive: bool)

  type Table = seq<Entry>

  /** The test by which neighbours `a`, `b` in the list are exchanged. */
  predicate OutOfOrder(a: Entry, b: Entry) {
    || a.mask < b.mask
    || (a.mask == b.mask && a.ip < b.ip)
    || (a.mask == b.mask && a.ip == b.ip && !a.isStatic && b.isStatic)
  }

  /** The sort key as one number. */
  function Rank(e: Entry): (r: nat) {
    (e.mask * 0x1_0000_0000 + e.ip) * 2 + (if e.isStatic then 1 else 0)
  }

  lemma OutOfOrderIsRank(a: Entry, b: Entry)
    ensures OutOfOrder(a, b) <==> Rank(a) < Rank(b)
  {
  }

  ghost predicate Descending(s: Table) {
    forall i, j :: 0 <= i < j < |s| ==> Rank(s[i]) >= Rank(s[j])
  }

  /** The order in words: larger masks first, then larger addresses, then static routes. */
  lemma OrderedFields(s: Table, i: nat, j: nat)
    requires Descending(s) && i < j < |s|
    ensures s[i].mask >= s[j].mask
    ensures s[i].mask == s[j].mask ==> s[i].ip >= s[j].ip
    ensures s[i].mask == s[j].mask && s[i].ip == s[j].ip && s[j].isStatic ==> s[i].isStatic
  {
  }

  /** Of two routes to one prefix the static one comes first. */
  lemma StaticFirst(s: Table, i: nat, j: nat)
    requires Descending(s) && i < |s| && j < |s|
    requires s[i].mask == s[j].mask && s[i].ip == s[j].ip && s[i].isStatic && !s[j].isStatic
    ensures i < j
  {
    if j < i {
      OrderedFields(s, j, i);
    }
  }

  /** The entries with sort key `r`, in list order. */
  function Bucket(s: Table, r: nat): Table {
    if s == [] then []
    else if Rank(s[0]) == r then [s[0]] + Bucket(s[1..], r)
    else Bucket(s[1..], r)
  }

  /** `t` is `s` sorted, entries that tie staying in their order. */
  ghost predicate StableSort(s: Table, t: Table) {
    Descending(t) && forall r: nat :: Bucket(t, r) == Bucket(s, r)
  }

  lemma {:induction false} BucketOfSum(a: Table, b: Table, r: nat)
    ensures Bucket(a + b, r) == Bucket(a, r) + Bucket(b, r)
  {
    if a == [] {
      assert a + b == b;
    } else {
      BucketOfSum(a[1..], b, r);
      assert (a + b)[0] == a[0] && (a + b)[1..] == a[1..] + b;
      assert [a[0]] + (Bucket(a[1..], r) + Bucket(b, r)) == ([a[0]] + Bucket(a[1..], r)) + Bucket(b, r);
    }
  }

  function Swapped(s: Table, i: nat): (t: Table)
    requires i + 1 < |s|
    ensures |t| == |s|
  {
    s[..i] + [s[i + 1], s[i]] + s[i + 2..]
  }

  /** Exchanging two entries with different keys moves nothing within a bucket. */
  lemma SwapKeepsBuckets(s: Table, i: nat, r: nat)
    requires i + 1 < |s| && Rank(s[i]) != Rank(s[i + 1])
    ensures Bucket(Swapped(s, i), r) == Bucket(s, r)
  {
    var p, a, b, q := s[..i], s[i], s[i + 1], s[i + 2..];
    assert s == p + [a, b] + q;
    BucketOfSum(p + [a, b], q, r);
    BucketOfSum(p, [a, b], r);
    BucketOfSum(p + [b, a], q, r);
    BucketOfSum(p, [b, a], r);
    assert [a, b][1..] == [b] && [b, a][1..] == [a];
  }

  // --- inversions -------------------------------------------------------------------

  /** How many entries of `s` rank below `x`. */
  function Below(s: Table, x: Entry): nat {
    if s == [] then 0 else Below(s[..|s| - 1], x) + (if Rank(s[|s| - 1]) < Rank(x) then 1 else 0)
  }

  /** How many pairs of entries are in the wrong order. */
  function Inversions(s: Table): nat {
    if s == [] then 0 else Inversions(s[..|s| - 1]) + Below(s[..|s| - 1], s[|s| - 1])
  }

  lemma {:induction false} BelowOfSum(a: Table, b: Table, x: Entry)
    ensures Below(a + b, x) == Below(a, x) + Below(b, x)
  {
    if b == [] {
      assert a + b == a;
    } else {
      assert (a + b)[..|a + b| - 1] == a + b[..|b| - 1];
      BelowOfSum(a, b[..|b| - 1], x);
    }
  }

  lemma BelowOfPair(p: Table, a: Entry, b: Entry, x: Entry)
    ensures Below(p + [a, b], x) == Below(p + [b, a], x)
  {
    BelowOfSum(p, [a, b], x);
    BelowOfSum(p, [b, a], x);
    assert [a, b][..1] == [a] && [b, a][..1] == [b] && [a][..0] == [] && [b][..0] == [];
  }

  lemma InversionsOfPair(p: Table, a: Entry, b: Entry)
    ensures Inversions(p + [a, b]) ==
      Inversions(p) + Below(p, a) + Below(p, b) + (if Rank(a) < Rank(b) then 1 else 0)
  {
    var s := p + [a, b];
    assert s[..|s| - 1] == p + [a] && (p + [a])[..|p|] == p;
  }

  lemma {:induction false} SwapRemovesOne(p: Table, a: Entry, b: Entry, q: Table)
    requires Rank(a) < Rank(b)
    ensures Inversions(p + [b, a] + q) + 1 == Inversions(p + [a, b] + q)
  {
    var s, t := p + [a, b] + q, p + [b, a] + q;
    if q == [] {
      assert s == p + [a, b] && t == p + [b, a];
      InversionsOfPair(p, a, b);
      InversionsOfPair(p, b, a);
    } else {
      var n := |q| - 1;
      assert s[..|s| - 1] == p + [a, b] + q[..n] && t[..|t| - 1] == p + [b, a] + q[..n];
      SwapRemovesOne(p, a, b, q[..n]);
      BelowOfSum(p + [a, b], q[..n], q[n]);
      BelowOfSum(p + [b, a], q[..n], q[n]);
      BelowOfPair(p, a, b, q[n]);
    }
  }

  /** Each exchange the bubble sort makes removes exactly one inversion. */
  lemma SwapInversions(s: Table, i: nat)
    requires i + 1 < |s| && Rank(s[i]) < Rank(s[i + 1])
    ensures Inversions(Swapped(s, i)) + 1 == Inversions(s)
  {
    assert s == s[..i] + [s[i], s[i + 1]] + s[i + 2..];
    SwapRemovesOne(s[..i], s[i], s[i + 1], s[i + 2..]);
  }

  // --- a stable sort is unique, and a permutation ---------------------------------------

  lemma {:induction false} BucketMember(s: Table, i: nat)
    requires i < |s|
    ensures s[i] in Bucket(s, Rank(s[i]))
  {
    if i > 0 {
      BucketMember(s[1..], i - 1);
      assert s[1..][i - 1] == s[i];
    }
  }

  lemma {:induction false} BucketOnlyMembers(s: Table, r: nat, e: Entry)
    requires e in Bucket(s, r)
    ensures Rank(e) == r && exists i :: 0 <= i < |s| && s[i] == e
  {
    if Rank(s[0]) == r && s[0] == e {
    } else {
      BucketOnlyMembers(s[1..], r, e);
      var i :| 0 <= i < |s[1..]| && s[1..][i] == e;
      assert s[i + 1] == e;
    }
  }

  lemma SameFirst(s: Table, t: Table)
    requires Descending(s) && Descending(t) && s != [] && t != []
    requires forall r: nat :: Bucket(s, r) == Bucket(t, r)
    ensures s[0] == t[0]
  {
    BucketMember(s, 0);
    BucketMember(t, 0);
    assert s[0] in Bucket(t, Rank(s[0])) && t[0] in Bucket(s, Rank(t[0]));
    BucketOnlyMembers(t, Rank(s[0]), s[0]);
    BucketOnlyMembers(s, Rank(t[0]), t[0]);
    assert Rank(s[0]) == Rank(t[0]);
    assert Bucket(s, Rank(s[0]))[0] == s[0] && Bucket(t, Rank(s[0]))[0] == t[0];
  }

  /** At most one list is the stable sort of another. */
  lemma {:induction false} StableSortUnique(s: Table, t: Table)
    requires Descending(s) && Descending(t)
    requires forall r: nat :: Bucket(s, r) == Bucket(t, r)
    ensures s == t
  {
    if s == [] {
      if t != [] {
        BucketMember(t, 0);
      }
    } else if t == [] {
      BucketMember(s, 0);
    } else {
      SameFirst(s, t);
      forall r: nat ensures Bucket(s[1..], r) == Bucket(t[1..], r) {
        var k := if Rank(s[0]) == r then 1 else 0;
        assert Bucket(s[1..], r) == Bucket(s, r)[k..] && Bucket(t[1..], r) == Bucket(t, r)[k..];
      }
      StableSortUnique(s[1..], t[1..]);
    }
  }

  lemma {:induction false} BucketCounts(s: Table, e: Entry)
    ensures multiset(Bucket(s, Rank(e)))[e] == multiset(s)[e]
  {
    if s != [] {
      BucketCounts(s[1..], e);
      assert s == [s[0]] + s[1..];
    }
  }

  /** A stable sort holds the same entries, as often. */
  lemma StableSortIsPermutation(s: Table, t: Table)
    requires StableSort(s, t)
    ensures multiset(t) == multiset(s)
  {
    forall e ensures multiset(t)[e] == multiset(s)[e] {
      BucketCounts(s, e);
      BucketCounts(t, e);
    }
  }
}
