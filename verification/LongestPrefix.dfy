/**
 The two ways a destination is looked up: software scans the table for the mask
 with the most bits, hardware takes the first row that matches.
 */
module LongestPrefix {
  import opened Numbers
  import opened RouteOrder

  const TCAM_ROWS := 32

  // --- 32-bit words ---------------------------------------------------------------

  /** The number of ones among the low `n` bits. */
  function Bits(m: nat, n: nat): nat {
    if n == 0 then 0 else m % 2 + Bits(m / 2, n - 1)
  }

  /** Ones, then `k` zeros, in a word of `width` bits. */
  ghost predicate OnesThenZeros(m: nat, width: nat, k: nat) {
    k <= width && m == Pow2(width) - Pow2(k)
  }

  lemma {:induction false} BitsOneMore(m: nat, n: nat)
    ensures Bits(m, n + 1) == Bits(m, n) + Bit(m, n)
  {
    if n > 0 {
      BitsOneMore(m / 2, n - 1);
      ShrHalf(m, n - 1);
    } else {
      assert Bits(m / 2, 0) == 0;
    }
  }

  /** `Bits` is how many positions below `n` hold a one. */
  lemma {:induction false} BitsAreOnes(m: nat, n: nat)
    ensures Bits(m, n) == |set i: nat | i < n && Bit(m, i) == 1|
  {
    var ones := set i: nat | i < n && Bit(m, i) == 1;
    if n > 0 {
      var before := set i: nat | i < n - 1 && Bit(m, i) == 1;
      BitsAreOnes(m, n - 1);
      BitsOneMore(m, n - 1);
      assert ones == if Bit(m, n - 1) == 1 then before + {n - 1} else before;
    } else {
      assert ones == {};
    }
  }

  /** What a subnet mask should look like. */
  ghost predicate Contiguous(m: nat, width: nat) {
    exists k: nat :: OnesThenZeros(m, width, k)
  }

  lemma {:induction false} Pow2Monotone(a: nat, b: nat)
    requires a < b
    ensures Pow2(a) < Pow2(b)
    decreases b
  {
    if a < b - 1 {
      Pow2Monotone(a, b - 1);
    }
  }

  lemma {:induction false} ContiguousBits(n: nat, k: nat)
    requires k <= n
    ensures Pow2(n) - Pow2(k) >= 0 && Bits(Pow2(n) - Pow2(k), n) == n - k
  {
    if k == n {
      ZeroBits(n);
    } else if k == 0 {
      ContiguousBits(n - 1, 0);
      assert (Pow2(n) - 1) / 2 == Pow2(n - 1) - 1;
    } else {
      ContiguousBits(n - 1, k - 1);
      assert (Pow2(n) - Pow2(k)) / 2 == Pow2(n - 1) - Pow2(k - 1);
    }
  }

  lemma {:induction false} ZeroBits(n: nat)
    ensures Bits(0, n) == 0
  {
    if n > 0 {
      ZeroBits(n - 1);
    }
  }

  /** For contiguous masks, comparing as numbers and counting bits agree. */
  lemma MaskOrder(m: nat, n: nat, width: nat)
    requires Contiguous(m, width) && Contiguous(n, width) && m >= n
    ensures Bits(m, width) >= Bits(n, width)
  {
    var j: nat :| OnesThenZeros(m, width, j);
    var k: nat :| OnesThenZeros(n, width, k);
    ContiguousBits(width, j);
    ContiguousBits(width, k);
    if j > k {
      Pow2Monotone(k, j);
    }
  }

  // --- software ---------------------------------------------------------------------

  predicate Matches(ip: U32, mask: U32, d: U32) {
    Under(ip, mask) == Under(d, mask)
  }

  /** Whatever the mask: an address matches if it has the destination's bit wherever the mask has a one. */
  lemma MatchesBits(ip: U32, mask: U32, d: U32)
    ensures Matches(ip, mask, d) <==> forall i :: 0 <= i < 32 && Bit(mask, i) == 1 ==> Bit(ip, i) == Bit(d, i)
  {
    AndAgree(ip, mask, d, 32);
  }

  /** A mask over `k` zeros: an address matches if nothing but its last `k` bits differ from the destination's. */
  lemma MatchesPrefix(ip: U32, mask: U32, d: U32, k: nat)
    requires k <= 32 && mask == Pow2(32) - Pow2(k)
    ensures Matches(ip, mask, d) <==> ip / Pow2(k) == d / Pow2(k)
  {
    var n := 32 - k;
    Pow2IsLarge();
    assert n + k == 32;
    PrefixAgree(ip, d, mask, n, k);
  }

  predicate Candidate(e: Entry, d: U32) {
    e.isActive && Matches(e.ip, e.mask, d)
  }

  datatype Choice = None | Some(entry: Entry)

  predicate Better(e: Entry, best: Choice) {
    best.None? || Bits(e.mask, 32) > Bits(best.entry.mask, 32)
  }

  /** The rest of the scan over `s` when `best` is the choice so far. */
  function Scan(s: Table, d: U32, best: Choice): Choice {
    if s == [] then best
    else Scan(s[1..], d, if Candidate(s[0], d) && Better(s[0], best) then Some(s[0]) else best)
  }

  /** `e` is the first of the candidates with the longest mask. */
  ghost predicate Longest(s: Table, d: U32, e: Entry) {
    exists k :: 0 <= k < |s| && s[k] == e && Candidate(e, d)
      && (forall j :: 0 <= j < |s| && Candidate(s[j], d) ==> Bits(s[j].mask, 32) <= Bits(e.mask, 32))
      && (forall j :: 0 <= j < k && Candidate(s[j], d) ==> Bits(s[j].mask, 32) < Bits(e.mask, 32))
  }

  lemma {:induction false} ScanKeepsBest(s: Table, d: U32, best: Choice)
    requires best.Some?
    requires forall j :: 0 <= j < |s| && Candidate(s[j], d) ==> Bits(s[j].mask, 32) <= Bits(best.entry.mask, 32)
    ensures Scan(s, d, best) == best
  {
    if s != [] {
      ScanKeepsBest(s[1..], d, best);
    }
  }

  /** The scan ends at least as long as every candidate, and as where it began. */
  lemma {:induction false} ScanBound(s: Table, d: U32, best: Choice, e: Entry)
    requires (e in s && Candidate(e, d)) || best == Some(e)
    ensures Scan(s, d, best).Some? && Bits(e.mask, 32) <= Bits(Scan(s, d, best).entry.mask, 32)
  {
    if s != [] {
      var now := if Candidate(s[0], d) && Better(s[0], best) then Some(s[0]) else best;
      if e in s[1..] && Candidate(e, d) {
        ScanBound(s[1..], d, now, e);
      } else {
        ScanBound(s[1..], d, now, now.entry);
      }
    }
  }

  /** The scan ends where it began, or at position `k`, a candidate longer than all before it. */
  lemma {:induction false} ScanFinds(s: Table, d: U32, best: Choice) returns (k: int)
    ensures k == -1 ==> Scan(s, d, best) == best
    ensures k != -1 ==> 0 <= k < |s| && Scan(s, d, best) == Some(s[k]) && Candidate(s[k], d) && Better(s[k], best)
    ensures forall j :: 0 <= j < k && Candidate(s[j], d) ==> Bits(s[j].mask, 32) < Bits(s[k].mask, 32)
  {
    if s == [] {
      k := -1;
    } else {
      var takes := Candidate(s[0], d) && Better(s[0], best);
      k := ScanFinds(s[1..], d, if takes then Some(s[0]) else best);
      if k != -1 {
        k := k + 1;
        assert forall j :: 0 < j < k ==> s[1..][j - 1] == s[j];
      } else if takes {
        k := 0;
      }
    }
  }

  /** The scan finds the longest prefix, and nothing exactly if nothing matches. */
  lemma ScanIsLongest(s: Table, d: U32)
    ensures Scan(s, d, None).None? <==> forall j :: 0 <= j < |s| ==> !Candidate(s[j], d)
    ensures Scan(s, d, None).Some? ==> Longest(s, d, Scan(s, d, None).entry)
  {
    var k := ScanFinds(s, d, None);
    forall j | 0 <= j < |s| && Candidate(s[j], d)
      ensures Scan(s, d, None).Some? && Bits(s[j].mask, 32) <= Bits(Scan(s, d, None).entry.mask, 32)
    {
      ScanBound(s, d, None, s[j]);
    }
  }

  datatype Hop = NoRoute | Via(gw: U32, iface: string)

  /** A gateway of 0 stands for the destination itself. */
  function HopTo(c: Choice, d: U32): Hop {
    match c
    case None => NoRoute
    case Some(e) => Via(if e.gw == 0 then d else e.gw, e.iface)
  }

  /** The software's answer: of the active entries that agree with `d` under their masks, the first with most mask bits. */
  lemma NextHopIsLongest(table: Table, d: U32)
    ensures HopTo(Scan(table, d, None), d) == NoRoute
      <==> forall e :: e in table ==> !(e.isActive && BitsAgree(e.ip, e.mask, d, 32))
    ensures HopTo(Scan(table, d, None), d) != NoRoute ==>
      exists k :: 0 <= k < |table| && table[k].isActive && BitsAgree(table[k].ip, table[k].mask, d, 32)
        && HopTo(Scan(table, d, None), d) == Via(if table[k].gw == 0 then d else table[k].gw, table[k].iface)
        && (forall j :: 0 <= j < |table| && table[j].isActive && BitsAgree(table[j].ip, table[j].mask, d, 32)
              ==> Bits(table[j].mask, 32) <= Bits(table[k].mask, 32) && (j < k ==> Bits(table[j].mask, 32) < Bits(table[k].mask, 32)))
  {
    ScanIsLongest(table, d);
    CandidatesAgree(table, d);
    if Scan(table, d, None).Some? {
      var k := LongestAt(table, d, Scan(table, d, None).entry);
      assert table[k].isActive;
    }
  }

  lemma CandidatesAgree(table: Table, d: U32)
    ensures forall j :: 0 <= j < |table| ==>
      (Candidate(table[j], d) <==> table[j].isActive && BitsAgree(table[j].ip, table[j].mask, d, 32))
  {
    forall j | 0 <= j < |table|
      ensures Candidate(table[j], d) <==> table[j].isActive && BitsAgree(table[j].ip, table[j].mask, d, 32)
    {
      AndAgree(table[j].ip, table[j].mask, d, 32);
    }
  }

  lemma LongestAt(s: Table, d: U32, e: Entry) returns (k: nat)
    requires Longest(s, d, e)
    ensures k < |s| && s[k] == e && Candidate(e, d)
    ensures forall j :: 0 <= j < |s| && Candidate(s[j], d) ==> Bits(s[j].mask, 32) <= Bits(e.mask, 32)
    ensures forall j :: 0 <= j < k && Candidate(s[j], d) ==> Bits(s[j].mask, 32) < Bits(e.mask, 32)
  {
    k :| 0 <= k < |s| && s[k] == e && Candidate(e, d)
      && (forall j :: 0 <= j < |s| && Candidate(s[j], d) ==> Bits(s[j].mask, 32) <= Bits(e.mask, 32))
      && (forall j :: 0 <= j < k && Candidate(s[j], d) ==> Bits(s[j].mask, 32) < Bits(e.mask, 32));
  }

  /** While a static route for a prefix is active, no dynamic route for that prefix is looked up. */
  lemma StaticPreferred(s: Table, d: U32, i: nat)
    requires Descending(s) && i < |s| && s[i].isStatic && s[i].isActive
    ensures var c := Scan(s, d, None);
            c.Some? && c.entry.ip == s[i].ip && c.entry.mask == s[i].mask ==> c.entry.isStatic
  {
    var c := Scan(s, d, None);
    if c.Some? && c.entry.ip == s[i].ip && c.entry.mask == s[i].mask && !c.entry.isStatic {
      ScanIsLongest(s, d);
      var k := LongestAt(s, d, c.entry);
      StaticFirst(s, i, k);
      assert Candidate(s[i], d);
    }
  }

  /** The number of ones in a mask, counted by shifting. */
  method CountBits(mask: U32) returns (bits: nat)
    ensures bits == Bits(mask, 32)
  {
    bits := 0;
    for i := 0 to 32
      invariant bits + Bits(Shr(mask, i), 32 - i) == Bits(mask, 32)
    {
      if Shr(mask, i) % 2 == 1 {
        bits := bits + 1;
      }
    }
  }

  method GetNextHop(table: Table, d: U32) returns (hop: Hop)
    ensures hop == HopTo(Scan(table, d, None), d)
    ensures hop == NoRoute <==> forall e :: e in table ==> !(e.isActive && BitsAgree(e.ip, e.mask, d, 32))
    ensures hop != NoRoute ==>
      exists k :: 0 <= k < |table| && table[k].isActive && BitsAgree(table[k].ip, table[k].mask, d, 32)
        && hop == Via(if table[k].gw == 0 then d else table[k].gw, table[k].iface)
        && (forall j :: 0 <= j < |table| && table[j].isActive && BitsAgree(table[j].ip, table[j].mask, d, 32)
              ==> Bits(table[j].mask, 32) <= Bits(table[k].mask, 32) && (j < k ==> Bits(table[j].mask, 32) < Bits(table[k].mask, 32)))
  {
    NextHopIsLongest(table, d);
    var lpm: Choice := None;
    var most: int := -1;
    for i := 0 to |table|
      invariant Scan(table, d, None) == Scan(table[i..], d, lpm)
      invariant most == if lpm.None? then -1 else Bits(lpm.entry.mask, 32)
    {
      var e := table[i];
      assert table[i..][1..] == table[i + 1..];
      if e.isActive && Matches(e.ip, e.mask, d) {
        var bits := CountBits(e.mask);
        if bits > most {
          lpm, most := Some(e), bits;
        }
      }
    }
    if lpm.Some? {
      hop := Via(if lpm.entry.gw == 0 then d else lpm.entry.gw, lpm.entry.iface);
    } else {
      hop := NoRoute;
    }
  }

  // --- hardware ---------------------------------------------------------------------

  datatype Row = Row(ip: U32, mask: U32, gw: U32, port: nat)

  const EMPTY_ROW := Row(0, 0, 0, 0)

  predicate KnownIface(name: string) {
    name in {"eth0", "eth1", "cpu0", "cpu1"}
  }

  function OneHot(name: string): (p: nat)
    requires KnownIface(name)
    ensures p != 0
  {
    if name == "eth0" then 1 else if name == "eth1" then 4 else if name == "cpu0" then 2 else 8
  }

  predicate KnownIfaces(s: Table) {
    forall i :: 0 <= i < |s| ==> KnownIface(s[i].iface)
  }

  function RowOf(e: Entry): Row
    requires KnownIface(e.iface)
  {
    Row(e.ip, e.mask, e.gw, OneHot(e.iface))
  }

  function Active(s: Table): (r: Table)
    ensures KnownIfaces(s) ==> KnownIfaces(r)
  {
    if s == [] then []
    else if s[0].isActive then [s[0]] + Active(s[1..])
    else Active(s[1..])
  }

  /** What the hardware answers: nothing, or a port with a next hop. Port 0 is no port. */
  datatype Answer = Miss | Hit(gw: U32, port: nat)

  function Answered(r: Row, d: U32): Answer {
    if r.port == 0 then Miss else Hit(if r.gw == 0 then d else r.gw, r.port)
  }

  /** The lowest row that matches wins. */
  function Lookup(rows: seq<Row>, d: U32): Answer {
    if rows == [] then Miss
    else if Matches(rows[0].ip, rows[0].mask, d) then Answered(rows[0], d)
    else Lookup(rows[1..], d)
  }

  /** The first row that agrees with `d` under its mask answers, unless its port is 0. */
  lemma {:induction false} LookupIsFirst(rows: seq<Row>, d: U32, k: nat)
    requires k <= |rows| && forall j :: 0 <= j < k ==> !BitsAgree(rows[j].ip, rows[j].mask, d, 32)
    requires k < |rows| ==> BitsAgree(rows[k].ip, rows[k].mask, d, 32)
    ensures Lookup(rows, d) ==
      if k == |rows| || rows[k].port == 0 then Miss
      else Hit(if rows[k].gw == 0 then d else rows[k].gw, rows[k].port)
  {
    if rows != [] {
      AndAgree(rows[0].ip, rows[0].mask, d, 32);
      if k > 0 {
        assert !BitsAgree(rows[0].ip, rows[0].mask, d, 32);
        assert forall j :: 0 < j < |rows| ==> rows[1..][j - 1] == rows[j];
        LookupIsFirst(rows[1..], d, k - 1);
      }
    }
  }

  /** The rows written for `active`: its first 32 entries, then empty rows. */
  function HwRows(active: Table): (rows: seq<Row>)
    requires KnownIfaces(active)
    ensures |rows| == TCAM_ROWS
  {
    seq(TCAM_ROWS, i requires 0 <= i < TCAM_ROWS => if i < |active| then RowOf(active[i]) else EMPTY_ROW)
  }

  function FirstMatch(s: Table, d: U32): Choice {
    if s == [] then None else if Matches(s[0].ip, s[0].mask, d) then Some(s[0]) else FirstMatch(s[1..], d)
  }

  function PortOf(c: Choice, d: U32): Answer
    requires c.Some? ==> KnownIface(c.entry.iface)
  {
    match c
    case None => Miss
    case Some(e) => Hit(if e.gw == 0 then d else e.gw, OneHot(e.iface))
  }

  lemma {:induction false} FirstMatchKnown(s: Table, d: U32)
    requires KnownIfaces(s)
    ensures FirstMatch(s, d).Some? ==> KnownIface(FirstMatch(s, d).entry.iface)
  {
    if s != [] {
      FirstMatchKnown(s[1..], d);
    }
  }

  lemma {:induction false} LookupMisses(rows: seq<Row>, d: U32)
    requires forall i :: 0 <= i < |rows| ==> rows[i] == EMPTY_ROW
    ensures Lookup(rows, d) == Miss
  {
    if rows != [] {
      LookupMisses(rows[1..], d);
    }
  }

  lemma {:induction false} LookupFirst(rows: seq<Row>, s: Table, d: U32)
    requires KnownIfaces(s) && |s| <= |rows|
    requires forall i :: 0 <= i < |s| ==> rows[i] == RowOf(s[i])
    requires forall i :: |s| <= i < |rows| ==> rows[i] == EMPTY_ROW
    ensures FirstMatch(s, d).Some? ==> KnownIface(FirstMatch(s, d).entry.iface)
    ensures Lookup(rows, d) == PortOf(FirstMatch(s, d), d)
  {
    FirstMatchKnown(s, d);
    if s == [] {
      LookupMisses(rows, d);
    } else {
      FirstMatchKnown(s[1..], d);
      LookupFirst(rows[1..], s[1..], d);
    }
  }

  ghost predicate ContiguousMasks(s: Table) {
    forall i :: 0 <= i < |s| ==> Contiguous(s[i].mask, 32)
  }

  /** No active match in `s` has more mask bits than the choice `f`. */
  ghost predicate Tops(f: Choice, s: Table, d: U32) {
    forall j :: 0 <= j < |s| && Candidate(s[j], d) ==> f.Some? && Bits(s[j].mask, 32) <= Bits(f.entry.mask, 32)
  }

  /** Whatever the masks and the order of the table, the scan ends at the first active match exactly if no other is longer. */
  lemma {:induction false} ScanIsFirst(s: Table, d: U32)
    ensures Scan(s, d, None) == FirstMatch(Active(s), d) <==> Tops(FirstMatch(Active(s), d), s, d)
  {
    if s != [] {
      if Candidate(s[0], d) {
        FirstOfAll(s, d);
        if Tops(Some(s[0]), s, d) {
          ScanKeepsBest(s[1..], d, Some(s[0]));
        } else {
          var j :| 0 <= j < |s| && Candidate(s[j], d) && Bits(s[j].mask, 32) > Bits(s[0].mask, 32);
          ScanBound(s, d, None, s[j]);
        }
      } else {
        ScanIsFirst(s[1..], d);
        SkipsFirst(s, d);
      }
    }
  }

  lemma FirstOfAll(s: Table, d: U32)
    requires s != [] && Candidate(s[0], d)
    ensures FirstMatch(Active(s), d) == Some(s[0])
  {
    assert Active(s)[0] == s[0];
  }

  lemma SkipsFirst(s: Table, d: U32)
    requires s != [] && !Candidate(s[0], d)
    ensures FirstMatch(Active(s), d) == FirstMatch(Active(s[1..]), d)
    ensures forall f :: Tops(f, s, d) <==> Tops(f, s[1..], d)
  {
    assert s[0].isActive ==> Active(s)[0] == s[0] && Active(s)[1..] == Active(s[1..]);
    forall f | Tops(f, s[1..], d) ensures Tops(f, s, d) {
      assert forall j :: 0 < j < |s| ==> s[1..][j - 1] == s[j];
    }
  }

  /** In a table kept in order, with contiguous masks, no active match is longer than the first. */
  lemma {:induction false} FirstTops(s: Table, d: U32)
    requires Descending(s) && ContiguousMasks(s)
    ensures Tops(FirstMatch(Active(s), d), s, d)
  {
    if s != [] {
      if Candidate(s[0], d) {
        FirstOfAll(s, d);
        forall j | 0 <= j < |s| && Candidate(s[j], d) ensures Bits(s[j].mask, 32) <= Bits(s[0].mask, 32) {
          RankMask(s[0], s[j]);
          MaskOrder(s[0].mask, s[j].mask, 32);
        }
      } else {
        FirstTops(s[1..], d);
        SkipsFirst(s, d);
      }
    }
  }

  /** In a table kept in order, with contiguous masks, the first active match is the longest. */
  lemma FirstIsLongest(s: Table, d: U32)
    requires Descending(s) && ContiguousMasks(s)
    ensures Scan(s, d, None) == FirstMatch(Active(s), d)
  {
    FirstTops(s, d);
    ScanIsFirst(s, d);
  }

  lemma RankMask(a: Entry, b: Entry)
    requires Rank(a) >= Rank(b)
    ensures a.mask >= b.mask
  {
  }

  lemma {:induction false} FirstMatchPrefix(s: Table, n: nat, d: U32)
    requires n <= |s|
    ensures FirstMatch(s[..n], d).Some? ==> FirstMatch(s, d) == FirstMatch(s[..n], d)
    ensures FirstMatch(s[..n], d).None? <==> forall i :: 0 <= i < n ==> !Matches(s[i].ip, s[i].mask, d)
  {
    if n > 0 {
      FirstMatchPrefix(s[1..], n - 1, d);
      assert s[..n][1..] == s[1..][..n - 1];
      assert forall i :: 0 < i < n ==> s[1..][i - 1] == s[i];
    }
  }

  /** The entry that answers in hardware: the first match among the active entries that have a row. */
  function RowMatch(s: Table, d: U32): Choice {
    FirstMatch(FirstRows(Active(s)), d)
  }

  function FirstRows(active: Table): Table {
    if |active| <= TCAM_ROWS then active else active[..TCAM_ROWS]
  }

  /** An active entry without a row is reached by the scan but not by the hardware. */
  lemma RowMatchIsFirst(s: Table, d: U32)
    ensures RowMatch(s, d).Some? ==> RowMatch(s, d) == FirstMatch(Active(s), d)
    ensures RowMatch(s, d).None? <==>
      forall i :: 0 <= i < |Active(s)| && i < TCAM_ROWS ==> !Matches(Active(s)[i].ip, Active(s)[i].mask, d)
  {
    var active := Active(s);
    var n := |FirstRows(active)|;
    assert FirstRows(active) == active[..n];
    FirstMatchPrefix(active, n, d);
  }

  lemma RowMatchIsScan(s: Table, d: U32)
    ensures Scan(s, d, None) == RowMatch(s, d) <==> Tops(RowMatch(s, d), s, d)
  {
    RowMatchIsFirst(s, d);
    ScanIsFirst(s, d);
    if RowMatch(s, d).None? {
      ScanIsLongest(s, d);
    }
  }

  /** The hardware's answer in the table's own terms, with the port numbers of the four interfaces. */
  lemma AnswerNames(c: Choice, d: U32)
    requires c.Some? ==> KnownIface(c.entry.iface)
    ensures PortOf(c, d) == Miss <==> HopTo(c, d) == NoRoute
    ensures PortOf(c, d) != Miss ==>
      && HopTo(c, d) == Via(PortOf(c, d).gw, HopTo(c, d).iface)
      && (HopTo(c, d).iface, PortOf(c, d).port) in {("eth0", 1), ("cpu0", 2), ("eth1", 4), ("cpu1", 8)}
  {
  }

  lemma OneHotDistinct(a: string, b: string)
    requires KnownIface(a) && KnownIface(b) && OneHot(a) == OneHot(b)
    ensures a == b
  {
  }

  lemma SameAnswer(f: Choice, c: Choice, d: U32)
    requires f.Some? ==> KnownIface(f.entry.iface)
    requires c.Some? ==> KnownIface(c.entry.iface)
    ensures PortOf(f, d) == PortOf(c, d) <==> HopTo(f, d) == HopTo(c, d)
  {
    if f.Some? && c.Some? && OneHot(f.entry.iface) == OneHot(c.entry.iface) {
      OneHotDistinct(f.entry.iface, c.entry.iface);
    }
  }

  lemma {:induction false} ScanKnown(s: Table, d: U32, best: Choice)
    requires KnownIfaces(s) && (best.Some? ==> KnownIface(best.entry.iface))
    ensures Scan(s, d, best).Some? ==> KnownIface(Scan(s, d, best).entry.iface)
  {
    if s != [] {
      ScanKnown(s[1..], d, if Candidate(s[0], d) && Better(s[0], best) then Some(s[0]) else best);
    }
  }

  lemma RowsAnswer(s: Table, d: U32)
    requires KnownIfaces(s)
    ensures RowMatch(s, d).Some? ==> KnownIface(RowMatch(s, d).entry.iface)
    ensures Lookup(HwRows(Active(s)), d) == PortOf(RowMatch(s, d), d)
  {
    LookupFirst(HwRows(Active(s)), FirstRows(Active(s)), d);
  }

  /**
   For every table, whatever its masks, order and length: the hardware answers
   with the entry that the software picks exactly if no active match has more
   mask bits than the first match among the 32 entries with a row. Otherwise
   the two agree on the destination only if their different entries happen to
   name the same gateway and interface.
   */
  lemma HardwareAgrees(s: Table, d: U32)
    requires KnownIfaces(s)
    ensures var f, c := RowMatch(s, d), Scan(s, d, None);
            && (c.Some? ==> KnownIface(c.entry.iface))
            && (f == c <==> Tops(f, s, d))
            && (Lookup(HwRows(Active(s)), d) == PortOf(c, d) <==>
                  Tops(f, s, d) || (f.Some? && c.Some? && f != c && HopTo(f, d) == HopTo(c, d)))
  {
    var f, c := RowMatch(s, d), Scan(s, d, None);
    RowMatchIsScan(s, d);
    RowsAnswer(s, d);
    ScanKnown(s, d, None);
    SameAnswer(f, c, d);
  }

  /**
   In a table kept in order, with contiguous masks, they agree exactly if one of
   the first 32 active routes matches or no active route does; in particular
   always when there are at most 32 active routes.
   */
  lemma ContiguousAgrees(s: Table, d: U32)
    requires Descending(s) && ContiguousMasks(s) && KnownIfaces(s)
    ensures var active := Active(s); var c := Scan(s, d, None);
            && (c.Some? ==> KnownIface(c.entry.iface))
            && (Lookup(HwRows(active), d) == PortOf(c, d) <==>
                  (exists i :: 0 <= i < |active| && i < TCAM_ROWS && Matches(active[i].ip, active[i].mask, d))
                  || (forall i :: 0 <= i < |active| ==> !Matches(active[i].ip, active[i].mask, d)))
            && (|active| <= TCAM_ROWS ==> Lookup(HwRows(active), d) == PortOf(c, d))
  {
    var active := Active(s);
    FirstIsLongest(s, d);
    HardwareAgrees(s, d);
    RowMatchIsFirst(s, d);
    FirstMatchPrefix(active, |active|, d);
    assert active[..|active|] == active;
  }

  /** Two routes for the same destination: hardware takes the first, software the one with more mask bits. */
  lemma TwoRoutes(a: Entry, b: Entry, d: U32)
    requires Candidate(a, d) && Candidate(b, d)
    ensures FirstMatch(Active([a, b]), d) == Some(a)
    ensures Scan([a, b], d, None) == Some(if Bits(b.mask, 32) > Bits(a.mask, 32) then b else a)
  {
    assert [a, b][1..] == [b] && [b][1..] == [];
    assert Active([b]) == [b] && Active([a, b]) == [a] + [b];
    var best := if Better(b, Some(a)) then Some(b) else Some(a);
    assert Scan([a, b], d, None) == Scan([b], d, Some(a));
    assert Scan([b], d, Some(a)) == Scan([b][1..], d, best);
  }

  /** Masks that are not contiguous can be in order as numbers but not by their bits. */
  lemma NoncontiguousDisagrees(d: U32)
    ensures var a := Entry(d, 1, 4, "eth0", true, true);
            var b := Entry(d, 2, 3, "eth1", true, true);
            && Descending([a, b])
            && FirstMatch(Active([a, b]), d) == Some(a)
            && Scan([a, b], d, None) == Some(b)
  {
    var a := Entry(d, 1, 4, "eth0", true, true);
    var b := Entry(d, 2, 3, "eth1", true, true);
    ZeroBits(29);
    ZeroBits(30);
    assert Bits(4, 32) == Bits(2, 31) == Bits(1, 30) == 1;
    assert Bits(3, 32) == 1 + Bits(1, 31) == 2;
    TwoRoutes(a, b, d);
  }
}
