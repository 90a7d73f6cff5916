/**
 The routing table and its copy in the hardware's TCAM: every change re-sorts
 the list in place and rewrites the 32 rows.
 */
module RoutingTable {
  import opened Numbers
  import opened RouteOrder
  import opened LongestPrefix

  /** What `del_route` leaves. */
  function Without(s: Table, dest: U32, mask: U32): Table {
    if s == [] then []
    else
      var rest := Without(s[..|s| - 1], dest, mask);
      var e := s[|s| - 1];
      if dest == e.ip && mask == e.mask then rest else rest + [e]
  }

  /** Entries whose interface name starts with `name` become active. */
  function Activated(s: Table, name: string): Table {
    if s == [] then []
    else
      var e := s[|s| - 1];
      Activated(s[..|s| - 1], name) + [if name <= e.iface then e.(isActive := true) else e]
  }

  /** Entries whose interface name starts with `name` become inactive if static, and go otherwise. */
  function Deactivated(s: Table, name: string): Table {
    if s == [] then []
    else
      var rest := Deactivated(s[..|s| - 1], name);
      var e := s[|s| - 1];
      if !(name <= e.iface) then rest + [e]
      else if e.isStatic then rest + [e.(isActive := false)]
      else rest
  }

  function StaticOnly(s: Table): Table {
    if s == [] then []
    else if s[|s| - 1].isStatic then StaticOnly(s[..|s| - 1]) + [s[|s| - 1]]
    else StaticOnly(s[..|s| - 1])
  }

  // --- how often an entry is in the changed table -----------------------------------------

  lemma LastCounts(s: Table, e: Entry)
    requires s != []
    ensures multiset(s)[e] == multiset(s[..|s| - 1])[e] + (if s[|s| - 1] == e then 1 else 0)
  {
    assert s == s[..|s| - 1] + [s[|s| - 1]];
  }

  lemma {:induction false} WithoutCounts(s: Table, dest: U32, mask: U32, e: Entry)
    ensures multiset(Without(s, dest, mask))[e] == if e.ip == dest && e.mask == mask then 0 else multiset(s)[e]
  {
    if s != [] {
      LastCounts(s, e);
      WithoutCounts(s[..|s| - 1], dest, mask, e);
    }
  }

  lemma {:induction false} StaticOnlyCounts(s: Table, e: Entry)
    ensures multiset(StaticOnly(s))[e] == if e.isStatic then multiset(s)[e] else 0
  {
    if s != [] {
      LastCounts(s, e);
      StaticOnlyCounts(s[..|s| - 1], e);
    }
  }

  lemma {:induction false} ActivatedCounts(s: Table, name: string, e: Entry)
    ensures multiset(Activated(s, name))[e] ==
      if !(name <= e.iface) then multiset(s)[e]
      else if e.isActive then multiset(s)[e] + multiset(s)[e.(isActive := false)]
      else 0
  {
    if s != [] {
      LastCounts(s, e);
      LastCounts(s, e.(isActive := false));
      ActivatedCounts(s[..|s| - 1], name, e);
    }
  }

  lemma {:induction false} DeactivatedCounts(s: Table, name: string, e: Entry)
    ensures multiset(Deactivated(s, name))[e] ==
      if !(name <= e.iface) then multiset(s)[e]
      else if e.isStatic && !e.isActive then multiset(s)[e] + multiset(s)[e.(isActive := true)]
      else 0
  {
    if s != [] {
      LastCounts(s, e);
      LastCounts(s, e.(isActive := true));
      DeactivatedCounts(s[..|s| - 1], name, e);
    }
  }

  ghost predicate SameBuckets(s: Table, t: Table) {
    forall r: nat :: Bucket(t, r) == Bucket(s, r)
  }

  lemma SwapKeepsAll(s: Table, t: Table, i: nat)
    requires SameBuckets(s, t) && i + 1 < |t| && Rank(t[i]) != Rank(t[i + 1])
    ensures SameBuckets(s, Swapped(t, i))
  {
    forall r: nat ensures Bucket(Swapped(t, i), r) == Bucket(s, r) {
      SwapKeepsBuckets(t, i, r);
    }
  }

  lemma SameBucketsKnown(s: Table, t: Table)
    requires SameBuckets(s, t) && KnownIfaces(s)
    ensures KnownIfaces(t)
  {
    forall i | 0 <= i < |t| ensures KnownIface(t[i].iface) {
      BucketMember(t, i);
      assert t[i] in Bucket(s, Rank(t[i]));
      BucketOnlyMembers(s, Rank(t[i]), t[i]);
    }
  }

  lemma {:induction false} AdjacentDescending(s: Table, i: nat, j: nat)
    requires forall k :: 0 <= k < |s| - 1 ==> Rank(s[k]) >= Rank(s[k + 1])
    requires i <= j < |s|
    ensures Rank(s[i]) >= Rank(s[j])
    decreases j
  {
    if i < j {
      AdjacentDescending(s, i, j - 1);
    }
  }

  lemma {:induction false} KnownKept(s: Table, dest: U32, mask: U32, name: string)
    requires KnownIfaces(s)
    ensures KnownIfaces(Without(s, dest, mask)) && KnownIfaces(Activated(s, name))
    ensures KnownIfaces(Deactivated(s, name)) && KnownIfaces(StaticOnly(s))
  {
    if s != [] {
      KnownKept(s[..|s| - 1], dest, mask, name);
    }
  }

  /** One pass over the list, exchanging neighbours that are out of order. */
  method BubblePass(s: Table) returns (t: Table, swapped: bool)
    ensures SameBuckets(s, t) && |t| == |s|
    ensures Inversions(t) <= Inversions(s)
    ensures swapped ==> Inversions(t) < Inversions(s)
    ensures !swapped ==> t == s && Descending(s)
  {
    t, swapped := s, false;
    var cur := 0;
    while cur + 1 < |t|
      invariant |t| == |s| && 0 <= cur && (cur == 0 || cur < |s|)
      invariant SameBuckets(s, t)
      invariant Inversions(t) <= Inversions(s) && (swapped ==> Inversions(t) < Inversions(s))
      invariant !swapped ==> t == s && forall k :: 0 <= k < cur ==> Rank(s[k]) >= Rank(s[k + 1])
    {
      OutOfOrderIsRank(t[cur], t[cur + 1]);
      if OutOfOrder(t[cur], t[cur + 1]) {
        SwapKeepsAll(s, t, cur);
        SwapInversions(t, cur);
        t := Swapped(t, cur);
        swapped := true;
      }
      cur := cur + 1;
    }
    if !swapped {
      forall i, j | 0 <= i < j < |s| ensures Rank(s[i]) >= Rank(s[j]) {
        AdjacentDescending(s, i, j);
      }
    }
  }

  method BubbleSort(s: Table) returns (t: Table)
    ensures StableSort(s, t)
  {
    var swapped := true;
    t := s;
    while swapped
      invariant SameBuckets(s, t)
      invariant !swapped ==> Descending(t)
      decreases swapped, Inversions(t)
    {
      t, swapped := BubblePass(t);
    }
  }

  lemma {:induction false} ActiveFrom(s: Table, i: nat)
    requires i < |s|
    ensures Active(s[i..]) == if s[i].isActive then [s[i]] + Active(s[i + 1..]) else Active(s[i + 1..])
  {
    assert s[i..][1..] == s[i + 1..];
  }

  /** The next active entry from `cur` on. */
  method SkipInactive(s: Table, cur: nat) returns (r: nat)
    requires cur <= |s|
    ensures cur <= r <= |s| && (r < |s| ==> s[r].isActive)
    ensures Active(s[r..]) == Active(s[cur..])
  {
    r := cur;
    while r < |s| && !s[r].isActive
      invariant cur <= r <= |s| && Active(s[r..]) == Active(s[cur..])
    {
      ActiveFrom(s, r);
      r := r + 1;
    }
  }

  /** `cur` is at the active entry that row `i` shows, or past the end if there is none. */
  ghost predicate StandsAt(s: Table, cur: nat, i: nat) {
    && cur <= |s|
    && (cur < |s| ==> s[cur].isActive)
    && Active(s[cur..]) == (if i <= |Active(s)| then Active(s)[i..] else [])
  }

  lemma StartsAt(s: Table, cur: nat)
    requires cur <= |s| && (cur < |s| ==> s[cur].isActive) && Active(s[cur..]) == Active(s[0..])
    ensures StandsAt(s, cur, 0)
  {
    assert s[0..] == s && Active(s)[0..] == Active(s);
  }

  lemma RowHere(s: Table, cur: nat, i: nat)
    requires KnownIfaces(s) && StandsAt(s, cur, i) && i < TCAM_ROWS
    ensures HwRows(Active(s))[i] == if cur < |s| then RowOf(s[cur]) else EMPTY_ROW
  {
    Showing(s, cur, i);
  }

  lemma Showing(s: Table, cur: nat, i: nat)
    requires StandsAt(s, cur, i)
    ensures i < |Active(s)| <==> cur < |s|
    ensures cur < |s| ==> Active(s)[i] == s[cur]
  {
    if cur < |s| {
      ActiveFrom(s, cur);
    } else {
      assert s[cur..] == [];
    }
  }

  lemma StandsNext(s: Table, cur: nat, next: nat, i: nat, up: nat)
    requires StandsAt(s, cur, i) && up == i + 1
    requires next <= |s| && (next < |s| ==> s[next].isActive)
    requires if cur < |s| then Active(s[next..]) == Active(s[cur + 1..]) else next == cur
    ensures StandsAt(s, next, up)
  {
    if cur < |s| {
      ActiveFrom(s, cur);
      assert Active(s)[i + 1..] == Active(s)[i..][1..];
    } else {
      assert s[cur..] == [];
    }
  }

  /** The row to write for the entry at `cur`, and the active entry after it. */
  method NextRow(s: Table, cur: nat, ghost i: nat, ghost up: nat) returns (row: Row, next: nat)
    requires KnownIfaces(s) && StandsAt(s, cur, i) && i < TCAM_ROWS && up == i + 1
    ensures row == HwRows(Active(s))[i] && StandsAt(s, next, up)
  {
    RowHere(s, cur, i);
    next := cur;
    if cur < |s| {
      row := RowOf(s[cur]);
      next := SkipInactive(s, cur + 1);
    } else {
      row := EMPTY_ROW;
    }
    StandsNext(s, cur, next, i, up);
  }

  class RouterState {
    var rtable: Table
    const hw: array<Row>
    const isNetfpga: bool

    ghost predicate Usable()
      reads this
    {
      hw.Length == TCAM_ROWS && (isNetfpga ==> KnownIfaces(rtable))
    }

    /** The table is in order, and the hardware holds its first 32 active entries. */
    ghost predicate Valid()
      reads this, hw
    {
      Usable() && Descending(rtable) && (isNetfpga ==> hw[..] == HwRows(Active(rtable)))
    }

    constructor (isNetfpga: bool)
      ensures Valid() && rtable == [] && this.isNetfpga == isNetfpga && fresh(hw)
    {
      this.isNetfpga := isNetfpga;
      rtable := [];
      hw := new Row[TCAM_ROWS](_ => EMPTY_ROW);
      new;
      assert hw[..] == HwRows([]);
    }

    method WriteRtableToHw()
      requires Usable() && KnownIfaces(rtable)
      modifies hw
      ensures hw[..] == HwRows(Active(rtable))
    {
      var table := rtable;
      ghost var rows := HwRows(Active(table));
      var cur := SkipInactive(table, 0);
      var i := 0;
      StartsAt(table, cur);
      while i < TCAM_ROWS
        invariant 0 <= i <= TCAM_ROWS && StandsAt(table, cur, i)
        invariant forall j :: 0 <= j < i ==> hw[j] == rows[j]
      {
        var up := i + 1;
        var row, next := NextRow(table, cur, i, up);
        hw[i] := row;
        cur, i := next, up;
      }
    }

    method TriggerRtableModified()
      requires Usable()
      modifies `rtable, hw
      ensures Valid() && StableSort(old(rtable), rtable)
    {
      rtable := BubbleSort(rtable);
      if isNetfpga {
        SameBucketsKnown(old(rtable), rtable);
        WriteRtableToHw();
      }
    }

    method AddRoute(dest: U32, gw: U32, mask: U32, iface: string)
      requires Valid() && (isNetfpga ==> KnownIface(iface))
      modifies `rtable, hw
      ensures Valid()
      ensures StableSort(old(rtable) + [Entry(dest, gw, mask, iface, true, true)], rtable)
    {
      rtable := rtable + [Entry(dest, gw, mask, iface, true, true)];
      TriggerRtableModified();
    }

    method DelRoute(dest: U32, mask: U32) returns (removed: nat)
      requires Valid()
      modifies `rtable, hw
      ensures Valid()
      ensures StableSort(Without(old(rtable), dest, mask), rtable)
      ensures removed == |old(rtable)| - |Without(old(rtable), dest, mask)|
    {
      var kept := [];
      removed := 0;
      for i := 0 to |rtable|
        invariant kept == Without(rtable[..i], dest, mask) && removed == i - |kept|
      {
        assert rtable[..i + 1][..i] == rtable[..i];
        if dest == rtable[i].ip && mask == rtable[i].mask {
          removed := removed + 1;
        } else {
          kept := kept + [rtable[i]];
        }
      }
      assert rtable[..|rtable|] == rtable;
      if isNetfpga {
        KnownKept(rtable, dest, mask, "");
      }
      rtable := kept;
      TriggerRtableModified();
    }

    method DeactivateRoutes(name: string)
      requires Valid()
      modifies `rtable, hw
      ensures Valid()
      ensures StableSort(Deactivated(old(rtable), name), rtable)
    {
      var now := [];
      for i := 0 to |rtable|
        invariant now == Deactivated(rtable[..i], name)
      {
        assert rtable[..i + 1][..i] == rtable[..i];
        var e := rtable[i];
        if name <= e.iface {
          if e.isStatic {
            now := now + [e.(isActive := false)];
          }
        } else {
          now := now + [e];
        }
      }
      assert rtable[..|rtable|] == rtable;
      if isNetfpga {
        KnownKept(rtable, 0, 0, name);
      }
      rtable := now;
      TriggerRtableModified();
    }

    method ActivateRoutes(name: string)
      requires Valid()
      modifies `rtable, hw
      ensures Valid()
      ensures StableSort(Activated(old(rtable), name), rtable)
    {
      var now := [];
      for i := 0 to |rtable|
        invariant now == Activated(rtable[..i], name)
      {
        assert rtable[..i + 1][..i] == rtable[..i];
        var e := rtable[i];
        now := now + [if name <= e.iface then e.(isActive := true) else e];
      }
      assert rtable[..|rtable|] == rtable;
      if isNetfpga {
        KnownKept(rtable, 0, 0, name);
      }
      rtable := now;
      TriggerRtableModified();
    }

    /** The static routes stay, every dynamic route is replaced by the newly computed ones. */
    method Rebuild(dynamic: Table)
      requires Valid() && (isNetfpga ==> KnownIfaces(dynamic))
      modifies `rtable, hw
      ensures Valid()
      ensures StableSort(StaticOnly(old(rtable)) + dynamic, rtable)
    {
      var kept := [];
      for i := 0 to |rtable|
        invariant kept == StaticOnly(rtable[..i])
      {
        assert rtable[..i + 1][..i] == rtable[..i];
        if rtable[i].isStatic {
          kept := kept + [rtable[i]];
        }
      }
      assert rtable[..|rtable|] == rtable;
      if isNetfpga {
        KnownKept(rtable, 0, 0, "");
      }
      rtable := kept + dynamic;
      TriggerRtableModified();
    }

    /** In every valid state, whatever its masks: the exact condition for hardware and software to agree on `d`. */
    lemma HardwareAgreesExactly(d: U32)
      requires Valid() && isNetfpga
      ensures var f, c := RowMatch(rtable, d), Scan(rtable, d, None);
              && (c.Some? ==> KnownIface(c.entry.iface))
              && (f == c <==> Tops(f, rtable, d))
              && (Lookup(hw[..], d) == PortOf(c, d) <==>
                    Tops(f, rtable, d) || (f.Some? && c.Some? && f != c && HopTo(f, d) == HopTo(c, d)))
    {
      HardwareAgrees(rtable, d);
    }

    /** In every valid state, first match over the rows is the software's longest-prefix match. */
    lemma HardwareRefinesSoftware(d: U32)
      requires Valid() && isNetfpga && ContiguousMasks(rtable) && |Active(rtable)| <= TCAM_ROWS
      ensures var c := Scan(rtable, d, None);
              (c.Some? ==> KnownIface(c.entry.iface)) && Lookup(hw[..], d) == PortOf(c, d)
    {
      ContiguousAgrees(rtable, d);
    }

    /** The same in the table's own terms: which entry answers, with which next hop and on which port. */
    lemma HardwareAnswer(d: U32)
      requires Valid() && isNetfpga && ContiguousMasks(rtable) && |Active(rtable)| <= TCAM_ROWS
      ensures Lookup(hw[..], d) == Miss <==> forall e :: e in rtable ==> !(e.isActive && BitsAgree(e.ip, e.mask, d, 32))
      ensures var answer := Lookup(hw[..], d);
              answer != Miss ==>
                exists k :: 0 <= k < |rtable| && rtable[k].isActive && BitsAgree(rtable[k].ip, rtable[k].mask, d, 32)
                  && answer.gw == (if rtable[k].gw == 0 then d else rtable[k].gw)
                  && (rtable[k].iface, answer.port) in {("eth0", 1), ("cpu0", 2), ("eth1", 4), ("cpu1", 8)}
                  && (forall j :: 0 <= j < |rtable| && rtable[j].isActive && BitsAgree(rtable[j].ip, rtable[j].mask, d, 32)
                        ==> Bits(rtable[j].mask, 32) <= Bits(rtable[k].mask, 32)
                            && (j < k ==> Bits(rtable[j].mask, 32) < Bits(rtable[k].mask, 32)))
    {
      HardwareRefinesSoftware(d);
      NextHopIsLongest(rtable, d);
      AnswerNames(Scan(rtable, d, None), d);
    }
  }
}
