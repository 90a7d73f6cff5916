/**
 A network of routers that flood LSUs to one another. Links come and go, copies
 are lost or delivered in any order, records time out and are learned again.
 Every copy of an LSU remembers the flood it belongs to.
 */
module Flooding {
  import opened Numbers
  import opened HopGraph
  import opened LinkStateDb

  /** A neighbour as a router knows it: our address on the link, its address, and who it is. */
  datatype Link = Link(localIp: U32, remoteIp: U32, node: U32)

  /** A copy of an LSU on its way to router `dst`. */
  datatype Copy = Copy(flood: nat, rid: U32, seqno: U16, ttl: U16, srcIp: U32, dst: U32)

  datatype Net = Net(
    dbs: map<U32, Seqs>,            // per router: the sequence numbers it has stored
    links: map<U32, seq<Link>>,     // per router: its neighbours
    flight: seq<Copy>,              // copies queued or on the wire
    floods: nat)                    // floods started so far

  datatype Step =
    | Originate(n: U32)             // router n sends an LSU of its own
    | Deliver(i: nat)               // copy i arrives
    | Lose(i: nat)                  // copy i is lost
    | Expire(n: U32, gone: set<U32>)   // records time out at router n
    | Relink(n: U32, now: seq<Link>)   // the neighbours of router n change

  function Without(s: seq<Copy>, i: nat): seq<Copy>
    requires i < |s|
  {
    s[..i] + s[i + 1..]
  }

  /** Copies to every neighbour except the one at address `back`, if given. */
  function Broadcast(links: seq<Link>, c: Copy, back: bool): (r: seq<Copy>)
    ensures |r| <= |links|
    ensures forall x :: x in r ==> x.flood == c.flood && x.ttl == c.ttl && x.rid == c.rid && x.seqno == c.seqno
  {
    if links == [] then []
    else
      var l := links[|links| - 1];
      var rest := Broadcast(links[..|links| - 1], c, back);
      if back && l.remoteIp == c.srcIp then rest
      else rest + [c.(srcIp := l.localIp, dst := l.node)]
  }

  lemma {:induction false} BroadcastMembers(links: seq<Link>, c: Copy, back: bool, x: Copy)
    ensures x in Broadcast(links, c, back) <==>
      exists k :: 0 <= k < |links| && !(back && links[k].remoteIp == c.srcIp) && x == c.(srcIp := links[k].localIp, dst := links[k].node)
  {
    if links != [] {
      BroadcastMembers(links[..|links| - 1], c, back, x);
      if x in Broadcast(links, c, back) && x !in Broadcast(links[..|links| - 1], c, back) {
        var k := |links| - 1;
        assert !(back && links[k].remoteIp == c.srcIp) && x == c.(srcIp := links[k].localIp, dst := links[k].node);
      }
    }
  }

  lemma {:induction false} BroadcastCount(links: seq<Link>, c: Copy)
    ensures |Broadcast(links, c, false)| == |links|
  {
    if links != [] {
      BroadcastCount(links[..|links| - 1], c);
    }
  }

  /** What copy `c` makes router `c.dst` send on. */
  function Forwarded(net: Net, c: Copy): (r: seq<Copy>)
    requires c.dst in net.dbs && c.dst in net.links
  {
    if Accepts(net.dbs[c.dst], c.dst, c.rid, c.seqno) && NextTtl(c.ttl) > 0
    then Broadcast(net.links[c.dst], c.(ttl := NextTtl(c.ttl)), true)
    else []
  }

  ghost predicate Enabled(net: Net, s: Step, degree: nat) {
    match s
    case Originate(n) => n in net.dbs && n in net.links && n in net.dbs[n]
    case Deliver(i) => i < |net.flight| && net.flight[i].dst in net.dbs && net.flight[i].dst in net.links
    case Lose(i) => i < |net.flight|
    case Expire(n, gone) => n in net.dbs && n !in gone
    case Relink(n, now) => |now| <= degree
  }

  function Apply(net: Net, s: Step, ghost degree: nat): Net
    requires Enabled(net, s, degree)
  {
    match s
    case Originate(n) =>
      var seqno := net.dbs[n][n];
      var c := Copy(net.floods, n, seqno, INITIAL_TTL, 0, n);
      net.(dbs := net.dbs[n := Advanced(net.dbs[n], n)],
           flight := net.flight + Broadcast(net.links[n], c, false),
           floods := net.floods + 1)
    case Deliver(i) =>
      var c := net.flight[i];
      net.(dbs := net.dbs[c.dst := Received(net.dbs[c.dst], c.dst, c.rid, c.seqno)],
           flight := Without(net.flight, i) + Forwarded(net, c))
    case Lose(i) => net.(flight := Without(net.flight, i))
    case Expire(n, gone) => net.(dbs := net.dbs[n := net.dbs[n] - gone])
    case Relink(n, now) => net.(links := net.links[n := now])
  }

  /**
   What is sent on: one hop less to live, to every neighbour but the one it came
   from, if the LSU is another router's, is unknown or newer than the stored one,
   and has not used up its TTL.
   */
  lemma ForwardedMembers(net: Net, c: Copy, x: Copy)
    requires c.dst in net.dbs && c.dst in net.links
    ensures x in Forwarded(net, c) <==>
      && c.rid != c.dst && (c.rid !in net.dbs[c.dst] || c.seqno > net.dbs[c.dst][c.rid]) && c.ttl != 1
      && exists l :: l in net.links[c.dst] && l.remoteIp != c.srcIp
           && x == Copy(c.flood, c.rid, c.seqno, if c.ttl == 0 then 65535 else c.ttl - 1, l.localIp, l.node)
  {
    var links := net.links[c.dst];
    BroadcastMembers(links, c.(ttl := NextTtl(c.ttl)), true, x);
    if x in Forwarded(net, c) {
      var k :| 0 <= k < |links| && links[k].remoteIp != c.srcIp
        && x == c.(ttl := NextTtl(c.ttl)).(srcIp := links[k].localIp, dst := links[k].node);
      assert links[k] in links;
    }
  }

  /** A delivery stores the larger of the two numbers at that router for another's LSU, and nothing else anywhere. */
  lemma DeliveredNumbers(net: Net, i: nat, degree: nat)
    requires Enabled(net, Deliver(i), degree)
    ensures var c, after := net.flight[i], Apply(net, Deliver(i), degree).dbs;
            && (c.rid == c.dst ==> after == net.dbs)
            && (c.rid != c.dst ==>
                  && c.rid in after[c.dst]
                  && after[c.dst][c.rid] == (if c.rid !in net.dbs[c.dst] then c.seqno
                                             else if net.dbs[c.dst][c.rid] < c.seqno then c.seqno
                                             else net.dbs[c.dst][c.rid]))
            && (forall n :: n in net.dbs <==> n in after)
            && (forall n, r :: n in net.dbs && (n != c.dst || r != c.rid) ==>
                  (r in net.dbs[n] <==> r in after[n]) && (r in net.dbs[n] ==> after[n][r] == net.dbs[n][r]))
  {
    var c := net.flight[i];
    assert net.dbs[c.dst := net.dbs[c.dst]] == net.dbs;
  }

  /** An LSU of its own goes once to every neighbour, with the stored number and TTL 64. */
  lemma OriginatedCopies(net: Net, n: U32, degree: nat, x: Copy)
    requires Enabled(net, Originate(n), degree)
    ensures var after := Apply(net, Originate(n), degree);
            && |after.flight| == |net.flight| + |net.links[n]| && after.flight[..|net.flight|] == net.flight
            && (x in after.flight[|net.flight|..] <==>
                  exists l :: l in net.links[n] && x == Copy(net.floods, n, net.dbs[n][n], 64, l.localIp, l.node))
            && (forall m :: m in net.dbs && m != n ==> after.dbs[m] == net.dbs[m])
            && after.dbs[n][n] == (if net.dbs[n][n] == 65535 then 0 else net.dbs[n][n] + 1)
            && (forall m :: m in net.dbs[n] && m != n ==> m in after.dbs[n] && after.dbs[n][m] == net.dbs[n][m])
  {
    var c, links, after := Copy(net.floods, n, net.dbs[n][n], INITIAL_TTL, 0, n), net.links[n], Apply(net, Originate(n), degree);
    BroadcastCount(links, c);
    BroadcastMembers(links, c, false, x);
    assert after.flight[|net.flight|..] == Broadcast(links, c, false);
    if x in Broadcast(links, c, false) {
      var k :| 0 <= k < |links| && x == c.(srcIp := links[k].localIp, dst := links[k].node);
      assert links[k] in links;
    }
  }

  /** No router has more than `degree` neighbours, and every LSU started with TTL 64. */
  ghost predicate Inv(net: Net, degree: nat) {
    && (forall n :: n in net.links ==> |net.links[n]| <= degree)
    && (forall n :: n in net.dbs ==> n in net.dbs[n])
    && (forall k :: 0 <= k < |net.flight| ==>
          1 <= net.flight[k].ttl <= INITIAL_TTL && net.flight[k].flood < net.floods)
  }

  /** TTLs in flight stay between 1 and 64, so the 16-bit decrement never wraps, and own records stay. */
  lemma StepKeepsInv(net: Net, s: Step, degree: nat)
    requires Inv(net, degree) && Enabled(net, s, degree)
    ensures Inv(Apply(net, s, degree), degree)
  {
    var after := Apply(net, s, degree);
    forall k | 0 <= k < |after.flight|
      ensures 1 <= after.flight[k].ttl <= INITIAL_TTL && after.flight[k].flood < after.floods
    {
      if s.Deliver? {
        var c := net.flight[s.i];
        var left := Without(net.flight, s.i);
        if k < |left| {
          assert after.flight[k] == left[k] && left[k] in net.flight;
        } else {
          assert after.flight[k] in Forwarded(net, c);
        }
      } else if s.Originate? && k >= |net.flight| {
        assert after.flight[k] in after.flight[|net.flight|..];
      } else if s.Lose? {
        assert after.flight[k] in net.flight;
      }
    }
  }

  // --- how long a flood lasts ----------------------------------------------------

  /** The most deliveries that one copy with the given TTL can cause, itself included. */
  function Weight(degree: nat, ttl: nat): (w: nat)
    ensures ttl > 0 ==> w >= 1
  {
    if ttl == 0 then 0 else 1 + degree * Weight(degree, ttl - 1)
  }

  /** The most deliveries flood `f` can still cause. */
  function Load(flight: seq<Copy>, f: nat, degree: nat): nat {
    if flight == [] then 0
    else Load(flight[..|flight| - 1], f, degree) +
         (if flight[|flight| - 1].flood == f then Weight(degree, flight[|flight| - 1].ttl) else 0)
  }

  lemma {:induction false} LoadOfSum(a: seq<Copy>, b: seq<Copy>, f: nat, degree: nat)
    ensures Load(a + b, f, degree) == Load(a, f, degree) + Load(b, f, degree)
  {
    if b == [] {
      assert a + b == a;
    } else {
      var n := |b| - 1;
      LoadOfSum(a, b[..n], f, degree);
      assert (a + b)[..|a + b| - 1] == a + b[..n];
    }
  }

  lemma LoadWithout(s: seq<Copy>, i: nat, f: nat, degree: nat)
    requires i < |s|
    ensures Load(s, f, degree) == Load(Without(s, i), f, degree) + (if s[i].flood == f then Weight(degree, s[i].ttl) else 0)
  {
    assert s == s[..i] + [s[i]] + s[i + 1..];
    LoadOfSum(s[..i] + [s[i]], s[i + 1..], f, degree);
    LoadOfSum(s[..i], [s[i]], f, degree);
    LoadOfSum(s[..i], s[i + 1..], f, degree);
    assert [s[i]][..0] == [];
  }

  lemma {:induction false} LoadOfCopies(r: seq<Copy>, flood: nat, ttl: U16, f: nat, degree: nat)
    requires forall x :: x in r ==> x.flood == flood && x.ttl == ttl
    ensures Load(r, f, degree) == if flood == f then |r| * Weight(degree, ttl) else 0
  {
    if r != [] {
      var n, w := |r| - 1, Weight(degree, ttl);
      LoadOfCopies(r[..n], flood, ttl, f, degree);
      assert r[n] in r;
      MulNext(n, w);
    }
  }

  lemma MulNext(n: nat, w: nat)
    ensures (n + 1) * w == n * w + w
  {
  }

  lemma MulMonotone(a: nat, b: nat, c: nat)
    requires a <= b
    ensures a * c <= b * c
  {
  }

  predicate Delivers(net: Net, s: Step, f: nat) {
    s.Deliver? && s.i < |net.flight| && net.flight[s.i].flood == f
  }

  /** The most deliveries a flood can cause from the moment it starts. */
  function FloodBound(degree: nat): nat {
    degree * Weight(degree, INITIAL_TTL)
  }

  /** Every delivery of a flood uses up some of its load; nothing but its start adds to it. */
  lemma StepLoad(net: Net, s: Step, f: nat, degree: nat)
    requires Inv(net, degree) && Enabled(net, s, degree)
    ensures var after := Apply(net, s, degree);
            var used := if Delivers(net, s, f) then 1 else 0;
            if s.Originate? && f == net.floods then Load(after.flight, f, degree) <= FloodBound(degree)
            else Load(after.flight, f, degree) + used <= Load(net.flight, f, degree)
  {
    match s
    case Originate(n) =>
      var r := Broadcast(net.links[n], Copy(net.floods, n, net.dbs[n][n], INITIAL_TTL, 0, n), false);
      LoadOfSum(net.flight, r, f, degree);
      LoadOfCopies(r, net.floods, INITIAL_TTL, f, degree);
      MulMonotone(|r|, degree, Weight(degree, INITIAL_TTL));
      NoLoadYet(net.flight, f, degree, net.floods);
    case Deliver(i) =>
      var c := net.flight[i];
      LoadWithout(net.flight, i, f, degree);
      var r := Forwarded(net, c);
      LoadOfSum(Without(net.flight, i), r, f, degree);
      LoadOfCopies(r, c.flood, NextTtl(c.ttl), f, degree);
      MulMonotone(|r|, degree, Weight(degree, NextTtl(c.ttl)));
    case Lose(i) =>
      LoadWithout(net.flight, i, f, degree);
    case _ =>
  }

  lemma {:induction false} NoLoadYet(flight: seq<Copy>, f: nat, degree: nat, floods: nat)
    requires forall k :: 0 <= k < |flight| ==> flight[k].flood < floods
    ensures f >= floods ==> Load(flight, f, degree) == 0
  {
    if flight != [] {
      NoLoadYet(flight[..|flight| - 1], f, degree, floods);
    }
  }

  // --- whole runs ----------------------------------------------------------------

  ghost predicate Possible(net: Net, run: seq<Step>, degree: nat)
    decreases |run|
  {
    run == [] || (Enabled(net, run[0], degree) && Possible(Apply(net, run[0], degree), run[1..], degree))
  }

  ghost function After(net: Net, run: seq<Step>, degree: nat): Net
    requires Possible(net, run, degree)
    decreases |run|
  {
    if run == [] then net else After(Apply(net, run[0], degree), run[1..], degree)
  }

  ghost function Deliveries(net: Net, run: seq<Step>, f: nat, degree: nat): nat
    requires Possible(net, run, degree)
    decreases |run|
  {
    if run == [] then 0
    else (if Delivers(net, run[0], f) then 1 else 0) + Deliveries(Apply(net, run[0], degree), run[1..], f, degree)
  }

  lemma {:induction false} RunKeepsInv(net: Net, run: seq<Step>, degree: nat)
    requires Inv(net, degree) && Possible(net, run, degree)
    ensures Inv(After(net, run, degree), degree)
    decreases |run|
  {
    if run != [] {
      StepKeepsInv(net, run[0], degree);
      RunKeepsInv(Apply(net, run[0], degree), run[1..], degree);
    }
  }

  /**
   Over any run, of whatever length, a flood is delivered at most as often as its
   load allows: records that time out and are learned again do not keep it alive.
   */
  lemma {:induction false} FloodDiesOut(net: Net, run: seq<Step>, f: nat, degree: nat)
    requires Inv(net, degree) && Possible(net, run, degree)
    ensures Deliveries(net, run, f, degree) + Load(After(net, run, degree).flight, f, degree)
         <= if f < net.floods then Load(net.flight, f, degree) else FloodBound(degree)
    decreases |run|
  {
    if run == [] {
      NoLoadYet(net.flight, f, degree, net.floods);
    } else {
      StepKeepsInv(net, run[0], degree);
      StepLoad(net, run[0], f, degree);
      NoLoadYet(net.flight, f, degree, net.floods);
      FloodDiesOut(Apply(net, run[0], degree), run[1..], f, degree);
    }
  }

  /** A copy that is not newer than what the receiver stored changes nothing and goes nowhere. */
  lemma StaleCopyIgnored(net: Net, i: nat, degree: nat)
    requires Enabled(net, Deliver(i), degree)
    requires var c := net.flight[i]; !Accepts(net.dbs[c.dst], c.dst, c.rid, c.seqno)
    ensures Apply(net, Deliver(i), degree) == net.(flight := Without(net.flight, i))
  {
    var c := net.flight[i];
    assert net.dbs[c.dst := net.dbs[c.dst]] == net.dbs;
    assert Without(net.flight, i) + [] == Without(net.flight, i);
  }

  /** Router `n` does not drop its record of `rid` during the run. */
  predicate Keeps(run: seq<Step>, n: U32, rid: U32) {
    forall k :: 0 <= k < |run| && run[k].Expire? && run[k].n == n ==> rid !in run[k].gone
  }

  /** While a record lives, the sequence number stored in it never decreases. */
  lemma {:induction false} SeqnoNeverDecreases(net: Net, run: seq<Step>, n: U32, rid: U32, degree: nat)
    requires Possible(net, run, degree) && Keeps(run, n, rid)
    requires n in net.dbs && rid in net.dbs[n] && rid != n
    ensures var after := After(net, run, degree);
            n in after.dbs && rid in after.dbs[n] && net.dbs[n][rid] <= after.dbs[n][rid]
    decreases |run|
  {
    if run != [] {
      var next := Apply(net, run[0], degree);
      assert n in next.dbs && rid in next.dbs[n] && net.dbs[n][rid] <= next.dbs[n][rid];
      SeqnoNeverDecreases(next, run[1..], n, rid, degree);
    }
  }

  /** Outside the invariant: a copy that arrives with TTL 0 is sent on with TTL 65535. */
  lemma ZeroTtlWraps(net: Net, i: nat, degree: nat)
    requires Enabled(net, Deliver(i), degree) && net.flight[i].ttl == 0
    requires var c := net.flight[i]; Accepts(net.dbs[c.dst], c.dst, c.rid, c.seqno)
    ensures var c := net.flight[i];
            forall x :: x in Forwarded(net, c) ==> x.ttl == 65535
    ensures var c := net.flight[i];
            Forwarded(net, c) == Broadcast(net.links[c.dst], c.(ttl := 65535), true)
  {
    assert NextTtl(0) == 65535;
  }

  // --- the broadcast loop ----------------------------------------------------------

  datatype Neighbour = Neighbour(ip: U32, node: U32)

  datatype IfaceEntry = IfaceEntry(ip: U32, isActive: bool, neighbours: seq<Neighbour>)

  function LinksOfIface(f: IfaceEntry): (r: seq<Link>)
    ensures |r| == |f.neighbours|
  {
    seq(|f.neighbours|, i requires 0 <= i < |f.neighbours| => Link(f.ip, f.neighbours[i].ip, f.neighbours[i].node))
  }

  /** The neighbours on active interfaces, in list order. */
  function LinksOf(ifaces: seq<IfaceEntry>): seq<Link> {
    if ifaces == [] then []
    else LinksOf(ifaces[..|ifaces| - 1]) +
         (if ifaces[|ifaces| - 1].isActive then LinksOfIface(ifaces[|ifaces| - 1]) else [])
  }

  lemma BroadcastNext(links: seq<Link>, l: Link, c: Copy, back: bool)
    ensures Broadcast(links + [l], c, back) ==
      if back && l.remoteIp == c.srcIp then Broadcast(links, c, back)
      else Broadcast(links, c, back) + [c.(srcIp := l.localIp, dst := l.node)]
  {
    assert (links + [l])[..|links|] == links;
  }

  lemma {:induction false} BroadcastOfSum(a: seq<Link>, b: seq<Link>, c: Copy, back: bool)
    ensures Broadcast(a + b, c, back) == Broadcast(a, c, back) + Broadcast(b, c, back)
  {
    if b == [] {
      assert a + b == a;
    } else {
      var n := |b| - 1;
      BroadcastOfSum(a, b[..n], c, back);
      assert (a + b)[..|a + b| - 1] == a + b[..n];
    }
  }

  /** What goes to neighbour `j` of interface `f` is `x`. */
  ghost predicate GoesTo(f: IfaceEntry, j: int, c: Copy, back: bool, x: Copy) {
    && 0 <= j < |f.neighbours|
    && !(back && f.neighbours[j].ip == c.srcIp)
    && x == c.(srcIp := f.ip, dst := f.neighbours[j].node)
  }

  /** Interface `i` and those of its first `k` neighbours to which copy `x` goes. */
  ghost function ServedOn(i: int, f: IfaceEntry, k: nat, c: Copy, back: bool, x: Copy): set<(int, int)>
    requires k <= |f.neighbours|
  {
    set j | 0 <= j < k && GoesTo(f, j, c, back, x) :: (i, j)
  }

  lemma ServedOneMore(i: int, f: IfaceEntry, k: nat, c: Copy, back: bool, x: Copy)
    requires k < |f.neighbours|
    ensures |ServedOn(i, f, k + 1, c, back, x)| == |ServedOn(i, f, k, c, back, x)| + (if GoesTo(f, k, c, back, x) then 1 else 0)
  {
    var was, now, last := ServedOn(i, f, k, c, back, x), ServedOn(i, f, k + 1, c, back, x), (i, k as int);
    assert last !in was;
    assert now - {last} == was;
    assert last in now <==> GoesTo(f, k, c, back, x);
  }

  lemma {:induction false} OneEach(i: int, f: IfaceEntry, k: nat, c: Copy, back: bool, x: Copy)
    requires k <= |f.neighbours|
    ensures multiset(Broadcast(LinksOfIface(f)[..k], c, back))[x] == |ServedOn(i, f, k, c, back, x)|
  {
    if k == 0 {
      assert ServedOn(i, f, k, c, back, x) == {};
    } else {
      var here := LinksOfIface(f);
      OneEach(i, f, k - 1, c, back, x);
      assert here[..k] == here[..k - 1] + [here[k - 1]];
      BroadcastNext(here[..k - 1], here[k - 1], c, back);
      ServedOneMore(i, f, k - 1, c, back, x);
    }
  }

  /** Interface and neighbour of every copy due that is `x`. */
  ghost function Served(ifaces: seq<IfaceEntry>, n: nat, c: Copy, back: bool, x: Copy): set<(int, int)>
    requires n <= |ifaces|
  {
    set i, j | 0 <= i < n && 0 <= j < |ifaces[i].neighbours| && ifaces[i].isActive && GoesTo(ifaces[i], j, c, back, x) :: (i, j)
  }

  lemma ServedNext(ifaces: seq<IfaceEntry>, n: nat, c: Copy, back: bool, x: Copy)
    requires n < |ifaces|
    ensures var f := ifaces[n];
            |Served(ifaces, n + 1, c, back, x)|
            == |Served(ifaces, n, c, back, x)| + (if f.isActive then |ServedOn(n, f, |f.neighbours|, c, back, x)| else 0)
  {
    var f := ifaces[n];
    var was, now := Served(ifaces, n, c, back, x), Served(ifaces, n + 1, c, back, x);
    if f.isActive {
      var added := ServedOn(n, f, |f.neighbours|, c, back, x);
      assert now == was + added && was !! added;
    } else {
      assert now == was;
    }
  }

  lemma LinksNext(ifaces: seq<IfaceEntry>, n: nat)
    requires n < |ifaces|
    ensures LinksOf(ifaces[..n + 1]) == LinksOf(ifaces[..n]) + (if ifaces[n].isActive then LinksOfIface(ifaces[n]) else [])
  {
    assert ifaces[..n + 1][..n] == ifaces[..n];
  }

  lemma CopiesOfSum(a: seq<Link>, b: seq<Link>, c: Copy, back: bool, x: Copy)
    ensures multiset(Broadcast(a + b, c, back))[x] == multiset(Broadcast(a, c, back))[x] + multiset(Broadcast(b, c, back))[x]
  {
    BroadcastOfSum(a, b, c, back);
  }

  lemma OneEachOn(i: int, f: IfaceEntry, c: Copy, back: bool, x: Copy)
    ensures multiset(Broadcast(LinksOfIface(f), c, back))[x] == |ServedOn(i, f, |f.neighbours|, c, back, x)|
  {
    OneEach(i, f, |f.neighbours|, c, back, x);
    assert LinksOfIface(f)[..|f.neighbours|] == LinksOfIface(f);
  }

  lemma OneForEachNext(ifaces: seq<IfaceEntry>, n: nat, c: Copy, back: bool, x: Copy)
    requires n < |ifaces|
    requires multiset(Broadcast(LinksOf(ifaces[..n]), c, back))[x] == |Served(ifaces, n, c, back, x)|
    ensures multiset(Broadcast(LinksOf(ifaces[..n + 1]), c, back))[x] == |Served(ifaces, n + 1, c, back, x)|
  {
    LinksNext(ifaces, n);
    ServedNext(ifaces, n, c, back, x);
    if ifaces[n].isActive {
      CopiesOfSum(LinksOf(ifaces[..n]), LinksOfIface(ifaces[n]), c, back, x);
      OneEachOn(n, ifaces[n], c, back, x);
    } else {
      assert LinksOf(ifaces[..n]) + [] == LinksOf(ifaces[..n]);
    }
  }

  lemma {:induction false} OneForEach(ifaces: seq<IfaceEntry>, n: nat, c: Copy, back: bool, x: Copy)
    requires n <= |ifaces|
    ensures multiset(Broadcast(LinksOf(ifaces[..n]), c, back))[x] == |Served(ifaces, n, c, back, x)|
  {
    if n == 0 {
      assert Served(ifaces, n, c, back, x) == {};
    } else {
      OneForEach(ifaces, n - 1, c, back, x);
      OneForEachNext(ifaces, n - 1, c, back, x);
    }
  }

  lemma LinksOfIfaceMembers(f: IfaceEntry, l: Link)
    ensures l in LinksOfIface(f) <==> exists nb :: nb in f.neighbours && l == Link(f.ip, nb.ip, nb.node)
  {
    var here := LinksOfIface(f);
    if l in here {
      var k :| 0 <= k < |here| && here[k] == l;
      assert f.neighbours[k] in f.neighbours;
    }
    if exists nb :: nb in f.neighbours && l == Link(f.ip, nb.ip, nb.node) {
      var nb :| nb in f.neighbours && l == Link(f.ip, nb.ip, nb.node);
      var k :| 0 <= k < |f.neighbours| && f.neighbours[k] == nb;
      assert here[k] == l;
    }
  }

  lemma {:induction false} LinksMembers(ifaces: seq<IfaceEntry>, l: Link)
    ensures l in LinksOf(ifaces) <==> exists f :: f in ifaces && f.isActive && l in LinksOfIface(f)
  {
    if ifaces != [] {
      var n := |ifaces| - 1;
      LinksMembers(ifaces[..n], l);
      assert ifaces == ifaces[..n] + [ifaces[n]];
    }
  }

  lemma QueueMembers(ifaces: seq<IfaceEntry>, c: Copy, back: bool, x: Copy)
    ensures x in Broadcast(LinksOf(ifaces), c, back) <==>
      exists f, nb :: f in ifaces && f.isActive && nb in f.neighbours && !(back && nb.ip == c.srcIp)
        && x == c.(srcIp := f.ip, dst := nb.node)
  {
    var links := LinksOf(ifaces);
    BroadcastMembers(links, c, back, x);
    if x in Broadcast(links, c, back) {
      var k :| 0 <= k < |links| && !(back && links[k].remoteIp == c.srcIp) && x == c.(srcIp := links[k].localIp, dst := links[k].node);
      LinksMembers(ifaces, links[k]);
      var f :| f in ifaces && f.isActive && links[k] in LinksOfIface(f);
      LinksOfIfaceMembers(f, links[k]);
    }
    if exists f, nb :: f in ifaces && f.isActive && nb in f.neighbours && !(back && nb.ip == c.srcIp)
         && x == c.(srcIp := f.ip, dst := nb.node)
    {
      var f, nb :| f in ifaces && f.isActive && nb in f.neighbours && !(back && nb.ip == c.srcIp)
        && x == c.(srcIp := f.ip, dst := nb.node);
      LinksMembers(ifaces, Link(f.ip, nb.ip, nb.node));
      LinksOfIfaceMembers(f, Link(f.ip, nb.ip, nb.node));
      var k :| 0 <= k < |links| && links[k] == Link(f.ip, nb.ip, nb.node);
    }
  }

  method BroadcastOnIface(f: IfaceEntry, c: Copy, back: bool, sent: seq<Copy>, ghost done: seq<Link>) returns (queue: seq<Copy>)
    requires sent == Broadcast(done, c, back)
    ensures queue == Broadcast(done + LinksOfIface(f), c, back)
  {
    ghost var here := LinksOfIface(f);
    queue := sent;
    assert done + here[..0] == done;
    for k := 0 to |f.neighbours|
      invariant queue == Broadcast(done + here[..k], c, back)
    {
      assert done + here[..k + 1] == (done + here[..k]) + [here[k]];
      BroadcastNext(done + here[..k], here[k], c, back);
      if !back || c.srcIp != f.neighbours[k].ip {
        queue := queue + [c.(srcIp := f.ip, dst := f.neighbours[k].node)];
      }
    }
    assert here[..|here|] == here;
  }

  /** Queues one copy for every neighbour on an active interface, except the sender of the original. */
  method BroadcastLsu(ifaces: seq<IfaceEntry>, c: Copy, back: bool) returns (queue: seq<Copy>)
    ensures queue == Broadcast(LinksOf(ifaces), c, back)
    ensures forall x :: x in queue <==>
      exists f, nb :: f in ifaces && f.isActive && nb in f.neighbours && !(back && nb.ip == c.srcIp)
        && x == c.(srcIp := f.ip, dst := nb.node)
    ensures forall x :: multiset(queue)[x] == |Served(ifaces, |ifaces|, c, back, x)|
  {
    forall x: Copy
      ensures x in Broadcast(LinksOf(ifaces), c, back) <==>
        exists f, nb :: f in ifaces && f.isActive && nb in f.neighbours && !(back && nb.ip == c.srcIp)
          && x == c.(srcIp := f.ip, dst := nb.node)
      ensures multiset(Broadcast(LinksOf(ifaces), c, back))[x] == |Served(ifaces, |ifaces|, c, back, x)|
    {
      QueueMembers(ifaces, c, back, x);
      OneForEach(ifaces, |ifaces|, c, back, x);
      assert ifaces[..|ifaces|] == ifaces;
    }
    queue := [];
    for i := 0 to |ifaces|
      invariant queue == Broadcast(LinksOf(ifaces[..i]), c, back)
    {
      var f := ifaces[i];
      assert ifaces[..i + 1][..i] == ifaces[..i];
      if f.isActive && |f.neighbours| != 0 {
        queue := BroadcastOnIface(f, c, back, queue, LinksOf(ifaces[..i]));
      } else {
        assert LinksOf(ifaces[..i + 1]) == LinksOf(ifaces[..i]);
      }
    }
    assert ifaces[..|ifaces|] == ifaces;
  }
}
