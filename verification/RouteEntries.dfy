/**
 From the wrapper list to routing table entries: each prefix gets an interface
 and a gateway from our own interface list. With this the computation is complete, from the
 link-state database to the rows of the hardware.
 */
module RouteEntries {
  import opened Numbers
  import opened HopGraph
  import opened Labels
  import opened ShortestPaths
  import opened Dijkstra
  import opened RouteWrappers
  import opened RouteBuilder
  import opened RouteOrder
  import opened LongestPrefix
  import opened RoutingTable

  /** A router seen on one of our interfaces. */
  datatype Neighbour = Neighbour(rid: U32, ip: U32)

  /** One of our interfaces. */
  datatype Port = Port(name: string, ip: U32, mask: U32, neighbours: seq<Neighbour>)

  function NeighbourAt(ns: seq<Neighbour>, rid: U32): (n: int)
    ensures n == -1 ==> forall k :: 0 <= k < |ns| ==> ns[k].rid != rid
    ensures n != -1 ==> 0 <= n < |ns| && ns[n].rid == rid && forall k :: 0 <= k < n ==> ns[k].rid != rid
  {
    if ns == [] then -1
    else if ns[0].rid == rid then 0
    else
      var k := NeighbourAt(ns[1..], rid);
      if k == -1 then -1 else k + 1
  }

  predicate Sees(p: Port, rid: U32) {
    NeighbourAt(p.neighbours, rid) != -1
  }

  predicate OnSubnet(p: Port, x: Prefix) {
    Under(p.ip, p.mask) == x.ip && p.mask == x.mask
  }

  /** The first interface on which router `rid` is seen; no router has id 0. */
  function PortByRid(ports: seq<Port>, rid: U32): (at: int)
    ensures at == -1 <==> rid == 0 || forall k :: 0 <= k < |ports| ==> !Sees(ports[k], rid)
    ensures at != -1 ==> 0 <= at < |ports| && Sees(ports[at], rid) && forall k :: 0 <= k < at ==> !Sees(ports[k], rid)
    decreases |ports|
  {
    if rid == 0 || ports == [] then -1
    else if Sees(ports[0], rid) then 0
    else
      var k := PortByRid(ports[1..], rid);
      if k == -1 then -1 else k + 1
  }

  function PortBySubnet(ports: seq<Port>, x: Prefix): (at: int)
    ensures at == -1 <==> forall k :: 0 <= k < |ports| ==> !OnSubnet(ports[k], x)
    ensures at != -1 ==> 0 <= at < |ports| && OnSubnet(ports[at], x) && forall k :: 0 <= k < at ==> !OnSubnet(ports[k], x)
  {
    if ports == [] then -1
    else if OnSubnet(ports[0], x) then 0
    else
      var k := PortBySubnet(ports[1..], x);
      if k == -1 then -1 else k + 1
  }

  /** What becomes of a wrapper: no interface is found for it, an assertion fails, or an entry is made. */
  datatype Outcome = Skipped | Fails | Becomes(entry: Entry)

  /** The interface found for a wrapper: one that sees the next router, or one with the subnet, or -1. */
  function PortFor(ports: seq<Port>, w: Wrapper): (at: int)
    ensures -1 <= at < |ports|
  {
    var at := PortByRid(ports, w.nextRid);
    if at != -1 then at else PortBySubnet(ports, w.prefix)
  }

  function OutcomeOf(ports: seq<Port>, w: Wrapper): Outcome {
    var at := PortFor(ports, w);
    if at == -1 then Skipped
    else if w.direct then Becomes(EntryOn(ports[at], w, 0))
    else
      var n := NeighbourAt(ports[at].neighbours, w.nextRid);
      if n == -1 then Fails else Becomes(EntryOn(ports[at], w, ports[at].neighbours[n].ip))
  }

  function EntryOn(p: Port, w: Wrapper, gw: U32): Entry {
    Entry(w.prefix.ip, gw, w.prefix.mask, p.name, false, true)
  }

  /** The entries made, in list order. */
  function Entries(ports: seq<Port>, ws: seq<Wrapper>): Table {
    if ws == [] then []
    else
      var rest, o := Entries(ports, ws[..|ws| - 1]), OutcomeOf(ports, ws[|ws| - 1]);
      if o.Becomes? then rest + [o.entry] else rest
  }

  ghost predicate SomeFails(ports: seq<Port>, ws: seq<Wrapper>) {
    exists a :: 0 <= a < |ws| && OutcomeOf(ports, ws[a]).Fails?
  }

  // --- which wrappers fail ------------------------------------------------------------

  lemma FailsExactly(ports: seq<Port>, w: Wrapper)
    ensures OutcomeOf(ports, w).Fails? <==>
      && !w.direct
      && PortByRid(ports, w.nextRid) == -1
      && PortBySubnet(ports, w.prefix) != -1
      && !Sees(ports[PortBySubnet(ports, w.prefix)], w.nextRid)
  {
  }

  /** Our interface list knows every router that our own record names on an active interface. */
  ghost predicate Informed(ports: seq<Port>, ours: seq<Interface>) {
    forall k :: 0 <= k < |ours| && ours[k].isActive && ours[k].routerId != 0 ==> PortByRid(ports, ours[k].routerId) != -1
  }

  /** A gateway for `w`: the address of a neighbour, on the interface of entry `e`, that is the next router. */
  ghost predicate LeadsTo(ports: seq<Port>, e: Entry, rid: U32) {
    exists a, n ::
      && 0 <= a < |ports| && 0 <= n < |ports[a].neighbours|
      && ports[a].name == e.iface && ports[a].neighbours[n] == Neighbour(rid, e.gw)
  }

  /**
   A route through a reachable router other than us becomes an active entry whose
   gateway is the first router of a shortest path to it.
   */
  lemma ReachableBecomes(ports: seq<Port>, w: Wrapper, st: Labelling, g: Graph, us: nat, run: nat, x: Adv)
    requires Settled(st, g, us, run) && Informed(ports, g[us].interfaces)
    requires Made(g, x) && Holds(w, OfferOf(st, g, us, run, x)) && x.router != us && Reachable(g, us, x.router)
    ensures st[x.router].prev != NONE
    ensures var o, first := OutcomeOf(ports, w), FirstHop(st, us, run, x.router);
            && o.Becomes? && Edge(g, us, first) && st[first].distance == 1
            && o.entry.ip == w.prefix.ip && o.entry.mask == w.prefix.mask
            && o.entry.isActive && !o.entry.isStatic
            && LeadsTo(ports, o.entry, g[first].id)
  {
    SettledIsShortest(st, g, us, run, x.router);
    RouteIsShortest(st, g, us, run, x.router);
    var first := FirstHop(st, us, run, x.router);
    var j :| 0 <= j < |g[us].interfaces| && Names(g[us].interfaces[j], g[first].id);
    NeighbourBecomes(ports, w);
  }

  lemma NeighbourBecomes(ports: seq<Port>, w: Wrapper)
    requires PortByRid(ports, w.nextRid) != -1 && !w.direct
    ensures var o := OutcomeOf(ports, w);
            && o.Becomes? && o.entry.ip == w.prefix.ip && o.entry.mask == w.prefix.mask
            && o.entry.isActive && !o.entry.isStatic
            && LeadsTo(ports, o.entry, w.nextRid)
  {
    var at := PortByRid(ports, w.nextRid);
    var n := NeighbourAt(ports[at].neighbours, w.nextRid);
    assert ports[at].neighbours[n] == Neighbour(w.nextRid, OutcomeOf(ports, w).entry.gw);
  }

  /** `v` is unreachable, or too far for the 16-bit distance to tell. */
  ghost predicate Far(g: Graph, us: nat, v: nat)
    requires us < |g| && v < |g|
  {
    forall k: nat :: Walk(g, us, v, k) ==> k >= U16_SIZE - 1
  }

  lemma FarIsLabelled(st: Labelling, g: Graph, us: nat, run: nat, v: nat)
    requires Settled(st, g, us, run) && v < |g|
    ensures Far(g, us, v) <==> st[v].distance >= U16_SIZE - 1
  {
    SettledIsShortest(st, g, us, run, v);
    if st[v].distance != INFINITE {
      assert Walk(g, us, v, st[v].distance);
    }
  }

  /** With fewer than 65535 routers, only unreachable ones are too far. */
  lemma FarIsUnreachable(st: Labelling, g: Graph, us: nat, run: nat, v: nat)
    requires Settled(st, g, us, run) && Small(g) && v < |g|
    ensures Far(g, us, v) <==> !Reachable(g, us, v)
  {
    FarIsLabelled(st, g, us, run, v);
    SettledIsShortest(st, g, us, run, v);
    FoundIdsBound(st, g);
    assert Labelled(st, g, us, run, v);
  }

  /** The first advertiser of `p` is unreachable, and no other is near enough to replace it. */
  ghost predicate Abandoned(g: Graph, us: nat, p: Prefix)
    requires us < |g|
  {
    var xs := Advertisers(g, p);
    && xs != [] && AllMade(g, xs)
    && !Reachable(g, us, xs[0].router)
    && (forall n :: 0 <= n < |xs| ==> Far(g, us, xs[n].router))
  }

  lemma FarAdvertisers(st: Labelling, g: Graph, us: nat, run: nat, xs: seq<Adv>)
    requires Settled(st, g, us, run) && AllMade(g, xs)
    ensures (forall n :: 0 <= n < |xs| ==> Far(g, us, xs[n].router)) <==>
      (forall n :: 0 <= n < |xs| ==> HopsOf(st, g, xs)[n] >= U16_SIZE - 1)
  {
    forall n | 0 <= n < |xs| ensures Far(g, us, xs[n].router) <==> HopsOf(st, g, xs)[n] >= U16_SIZE - 1 {
      FarIsLabelled(st, g, us, run, xs[n].router);
    }
  }

  lemma HeldUnreachable(ds: seq<U32>)
    requires ds != []
    ensures ds[HeldAt(ds)] == INFINITE <==> ds[0] == INFINITE && forall n :: 0 <= n < |ds| ==> ds[n] >= U16_SIZE - 1
    ensures ds[HeldAt(ds)] == INFINITE ==> HeldAt(ds) == 0
  {
    HeldBeatsEarlier(ds);
    TruncatedBound(ds[0]);
    assert Truncated(INFINITE) == U16_SIZE - 1;
    if HeldAt(ds) == 0 {
      KeptFirst(ds);
    }
  }

  /** A route is towards an unreachable advertiser exactly if its prefix is abandoned, and then towards the first. */
  lemma AbandonedIsChosen(st: Labelling, g: Graph, us: nat, run: nat, p: Prefix)
    requires Settled(st, g, us, run) && Advertisers(g, p) != []
    ensures !Reachable(g, us, Chosen(st, g, p).router) <==> Abandoned(g, us, p)
    ensures Abandoned(g, us, p) ==> Chosen(st, g, p) == Advertisers(g, p)[0]
  {
    var xs := Advertisers(g, p);
    AdvertisersAre(g, p);
    var ds := HopsOf(st, g, xs);
    HeldUnreachable(ds);
    FarAdvertisers(st, g, us, run, xs);
    SettledIsShortest(st, g, us, run, xs[0].router);
    SettledIsShortest(st, g, us, run, Chosen(st, g, p).router);
  }

  /**
   What makes the assertion fail: an abandoned prefix that is a subnet of our
   own, while the next router that its first advertiser's record leads to is
   seen on none of our interfaces, nor on the one with that subnet.
   */
  ghost predicate Strands(ports: seq<Port>, st: Labelling, g: Graph, us: nat, run: nat, p: Prefix)
    requires |g| == |st| && Chained(st, us, run)
  {
    && Abandoned(g, us, p)
    && PortBySubnet(ports, p) != -1
    && var rid := OfferOf(st, g, us, run, Advertisers(g, p)[0]).nextRid;
       PortByRid(ports, rid) == -1 && !Sees(ports[PortBySubnet(ports, p)], rid)
  }

  /**
   What makes the assertion fail for any database and interface list: a subnet of
   our own, advertised by others, while the next router on the way to the
   advertiser chosen for it is seen on none of our interfaces, nor on the one
   with that subnet.
   */
  ghost predicate Unserved(ports: seq<Port>, st: Labelling, g: Graph, us: nat, run: nat, p: Prefix)
    requires |g| == |st| && Chained(st, us, run)
  {
    && Advertisers(g, p) != []
    && PortBySubnet(ports, p) != -1
    && Chosen(st, g, p).router != us
    && var rid := OfferOf(st, g, us, run, Chosen(st, g, p)).nextRid;
       PortByRid(ports, rid) == -1 && !Sees(ports[PortBySubnet(ports, p)], rid)
  }

  /** The assertion of the computation fails exactly if some prefix is unserved. */
  lemma FailsIff(ports: seq<Port>, st: Labelling, g: Graph, us: nat, run: nat)
    requires Settled(st, g, us, run)
    ensures SomeFails(ports, TakenAll(AllOffers(st, g, us, run))) <==> exists p :: Unserved(ports, st, g, us, run, p)
  {
    var ws := TakenAll(AllOffers(st, g, us, run));
    if a :| 0 <= a < |ws| && OutcomeOf(ports, ws[a]).Fails? {
      WrapperIsChosen(st, g, us, run, a);
      FailsExactly(ports, ws[a]);
      assert Unserved(ports, st, g, us, run, ws[a].prefix);
    }
    if p :| Unserved(ports, st, g, us, run, p) {
      var a := AdvertisedIsWrapped(st, g, us, run, p);
      FailsExactly(ports, ws[a]);
    }
  }

  /** If our interface list knows the neighbours our record names, only abandoned prefixes are unserved. */
  lemma UnservedIsStranded(ports: seq<Port>, st: Labelling, g: Graph, us: nat, run: nat, p: Prefix)
    requires Settled(st, g, us, run) && Informed(ports, g[us].interfaces)
    ensures Unserved(ports, st, g, us, run, p) <==> Strands(ports, st, g, us, run, p)
  {
    if Advertisers(g, p) != [] {
      var x := Chosen(st, g, p);
      AbandonedIsChosen(st, g, us, run, p);
      assert Walk(g, us, us, 0);
      if x.router != us && Reachable(g, us, x.router) {
        ReachableBecomes(ports, Unseen(OfferOf(st, g, us, run, x)), st, g, us, run, x);
        FailsExactly(ports, Unseen(OfferOf(st, g, us, run, x)));
      }
    }
  }

  /** Then the assertion fails exactly for databases and interfaces that strand some prefix. */
  lemma FailsIffStranded(ports: seq<Port>, st: Labelling, g: Graph, us: nat, run: nat)
    requires Settled(st, g, us, run) && Informed(ports, g[us].interfaces)
    ensures SomeFails(ports, TakenAll(AllOffers(st, g, us, run))) <==> exists p :: Strands(ports, st, g, us, run, p)
  {
    FailsIff(ports, st, g, us, run);
    if p :| Unserved(ports, st, g, us, run, p) {
      UnservedIsStranded(ports, st, g, us, run, p);
    }
    if p :| Strands(ports, st, g, us, run, p) {
      UnservedIsStranded(ports, st, g, us, run, p);
    }
  }

  // --- a database on which it fails -------------------------------------------------------

  const TEN: U32 := 0x0A000000
  const ELEVEN: U32 := 0x0B000000
  const EIGHT_BITS: U32 := 0xFF000000

  /** Our only link, 10.0.0.0/8, has been taken down after its neighbour had timed out; router 2 still advertises it. */
  ghost function LinkDown(): Graph {
    [Node(1, []), Node(2, [Interface(TEN, EIGHT_BITS, 1, true)])]
  }

  ghost function LonelyPort(): Port {
    Port("eth0", 0x0A000001, EIGHT_BITS, [])
  }

  lemma {:induction false} NoWayOut(g: Graph, us: nat, v: nat, n: nat)
    requires us < |g| && v < |g| && g[us].interfaces == []
    ensures Walk(g, us, v, n) ==> v == us
    decreases n
  {
    if n != 0 && Walk(g, us, v, n) {
      var u :| 0 <= u < |g| && Walk(g, us, u, n - 1) && Edge(g, u, v);
      NoWayOut(g, us, u, n - 1);
    }
  }

  lemma OneAdvertiser(p: Prefix)
    requires p == Prefix(TEN, EIGHT_BITS)
    ensures Advertisers(LinkDown(), p) == [Adv(1, 0)]
  {
    var g := LinkDown();
    UnderEightBits(0x0A, 0);
    assert PrefixOf(g[1].interfaces[0]) == p;
    assert AdvertisersUpTo(g, p, 0, 0) == [];
    assert AdvertisersUpTo(g, p, 1, 0) == [];
    assert AdvertisersUpTo(g, p, 1, 1) == [Adv(1, 0)];
  }

  /** Whatever earlier runs left in the labels, the next computation fails. */
  lemma LinkDownFails(st: Labelling, run: nat)
    requires Settled(st, LinkDown(), 0, run)
    ensures Informed([LonelyPort()], LinkDown()[0].interfaces)
    ensures SomeFails([LonelyPort()], TakenAll(AllOffers(st, LinkDown(), 0, run)))
  {
    var g, p := LinkDown(), Prefix(TEN, EIGHT_BITS);
    OneAdvertiser(p);
    forall n: nat ensures !Walk(g, 0, 1, n) {
      NoWayOut(g, 0, 1, n);
    }
    UnderEightBits(0x0A, 1);
    assert OnSubnet(LonelyPort(), p);
    assert Strands([LonelyPort()], st, g, 0, run, p);
    FailsIffStranded([LonelyPort()], st, g, 0, run);
  }

  lemma {:induction false} EntriesMember(ports: seq<Port>, ws: seq<Wrapper>, a: nat)
    requires a < |ws| && OutcomeOf(ports, ws[a]).Becomes?
    ensures OutcomeOf(ports, ws[a]).entry in Entries(ports, ws)
  {
    var n := |ws| - 1;
    if a < n {
      EntriesMember(ports, ws[..n], a);
      assert ws[..n][a] == ws[a];
    }
  }

  lemma {:induction false} EntriesOrigin(ports: seq<Port>, ws: seq<Wrapper>, e: Entry) returns (a: nat)
    requires e in Entries(ports, ws)
    ensures a < |ws| && OutcomeOf(ports, ws[a]) == Becomes(e)
  {
    var n := |ws| - 1;
    if OutcomeOf(ports, ws[n]) == Becomes(e) {
      a := n;
    } else {
      a := EntriesOrigin(ports, ws[..n], e);
    }
  }

  predicate IsFor(e: Entry, p: Prefix) {
    e.ip == p.ip && e.mask == p.mask
  }

  /** A prefix has one entry: the one its wrapper becomes. */
  lemma OnlyEntry(ports: seq<Port>, st: Labelling, g: Graph, us: nat, run: nat, p: Prefix, e: Entry)
    requires Settled(st, g, us, run) && e in Entries(ports, TakenAll(AllOffers(st, g, us, run))) && IsFor(e, p)
    ensures Advertisers(g, p) != []
    ensures OutcomeOf(ports, Unseen(OfferOf(st, g, us, run, Chosen(st, g, p)))) == Becomes(e)
  {
    var ws := TakenAll(AllOffers(st, g, us, run));
    var a := EntriesOrigin(ports, ws, e);
    WrapperIsChosen(st, g, us, run, a);
  }

  /** With fewer than 65535 routers the chosen advertiser is a nearest one, and no nearest one is listed before it. */
  lemma ChosenIsNearest(st: Labelling, g: Graph, us: nat, run: nat, p: Prefix)
    requires Settled(st, g, us, run) && Small(g) && Advertisers(g, p) != []
    ensures Nearest(st, g, p, Chosen(st, g, p))
    ensures forall y :: Nearest(st, g, p, y) && y != Chosen(st, g, p) ==> Precedes(Chosen(st, g, p), y.router, y.index)
  {
    var xs := Advertisers(g, p);
    AdvertisersAre(g, p);
    var ds := HopsOf(st, g, xs);
    SmallHops(st, g, us, run, xs);
    SaneHeld(ds);
    NearestInList(st, g, p, HeldAt(ds));
    AdvertisersInOrder(g, p, |g|, 0);
    forall y | Nearest(st, g, p, y) && y != Chosen(st, g, p) ensures Precedes(Chosen(st, g, p), y.router, y.index) {
      var n :| 0 <= n < |xs| && xs[n] == y;
      HeldBeatsEarlier(ds);
    }
  }

  lemma SmallHops(st: Labelling, g: Graph, us: nat, run: nat, xs: seq<Adv>)
    requires Settled(st, g, us, run) && Small(g) && AllMade(g, xs)
    ensures var ds := HopsOf(st, g, xs); forall n :: 0 <= n < |ds| ==> ds[n] == INFINITE || ds[n] < U16_SIZE - 1
  {
    var ds := HopsOf(st, g, xs);
    forall n | 0 <= n < |ds| ensures ds[n] == INFINITE || ds[n] < U16_SIZE - 1 {
      OffersAreSane(st, g, us, run, xs[n]);
    }
  }

  lemma SaneHeld(ds: seq<U32>)
    requires ds != [] && forall n :: 0 <= n < |ds| ==> ds[n] == INFINITE || ds[n] < U16_SIZE - 1
    ensures NearestAt(ds, HeldAt(ds))
  {
    HeldIsNearest(ds);
    assert Truncated(INFINITE) == U16_SIZE - 1;
  }

  /** Entry `e` for `p` is active and leads to the first router of a shortest path to `x`. */
  ghost predicate RoutedTo(ports: seq<Port>, st: Labelling, g: Graph, us: nat, run: nat, p: Prefix, x: Adv, e: Entry)
    requires |g| == |st| && Chained(st, us, run) && Made(g, x)
  {
    && e.ip == p.ip && e.mask == p.mask && e.isActive
    && st[x.router].prev != NONE
    && Edge(g, us, FirstHop(st, us, run, x.router))
    && LeadsTo(ports, e, g[FirstHop(st, us, run, x.router)].id)
  }

  /** What becomes of a prefix of our own, advertised as `x`: where it is routed, and whether to the interface with the subnet. */
  ghost predicate RoutedOn(ports: seq<Port>, g: Graph, us: nat, p: Prefix, x: Adv, table: Table)
    requires us < |g| && Made(g, x)
  {
    var seen, own := PortByRid(ports, g[x.router].interfaces[x.index].routerId), PortBySubnet(ports, p);
    var at := if seen != -1 then seen else own;
    at != -1 ==>
      && Entry(p.ip, 0, p.mask, ports[at].name, false, true) in table
      && (OnSubnet(ports[at], p) <==> seen == -1 || OnSubnet(ports[seen], p))
  }

  lemma OwnIsRouted(ports: seq<Port>, st: Labelling, g: Graph, us: nat, run: nat, p: Prefix)
    requires Settled(st, g, us, run) && Advertisers(g, p) != [] && Chosen(st, g, p).router == us
    ensures RoutedOn(ports, g, us, p, Chosen(st, g, p), Entries(ports, TakenAll(AllOffers(st, g, us, run))))
  {
    var ws := TakenAll(AllOffers(st, g, us, run));
    var a := AdvertisedIsWrapped(st, g, us, run, p);
    assert Ranked(st, us, run, us);
    if OutcomeOf(ports, ws[a]).Becomes? {
      EntriesMember(ports, ws, a);
    }
  }

  lemma OtherIsRouted(ports: seq<Port>, st: Labelling, g: Graph, us: nat, run: nat, p: Prefix) returns (e: Entry)
    requires Settled(st, g, us, run) && Informed(ports, g[us].interfaces)
    requires Advertisers(g, p) != [] && Chosen(st, g, p).router != us && Reachable(g, us, Chosen(st, g, p).router)
    ensures e in Entries(ports, TakenAll(AllOffers(st, g, us, run)))
    ensures RoutedTo(ports, st, g, us, run, p, Chosen(st, g, p), e)
  {
    var ws := TakenAll(AllOffers(st, g, us, run));
    var a := AdvertisedIsWrapped(st, g, us, run, p);
    ReachableBecomes(ports, ws[a], st, g, us, run, Chosen(st, g, p));
    EntriesMember(ports, ws, a);
    e := OutcomeOf(ports, ws[a]).entry;
  }

  /**
   Every prefix that a reachable router advertises. If we do not advertise it
   ourselves it is in the computed table, with a neighbour of ours as gateway
   that begins a shortest path to a nearest advertiser. If we do, it is in the
   table without a gateway, on the interface that sees the neighbour of our
   first advertisement of it, or failing that on the interface with the subnet.
   */
  lemma ReachablePrefixIsRouted(ports: seq<Port>, st: Labelling, g: Graph, us: nat, run: nat, y: Adv)
    requires Settled(st, g, us, run) && Small(g) && Informed(ports, g[us].interfaces)
    requires Made(g, y) && Reachable(g, us, y.router)
    ensures var p := PrefixOf(g[y.router].interfaces[y.index]);
            var table := Entries(ports, TakenAll(AllOffers(st, g, us, run)));
            && Advertisers(g, p) != []
            && Nearest(st, g, p, Chosen(st, g, p))
            && (y.router == us ==> Chosen(st, g, p).router == us && Chosen(st, g, p).index <= y.index)
            && (if Chosen(st, g, p).router == us then RoutedOn(ports, g, us, p, Chosen(st, g, p), table)
                else exists e :: e in table && RoutedTo(ports, st, g, us, run, p, Chosen(st, g, p), e))
  {
    var p := PrefixOf(g[y.router].interfaces[y.index]);
    AdvertisersAre(g, p);
    assert Advertises(g, p, y);
    ChosenIsNearest(st, g, us, run, p);
    var x := Chosen(st, g, p);
    SettledIsShortest(st, g, us, run, y.router);
    SettledIsShortest(st, g, us, run, x.router);
    if y.router == us && x != y {
      assert Nearest(st, g, p, y);
    }
    if x.router == us {
      OwnIsRouted(ports, st, g, us, run, p);
    } else {
      var e := OtherIsRouted(ports, st, g, us, run, p);
    }
  }

  // --- two links to one neighbour -------------------------------------------------------------

  /** Routers 1 and 2 share 10.0.0.0/8 and 11.0.0.0/8. */
  ghost function TwoLinks(): Graph {
    [Node(1, [Interface(TEN, EIGHT_BITS, 2, true), Interface(ELEVEN, EIGHT_BITS, 2, true)]),
     Node(2, [Interface(TEN, EIGHT_BITS, 1, true), Interface(ELEVEN, EIGHT_BITS, 1, true)])]
  }

  ghost function TwoPorts(): seq<Port> {
    [Port("eth0", 0x0A000001, EIGHT_BITS, [Neighbour(2, 0x0A000002)]),
     Port("eth1", 0x0B000001, EIGHT_BITS, [Neighbour(2, 0x0B000002)])]
  }

  /** Our first advertisement of a prefix is the one chosen for it. */
  lemma FirstOwnChosen(st: Labelling, g: Graph, us: nat, run: nat, p: Prefix, y: Adv)
    requires Settled(st, g, us, run) && Small(g) && Advertises(g, p, y) && y.router == us
    requires forall k: nat :: k < y.index ==> !Advertises(g, p, Adv(us, k))
    ensures Advertisers(g, p) != [] && Chosen(st, g, p) == y
  {
    AdvertisersAre(g, p);
    ChosenIsNearest(st, g, us, run, p);
    var x := Chosen(st, g, p);
    SettledIsShortest(st, g, us, run, x.router);
    assert Advertises(g, p, x) && x == Adv(us, x.index);
    assert Nearest(st, g, p, y);
  }

  lemma SecondLinkAdvertised()
    ensures var p := Prefix(ELEVEN, EIGHT_BITS);
            Advertises(TwoLinks(), p, Adv(0, 1)) && !Advertises(TwoLinks(), p, Adv(0, 0))
  {
    UnderEightBits(0x0A, 0);
    UnderEightBits(0x0B, 0);
  }

  lemma FirstPortSees()
    ensures PortByRid(TwoPorts(), 2) == 0
    ensures var p := Prefix(ELEVEN, EIGHT_BITS); !OnSubnet(TwoPorts()[0], p) && OnSubnet(TwoPorts()[1], p)
  {
    UnderEightBits(0x0A, 1);
    UnderEightBits(0x0B, 1);
    assert Sees(TwoPorts()[0], 2);
  }

  /** The second link's own prefix is routed to the first link, where nobody has an address in it. */
  lemma SecondLinkMisrouted(st: Labelling, run: nat)
    requires Settled(st, TwoLinks(), 0, run)
    ensures Entry(ELEVEN, 0, EIGHT_BITS, "eth0", false, true)
         in Entries(TwoPorts(), TakenAll(AllOffers(st, TwoLinks(), 0, run)))
    ensures var p := Prefix(ELEVEN, EIGHT_BITS); !OnSubnet(TwoPorts()[0], p) && OnSubnet(TwoPorts()[1], p)
  {
    FirstPortSees();
    SecondLinkAdvertised();
    FirstOwnChosen(st, TwoLinks(), 0, run, Prefix(ELEVEN, EIGHT_BITS), Adv(0, 1));
    OwnIsRouted(TwoPorts(), st, TwoLinks(), 0, run, Prefix(ELEVEN, EIGHT_BITS));
  }

  // --- the loop ------------------------------------------------------------------------------

  method Resolve(ports: seq<Port>, w: Wrapper) returns (o: Outcome)
    ensures o == OutcomeOf(ports, w)
  {
    var at := PortByRid(ports, w.nextRid);
    if at == -1 {
      at := PortBySubnet(ports, w.prefix);
      if at == -1 {
        return Skipped;
      }
    }
    if w.direct {
      return Becomes(EntryOn(ports[at], w, 0));
    }
    var n := NeighbourAt(ports[at].neighbours, w.nextRid);
    if n == -1 {
      return Fails;
    }
    return Becomes(EntryOn(ports[at], w, ports[at].neighbours[n].ip));
  }

  /** The entries for a wrapper list, unless an assertion fails on the way. */
  method ResolveAll(ports: seq<Port>, ws: seq<Wrapper>) returns (table: Table, failed: bool)
    ensures failed <==> SomeFails(ports, ws)
    ensures !failed ==> table == Entries(ports, ws)
  {
    table := [];
    var a := 0;
    while a < |ws|
      invariant 0 <= a <= |ws| && table == Entries(ports, ws[..a])
      invariant forall b :: 0 <= b < a ==> !OutcomeOf(ports, ws[b]).Fails?
    {
      var next := a + 1;
      EntriesNext(ports, ws, a, next);
      var o := Resolve(ports, ws[a]);
      if o.Fails? {
        return [], true;
      }
      if o.Becomes? {
        table := table + [o.entry];
      }
      a := next;
    }
    assert ws[..a] == ws;
    failed := false;
  }

  lemma EntriesNext(ports: seq<Port>, ws: seq<Wrapper>, a: nat, next: nat)
    requires a < |ws| && next == a + 1
    ensures Entries(ports, ws[..next]) ==
      match OutcomeOf(ports, ws[a])
      case Becomes(e) => Entries(ports, ws[..a]) + [e]
      case _ => Entries(ports, ws[..a])
  {
    assert ws[..next][..a] == ws[..a];
  }

  ghost predicate KnownPorts(ports: seq<Port>) {
    forall k :: 0 <= k < |ports| ==> KnownIface(ports[k].name)
  }

  lemma {:induction false} EntriesKnown(ports: seq<Port>, ws: seq<Wrapper>)
    requires KnownPorts(ports)
    ensures KnownIfaces(Entries(ports, ws))
  {
    if ws != [] {
      EntriesKnown(ports, ws[..|ws| - 1]);
    }
  }

  /** The routes the database gives: one entry per resolvable prefix. */
  ghost function Computed(db: RouterDb, ports: seq<Port>): Table
    requires db.Valid()
    reads db, db.routers
  {
    Entries(ports, TakenAll(AllOffers(db.labels, db.graph, db.us, db.run)))
  }

  ghost predicate ComputedFails(db: RouterDb, ports: seq<Port>)
    requires db.Valid()
    reads db, db.routers
  {
    SomeFails(ports, TakenAll(AllOffers(db.labels, db.graph, db.us, db.run)))
  }

  method ComputeRtable(db: RouterDb, ports: seq<Port>) returns (table: Table, failed: bool)
    requires db.Valid()
    modifies db, db.routers
    ensures db.Routed() && db.graph == old(db.graph) && db.run == old(db.run) + 1
    ensures failed <==> ComputedFails(db, ports)
    ensures !failed ==> table == Computed(db, ports) && (KnownPorts(ports) ==> KnownIfaces(table))
  {
    db.ComputeDistances();
    var ws := BuildRouteWrapperList(db);
    table, failed := ResolveAll(ports, ws);
    if KnownPorts(ports) {
      EntriesKnown(ports, ws);
    }
  }

  /**
   One recomputation as a whole: the table then holds the static routes and the
   computed ones, in order, and the hardware agrees with it.
   */
  method Recompute(db: RouterDb, rs: RouterState, ports: seq<Port>) returns (failed: bool)
    requires db.Valid() && rs.Valid() && (rs.isNetfpga ==> KnownPorts(ports))
    modifies db, db.routers, rs, rs.hw
    ensures db.Routed() && db.graph == old(db.graph) && db.run == old(db.run) + 1
    ensures failed <==> ComputedFails(db, ports)
    ensures !failed ==> rs.Valid() && StableSort(StaticOnly(old(rs.rtable)) + Computed(db, ports), rs.rtable)
  {
    var dynamic;
    dynamic, failed := ComputeRtable(db, ports);
    if !failed {
      rs.Rebuild(dynamic);
    }
  }
}
