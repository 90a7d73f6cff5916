/**
 From router to router by the computed tables: a packet for an advertised prefix
 follows, at each router, the entry that the router's own computation over its
 own database made for the prefix, and arrives at a router that advertises it.
 */
module Delivery {
  import opened Numbers
  import opened HopGraph
  import opened Labels
  import opened ShortestPaths
  import opened Dijkstra
  import opened RouteWrappers
  import opened RouteBuilder
  import opened RouteOrder
  import opened RouteEntries
  import opened HopByHop

  /** The interface list of every router. */
  type Ports = map<U32, seq<Port>>

  /** Every router's interface list knows the neighbours its own record names. */
  ghost predicate AllInformed(net: Network, ports: Ports)
    requires Converged(net)
  {
    forall u {:trigger InformedAt(net, ports, u)} :: u in net ==> InformedAt(net, ports, u)
  }

  ghost predicate InformedAt(net: Network, ports: Ports, u: U32)
    requires Converged(net) && u in net
  {
    assert OwnView(net, u);
    u in ports && Informed(ports[u], net[u].g[net[u].us].interfaces)
  }

  /** All routers have converged, and `p` is a prefix that their databases advertise. */
  ghost predicate Ready(net: Network, p: Prefix) {
    && Converged(net)
    && (forall u {:trigger Offers(net, u, p)} :: u in net ==> Offers(net, u, p))
  }

  ghost predicate Offers(net: Network, u: U32, p: Prefix)
    requires u in net
  {
    Small(net[u].g) && Advertisers(net[u].g, p) != []
  }

  // --- an advertisement in every database ------------------------------------------------

  lemma AdvertCarries(g: Graph, h: Graph, p: Prefix, x: Adv) returns (y: Adv)
    requires Within(g, h) && Advertises(g, p, x)
    ensures Has(h, g[x.router].id) && Advertises(h, p, y) && y.router == Pos(h, g[x.router].id)
  {
    var i, k := g[x.router].interfaces[x.index], Pos(h, g[x.router].id);
    assert i in g[x.router].interfaces;
    var m :| 0 <= m < |h[k].interfaces| && h[k].interfaces[m] == i;
    y := Adv(k, m);
  }

  /** If one database advertises a prefix, all do. */
  lemma AdvertisedEverywhere(net: Network, a: U32, b: U32, p: Prefix)
    requires Converged(net) && a in net && b in net && Advertisers(net[a].g, p) != []
    ensures Advertisers(net[b].g, p) != []
  {
    var g, h := net[a].g, net[b].g;
    AdvertisersAre(g, p);
    AdvertisersAre(h, p);
    assert Agreed(net, a, b);
    assert Advertisers(g, p)[0] in Advertisers(g, p);
    var y := AdvertCarries(g, h, p, Advertisers(g, p)[0]);
    assert y in Advertisers(h, p);
  }

  /** The advertisement of `p` that `u` has chosen from its list. */
  ghost function Pick(net: Network, u: U32, p: Prefix): (x: Adv)
    requires Ready(net, p) && u in net
    ensures Advertises(net[u].g, p, x)
  {
    assert OwnView(net, u) && Offers(net, u, p);
    Chosen(net[u].st, net[u].g, p)
  }

  /** The router that made it. */
  ghost function Goal(net: Network, u: U32, p: Prefix): (v: U32)
    requires Ready(net, p) && u in net
    ensures v in net && Place(net, u, v) == Pick(net, u, p).router
  {
    PlaceIndex(net, u, Pick(net, u, p).router);
    net[u].g[Pick(net, u, p).router].id
  }

  /** How far that is. */
  ghost function Left(net: Network, u: U32, p: Prefix): U32
    requires Ready(net, p) && u in net
  {
    Hops(net, u, Goal(net, u, p))
  }

  /** No router that another one has chosen is nearer. */
  lemma GoalIsNearest(net: Network, u: U32, v: U32, p: Prefix)
    requires Ready(net, p) && u in net && v in net
    ensures Left(net, u, p) <= Hops(net, u, Goal(net, v, p))
  {
    assert Agreed(net, v, u) && OwnView(net, u) && Offers(net, u, p);
    var y := AdvertCarries(net[v].g, net[u].g, p, Pick(net, v, p));
    ChosenIsNearest(net[u].st, net[u].g, net[u].us, net[u].run, p);
    PlaceIs(net, u, Goal(net, v, p));
  }

  lemma PlaceIs(net: Network, u: U32, v: U32)
    requires Converged(net) && u in net && v in net
    ensures Has(net[u].g, v) && Place(net, u, v) == Pos(net[u].g, v)
  {
    Knows(net, u, v);
  }

  // --- from table to table -----------------------------------------------------------------

  /** Where `u` sends a packet for `p`. */
  ghost function Next(net: Network, u: U32, p: Prefix): (v: U32)
    requires Ready(net, p) && u in net && Left(net, u, p) != INFINITE && Goal(net, u, p) != u
    ensures v in net
  {
    NextHop(net, u, Goal(net, u, p))
  }

  /** The next router on the way is by its own choice, which may be another, exactly one hop nearer to an advertiser. */
  lemma NextIsNearer(net: Network, u: U32, p: Prefix)
    requires Ready(net, p) && u in net && Left(net, u, p) != INFINITE && Goal(net, u, p) != u
    ensures var v := Next(net, u, p);
            Linked(net, u, v) && Left(net, v, p) + 1 == Left(net, u, p)
  {
    var v := Next(net, u, p);
    NextHopIsNearer(net, u, Goal(net, u, p));
    GoalIsNearest(net, v, u, p);
    HopsThrough(net, u, v, Goal(net, v, p));
    GoalIsNearest(net, u, v, p);
  }

  /** The dynamic entries of router `u`. */
  ghost function TableOf(net: Network, ports: Ports, u: U32): Table
    requires Converged(net) && u in net && u in ports
  {
    assert OwnView(net, u);
    Entries(ports[u], TakenAll(AllOffers(net[u].st, net[u].g, net[u].us, net[u].run)))
  }

  /** Router `u` has an active entry for `p` whose gateway is its neighbour `v`, and no other entry for `p`. */
  ghost predicate Forwards(net: Network, ports: Ports, u: U32, v: U32, p: Prefix)
    requires Converged(net) && u in net && u in ports
  {
    exists e ::
      && e in TableOf(net, ports, u) && IsFor(e, p) && e.isActive && LeadsTo(ports[u], e, v)
      && forall f :: f in TableOf(net, ports, u) && IsFor(f, p) ==> f == e
  }

  lemma NextIsRouted(net: Network, ports: Ports, u: U32, p: Prefix)
    requires Ready(net, p) && AllInformed(net, ports)
    requires u in net && Left(net, u, p) != INFINITE && Goal(net, u, p) != u
    ensures u in ports && Forwards(net, ports, u, Next(net, u, p), p)
  {
    var v := net[u];
    assert OwnView(net, u) && InformedAt(net, ports, u) && Offers(net, u, p);
    PlaceAtHome(net, u);
    SettledIsShortest(v.st, v.g, v.us, v.run, Pick(net, u, p).router);
    var e := OtherIsRouted(ports[u], v.st, v.g, v.us, v.run, p);
    forall f | f in TableOf(net, ports, u) && IsFor(f, p) ensures f == e {
      OnlyEntry(ports[u], v.st, v.g, v.us, v.run, p, e);
      OnlyEntry(ports[u], v.st, v.g, v.us, v.run, p, f);
    }
  }

  /** The routers a packet for `p` passes, from `u` on. */
  ghost function PrefixTrip(net: Network, u: U32, p: Prefix): (t: seq<U32>)
    requires Ready(net, p) && u in net && Left(net, u, p) != INFINITE
    ensures t != [] && t[0] == u && forall k :: 0 <= k < |t| ==> t[k] in net
    decreases Left(net, u, p)
  {
    if Goal(net, u, p) == u then [u]
    else
      NextIsNearer(net, u, p);
      [u] + PrefixTrip(net, Next(net, u, p), p)
  }

  /** Every router of `t` forwards to the next, and is one hop nearer to an advertiser than the one before. */
  ghost predicate Guided(net: Network, ports: Ports, t: seq<U32>, p: Prefix, d: int)
    requires Ready(net, p) && forall k :: 0 <= k < |t| ==> t[k] in net
  {
    && (forall k :: 0 <= k < |t| ==> Left(net, t[k], p) == d - k)
    && (forall k :: 0 <= k < |t| - 1 ==> t[k] in ports && Forwards(net, ports, t[k], t[k + 1], p))
  }

  lemma GuidedFrom(net: Network, ports: Ports, u: U32, t: seq<U32>, p: Prefix, d: int, e: int)
    requires Ready(net, p) && u in net && u in ports && t != [] && forall k :: 0 <= k < |t| ==> t[k] in net
    requires Left(net, u, p) == d && e == d - 1
    requires Forwards(net, ports, u, t[0], p) && Guided(net, ports, t, p, e)
    ensures forall k :: 0 <= k < |[u] + t| ==> ([u] + t)[k] in net
    ensures Guided(net, ports, [u] + t, p, d)
  {
    var r := [u] + t;
    forall k | 0 <= k < |r| ensures Left(net, r[k], p) == d - k {
      assert k > 0 ==> r[k] == t[k - 1];
    }
    forall k | 0 <= k < |r| - 1 ensures r[k] in ports && Forwards(net, ports, r[k], r[k + 1], p) {
      if k > 0 {
        assert r[k] == t[k - 1] && r[k + 1] == t[k - 1 + 1];
      }
    }
  }

  /** The last router of `t` advertises `p` itself. */
  ghost predicate EndsAt(net: Network, t: seq<U32>, p: Prefix)
    requires Converged(net) && t != [] && t[|t| - 1] in net
  {
    var u := t[|t| - 1];
    assert OwnView(net, u);
    exists x :: Advertises(net[u].g, p, x) && x.router == net[u].us
  }

  lemma ArrivedAtOnce(net: Network, ports: Ports, u: U32, p: Prefix)
    requires Ready(net, p) && u in net && Goal(net, u, p) == u
    ensures Left(net, u, p) == 0 && EndsAt(net, [u], p) && Guided(net, ports, [u], p, 0)
  {
    HopsZero(net, u);
    PlaceAtHome(net, u);
    assert Advertises(net[u].g, p, Pick(net, u, p));
  }

  lemma EndsFrom(net: Network, u: U32, t: seq<U32>, p: Prefix)
    requires Converged(net) && t != [] && t[|t| - 1] in net && EndsAt(net, t, p)
    ensures ([u] + t)[|t|] in net && EndsAt(net, [u] + t, p)
  {
    assert ([u] + t)[|t|] == t[|t| - 1];
  }

  /**
   A packet for a prefix that some router in reach advertises: each router on the
   way has one entry for the prefix, with the next router as gateway, the
   distance to a nearest advertiser falls by one at every hop, and the last
   router advertises the prefix. Routers list their databases in their own
   orders, and may choose different advertisers.
   */
  lemma {:induction false} PrefixTripArrives(net: Network, ports: Ports, u: U32, p: Prefix)
    requires Ready(net, p) && AllInformed(net, ports) && u in net && Left(net, u, p) != INFINITE
    ensures var t := PrefixTrip(net, u, p);
            && LinkedPath(net, t) && |t| == Left(net, u, p) + 1 && EndsAt(net, t, p)
            && Guided(net, ports, t, p, Left(net, u, p))
    decreases Left(net, u, p)
  {
    if Goal(net, u, p) == u {
      ArrivedAtOnce(net, ports, u, p);
    } else {
      NextIsNearer(net, u, p);
      NextIsRouted(net, ports, u, p);
      var v := Next(net, u, p);
      var t := PrefixTrip(net, v, p);
      PrefixTripArrives(net, ports, v, p);
      PathFrom(net, u, t);
      EndsFrom(net, u, t, p);
      GuidedFrom(net, ports, u, t, p, Left(net, u, p), Left(net, v, p));
    }
  }

  // --- such networks come about ---------------------------------------------------------------

  /** Any two routers that learn of each other and recompute have converged, each with itself first in its list. */
  method TwoConverge(a: U32, b: U32, ofA: seq<Interface>, ofB: seq<Interface>) returns (x: RouterDb, y: RouterDb, ghost net: Network)
    requires a != 0 && b != 0 && a != b
    ensures Converged(net) && net.Keys == {a, b}
    ensures net[a].g == [Node(a, ofA), Node(b, ofB)] && net[b].g == [Node(b, ofB), Node(a, ofA)]
    ensures x.Routed() && net[a] == View(x.labels, x.graph, x.us, x.run)
    ensures y.Routed() && net[b] == View(y.labels, y.graph, y.us, y.run)
  {
    x := KnowingTwo(a, b, ofA, ofB);
    y := KnowingTwo(b, a, ofB, ofA);
    net := map[a := View(x.labels, x.graph, x.us, x.run), b := View(y.labels, y.graph, y.us, y.run)];
    TwoAgree(a, b, ofA, ofB);
    TwoAgree(b, a, ofB, ofA);
  }

  /** A router that has learned of one other. */
  method HavingLearned(own: U32, other: U32, ofOwn: seq<Interface>, ofOther: seq<Interface>) returns (db: RouterDb)
    requires own != 0 && other != 0 && own != other
    ensures fresh(db) && fresh(db.routers) && db.Valid()
    ensures db.graph == [Node(own, ofOwn), Node(other, ofOther)] && db.us == 0
  {
    LearntSecond(Node(own, ofOwn), Node(other, ofOther));
    db := new RouterDb(own, ofOwn);
    db.Learn(other, ofOther);
  }

  /** Such a router once it has recomputed its routes. */
  method KnowingTwo(own: U32, other: U32, ofOwn: seq<Interface>, ofOther: seq<Interface>) returns (db: RouterDb)
    requires own != 0 && other != 0 && own != other
    ensures fresh(db) && fresh(db.routers) && db.Routed()
    ensures db.graph == [Node(own, ofOwn), Node(other, ofOther)] && db.us == 0
  {
    db := HavingLearned(own, other, ofOwn, ofOther);
    db.ComputeDistances();
  }

  lemma LearntSecond(a: Node, b: Node)
    requires a.id != b.id
    ensures Learnt([a], b) == [a, b]
  {
    LearntNew([a], b);
  }

  lemma TwoAgree(a: U32, b: U32, ofA: seq<Interface>, ofB: seq<Interface>)
    requires a != b
    ensures Agree([Node(a, ofA), Node(b, ofB)], [Node(b, ofB), Node(a, ofA)])
    ensures Agree([Node(a, ofA), Node(b, ofB)], [Node(a, ofA), Node(b, ofB)])
  {
    var g, h := [Node(a, ofA), Node(b, ofB)], [Node(b, ofB), Node(a, ofA)];
    assert h[0].id == b && h[1].id == a && g[0].id == a && g[1].id == b;
  }
}
