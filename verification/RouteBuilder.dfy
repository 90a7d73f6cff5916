/**
 One run from end to end: shortest paths over the router list, then the wrapper
 list built from every advertisement of every router, and what that means over
 any history of a database that only grows.
 */
module RouteBuilder {
  import opened Numbers
  import opened HopGraph
  import opened Labels
  import opened ShortestPaths
  import opened Dijkstra
  import opened RouteWrappers

  /** Advertisement `index` of the router at position `router`. */
  datatype Adv = Adv(router: nat, index: nat)

  ghost predicate Made(g: Graph, x: Adv) {
    x.router < |g| && x.index < |g[x.router].interfaces|
  }

  /** What advertisement `x` offers once router distances are known. */
  ghost function OfferOf(st: Labelling, g: Graph, us: nat, run: nat, x: Adv): Offer
    requires |g| == |st| && Chained(st, us, run) && Made(g, x)
  {
    var i := g[x.router].interfaces[x.index];
    var next := if st[x.router].prev == NONE then i.routerId else g[FirstHop(st, us, run, x.router)].id;
    Offer(PrefixOf(i), st[x.router].distance, next, x.router == us)
  }

  /** The offers of the routers before position `i`, and of the first `k` interfaces there, in list order. */
  ghost function OffersUpTo(st: Labelling, g: Graph, us: nat, run: nat, i: nat, k: nat): seq<Offer>
    requires |g| == |st| && Chained(st, us, run) && Before(g, i, k)
    decreases i, k
  {
    if k > 0 then OffersUpTo(st, g, us, run, i, k - 1) + [OfferOf(st, g, us, run, Adv(i, k - 1))]
    else if i > 0 then OffersUpTo(st, g, us, run, i - 1, |g[i - 1].interfaces|)
    else []
  }

  ghost predicate Before(g: Graph, i: nat, k: nat) {
    if i < |g| then k <= |g[i].interfaces| else i == |g| && k == 0
  }

  ghost function AllOffers(st: Labelling, g: Graph, us: nat, run: nat): seq<Offer>
    requires |g| == |st| && Chained(st, us, run)
  {
    OffersUpTo(st, g, us, run, |g|, 0)
  }

  /** Every offer comes from an advertisement. */
  lemma {:induction false} OfferOrigin(st: Labelling, g: Graph, us: nat, run: nat, i: nat, k: nat, n: nat) returns (x: Adv)
    requires |g| == |st| && Chained(st, us, run) && Before(g, i, k)
    requires n < |OffersUpTo(st, g, us, run, i, k)|
    ensures Made(g, x) && OffersUpTo(st, g, us, run, i, k)[n] == OfferOf(st, g, us, run, x)
    decreases i, k
  {
    if k == 0 {
      x := OfferOrigin(st, g, us, run, i - 1, |g[i - 1].interfaces|, n);
    } else if n < |OffersUpTo(st, g, us, run, i, k - 1)| {
      x := OfferOrigin(st, g, us, run, i, k - 1, n);
    } else {
      x := Adv(i, k - 1);
    }
  }

  /** Every advertisement makes an offer. */
  lemma {:induction false} OfferIndex(st: Labelling, g: Graph, us: nat, run: nat, i: nat, k: nat, x: Adv) returns (n: nat)
    requires |g| == |st| && Chained(st, us, run) && Before(g, i, k)
    requires Made(g, x) && (x.router < i || (x.router == i && x.index < k))
    ensures n < |OffersUpTo(st, g, us, run, i, k)|
    ensures OffersUpTo(st, g, us, run, i, k)[n] == OfferOf(st, g, us, run, x)
    decreases i, k
  {
    if k == 0 {
      n := OfferIndex(st, g, us, run, i - 1, |g[i - 1].interfaces|, x);
    } else if x == Adv(i, k - 1) {
      n := |OffersUpTo(st, g, us, run, i, k - 1)|;
    } else {
      n := OfferIndex(st, g, us, run, i, k - 1, x);
    }
  }

  /** `w` carries advertisement `x`, and no advertiser of the prefix is nearer. */
  ghost predicate Best(w: Wrapper, st: Labelling, g: Graph, us: nat, run: nat, x: Adv)
    requires |g| == |st| && Chained(st, us, run)
  {
    && Made(g, x)
    && Holds(w, OfferOf(st, g, us, run, x))
    && (forall y :: Made(g, y) && OfferOf(st, g, us, run, y).prefix == w.prefix ==>
                      st[x.router].distance <= st[y.router].distance)
  }

  ghost predicate WeAdvertise(st: Labelling, g: Graph, us: nat, run: nat, p: Prefix)
    requires |g| == |st| && Chained(st, us, run)
  {
    exists x :: Made(g, x) && x.router == us && OfferOf(st, g, us, run, x).prefix == p
  }

  /** Fewer than 65535 routers. */
  ghost predicate Small(g: Graph) {
    |g| < U16_SIZE - 1
  }

  /** With fewer than 65535 routers, 16 bits are enough for every hop count. */
  lemma OffersAreSane(st: Labelling, g: Graph, us: nat, run: nat, x: Adv)
    requires Settled(st, g, us, run) && Small(g) && Made(g, x)
    ensures Sane(OfferOf(st, g, us, run, x))
  {
    FoundIdsBound(st, g);
    assert Labelled(st, g, us, run, x.router);
    SettledIsShortest(st, g, us, run, x.router);
  }

  lemma AllOffersAreSane(st: Labelling, g: Graph, us: nat, run: nat)
    requires Settled(st, g, us, run) && Small(g)
    ensures AllSane(AllOffers(st, g, us, run))
  {
    var offers := AllOffers(st, g, us, run);
    forall n | 0 <= n < |offers| ensures Sane(offers[n]) {
      var x := OfferOrigin(st, g, us, run, |g|, 0, n);
      OffersAreSane(st, g, us, run, x);
    }
  }

  /** A summary of every advertisement is one nearest route per advertised prefix. */
  lemma SummaryIsBest(ws: seq<Wrapper>, src: seq<nat>, offers: seq<Offer>,
                      st: Labelling, g: Graph, us: nat, run: nat, a: nat)
    requires Settled(st, g, us, run) && offers == AllOffers(st, g, us, run)
    requires AllSane(offers) && Summary(ws, src, offers)
    requires a < |ws|
    ensures IsRoute(ws[a], st, g, us, run)
  {
    var x := OfferOrigin(st, g, us, run, |g|, 0, src[a]);
    assert Holds(ws[a], offers[src[a]]);
    forall y | Made(g, y) && OfferOf(st, g, us, run, y).prefix == ws[a].prefix
      ensures st[x.router].distance <= st[y.router].distance
      ensures y.router == us ==> ws[a].direct
    {
      var n := OfferIndex(st, g, us, run, |g|, 0, y);
      SummaryNearest(ws, src, offers, a, n);
    }
    assert Best(ws[a], st, g, us, run, x);
  }

  /** `w` goes through a nearest advertiser, and is direct exactly if we advertise its prefix. */
  ghost predicate IsRoute(w: Wrapper, st: Labelling, g: Graph, us: nat, run: nat)
    requires |g| == |st| && Chained(st, us, run)
  {
    && (exists x :: Best(w, st, g, us, run, x))
    && (w.direct <==> WeAdvertise(st, g, us, run, w.prefix))
  }

  /** One route per advertised prefix. */
  ghost predicate RouteList(ws: seq<Wrapper>, st: Labelling, g: Graph, us: nat, run: nat)
    requires |g| == |st| && Chained(st, us, run)
  {
    && DistinctPrefixes(ws)
    && (forall x :: Made(g, x) ==> Covered(ws, PrefixOf(g[x.router].interfaces[x.index]), U16_SIZE))
    && (forall a :: 0 <= a < |ws| ==> IsRoute(ws[a], st, g, us, run))
  }

  lemma SummaryCovers(ws: seq<Wrapper>, src: seq<nat>, st: Labelling, g: Graph, us: nat, run: nat, x: Adv)
    requires |g| == |st| && Chained(st, us, run) && Made(g, x)
    requires Summary(ws, src, AllOffers(st, g, us, run))
    ensures Covered(ws, PrefixOf(g[x.router].interfaces[x.index]), U16_SIZE)
  {
    var offers := AllOffers(st, g, us, run);
    var n := OfferIndex(st, g, us, run, |g|, 0, x);
    var d := Truncated(offers[n].distance);
    assert Covered(ws, offers[n].prefix, d);
    var a :| 0 <= a < |ws| && ws[a].prefix == offers[n].prefix && ws[a].distance <= d;
  }

  /** With fewer than 65535 routers the wrapper list is one nearest route per advertised prefix. */
  lemma WrappersAreRoutes(st: Labelling, g: Graph, us: nat, run: nat)
    requires Settled(st, g, us, run) && Small(g)
    ensures RouteList(TakenAll(AllOffers(st, g, us, run)), st, g, us, run)
  {
    var offers := AllOffers(st, g, us, run);
    var ws := TakenAll(offers);
    AllOffersAreSane(st, g, us, run);
    var src := TakenAllSummary(offers);
    forall a | 0 <= a < |ws| ensures IsRoute(ws[a], st, g, us, run) {
      SummaryIsBest(ws, src, offers, st, g, us, run, a);
    }
    forall x | Made(g, x) ensures Covered(ws, PrefixOf(g[x.router].interfaces[x.index]), U16_SIZE) {
      SummaryCovers(ws, src, st, g, us, run, x);
    }
  }

  // --- the advertisers of a prefix ---------------------------------------------------

  /** The advertisements of `p` before (`i`, `k`), in list order. */
  ghost function AdvertisersUpTo(g: Graph, p: Prefix, i: nat, k: nat): seq<Adv>
    requires Before(g, i, k)
    decreases i, k
  {
    if k > 0 then
      AdvertisersUpTo(g, p, i, k - 1) + (if PrefixOf(g[i].interfaces[k - 1]) == p then [Adv(i, k - 1)] else [])
    else if i > 0 then AdvertisersUpTo(g, p, i - 1, |g[i - 1].interfaces|)
    else []
  }

  /** The advertisements of `p` in the database, in list order. */
  ghost function Advertisers(g: Graph, p: Prefix): seq<Adv> {
    AdvertisersUpTo(g, p, |g|, 0)
  }

  ghost predicate Advertises(g: Graph, p: Prefix, x: Adv) {
    Made(g, x) && PrefixOf(g[x.router].interfaces[x.index]) == p
  }

  ghost predicate Precedes(x: Adv, i: nat, k: nat) {
    x.router < i || (x.router == i && x.index < k)
  }

  /** The list holds every advertisement of `p`. */
  lemma {:induction false} AdvertisersListed(g: Graph, p: Prefix, i: nat, k: nat)
    requires Before(g, i, k)
    ensures forall x :: x in AdvertisersUpTo(g, p, i, k) <==> Advertises(g, p, x) && Precedes(x, i, k)
    decreases i, k
  {
    if k > 0 {
      AdvertisersListed(g, p, i, k - 1);
    } else if i > 0 {
      AdvertisersListed(g, p, i - 1, |g[i - 1].interfaces|);
    }
  }

  ghost predicate InOrder(xs: seq<Adv>) {
    forall m, n :: 0 <= m < n < |xs| ==> Precedes(xs[m], xs[n].router, xs[n].index)
  }

  lemma {:induction false} AdvertisersInOrder(g: Graph, p: Prefix, i: nat, k: nat)
    requires Before(g, i, k)
    ensures InOrder(AdvertisersUpTo(g, p, i, k))
    decreases i, k
  {
    if k > 0 {
      var xs := AdvertisersUpTo(g, p, i, k - 1);
      AdvertisersInOrder(g, p, i, k - 1);
      AdvertisersListed(g, p, i, k - 1);
      forall m | 0 <= m < |xs| ensures Precedes(xs[m], i, k - 1) {
        assert xs[m] in xs;
      }
    } else if i > 0 {
      AdvertisersInOrder(g, p, i - 1, |g[i - 1].interfaces|);
      assert AdvertisersUpTo(g, p, i, k) == AdvertisersUpTo(g, p, i - 1, |g[i - 1].interfaces|);
    }
  }

  ghost predicate AllMade(g: Graph, xs: seq<Adv>) {
    forall n :: 0 <= n < |xs| ==> Made(g, xs[n])
  }

  lemma AdvertisersAre(g: Graph, p: Prefix)
    ensures forall x :: x in Advertisers(g, p) <==> Advertises(g, p, x)
    ensures AllMade(g, Advertisers(g, p))
  {
    AdvertisersListed(g, p, |g|, 0);
    var xs := Advertisers(g, p);
    forall n | 0 <= n < |xs| ensures Made(g, xs[n]) {
      assert xs[n] in xs;
    }
  }

  /** What the advertisements `xs` offer. */
  ghost function OffersBy(st: Labelling, g: Graph, us: nat, run: nat, xs: seq<Adv>): (os: seq<Offer>)
    requires |g| == |st| && Chained(st, us, run)
    requires AllMade(g, xs)
    ensures |os| == |xs| && forall n :: 0 <= n < |xs| ==> os[n] == OfferOf(st, g, us, run, xs[n])
  {
    seq(|xs|, n requires 0 <= n < |xs| => OfferOf(st, g, us, run, xs[n]))
  }

  lemma OffersByNext(st: Labelling, g: Graph, us: nat, run: nat, xs: seq<Adv>, x: Adv)
    requires |g| == |st| && Chained(st, us, run) && AllMade(g, xs) && Made(g, x)
    ensures AllMade(g, xs + [x])
    ensures OffersBy(st, g, us, run, xs + [x]) == OffersBy(st, g, us, run, xs) + [OfferOf(st, g, us, run, x)]
  {
  }

  lemma {:induction false} OffersForAdvertisers(st: Labelling, g: Graph, us: nat, run: nat, p: Prefix, i: nat, k: nat)
    requires |g| == |st| && Chained(st, us, run) && Before(g, i, k)
    ensures AllMade(g, AdvertisersUpTo(g, p, i, k))
    ensures OffersFor(OffersUpTo(st, g, us, run, i, k), p) == OffersBy(st, g, us, run, AdvertisersUpTo(g, p, i, k))
    decreases i, k
  {
    if k > 0 {
      var x, xs, os := Adv(i, k - 1), AdvertisersUpTo(g, p, i, k - 1), OffersUpTo(st, g, us, run, i, k - 1);
      OffersForAdvertisers(st, g, us, run, p, i, k - 1);
      OffersForNext(os, OfferOf(st, g, us, run, x), p);
      if PrefixOf(g[i].interfaces[k - 1]) == p {
        OffersByNext(st, g, us, run, xs, x);
      } else {
        assert xs + [] == xs;
      }
    } else if i > 0 {
      OffersForAdvertisers(st, g, us, run, p, i - 1, |g[i - 1].interfaces|);
    }
  }

  /** How far the advertisers `xs` are. */
  ghost function HopsOf(st: Labelling, g: Graph, xs: seq<Adv>): (ds: seq<U32>)
    requires |g| == |st|
    requires AllMade(g, xs)
    ensures |ds| == |xs| && forall n :: 0 <= n < |xs| ==> ds[n] == st[xs[n].router].distance
  {
    seq(|xs|, n requires 0 <= n < |xs| => st[xs[n].router].distance)
  }

  /** The advertisement that the wrapper for `p` ends up with. */
  ghost function Chosen(st: Labelling, g: Graph, p: Prefix): (x: Adv)
    requires |g| == |st| && Advertisers(g, p) != []
    ensures Made(g, x) && PrefixOf(g[x.router].interfaces[x.index]) == p
  {
    AdvertisersAre(g, p);
    var x := Advertisers(g, p)[HeldAt(HopsOf(st, g, Advertisers(g, p)))];
    assert x in Advertisers(g, p);
    x
  }

  lemma AllOursAtZero(st: Labelling, g: Graph, us: nat, run: nat)
    requires Settled(st, g, us, run)
    ensures OursAtZero(AllOffers(st, g, us, run))
  {
    var offers := AllOffers(st, g, us, run);
    forall n | 0 <= n < |offers| && offers[n].ours ensures offers[n].distance == 0 {
      var x := OfferOrigin(st, g, us, run, |g|, 0, n);
    }
  }

  /** Every wrapper is what the chosen advertisement of its prefix offers. */
  lemma WrapperIsChosen(st: Labelling, g: Graph, us: nat, run: nat, a: nat)
    requires Settled(st, g, us, run) && a < |TakenAll(AllOffers(st, g, us, run))|
    ensures var w := TakenAll(AllOffers(st, g, us, run))[a];
            && Advertisers(g, w.prefix) != []
            && w == Unseen(OfferOf(st, g, us, run, Chosen(st, g, w.prefix)))
  {
    var offers := AllOffers(st, g, us, run);
    var w := TakenAll(offers)[a];
    TakenAllExact(offers);
    AllOursAtZero(st, g, us, run);
    assert ExactAt(w, offers);
    HeldIsChosen(st, g, us, run, w.prefix);
  }

  lemma HeldIsChosen(st: Labelling, g: Graph, us: nat, run: nat, p: Prefix)
    requires |g| == |st| && Chained(st, us, run)
    ensures var os := OffersFor(AllOffers(st, g, us, run), p);
            && (os != [] <==> Advertisers(g, p) != [])
            && (os != [] ==> Held(os) == OfferOf(st, g, us, run, Chosen(st, g, p)))
  {
    var xs := Advertisers(g, p);
    OffersForAdvertisers(st, g, us, run, p, |g|, 0);
    var os := OffersBy(st, g, us, run, xs);
    assert Distances(os) == HopsOf(st, g, xs);
  }

  /** Every advertised prefix has a wrapper. */
  lemma AdvertisedIsWrapped(st: Labelling, g: Graph, us: nat, run: nat, p: Prefix) returns (a: nat)
    requires Settled(st, g, us, run) && Advertisers(g, p) != []
    ensures var ws := TakenAll(AllOffers(st, g, us, run));
            a < |ws| && ws[a] == Unseen(OfferOf(st, g, us, run, Chosen(st, g, p)))
  {
    var offers := AllOffers(st, g, us, run);
    TakenAllExact(offers);
    HeldIsChosen(st, g, us, run, p);
    a := At(TakenAll(offers), p);
    WrapperIsChosen(st, g, us, run, a);
  }

  /** `x` is a nearest advertiser of prefix `p`. */
  ghost predicate Nearest(st: Labelling, g: Graph, p: Prefix, x: Adv)
    requires |g| == |st|
  {
    Advertises(g, p, x) && forall y :: Advertises(g, p, y) ==> st[x.router].distance <= st[y.router].distance
  }

  lemma NearestInList(st: Labelling, g: Graph, p: Prefix, h: nat)
    requires |g| == |st| && h < |Advertisers(g, p)|
    requires AllMade(g, Advertisers(g, p))
    ensures Nearest(st, g, p, Advertisers(g, p)[h]) <==> NearestAt(HopsOf(st, g, Advertisers(g, p)), h)
  {
    var xs := Advertisers(g, p);
    var ds := HopsOf(st, g, xs);
    AdvertisersAre(g, p);
    if NearestAt(ds, h) {
      forall y | Advertises(g, p, y) ensures st[xs[h].router].distance <= st[y.router].distance {
        var n :| 0 <= n < |xs| && xs[n] == y;
        assert ds[h] <= ds[n];
      }
    }
    if Nearest(st, g, p, xs[h]) {
      forall n | 0 <= n < |ds| ensures ds[h] <= ds[n] {
        assert xs[n] in xs;
      }
    }
  }

  /**
   With any number of routers, the route for a prefix goes to a nearest
   advertiser exactly if some advertiser after the first in the list is nearer
   than the low 16 bits of the first one's hop count, or the first is a nearest.
   */
  lemma RouteIsNearest(st: Labelling, g: Graph, us: nat, run: nat, p: Prefix)
    requires Settled(st, g, us, run) && Advertisers(g, p) != []
    ensures AllMade(g, Advertisers(g, p))
    ensures var ds := HopsOf(st, g, Advertisers(g, p));
            Nearest(st, g, p, Chosen(st, g, p)) <==>
              (exists n :: 0 < n < |ds| && ds[n] < Truncated(ds[0])) || Nearest(st, g, p, Advertisers(g, p)[0])
  {
    AdvertisersAre(g, p);
    var ds := HopsOf(st, g, Advertisers(g, p));
    NearestInList(st, g, p, 0);
    NearestInList(st, g, p, HeldAt(ds));
    HeldIsNearest(ds);
  }

  /**
   The distance stored with it is the least hop count exactly if the first
   advertiser's fits 16 bits or a later one is at most its low 16 bits.
   */
  lemma WrapperIsLeast(st: Labelling, g: Graph, us: nat, run: nat, a: nat)
    requires Settled(st, g, us, run) && a < |TakenAll(AllOffers(st, g, us, run))|
    ensures var w := TakenAll(AllOffers(st, g, us, run))[a];
            && Advertisers(g, w.prefix) != []
            && AllMade(g, Advertisers(g, w.prefix))
            && var ds := HopsOf(st, g, Advertisers(g, w.prefix));
               IsLeast(ds, w.distance) <==> ds[0] < U16_SIZE || exists n :: 0 < n < |ds| && ds[n] <= Truncated(ds[0])
  {
    var w := TakenAll(AllOffers(st, g, us, run))[a];
    WrapperIsChosen(st, g, us, run, a);
    AdvertisersAre(g, w.prefix);
    var ds := HopsOf(st, g, Advertisers(g, w.prefix));
    KeptIsHeld(ds);
    KeptIsLeast(ds);
  }

  /** Takes interface `k` of the router at position `i` into the list. */
  method AddInterface(db: RouterDb, ws: seq<Wrapper>, i: nat, k: nat) returns (r: seq<Wrapper>)
    requires db.Routed() && Made(db.graph, Adv(i, k))
    ensures r == Taken(ws, OfferOf(db.labels, db.graph, db.us, db.run, Adv(i, k)))
  {
    assert Carries(db.routers, i, db.graph[i], db.labels[i]);
    var router := db.routers[i];
    var f := router.interfaces[k];
    var next := db.NextRid(router, f);
    r := AddRouteWrapper(ws, Offer(PrefixOf(f), router.distance, next, db.ourId == router.id));
  }

  method AddRouteWrappers(db: RouterDb, ws: seq<Wrapper>, i: nat) returns (r: seq<Wrapper>)
    requires db.Routed() && i < |db.routers|
    requires ws == TakenAll(OffersUpTo(db.labels, db.graph, db.us, db.run, i, 0))
    ensures r == TakenAll(OffersUpTo(db.labels, db.graph, db.us, db.run, i + 1, 0))
  {
    ghost var st, g, us, run := db.labels, db.graph, db.us, db.run;
    assert Carries(db.routers, i, g[i], st[i]);
    var k, count := 0, |db.routers[i].interfaces|;
    r := ws;
    while k < count
      invariant 0 <= k <= count == |g[i].interfaces|
      invariant r == TakenAll(OffersUpTo(st, g, us, run, i, k))
    {
      var next := k + 1;
      OffersNext(st, g, us, run, i, k, next);
      r := AddInterface(db, r, i, k);
      k := next;
    }
    OffersTurn(st, g, us, run, i, i + 1);
  }

  lemma OffersNext(st: Labelling, g: Graph, us: nat, run: nat, i: nat, k: nat, next: nat)
    requires |g| == |st| && Chained(st, us, run) && Made(g, Adv(i, k)) && next == k + 1
    ensures TakenAll(OffersUpTo(st, g, us, run, i, next))
            == Taken(TakenAll(OffersUpTo(st, g, us, run, i, k)), OfferOf(st, g, us, run, Adv(i, k)))
  {
    TakenNext(OffersUpTo(st, g, us, run, i, k), OfferOf(st, g, us, run, Adv(i, k)));
  }

  lemma OffersTurn(st: Labelling, g: Graph, us: nat, run: nat, i: nat, next: nat)
    requires |g| == |st| && Chained(st, us, run) && i < |g| && next == i + 1
    ensures OffersUpTo(st, g, us, run, next, 0) == OffersUpTo(st, g, us, run, i, |g[i].interfaces|)
  {
  }

  method BuildRouteWrapperList(db: RouterDb) returns (ws: seq<Wrapper>)
    requires db.Routed()
    ensures ws == TakenAll(AllOffers(db.labels, db.graph, db.us, db.run))
    ensures Small(db.graph) ==> RouteList(ws, db.labels, db.graph, db.us, db.run)
  {
    ws := [];
    for i := 0 to |db.routers|
      invariant ws == TakenAll(OffersUpTo(db.labels, db.graph, db.us, db.run, i, 0))
    {
      ws := AddRouteWrappers(db, ws, i);
    }
    if Small(db.graph) {
      WrappersAreRoutes(db.labels, db.graph, db.us, db.run);
    }
  }

  // --- any history of the database ----------------------------------------------

  /** A router's advertisements arrive or change, or routes are recomputed. */
  datatype Event = Learned(id: U32, interfaces: seq<Interface>) | Recomputed

  /** The topology a history leaves behind: for each router its last advertisements. */
  function GraphAfter(g: Graph, events: seq<Event>): Graph {
    if events == [] then g
    else
      var before := GraphAfter(g, events[..|events| - 1]);
      match events[|events| - 1]
      case Learned(id, interfaces) => Learnt(before, Node(id, interfaces))
      case Recomputed => before
  }

  /** One event; `ws` is the new route list if routes are recomputed. */
  method Happen(db: RouterDb, e: Event) returns (ws: seq<Wrapper>)
    requires db.Valid() && (e.Learned? ==> e.id != 0)
    modifies db, db.routers
    ensures db.Valid() && old(db.routers) <= db.routers
    ensures fresh(set r | r in db.routers && r !in old(db.routers))
    ensures e.Learned? ==> db.graph == Learnt(old(db.graph), Node(e.id, e.interfaces))
    ensures e.Recomputed? ==>
      && db.graph == old(db.graph) && db.Routed()
      && (Small(db.graph) ==> RouteList(ws, db.labels, db.graph, db.us, db.run))
  {
    ws := [];
    match e
    case Learned(id, interfaces) =>
      db.Learn(id, interfaces);
    case Recomputed =>
      db.ComputeDistances();
      ws := BuildRouteWrapperList(db);
  }

  /**
   Whatever the history, every recomputation ends, follows no null pointer, and
   yields least hop counts; predecessors of routers that have become unreachable
   still lead back to us. `last` is the route list of the last recomputation.
   */
  method Replay(db: RouterDb, events: seq<Event>) returns (last: seq<Wrapper>)
    requires db.Valid()
    requires forall n :: 0 <= n < |events| && events[n].Learned? ==> events[n].id != 0
    modifies db, db.routers
    ensures db.Valid() && db.graph == GraphAfter(old(db.graph), events)
    ensures fresh(set r | r in db.routers && r !in old(db.routers))
    ensures |events| > 0 && events[|events| - 1].Recomputed? ==>
      db.Routed() && (Small(db.graph) ==> RouteList(last, db.labels, db.graph, db.us, db.run))
  {
    last := [];
    if events != [] {
      var n := |events| - 1;
      last := Replay(db, events[..n]);
      last := Happen(db, events[n]);
    }
  }
}
