/**
 From router distances to one route per prefix. A wrapper stores its distance in
 16 bits while routers hold 32, so a distance is truncated when a prefix is first seen.
 */
module RouteWrappers {
  import opened Numbers
  import opened HopGraph

  datatype Prefix = Prefix(ip: U32, mask: U32)

  /** One advertised prefix, on its way to the wrapper list. */
  datatype Offer = Offer(prefix: Prefix, distance: U32, nextRid: U32, ours: bool)

  datatype Wrapper = Wrapper(prefix: Prefix, distance: nat, nextRid: U32, direct: bool)

  function PrefixOf(i: Interface): Prefix {
    Prefix(Under(i.subnet, i.mask), i.mask)
  }

  /** A prefix keeps the mask, and of the subnet the bits under the mask. */
  lemma PrefixBits(i: Interface, n: nat)
    requires n < 32
    ensures PrefixOf(i).mask == i.mask
    ensures Bit(PrefixOf(i).ip, n) == if Bit(i.subnet, n) == 1 && Bit(i.mask, n) == 1 then 1 else 0
  {
    AndBits(i.subnet, i.mask, 32, n);
  }

  /** What 16 bits keep of a distance. */
  function Truncated(d: U32): (r: nat) {
    d % U16_SIZE
  }

  /** The test by which a wrapper at 16-bit distance `w` gives way to a router at distance `d`. */
  predicate GivesWay(w: nat, d: U32) {
    !(d >= w)
  }

  /** Truncation confuses no two distances, INFINITE stays the largest, and only our own offers are at 0. */
  ghost predicate Sane(o: Offer) {
    && (o.distance == INFINITE || o.distance < U16_SIZE - 1)
    && (o.ours <==> o.distance == 0)
  }

  ghost predicate AllSane(offers: seq<Offer>) {
    forall n :: 0 <= n < |offers| ==> Sane(offers[n])
  }

  ghost predicate Holds(w: Wrapper, o: Offer) {
    w == Wrapper(o.prefix, Truncated(o.distance), o.nextRid, o.ours)
  }

  /** Some wrapper for prefix `p` is at most `d` away. */
  ghost predicate Covered(ws: seq<Wrapper>, p: Prefix, d: nat) {
    exists a :: 0 <= a < |ws| && ws[a].prefix == p && ws[a].distance <= d
  }

  ghost predicate DistinctPrefixes(ws: seq<Wrapper>) {
    forall a, b :: 0 <= a < b < |ws| ==> ws[a].prefix != ws[b].prefix
  }

  /** `ws` summarises `offers`: one wrapper per prefix, wrapper `a` holding the nearest offer, `src[a]`. */
  ghost predicate Summary(ws: seq<Wrapper>, src: seq<nat>, offers: seq<Offer>) {
    && |src| == |ws| && DistinctPrefixes(ws)
    && (forall a :: 0 <= a < |ws| ==> src[a] < |offers| && Holds(ws[a], offers[src[a]]))
    && (forall n :: 0 <= n < |offers| ==> Covered(ws, offers[n].prefix, Truncated(offers[n].distance)))
  }

  lemma CoveredByMore(ws: seq<Wrapper>, n: seq<Wrapper>, p: Prefix, d: nat)
    requires Covered(ws, p, d) && |ws| <= |n|
    requires forall a :: 0 <= a < |ws| ==> n[a].prefix == ws[a].prefix && n[a].distance <= ws[a].distance
    ensures Covered(n, p, d)
  {
    var a :| 0 <= a < |ws| && ws[a].prefix == p && ws[a].distance <= d;
    assert n[a].prefix == p;
  }

  lemma SummaryKept(ws: seq<Wrapper>, src: seq<nat>, offers: seq<Offer>, o: Offer)
    requires Summary(ws, src, offers)
    requires Covered(ws, o.prefix, Truncated(o.distance))
    ensures Summary(ws, src, offers + [o])
  {
  }

  lemma SummaryExtended(ws: seq<Wrapper>, src: seq<nat>, offers: seq<Offer>, o: Offer, w: Wrapper)
    requires Summary(ws, src, offers) && Holds(w, o)
    requires forall a :: 0 <= a < |ws| ==> ws[a].prefix != o.prefix
    ensures Summary(ws + [w], src + [|offers|], offers + [o])
  {
    var r := ws + [w];
    assert r[|ws|].prefix == o.prefix;
    forall n | 0 <= n < |offers|
      ensures Covered(r, offers[n].prefix, Truncated(offers[n].distance))
    {
      CoveredByMore(ws, r, offers[n].prefix, Truncated(offers[n].distance));
    }
  }

  lemma PrefixesKept(ws: seq<Wrapper>, r: seq<Wrapper>)
    requires DistinctPrefixes(ws) && |r| == |ws|
    requires forall a :: 0 <= a < |ws| ==> r[a].prefix == ws[a].prefix
    ensures DistinctPrefixes(r)
  {
  }

  lemma ReplacedHolds(ws: seq<Wrapper>, src: seq<nat>, offers: seq<Offer>, o: Offer, w: Wrapper, at: nat, a: nat)
    requires Summary(ws, src, offers) && Holds(w, o) && at < |ws| && a < |ws|
    ensures var src', all := src[at := |offers|], offers + [o];
            src'[a] < |all| && Holds(ws[at := w][a], all[src'[a]])
  {
    if a != at {
      assert Holds(ws[a], offers[src[a]]);
    }
  }

  lemma ReplacedCovers(ws: seq<Wrapper>, src: seq<nat>, offers: seq<Offer>, o: Offer, w: Wrapper, at: nat, n: nat)
    requires Summary(ws, src, offers) && Holds(w, o)
    requires at < |ws| && ws[at].prefix == o.prefix && w.distance <= ws[at].distance && n <= |offers|
    ensures var x := (offers + [o])[n]; Covered(ws[at := w], x.prefix, Truncated(x.distance))
  {
    var r := ws[at := w];
    if n < |offers| {
      CoveredByMore(ws, r, offers[n].prefix, Truncated(offers[n].distance));
    } else {
      assert r[at].prefix == o.prefix;
    }
  }

  lemma SummaryReplaced(ws: seq<Wrapper>, src: seq<nat>, offers: seq<Offer>, o: Offer, w: Wrapper, at: nat)
    requires Summary(ws, src, offers) && Holds(w, o)
    requires at < |ws| && ws[at].prefix == o.prefix && w.distance <= ws[at].distance
    ensures Summary(ws[at := w], src[at := |offers|], offers + [o])
  {
    var r, src', all := ws[at := w], src[at := |offers|], offers + [o];
    PrefixesKept(ws, r);
    forall a | 0 <= a < |r| ensures src'[a] < |all| && Holds(r[a], all[src'[a]]) {
      ReplacedHolds(ws, src, offers, o, w, at, a);
    }
    forall n | 0 <= n < |all| ensures Covered(r, all[n].prefix, Truncated(all[n].distance)) {
      ReplacedCovers(ws, src, offers, o, w, at, n);
    }
  }

  lemma TruncationKeepsOrder(a: Offer, b: Offer)
    requires Sane(a) && Sane(b)
    ensures Truncated(a.distance) <= Truncated(b.distance) <==> a.distance <= b.distance
  {
    assert Truncated(INFINITE) == U16_SIZE - 1;
  }

  /** No offer for the prefix is nearer than the one held, and ours, if any, is the one held. */
  lemma SummaryNearest(ws: seq<Wrapper>, src: seq<nat>, offers: seq<Offer>, a: nat, n: nat)
    requires Summary(ws, src, offers) && AllSane(offers)
    requires a < |ws| && n < |offers| && offers[n].prefix == ws[a].prefix
    ensures offers[src[a]].distance <= offers[n].distance
    ensures offers[n].ours ==> ws[a].direct
  {
    assert Covered(ws, offers[n].prefix, Truncated(offers[n].distance));
    var b :| 0 <= b < |ws| && ws[b].prefix == offers[n].prefix && ws[b].distance <= Truncated(offers[n].distance);
    assert b == a;
    assert Holds(ws[a], offers[src[a]]);
    TruncationKeepsOrder(offers[src[a]], offers[n]);
  }

  // --- one advertisement after another ---------------------------------------------

  /** Where the wrapper for `p` is, or -1. */
  function At(ws: seq<Wrapper>, p: Prefix): (at: int)
    ensures at == -1 ==> forall a :: 0 <= a < |ws| ==> ws[a].prefix != p
    ensures at != -1 ==> 0 <= at < |ws| && ws[at].prefix == p && forall a :: 0 <= a < at ==> ws[a].prefix != p
  {
    if ws == [] then -1
    else if ws[0].prefix == p then 0
    else
      var k := At(ws[1..], p);
      if k == -1 then -1 else k + 1
  }

  function Unseen(o: Offer): Wrapper {
    Wrapper(o.prefix, Truncated(o.distance), o.nextRid, o.ours)
  }

  function Improved(w: Wrapper, o: Offer): Wrapper {
    if GivesWay(w.distance, o.distance)
    then Wrapper(w.prefix, Truncated(o.distance), o.nextRid, w.direct || o.ours)
    else w
  }

  function Taken(ws: seq<Wrapper>, o: Offer): seq<Wrapper> {
    var at := At(ws, o.prefix);
    if at == -1 then ws + [Unseen(o)] else ws[at := Improved(ws[at], o)]
  }

  /** The list after all the offers, first to last. */
  function TakenAll(offers: seq<Offer>): seq<Wrapper> {
    if offers == [] then [] else Taken(TakenAll(offers[..|offers| - 1]), offers[|offers| - 1])
  }

  lemma TakenNext(offers: seq<Offer>, o: Offer)
    ensures TakenAll(offers + [o]) == Taken(TakenAll(offers), o)
  {
    assert (offers + [o])[..|offers|] == offers;
  }

  method GetRouteWrapper(ws: seq<Wrapper>, p: Prefix) returns (at: int)
    ensures at == At(ws, p)
  {
    for a := 0 to |ws|
      invariant forall b :: 0 <= b < a ==> ws[b].prefix != p
    {
      if ws[a].prefix == p {
        return a;
      }
    }
    return -1;
  }

  /** Takes one advertisement into the wrapper list. */
  method AddRouteWrapper(ws: seq<Wrapper>, o: Offer) returns (r: seq<Wrapper>)
    ensures r == Taken(ws, o)
  {
    var at := GetRouteWrapper(ws, o.prefix);
    if at == -1 {
      r := ws + [Wrapper(o.prefix, Truncated(o.distance), o.nextRid, o.ours)];
    } else if o.distance >= ws[at].distance {
      r := ws;
    } else {
      var w := ws[at].(distance := Truncated(o.distance), nextRid := o.nextRid);
      if o.ours {
        w := w.(direct := true);
      }
      r := ws[at := w];
    }
  }

  lemma TakenSummary(ws: seq<Wrapper>, src: seq<nat>, offers: seq<Offer>, o: Offer) returns (src': seq<nat>)
    requires Summary(ws, src, offers) && AllSane(offers) && Sane(o)
    ensures Summary(Taken(ws, o), src', offers + [o])
  {
    var at := At(ws, o.prefix);
    if at == -1 {
      src' := src + [|offers|];
      SummaryExtended(ws, src, offers, o, Unseen(o));
    } else if !GivesWay(ws[at].distance, o.distance) {
      src' := src;
      TakenKeeps(ws, src, offers, o, at);
    } else {
      src' := src[at := |offers|];
      TakenReplaces(ws, src, offers, o, at);
    }
  }

  lemma TakenKeeps(ws: seq<Wrapper>, src: seq<nat>, offers: seq<Offer>, o: Offer, at: nat)
    requires Summary(ws, src, offers) && AllSane(offers) && Sane(o)
    requires at < |ws| && ws[at].prefix == o.prefix && !GivesWay(ws[at].distance, o.distance)
    ensures Summary(ws[at := Improved(ws[at], o)], src, offers + [o])
  {
    assert ws[at := Improved(ws[at], o)] == ws;
    assert Holds(ws[at], offers[src[at]]);
    TruncationKeepsOrder(offers[src[at]], o);
    KeptOrder(offers[src[at]], o);
    SummaryKept(ws, src, offers, o);
  }

  /** The mixed comparison, 32 bits against 16, decides as 32 bits against 32 would. */
  lemma KeptOrder(held: Offer, o: Offer)
    requires Sane(held) && Sane(o)
    ensures GivesWay(Truncated(held.distance), o.distance) ==> o.distance < held.distance
    ensures !GivesWay(Truncated(held.distance), o.distance) ==> Truncated(held.distance) <= Truncated(o.distance)
  {
    assert Truncated(INFINITE) == U16_SIZE - 1;
  }

  lemma TakenReplaces(ws: seq<Wrapper>, src: seq<nat>, offers: seq<Offer>, o: Offer, at: nat)
    requires Summary(ws, src, offers) && AllSane(offers) && Sane(o)
    requires at < |ws| && ws[at].prefix == o.prefix && GivesWay(ws[at].distance, o.distance)
    ensures Summary(ws[at := Improved(ws[at], o)], src[at := |offers|], offers + [o])
  {
    var held := offers[src[at]];
    assert Holds(ws[at], held);
    KeptOrder(held, o);
    TruncationKeepsOrder(o, held);
    assert held.ours ==> o.distance < 0;
    SummaryReplaced(ws, src, offers, o, Improved(ws[at], o), at);
  }

  lemma {:induction false} TakenAllSummary(offers: seq<Offer>) returns (src: seq<nat>)
    requires AllSane(offers)
    ensures Summary(TakenAll(offers), src, offers)
  {
    if offers == [] {
      src := [];
    } else {
      var n := |offers| - 1;
      src := TakenAllSummary(offers[..n]);
      src := TakenSummary(TakenAll(offers[..n]), src, offers[..n], offers[n]);
      assert offers[..n] + [offers[n]] == offers;
    }
  }

  // --- what the truncation costs without a bound on distances ----------------------

  /** The distance a wrapper ends up with when its advertisers are met at distances `ds`, in this order. */
  function Kept(ds: seq<U32>): (w: nat)
    requires ds != []
  {
    var n := |ds| - 1;
    if n == 0 then Truncated(ds[0])
    else if GivesWay(Kept(ds[..n]), ds[n]) then Truncated(ds[n])
    else Kept(ds[..n])
  }

  ghost predicate IsLeast(ds: seq<U32>, m: nat) {
    (exists n :: 0 <= n < |ds| && ds[n] == m) && (forall n :: 0 <= n < |ds| ==> m <= ds[n])
  }

  /** Only the first advertiser met is ever truncated. */
  lemma {:induction false} KeptValue(ds: seq<U32>)
    requires ds != []
    ensures Kept(ds) <= Truncated(ds[0]) && forall n :: 0 < n < |ds| ==> Kept(ds) <= ds[n]
    ensures Kept(ds) == Truncated(ds[0]) || exists n :: 0 < n < |ds| && Kept(ds) == ds[n]
  {
    var n := |ds| - 1;
    if n != 0 {
      KeptValue(ds[..n]);
      assert ds[..n][0] == ds[0];
      assert forall m :: 0 < m < n ==> ds[..n][m] == ds[m];
    }
  }

  /** A wrapper holds the least distance exactly if the first advertiser fits 16 bits or a later one undercuts what is left of it. */
  lemma KeptIsLeast(ds: seq<U32>)
    requires ds != []
    ensures IsLeast(ds, Kept(ds)) <==>
      ds[0] < U16_SIZE || exists n :: 0 < n < |ds| && ds[n] <= Truncated(ds[0])
  {
    KeptValue(ds);
  }

  // --- which advertiser a wrapper holds ------------------------------------------------

  /** The position in `ds` of the advertiser that the wrapper ends up with. */
  function HeldAt(ds: seq<U32>): (h: nat)
    requires ds != []
    ensures h < |ds|
  {
    var n := |ds| - 1;
    if n == 0 then 0
    else if GivesWay(Kept(ds[..n]), ds[n]) then n
    else HeldAt(ds[..n])
  }

  lemma {:induction false} KeptIsHeld(ds: seq<U32>)
    requires ds != []
    ensures Kept(ds) == Truncated(ds[HeldAt(ds)])
  {
    var n := |ds| - 1;
    if n != 0 {
      KeptIsHeld(ds[..n]);
    }
  }

  /** Every advertiser met before the one held is farther away; if the first was replaced, by one below its low 16 bits. */
  lemma {:induction false} HeldBeatsEarlier(ds: seq<U32>)
    requires ds != []
    ensures HeldAt(ds) > 0 ==> ds[HeldAt(ds)] < Truncated(ds[0])
    ensures forall n :: 0 <= n < HeldAt(ds) ==> ds[HeldAt(ds)] < ds[n]
  {
    var n := |ds| - 1;
    if n != 0 {
      HeldBeatsEarlier(ds[..n]);
      KeptValue(ds[..n]);
      assert forall m :: 0 <= m < n ==> ds[..n][m] == ds[m];
    }
  }

  ghost predicate NearestAt(ds: seq<U32>, h: nat)
    requires h < |ds|
  {
    forall n :: 0 <= n < |ds| ==> ds[h] <= ds[n]
  }

  /**
   A wrapper holds a nearest advertiser exactly if some later advertiser is
   nearer than the low 16 bits of the first, or the first is itself a nearest.
   */
  lemma HeldIsNearest(ds: seq<U32>)
    requires ds != []
    ensures NearestAt(ds, HeldAt(ds)) <==>
      (exists n :: 0 < n < |ds| && ds[n] < Truncated(ds[0])) || NearestAt(ds, 0)
  {
    HeldBeatsEarlier(ds);
    if HeldAt(ds) > 0 {
      ReplacedIsNearest(ds);
    } else {
      KeptFirst(ds);
    }
  }

  lemma TruncatedBound(d: U32)
    ensures Truncated(d) <= d && (d < U16_SIZE ==> Truncated(d) == d) && Truncated(d) < U16_SIZE
  {
  }

  lemma ReplacedIsNearest(ds: seq<U32>)
    requires ds != [] && HeldAt(ds) > 0
    ensures NearestAt(ds, HeldAt(ds))
  {
    KeptValue(ds);
    KeptIsHeld(ds);
    HeldBeatsEarlier(ds);
    TruncatedBound(ds[0]);
    TruncatedBound(ds[HeldAt(ds)]);
  }

  lemma KeptFirst(ds: seq<U32>)
    requires ds != [] && HeldAt(ds) == 0
    ensures forall n :: 0 < n < |ds| ==> Truncated(ds[0]) <= ds[n]
  {
    KeptValue(ds);
    KeptIsHeld(ds);
  }

  /** At 65541 hops, low 16 bits 5, the first of two advertisers is held although the other is 7 hops away. */
  lemma FarAdvertiserHeld(p: Prefix, far: U32, near: U32)
    ensures TakenAll([Offer(p, 65541, far, false), Offer(p, 7, near, false)]) == [Wrapper(p, 5, far, false)]
  {
    var a, b := Offer(p, 65541, far, false), Offer(p, 7, near, false);
    TakenNext([], a);
    TakenNext([a], b);
    assert [] + [a] == [a] && [a] + [b] == [a, b];
    StaysHeld(Unseen(a), b);
    assert TakenAll([a]) == Taken([], a) == [Unseen(a)];
  }

  lemma StaysHeld(w: Wrapper, o: Offer)
    requires w.prefix == o.prefix && o.distance >= w.distance
    ensures Taken([w], o) == [w]
  {
    assert At([w], o.prefix) == 0;
  }

  /** The offers for prefix `p`, in order. */
  function OffersFor(offers: seq<Offer>, p: Prefix): seq<Offer> {
    if offers == [] then []
    else
      var rest, o := OffersFor(offers[..|offers| - 1], p), offers[|offers| - 1];
      if o.prefix == p then rest + [o] else rest
  }

  function Distances(os: seq<Offer>): (ds: seq<U32>)
    ensures |ds| == |os| && forall n :: 0 <= n < |os| ==> ds[n] == os[n].distance
  {
    seq(|os|, n requires 0 <= n < |os| => os[n].distance)
  }

  /** The offer among `os` that a wrapper ends up with. */
  function Held(os: seq<Offer>): Offer
    requires os != []
  {
    os[HeldAt(Distances(os))]
  }

  /** Only our own router is at distance 0. */
  ghost predicate OursAtZero(offers: seq<Offer>) {
    forall n :: 0 <= n < |offers| && offers[n].ours ==> offers[n].distance == 0
  }

  /** One wrapper for every prefix offered and no other, each made of the offer held. */
  ghost predicate Exact(ws: seq<Wrapper>, offers: seq<Offer>) {
    && DistinctPrefixes(ws)
    && (forall p :: OffersFor(offers, p) != [] <==> At(ws, p) != -1)
    && (forall a :: 0 <= a < |ws| ==> ExactAt(ws[a], offers))
  }

  ghost predicate ExactAt(w: Wrapper, offers: seq<Offer>) {
    MadeOf(w, OffersFor(offers, w.prefix), OursAtZero(offers))
  }

  ghost predicate MadeOf(w: Wrapper, os: seq<Offer>, ours: bool) {
    && os != []
    && w.distance == Truncated(Held(os).distance) && w.nextRid == Held(os).nextRid
    && (ours ==> w.direct == Held(os).ours)
  }

  lemma OffersForNext(offers: seq<Offer>, o: Offer, p: Prefix)
    ensures OffersFor(offers + [o], p) == if o.prefix == p then OffersFor(offers, p) + [o] else OffersFor(offers, p)
  {
    assert (offers + [o])[..|offers|] == offers;
  }

  lemma {:induction false} OffersForMember(offers: seq<Offer>, p: Prefix, o: Offer)
    ensures o in OffersFor(offers, p) <==> o in offers && o.prefix == p
  {
    if offers != [] {
      OffersForMember(offers[..|offers| - 1], p, o);
    }
  }

  lemma HeldNext(os: seq<Offer>, o: Offer)
    requires os != []
    ensures Held(os + [o]) == if GivesWay(Truncated(Held(os).distance), o.distance) then o else Held(os)
  {
    var ds, more := Distances(os), Distances(os + [o]);
    assert more[..|ds|] == ds;
    KeptIsHeld(ds);
  }

  lemma MadeOfNext(w: Wrapper, os: seq<Offer>, o: Offer, ours: bool)
    requires MadeOf(w, os, ours) && w.prefix == o.prefix
    requires ours ==> (o.ours ==> o.distance == 0) && (Held(os).ours ==> Held(os).distance == 0)
    ensures MadeOf(Improved(w, o), os + [o], ours)
  {
    HeldNext(os, o);
  }

  lemma ExactOther(w: Wrapper, offers: seq<Offer>, o: Offer)
    requires ExactAt(w, offers) && w.prefix != o.prefix
    ensures ExactAt(w, offers + [o])
  {
    OffersForNext(offers, o, w.prefix);
    if OursAtZero(offers + [o]) {
      FewerOurs(offers, o);
    }
  }

  lemma FewerOurs(offers: seq<Offer>, o: Offer)
    requires OursAtZero(offers + [o])
    ensures OursAtZero(offers) && (o.ours ==> o.distance == 0)
  {
    var all := offers + [o];
    assert all[|offers|] == o && forall n :: 0 <= n < |offers| ==> all[n] == offers[n];
  }

  lemma ExactImproved(w: Wrapper, offers: seq<Offer>, o: Offer)
    requires ExactAt(w, offers) && w.prefix == o.prefix
    ensures ExactAt(Improved(w, o), offers + [o])
  {
    var os, ours := OffersFor(offers, w.prefix), OursAtZero(offers + [o]);
    OffersForNext(offers, o, w.prefix);
    if ours {
      FewerOurs(offers, o);
      OffersForMember(offers, w.prefix, Held(os));
    }
    MadeOfNext(w, os, o, ours);
  }

  lemma ExactUnseen(offers: seq<Offer>, o: Offer)
    requires OffersFor(offers, o.prefix) == []
    ensures ExactAt(Unseen(o), offers + [o])
  {
    OffersForNext(offers, o, o.prefix);
    assert Held([o]) == o;
  }

  lemma TakenAt(ws: seq<Wrapper>, o: Offer, p: Prefix)
    ensures At(Taken(ws, o), p) != -1 <==> At(ws, p) != -1 || p == o.prefix
  {
    var r, at := Taken(ws, o), At(ws, o.prefix);
    assert r[if at == -1 then |ws| else at].prefix == o.prefix;
    assert forall a :: 0 <= a < |ws| ==> r[a].prefix == ws[a].prefix;
  }

  lemma TakenDistinct(ws: seq<Wrapper>, o: Offer)
    requires DistinctPrefixes(ws)
    ensures DistinctPrefixes(Taken(ws, o))
  {
  }

  lemma ExactTaken(ws: seq<Wrapper>, offers: seq<Offer>, o: Offer)
    requires Exact(ws, offers)
    ensures Exact(Taken(ws, o), offers + [o])
  {
    var r, at := Taken(ws, o), At(ws, o.prefix);
    TakenDistinct(ws, o);
    forall p ensures OffersFor(offers + [o], p) != [] <==> At(r, p) != -1 {
      OffersForNext(offers, o, p);
      TakenAt(ws, o, p);
    }
    forall a | 0 <= a < |r| ensures ExactAt(r[a], offers + [o]) {
      if a == |ws| {
        ExactUnseen(offers, o);
      } else if a == at {
        ExactImproved(ws[a], offers, o);
      } else {
        ExactOther(ws[a], offers, o);
      }
    }
  }

  /** Whatever the distances: one wrapper per offered prefix, made of the offer that `HeldAt` picks. */
  lemma {:induction false} TakenAllExact(offers: seq<Offer>)
    ensures Exact(TakenAll(offers), offers)
  {
    if offers != [] {
      var n := |offers| - 1;
      TakenAllExact(offers[..n]);
      ExactTaken(TakenAll(offers[..n]), offers[..n], offers[n]);
      assert offers[..n] + [offers[n]] == offers;
    }
  }
}
