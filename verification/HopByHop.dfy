/**
 Several routers at once, each with a database of its own: when all of them have
 computed their routes and their databases say the same, in whatever order,
 each sending a packet on to its own first hop takes it to its destination.
 */
module HopByHop {
  import opened Numbers
  import opened HopGraph
  import opened Labels
  import opened ShortestPaths

  // --- databases that say the same ----------------------------------------------------------

  ghost predicate Has(g: Graph, id: U32) {
    exists i :: 0 <= i < |g| && g[i].id == id
  }

  /** Where router `id` is in a list. */
  function Pos(g: Graph, id: U32): (i: nat)
    requires Has(g, id)
    ensures i < |g| && g[i].id == id
  {
    if g[0].id == id then 0 else HasRest(g, id); Pos(g[1..], id) + 1
  }

  lemma HasRest(g: Graph, id: U32)
    requires Has(g, id) && g[0].id != id
    ensures Has(g[1..], id)
  {
    var i :| 0 <= i < |g| && g[i].id == id;
    assert g[1..][i - 1].id == id;
  }

  lemma PosUnique(g: Graph, i: nat)
    requires DistinctIds(g) && i < |g|
    ensures Has(g, g[i].id) && Pos(g, g[i].id) == i
  {
    var k := Pos(g, g[i].id);
  }

  ghost predicate SameInterfaces(a: Node, b: Node) {
    forall x :: x in a.interfaces <==> x in b.interfaces
  }

  /** Every router of `g` is in `h`, with the same set of interfaces. */
  ghost predicate Within(g: Graph, h: Graph) {
    forall i :: 0 <= i < |g| ==> Has(h, g[i].id) && SameInterfaces(g[i], h[Pos(h, g[i].id)])
  }

  /** The same routers with the same interfaces; routers and interfaces may be listed in different orders. */
  ghost predicate Agree(g: Graph, h: Graph) {
    Within(g, h) && Within(h, g)
  }

  lemma EdgeCarries(g: Graph, h: Graph, i: nat, j: nat)
    requires Within(g, h) && i < |g| && j < |g| && Edge(g, i, j)
    ensures Has(h, g[i].id) && Has(h, g[j].id) && Edge(h, Pos(h, g[i].id), Pos(h, g[j].id))
  {
    var u, v := Pos(h, g[i].id), Pos(h, g[j].id);
    var k :| 0 <= k < |g[i].interfaces| && Names(g[i].interfaces[k], g[j].id);
    assert g[i].interfaces[k] in h[u].interfaces;
    var m :| 0 <= m < |h[u].interfaces| && h[u].interfaces[m] == g[i].interfaces[k];
    assert Names(h[u].interfaces[m], h[v].id);
  }

  lemma {:induction false} WalkCarries(g: Graph, h: Graph, s: nat, v: nat, n: nat)
    requires Within(g, h) && s < |g| && v < |g| && Walk(g, s, v, n)
    ensures Has(h, g[s].id) && Has(h, g[v].id) && Walk(h, Pos(h, g[s].id), Pos(h, g[v].id), n)
    decreases n
  {
    if n > 0 {
      var u :| 0 <= u < |g| && Walk(g, s, u, n - 1) && Edge(g, u, v);
      WalkCarries(g, h, s, u, n - 1);
      EdgeCarries(g, h, u, v);
    }
  }

  // --- a network of them -----------------------------------------------------------------------

  /** One router's computation: its database, its own position in it, and the labels of its last run. */
  datatype View = View(st: Labelling, g: Graph, us: nat, run: nat)

  type Network = map<U32, View>

  ghost predicate Agreed(net: Network, a: U32, b: U32)
    requires a in net && b in net
  {
    Agree(net[a].g, net[b].g)
  }

  ghost predicate OwnView(net: Network, id: U32)
    requires id in net
  {
    var v := net[id];
    && Settled(v.st, v.g, v.us, v.run) && v.g[v.us].id == id
    && (forall k :: 0 <= k < |v.g| ==> v.g[k].id in net)
  }

  /** Every router has settled routes over its own database, the databases agree, and all routers in them take part. */
  ghost predicate Converged(net: Network) {
    && (forall id {:trigger OwnView(net, id)} :: id in net ==> OwnView(net, id))
    && (forall a, b {:trigger Agreed(net, a, b)} :: a in net && b in net ==> Agreed(net, a, b))
  }

  lemma Knows(net: Network, u: U32, v: U32)
    requires Converged(net) && u in net && v in net
    ensures DistinctIds(net[u].g) && Has(net[u].g, v)
  {
    assert OwnView(net, u) && OwnView(net, v);
    assert Agreed(net, v, u);
    assert Has(net[u].g, net[v].g[net[v].us].id);
  }

  /** Where `u` lists `v`. */
  ghost function Place(net: Network, u: U32, v: U32): (i: nat)
    requires Converged(net) && u in net && v in net
    ensures i < |net[u].g| && net[u].g[i].id == v
  {
    Knows(net, u, v);
    Pos(net[u].g, v)
  }

  lemma PlaceIndex(net: Network, u: U32, i: nat)
    requires Converged(net) && u in net && i < |net[u].g|
    ensures net[u].g[i].id in net && Place(net, u, net[u].g[i].id) == i
  {
    assert OwnView(net, u);
    PosUnique(net[u].g, i);
  }

  lemma PlaceAtHome(net: Network, u: U32)
    requires Converged(net) && u in net
    ensures Place(net, u, u) == net[u].us
  {
    assert OwnView(net, u);
    PosUnique(net[u].g, net[u].us);
  }

  /** How far `u` believes `dest` to be. */
  ghost function Hops(net: Network, u: U32, dest: U32): U32
    requires Converged(net) && u in net && dest in net
  {
    assert OwnView(net, u);
    net[u].st[Place(net, u, dest)].distance
  }

  /** `v` is an active neighbour of `u`, by the database of `u`. */
  ghost predicate Linked(net: Network, u: U32, v: U32)
    requires Converged(net) && u in net && v in net
  {
    assert OwnView(net, u);
    Edge(net[u].g, net[u].us, Place(net, u, v))
  }

  /** A walk that one router's database shows is in that of every other. */
  lemma WalkSeen(net: Network, a: U32, b: U32, u: U32, v: U32, n: nat)
    requires Converged(net) && a in net && b in net && u in net && v in net
    requires Walk(net[a].g, Place(net, a, u), Place(net, a, v), n)
    ensures Walk(net[b].g, Place(net, b, u), Place(net, b, v), n)
  {
    assert Agreed(net, a, b);
    WalkCarries(net[a].g, net[b].g, Place(net, a, u), Place(net, a, v), n);
  }

  lemma HopsBound(net: Network, u: U32, dest: U32, n: nat)
    requires Converged(net) && u in net && dest in net
    requires Walk(net[u].g, Place(net, u, u), Place(net, u, dest), n)
    ensures Hops(net, u, dest) <= n
  {
    PlaceAtHome(net, u);
    var v := net[u];
    assert OwnView(net, u);
    WalkBound(v.st, v.g, v.us, v.run, Place(net, u, dest), n);
  }

  lemma HopsWalk(net: Network, u: U32, dest: U32)
    requires Converged(net) && u in net && dest in net && Hops(net, u, dest) != INFINITE
    ensures Walk(net[u].g, Place(net, u, u), Place(net, u, dest), Hops(net, u, dest))
  {
    PlaceAtHome(net, u);
    var v := net[u];
    assert OwnView(net, u);
    SettledIsShortest(v.st, v.g, v.us, v.run, Place(net, u, dest));
  }

  lemma HopsZero(net: Network, u: U32)
    requires Converged(net) && u in net
    ensures Hops(net, u, u) == 0
  {
    PlaceAtHome(net, u);
    var v := net[u];
    assert OwnView(net, u);
    SettledIsShortest(v.st, v.g, v.us, v.run, v.us);
  }

  lemma {:induction false} WalkFrom(g: Graph, u: nat, v: nat, w: nat, n: nat)
    requires u < |g| && v < |g| && w < |g|
    requires Edge(g, u, v) && Walk(g, v, w, n)
    ensures Walk(g, u, w, n + 1)
    decreases n
  {
    if n == 0 {
      assert Walk(g, u, u, 0);
    } else {
      var x :| 0 <= x < |g| && Walk(g, v, x, n - 1) && Edge(g, x, w);
      WalkFrom(g, u, v, x, n - 1);
    }
  }

  lemma {:induction false} PathIsWalk(g: Graph, p: seq<nat>)
    requires p != [] && IsPath(g, p)
    ensures Walk(g, p[0], p[|p| - 1], |p| - 1)
  {
    var n := |p| - 1;
    if n > 0 {
      PathIsWalk(g, p[..n]);
      assert Edge(g, p[n - 1], p[n]);
    }
  }

  lemma RestOfPath(g: Graph, p: seq<nat>)
    requires |p| >= 2 && IsPath(g, p)
    ensures Walk(g, p[1], p[|p| - 1], |p| - 2)
  {
    var q := p[1..];
    forall k | 0 <= k < |q| - 1 ensures Edge(g, q[k], q[k + 1]) {
      assert Edge(g, p[k + 1], p[k + 2]);
    }
    PathIsWalk(g, q);
  }

  /** One link more from a neighbour of `u`: no router is farther from `u` than one hop beyond its distance there. */
  lemma HopsThrough(net: Network, u: U32, v: U32, dest: U32)
    requires Converged(net) && u in net && v in net && dest in net
    requires Linked(net, u, v) && Hops(net, v, dest) != INFINITE
    ensures Hops(net, u, dest) <= Hops(net, v, dest) + 1
  {
    var e := Hops(net, v, dest);
    HopsWalk(net, v, dest);
    WalkSeen(net, v, u, v, dest, e);
    PlaceAtHome(net, u);
    WalkFrom(net[u].g, Place(net, u, u), Place(net, u, v), Place(net, u, dest), e);
    HopsBound(net, u, dest, e + 1);
  }

  // --- from first hop to first hop ----------------------------------------------------------

  /** The position, in the list of `u`, of its first hop towards `dest`. */
  ghost function FirstHopOf(net: Network, u: U32, dest: U32): (h: nat)
    requires Converged(net) && u in net && dest in net
    requires u != dest && Hops(net, u, dest) != INFINITE
    ensures h < |net[u].g|
  {
    var v := net[u];
    assert OwnView(net, u);
    PlaceAtHome(net, u);
    RouteIsShortest(v.st, v.g, v.us, v.run, Place(net, u, dest));
    FirstHop(v.st, v.us, v.run, Place(net, u, dest))
  }

  /** Where `u` sends a packet for `dest`. */
  ghost function NextHop(net: Network, u: U32, dest: U32): (v: U32)
    requires Converged(net) && u in net && dest in net
    requires u != dest && Hops(net, u, dest) != INFINITE
    ensures v in net
  {
    PlaceIndex(net, u, FirstHopOf(net, u, dest));
    net[u].g[FirstHopOf(net, u, dest)].id
  }

  lemma NextHopLinked(net: Network, u: U32, dest: U32)
    requires Converged(net) && u in net && dest in net
    requires u != dest && Hops(net, u, dest) != INFINITE
    ensures Linked(net, u, NextHop(net, u, dest)) && Hops(net, u, dest) > 0
    ensures Walk(net[u].g, Place(net, u, NextHop(net, u, dest)), Place(net, u, dest), Hops(net, u, dest) - 1)
  {
    var v := net[u];
    assert OwnView(net, u);
    PlaceAtHome(net, u);
    PlaceIndex(net, u, FirstHopOf(net, u, dest));
    RouteIsShortest(v.st, v.g, v.us, v.run, Place(net, u, dest));
    RestOfPath(v.g, Route(v.st, v.us, v.run, Place(net, u, dest)));
  }

  /** The next hop is an active neighbour, and by its own computation over its own database exactly one hop nearer. */
  lemma NextHopIsNearer(net: Network, u: U32, dest: U32)
    requires Converged(net) && u in net && dest in net
    requires u != dest && Hops(net, u, dest) != INFINITE
    ensures var v := NextHop(net, u, dest);
            Linked(net, u, v) && Hops(net, v, dest) + 1 == Hops(net, u, dest)
  {
    var v, d := NextHop(net, u, dest), Hops(net, u, dest);
    NextHopLinked(net, u, dest);
    NextHopBound(net, u, v, dest, d - 1);
    HopsThrough(net, u, v, dest);
  }

  lemma NextHopBound(net: Network, u: U32, v: U32, dest: U32, e: nat)
    requires Converged(net) && u in net && v in net && dest in net
    requires Walk(net[u].g, Place(net, u, v), Place(net, u, dest), e)
    ensures Hops(net, v, dest) <= e
  {
    WalkSeen(net, u, v, v, dest, e);
    HopsBound(net, v, dest, e);
  }

  /** The routers a packet for `dest` passes, from `u` on. */
  ghost function Trip(net: Network, u: U32, dest: U32): (p: seq<U32>)
    requires Converged(net) && u in net && dest in net && Hops(net, u, dest) != INFINITE
    ensures p != [] && p[0] == u && forall k :: 0 <= k < |p| ==> p[k] in net
    decreases Hops(net, u, dest)
  {
    if u == dest then [u]
    else
      NextHopIsNearer(net, u, dest);
      [u] + Trip(net, NextHop(net, u, dest), dest)
  }

  ghost predicate LinkedPath(net: Network, p: seq<U32>)
    requires Converged(net) && forall k :: 0 <= k < |p| ==> p[k] in net
  {
    forall k :: 0 <= k < |p| - 1 ==> Linked(net, p[k], p[k + 1])
  }

  /** One hop less to go at every router of `p`. */
  ghost predicate Falls(net: Network, p: seq<U32>, dest: U32, d: int)
    requires Converged(net) && dest in net && forall k :: 0 <= k < |p| ==> p[k] in net
  {
    forall k :: 0 <= k < |p| ==> Hops(net, p[k], dest) == d - k
  }

  lemma PathFrom(net: Network, u: U32, q: seq<U32>)
    requires Converged(net) && u in net && q != [] && forall k :: 0 <= k < |q| ==> q[k] in net
    requires LinkedPath(net, q) && Linked(net, u, q[0])
    ensures forall k :: 0 <= k < |[u] + q| ==> ([u] + q)[k] in net
    ensures LinkedPath(net, [u] + q)
  {
    var p := [u] + q;
    forall k | 0 <= k < |p| - 1 ensures Linked(net, p[k], p[k + 1]) {
      if k > 0 {
        assert p[k] == q[k - 1] && p[k + 1] == q[k - 1 + 1];
      }
    }
  }

  lemma FallsFrom(net: Network, u: U32, q: seq<U32>, dest: U32, d: int, e: int)
    requires Converged(net) && u in net && dest in net && forall k :: 0 <= k < |q| ==> q[k] in net
    requires Hops(net, u, dest) == d && e == d - 1 && Falls(net, q, dest, e)
    ensures forall k :: 0 <= k < |[u] + q| ==> ([u] + q)[k] in net
    ensures Falls(net, [u] + q, dest, d)
  {
    var p := [u] + q;
    forall k | 0 <= k < |p| ensures Hops(net, p[k], dest) == d - k {
      assert k > 0 ==> p[k] == q[k - 1];
    }
  }

  /**
   From any router that can reach it, a packet arrives, over active adjacencies
   and in the least number of hops; the distance to go falls at every router,
   so it passes none of them twice.
   */
  lemma {:induction false} TripArrives(net: Network, u: U32, dest: U32)
    requires Converged(net) && u in net && dest in net && Hops(net, u, dest) != INFINITE
    ensures var p := Trip(net, u, dest);
            && p[|p| - 1] == dest && LinkedPath(net, p) && |p| == Hops(net, u, dest) + 1
            && Falls(net, p, dest, Hops(net, u, dest))
    decreases Hops(net, u, dest)
  {
    if u == dest {
      HopsZero(net, u);
    } else {
      NextHopIsNearer(net, u, dest);
      var v := NextHop(net, u, dest);
      var q := Trip(net, v, dest);
      TripArrives(net, v, dest);
      PathFrom(net, u, q);
      FallsFrom(net, u, q, dest, Hops(net, u, dest), Hops(net, v, dest));
    }
  }
}
