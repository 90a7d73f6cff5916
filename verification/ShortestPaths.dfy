/**
 What a finished run means: least hop counts, and predecessors that spell out
 shortest paths, or for routers this run did not reach still lead back to us.
 */
module ShortestPaths {
  import opened Numbers
  import opened HopGraph
  import opened Labels

  /** The main loop has stopped: nothing outside N' has been reached. */
  ghost predicate Settled(st: Labelling, g: Graph, us: nat, run: nat) {
    && Exploring(st, g, us, run)
    && AllRelaxedBut(st, g, NONE)
    && (forall i :: 0 <= i < |st| && !st[i].found ==> st[i].distance == INFINITE)
  }

  lemma {:induction false} WalkBound(st: Labelling, g: Graph, us: nat, run: nat, v: nat, n: nat)
    requires Settled(st, g, us, run) && v < |st| && Walk(g, us, v, n)
    ensures st[v].found && st[v].distance <= n
    decreases n
  {
    if n != 0 {
      var u :| 0 <= u < |g| && Walk(g, us, u, n - 1) && Edge(g, u, v);
      WalkBound(st, g, us, run, u, n - 1);
      assert Relaxed(st, g, u, |g[u].interfaces|);
    }
  }

  /** A finished run labels every router with its least hop count, INFINITE meaning unreachable. */
  lemma SettledIsShortest(st: Labelling, g: Graph, us: nat, run: nat, v: nat)
    requires Settled(st, g, us, run) && v < |st|
    ensures st[v].distance != INFINITE ==> IsHopCount(g, us, v, st[v].distance)
    ensures st[v].distance == INFINITE <==> !Reachable(g, us, v)
    ensures st[v].distance == 0 <==> v == us
  {
    forall n: nat | Walk(g, us, v, n)
      ensures st[v].found && st[v].distance <= n
    {
      WalkBound(st, g, us, run, v, n);
    }
    assert Labelled(st, g, us, run, v);
    assert Walk(g, us, us, 0);
  }

  /** Where following predecessors from `i` ends: the router whose predecessor is us. */
  ghost function FirstHop(st: Labelling, us: nat, run: nat, i: nat): (h: nat)
    requires Chained(st, us, run)
    requires i < |st| && st[i].prev != NONE
    ensures h < |st| && st[h].prev == us
    decreases run - st[i].lastRun, st[i].lastDist
  {
    assert Ranked(st, us, run, i);
    if st[i].prev == us then i
    else
      assert Ranked(st, us, run, st[i].prev);
      FirstHop(st, us, run, st[i].prev)
  }

  /** Positions from our router to `i` along predecessors. */
  ghost function Route(st: Labelling, us: nat, run: nat, i: nat): (p: seq<nat>)
    requires Chained(st, us, run)
    requires i < |st| && st[i].prev != NONE
    decreases run - st[i].lastRun, st[i].lastDist
  {
    assert Ranked(st, us, run, i);
    if st[i].prev == us then [us, i]
    else
      assert Ranked(st, us, run, st[i].prev);
      Route(st, us, run, st[i].prev) + [i]
  }

  ghost predicate IsPath(g: Graph, p: seq<nat>) {
    && (forall k :: 0 <= k < |p| ==> p[k] < |g|)
    && (forall k :: 0 <= k < |p| - 1 ==> Edge(g, p[k], p[k + 1]))
  }

  /**
   The predecessors of a reachable router spell out a shortest path from us to
   it, whose second router is the first hop: one hop away, and named by one of
   our own active interfaces.
   */
  lemma {:induction false} RouteIsShortest(st: Labelling, g: Graph, us: nat, run: nat, i: nat)
    requires Settled(st, g, us, run)
    requires i < |st| && i != us && st[i].distance != INFINITE
    ensures st[i].prev != NONE
    ensures var p := Route(st, us, run, i);
            && IsPath(g, p) && |p| == st[i].distance + 1
            && p[0] == us && p[|p| - 1] == i
            && p[1] == FirstHop(st, us, run, i)
    ensures st[FirstHop(st, us, run, i)].distance == 1 && Edge(g, us, FirstHop(st, us, run, i))
    decreases st[i].distance
  {
    var q := st[i].prev;
    assert Labelled(st, g, us, run, i);
    assert Ranked(st, us, run, i);
    if q != us {
      assert Labelled(st, g, us, run, q);
      RouteIsShortest(st, g, us, run, q);
    }
  }

  lemma {:induction false} FoundIdsBound(st: Labelling, g: Graph)
    requires |st| == |g|
    ensures |FoundIds(st, g)| <= |g|
  {
    if |g| != 0 {
      var n := |g| - 1;
      FoundIdsBound(st[..n], g[..n]);
      assert FoundIds(st, g) <= FoundIds(st[..n], g[..n]) + {g[n].id};
      SubsetSize(FoundIds(st, g), FoundIds(st[..n], g[..n]) + {g[n].id});
    }
  }
}
