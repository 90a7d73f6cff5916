/**
 Shortest paths over the router list, as `compute_rtable` runs them: distances,
 the set N' (`found`) and predecessor pointers live in the router records and
 are updated in place. Predecessors are never cleared, so a record may carry a
 pointer from an earlier run.
 */
module Dijkstra {
  import opened Numbers
  import opened HopGraph
  import opened Labels
  import opened ShortestPaths

  class Router {
    const id: U32
    ghost const pos: nat          // position in the router list
    var interfaces: seq<Interface>
    var distance: U32
    var found: bool
    var prev: Router?

    constructor (id: U32, interfaces: seq<Interface>, ghost pos: nat)
      ensures this.id == id && this.interfaces == interfaces && this.pos == pos
      ensures distance == 0 && !found && prev == null
    {
      this.id, this.interfaces, this.pos := id, interfaces, pos;
      distance, found, prev := 0, false, null;
    }
  }

  /** The list holds `r` at its own position. */
  ghost predicate Listed(rs: seq<Router>, r: Router) {
    r.pos < |rs| && rs[r.pos] == r
  }

  /** Record `i` carries label `l` and describes node `n`. */
  ghost predicate Carries(rs: seq<Router>, i: nat, n: Node, l: Label)
    requires i < |rs|
    reads rs
  {
    && rs[i].pos == i
    && n == Node(rs[i].id, rs[i].interfaces)
    && rs[i].distance == l.distance && rs[i].found == l.found
    && (if l.prev == NONE then rs[i].prev == null
        else rs[i].prev != null && Listed(rs, rs[i].prev) && rs[i].prev.pos == l.prev)
  }

  ghost predicate Mirrors(rs: seq<Router>, g: Graph, st: Labelling)
    reads rs
  {
    && |g| == |st| == |rs|
    && (forall i :: 0 <= i < |rs| ==> Carries(rs, i, g[i], st[i]))
  }

  /** `st` is `goal` before position `k`, and still `was` from there on. */
  ghost predicate Partly(st: Labelling, goal: Labelling, was: Labelling, k: nat) {
    && |st| == |goal| == |was|
    && (forall i :: 0 <= i < |st| ==> st[i] == if i < k then goal[i] else was[i])
  }

  lemma PartlyNext(st: Labelling, goal: Labelling, was: Labelling, k: nat, next: nat)
    requires Partly(st, goal, was, k) && k < |st| && next == k + 1
    ensures st[k] == was[k] && Partly(st[k := goal[k]], goal, was, next)
  {
  }

  class RouterDb {
    const ourId: U32
    var routers: seq<Router>
    ghost const us: nat           // position of our own record
    ghost var graph: Graph        // the topology the records describe
    ghost var labels: Labelling   // the labels they carry
    ghost var run: nat            // how many times routes were recomputed

    ghost predicate Mirrored()
      reads this, routers
    {
      Mirrors(routers, graph, labels)
    }

    /** Holds between recomputations, whatever happened to the database so far. */
    ghost predicate Valid()
      reads this, routers
    {
      && Mirrored()
      && DistinctIds(graph)
      && us < |routers| && graph[us].id == ourId
      && Chained(labels, us, run)
    }

    /** Holds after a recomputation. */
    ghost predicate Routed()
      reads this, routers
    {
      Valid() && Settled(labels, graph, us, run)
    }

    /** Only our own record, as at start-up. */
    constructor (ourId: U32, interfaces: seq<Interface>)
      requires ourId != 0
      ensures Valid() && graph == [Node(ourId, interfaces)] && run == 0 && us == 0
      ensures this.ourId == ourId && fresh(routers)
    {
      this.ourId, us, run := ourId, 0, 0;
      var r := new Router(ourId, interfaces, 0);
      routers := [r];
      graph := [Node(ourId, interfaces)];
      labels := [Label(0, false, NONE, 0, 0)];
    }

    method GetRouterByRid(rid: U32) returns (r: Router?)
      requires Mirrored()
      ensures r == null ==> forall i :: 0 <= i < |graph| ==> graph[i].id != rid
      ensures r != null ==> Listed(routers, r) && graph[r.pos].id == rid
    {
      for k := 0 to |routers|
        invariant forall i :: 0 <= i < k ==> graph[i].id != rid
      {
        assert Carries(routers, k, graph[k], labels[k]);
        if routers[k].id == rid {
          return routers[k];
        }
      }
      return null;
    }

    method GetShortest() returns (r: Router?)
      requires Mirrored()
      ensures r == null ==> forall i :: 0 <= i < |labels| && !labels[i].found ==> labels[i].distance == INFINITE
      ensures r != null ==>
        && Listed(routers, r)
        && !labels[r.pos].found && labels[r.pos].distance < INFINITE
        && (forall i :: 0 <= i < |labels| && !labels[i].found ==>
                          labels[r.pos].distance <= labels[i].distance)
    {
      r := null;
      var shortest: U32 := INFINITE;
      for k := 0 to |routers|
        invariant shortest == if r == null then INFINITE else r.distance
        invariant r != null ==> Listed(routers, r) && !r.found && r.distance < INFINITE
        invariant forall i :: 0 <= i < k && !labels[i].found ==> shortest <= labels[i].distance
      {
        assert Carries(routers, k, graph[k], labels[k]);
        if !routers[k].found && routers[k].distance < shortest {
          r, shortest := routers[k], routers[k].distance;
        }
      }
      assert r != null ==> Carries(routers, r.pos, graph[r.pos], labels[r.pos]);
    }

    /** `v` is now reached through `w`. */
    method ReachThrough(v: Router, w: Router)
      requires Mirrored() && Listed(routers, v) && Listed(routers, w)
      requires labels[w.pos].distance + 1 < INFINITE
      modifies v`distance, v`prev, `labels
      ensures Mirrored() && labels == Via(old(labels), run, w.pos, v.pos)
    {
      assert Carries(routers, w.pos, graph[w.pos], labels[w.pos]);
      assert Carries(routers, v.pos, graph[v.pos], labels[v.pos]);
      labels := Via(labels, run, w.pos, v.pos);
      v.distance := w.distance + 1;
      v.prev := w;
      forall j | 0 <= j < |routers| ensures Carries(routers, j, graph[j], labels[j]) {
        assert old(Carries(routers, j, graph[j], labels[j]));
      }
    }

    /** Relaxes the adjacency from `w` to `v` over interface `k` of `w`. */
    method RelaxAdjacency(w: Router, v: Router, ghost k: nat)
      requires Mirrored() && Listed(routers, w) && Listed(routers, v)
      requires Relaxing(labels, graph, us, run, w.pos, k)
      requires k < |graph[w.pos].interfaces| && Names(graph[w.pos].interfaces[k], graph[v.pos].id)
      modifies v`distance, v`prev, `labels
      ensures Mirrored() && FoundIds(labels, graph) == old(FoundIds(labels, graph))
      ensures Relaxing(labels, graph, us, run, w.pos, k + 1)
    {
      assert Carries(routers, w.pos, graph[w.pos], labels[w.pos]);
      assert Carries(routers, v.pos, graph[v.pos], labels[v.pos]);
      if !v.found && w.distance + 1 < v.distance {
        ViaKeepsRelaxing(labels, graph, us, run, w.pos, k, v.pos);
        ViaKeepsFound(labels, graph, run, w.pos, v.pos);
        ReachThrough(v, w);
      }
      NamedInterfaceRelaxed(labels, graph, us, run, w.pos, k, v.pos);
    }

    /** Relaxes one interface of `w`. */
    method RelaxInterface(w: Router, ghost k: nat, i: Interface)
      requires Mirrored() && Listed(routers, w)
      requires Relaxing(labels, graph, us, run, w.pos, k)
      requires k < |graph[w.pos].interfaces| && i == graph[w.pos].interfaces[k]
      modifies routers`distance, routers`prev, `labels
      ensures Mirrored() && FoundIds(labels, graph) == old(FoundIds(labels, graph))
      ensures Relaxing(labels, graph, us, run, w.pos, k + 1)
      ensures i.routerId == 0 || !i.isActive || (forall v :: 0 <= v < |graph| ==> graph[v].id != i.routerId) ==>
        labels == old(labels)
    {
      if i.routerId != 0 && i.isActive {
        var v := GetRouterByRid(i.routerId);
        if v != null {
          RelaxAdjacency(w, v, k);
          return;
        }
      }
      NextInterfaceRelaxed(labels, graph, us, run, w.pos, k);
    }

    method UpdateNeighborDistance(w: Router)
      requires Mirrored() && Listed(routers, w)
      requires Relaxing(labels, graph, us, run, w.pos, 0)
      modifies routers`distance, routers`prev, `labels
      ensures Mirrored() && FoundIds(labels, graph) == old(FoundIds(labels, graph))
      ensures Exploring(labels, graph, us, run) && AllRelaxedBut(labels, graph, NONE)
    {
      assert Carries(routers, w.pos, graph[w.pos], labels[w.pos]);
      for k := 0 to |w.interfaces|
        invariant Mirrored() && FoundIds(labels, graph) == old(FoundIds(labels, graph))
        invariant Relaxing(labels, graph, us, run, w.pos, k)
      {
        assert Carries(routers, w.pos, graph[w.pos], labels[w.pos]);
        RelaxInterface(w, k, w.interfaces[k]);
      }
    }

    /** One record at its starting distance. */
    method ResetRecord(r: Router, ghost start: Label)
      requires Mirrored() && Listed(routers, r) && r.id != 0
      requires start.distance == (if r.id == ourId then 0 else INFINITE) && start.found == (r.id == ourId)
      requires start.prev == labels[r.pos].prev
      modifies r`distance, r`found, `labels
      ensures Mirrored() && labels == old(labels)[r.pos := start]
    {
      if r.id == ourId {
        r.distance := 0;
        r.found := true;
      } else if r.id != 0 {
        r.distance := INFINITE;
        r.found := false;
      }
      labels := labels[r.pos := start];
      forall j | 0 <= j < |routers| ensures Carries(routers, j, graph[j], labels[j]) {
        assert old(Carries(routers, j, graph[j], labels[j]));
      }
    }

    /** Every router at its starting distance: 0 for us, INFINITE for the others. */
    method ResetDistances()
      requires Mirrored() && DistinctIds(graph)
      requires us < |routers| && graph[us].id == ourId
      modifies routers`distance, routers`found, `labels
      ensures Mirrored() && labels == Started(old(labels), us, run)
    {
      ghost var was, goal := labels, Started(labels, us, run);
      var k := 0;
      while k < |routers|
        invariant 0 <= k <= |routers| && Mirrored() && Partly(labels, goal, was, k)
      {
        var next := k + 1;
        var r := routers[k];
        assert Carries(routers, k, graph[k], labels[k]);
        PartlyNext(labels, goal, was, k, next);
        assert r.pos == k;
        ResetRecord(r, goal[k]);
        k := next;
      }
    }

    /** `r` enters N'. */
    method EnterFound(r: Router)
      requires Mirrored() && Listed(routers, r)
      modifies r`found, `labels
      ensures Mirrored() && labels == Entered(old(labels), r.pos)
    {
      r.found := true;
      labels := Entered(labels, r.pos);
      forall j | 0 <= j < |routers| ensures Carries(routers, j, graph[j], labels[j]) {
        assert old(Carries(routers, j, graph[j], labels[j]));
      }
    }

    /** Size of N' once `r` has entered it. */
    ghost function SizeWith(r: Router): (n: nat)
      requires Mirrored() && Listed(routers, r)
      reads this, routers
    {
      |FoundIds(Entered(labels, r.pos), graph)|
    }

    /** `r` is about to enter N' and to be relaxed. */
    ghost predicate Ready(r: Router)
      requires Mirrored()
      reads this, routers
    {
      Listed(routers, r) && Relaxing(Entered(labels, r.pos), graph, us, run, r.pos, 0)
    }

    /** One round of the main loop. */
    method Advance(r: Router) returns (next: Router?)
      requires Mirrored() && Ready(r)
      modifies routers`distance, routers`found, routers`prev, `labels
      ensures Mirrored()
      ensures next == null ==> Settled(labels, graph, us, run)
      ensures next != null ==> Ready(next) && SizeWith(next) == old(SizeWith(r)) + 1 <= INFINITE
    {
      EnterFound(r);
      UpdateNeighborDistance(r);
      next := GetShortest();
      if next != null {
        EnterStartsRelaxing(labels, graph, us, run, next.pos);
        EnterKeepsLabels(labels, graph, us, run, next.pos, us);
        RoomToGrow(labels, graph, next.pos);
      }
    }

    /** The main loop: grows N' from our router until nothing more can be reached. */
    method GrowFound(start: Router)
      requires Mirrored() && Ready(start)
      modifies routers`distance, routers`found, routers`prev, `labels
      ensures Mirrored() && Settled(labels, graph, us, run)
    {
      SubsetOfUpTo(FoundIds(Entered(labels, start.pos), graph), INFINITE);
      ghost var n := SizeWith(start);
      var r: Router? := start;
      while r != null
        invariant Mirrored()
        invariant r != null ==> Ready(r) && SizeWith(r) == n <= INFINITE
        invariant r == null ==> Settled(labels, graph, us, run)
        decreases r != null, INFINITE - n
      {
        r := Advance(r);
        n := n + 1;
      }
    }

    /** One run: afterwards every record holds its least hop count from us. */
    method ComputeDistances()
      requires Valid()
      modifies routers`distance, routers`found, routers`prev, `labels, `run
      ensures Routed() && run == old(run) + 1
      ensures forall i :: 0 <= i < |routers| ==>
        && (routers[i].distance != INFINITE ==> IsHopCount(graph, us, i, routers[i].distance))
        && (routers[i].distance == INFINITE <==> !Reachable(graph, us, i))
    {
      run := run + 1;
      StartExplores(labels, graph, us, run - 1, run);
      ResetDistances();
      assert Entered(labels, us) == labels;
      var r := GetRouterByRid(ourId);
      GrowFound(r);
      forall i | 0 <= i < |routers|
        ensures routers[i].distance != INFINITE ==> IsHopCount(graph, us, i, routers[i].distance)
        ensures routers[i].distance == INFINITE <==> !Reachable(graph, us, i)
      {
        assert Carries(routers, i, graph[i], labels[i]);
        SettledIsShortest(labels, graph, us, run, i);
      }
    }

    /**
     The id of the first router on the way to `r`, read off the predecessors.
     Never meets a null pointer and always ends, even from a router that this
     run did not reach and whose predecessors date from earlier runs.
     */
    method NextRid(r: Router, i: Interface) returns (rid: U32)
      requires Routed() && Listed(routers, r)
      ensures labels[r.pos].prev == NONE ==> rid == i.routerId
      ensures labels[r.pos].prev != NONE ==> rid == graph[FirstHop(labels, us, run, r.pos)].id
    {
      assert Carries(routers, r.pos, graph[r.pos], labels[r.pos]);
      if r.prev == null {
        return i.routerId;
      }
      var cur: Router := r;
      Step(cur);
      while cur.prev.distance != 0
        invariant Listed(routers, cur) && cur.prev != null && labels[cur.pos].prev != NONE
        invariant Carries(routers, cur.pos, graph[cur.pos], labels[cur.pos])
        invariant cur.prev.distance == 0 <==> labels[cur.pos].prev == us
        invariant FirstHop(labels, us, run, cur.pos) == FirstHop(labels, us, run, r.pos)
        decreases run - labels[cur.pos].lastRun, labels[cur.pos].lastDist
      {
        assert Ranked(labels, us, run, cur.pos);
        assert Ranked(labels, us, run, labels[cur.pos].prev);
        cur := cur.prev;
        Step(cur);
      }
      return cur.id;
    }

    /** Only our own record is at distance 0, so the walk stops exactly when it reaches us. */
    lemma Step(cur: Router)
      requires Routed() && Listed(routers, cur) && labels[cur.pos].prev != NONE
      ensures Carries(routers, cur.pos, graph[cur.pos], labels[cur.pos]) && cur.prev != null
      ensures cur.prev.distance == 0 <==> labels[cur.pos].prev == us
    {
      assert Carries(routers, cur.pos, graph[cur.pos], labels[cur.pos]);
      assert Carries(routers, cur.prev.pos, graph[cur.prev.pos], labels[cur.prev.pos]);
      SettledIsShortest(labels, graph, us, run, cur.prev.pos);
    }

    method Replace(r: Router, interfaces: seq<Interface>)
      requires Valid() && Listed(routers, r)
      modifies `graph, r`interfaces
      ensures Valid() && graph == old(graph)[r.pos := Node(old(graph)[r.pos].id, interfaces)]
    {
      assert Carries(routers, r.pos, graph[r.pos], labels[r.pos]);
      r.interfaces := interfaces;
      graph := graph[r.pos := Node(r.id, interfaces)];
      forall j | 0 <= j < |routers| ensures Carries(routers, j, graph[j], labels[j]) {
        assert old(Carries(routers, j, graph[j], labels[j]));
      }
    }

    method Append(id: U32, interfaces: seq<Interface>)
      requires Valid() && id != 0
      requires forall i :: 0 <= i < |graph| ==> graph[i].id != id
      modifies `routers, `graph, `labels
      ensures Valid() && graph == old(graph) + [Node(id, interfaces)]
      ensures |routers| == |old(routers)| + 1 && old(routers) <= routers && fresh(routers[|old(routers)|])
    {
      var r := new Router(id, interfaces, |routers|);
      routers := routers + [r];
      graph := graph + [Node(id, interfaces)];
      labels := labels + [Label(0, false, NONE, 0, 0)];
      forall j | 0 <= j < |routers|
        ensures Carries(routers, j, graph[j], labels[j]) && Ranked(labels, us, run, j)
      {
        if j < |old(routers)| {
          assert old(Carries(routers, j, graph[j], labels[j]));
          assert Ranked(old(labels), us, run, j);
        }
      }
    }

    /** A router's advertisements arrive: an unknown router joins the list, a known one is updated. */
    method Learn(id: U32, interfaces: seq<Interface>)
      requires Valid() && id != 0
      modifies `routers, `graph, `labels, routers`interfaces
      ensures Valid() && old(routers) <= routers && fresh(set r | r in routers && r !in old(routers))
      ensures graph == Learnt(old(graph), Node(id, interfaces)) && run == old(run)
    {
      var r := GetRouterByRid(id);
      if r != null {
        LearntKnown(graph, r.pos, Node(id, interfaces));
        Replace(r, interfaces);
      } else {
        LearntNew(graph, Node(id, interfaces));
        Append(id, interfaces);
      }
    }
  }
}
