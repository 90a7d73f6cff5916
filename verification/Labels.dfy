/**
 The labels that the shortest-path computation puts on routers, as values, and
 the facts about them that every step of the computation keeps. `Dijkstra`
 stores the labels in router records; the ranks (`lastRun`, `lastDist`) exist
 only here, to say why predecessor pointers left over from earlier runs are harmless.
 */
module Labels {
  import opened Numbers
  import opened HopGraph

  const NONE := -1

  datatype Label = Label(
    distance: U32,
    found: bool,          // the router is in N'
    prev: int,            // position of the predecessor, or NONE
    lastRun: nat,         // the last run that reached this router
    lastDist: nat)        // its distance in that run

  type Labelling = seq<Label>

  /**
   What a predecessor promises across runs: it can be left again unless it is
   our router, and it was reached in a later run, or in the same run at a
   smaller distance.
   */
  ghost predicate Ranked(st: Labelling, us: nat, run: nat, i: nat)
    requires i < |st|
  {
    && st[i].lastRun <= run
    && NONE <= st[i].prev < |st|
    && (st[i].prev != NONE ==>
          var p := st[i].prev;
          && i != us
          && (p == us || st[p].prev != NONE)
          && (|| st[p].lastRun > st[i].lastRun
              || (st[p].lastRun == st[i].lastRun && st[p].lastDist < st[i].lastDist)))
  }

  ghost predicate Chained(st: Labelling, us: nat, run: nat) {
    && us < |st|
    && st[us].lastRun == run && st[us].lastDist == 0
    && (forall i :: 0 <= i < |st| ==> Ranked(st, us, run, i))
  }

  function FoundIds(st: Labelling, g: Graph): set<int>
    requires |st| == |g|
  {
    set i | 0 <= i < |st| && st[i].found :: g[i].id
  }

  /** The predecessor of `i` in this run is one hop closer, over an active adjacency. */
  ghost predicate TreeLink(st: Labelling, g: Graph, i: nat)
    requires i < |st| && |g| == |st|
  {
    var p := st[i].prev;
    && 0 <= p < |st|
    && st[p].found
    && st[p].distance + 1 == st[i].distance
    && Edge(g, p, i)
  }

  /** What is known of router `i` at any point of a run. */
  ghost predicate Labelled(st: Labelling, g: Graph, us: nat, run: nat, i: nat)
    requires i < |st| && |g| == |st| && us < |st|
  {
    && (st[i].found ==> st[i].distance < INFINITE)
    && (st[i].distance == INFINITE ==> st[i].lastRun < run)
    && (st[i].distance < INFINITE ==>
          && Walk(g, us, i, st[i].distance)
          && st[i].lastRun == run && st[i].lastDist == st[i].distance
          && st[i].distance <= |FoundIds(st, g)|
          && (i != us ==> TreeLink(st, g, i)))
  }

  /** What the main loop keeps. */
  ghost predicate Exploring(st: Labelling, g: Graph, us: nat, run: nat) {
    && |g| == |st| && DistinctIds(g)
    && Chained(st, us, run)
    && st[us].found && st[us].distance == 0
    && (forall i :: 0 <= i < |st| ==> Labelled(st, g, us, run, i))
    && (forall i, j :: 0 <= i < |st| && 0 <= j < |st| && st[i].found && !st[j].found ==>
                         st[i].distance <= st[j].distance)
  }

  /** The first `k` interfaces of `i` have been relaxed. */
  ghost predicate Relaxed(st: Labelling, g: Graph, i: nat, k: nat)
    requires i < |st| && |g| == |st| && k <= |g[i].interfaces|
  {
    forall j :: 0 <= j < |st| && EdgeWithin(g, i, j, k) ==>
      st[j].distance <= st[i].distance + 1 && st[j].distance < INFINITE
  }

  ghost predicate AllRelaxedBut(st: Labelling, g: Graph, w: int)
    requires |g| == |st|
  {
    forall i :: 0 <= i < |st| && st[i].found && i != w ==> Relaxed(st, g, i, |g[i].interfaces|)
  }

  /** Router `w` has just entered N' and its interfaces are being relaxed. */
  ghost predicate Relaxing(st: Labelling, g: Graph, us: nat, run: nat, w: nat, k: nat) {
    && Exploring(st, g, us, run)
    && w < |st| && st[w].found && st[w].distance + 1 <= |FoundIds(st, g)|
    && (forall i :: 0 <= i < |st| && st[i].found ==> st[i].distance <= st[w].distance)
    && AllRelaxedBut(st, g, w)
    && k <= |g[w].interfaces| && Relaxed(st, g, w, k)
  }

  // --- the three steps of the computation -----------------------------------

  /** Labels at the start of run `run`. */
  function Started(st: Labelling, us: nat, run: nat): (r: Labelling)
    requires us < |st|
    ensures |r| == |st|
    ensures forall i :: 0 <= i < |st| ==>
      r[i] == if i == us then Label(0, true, st[i].prev, run, 0)
              else st[i].(distance := INFINITE, found := false)
  {
    seq(|st|, i requires 0 <= i < |st| =>
      if i == us then Label(0, true, st[i].prev, run, 0)
      else st[i].(distance := INFINITE, found := false))
  }

  /** `v` is now reached through `w`. */
  function Via(st: Labelling, run: nat, w: nat, v: nat): Labelling
    requires w < |st| && v < |st| && st[w].distance + 1 < INFINITE
  {
    var d: U32 := st[w].distance + 1;
    st[v := Label(d, st[v].found, w, run, d)]
  }

  /** `w` enters N'. */
  function Entered(st: Labelling, w: nat): Labelling
    requires w < |st|
  {
    st[w := st[w].(found := true)]
  }

  // --- each step keeps the facts ------------------------------------------------

  /** Ids are nonzero and 32 bits wide, so while a router is outside N' one more hop still fits. */
  lemma RoomToGrow(st: Labelling, g: Graph, v: nat)
    requires |g| == |st| && DistinctIds(g)
    requires v < |st| && !st[v].found
    ensures |FoundIds(st, g)| < INFINITE
  {
    assert g[v].id !in FoundIds(st, g);
    SubsetOfUpTo(FoundIds(st, g) + {g[v].id}, INFINITE);
  }

  lemma StartExplores(st: Labelling, g: Graph, us: nat, run: nat, next: nat)
    requires |g| == |st| && DistinctIds(g)
    requires Chained(st, us, run) && next == run + 1
    ensures Relaxing(Started(st, us, next), g, us, next, us, 0)
  {
    var r := Started(st, us, next);
    assert FoundIds(r, g) == {g[us].id};
    forall i | 0 <= i < |r|
      ensures Ranked(r, us, next, i) && Labelled(r, g, us, next, i)
    {
      assert Ranked(st, us, run, i);
    }
  }

  lemma ViaKeepsLabels(st: Labelling, g: Graph, us: nat, run: nat, w: nat, v: nat, i: nat)
    requires Exploring(st, g, us, run)
    requires w < |st| && st[w].found && st[w].distance + 1 <= |FoundIds(st, g)|
    requires v < |st| && !st[v].found && st[w].distance + 1 < st[v].distance
    requires Edge(g, w, v) && i < |st|
    ensures Ranked(Via(st, run, w, v), us, run, i)
    ensures Labelled(Via(st, run, w, v), g, us, run, i)
  {
    ViaKeepsFound(st, g, run, w, v);
    assert Labelled(st, g, us, run, w);
    assert Ranked(st, us, run, i) && Labelled(st, g, us, run, i);
    assert i == v ==> Walk(g, us, v, st[w].distance + 1);
  }

  /** Lowering the distance of routers outside N' leaves relaxed interfaces relaxed. */
  lemma StaysRelaxed(st: Labelling, r: Labelling, g: Graph, i: nat, k: nat)
    requires |g| == |st| == |r| && i < |st| && k <= |g[i].interfaces|
    requires Relaxed(st, g, i, k) && r[i].distance == st[i].distance
    requires forall j :: 0 <= j < |st| ==> r[j].distance <= st[j].distance
    ensures Relaxed(r, g, i, k)
  {
  }

  lemma ViaKeepsFound(st: Labelling, g: Graph, run: nat, w: nat, v: nat)
    requires |g| == |st| && w < |st| && v < |st| && st[w].distance + 1 < INFINITE
    ensures FoundIds(Via(st, run, w, v), g) == FoundIds(st, g)
  {
  }

  lemma ViaKeepsRelaxing(st: Labelling, g: Graph, us: nat, run: nat, w: nat, k: nat, v: nat)
    requires Relaxing(st, g, us, run, w, k)
    requires v < |st| && !st[v].found && st[w].distance + 1 < st[v].distance
    requires Edge(g, w, v)
    ensures Relaxing(Via(st, run, w, v), g, us, run, w, k)
  {
    var r := Via(st, run, w, v);
    ViaKeepsFound(st, g, run, w, v);
    forall i | 0 <= i < |r|
      ensures Ranked(r, us, run, i) && Labelled(r, g, us, run, i)
    {
      ViaKeepsLabels(st, g, us, run, w, v, i);
    }
    forall i | 0 <= i < |r| && r[i].found && i != w
      ensures Relaxed(r, g, i, |g[i].interfaces|)
    {
      StaysRelaxed(st, r, g, i, |g[i].interfaces|);
    }
    StaysRelaxed(st, r, g, w, k);
    assert v != us;
  }

  lemma EdgeWithinNext(g: Graph, u: nat, v: nat, k: nat)
    requires u < |g| && v < |g| && k < |g[u].interfaces|
    ensures EdgeWithin(g, u, v, k + 1) <==> EdgeWithin(g, u, v, k) || Names(g[u].interfaces[k], g[v].id)
  {
    if Names(g[u].interfaces[k], g[v].id) {
      assert EdgeWithin(g, u, v, k + 1);
    }
  }

  lemma NextInterfaceRelaxed(st: Labelling, g: Graph, us: nat, run: nat, w: nat, k: nat)
    requires Relaxing(st, g, us, run, w, k) && k < |g[w].interfaces|
    requires forall v :: 0 <= v < |st| && Names(g[w].interfaces[k], g[v].id) ==>
               st[v].found || st[v].distance <= st[w].distance + 1
    ensures Relaxing(st, g, us, run, w, k + 1)
  {
    forall v | 0 <= v < |st| && EdgeWithin(g, w, v, k + 1)
      ensures st[v].distance <= st[w].distance + 1 && st[v].distance < INFINITE
    {
      EdgeWithinNext(g, w, v, k);
      assert Labelled(st, g, us, run, v) && Labelled(st, g, us, run, w);
      if !st[v].found {
        RoomToGrow(st, g, v);
      }
    }
  }

  /** Ids are distinct, so an interface names at most one router. */
  lemma NamedInterfaceRelaxed(st: Labelling, g: Graph, us: nat, run: nat, w: nat, k: nat, v: nat)
    requires Relaxing(st, g, us, run, w, k) && k < |g[w].interfaces|
    requires v < |st| && Names(g[w].interfaces[k], g[v].id)
    requires st[v].found || st[v].distance <= st[w].distance + 1
    ensures Relaxing(st, g, us, run, w, k + 1)
  {
    NextInterfaceRelaxed(st, g, us, run, w, k);
  }

  lemma EnterKeepsLabels(st: Labelling, g: Graph, us: nat, run: nat, w: nat, i: nat)
    requires Exploring(st, g, us, run)
    requires w < |st| && !st[w].found && st[w].distance < INFINITE
    requires i < |st|
    ensures Ranked(Entered(st, w), us, run, i)
    ensures Labelled(Entered(st, w), g, us, run, i)
    ensures |FoundIds(Entered(st, w), g)| == |FoundIds(st, g)| + 1
  {
    assert g[w].id !in FoundIds(st, g);
    assert FoundIds(Entered(st, w), g) == FoundIds(st, g) + {g[w].id};
    assert Ranked(st, us, run, i) && Labelled(st, g, us, run, i);
  }

  /** `w` has been reached, is not in N', and no router outside N' is nearer. */
  ghost predicate NextToEnter(st: Labelling, w: nat) {
    && w < |st| && !st[w].found && st[w].distance < INFINITE
    && (forall j :: 0 <= j < |st| && !st[j].found ==> st[w].distance <= st[j].distance)
  }

  lemma EnterStartsRelaxing(st: Labelling, g: Graph, us: nat, run: nat, w: nat)
    requires Exploring(st, g, us, run) && AllRelaxedBut(st, g, NONE) && NextToEnter(st, w)
    ensures Relaxing(Entered(st, w), g, us, run, w, 0)
  {
    var r := Entered(st, w);
    forall i | 0 <= i < |r|
      ensures Ranked(r, us, run, i) && Labelled(r, g, us, run, i)
    {
      EnterKeepsLabels(st, g, us, run, w, i);
    }
    forall i | 0 <= i < |r| && r[i].found && i != w
      ensures Relaxed(r, g, i, |g[i].interfaces|)
    {
      StaysRelaxed(st, r, g, i, |g[i].interfaces|);
    }
    EnterKeepsLabels(st, g, us, run, w, w);
    assert Labelled(st, g, us, run, w);
  }
}
