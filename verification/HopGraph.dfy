/**
 The topology a link-state database describes, as a value, and what a shortest
 path in it is. Vertices are positions in the router list. The definitions here
 know nothing about the algorithm in `Dijkstra`.
 */
module HopGraph {
  import opened Numbers

  /** The distance of a router that has not been reached. */
  const INFINITE: U32 := 0xFFFFFFFF

  /** One advertisement of a router: a prefix, and the neighbour seen there (0 for none). */
  datatype Interface = Interface(subnet: U32, mask: U32, routerId: U32, isActive: bool)

  datatype Node = Node(id: U32, interfaces: seq<Interface>)

  type Graph = seq<Node>

  /** Interface `i` is an adjacency to router `id` that may carry traffic. */
  predicate Names(i: Interface, id: U32) {
    i.routerId != 0 && i.isActive && i.routerId == id
  }

  /** One of the first `k` interfaces of `u` is an active adjacency to `v`. */
  ghost predicate EdgeWithin(g: Graph, u: nat, v: nat, k: nat)
    requires u < |g| && v < |g| && k <= |g[u].interfaces|
  {
    exists j :: 0 <= j < k && Names(g[u].interfaces[j], g[v].id)
  }

  ghost predicate Edge(g: Graph, u: nat, v: nat)
    requires u < |g| && v < |g|
  {
    EdgeWithin(g, u, v, |g[u].interfaces|)
  }

  /** In the interfaces' own terms: one of `u`'s is active and names `v`, and 0 names nobody. */
  lemma EdgeMeans(g: Graph, u: nat, v: nat)
    requires u < |g| && v < |g|
    ensures Edge(g, u, v) <==>
      exists i :: i in g[u].interfaces && i.isActive && i.routerId == g[v].id && g[v].id != 0
  {
    if i :| i in g[u].interfaces && i.isActive && i.routerId == g[v].id && g[v].id != 0 {
      var j :| 0 <= j < |g[u].interfaces| && g[u].interfaces[j] == i;
      assert Names(g[u].interfaces[j], g[v].id);
    }
    if Edge(g, u, v) {
      var j :| 0 <= j < |g[u].interfaces| && Names(g[u].interfaces[j], g[v].id);
      assert g[u].interfaces[j] in g[u].interfaces;
    }
  }

  /** `v` can be reached from `s` in exactly `n` hops. */
  ghost predicate Walk(g: Graph, s: nat, v: nat, n: nat)
    requires s < |g| && v < |g|
    decreases n
  {
    if n == 0 then v == s
    else exists u :: 0 <= u < |g| && Walk(g, s, u, n - 1) && Edge(g, u, v)
  }

  /** `d` is the least number of hops from `s` to `v`. */
  ghost predicate IsHopCount(g: Graph, s: nat, v: nat, d: nat)
    requires s < |g| && v < |g|
  {
    Walk(g, s, v, d) && forall n: nat :: Walk(g, s, v, n) ==> d <= n
  }

  ghost predicate Reachable(g: Graph, s: nat, v: nat)
    requires s < |g| && v < |g|
  {
    exists n: nat :: Walk(g, s, v, n)
  }

  ghost predicate DistinctIds(g: Graph) {
    && (forall i :: 0 <= i < |g| ==> g[i].id != 0)
    && (forall i, j :: 0 <= i < j < |g| ==> g[i].id != g[j].id)
  }

  /** `g` with what is known of router `n.id` replaced by `n`, or `n` added. */
  function Learnt(g: Graph, n: Node): Graph {
    if g == [] then [n]
    else if g[0].id == n.id then [n] + g[1..]
    else [g[0]] + Learnt(g[1..], n)
  }

  lemma {:induction false} LearntKnown(g: Graph, i: nat, n: Node)
    requires DistinctIds(g) && i < |g| && g[i].id == n.id
    ensures Learnt(g, n) == g[i := n]
  {
    if i > 0 {
      assert g[0].id != g[i].id;
      LearntKnown(g[1..], i - 1, n);
      assert g[1..][i - 1 := n] == g[i := n][1..];
    }
  }

  lemma {:induction false} LearntNew(g: Graph, n: Node)
    requires forall i :: 0 <= i < |g| ==> g[i].id != n.id
    ensures Learnt(g, n) == g + [n]
  {
    if g != [] {
      LearntNew(g[1..], n);
      assert g == [g[0]] + g[1..];
    }
  }

  /** The numbers 1..n. */
  function UpTo(n: nat): (r: set<int>)
    ensures forall x :: x in r <==> 0 < x <= n
  {
    if n == 0 then {} else UpTo(n - 1) + {n}
  }

  lemma {:induction false} SubsetOfUpTo(s: set<int>, n: nat)
    requires s <= UpTo(n)
    ensures |s| <= n
  {
    if n != 0 {
      SubsetOfUpTo(s - {n}, n - 1);
      if n in s {
        assert |s| == |s - {n}| + 1;
      } else {
        assert s - {n} == s;
      }
    }
  }

  lemma SubsetSize(a: set<int>, b: set<int>)
    requires a <= b
    ensures |a| <= |b|
  {
    assert b == a + (b - a);
  }
}
