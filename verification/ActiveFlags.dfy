/**
 Which adjacencies carry traffic: an interface is active if the router it names
 has an interface on the same subnet. The routine that decides so also marks
 the interface it found, and so the outcome can depend on the order of the lists.
 */
module ActiveFlags {
  import opened Numbers
  import opened HopGraph
  import opened Reconcile
  import opened RouteBuilder
  import opened HopByHop

  function Iface(g: Graph, x: Adv): Interface
    requires Made(g, x)
  {
    g[x.router].interfaces[x.index]
  }

  /** `a` names the router of `b`, they are on the same subnet, and both name some router. */
  ghost predicate Claims(g: Graph, a: Adv, b: Adv)
    requires Made(g, a) && Made(g, b)
  {
    && Iface(g, a).routerId == g[b.router].id
    && Iface(g, a).subnet == Iface(g, b).subnet && Iface(g, a).mask == Iface(g, b).mask
    && Iface(g, a).routerId != 0 && Iface(g, b).routerId != 0
  }

  /** The router that `a` names has such an interface. */
  ghost predicate Answered(g: Graph, a: Adv)
    requires Made(g, a)
  {
    exists b :: Made(g, b) && Claims(g, a, b)
  }

  // --- one interface -------------------------------------------------------------------------

  /** `h` is `g` but for the flags. */
  ghost predicate SameKeys(g: Graph, h: Graph) {
    && |h| == |g|
    && (forall x :: Made(h, x) <==> Made(g, x))
    && (forall i :: 0 <= i < |g| ==> h[i].id == g[i].id)
    && (forall x :: Made(g, x) ==> Key(Iface(h, x)) == Key(Iface(g, x)))
  }

  function WithFlag(g: Graph, x: Adv, f: bool): Graph
    requires x.router < |g| && x.index < |g[x.router].interfaces|
  {
    var n := g[x.router];
    g[x.router := Node(n.id, n.interfaces[x.index := n.interfaces[x.index].(isActive := f)])]
  }

  lemma WithFlagAt(g: Graph, x: Adv, f: bool)
    requires Made(g, x)
    ensures var h := WithFlag(g, x, f);
            && SameKeys(g, h)
            && (forall y :: Made(g, y) ==> Iface(h, y).isActive == if y == x then f else Iface(g, y).isActive)
  {
  }

  lemma SameKeysTwice(g: Graph, h: Graph, k: Graph)
    requires SameKeys(g, h) && SameKeys(h, k)
    ensures SameKeys(g, k)
  {
    forall x | Made(g, x) ensures Key(Iface(k, x)) == Key(Iface(g, x)) {
      assert Made(h, x);
    }
  }

  lemma ClaimsSame(g: Graph, h: Graph, a: Adv, b: Adv)
    requires SameKeys(g, h) && Made(g, a) && Made(g, b)
    ensures Made(h, a) && Made(h, b) && (Claims(h, a, b) <==> Claims(g, a, b))
  {
    assert Key(Iface(h, a)) == Key(Iface(g, a)) && Key(Iface(h, b)) == Key(Iface(g, b));
  }

  lemma AnsweredSame(g: Graph, h: Graph, a: Adv)
    requires SameKeys(g, h) && Made(g, a)
    ensures Made(h, a) && (Answered(h, a) <==> Answered(g, a))
  {
    forall b | Made(g, b) ensures Made(h, b) && (Claims(h, a, b) <==> Claims(g, a, b)) {
      ClaimsSame(g, h, a, b);
    }
    if Answered(h, a) {
      var b :| Made(h, b) && Claims(h, a, b);
      assert Made(g, b) && Claims(g, a, b);
    }
  }

  /** Flags after interface `a` has been looked at: its own says whether it is answered, those that answer it are set. */
  ghost predicate Handled(g: Graph, a: Adv, h: Graph)
    requires Made(g, a)
  {
    && SameKeys(g, h)
    && (forall x :: Made(g, x) ==>
          Iface(h, x).isActive == if x == a then Answered(g, a) else Iface(g, x).isActive || Claims(g, a, x))
  }

  /** The first `m` interfaces of router `j`, the one that `a` names, have been compared with `a`. */
  ghost predicate Compared(g: Graph, a: Adv, j: nat, m: nat, h: Graph)
    requires Made(g, a)
  {
    && SameKeys(g, h)
    && (forall x :: Made(g, x) ==> (Iface(h, x).isActive <==> if x == a then AnsweredBy(g, a, j, m)
                                                             else Iface(g, x).isActive || ComparedTo(g, a, j, m, x)))
  }

  ghost predicate ComparedTo(g: Graph, a: Adv, j: nat, m: nat, x: Adv)
    requires Made(g, a) && Made(g, x)
  {
    x.router == j && x.index < m && Claims(g, a, x)
  }

  ghost predicate AnsweredBy(g: Graph, a: Adv, j: nat, m: nat)
    requires Made(g, a)
  {
    exists b :: Made(g, b) && ComparedTo(g, a, j, m, b)
  }

  predicate Same(a: Interface, b: Interface) {
    a.subnet == b.subnet && a.mask == b.mask && !(a.routerId == 0 || b.routerId == 0)
  }

  lemma ComparedNext(g: Graph, a: Adv, j: nat, m: nat, next: nat, h: Graph)
    requires Made(g, a) && Compared(g, a, j, m, h) && Made(g, Adv(j, m)) && next == m + 1
    requires Iface(g, a).routerId == g[j].id && Made(h, a) && Made(h, Adv(j, m))
    ensures Same(Iface(h, a), Iface(h, Adv(j, m))) <==> Claims(g, a, Adv(j, m))
    ensures !Claims(g, a, Adv(j, m)) ==> Compared(g, a, j, next, h)
    ensures Claims(g, a, Adv(j, m)) ==> Compared(g, a, j, next, WithFlag(WithFlag(h, a, true), Adv(j, m), true))
  {
    var b := Adv(j, m);
    assert Key(Iface(h, a)) == Key(Iface(g, a)) && Key(Iface(h, b)) == Key(Iface(g, b));
    NextCompared(g, a, j, m, next);
    if Claims(g, a, b) {
      var k := WithFlag(h, a, true);
      WithFlagAt(h, a, true);
      WithFlagAt(k, b, true);
      SameKeysTwice(g, h, k);
      SameKeysTwice(g, k, WithFlag(k, b, true));
      assert ComparedTo(g, a, j, next, b);
    }
  }

  lemma NextCompared(g: Graph, a: Adv, j: nat, m: nat, next: nat)
    requires Made(g, a) && Made(g, Adv(j, m)) && next == m + 1
    ensures forall x :: Made(g, x) ==>
      (ComparedTo(g, a, j, next, x) <==> ComparedTo(g, a, j, m, x) || (x == Adv(j, m) && Claims(g, a, x)))
    ensures AnsweredBy(g, a, j, next) <==> AnsweredBy(g, a, j, m) || Claims(g, a, Adv(j, m))
  {
    if Claims(g, a, Adv(j, m)) {
      assert ComparedTo(g, a, j, next, Adv(j, m));
    }
    if AnsweredBy(g, a, j, m) {
      var b :| Made(g, b) && ComparedTo(g, a, j, m, b);
      assert ComparedTo(g, a, j, next, b);
    }
  }

  lemma ComparedNone(g: Graph, a: Adv, j: nat)
    requires Made(g, a)
    ensures Compared(g, a, j, 0, WithFlag(g, a, false))
  {
    WithFlagAt(g, a, false);
  }

  lemma ComparedAll(g: Graph, a: Adv, j: nat, h: Graph)
    requires DistinctIds(g) && Made(g, a) && j < |g| && g[j].id == Iface(g, a).routerId
    requires Compared(g, a, j, |g[j].interfaces|, h)
    ensures Handled(g, a, h)
  {
    var m := |g[j].interfaces|;
    forall x | Made(g, x) ensures ComparedTo(g, a, j, m, x) <==> Claims(g, a, x) {
      assert x.router != j ==> g[x.router].id != g[j].id;
    }
    if Answered(g, a) {
      var b :| Made(g, b) && Claims(g, a, b);
      assert ComparedTo(g, a, j, m, b);
    }
  }

  lemma ComparedNobody(g: Graph, a: Adv)
    requires Made(g, a) && forall i :: 0 <= i < |g| ==> g[i].id != Iface(g, a).routerId
    ensures Handled(g, a, WithFlag(g, a, false))
  {
    WithFlagAt(g, a, false);
  }

  method FindRouter(g: Graph, rid: U32) returns (j: int)
    ensures j == -1 ==> forall i :: 0 <= i < |g| ==> g[i].id != rid
    ensures j != -1 ==> 0 <= j < |g| && g[j].id == rid
  {
    for i := 0 to |g|
      invariant forall k :: 0 <= k < i ==> g[k].id != rid
    {
      if g[i].id == rid {
        return i;
      }
    }
    return -1;
  }

  /** Looks at interface `k` of the router at position `i`. */
  method HandleInterface(g: Graph, i: nat, k: nat) returns (h: Graph)
    requires DistinctIds(g) && Made(g, Adv(i, k))
    ensures Handled(g, Adv(i, k), h)
  {
    ghost var a := Adv(i, k);
    h := WithFlag(g, Adv(i, k), false);
    var j := FindRouter(g, g[i].interfaces[k].routerId);
    if j == -1 {
      ComparedNobody(g, a);
      return;
    }
    ComparedNone(g, a, j);
    var m := 0;
    while m < |g[j].interfaces|
      invariant 0 <= m <= |g[j].interfaces| && Compared(g, a, j, m, h)
    {
      var next := m + 1;
      assert Made(g, Adv(j, m)) && Made(h, a) && Made(h, Adv(j, m));
      ComparedNext(g, a, j, m, next, h);
      if Same(h[i].interfaces[k], h[j].interfaces[m]) {
        h := WithFlag(WithFlag(h, Adv(i, k), true), Adv(j, m), true);
      }
      m := next;
    }
    ComparedAll(g, a, j, h);
  }

  // --- all interfaces ------------------------------------------------------------------------

  ghost predicate After(a: Adv, x: Adv) {
    Precedes(x, a.router, a.index)
  }

  /** An interface before (`i`, `k`), and after `x` if `later`, claims `x`. */
  ghost predicate ClaimedBefore(g: Graph, x: Adv, i: nat, k: nat, later: bool)
    requires Made(g, x)
  {
    exists a :: Made(g, a) && Precedes(a, i, k) && (later ==> After(a, x)) && Claims(g, a, x)
  }

  /** The flags in `h` once all interfaces of `g` before (`i`, `k`) have been looked at, in list order. */
  ghost predicate FlagsUpTo(g: Graph, i: nat, k: nat, h: Graph) {
    && SameKeys(g, h)
    && (forall x :: Made(g, x) ==>
          (Iface(h, x).isActive <==>
             if Precedes(x, i, k) then Answered(g, x) || ClaimedBefore(g, x, i, k, true)
             else Iface(g, x).isActive || ClaimedBefore(g, x, i, k, false)))
  }

  lemma FlagsStart(g: Graph)
    ensures FlagsUpTo(g, 0, 0, g)
  {
  }

  lemma FlagsTurn(g: Graph, i: nat, h: Graph, next: nat)
    requires i < |g| && next == i + 1 && FlagsUpTo(g, i, |g[i].interfaces|, h)
    ensures FlagsUpTo(g, next, 0, h)
  {
    var k := |g[i].interfaces|;
    forall x | Made(g, x) ensures Precedes(x, next, 0) <==> Precedes(x, i, k) {
    }
    forall x, later | Made(g, x) ensures ClaimedBefore(g, x, next, 0, later) <==> ClaimedBefore(g, x, i, k, later) {
      if ClaimedBefore(g, x, next, 0, later) {
        var a :| Made(g, a) && Precedes(a, next, 0) && (later ==> After(a, x)) && Claims(g, a, x);
        assert Precedes(a, i, k);
      }
      if ClaimedBefore(g, x, i, k, later) {
        var a :| Made(g, a) && Precedes(a, i, k) && (later ==> After(a, x)) && Claims(g, a, x);
        assert Precedes(a, next, 0);
      }
    }
  }

  lemma ClaimedNext(g: Graph, x: Adv, i: nat, k: nat, next: nat, later: bool)
    requires Made(g, x) && Made(g, Adv(i, k)) && next == k + 1
    ensures ClaimedBefore(g, x, i, next, later) <==>
      ClaimedBefore(g, x, i, k, later) || ((later ==> After(Adv(i, k), x)) && Claims(g, Adv(i, k), x))
  {
    if ClaimedBefore(g, x, i, next, later) {
      var a :| Made(g, a) && Precedes(a, i, next) && (later ==> After(a, x)) && Claims(g, a, x);
      assert a == Adv(i, k) || Precedes(a, i, k);
    }
    if ClaimedBefore(g, x, i, k, later) {
      var a :| Made(g, a) && Precedes(a, i, k) && (later ==> After(a, x)) && Claims(g, a, x);
      assert Precedes(a, i, next);
    }
    if (later ==> After(Adv(i, k), x)) && Claims(g, Adv(i, k), x) {
      assert Precedes(Adv(i, k), i, next);
    }
  }

  lemma FlagNext(g: Graph, i: nat, k: nat, next: nat, h: Graph, r: Graph, x: Adv)
    requires Made(g, Adv(i, k)) && next == k + 1 && FlagsUpTo(g, i, k, h)
    requires Made(h, Adv(i, k)) && Handled(h, Adv(i, k), r) && Made(g, x)
    ensures Made(r, x) && (Iface(r, x).isActive <==>
              if Precedes(x, i, next) then Answered(g, x) || ClaimedBefore(g, x, i, next, true)
              else Iface(g, x).isActive || ClaimedBefore(g, x, i, next, false))
  {
    var a := Adv(i, k);
    assert Made(h, x);
    ClaimsSame(g, h, a, x);
    AnsweredSame(g, h, a);
    if x == a {
      assert !ClaimedBefore(g, x, i, next, true);
    } else {
      ClaimedNext(g, x, i, k, next, true);
      ClaimedNext(g, x, i, k, next, false);
      assert Precedes(x, i, next) <==> Precedes(x, i, k);
    }
  }

  lemma FlagsNext(g: Graph, i: nat, k: nat, next: nat, h: Graph, r: Graph)
    requires Made(g, Adv(i, k)) && next == k + 1 && FlagsUpTo(g, i, k, h)
    requires Made(h, Adv(i, k)) && Handled(h, Adv(i, k), r)
    ensures FlagsUpTo(g, i, next, r)
  {
    SameKeysTwice(g, h, r);
    forall x | Made(g, x)
      ensures Iface(r, x).isActive <==>
                if Precedes(x, i, next) then Answered(g, x) || ClaimedBefore(g, x, i, next, true)
                else Iface(g, x).isActive || ClaimedBefore(g, x, i, next, false)
    {
      FlagNext(g, i, k, next, h, r, x);
    }
  }

  method DetermineActiveInterfaces(g: Graph, i: nat, h: Graph) returns (r: Graph)
    requires DistinctIds(g) && i < |g| && FlagsUpTo(g, i, 0, h)
    ensures FlagsUpTo(g, i, |g[i].interfaces|, r)
  {
    r := h;
    var k := 0;
    while k < |g[i].interfaces|
      invariant 0 <= k <= |g[i].interfaces| && FlagsUpTo(g, i, k, r)
    {
      var next := k + 1;
      assert Made(g, Adv(i, k)) && Made(r, Adv(i, k));
      DistinctSame(g, r);
      var s := HandleInterface(r, i, k);
      FlagsNext(g, i, k, next, r, s);
      r, k := s, next;
    }
  }

  lemma DistinctSame(g: Graph, h: Graph)
    requires DistinctIds(g) && SameKeys(g, h)
    ensures DistinctIds(h)
  {
  }

  /** The flags of `g` as a whole pass sets them, whatever they were. */
  ghost predicate Flagged(g: Graph, h: Graph) {
    && SameKeys(g, h)
    && (forall x :: Made(g, x) ==> (Iface(h, x).isActive <==> Answered(g, x) || ClaimedLater(g, x)))
  }

  /** Some interface after `x` in list order claims it. */
  ghost predicate ClaimedLater(g: Graph, x: Adv)
    requires Made(g, x)
  {
    exists a :: Made(g, a) && After(a, x) && Claims(g, a, x)
  }

  /** The pass over all routers: afterwards an interface is active exactly if it is answered, or claimed by a later one. */
  method PropagateFlags(g: Graph) returns (h: Graph)
    requires DistinctIds(g)
    ensures Flagged(g, h)
  {
    h := g;
    FlagsStart(g);
    var i := 0;
    while i < |g|
      invariant 0 <= i <= |g| && FlagsUpTo(g, i, 0, h)
    {
      var next := i + 1;
      h := DetermineActiveInterfaces(g, i, h);
      FlagsTurn(g, i, h, next);
      i := next;
    }
    forall x | Made(g, x) ensures Iface(h, x).isActive <==> Answered(g, x) || ClaimedLater(g, x) {
      if ClaimedLater(g, x) {
        var a :| Made(g, a) && After(a, x) && Claims(g, a, x);
        assert Precedes(a, |g|, 0);
      }
      if ClaimedBefore(g, x, |g|, 0, true) {
        var a :| Made(g, a) && Precedes(a, |g|, 0) && After(a, x) && Claims(g, a, x);
      }
    }
  }
}
