/**
 When the active flags depend on the order in which a database lists routers and
 interfaces, and when databases that say the same get the same flags.
 */
module FlagOrder {
  import opened Numbers
  import opened HopGraph
  import opened Reconcile
  import opened RouteBuilder
  import opened HopByHop
  import opened ActiveFlags

  /** The same routers, each with the same set of advertisements; order, repetition and flags aside. */
  ghost predicate SameAdverts(g: Graph, h: Graph) {
    && (forall i :: 0 <= i < |g| ==> Has(h, g[i].id) && Keys(h[Pos(h, g[i].id)].interfaces) == Keys(g[i].interfaces))
    && (forall j :: 0 <= j < |h| ==> Has(g, h[j].id) && Keys(g[Pos(g, h[j].id)].interfaces) == Keys(h[j].interfaces))
  }

  /** An interface of the router at `j` that says `x`. */
  ghost predicate SaysAt(g: Graph, j: nat, x: Advert) {
    j < |g| && x in Keys(g[j].interfaces)
  }

  /** `y` stands for an adjacency on the subnet of `x`, and `x` for some adjacency. */
  predicate OnLink(x: Advert, y: Advert) {
    x.subnet == y.subnet && x.mask == y.mask && x.routerId != 0 && y.routerId != 0
  }

  /** The router that `x` names advertises an adjacency on the same subnet. */
  ghost predicate IsAnswered(g: Graph, x: Advert) {
    exists j: nat, y :: SaysAt(g, j, y) && g[j].id == x.routerId && OnLink(x, y)
  }

  /** Some router advertises an adjacency to router `id` on the subnet of `x`. */
  ghost predicate IsClaimed(g: Graph, id: U32, x: Advert) {
    exists j: nat, y :: SaysAt(g, j, y) && y.routerId == id && OnLink(x, y)
  }

  /** Whatever another router claims of an interface, the router that the interface names confirms. */
  ghost predicate OrderFree(g: Graph) {
    forall i: nat, x :: SaysAt(g, i, x) && IsClaimed(g, g[i].id, x) ==> IsAnswered(g, x)
  }

  // --- from positions to advertisements -----------------------------------------------------

  lemma KeyAt(g: Graph, j: nat, y: Advert) returns (b: Adv)
    requires SaysAt(g, j, y)
    ensures Made(g, b) && b.router == j && Key(Iface(g, b)) == y
  {
    var i :| i in g[j].interfaces && Key(i) == y;
    var m :| 0 <= m < |g[j].interfaces| && g[j].interfaces[m] == i;
    b := Adv(j, m);
  }

  lemma MadeSays(g: Graph, a: Adv)
    requires Made(g, a)
    ensures SaysAt(g, a.router, Key(Iface(g, a)))
  {
    assert Iface(g, a) in g[a.router].interfaces;
  }

  lemma AnsweredIs(g: Graph, x: Adv)
    requires Made(g, x)
    ensures Answered(g, x) <==> IsAnswered(g, Key(Iface(g, x)))
  {
    if Answered(g, x) {
      var b :| Made(g, b) && Claims(g, x, b);
      MadeSays(g, b);
    }
    if IsAnswered(g, Key(Iface(g, x))) {
      var j: nat, y :| SaysAt(g, j, y) && g[j].id == Iface(g, x).routerId && OnLink(Key(Iface(g, x)), y);
      var b := KeyAt(g, j, y);
      assert Claims(g, x, b);
    }
  }

  lemma ClaimedIs(g: Graph, a: Adv, x: Adv)
    requires Made(g, a) && Made(g, x) && Claims(g, a, x)
    ensures IsClaimed(g, g[x.router].id, Key(Iface(g, x)))
  {
    MadeSays(g, a);
  }

  lemma SaysCarries(g: Graph, h: Graph, i: nat, x: Advert)
    requires SameAdverts(g, h) && SaysAt(g, i, x)
    ensures Has(h, g[i].id) && SaysAt(h, Pos(h, g[i].id), x)
  {
  }

  lemma SameAdvertsBack(g: Graph, h: Graph)
    requires SameAdverts(g, h)
    ensures SameAdverts(h, g)
  {
  }

  lemma AnsweredCarries(g: Graph, h: Graph, x: Advert)
    requires SameAdverts(g, h) && IsAnswered(g, x)
    ensures IsAnswered(h, x)
  {
    var j: nat, y :| SaysAt(g, j, y) && g[j].id == x.routerId && OnLink(x, y);
    SaysCarries(g, h, j, y);
  }

  lemma ClaimedCarries(g: Graph, h: Graph, id: U32, x: Advert)
    requires SameAdverts(g, h) && IsClaimed(g, id, x)
    ensures IsClaimed(h, id, x)
  {
    var j: nat, y :| SaysAt(g, j, y) && y.routerId == id && OnLink(x, y);
    SaysCarries(g, h, j, y);
  }

  lemma OrderFreeCarries(g: Graph, h: Graph)
    requires SameAdverts(g, h) && OrderFree(g)
    ensures OrderFree(h)
  {
    SameAdvertsBack(g, h);
    forall i: nat, x | SaysAt(h, i, x) && IsClaimed(h, h[i].id, x) ensures IsAnswered(h, x) {
      SaysCarries(h, g, i, x);
      ClaimedCarries(h, g, h[i].id, x);
      AnsweredCarries(g, h, x);
    }
  }

  // --- when order does not matter ------------------------------------------------------------

  lemma FreeFlag(g: Graph, r: Graph, x: Adv)
    requires OrderFree(g) && Flagged(g, r) && Made(g, x)
    ensures Made(r, x) && (Iface(r, x).isActive <==> IsAnswered(g, Key(Iface(g, x))))
  {
    AnsweredIs(g, x);
    MadeSays(g, x);
    if ClaimedLater(g, x) {
      var a :| Made(g, a) && After(a, x) && Claims(g, a, x);
      ClaimedIs(g, a, x);
    }
  }

  lemma InterfaceCarries(g: Graph, h: Graph, r: Graph, s: Graph, i: nat, v: Interface)
    requires SameAdverts(g, h) && OrderFree(g) && Flagged(g, r) && Flagged(h, s)
    requires i < |r| && v in r[i].interfaces
    ensures Has(s, r[i].id) && v in s[Pos(s, r[i].id)].interfaces
  {
    var k :| 0 <= k < |r[i].interfaces| && r[i].interfaces[k] == v;
    var x := Adv(i, k);
    assert Made(r, x) && Made(g, x) && Key(Iface(r, x)) == Key(Iface(g, x));
    FreeFlag(g, r, x);
    MadeSays(g, x);
    SaysCarries(g, h, i, Key(v));
    var y := KeyAt(h, Pos(h, g[i].id), Key(v));
    OrderFreeCarries(g, h);
    FreeFlag(h, s, y);
    AnsweredBoth(g, h, Key(v));
    SamePos(h, s, g[i].id);
    assert Key(Iface(s, y)) == Key(v) && Iface(s, y).isActive == v.isActive;
    assert Iface(s, y) in s[y.router].interfaces;
  }

  lemma AnsweredBoth(g: Graph, h: Graph, x: Advert)
    requires SameAdverts(g, h)
    ensures IsAnswered(g, x) <==> IsAnswered(h, x)
  {
    SameAdvertsBack(g, h);
    if IsAnswered(g, x) {
      AnsweredCarries(g, h, x);
    }
    if IsAnswered(h, x) {
      AnsweredCarries(h, g, x);
    }
  }

  lemma {:induction false} SamePos(h: Graph, s: Graph, id: U32)
    requires Has(h, id) && |s| == |h| && forall i :: 0 <= i < |h| ==> s[i].id == h[i].id
    ensures Has(s, id) && Pos(s, id) == Pos(h, id)
  {
    assert s[Pos(h, id)].id == id;
    if h[0].id != id {
      HasRest(h, id);
      HasRest(s, id);
      SamePos(h[1..], s[1..], id);
    }
  }

  lemma FlaggedWithin(g: Graph, h: Graph, r: Graph, s: Graph)
    requires SameAdverts(g, h) && OrderFree(g) && DistinctIds(g) && DistinctIds(h) && Flagged(g, r) && Flagged(h, s)
    ensures Within(r, s)
  {
    SameAdvertsBack(g, h);
    OrderFreeCarries(g, h);
    DistinctSame(g, r);
    DistinctSame(h, s);
    forall i | 0 <= i < |r| ensures Has(s, r[i].id) && SameInterfaces(r[i], s[Pos(s, r[i].id)]) {
      assert Has(h, g[i].id);
      SamePos(h, s, g[i].id);
      var j := Pos(s, r[i].id);
      PosUnique(r, i);
      forall v ensures v in r[i].interfaces <==> v in s[j].interfaces {
        if v in r[i].interfaces {
          InterfaceCarries(g, h, r, s, i, v);
        }
        if v in s[j].interfaces {
          InterfaceCarries(h, g, s, r, j, v);
        }
      }
    }
  }

  /** Databases that say the same, one of them order-free, agree in full once each has set its flags. */
  lemma FlaggedAgree(g: Graph, h: Graph, r: Graph, s: Graph)
    requires SameAdverts(g, h) && OrderFree(g) && DistinctIds(g) && DistinctIds(h) && Flagged(g, r) && Flagged(h, s)
    ensures Agree(r, s)
  {
    FlaggedWithin(g, h, r, s);
    SameAdvertsBack(g, h);
    OrderFreeCarries(g, h);
    FlaggedWithin(h, g, s, r);
  }

  /** Router `u` has set the flags of its database `raw[u]`, which disputes nothing, and settled its routes over it. */
  ghost predicate Built(net: Network, raw: map<U32, Graph>, u: U32) {
    && u in net && u in raw && OwnView(net, u)
    && DistinctIds(raw[u]) && OrderFree(raw[u]) && Flagged(raw[u], net[u].g)
  }

  ghost predicate Alike(raw: map<U32, Graph>, a: U32, b: U32) {
    a in raw && b in raw && SameAdverts(raw[a], raw[b])
  }

  /**
   So routers whose databases say the same, with no interface disputed, have
   converged in the sense of `HopByHop` once each has set its flags and computed its routes.
   */
  lemma SameAdvertsConverge(net: Network, raw: map<U32, Graph>)
    requires forall u {:trigger Built(net, raw, u)} :: u in net ==> Built(net, raw, u)
    requires forall a, b {:trigger Alike(raw, a, b)} :: a in net && b in net ==> Alike(raw, a, b)
    ensures Converged(net)
  {
    forall u | u in net ensures OwnView(net, u) {
      assert Built(net, raw, u);
    }
    forall a, b | a in net && b in net ensures Agreed(net, a, b) {
      assert Alike(raw, a, b) && Built(net, raw, a) && Built(net, raw, b);
      FlaggedAgree(raw[a], raw[b], net[a].g, net[b].g);
    }
  }

  // --- when it does ----------------------------------------------------------------------------

  function With(list: seq<Interface>, x: Advert): seq<Interface> {
    if list == [] then [] else (if Key(list[0]) == x then [list[0]] else []) + With(list[1..], x)
  }

  function Others(list: seq<Interface>, x: Advert): seq<Interface> {
    if list == [] then [] else (if Key(list[0]) == x then [] else [list[0]]) + Others(list[1..], x)
  }

  lemma {:induction false} WithMembers(list: seq<Interface>, x: Advert, v: Interface)
    ensures v in With(list, x) <==> v in list && Key(v) == x
    ensures v in Others(list, x) <==> v in list && Key(v) != x
  {
    if list != [] {
      WithMembers(list[1..], x, v);
      assert list == [list[0]] + list[1..];
    }
  }

  lemma KeysWith(list: seq<Interface>, x: Advert)
    ensures Keys(With(list, x) + Others(list, x)) == Keys(list)
    ensures Keys(Others(list, x) + With(list, x)) == Keys(list)
  {
    forall v ensures v in With(list, x) + Others(list, x) <==> v in list {
      WithMembers(list, x, v);
    }
    forall v ensures v in Others(list, x) + With(list, x) <==> v in list {
      WithMembers(list, x, v);
    }
  }

  /** Node `n` with the interfaces that say `x` first, or last. */
  function Leading(n: Node, x: Advert): Node {
    Node(n.id, With(n.interfaces, x) + Others(n.interfaces, x))
  }

  function Trailing(n: Node, x: Advert): Node {
    Node(n.id, Others(n.interfaces, x) + With(n.interfaces, x))
  }

  function Rest(g: Graph, i: nat): Graph
    requires i < |g|
  {
    g[..i] + g[i + 1..]
  }

  /** `g` with the router at `i`, and in it what says `x`, moved to the front. */
  function InFront(g: Graph, i: nat, x: Advert): Graph
    requires i < |g|
  {
    [Leading(g[i], x)] + Rest(g, i)
  }

  /** `g` with the router at `i`, and in it what says `x`, moved to the end. */
  function AtEnd(g: Graph, i: nat, x: Advert): Graph
    requires i < |g|
  {
    Rest(g, i) + [Trailing(g[i], x)]
  }

  /** `h` lists the routers of `g` in another order, position `m` holding the one from `from[m]`, and says the same of each. */
  ghost predicate Moved(g: Graph, h: Graph, from: seq<nat>, to: seq<nat>) {
    && |from| == |to| == |g| == |h|
    && (forall m :: 0 <= m < |h| ==> from[m] < |g| && to[from[m]] == m)
    && (forall j :: 0 <= j < |g| ==> to[j] < |h| && from[to[j]] == j)
    && (forall m :: 0 <= m < |h| ==> h[m].id == g[from[m]].id && Keys(h[m].interfaces) == Keys(g[from[m]].interfaces))
  }

  lemma MovedSame(g: Graph, h: Graph, from: seq<nat>, to: seq<nat>)
    requires DistinctIds(g) && Moved(g, h, from, to)
    ensures DistinctIds(h) && SameAdverts(g, h)
  {
    forall m, n | 0 <= m < n < |h| ensures h[m].id != h[n].id {
      assert from[m] != from[n] by {
        assert to[from[m]] == m && to[from[n]] == n;
      }
    }
    forall j | 0 <= j < |g| ensures Has(h, g[j].id) && Keys(h[Pos(h, g[j].id)].interfaces) == Keys(g[j].interfaces) {
      PosUnique(h, to[j]);
    }
    forall m | 0 <= m < |h| ensures Has(g, h[m].id) && Keys(g[Pos(g, h[m].id)].interfaces) == Keys(h[m].interfaces) {
      PosUnique(g, from[m]);
    }
  }

  lemma MovedFront(g: Graph, i: nat, x: Advert)
    requires DistinctIds(g) && i < |g|
    ensures DistinctIds(InFront(g, i, x)) && SameAdverts(g, InFront(g, i, x))
  {
    var h := InFront(g, i, x);
    var from: seq<nat> := seq(|g|, m requires 0 <= m < |g| => if m == 0 then i else if m <= i then m - 1 else m);
    var to: seq<nat> := seq(|g|, j requires 0 <= j < |g| => if j == i then 0 else if j < i then j + 1 else j);
    KeysWith(g[i].interfaces, x);
    assert forall m :: 0 <= m < |h| ==> h[m] == if m == 0 then Leading(g[i], x) else g[from[m]];
    MovedSame(g, h, from, to);
  }

  lemma MovedEnd(g: Graph, i: nat, x: Advert)
    requires DistinctIds(g) && i < |g|
    ensures DistinctIds(AtEnd(g, i, x)) && SameAdverts(g, AtEnd(g, i, x))
  {
    var h, n := AtEnd(g, i, x), |g| - 1;
    var from: seq<nat> := seq(|g|, m requires 0 <= m < |g| => if m == n then i else if m < i then m else m + 1);
    var to: seq<nat> := seq(|g|, j requires 0 <= j < |g| => if j == i then n else if j < i then j else j - 1);
    KeysWith(g[i].interfaces, x);
    assert forall m :: 0 <= m < |h| ==> h[m] == if m == n then Trailing(g[i], x) else g[from[m]];
    MovedSame(g, h, from, to);
  }

  /** `x` of the router at `i` is claimed but not confirmed. */
  ghost predicate Disputed(g: Graph, i: nat, x: Advert) {
    SaysAt(g, i, x) && IsClaimed(g, g[i].id, x) && !IsAnswered(g, x)
  }

  /** What names its own router answers itself. */
  lemma DisputedNamesOther(g: Graph, i: nat, x: Advert)
    requires Disputed(g, i, x) && x.routerId != 0
    ensures x.routerId != g[i].id
  {
    if x.routerId == g[i].id {
      assert OnLink(x, x);
    }
  }

  lemma FrontSays(g: Graph, i: nat, x: Advert)
    requires i < |g| && SaysAt(g, i, x)
    ensures var h := InFront(g, i, x); Made(h, Adv(0, 0)) && Key(Iface(h, Adv(0, 0))) == x && h[0].id == g[i].id
  {
    var w := With(g[i].interfaces, x);
    var v :| v in g[i].interfaces && Key(v) == x;
    WithMembers(g[i].interfaces, x, v);
    WithMembers(g[i].interfaces, x, w[0]);
    assert InFront(g, i, x)[0] == Leading(g[i], x) && Leading(g[i], x).interfaces[0] == w[0];
  }

  lemma FrontClaimed(g: Graph, h: Graph, i: nat, x: Advert)
    requires SameAdverts(g, h) && Disputed(g, i, x) && |h| > 0 && h[0].id == g[i].id
    requires Made(h, Adv(0, 0)) && Key(Iface(h, Adv(0, 0))) == x
    ensures ClaimedLater(h, Adv(0, 0))
  {
    ClaimedCarries(g, h, g[i].id, x);
    var j: nat, y :| SaysAt(h, j, y) && y.routerId == g[i].id && OnLink(x, y);
    var a := KeyAt(h, j, y);
    DisputedNamesOther(g, i, x);
    assert Claims(h, a, Adv(0, 0)) && a != Adv(0, 0);
    assert After(a, Adv(0, 0));
  }

  /** In front, a disputed interface is claimed by a later one, and so active. */
  lemma ActiveInFront(g: Graph, i: nat, x: Advert, r: Graph)
    requires DistinctIds(g) && Disputed(g, i, x) && Flagged(InFront(g, i, x), r)
    ensures Made(r, Adv(0, 0)) && Iface(r, Adv(0, 0)).isActive && Key(Iface(r, Adv(0, 0))) == x && r[0].id == g[i].id
  {
    MovedFront(g, i, x);
    FrontSays(g, i, x);
    FrontClaimed(g, InFront(g, i, x), i, x);
  }

  /** At the end, no later interface claims it, and it is inactive. */
  lemma InactiveAtEnd(g: Graph, i: nat, x: Advert, r: Graph, b: Adv)
    requires DistinctIds(g) && Disputed(g, i, x) && Flagged(AtEnd(g, i, x), r)
    requires Made(r, b) && r[b.router].id == g[i].id && Key(Iface(r, b)) == x
    ensures !Iface(r, b).isActive
  {
    var h := AtEnd(g, i, x);
    MovedEnd(g, i, x);
    assert Made(h, b) && Key(Iface(h, b)) == x;
    assert h[|h| - 1] == Trailing(g[i], x);
    assert b.router == |h| - 1;
    AnsweredIs(h, b);
    AnsweredBoth(g, h, x);
    if ClaimedLater(h, b) {
      var a :| Made(h, a) && After(a, b) && Claims(h, a, b);
      LastSays(g, i, x, a, b);
      DisputedNamesOther(g, i, x);
    }
  }

  lemma LastSays(g: Graph, i: nat, x: Advert, a: Adv, b: Adv)
    requires i < |g|
    requires var h := AtEnd(g, i, x); Made(h, a) && Made(h, b) && b.router == |h| - 1 && Key(Iface(h, b)) == x && After(a, b)
    ensures Key(Iface(AtEnd(g, i, x), a)) == x
  {
    var h, o, w := AtEnd(g, i, x), Others(g[i].interfaces, x), With(g[i].interfaces, x);
    assert h[|h| - 1] == Trailing(g[i], x);
    if b.index < |o| {
      WithMembers(g[i].interfaces, x, o[b.index]);
    } else {
      WithMembers(g[i].interfaces, x, w[a.index - |o|]);
    }
  }

  /** A disputed interface is active or not as the lists are ordered. */
  lemma DisputedDisagree(g: Graph, i: nat, x: Advert, r: Graph, s: Graph)
    requires DistinctIds(g) && Disputed(g, i, x)
    requires Flagged(InFront(g, i, x), r) && Flagged(AtEnd(g, i, x), s)
    ensures !Agree(r, s)
  {
    ActiveInFront(g, i, x, r);
    var v := Iface(r, Adv(0, 0));
    assert v in r[0].interfaces;
    if Agree(r, s) {
      var j := Pos(s, r[0].id);
      assert v in s[j].interfaces;
      var m :| 0 <= m < |s[j].interfaces| && s[j].interfaces[m] == v;
      InactiveAtEnd(g, i, x, s, Adv(j, m));
    }
  }

  /** Every way to list what `g` says, with the flags set, agrees with every other. */
  ghost predicate AlwaysAgree(g: Graph) {
    forall h, k, r, s ::
      SameAdverts(g, h) && SameAdverts(g, k) && DistinctIds(h) && DistinctIds(k) && Flagged(h, r) && Flagged(k, s) ==> Agree(r, s)
  }

  /** The flags that a pass sets. */
  ghost function FlagsOf(g: Graph): (h: Graph)
    ensures Flagged(g, h)
  {
    var h := seq(|g|, i requires 0 <= i < |g| => Node(g[i].id,
      seq(|g[i].interfaces|, k requires 0 <= k < |g[i].interfaces| =>
        g[i].interfaces[k].(isActive := Answered(g, Adv(i, k)) || ClaimedLater(g, Adv(i, k))))));
    h
  }

  lemma SameAdvertsTwice(g: Graph, h: Graph, k: Graph)
    requires SameAdverts(g, h) && SameAdverts(g, k)
    ensures SameAdverts(h, k)
  {
    forall i | 0 <= i < |h| ensures Has(k, h[i].id) && Keys(k[Pos(k, h[i].id)].interfaces) == Keys(h[i].interfaces) {
      var j := Pos(g, h[i].id);
      assert g[j].id == h[i].id;
    }
    forall i | 0 <= i < |k| ensures Has(h, k[i].id) && Keys(h[Pos(h, k[i].id)].interfaces) == Keys(k[i].interfaces) {
      var j := Pos(g, k[i].id);
      assert g[j].id == k[i].id;
    }
  }

  /** The active flags do not depend on any order exactly if no interface is disputed. */
  lemma FlagsAgreeExactly(g: Graph)
    requires DistinctIds(g)
    ensures AlwaysAgree(g) <==> OrderFree(g)
  {
    if OrderFree(g) {
      forall h, k, r, s | SameAdverts(g, h) && SameAdverts(g, k) && DistinctIds(h) && DistinctIds(k) && Flagged(h, r) && Flagged(k, s)
        ensures Agree(r, s)
      {
        SameAdvertsTwice(g, h, k);
        OrderFreeCarries(g, h);
        FlaggedAgree(h, k, r, s);
      }
    } else {
      var i: nat, x :| SaysAt(g, i, x) && IsClaimed(g, g[i].id, x) && !IsAnswered(g, x);
      var h, k := InFront(g, i, x), AtEnd(g, i, x);
      MovedFront(g, i, x);
      MovedEnd(g, i, x);
      DisputedDisagree(g, i, x, FlagsOf(h), FlagsOf(k));
    }
  }

  // --- a disputed interface -----------------------------------------------------------------------

  /** On one subnet router 1 names 2, and 2 names 3, which names nobody. */
  function Shared(): Graph {
    [Node(1, [Interface(0, 0, 2, false)]), Node(2, [Interface(0, 0, 3, false)]), Node(3, [Interface(0, 0, 0, false)])]
  }

  lemma OneKey(i: Interface, x: Advert)
    ensures x in Keys([i]) <==> x == Key(i)
  {
    assert i in [i];
  }

  lemma SharedSays(j: nat, x: Advert)
    ensures SaysAt(Shared(), j, x) <==> j < 3 && x == Advert(0, 0, if j == 0 then 2 else if j == 1 then 3 else 0)
  {
    if j < 3 {
      OneKey(Shared()[j].interfaces[0], x);
      assert Shared()[j].interfaces == [Shared()[j].interfaces[0]];
    }
  }

  lemma SharedDisputed()
    ensures Disputed(Shared(), 1, Advert(0, 0, 3))
  {
    var x, y := Advert(0, 0, 3), Advert(0, 0, 2);
    SharedSays(1, x);
    SharedSays(0, y);
    assert SaysAt(Shared(), 0, y) && y.routerId == Shared()[1].id && OnLink(x, y);
    forall j: nat, z | SaysAt(Shared(), j, z) && Shared()[j].id == x.routerId ensures !OnLink(x, z) {
      SharedSays(j, z);
    }
  }

  /** Whether 2 may send to 3 depends on the order in which a database lists the routers. */
  lemma SharedDisagrees()
    ensures DistinctIds(Shared()) && !AlwaysAgree(Shared())
  {
    SharedDisputed();
    FlagsAgreeExactly(Shared());
  }
}
