/**
 What the flooded LSUs say. On top of the network in `Flooding`, every flood has
 the advertisements its router originated, and every record holds what
 reconciliation made of the LSUs taken into it.
 */
module FloodContents {
  import opened Numbers
  import opened HopGraph
  import opened Reconcile
  import opened LinkStateDb
  import opened Flooding

  /** An LSU as its router sent it out. */
  datatype Origin = Origin(rid: U32, seqno: U16, advs: seq<Advert>)

  /** Flood `f` is that of `history[f]`; `held[n][rid]` is what router `n` has stored for `rid`. */
  datatype World = World(net: Net, history: seq<Origin>, held: map<U32, map<U32, set<Advert>>>)

  /** A step of the network, with the advertisements of the LSU if it originates one. */
  datatype Act = Act(step: Step, advs: seq<Advert>)

  function HeldAt(w: World, n: U32): map<U32, set<Advert>> {
    if n in w.held then w.held[n] else map[]
  }

  function HeldBy(w: World, n: U32, rid: U32): set<Advert> {
    if rid in HeldAt(w, n) then HeldAt(w, n)[rid] else {}
  }

  function AdvsOf(w: World, f: nat): seq<Advert> {
    if f < |w.history| then w.history[f].advs else []
  }

  /** What an LSU of a router advertises is its own record, whose subnets are masked. */
  ghost predicate CanAct(w: World, a: Act, degree: nat) {
    Enabled(w.net, a.step, degree) && (a.step.Originate? ==> AllMasked(a.advs))
  }

  /** What router `c.dst` holds for `c.rid` once copy `c` has been taken: a record made anew or reconciled. */
  function Taken(w: World, c: Copy): set<Advert>
    requires c.dst in w.net.dbs
  {
    Reconciliation(if c.rid in w.net.dbs[c.dst] then HeldBy(w, c.dst, c.rid) else {}, AdvsOf(w, c.flood))
  }

  function HeldAfter(w: World, c: Copy): map<U32, map<U32, set<Advert>>>
    requires c.dst in w.net.dbs
  {
    if Accepts(w.net.dbs[c.dst], c.dst, c.rid, c.seqno)
    then w.held[c.dst := HeldAt(w, c.dst)[c.rid := Taken(w, c)]]
    else w.held
  }

  function Acted(w: World, a: Act, ghost degree: nat): World
    requires CanAct(w, a, degree)
  {
    var net := Apply(w.net, a.step, degree);
    match a.step
    case Originate(n) => World(net, w.history + [Origin(n, w.net.dbs[n][n], a.advs)], w.held)
    case Deliver(i) => World(net, w.history, HeldAfter(w, w.net.flight[i]))
    case Expire(n, gone) => World(net, w.history, w.held[n := HeldAt(w, n) - gone])
    case _ => World(net, w.history, w.held)
  }

  // --- numbers ----------------------------------------------------------------------------

  /** How many LSUs router `rid` has originated. */
  function Count(history: seq<Origin>, rid: U32): nat {
    if history == [] then 0
    else Count(history[..|history| - 1], rid) + (if history[|history| - 1].rid == rid then 1 else 0)
  }

  /** Flood `f` is that of its router's LSU number `Nth`, counted from 0. */
  function Nth(history: seq<Origin>, f: nat): nat
    requires f < |history|
  {
    Count(history[..f], history[f].rid)
  }

  /** LSUs carry their count, in 16 bits. */
  ghost predicate Numbered(history: seq<Origin>) {
    forall f :: 0 <= f < |history| ==> history[f].seqno == Nth(history, f) % U16_SIZE
  }

  lemma CountNext(history: seq<Origin>, o: Origin, rid: U32)
    ensures Count(history + [o], rid) == Count(history, rid) + (if o.rid == rid then 1 else 0)
  {
    assert (history + [o])[..|history|] == history;
  }

  lemma {:induction false} CountGrows(history: seq<Origin>, f: nat, m: nat, rid: U32)
    requires f < m <= |history| && history[f].rid == rid
    ensures Count(history[..f], rid) < Count(history[..m], rid)
    decreases m
  {
    assert history[..m][..m - 1] == history[..m - 1];
    if f < m - 1 {
      CountGrows(history, f, m - 1, rid);
    }
  }

  /** Up to 65536 LSUs of a router, no two have the same number. */
  lemma NumbersDistinct(history: seq<Origin>, f: nat, m: nat)
    requires Numbered(history) && f < |history| && m < |history|
    requires history[f].rid == history[m].rid && history[f].seqno == history[m].seqno
    requires Count(history, history[f].rid) <= U16_SIZE
    ensures f == m
  {
    NthBelow(history, f);
    NthBelow(history, m);
    if f < m {
      CountGrows(history, f, m, history[f].rid);
    } else if m < f {
      CountGrows(history, m, f, history[f].rid);
    }
  }

  lemma NthBelow(history: seq<Origin>, f: nat)
    requires f < |history|
    ensures Nth(history, f) < Count(history, history[f].rid)
    ensures Count(history, history[f].rid) <= U16_SIZE ==> Nth(history, f) % U16_SIZE == Nth(history, f)
  {
    assert history[..|history|] == history;
    CountGrows(history, f, |history|, history[f].rid);
  }

  // --- what every step keeps --------------------------------------------------------------

  ghost predicate Describes(o: Origin, c: Copy) {
    o.rid == c.rid && o.seqno == c.seqno
  }

  /** Every copy in flight is of the LSU its flood began with. */
  ghost predicate CopiesKnown(w: World) {
    && |w.history| == w.net.floods
    && (forall k :: 0 <= k < |w.net.flight| ==>
          w.net.flight[k].flood < |w.history| && Describes(w.history[w.net.flight[k].flood], w.net.flight[k]))
  }

  ghost predicate HistoryMasked(history: seq<Origin>) {
    forall f :: 0 <= f < |history| ==> AllMasked(history[f].advs)
  }

  /** LSU `f` is one of `rid` with number `seqno`, and says `advs`. */
  ghost predicate Says(history: seq<Origin>, f: nat, rid: U32, seqno: U16, advs: set<Advert>) {
    f < |history| && history[f].rid == rid && history[f].seqno == seqno && RawSet(history[f].advs) == advs
  }

  /** What `n` holds for `rid` is some LSU that `rid` originated with the stored number. */
  ghost predicate Genuine(w: World, n: U32, rid: U32)
    requires n in w.net.dbs && rid in w.net.dbs[n]
  {
    exists f: nat :: Says(w.history, f, rid, w.net.dbs[n][rid], HeldBy(w, n, rid))
  }

  ghost predicate AllGenuine(w: World) {
    forall n, rid :: n in w.net.dbs && rid in w.net.dbs[n] && rid != n ==> Genuine(w, n, rid)
  }

  /** Every router's own number is how many LSUs it has originated, in 16 bits. */
  ghost predicate OwnNumbers(w: World) {
    forall n :: n in w.net.dbs ==> n in w.net.dbs[n] && w.net.dbs[n][n] == Count(w.history, n) % U16_SIZE
  }

  ghost predicate WorldInv(w: World) {
    CopiesKnown(w) && HistoryMasked(w.history) && Numbered(w.history) && OwnNumbers(w) && AllGenuine(w)
  }

  /** Nothing has been sent and every router knows only itself. */
  ghost predicate Fresh(w: World) {
    && w.history == [] && w.net.flight == [] && w.net.floods == 0
    && (forall n :: n in w.net.dbs ==> w.net.dbs[n] == map[n := 0])
  }

  lemma FreshInv(w: World)
    requires Fresh(w)
    ensures WorldInv(w)
  {
  }

  lemma SaysLater(history: seq<Origin>, o: Origin, f: nat, rid: U32, seqno: U16, advs: set<Advert>)
    requires Says(history, f, rid, seqno, advs)
    ensures Says(history + [o], f, rid, seqno, advs)
  {
  }

  lemma NumberedNext(history: seq<Origin>, o: Origin)
    requires Numbered(history) && o.seqno == Count(history, o.rid) % U16_SIZE
    ensures Numbered(history + [o])
  {
    var r := history + [o];
    forall f | 0 <= f < |r| ensures r[f].seqno == Nth(r, f) % U16_SIZE {
      assert r[..f] == history[..f];
      assert history[..|history|] == history;
    }
  }

  lemma CopiesAfter(w: World, a: Act, degree: nat)
    requires CanAct(w, a, degree) && CopiesKnown(w)
    ensures CopiesKnown(Acted(w, a, degree))
  {
    var r := Acted(w, a, degree);
    forall k | 0 <= k < |r.net.flight|
      ensures r.net.flight[k].flood < |r.history| && Describes(r.history[r.net.flight[k].flood], r.net.flight[k])
    {
      var x := r.net.flight[k];
      match a.step
      case Originate(n) =>
        if k >= |w.net.flight| {
          assert x in r.net.flight[|w.net.flight|..];
        }
      case Deliver(i) =>
        var c, left := w.net.flight[i], Without(w.net.flight, i);
        if k < |left| {
          assert x == left[k] && left[k] in w.net.flight;
        } else {
          assert x in Forwarded(w.net, c);
        }
      case Lose(i) =>
        assert x in w.net.flight;
      case _ =>
    }
  }

  lemma OwnAfter(w: World, a: Act, degree: nat)
    requires CanAct(w, a, degree) && OwnNumbers(w)
    ensures OwnNumbers(Acted(w, a, degree))
  {
    var r := Acted(w, a, degree);
    forall n | n in r.net.dbs ensures n in r.net.dbs[n] && r.net.dbs[n][n] == Count(r.history, n) % U16_SIZE {
      if a.step.Originate? {
        CountNext(w.history, Origin(a.step.n, w.net.dbs[a.step.n][a.step.n], a.advs), n);
        assert n in w.net.dbs && n in w.net.dbs[n];
        WrapsOn(Count(w.history, n));
      } else {
        assert n in w.net.dbs && n in w.net.dbs[n];
      }
    }
  }

  lemma WrapsOn(k: nat)
    ensures (k % U16_SIZE + 1) % U16_SIZE == (k + 1) % U16_SIZE
  {
  }

  lemma GenuineAfterOriginate(w: World, a: Act, degree: nat, n: U32, rid: U32)
    requires CanAct(w, a, degree) && a.step.Originate? && AllGenuine(w)
    requires var r := Acted(w, a, degree); n in r.net.dbs && rid in r.net.dbs[n] && rid != n
    ensures Genuine(Acted(w, a, degree), n, rid)
  {
    var r := Acted(w, a, degree);
    assert n in w.net.dbs && rid in w.net.dbs[n] && w.net.dbs[n][rid] == r.net.dbs[n][rid];
    assert Genuine(w, n, rid);
    var f: nat :| Says(w.history, f, rid, w.net.dbs[n][rid], HeldBy(w, n, rid));
    SaysLater(w.history, r.history[|w.history|], f, rid, w.net.dbs[n][rid], HeldBy(w, n, rid));
    assert HeldBy(r, n, rid) == HeldBy(w, n, rid);
    assert Says(r.history, f, rid, r.net.dbs[n][rid], HeldBy(r, n, rid));
  }

  lemma GenuineAfterDeliver(w: World, a: Act, degree: nat, n: U32, rid: U32)
    requires CanAct(w, a, degree) && a.step.Deliver? && AllGenuine(w) && CopiesKnown(w) && HistoryMasked(w.history)
    requires var r := Acted(w, a, degree); n in r.net.dbs && rid in r.net.dbs[n] && rid != n
    ensures Genuine(Acted(w, a, degree), n, rid)
  {
    var r, c := Acted(w, a, degree), w.net.flight[a.step.i];
    if n == c.dst && rid == c.rid && Accepts(w.net.dbs[n], n, rid, c.seqno) {
      ReconciliationMasked(if rid in w.net.dbs[n] then HeldBy(w, n, rid) else {}, AdvsOf(w, c.flood));
      assert Says(r.history, c.flood, rid, r.net.dbs[n][rid], HeldBy(r, n, rid));
    } else {
      assert n in w.net.dbs && rid in w.net.dbs[n] && w.net.dbs[n][rid] == r.net.dbs[n][rid];
      assert Genuine(w, n, rid);
      assert HeldBy(r, n, rid) == HeldBy(w, n, rid);
      var f: nat :| Says(w.history, f, rid, w.net.dbs[n][rid], HeldBy(w, n, rid));
      assert Says(r.history, f, rid, r.net.dbs[n][rid], HeldBy(r, n, rid));
    }
  }

  lemma GenuineAfterOther(w: World, a: Act, degree: nat, n: U32, rid: U32)
    requires CanAct(w, a, degree) && !a.step.Originate? && !a.step.Deliver? && AllGenuine(w)
    requires var r := Acted(w, a, degree); n in r.net.dbs && rid in r.net.dbs[n] && rid != n
    ensures Genuine(Acted(w, a, degree), n, rid)
  {
    var r := Acted(w, a, degree);
    assert n in w.net.dbs && rid in w.net.dbs[n] && w.net.dbs[n][rid] == r.net.dbs[n][rid];
    assert Genuine(w, n, rid);
    assert HeldBy(r, n, rid) == HeldBy(w, n, rid);
    var f: nat :| Says(w.history, f, rid, w.net.dbs[n][rid], HeldBy(w, n, rid));
    assert Says(r.history, f, rid, r.net.dbs[n][rid], HeldBy(r, n, rid));
  }

  lemma ActKeepsInv(w: World, a: Act, degree: nat)
    requires CanAct(w, a, degree) && WorldInv(w)
    ensures WorldInv(Acted(w, a, degree))
  {
    var r := Acted(w, a, degree);
    CopiesAfter(w, a, degree);
    OwnAfter(w, a, degree);
    if a.step.Originate? {
      NumberedNext(w.history, r.history[|w.history|]);
    }
    forall n, rid | n in r.net.dbs && rid in r.net.dbs[n] && rid != n ensures Genuine(r, n, rid) {
      if a.step.Originate? {
        GenuineAfterOriginate(w, a, degree, n, rid);
      } else if a.step.Deliver? {
        GenuineAfterDeliver(w, a, degree, n, rid);
      } else {
        GenuineAfterOther(w, a, degree, n, rid);
      }
    }
  }

  // --- whole runs ---------------------------------------------------------------------------

  ghost predicate CanRun(w: World, acts: seq<Act>, degree: nat)
    decreases |acts|
  {
    acts == [] || (CanAct(w, acts[0], degree) && CanRun(Acted(w, acts[0], degree), acts[1..], degree))
  }

  ghost function AfterRun(w: World, acts: seq<Act>, degree: nat): World
    requires CanRun(w, acts, degree)
    decreases |acts|
  {
    if acts == [] then w else AfterRun(Acted(w, acts[0], degree), acts[1..], degree)
  }

  lemma {:induction false} RunKeepsWorldInv(w: World, acts: seq<Act>, degree: nat)
    requires CanRun(w, acts, degree) && WorldInv(w)
    ensures WorldInv(AfterRun(w, acts, degree))
    decreases |acts|
  {
    if acts != [] {
      ActKeepsInv(w, acts[0], degree);
      RunKeepsWorldInv(Acted(w, acts[0], degree), acts[1..], degree);
    }
  }

  /**
   Over any run from a fresh start, whatever is lost, reordered, relinked or timed
   out: what a router has stored for another, at number s, is an LSU that one
   originated with number s. While the other has originated at most 65536 LSUs
   there is just one of that number, and the record says exactly what it said.
   */
  lemma StoredIsOriginated(w: World, acts: seq<Act>, degree: nat, n: U32, rid: U32)
    requires Fresh(w) && CanRun(w, acts, degree)
    requires var r := AfterRun(w, acts, degree); n in r.net.dbs && rid in r.net.dbs[n] && rid != n
    ensures var r := AfterRun(w, acts, degree);
            && Genuine(r, n, rid)
            && (Count(r.history, rid) <= U16_SIZE ==>
                  forall f :: 0 <= f < |r.history| && r.history[f].rid == rid && r.history[f].seqno == r.net.dbs[n][rid] ==>
                    HeldBy(r, n, rid) == RawSet(r.history[f].advs))
  {
    FreshInv(w);
    RunKeepsWorldInv(w, acts, degree);
    StoredIsThe(AfterRun(w, acts, degree), n, rid);
  }

  lemma StoredIsThe(r: World, n: U32, rid: U32)
    requires WorldInv(r) && n in r.net.dbs && rid in r.net.dbs[n] && rid != n
    ensures Genuine(r, n, rid)
    ensures Count(r.history, rid) <= U16_SIZE ==>
      forall f :: 0 <= f < |r.history| && r.history[f].rid == rid && r.history[f].seqno == r.net.dbs[n][rid] ==>
        HeldBy(r, n, rid) == RawSet(r.history[f].advs)
  {
    assert Genuine(r, n, rid);
    var m: nat :| Says(r.history, m, rid, r.net.dbs[n][rid], HeldBy(r, n, rid));
    if Count(r.history, rid) <= U16_SIZE {
      forall f | 0 <= f < |r.history| && r.history[f].rid == rid && r.history[f].seqno == r.net.dbs[n][rid]
        ensures HeldBy(r, n, rid) == RawSet(r.history[f].advs)
      {
        NumbersDistinct(r.history, f, m);
      }
    }
  }

  /** So two routers that have stored the same number for a third hold the same advertisements for it. */
  lemma SameNumberSameContents(r: World, n: U32, m: U32, rid: U32)
    requires WorldInv(r) && Count(r.history, rid) <= U16_SIZE && rid != n && rid != m
    requires n in r.net.dbs && m in r.net.dbs && rid in r.net.dbs[n] && rid in r.net.dbs[m]
    requires r.net.dbs[n][rid] == r.net.dbs[m][rid]
    ensures HeldBy(r, n, rid) == HeldBy(r, m, rid)
  {
    StoredIsThe(r, n, rid);
    StoredIsThe(r, m, rid);
    assert Genuine(r, n, rid);
    var f: nat :| Says(r.history, f, rid, r.net.dbs[n][rid], HeldBy(r, n, rid));
  }

  // --- when records come to agree ----------------------------------------------------------

  /** `f` is the last flood of router `rid`, and its numbers have not wrapped. */
  ghost predicate IsLast(history: seq<Origin>, f: nat, rid: U32) {
    && f < |history| && history[f].rid == rid && Count(history, rid) <= U16_SIZE
    && (forall m :: f < m < |history| ==> history[m].rid != rid)
  }

  /** Then no LSU of it has a higher number. */
  lemma LastIsHighest(history: seq<Origin>, f: nat, rid: U32, m: nat)
    requires Numbered(history) && IsLast(history, f, rid) && m < |history| && history[m].rid == rid
    ensures history[m].seqno <= history[f].seqno
  {
    NthBelow(history, f);
    NthBelow(history, m);
    if m < f {
      CountGrows(history, m, f, rid);
    }
  }

  /** If `n` has a record of `rid`, it is from flood `f`. */
  ghost predicate UpToDate(w: World, n: U32, rid: U32, f: nat) {
    f < |w.history| && n in w.net.dbs && (rid in w.net.dbs[n] ==> w.net.dbs[n][rid] == w.history[f].seqno)
  }

  /** All copies in flight of LSUs of `rid` are of flood `f`; so also if there are none. */
  ghost predicate OnlyLast(w: World, rid: U32, f: nat) {
    forall k :: 0 <= k < |w.net.flight| && w.net.flight[k].rid == rid ==> w.net.flight[k].flood == f
  }

  /** It is up to date, and nothing older can be learned again. */
  ghost predicate Current(w: World, n: U32, rid: U32, f: nat) {
    UpToDate(w, n, rid, f) && (rid in w.net.dbs[n] || OnlyLast(w, rid, f))
  }

  lemma StoredIsNotNewer(w: World, n: U32, rid: U32, f: nat)
    requires WorldInv(w) && IsLast(w.history, f, rid) && n in w.net.dbs && rid in w.net.dbs[n] && rid != n
    ensures w.net.dbs[n][rid] <= w.history[f].seqno
  {
    assert Genuine(w, n, rid);
    var m: nat :| Says(w.history, m, rid, w.net.dbs[n][rid], HeldBy(w, n, rid));
    LastIsHighest(w.history, f, rid, m);
  }

  /** A delivery of the last LSU brings the receiver up to date, whether it takes it or has it already. */
  lemma DeliveryUpdates(w: World, a: Act, degree: nat, rid: U32, f: nat)
    requires WorldInv(w) && CanAct(w, a, degree) && IsLast(w.history, f, rid)
    requires a.step.Deliver? && w.net.flight[a.step.i].flood == f && w.net.flight[a.step.i].dst != rid
    ensures var n, r := w.net.flight[a.step.i].dst, Acted(w, a, degree);
            UpToDate(r, n, rid, f) && rid in r.net.dbs[n]
  {
    var c := w.net.flight[a.step.i];
    assert Describes(w.history[f], c);
    if rid in w.net.dbs[c.dst] {
      StoredIsNotNewer(w, c.dst, rid, f);
    }
  }

  lemma LastStays(w: World, a: Act, degree: nat, rid: U32, f: nat)
    requires CanAct(w, a, degree) && IsLast(w.history, f, rid) && a.step != Originate(rid)
    ensures IsLast(Acted(w, a, degree).history, f, rid)
    ensures f < |Acted(w, a, degree).history| && Acted(w, a, degree).history[f] == w.history[f]
  {
    if a.step.Originate? {
      CountNext(w.history, Origin(a.step.n, w.net.dbs[a.step.n][a.step.n], a.advs), rid);
    }
  }

  lemma OnlyLastStays(w: World, a: Act, degree: nat, rid: U32, f: nat)
    requires CanAct(w, a, degree) && OnlyLast(w, rid, f) && a.step != Originate(rid)
    ensures OnlyLast(Acted(w, a, degree), rid, f)
  {
    var r := Acted(w, a, degree);
    if a.step.Originate? {
      forall m | |w.net.flight| <= m < |r.net.flight| ensures r.net.flight[m].rid == a.step.n {
        assert r.net.flight[m] in r.net.flight[|w.net.flight|..];
      }
    }
    forall k | 0 <= k < |r.net.flight| && r.net.flight[k].rid == rid ensures r.net.flight[k].flood == f {
      var x := r.net.flight[k];
      match a.step
      case Deliver(i) =>
        var left := Without(w.net.flight, i);
        if k < |left| {
          assert x == left[k] && left[k] in w.net.flight;
        } else {
          assert x in Forwarded(w.net, w.net.flight[i]);
        }
      case Lose(i) =>
        assert x in w.net.flight;
      case _ =>
    }
  }

  ghost predicate ExpiresAt(a: Act, n: U32, rid: U32) {
    a.step.Expire? && a.step.n == n && rid in a.step.gone
  }

  lemma CurrentStays(w: World, a: Act, degree: nat, n: U32, rid: U32, f: nat)
    requires WorldInv(w) && CanAct(w, a, degree) && IsLast(w.history, f, rid) && a.step != Originate(rid)
    requires Current(w, n, rid, f) && rid != n && (OnlyLast(w, rid, f) || !ExpiresAt(a, n, rid))
    ensures Current(Acted(w, a, degree), n, rid, f)
  {
    LastStays(w, a, degree, rid, f);
    if OnlyLast(w, rid, f) {
      OnlyLastStays(w, a, degree, rid, f);
    }
    if a.step.Deliver? && w.net.flight[a.step.i].dst == n && w.net.flight[a.step.i].rid == rid {
      var c := w.net.flight[a.step.i];
      assert Describes(w.history[c.flood], c);
      LastIsHighest(w.history, f, rid, c.flood);
    }
  }

  /** Flood `f` is delivered to `n` during the run. */
  ghost predicate Reaches(w: World, acts: seq<Act>, degree: nat, n: U32, f: nat)
    requires CanRun(w, acts, degree)
    decreases |acts|
  {
    acts != [] &&
    (|| (acts[0].step.Deliver? && w.net.flight[acts[0].step.i].flood == f && w.net.flight[acts[0].step.i].dst == n)
     || Reaches(Acted(w, acts[0], degree), acts[1..], degree, n, f))
  }

  ghost predicate Silent(acts: seq<Act>, rid: U32) {
    forall k :: 0 <= k < |acts| ==> acts[k].step != Originate(rid)
  }

  ghost predicate Kept(acts: seq<Act>, n: U32, rid: U32) {
    forall k :: 0 <= k < |acts| ==> !ExpiresAt(acts[k], n, rid)
  }

  /**
   From the last LSU of router `rid` on, as long as its numbers have not wrapped:
   once that LSU has been delivered to `n`, whatever `n` then has stored for `rid`
   is that LSU, for good, through loss, delays and relinking. Only if the record
   times out while older copies are still in flight may an older one come back.
   */
  lemma {:induction false} Settles(w: World, acts: seq<Act>, degree: nat, n: U32, rid: U32, f: nat)
    requires WorldInv(w) && CanRun(w, acts, degree) && IsLast(w.history, f, rid) && Silent(acts, rid) && rid != n
    requires OnlyLast(w, rid, f) || Kept(acts, n, rid)
    requires Current(w, n, rid, f) || Reaches(w, acts, degree, n, f)
    ensures var r := AfterRun(w, acts, degree);
            && Current(r, n, rid, f) && f < |r.history| && r.history[f] == w.history[f]
            && (rid in r.net.dbs[n] ==> HeldBy(r, n, rid) == RawSet(w.history[f].advs))
    decreases |acts|
  {
    if acts == [] {
      if rid in w.net.dbs[n] {
        StoredIsThe(w, n, rid);
      }
    } else {
      var a, next := acts[0], Acted(w, acts[0], degree);
      ActKeepsInv(w, a, degree);
      LastStays(w, a, degree, rid, f);
      if OnlyLast(w, rid, f) {
        OnlyLastStays(w, a, degree, rid, f);
      }
      if Current(w, n, rid, f) {
        CurrentStays(w, a, degree, n, rid, f);
      } else if a.step.Deliver? && w.net.flight[a.step.i].flood == f && w.net.flight[a.step.i].dst == n {
        DeliveryUpdates(w, a, degree, rid, f);
      }
      assert Silent(acts[1..], rid) && (Kept(acts, n, rid) ==> Kept(acts[1..], n, rid));
      Settles(next, acts[1..], degree, n, rid, f);
    }
  }

  // --- when a number wraps --------------------------------------------------------------------

  /**
   A copy of LSU number `m` of a router is taken, by one that has stored its LSU
   number `j`, exactly if m modulo 65536 exceeds j modulo 65536.
   */
  lemma TakenExactly(w: World, i: nat, f: nat)
    requires WorldInv(w) && i < |w.net.flight|
    requires var c := w.net.flight[i];
             c.dst in w.net.dbs && c.rid != c.dst && c.rid in w.net.dbs[c.dst]
             && f < |w.history| && w.history[f].rid == c.rid && w.history[f].seqno == w.net.dbs[c.dst][c.rid]
    ensures var c := w.net.flight[i];
            && c.flood < |w.history|
            && (Accepts(w.net.dbs[c.dst], c.dst, c.rid, c.seqno) <==>
                  Nth(w.history, c.flood) % U16_SIZE > Nth(w.history, f) % U16_SIZE)
  {
    var c := w.net.flight[i];
    assert Describes(w.history[c.flood], c);
  }

  /** An LSU whose number has wrapped round to 0 is dropped by every router that has a record of its router. */
  lemma WrappedIsDropped(w: World, i: nat)
    requires WorldInv(w) && i < |w.net.flight| && w.net.flight[i].flood < |w.history|
    requires Nth(w.history, w.net.flight[i].flood) % U16_SIZE == 0
    requires var c := w.net.flight[i]; c.dst in w.net.dbs && c.rid in w.net.dbs[c.dst]
    ensures var c := w.net.flight[i]; !Accepts(w.net.dbs[c.dst], c.dst, c.rid, c.seqno)
  {
    assert Describes(w.history[w.net.flight[i].flood], w.net.flight[i]);
  }
}
