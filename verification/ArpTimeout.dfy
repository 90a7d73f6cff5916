/**
 One pass over the ARP queue: entries are asked for again, or given up after the
 fifth request. Giving up a packet may send an ICMP error, which may join the
 very entry that is being emptied.
 */
module ArpTimeout {
  import opened Numbers
  import opened ArpPlaces
  import opened ArpQueue

  /** The error about `p` goes out, if `p` warrants one and can be answered. */
  function WithError(b: Book, cache: seq<CacheEntry>, env: Env, p: Packet, now: int): Book {
    if MayCauseError(p) && p.src !in env.ours && p.src in env.routes then
      var r := env.routes[p.src];
      SentOrQueued(b, cache, HostUnreachable(p, r.ourIp), r.nextHop, r.iface, now)
    else b
  }

  /** An error that is due goes out by the route to its destination: to the address cached for that next hop, or into its entry. */
  lemma WithErrorIs(b: Book, cache: seq<CacheEntry>, env: Env, p: Packet, now: int, k: nat)
    requires (p.proto != 1 || p.icmpType in {0, 8}) && p.src !in env.ours && p.src in env.routes
    requires k <= |cache| && forall j :: 0 <= j < k ==> cache[j].ip != env.routes[p.src].nextHop
    requires k < |cache| ==> cache[k].ip == env.routes[p.src].nextHop
    ensures var r, route := WithError(b, cache, env, p, now), env.routes[p.src];
            var e := Packet(ErrorAbout(p.tag), 1, 3, route.ourIp, p.src);
            && (k < |cache| ==> r.queue == b.queue && r.sent == b.sent + [Frame(Parcel(e, route.nextHop), cache[k].mac)])
            && (k == |cache| ==> r.sent == b.sent && r.queue == Enqueued(b.queue, e, route.nextHop, route.iface, now))
  {
  }

  /** Entry `i` gains at most one packet, and that one never causes an error; if so, `p` warranted one. */
  lemma WithErrorEntry(b: Book, cache: seq<CacheEntry>, env: Env, p: Packet, now: int, i: nat)
    requires i < |b.queue|
    ensures var r := WithError(b, cache, env, p, now);
            && i < |r.queue| && r.queue[i] == b.queue[i].(packets := r.queue[i].packets)
            && (r.queue[i].packets == b.queue[i].packets ||
                (MayCauseError(p) && exists e :: !MayCauseError(e) && r.queue[i].packets == b.queue[i].packets + [e]))
  {
    if MayCauseError(p) && p.src !in env.ours && p.src in env.routes {
      assert !MayCauseError(HostUnreachable(p, env.routes[p.src].ourIp));
    }
  }

  lemma WithErrorBalanced(b: Book, cache: seq<CacheEntry>, env: Env, p: Packet, now: int)
    requires Balanced(b)
    ensures var r := WithError(b, cache, env, p, now);
            Balanced(r) && Grown(b.queue, r.queue) && r.dropped == b.dropped
  {
    if MayCauseError(p) && p.src !in env.ours && p.src in env.routes {
      var r := env.routes[p.src];
      SentOrQueuedBalanced(b, cache, HostUnreachable(p, r.ourIp), r.nextHop, r.iface, now);
    }
  }

  /** The first packet of entry `i` is answered if need be, and given up. */
  function HeadExpired(b: Book, cache: seq<CacheEntry>, env: Env, i: nat, now: int): (r: Book)
    requires i < |b.queue| && b.queue[i].packets != []
    ensures i < |r.queue| && Work(r.queue[i].packets) < Work(b.queue[i].packets)
  {
    var p := b.queue[i].packets[0];
    var w := WithError(b, cache, env, p, now);
    WithErrorEntry(b, cache, env, p, now, i);
    HeadWork(b.queue[i].packets, w.queue[i].packets);
    HeadDropped(w, i)
  }

  /** Why emptying an entry ends: an error adds less than the packet it is about took away. */
  lemma HeadWork(ps: seq<Packet>, ws: seq<Packet>)
    requires ps != []
    requires ws == ps || (MayCauseError(ps[0]) && exists e :: !MayCauseError(e) && ws == ps + [e])
    ensures ws != [] && ws[0] == ps[0] && Work(ws[1..]) < Work(ps)
  {
    if ws != ps {
      var e :| !MayCauseError(e) && ws == ps + [e];
      WorkNext(ps[1..], e);
      assert ws[1..] == ps[1..] + [e];
    }
  }

  lemma HeadExpiredBalanced(b: Book, cache: seq<CacheEntry>, env: Env, i: nat, now: int)
    requires Balanced(b) && i < |b.queue| && b.queue[i].packets != []
    ensures var r := HeadExpired(b, cache, env, i, now);
            && Balanced(r) && Grown(b.queue, r.queue)
            && r.dropped == b.dropped + multiset{Parcel(b.queue[i].packets[0], b.queue[i].nextHop)}
  {
    var p := b.queue[i].packets[0];
    var w := WithError(b, cache, env, p, now);
    WithErrorEntry(b, cache, env, p, now, i);
    HeadWork(b.queue[i].packets, w.queue[i].packets);
    WithErrorBalanced(b, cache, env, p, now);
    assert w.queue[i].nextHop == b.queue[i].nextHop;
    HeadDroppedBalanced(w, i);
    PoppedGrown(b.queue, w.queue, i);
    assert HeadExpired(b, cache, env, i, now) == HeadDropped(w, i);
  }

  /** Entry `i` emptied: every packet in it, and every error that joins it meanwhile, is given up. */
  function Emptied(b: Book, cache: seq<CacheEntry>, env: Env, i: nat, now: int): (r: Book)
    requires i < |b.queue|
    ensures i < |r.queue| && r.queue[i].packets == []
    decreases Work(b.queue[i].packets)
  {
    if b.queue[i].packets == [] then b
    else Emptied(HeadExpired(b, cache, env, i, now), cache, env, i, now)
  }

  ghost predicate OnlyFrom(more: multiset<Parcel>, less: multiset<Parcel>, hop: U32) {
    forall x :: more[x] > less[x] ==> x.nextHop == hop
  }

  lemma {:induction false} EmptiedBalanced(b: Book, cache: seq<CacheEntry>, env: Env, i: nat, now: int)
    requires Balanced(b) && i < |b.queue|
    ensures var r := Emptied(b, cache, env, i, now);
            && Balanced(r) && Grown(b.queue, r.queue)
            && OnlyFrom(r.dropped, b.dropped, b.queue[i].nextHop)
            && forall x :: b.dropped[x] <= r.dropped[x]
    decreases Work(b.queue[i].packets)
  {
    if b.queue[i].packets != [] {
      var h := HeadExpired(b, cache, env, i, now);
      HeadExpiredBalanced(b, cache, env, i, now);
      EmptiedBalanced(h, cache, env, i, now);
      GrownTransitive(b.queue, h.queue, Emptied(h, cache, env, i, now).queue);
    }
  }

  lemma ParcelsLater(ps: seq<Packet>, ws: seq<Packet>, hop: U32)
    requires ps <= ws
    ensures Parcels(ps, hop) <= Parcels(ws, hop)
  {
    assert ws == ps + ws[|ps|..];
    ParcelsOfSum(ps, ws[|ps|..], hop);
  }

  lemma HeadExpiredEntry(b: Book, cache: seq<CacheEntry>, env: Env, i: nat, now: int)
    requires i < |b.queue| && b.queue[i].packets != []
    ensures var r := HeadExpired(b, cache, env, i, now);
            r.queue[i].nextHop == b.queue[i].nextHop && b.queue[i].packets[1..] <= r.queue[i].packets
  {
    var p := b.queue[i].packets[0];
    WithErrorEntry(b, cache, env, p, now, i);
    HeadWork(b.queue[i].packets, WithError(b, cache, env, p, now).queue[i].packets);
  }

  /** Whatever waits when its entry is given up is dropped, wherever the errors go. */
  lemma {:induction false} EmptiedDropsAll(b: Book, cache: seq<CacheEntry>, env: Env, i: nat, now: int)
    requires Balanced(b) && i < |b.queue|
    ensures b.dropped + InEntry(b.queue[i]) <= Emptied(b, cache, env, i, now).dropped
    decreases Work(b.queue[i].packets)
  {
    var ps, hop := b.queue[i].packets, b.queue[i].nextHop;
    if ps != [] {
      var h := HeadExpired(b, cache, env, i, now);
      HeadExpiredBalanced(b, cache, env, i, now);
      HeadExpiredEntry(b, cache, env, i, now);
      ParcelsLater(ps[1..], h.queue[i].packets, hop);
      EmptiedDropsAll(h, cache, env, i, now);
      assert InEntry(b.queue[i]) == multiset{Parcel(ps[0], hop)} + Parcels(ps[1..], hop);
    }
  }

  /** The entry is as it was, perhaps with more packets behind. */
  ghost predicate Kept(e: QueueEntry, f: QueueEntry) {
    f == e.(packets := f.packets) && e.packets <= f.packets
  }

  lemma HeadExpiredKeeps(b: Book, cache: seq<CacheEntry>, env: Env, i: nat, now: int, j: nat)
    requires i < |b.queue| && b.queue[i].packets != [] && j < |b.queue| && j != i
    ensures var r := HeadExpired(b, cache, env, i, now); j < |r.queue| && Kept(b.queue[j], r.queue[j])
  {
    var p := b.queue[i].packets[0];
    WithErrorEntry(b, cache, env, p, now, i);
    WithErrorEntry(b, cache, env, p, now, j);
    HeadWork(b.queue[i].packets, WithError(b, cache, env, p, now).queue[i].packets);
  }

  /** Emptying one entry takes nothing out of another. */
  lemma {:induction false} EmptiedKeeps(b: Book, cache: seq<CacheEntry>, env: Env, i: nat, now: int, j: nat)
    requires i < |b.queue| && j < |b.queue| && j != i
    ensures var r := Emptied(b, cache, env, i, now); j < |r.queue| && Kept(b.queue[j], r.queue[j])
    decreases Work(b.queue[i].packets)
  {
    if b.queue[i].packets != [] {
      HeadExpiredKeeps(b, cache, env, i, now, j);
      EmptiedKeeps(HeadExpired(b, cache, env, i, now), cache, env, i, now, j);
    }
  }

  // --- one visit, one pass ---------------------------------------------------------------

  predicate Due(e: QueueEntry, now: int) {
    now - e.lastReq > 1
  }

  predicate GivenUp(e: QueueEntry, now: int) {
    Due(e, now) && e.requests >= MAX_REQUESTS
  }

  function Visited(b: Book, cache: seq<CacheEntry>, env: Env, i: nat, now: int): (r: Book)
    requires i < |b.queue|
  {
    var e := b.queue[i];
    if !Due(e, now) then b
    else if e.requests < MAX_REQUESTS then
      b.(queue := b.queue[i := e.(requests := e.requests + 1, lastReq := now)])
    else
      var r := Emptied(b, cache, env, i, now);
      r.(queue := Removed(r.queue, i))
  }

  lemma GivenUpBalanced(b: Book, cache: seq<CacheEntry>, env: Env, i: nat, now: int)
    requires Balanced(b) && i < |b.queue|
    ensures var r := Emptied(b, cache, env, i, now); Balanced(r.(queue := Removed(r.queue, i)))
  {
    EmptiedBalanced(b, cache, env, i, now);
    RemovedBalanced(Emptied(b, cache, env, i, now), i);
  }

  lemma VisitedBalanced(b: Book, cache: seq<CacheEntry>, env: Env, i: nat, now: int)
    requires Balanced(b) && i < |b.queue|
    ensures Balanced(Visited(b, cache, env, i, now))
  {
    var e := b.queue[i];
    if !Due(e, now) {
      assert Visited(b, cache, env, i, now) == b;
    } else if e.requests < MAX_REQUESTS {
      assert Visited(b, cache, env, i, now) == b.(queue := b.queue[i := e.(requests := e.requests + 1, lastReq := now)]);
      RequestedBalanced(b, i, now);
    } else {
      GivenUpBalanced(b, cache, env, i, now);
    }
  }

  ghost predicate GaveUpOn(q: Queue, hop: U32) {
    exists j :: 0 <= j < |q| && q[j].nextHop == hop && q[j].requests >= MAX_REQUESTS
  }

  /** An entry that stays: the rest of the pass is shorter. An entry given up: fewer are left to give up. */
  lemma VisitedShrinks(b: Book, cache: seq<CacheEntry>, env: Env, i: nat, now: int)
    requires Balanced(b) && i < |b.queue|
    ensures var r := Visited(b, cache, env, i, now);
            if GivenUp(b.queue[i], now)
            then |r.queue| >= |b.queue| - 1 && Exhausted(r.queue[i..]) < Exhausted(b.queue[i..])
            else |r.queue| == |b.queue| && r.queue[i + 1..] == b.queue[i + 1..] && Exhausted(r.queue[i + 1..]) <= Exhausted(b.queue[i..])
  {
    var q := b.queue;
    assert q[i..][1..] == q[i + 1..];
    if GivenUp(q[i], now) {
      EmptiedBalanced(b, cache, env, i, now);
      var e := Emptied(b, cache, env, i, now).queue;
      assert Removed(e, i)[i..] == e[i + 1..];
      ExhaustedSame(q[i + 1..], e[i + 1..]);
    }
  }

  /** Only the entry at hand is given up, and only after its fifth request. */
  lemma VisitedDrops(b: Book, cache: seq<CacheEntry>, env: Env, i: nat, now: int, q0: Queue)
    requires Balanced(b) && i < |b.queue|
    requires forall k :: i <= k < |b.queue| && b.queue[k].requests >= MAX_REQUESTS ==> GaveUpOn(q0, b.queue[k].nextHop)
    ensures var r := Visited(b, cache, env, i, now);
            && (forall x :: r.dropped[x] > b.dropped[x] ==> GaveUpOn(q0, x.nextHop))
            && (forall k :: (if GivenUp(b.queue[i], now) then i else i + 1) <= k < |r.queue| && r.queue[k].requests >= MAX_REQUESTS ==>
                  GaveUpOn(q0, r.queue[k].nextHop))
  {
    if GivenUp(b.queue[i], now) {
      EmptiedBalanced(b, cache, env, i, now);
    }
  }

  lemma VisitedKeeps(b: Book, cache: seq<CacheEntry>, env: Env, i: nat, now: int, j: nat)
    requires i < |b.queue| && j < |b.queue| && j != i
    ensures var r, at := Visited(b, cache, env, i, now), if GivenUp(b.queue[i], now) && j > i then j - 1 else j;
            at < |r.queue| && Kept(b.queue[j], r.queue[at])
  {
    if GivenUp(b.queue[i], now) {
      EmptiedKeeps(b, cache, env, i, now, j);
    }
  }

  /** The rest of a pass from entry `i` on; `clock(n)` is the time read next. */
  ghost function Passed(b: Book, cache: seq<CacheEntry>, env: Env, i: nat, n: nat, clock: nat -> int): Book
    requires Balanced(b) && i < |b.queue|
    decreases Exhausted(b.queue[i..]), |b.queue| - i
  {
    var r := Visited(b, cache, env, i, clock(n));
    VisitedBalanced(b, cache, env, i, clock(n));
    VisitedShrinks(b, cache, env, i, clock(n));
    if i + 1 >= |b.queue| then r
    else if GivenUp(b.queue[i], clock(n)) then Passed(r, cache, env, i, n + 1, clock)
    else Passed(r, cache, env, i + 1, n + 1, clock)
  }

  lemma VisitedMonotone(b: Book, cache: seq<CacheEntry>, env: Env, i: nat, now: int)
    requires Balanced(b) && i < |b.queue|
    ensures b.dropped <= Visited(b, cache, env, i, now).dropped
  {
    if GivenUp(b.queue[i], now) {
      EmptiedBalanced(b, cache, env, i, now);
    }
  }

  /** Where the pass goes on after entry `i`. */
  ghost function Onward(b: Book, i: nat, now: int): nat
    requires i < |b.queue|
  {
    if GivenUp(b.queue[i], now) then i else i + 1
  }

  lemma PassedStep(b: Book, cache: seq<CacheEntry>, env: Env, i: nat, n: nat, clock: nat -> int, m: nat)
    requires Balanced(b) && i < |b.queue| && m == n + 1
    ensures var r := Visited(b, cache, env, i, clock(n));
            var next := Onward(b, i, clock(n));
            && Balanced(r)
            && (i + 1 >= |b.queue| ==> Passed(b, cache, env, i, n, clock) == r)
            && (i + 1 < |b.queue| ==>
                  && next < |r.queue|
                  && (Exhausted(r.queue[next..]) < Exhausted(b.queue[i..])
                      || (Exhausted(r.queue[next..]) == Exhausted(b.queue[i..]) && |r.queue| - next < |b.queue| - i))
                  && Passed(b, cache, env, i, n, clock) == Passed(r, cache, env, next, m, clock))
  {
    VisitedBalanced(b, cache, env, i, clock(n));
    VisitedShrinks(b, cache, env, i, clock(n));
  }

  /** A pass loses no packet and takes back no drop. */
  lemma {:induction false} PassedBalanced(b: Book, cache: seq<CacheEntry>, env: Env, i: nat, n: nat, clock: nat -> int)
    requires Balanced(b) && i < |b.queue|
    ensures Balanced(Passed(b, cache, env, i, n, clock)) && b.dropped <= Passed(b, cache, env, i, n, clock).dropped
    decreases Exhausted(b.queue[i..]), |b.queue| - i
  {
    PassedStep(b, cache, env, i, n, clock, n + 1);
    VisitedMonotone(b, cache, env, i, clock(n));
    if i + 1 < |b.queue| {
      PassedBalanced(Visited(b, cache, env, i, clock(n)), cache, env, Onward(b, i, clock(n)), n + 1, clock);
    }
  }

  /** Only packets whose next hop had used up its requests are dropped. */
  lemma {:induction false} PassedDrops(b: Book, cache: seq<CacheEntry>, env: Env, i: nat, n: nat, clock: nat -> int, q0: Queue)
    requires Balanced(b) && i < |b.queue|
    requires forall k :: i <= k < |b.queue| && b.queue[k].requests >= MAX_REQUESTS ==> GaveUpOn(q0, b.queue[k].nextHop)
    ensures forall x :: Passed(b, cache, env, i, n, clock).dropped[x] > b.dropped[x] ==> GaveUpOn(q0, x.nextHop)
    decreases Exhausted(b.queue[i..]), |b.queue| - i
  {
    PassedStep(b, cache, env, i, n, clock, n + 1);
    VisitedDrops(b, cache, env, i, clock(n), q0);
    if i + 1 < |b.queue| {
      PassedDrops(Visited(b, cache, env, i, clock(n)), cache, env, Onward(b, i, clock(n)), n + 1, clock, q0);
    }
  }

  /** Entries already visited are left alone, but for packets that join them. */
  lemma {:induction false} PassedKeeps(b: Book, cache: seq<CacheEntry>, env: Env, i: nat, n: nat, clock: nat -> int, j: nat)
    requires Balanced(b) && j < i < |b.queue|
    ensures var r := Passed(b, cache, env, i, n, clock); j < |r.queue| && Kept(b.queue[j], r.queue[j])
    decreases Exhausted(b.queue[i..]), |b.queue| - i
  {
    PassedStep(b, cache, env, i, n, clock, n + 1);
    VisitedKeeps(b, cache, env, i, clock(n), j);
    if i + 1 < |b.queue| {
      PassedKeeps(Visited(b, cache, env, i, clock(n)), cache, env, Onward(b, i, clock(n)), n + 1, clock, j);
    }
  }

  /**
   What a pass that ends in `r` did to entry `e`, visited at time `t`: given up,
   all that waited in it dropped on top of `before`; or still there, asked for
   once more if it was due.
   */
  ghost predicate Fate(e: QueueEntry, t: int, before: multiset<Parcel>, r: Book) {
    if t - e.lastReq > 1 && e.requests >= 5 then before + Parcels(e.packets, e.nextHop) <= r.dropped
    else exists f :: f in r.queue && Stays(e, t, f)
  }

  /** Entry `e`, visited at time `t` and not given up, is now `f`. */
  ghost predicate Stays(e: QueueEntry, t: int, f: QueueEntry) {
    && f.nextHop == e.nextHop && f.iface == e.iface && e.packets <= f.packets
    && (if t - e.lastReq > 1 then f.requests == e.requests + 1 && f.lastReq == t
        else f.requests == e.requests && f.lastReq == e.lastReq)
  }

  lemma FateOfEarlier(e: QueueEntry, f: QueueEntry, t: int, before: multiset<Parcel>, later: multiset<Parcel>, r: Book)
    requires Kept(e, f) && before <= later && Fate(f, t, later, r)
    ensures Fate(e, t, before, r)
  {
    if GivenUp(e, t) {
      ParcelsLater(e.packets, f.packets, e.nextHop);
    } else {
      var h :| h in r.queue && Stays(f, t, h);
      assert Stays(e, t, h);
    }
  }

  lemma VisitedStays(b: Book, cache: seq<CacheEntry>, env: Env, i: nat, now: int)
    requires i < |b.queue| && !GivenUp(b.queue[i], now)
    ensures var r := Visited(b, cache, env, i, now); i < |r.queue| && Stays(b.queue[i], now, r.queue[i])
  {
  }

  lemma KeptStays(e: QueueEntry, t: int, f: QueueEntry, g: QueueEntry)
    requires Stays(e, t, f) && Kept(f, g)
    ensures Stays(e, t, g)
  {
  }

  lemma FateHere(b: Book, cache: seq<CacheEntry>, env: Env, i: nat, n: nat, clock: nat -> int)
    requires Balanced(b) && i < |b.queue|
    ensures Fate(b.queue[i], clock(n), b.dropped, Passed(b, cache, env, i, n, clock))
  {
    var e, r, next := b.queue[i], Visited(b, cache, env, i, clock(n)), Onward(b, i, clock(n));
    var end := Passed(b, cache, env, i, n, clock);
    PassedStep(b, cache, env, i, n, clock, n + 1);
    if GivenUp(e, clock(n)) {
      EmptiedDropsAll(b, cache, env, i, clock(n));
      if i + 1 < |b.queue| {
        PassedBalanced(r, cache, env, next, n + 1, clock);
      }
    } else {
      VisitedStays(b, cache, env, i, clock(n));
      if i + 1 < |b.queue| {
        PassedKeeps(r, cache, env, next, n + 1, clock, i);
        KeptStays(e, clock(n), r.queue[i], end.queue[i]);
      }
      assert end.queue[i] in end.queue;
    }
  }

  /** Every entry in the queue when the pass begins is visited once, in turn, with the outcome `Fate` describes. */
  lemma {:induction false} PassedFate(b: Book, cache: seq<CacheEntry>, env: Env, i: nat, n: nat, clock: nat -> int, j: nat, m: nat)
    requires Balanced(b) && i <= j < |b.queue| && m == n + (j - i)
    ensures Fate(b.queue[j], clock(m), b.dropped, Passed(b, cache, env, i, n, clock))
    decreases Exhausted(b.queue[i..]), |b.queue| - i
  {
    if j == i {
      assert m == n;
      FateHere(b, cache, env, i, n, clock);
    } else {
      var r, next := Visited(b, cache, env, i, clock(n)), Onward(b, i, clock(n));
      var at := if GivenUp(b.queue[i], clock(n)) then j - 1 else j;
      PassedStep(b, cache, env, i, n, clock, n + 1);
      VisitedKeeps(b, cache, env, i, clock(n), j);
      VisitedMonotone(b, cache, env, i, clock(n));
      PassedFate(r, cache, env, next, n + 1, clock, at, m);
      FateOfEarlier(b.queue[j], r.queue[at], clock(m), b.dropped, r.dropped, Passed(b, cache, env, i, n, clock));
    }
  }

  // --- the errors that a pass sends -----------------------------------------------------------

  /**
   `y` is the error due when `p` is given up: from our address on the route to
   where `p` came from, to that source, by that route. An ICMP message other
   than an echo or its reply, a source of our own or one without a route gets none.
   */
  ghost predicate IsErrorAbout(y: Parcel, p: Packet, env: Env) {
    && (p.proto != 1 || p.icmpType in {0, 8})
    && p.src !in env.ours && p.src in env.routes
    && y == Parcel(Packet(ErrorAbout(p.tag), 1, 3, env.routes[p.src].ourIp, p.src), env.routes[p.src].nextHop)
  }

  /** How many of the parcels `ds` have `y` as the error due about them. */
  ghost function ErrorCount(ds: seq<Parcel>, y: Parcel, env: Env): nat {
    if ds == [] then 0 else (if IsErrorAbout(y, ds[0].packet, env) then 1 else 0) + ErrorCount(ds[1..], y, env)
  }

  lemma {:induction false} ErrorCountOfSum(a: seq<Parcel>, b: seq<Parcel>, y: Parcel, env: Env)
    ensures ErrorCount(a + b, y, env) == ErrorCount(a, y, env) + ErrorCount(b, y, env)
  {
    if a == [] {
      assert a + b == b;
    } else {
      assert (a + b)[1..] == a[1..] + b;
      ErrorCountOfSum(a[1..], b, y, env);
    }
  }

  /** From `b` to `r` the parcels `ds` were dropped, and nothing was handed over but the errors due about them. */
  ghost predicate ErrorsSent(b: Book, r: Book, ds: seq<Parcel>, env: Env) {
    && r.dropped == b.dropped + multiset(ds)
    && forall y :: r.given[y] == b.given[y] + ErrorCount(ds, y, env)
  }

  lemma NoErrors(b: Book, r: Book, env: Env)
    requires r.dropped == b.dropped && r.given == b.given
    ensures ErrorsSent(b, r, [], env)
  {
  }

  lemma ErrorsTwice(b: Book, m: Book, r: Book, ds: seq<Parcel>, es: seq<Parcel>, env: Env)
    requires ErrorsSent(b, m, ds, env) && ErrorsSent(m, r, es, env)
    ensures ErrorsSent(b, r, ds + es, env)
  {
    forall y ensures r.given[y] == b.given[y] + ErrorCount(ds + es, y, env) {
      ErrorCountOfSum(ds, es, y, env);
    }
  }

  lemma WithErrorGiven(b: Book, cache: seq<CacheEntry>, env: Env, p: Packet, now: int, y: Parcel)
    ensures WithError(b, cache, env, p, now).given[y] == b.given[y] + (if IsErrorAbout(y, p, env) then 1 else 0)
    ensures WithError(b, cache, env, p, now).dropped == b.dropped
  {
  }

  lemma HeadExpiredErrors(b: Book, cache: seq<CacheEntry>, env: Env, i: nat, now: int)
    requires i < |b.queue| && b.queue[i].packets != []
    ensures ErrorsSent(b, HeadExpired(b, cache, env, i, now), [Parcel(b.queue[i].packets[0], b.queue[i].nextHop)], env)
  {
    var p := b.queue[i].packets[0];
    WithErrorEntry(b, cache, env, p, now, i);
    HeadWork(b.queue[i].packets, WithError(b, cache, env, p, now).queue[i].packets);
    forall y
      ensures WithError(b, cache, env, p, now).given[y] == b.given[y] + (if IsErrorAbout(y, p, env) then 1 else 0)
      ensures WithError(b, cache, env, p, now).dropped == b.dropped
    {
      WithErrorGiven(b, cache, env, p, now, y);
    }
  }

  lemma {:induction false} EmptiedErrors(b: Book, cache: seq<CacheEntry>, env: Env, i: nat, now: int) returns (ds: seq<Parcel>)
    requires i < |b.queue|
    ensures ErrorsSent(b, Emptied(b, cache, env, i, now), ds, env)
    decreases Work(b.queue[i].packets)
  {
    if b.queue[i].packets == [] {
      NoErrors(b, b, env);
      ds := [];
    } else {
      var x, h := Parcel(b.queue[i].packets[0], b.queue[i].nextHop), HeadExpired(b, cache, env, i, now);
      HeadExpiredErrors(b, cache, env, i, now);
      ds := EmptiedErrors(h, cache, env, i, now);
      ErrorsTwice(b, h, Emptied(h, cache, env, i, now), [x], ds, env);
      ds := [x] + ds;
    }
  }

  lemma VisitedErrors(b: Book, cache: seq<CacheEntry>, env: Env, i: nat, now: int) returns (ds: seq<Parcel>)
    requires i < |b.queue|
    ensures ErrorsSent(b, Visited(b, cache, env, i, now), ds, env)
  {
    if GivenUp(b.queue[i], now) {
      ds := EmptiedErrors(b, cache, env, i, now);
    } else {
      NoErrors(b, Visited(b, cache, env, i, now), env);
      ds := [];
    }
  }

  /** Over a pass: the packets dropped, in order, and for each of them the error due, which is on the wire, waiting or dropped. */
  lemma {:induction false} PassedErrors(b: Book, cache: seq<CacheEntry>, env: Env, i: nat, n: nat, clock: nat -> int)
    returns (ds: seq<Parcel>)
    requires Balanced(b) && i < |b.queue|
    ensures ErrorsSent(b, Passed(b, cache, env, i, n, clock), ds, env)
    ensures Balanced(Passed(b, cache, env, i, n, clock))
    decreases Exhausted(b.queue[i..]), |b.queue| - i
  {
    PassedStep(b, cache, env, i, n, clock, n + 1);
    ds := VisitedErrors(b, cache, env, i, clock(n));
    if i + 1 < |b.queue| {
      var r := Visited(b, cache, env, i, clock(n));
      var es := PassedErrors(r, cache, env, Onward(b, i, clock(n)), n + 1, clock);
      ErrorsTwice(b, r, Passed(b, cache, env, i, n, clock), ds, es, env);
      ds := ds + es;
    }
  }

  method SendError(a: Arp, env: Env, p: Packet, now: int)
    modifies a`queue, a`sent, a`given
    ensures a.Books() == WithError(old(a.Books()), a.cache, env, p, now)
  {
    if p.proto != IP_PROTO_ICMP || p.icmpType == ICMP_ECHO_REPLY || p.icmpType == ICMP_ECHO_REQUEST {
      if p.src !in env.ours && p.src in env.routes {
        var r := env.routes[p.src];
        a.Dispatch(HostUnreachable(p, r.ourIp), r.nextHop, r.iface, now);
      }
    }
  }

  method EmptyEntry(a: Arp, env: Env, i: nat, now: int)
    requires i < |a.queue|
    modifies a`queue, a`sent, a`given, a`dropped
    ensures a.Books() == Emptied(old(a.Books()), a.cache, env, i, now)
  {
    while a.queue[i].packets != []
      invariant i < |a.queue|
      invariant Emptied(a.Books(), a.cache, env, i, now) == Emptied(old(a.Books()), a.cache, env, i, now)
      decreases Work(a.queue[i].packets)
    {
      ghost var b := a.Books();
      var p := a.queue[i].packets[0];
      WithErrorEntry(b, a.cache, env, p, now, i);
      HeadWork(b.queue[i].packets, WithError(b, a.cache, env, p, now).queue[i].packets);
      SendError(a, env, p, now);
      a.dropped := a.dropped + multiset{Parcel(a.queue[i].packets[0], a.queue[i].nextHop)};
      a.queue := Popped(a.queue, i);
      assert a.Books() == HeadExpired(b, a.cache, env, i, now);
    }
  }

  method Visit(a: Arp, env: Env, i: nat, now: int) returns (removed: bool)
    requires i < |a.queue|
    modifies a`queue, a`sent, a`given, a`dropped
    ensures a.Books() == Visited(old(a.Books()), a.cache, env, i, now)
    ensures removed <==> GivenUp(old(a.queue)[i], now)
  {
    removed := false;
    var e := a.queue[i];
    if now - e.lastReq > 1 {
      if e.requests < MAX_REQUESTS {
        a.queue := a.queue[i := e.(requests := e.requests + 1, lastReq := now)];
      } else {
        EmptyEntry(a, env, i, now);
        a.queue := Removed(a.queue, i);
        removed := true;
      }
    }
  }

  /** One pass; `clock(n)` is the time read at the n-th entry. */
  method ProcessArpQueue(a: Arp, env: Env, clock: nat -> int)
    requires a.Valid()
    modifies a`queue, a`sent, a`given, a`dropped
    ensures a.Valid()
    ensures a.Books() == if old(a.queue) == [] then old(a.Books()) else Passed(old(a.Books()), a.cache, env, 0, 0, clock)
    ensures forall x :: a.dropped[x] > old(a.dropped)[x] ==> GaveUpOn(old(a.queue), x.nextHop)
    ensures forall j :: 0 <= j < |old(a.queue)| ==> Fate(old(a.queue)[j], clock(j), old(a.dropped), a.Books())
    ensures exists ds :: ErrorsSent(old(a.Books()), a.Books(), ds, env)
  {
    ghost var b := a.Books();
    if a.queue == [] {
      NoErrors(b, b, env);
      return;
    }
    ghost var end := Passed(b, a.cache, env, 0, 0, clock);
    WholePass(b, a.cache, env, clock);
    var i, n := 0, 0;
    var more := true;
    while more
      invariant 0 <= i && 0 <= n && (more ==> a.Valid() && i < |a.queue|)
      invariant if more then Passed(a.Books(), a.cache, env, i, n, clock) == end else a.Books() == end
      decreases more, if more then Exhausted(a.queue[i..]) else 0, |a.queue| - i
    {
      var hasNext := i + 1 < |a.queue|;
      var m := n + 1;
      ghost var next := Onward(a.Books(), i, clock(n));
      PassedStep(a.Books(), a.cache, env, i, n, clock, m);
      var removed := Visit(a, env, i, clock(n));
      if !removed {
        i := i + 1;
      }
      assert i == next;
      more, n := hasNext, m;
    }
  }

  lemma WholePass(b: Book, cache: seq<CacheEntry>, env: Env, clock: nat -> int)
    requires Balanced(b) && b.queue != []
    ensures var r := Passed(b, cache, env, 0, 0, clock);
            && Balanced(r)
            && (forall x :: r.dropped[x] > b.dropped[x] ==> GaveUpOn(b.queue, x.nextHop))
            && (forall j :: 0 <= j < |b.queue| ==> Fate(b.queue[j], clock(j), b.dropped, r))
            && (exists ds :: ErrorsSent(b, r, ds, env))
  {
    var ds := PassedErrors(b, cache, env, 0, 0, clock);
    PassedBalanced(b, cache, env, 0, 0, clock);
    PassedDrops(b, cache, env, 0, 0, clock, b.queue);
    forall j | 0 <= j < |b.queue| ensures Fate(b.queue[j], clock(j), b.dropped, Passed(b, cache, env, 0, 0, clock)) {
      PassedFate(b, cache, env, 0, 0, clock, j, j);
    }
  }
}
