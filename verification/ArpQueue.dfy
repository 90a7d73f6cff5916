/**
 The ARP cache and the queue of packets that wait for a reply, with `send_ip`
 as the way in. Time, routes and our own addresses are inputs.
 */
module ArpQueue {
  import opened Numbers
  import opened ArpPlaces

  datatype CacheEntry = CacheEntry(ip: U32, mac: int, stamp: int, isStatic: bool)

  /** Where a destination is sent: next hop, interface name and our address there. */
  datatype Route = Route(nextHop: U32, iface: string, ourIp: U32)

  /** The routing table and interface list, which a queue pass only reads. */
  datatype Env = Env(routes: map<U32, Route>, ours: set<U32>)

  function InCache(cache: seq<CacheEntry>, ip: U32): (i: int)
    ensures i == -1 ==> forall k :: 0 <= k < |cache| ==> cache[k].ip != ip
    ensures i != -1 ==> 0 <= i < |cache| && cache[i].ip == ip && forall k :: 0 <= k < i ==> cache[k].ip != ip
  {
    if cache == [] then -1
    else if cache[0].ip == ip then 0
    else
      var k := InCache(cache[1..], ip);
      if k == -1 then -1 else k + 1
  }

  function Stored(cache: seq<CacheEntry>, e: CacheEntry): seq<CacheEntry> {
    var i := InCache(cache, e.ip);
    if i != -1 then cache[i := e] else cache + [e]
  }

  /** A stored address is the one found from then on; others are found as before. */
  lemma StoredIsFound(cache: seq<CacheEntry>, e: CacheEntry)
    ensures InCache(Stored(cache, e), e.ip) != -1
    ensures Stored(cache, e)[InCache(Stored(cache, e), e.ip)] == e
  {
    var i := InCache(cache, e.ip);
    var s := Stored(cache, e);
    assert s[if i == -1 then |cache| else i] == e;
    assert forall k :: 0 <= k < |cache| && k != i ==> s[k] == cache[k];
  }

  lemma StoredKeepsOthers(cache: seq<CacheEntry>, e: CacheEntry, ip: U32)
    requires ip != e.ip
    ensures InCache(Stored(cache, e), ip) == InCache(cache, ip)
    ensures InCache(cache, ip) != -1 ==> Stored(cache, e)[InCache(cache, ip)] == cache[InCache(cache, ip)]
  {
    var i, j := InCache(cache, e.ip), InCache(cache, ip);
    var s := Stored(cache, e);
    assert forall k :: 0 <= k < |cache| && k != i ==> s[k] == cache[k];
    assert s[if i == -1 then |cache| else i] == e;
    if j != -1 {
      assert s[j].ip == ip;
    }
    var n := InCache(s, ip);
    if n != -1 {
      assert s[n] == cache[n];
    }
  }

  /** The entries that are static or recent. */
  function Recent(cache: seq<CacheEntry>, now: int, ttl: nat): seq<CacheEntry> {
    if cache == [] then []
    else
      var rest, e := Recent(cache[..|cache| - 1], now, ttl), cache[|cache| - 1];
      if e.isStatic || now - e.stamp <= ttl then rest + [e] else rest
  }

  lemma {:induction false} RecentCounts(cache: seq<CacheEntry>, now: int, ttl: nat, e: CacheEntry)
    ensures multiset(Recent(cache, now, ttl))[e] == if e.isStatic || now - e.stamp <= ttl then multiset(cache)[e] else 0
  {
    if cache != [] {
      assert cache == cache[..|cache| - 1] + [cache[|cache| - 1]];
      RecentCounts(cache[..|cache| - 1], now, ttl, e);
    }
  }

  function Frames(ps: seq<Packet>, hop: U32, mac: int): (r: seq<Frame>) {
    if ps == [] then [] else Frames(ps[..|ps| - 1], hop, mac) + [Frame(Parcel(ps[|ps| - 1], hop), mac)]
  }

  lemma {:induction false} FramesAt(ps: seq<Packet>, hop: U32, mac: int)
    ensures Frames(ps, hop, mac) == seq(|ps|, k requires 0 <= k < |ps| => Frame(Parcel(ps[k], hop), mac))
  {
    if ps != [] {
      FramesAt(ps[..|ps| - 1], hop, mac);
    }
  }

  /** What `send_ip` does to the books: transmit on a cache hit, queue on a miss. */
  function SentOrQueued(b: Book, cache: seq<CacheEntry>, p: Packet, hop: U32, iface: string, now: int): Book {
    var i := InCache(cache, hop);
    if i != -1 then Transmitted(b, p, hop, cache[i].mac) else Queued(b, p, hop, iface, now)
  }

  /** Where position `k` is the first in the cache for the next hop, if there is one. */
  lemma SentOrQueuedIs(b: Book, cache: seq<CacheEntry>, p: Packet, hop: U32, iface: string, now: int, k: nat)
    requires k <= |cache| && forall j :: 0 <= j < k ==> cache[j].ip != hop
    requires k < |cache| ==> cache[k].ip == hop
    ensures var r := SentOrQueued(b, cache, p, hop, iface, now);
            && r.given == b.given + multiset{Parcel(p, hop)} && r.dropped == b.dropped
            && (k < |cache| ==> r.queue == b.queue && r.sent == b.sent + [Frame(Parcel(p, hop), cache[k].mac)])
            && (k == |cache| ==> r.sent == b.sent && r.queue == Enqueued(b.queue, p, hop, iface, now))
  {
  }

  lemma SentOrQueuedBalanced(b: Book, cache: seq<CacheEntry>, p: Packet, hop: U32, iface: string, now: int)
    requires Balanced(b)
    ensures var r := SentOrQueued(b, cache, p, hop, iface, now);
            Balanced(r) && Grown(b.queue, r.queue) && r.dropped == b.dropped
  {
    var i := InCache(cache, hop);
    if i != -1 {
      TransmittedBalanced(b, p, hop, cache[i].mac);
    } else {
      QueuedBalanced(b, p, hop, iface, now);
    }
  }

  /** The first `n` packets of entry `i` have gone out, in order. */
  function Replied(b: Book, i: nat, mac: int, n: nat): Book
    requires i < |b.queue| && n <= |b.queue[i].packets|
  {
    var e := b.queue[i];
    b.(queue := b.queue[i := e.(packets := e.packets[n..])],
       sent := b.sent + Frames(e.packets[..n], e.nextHop, mac))
  }

  lemma RepliedNext(b: Book, i: nat, mac: int, n: nat, next: nat)
    requires i < |b.queue| && n < |b.queue[i].packets| && next == n + 1
    ensures Replied(b, i, mac, next) == HeadSent(Replied(b, i, mac, n), i, mac)
  {
    var ps := b.queue[i].packets;
    assert ps[..n + 1][..n] == ps[..n] && ps[n..][1..] == ps[n + 1..];
    var f := Frame(Parcel(ps[n], b.queue[i].nextHop), mac);
    assert b.sent + (Frames(ps[..n], b.queue[i].nextHop, mac) + [f]) == (b.sent + Frames(ps[..n], b.queue[i].nextHop, mac)) + [f];
  }

  lemma RepliedStaysBalanced(b: Book, i: nat, mac: int, n: nat, next: nat)
    requires i < |b.queue| && n < |b.queue[i].packets| && next == n + 1
    requires Balanced(Replied(b, i, mac, n))
    ensures Balanced(Replied(b, i, mac, next))
  {
    RepliedNext(b, i, mac, n, next);
    HeadSentBalanced(Replied(b, i, mac, n), i, mac);
  }

  lemma {:induction false} RepliedBalanced(b: Book, i: nat, mac: int, n: nat)
    requires Balanced(b) && i < |b.queue| && n <= |b.queue[i].packets|
    ensures Balanced(Replied(b, i, mac, n))
  {
    if n == 0 {
      RepliedNone(b, i, mac);
    } else {
      RepliedBalanced(b, i, mac, n - 1);
      RepliedStaysBalanced(b, i, mac, n - 1, n);
    }
  }

  lemma RepliedNone(b: Book, i: nat, mac: int)
    requires i < |b.queue|
    ensures Replied(b, i, mac, 0) == b
  {
    var e := b.queue[i];
    assert e.packets[0..] == e.packets && b.queue[i := e] == b.queue;
    assert e.packets[..0] == [] && b.sent + [] == b.sent;
  }

  /** What waited for `dest` has gone out, oldest first, and its entry is gone. */
  function AllReplied(b: Book, dest: U32, mac: int): Book {
    var i := Find(b.queue, dest);
    if i == -1 then b
    else
      var r := Replied(b, i, mac, |b.queue[i].packets|);
      r.(queue := Removed(r.queue, i))
  }

  lemma AllRepliedBalanced(b: Book, dest: U32, mac: int)
    requires Balanced(b)
    ensures Balanced(AllReplied(b, dest, mac))
  {
    var i := Find(b.queue, dest);
    if i != -1 {
      RepliedBalanced(b, i, mac, |b.queue[i].packets|);
      RemovedBalanced(Replied(b, i, mac, |b.queue[i].packets|), i);
    }
  }

  /** The drained parcels are now on the wire in arrival order, and nothing else moved. */
  lemma AllRepliedInOrder(b: Book, dest: U32, mac: int)
    requires Find(b.queue, dest) != -1
    ensures var i := Find(b.queue, dest);
            && AllReplied(b, dest, mac).sent == b.sent + Frames(b.queue[i].packets, dest, mac)
            && AllReplied(b, dest, mac).queue == Removed(b.queue, i)
            && AllReplied(b, dest, mac).given == b.given && AllReplied(b, dest, mac).dropped == b.dropped
  {
    var ps := b.queue[Find(b.queue, dest)].packets;
    assert ps[..|ps|] == ps;
  }

  // --- the drain that a reply sets off ------------------------------------------------

  /** The oldest packet at the end of the queue instead. */
  function Turned(ps: seq<Packet>): (r: seq<Packet>)
    requires ps != []
    ensures |r| == |ps|
  {
    ps[1..] + [ps[0]]
  }

  function WithPackets(b: Book, i: nat, ps: seq<Packet>): Book
    requires i < |b.queue|
  {
    b.(queue := b.queue[i := b.queue[i].(packets := ps)])
  }

  lemma SentOrQueuedAt(b: Book, cache: seq<CacheEntry>, i: nat, p: Packet, now: int)
    requires Proper(b.queue) && i < |b.queue|
    ensures var e := b.queue[i];
            SentOrQueued(b, cache, p, e.nextHop, e.iface, now).queue ==
              if InCache(cache, e.nextHop) != -1 then b.queue else b.queue[i := e.(packets := e.packets + [p])]
  {
    FindOwn(b.queue, i);
  }

  /** One turn of the drain: the oldest packet of entry `i` is handed to `send_ip` once more, then its node is removed. */
  function Resent(b: Book, cache: seq<CacheEntry>, i: nat, now: int): Book
    requires Proper(b.queue) && i < |b.queue| && b.queue[i].packets != []
  {
    var e := b.queue[i];
    var s := SentOrQueued(b, cache, e.packets[0], e.nextHop, e.iface, now);
    SentOrQueuedAt(b, cache, i, e.packets[0], now);
    s.(queue := Popped(s.queue, i), given := b.given)
  }

  /** With the next hop in the cache the packet goes out. */
  lemma ResentCached(b: Book, cache: seq<CacheEntry>, i: nat, now: int)
    requires Proper(b.queue) && i < |b.queue| && b.queue[i].packets != []
    requires InCache(cache, b.queue[i].nextHop) != -1
    ensures Resent(b, cache, i, now) == HeadSent(b, i, cache[InCache(cache, b.queue[i].nextHop)].mac)
  {
  }

  /** Without it the packet joins the entry it is taken from. */
  lemma ResentUncached(b: Book, cache: seq<CacheEntry>, i: nat, now: int)
    requires Proper(b.queue) && i < |b.queue| && b.queue[i].packets != []
    requires InCache(cache, b.queue[i].nextHop) == -1
    ensures Resent(b, cache, i, now) == WithPackets(b, i, Turned(b.queue[i].packets))
  {
    var e := b.queue[i];
    var p := e.packets[0];
    FindOwn(b.queue, i);
    var q := b.queue[i := e.(packets := e.packets + [p])];
    assert (e.packets + [p])[1..] == Turned(e.packets);
    assert Popped(q, i) == b.queue[i := e.(packets := Turned(e.packets))];
  }

  /** The drain between two turns: the loop goes on if there was a packet after the last one handled. */
  datatype Drain = Drain(book: Book, more: bool)

  /** The drain of entry `i` after up to `n` turns. */
  ghost function DrainAfter(b: Book, cache: seq<CacheEntry>, i: nat, now: int, n: nat): (d: Drain)
    requires Proper(b.queue) && i < |b.queue|
    ensures Draining(b, i, d)
  {
    if n == 0 then Drain(b, b.queue[i].packets != [])
    else
      var d := DrainAfter(b, cache, i, now, n - 1);
      if !d.more then d
      else
        TurnKeepsDraining(b, cache, i, now, d);
        Drain(Resent(d.book, cache, i, now), |d.book.queue[i].packets| > 1)
  }

  /** Entries stay where they are, and the loop only goes on with a packet left. */
  ghost predicate Draining(b: Book, i: nat, d: Drain) {
    && Proper(d.book.queue) && |d.book.queue| == |b.queue| && i < |b.queue|
    && d.book.queue[i].nextHop == b.queue[i].nextHop
    && (d.more ==> d.book.queue[i].packets != [])
  }

  lemma TurnKeepsDraining(b: Book, cache: seq<CacheEntry>, i: nat, now: int, d: Drain)
    requires Draining(b, i, d) && d.more
    ensures Draining(b, i, Drain(Resent(d.book, cache, i, now), |d.book.queue[i].packets| > 1))
  {
    var e := d.book.queue[i];
    if InCache(cache, e.nextHop) != -1 {
      ResentCached(d.book, cache, i, now);
      ReplacedProper(d.book.queue, i, e.(packets := e.packets[1..]));
    } else {
      ResentUncached(d.book, cache, i, now);
      ReplacedProper(d.book.queue, i, e.(packets := Turned(e.packets)));
    }
  }

  lemma {:induction false} CachedDrain(b: Book, cache: seq<CacheEntry>, i: nat, now: int, n: nat)
    requires Proper(b.queue) && i < |b.queue| && n <= |b.queue[i].packets|
    requires InCache(cache, b.queue[i].nextHop) != -1
    ensures var mac := cache[InCache(cache, b.queue[i].nextHop)].mac;
            DrainAfter(b, cache, i, now, n) == Drain(Replied(b, i, mac, n), n < |b.queue[i].packets|)
  {
    var mac := cache[InCache(cache, b.queue[i].nextHop)].mac;
    if n == 0 {
      RepliedNone(b, i, mac);
    } else {
      CachedDrain(b, cache, i, now, n - 1);
      RepliedNext(b, i, mac, n - 1, n);
      ResentCached(Replied(b, i, mac, n - 1), cache, i, now);
    }
  }

  /** The packets of an entry after `n` turns that cannot send any. */
  function Turns(ps: seq<Packet>, n: nat): (r: seq<Packet>)
    requires ps != []
    ensures |r| == |ps|
  {
    if n == 0 then ps else Turned(Turns(ps, n - 1))
  }

  lemma UncachedTurn(b: Book, cache: seq<CacheEntry>, i: nat, now: int, ps: seq<Packet>)
    requires Proper(b.queue) && i < |b.queue| && ps != []
    requires InCache(cache, b.queue[i].nextHop) == -1
    ensures Proper(WithPackets(b, i, ps).queue)
    ensures Resent(WithPackets(b, i, ps), cache, i, now) == WithPackets(b, i, Turned(ps))
  {
    ReplacedProper(b.queue, i, b.queue[i].(packets := ps));
    ResentUncached(WithPackets(b, i, ps), cache, i, now);
  }

  /**
   Without a cache entry for the next hop the drain only turns the packets of the
   entry round: two packets or more keep it going for ever, a single one ends it
   after one turn and is still in the entry.
   */
  lemma {:induction false} UncachedDrain(b: Book, cache: seq<CacheEntry>, i: nat, now: int, n: nat)
    requires Proper(b.queue) && i < |b.queue| && b.queue[i].packets != []
    requires InCache(cache, b.queue[i].nextHop) == -1
    ensures DrainAfter(b, cache, i, now, n).book == WithPackets(b, i, Turns(b.queue[i].packets, n))
    ensures DrainAfter(b, cache, i, now, n).more <==> n == 0 || |b.queue[i].packets| >= 2
  {
    var ps := b.queue[i].packets;
    if n == 0 {
      assert b.queue[i := b.queue[i].(packets := ps)] == b.queue;
    } else {
      UncachedDrain(b, cache, i, now, n - 1);
      var d := DrainAfter(b, cache, i, now, n - 1);
      if d.more {
        UncachedTurn(b, cache, i, now, Turns(ps, n - 1));
      } else {
        assert Turns(ps, n - 1) == [Turns(ps, n - 1)[0]] && Turns(ps, n) == Turns(ps, n - 1);
      }
    }
  }

  /** The drain is over, its entry is empty, and no packet has been lost. */
  ghost predicate DrainDone(b: Book, cache: seq<CacheEntry>, i: nat, now: int, n: nat)
    requires Proper(b.queue) && i < |b.queue|
  {
    var d := DrainAfter(b, cache, i, now, n);
    !d.more && d.book.queue[i].packets == [] && Balanced(d.book)
  }

  /** That happens exactly if the next hop is in the cache or nothing waits. */
  lemma DrainEnds(b: Book, cache: seq<CacheEntry>, i: nat, now: int)
    requires Balanced(b) && i < |b.queue|
    ensures (exists n: nat :: DrainDone(b, cache, i, now, n)) <==>
      InCache(cache, b.queue[i].nextHop) != -1 || b.queue[i].packets == []
  {
    var e := b.queue[i];
    var k := InCache(cache, e.nextHop);
    if k != -1 {
      CachedDrain(b, cache, i, now, |e.packets|);
      RepliedBalanced(b, i, cache[k].mac, |e.packets|);
      assert DrainDone(b, cache, i, now, |e.packets|);
    } else if e.packets == [] {
      assert DrainDone(b, cache, i, now, 0);
    } else {
      forall n: nat ensures !DrainDone(b, cache, i, now, n) {
        UncachedDrain(b, cache, i, now, n);
      }
    }
  }

  /** A packet still in its entry when the entry is removed is in none of its places any more. */
  lemma LostWithEntry(b: Book, i: nat)
    requires Balanced(b) && i < |b.queue| && b.queue[i].packets != []
    ensures !Balanced(b.(queue := Removed(b.queue, i)))
  {
    var x := Parcel(b.queue[i].packets[0], b.queue[i].nextHop);
    WaitingRemoved(b.queue, i);
    var rest := Waiting(Removed(b.queue, i));
    assert InEntry(b.queue[i])[x] > 0;
    assert (rest + InEntry(b.queue[i]))[x] > rest[x];
    Fewer(OnWire(b.sent), Waiting(b.queue), rest, b.dropped, x);
  }

  lemma Fewer(a: multiset<Parcel>, more: multiset<Parcel>, less: multiset<Parcel>, c: multiset<Parcel>, x: Parcel)
    requires more[x] > less[x]
    ensures a + more + c != a + less + c
  {
    assert (a + more + c)[x] > (a + less + c)[x];
  }

  /** What the drain leaves where it ends: with the next hop in the cache, or at most one packet waiting. */
  function DrainedOf(b: Book, cache: seq<CacheEntry>, i: nat): Book
    requires i < |b.queue|
  {
    var k := InCache(cache, b.queue[i].nextHop);
    if k != -1 then Replied(b, i, cache[k].mac, |b.queue[i].packets|) else b
  }

  predicate DrainTerminates(b: Book, cache: seq<CacheEntry>, i: nat)
    requires i < |b.queue|
  {
    InCache(cache, b.queue[i].nextHop) != -1 || |b.queue[i].packets| <= 1
  }

  /** It ends exactly there, after as many turns as packets waited. */
  lemma DrainTerminatesExactly(b: Book, cache: seq<CacheEntry>, i: nat, now: int)
    requires Proper(b.queue) && i < |b.queue|
    ensures DrainTerminates(b, cache, i) <==> exists n: nat :: !DrainAfter(b, cache, i, now, n).more
    ensures DrainTerminates(b, cache, i) ==>
      DrainAfter(b, cache, i, now, |b.queue[i].packets|) == Drain(DrainedOf(b, cache, i), false)
  {
    var ps := b.queue[i].packets;
    if InCache(cache, b.queue[i].nextHop) != -1 {
      CachedDrain(b, cache, i, now, |ps|);
    } else if ps != [] {
      forall n: nat ensures !DrainAfter(b, cache, i, now, n).more ==> |ps| == 1 {
        UncachedDrain(b, cache, i, now, n);
      }
      UncachedDrain(b, cache, i, now, 1);
      assert |ps| == 1 ==> Turns(ps, 0) == ps && Turned(ps) == ps;
    } else {
      assert !DrainAfter(b, cache, i, now, 0).more;
    }
  }

  lemma MoreBeforeEnd(b: Book, cache: seq<CacheEntry>, i: nat, now: int, n: nat, next: nat)
    requires Proper(b.queue) && i < |b.queue| && DrainTerminates(b, cache, i) && next == n + 1
    requires n <= |b.queue[i].packets| && DrainAfter(b, cache, i, now, n).more
    ensures n < |b.queue[i].packets|
    ensures var d := DrainAfter(b, cache, i, now, n);
            DrainAfter(b, cache, i, now, next) == Drain(Resent(d.book, cache, i, now), |d.book.queue[i].packets| > 1)
  {
    DrainTerminatesExactly(b, cache, i, now);
  }

  lemma {:induction false} StaysEnded(b: Book, cache: seq<CacheEntry>, i: nat, now: int, n: nat, m: nat)
    requires Proper(b.queue) && i < |b.queue| && n <= m && !DrainAfter(b, cache, i, now, n).more
    ensures DrainAfter(b, cache, i, now, m) == DrainAfter(b, cache, i, now, n)
    decreases m
  {
    if n < m {
      StaysEnded(b, cache, i, now, n, m - 1);
    }
  }

  /** What `send_queued_packets` leaves: the entry of `dest` is drained and removed. */
  function Answered(b: Book, cache: seq<CacheEntry>, dest: U32): Book {
    var i := Find(b.queue, dest);
    if i == -1 then b
    else
      var r := DrainedOf(b, cache, i);
      r.(queue := Removed(r.queue, i))
  }

  lemma AnsweredCached(b: Book, cache: seq<CacheEntry>, dest: U32)
    requires InCache(cache, dest) != -1
    ensures Answered(b, cache, dest) == AllReplied(b, dest, cache[InCache(cache, dest)].mac)
  {
  }

  class Arp {
    var cache: seq<CacheEntry>
    var queue: Queue
    var sent: seq<Frame>
    ghost var given: multiset<Parcel>
    ghost var dropped: multiset<Parcel>

    ghost function Books(): Book
      reads this
    {
      Book(queue, sent, given, dropped)
    }

    ghost predicate Valid()
      reads this
    {
      Balanced(Books())
    }

    constructor ()
      ensures Valid() && cache == [] && Books() == Book([], [], multiset{}, multiset{})
    {
      cache, queue, sent := [], [], [];
      given, dropped := multiset{}, multiset{};
    }

    method GetFromArpCache(ip: U32) returns (i: int)
      ensures i == InCache(cache, ip)
    {
      for k := 0 to |cache|
        invariant forall j :: 0 <= j < k ==> cache[j].ip != ip
      {
        if cache[k].ip == ip {
          return k;
        }
      }
      return -1;
    }

    method GetFromArpQueue(hop: U32) returns (i: int)
      ensures i == Find(queue, hop)
    {
      for k := 0 to |queue|
        invariant forall j :: 0 <= j < k ==> queue[j].nextHop != hop
      {
        if queue[k].nextHop == hop {
          return k;
        }
      }
      return -1;
    }

    /** Adds a packet to the entry of its next hop; a new entry starts with its first request. */
    method ArpQueueAdd(p: Packet, hop: U32, iface: string, now: int)
      modifies `queue, `given
      ensures Books() == Queued(old(Books()), p, hop, iface, now)
    {
      given := given + multiset{Parcel(p, hop)};
      var i := GetFromArpQueue(hop);
      if i == -1 {
        queue := queue + [QueueEntry(hop, iface, 1, now, [p])];
      } else {
        queue := queue[i := queue[i].(packets := queue[i].packets + [p])];
      }
    }

    /** Transmits on a cache hit, queues on a miss. */
    method Dispatch(p: Packet, hop: U32, iface: string, now: int)
      modifies `queue, `sent, `given
      ensures Books() == SentOrQueued(old(Books()), cache, p, hop, iface, now)
    {
      var i := GetFromArpCache(hop);
      if i != -1 {
        given := given + multiset{Parcel(p, hop)};
        sent := sent + [Frame(Parcel(p, hop), cache[i].mac)];
      } else {
        ArpQueueAdd(p, hop, iface, now);
      }
    }

    method SendIp(p: Packet, hop: U32, iface: string, now: int)
      requires Valid()
      modifies `queue, `sent, `given
      ensures Valid() && Books() == SentOrQueued(old(Books()), cache, p, hop, iface, now)
    {
      SentOrQueuedBalanced(Books(), cache, p, hop, iface, now);
      Dispatch(p, hop, iface, now);
    }

    // --- a reply arrives ---------------------------------------------------------------

    /** One turn of the drain, through `send_ip`; the packet was handed over before and is not counted again. */
    method Resend(i: nat, now: int)
      requires Proper(queue) && i < |queue| && queue[i].packets != []
      modifies `queue, `sent, `given
      ensures Books() == Resent(old(Books()), cache, i, now)
    {
      ghost var b := Books();
      var e := queue[i];
      SentOrQueuedAt(b, cache, i, e.packets[0], now);
      Dispatch(e.packets[0], e.nextHop, e.iface, now);
      given := b.given;
      queue := Popped(queue, i);
    }

    /** Hands the packets of entry `i`, oldest first, to `send_ip` again, wherever that comes to an end. */
    method DrainReplied(i: nat, now: int)
      requires Proper(queue) && i < |queue| && DrainTerminates(Books(), cache, i)
      modifies `queue, `sent, `given
      ensures Books() == DrainedOf(old(Books()), cache, i)
    {
      ghost var b, n := Books(), 0;
      var more := queue[i].packets != [];
      DrainTerminatesExactly(b, cache, i, now);
      while more
        invariant Drain(Books(), more) == DrainAfter(b, cache, i, now, n) && n <= |b.queue[i].packets|
        invariant Draining(b, i, Drain(Books(), more))
        decreases |b.queue[i].packets| - n
      {
        ghost var next := n + 1;
        MoreBeforeEnd(b, cache, i, now, n, next);
        var hasNext := |queue[i].packets| > 1;
        Resend(i, now);
        more, n := hasNext, next;
      }
      StaysEnded(b, cache, i, now, n, |b.queue[i].packets|);
    }

    /** Drains the entry of `dest`, wherever that comes to an end, and removes it. */
    method SendQueuedPackets(dest: U32, now: int)
      requires Proper(queue) && (Find(queue, dest) != -1 ==> DrainTerminates(Books(), cache, Find(queue, dest)))
      modifies `queue, `sent, `given
      ensures Books() == Answered(old(Books()), cache, dest)
    {
      ghost var b := Books();
      ghost var after := Answered(b, cache, dest);
      ghost var at := Find(queue, dest);
      ghost var done := false;
      var i := 0;
      while i < |queue|
        invariant 0 <= i <= |queue|
        invariant !done ==> Books() == b && forall k :: 0 <= k < i ==> queue[k].nextHop != dest
        invariant done ==> at != -1 && Books() == after && forall k :: 0 <= k < |queue| ==> queue[k].nextHop != dest
        decreases |queue| - i
      {
        if queue[i].nextHop == dest {
          DrainReplied(i, now);
          queue := Removed(queue, i);
          done := true;
        } else {
          i := i + 1;
        }
      }
    }

    /** Stores or refreshes the address of `ip`. */
    method UpdateArpCache(ip: U32, mac: int, isStatic: bool, now: int)
      modifies `cache
      ensures cache == Stored(old(cache), CacheEntry(ip, mac, if isStatic then 0 else now, isStatic))
    {
      var e := CacheEntry(ip, mac, if isStatic then 0 else now, isStatic);
      var i := GetFromArpCache(ip);
      if i != -1 {
        cache := cache[i := e];
      } else {
        cache := cache + [e];
      }
    }

    /** Drops the entries that are neither static nor recent; the others stay in order. */
    method ExpireArpCache(now: int, ttl: nat)
      modifies `cache
      ensures cache == Recent(old(cache), now, ttl)
    {
      var kept := [];
      for k := 0 to |cache|
        invariant cache == old(cache) && kept == Recent(cache[..k], now, ttl)
      {
        assert cache[..k + 1][..k] == cache[..k];
        if cache[k].isStatic || now - cache[k].stamp <= ttl {
          kept := kept + [cache[k]];
        }
      }
      assert cache[..|cache|] == cache;
      cache := kept;
    }

    /** An ARP reply: its address is stored and what waited for it goes out, oldest first. */
    method ProcessArpReply(ip: U32, mac: int, now: int)
      requires Valid()
      modifies `cache, `queue, `sent, `given
      ensures Valid() && Books() == AllReplied(old(Books()), ip, mac)
    {
      AllRepliedBalanced(Books(), ip, mac);
      StoredIsFound(cache, CacheEntry(ip, mac, now, false));
      UpdateArpCache(ip, mac, false, now);
      AnsweredCached(Books(), cache, ip);
      SendQueuedPackets(ip, now);
    }
  }
}
