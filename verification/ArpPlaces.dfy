/**
 Where a packet handed to `send_ip` can be: on the wire, waiting in the queue
 entry of its next hop, or dropped. Queue entries are values here.
 */
module ArpPlaces {
  import opened Numbers

  const MAX_REQUESTS := 5

  const IP_PROTO_ICMP := 1
  const ICMP_ECHO_REPLY := 0
  const ICMP_UNREACHABLE := 3
  const ICMP_ECHO_REQUEST := 8

  /** Which buffer a packet is in: one that arrived, or the error made about another packet. */
  datatype Tag = Arrived(n: nat) | ErrorAbout(packet: Tag)

  datatype Packet = Packet(tag: Tag, proto: nat, icmpType: nat, src: U32, dst: U32)

  /** A packet on its way to a next hop. */
  datatype Parcel = Parcel(packet: Packet, nextHop: U32)

  datatype Frame = Frame(parcel: Parcel, mac: int)

  datatype QueueEntry = QueueEntry(nextHop: U32, iface: string, requests: nat, lastReq: int, packets: seq<Packet>)

  type Queue = seq<QueueEntry>

  function Parcels(ps: seq<Packet>, nextHop: U32): multiset<Parcel> {
    if ps == [] then multiset{}
    else multiset{Parcel(ps[0], nextHop)} + Parcels(ps[1..], nextHop)
  }

  function InEntry(e: QueueEntry): multiset<Parcel> {
    Parcels(e.packets, e.nextHop)
  }

  /** Every parcel that waits for an ARP reply. */
  function Waiting(q: Queue): multiset<Parcel> {
    if q == [] then multiset{} else Waiting(q[..|q| - 1]) + InEntry(q[|q| - 1])
  }

  function OnWire(sent: seq<Frame>): multiset<Parcel> {
    if sent == [] then multiset{} else OnWire(sent[..|sent| - 1]) + multiset{sent[|sent| - 1].parcel}
  }

  /** One entry per next hop, each after one to five requests. */
  ghost predicate Proper(q: Queue) {
    && (forall i, j :: 0 <= i < j < |q| ==> q[i].nextHop != q[j].nextHop)
    && (forall i :: 0 <= i < |q| ==> 1 <= q[i].requests <= MAX_REQUESTS)
  }

  lemma {:induction false} ParcelsOfSum(a: seq<Packet>, b: seq<Packet>, hop: U32)
    ensures Parcels(a + b, hop) == Parcels(a, hop) + Parcels(b, hop)
  {
    if a == [] {
      assert a + b == b;
    } else {
      assert (a + b)[1..] == a[1..] + b;
      ParcelsOfSum(a[1..], b, hop);
    }
  }

  /** A packet is in it as often as in the list, for that next hop and no other. */
  lemma {:induction false} ParcelsCount(ps: seq<Packet>, hop: U32, x: Parcel)
    ensures Parcels(ps, hop)[x] == if x.nextHop == hop then multiset(ps)[x.packet] else 0
  {
    if ps != [] {
      ParcelsCount(ps[1..], hop, x);
      assert ps == [ps[0]] + ps[1..];
    }
  }

  lemma {:induction false} OnWireIs(sent: seq<Frame>)
    ensures OnWire(sent) == multiset(seq(|sent|, k requires 0 <= k < |sent| => sent[k].parcel))
  {
    if sent != [] {
      var n := |sent| - 1;
      OnWireIs(sent[..n]);
      assert seq(|sent|, k requires 0 <= k < |sent| => sent[k].parcel)
        == seq(n, k requires 0 <= k < n => sent[..n][k].parcel) + [sent[n].parcel];
    }
  }

  lemma {:induction false} WaitingOfSum(a: Queue, b: Queue)
    ensures Waiting(a + b) == Waiting(a) + Waiting(b)
  {
    if b == [] {
      assert a + b == a;
    } else {
      assert (a + b)[..|a + b| - 1] == a + b[..|b| - 1];
      WaitingOfSum(a, b[..|b| - 1]);
    }
  }

  lemma WaitingNext(q: Queue, e: QueueEntry)
    ensures Waiting(q + [e]) == Waiting(q) + InEntry(e)
  {
    assert (q + [e])[..|q|] == q;
  }

  lemma WaitingAround(p: Queue, e: QueueEntry, r: Queue)
    ensures Waiting(p + [e] + r) == Waiting(p) + InEntry(e) + Waiting(r)
  {
    WaitingOfSum(p + [e], r);
    WaitingNext(p, e);
  }

  lemma SplitAt(q: Queue, i: nat)
    requires i < |q|
    ensures q[..i] + [q[i]] + q[i + 1..] == q
  {
  }

  lemma WaitingSplit(q: Queue, i: nat)
    requires i < |q|
    ensures Waiting(q) == Waiting(q[..i]) + InEntry(q[i]) + Waiting(q[i + 1..])
  {
    var p, e, r := q[..i], q[i], q[i + 1..];
    WaitingAround(p, e, r);
    SplitAt(q, i);
  }

  lemma WaitingReplaced(q: Queue, i: nat, e: QueueEntry)
    requires i < |q|
    ensures Waiting(q[i := e]) + InEntry(q[i]) == Waiting(q) + InEntry(e)
  {
    var r := q[i := e];
    WaitingSplit(q, i);
    WaitingSplit(r, i);
    assert r[..i] == q[..i] && r[i + 1..] == q[i + 1..];
  }

  lemma WaitingRemoved(q: Queue, i: nat)
    requires i < |q|
    ensures Waiting(q[..i] + q[i + 1..]) + InEntry(q[i]) == Waiting(q)
  {
    WaitingSplit(q, i);
    WaitingOfSum(q[..i], q[i + 1..]);
  }

  function Find(q: Queue, hop: U32): (i: int)
    ensures i == -1 ==> forall k :: 0 <= k < |q| ==> q[k].nextHop != hop
    ensures i != -1 ==> 0 <= i < |q| && q[i].nextHop == hop && forall k :: 0 <= k < i ==> q[k].nextHop != hop
  {
    if q == [] then -1
    else if q[0].nextHop == hop then 0
    else
      var k := Find(q[1..], hop);
      if k == -1 then -1 else k + 1
  }

  /** Next hops are distinct, so each entry is the one found for its own. */
  lemma FindOwn(q: Queue, i: nat)
    requires Proper(q) && i < |q|
    ensures Find(q, q[i].nextHop) == i
  {
    var k := Find(q, q[i].nextHop);
    assert k != -1 && q[k].nextHop == q[i].nextHop;
  }

  /** The same entries, some with more packets, and perhaps fresh ones at the end. */
  ghost predicate Grown(q: Queue, r: Queue) {
    && |q| <= |r|
    && (forall k :: 0 <= k < |q| ==> r[k].nextHop == q[k].nextHop && r[k].requests == q[k].requests)
    && (forall k :: |q| <= k < |r| ==> r[k].requests == 1)
  }

  lemma GrownTransitive(q: Queue, r: Queue, s: Queue)
    requires Grown(q, r) && Grown(r, s)
    ensures Grown(q, s)
  {
  }

  /** The queue after `p` joins the entry of its next hop, which is made if need be. */
  function Enqueued(q: Queue, p: Packet, hop: U32, iface: string, now: int): (r: Queue) {
    var i := Find(q, hop);
    if i == -1 then q + [QueueEntry(hop, iface, 1, now, [p])]
    else q[i := q[i].(packets := q[i].packets + [p])]
  }

  /** `p` waits behind the packets for `hop`, or alone in a new entry asked for once; nothing else changes. */
  lemma EnqueuedIs(q: Queue, p: Packet, hop: U32, iface: string, now: int, i: nat)
    requires i <= |q| && forall k :: 0 <= k < i ==> q[k].nextHop != hop
    requires i < |q| ==> q[i].nextHop == hop
    ensures var r := Enqueued(q, p, hop, iface, now);
            && |r| == (if i < |q| then |q| else |q| + 1)
            && (forall k :: 0 <= k < |q| && k != i ==> r[k] == q[k])
            && (i < |q| ==> r[i] == q[i].(packets := q[i].packets + [p]))
            && (i == |q| ==> r[i] == QueueEntry(hop, iface, 1, now, [p]))
  {
  }

  lemma Cancel(a: multiset<Parcel>, b: multiset<Parcel>, c: multiset<Parcel>, x: multiset<Parcel>)
    requires a + b == c + (b + x)
    ensures a == c + x
  {
    forall y ensures a[y] == (c + x)[y] {
      assert (a + b)[y] == (c + (b + x))[y];
    }
  }

  lemma EnqueuedProper(q: Queue, p: Packet, hop: U32, iface: string, now: int)
    requires Proper(q)
    ensures Proper(Enqueued(q, p, hop, iface, now)) && Grown(q, Enqueued(q, p, hop, iface, now))
  {
  }

  lemma ParcelsNext(ps: seq<Packet>, p: Packet, hop: U32)
    ensures Parcels(ps + [p], hop) == Parcels(ps, hop) + multiset{Parcel(p, hop)}
  {
    ParcelsOfSum(ps, [p], hop);
    assert [p][1..] == [];
  }

  lemma EnqueuedPlaces(q: Queue, p: Packet, hop: U32, iface: string, now: int)
    ensures Waiting(Enqueued(q, p, hop, iface, now)) == Waiting(q) + multiset{Parcel(p, hop)}
  {
    var i := Find(q, hop);
    if i == -1 {
      var e := QueueEntry(hop, iface, 1, now, [p]);
      assert [] + [p] == [p];
      ParcelsNext([], p, hop);
      WaitingNext(q, e);
    } else {
      var e := q[i].(packets := q[i].packets + [p]);
      ParcelsNext(q[i].packets, p, hop);
      WaitingReplaced(q, i, e);
      Cancel(Waiting(q[i := e]), InEntry(q[i]), Waiting(q), multiset{Parcel(p, hop)});
    }
  }

  /** The queue once the first packet of entry `i` has left. */
  function Popped(q: Queue, i: nat): Queue
    requires i < |q| && q[i].packets != []
  {
    q[i := q[i].(packets := q[i].packets[1..])]
  }

  lemma PoppedGrown(q: Queue, r: Queue, i: nat)
    requires Grown(q, r) && i < |q| && r[i].packets != []
    ensures Grown(q, Popped(r, i))
  {
  }

  lemma PoppedPlaces(q: Queue, i: nat)
    requires i < |q| && q[i].packets != []
    ensures Waiting(Popped(q, i)) + multiset{Parcel(q[i].packets[0], q[i].nextHop)} == Waiting(q)
    ensures Proper(q) ==> Proper(Popped(q, i))
  {
    var e := q[i].(packets := q[i].packets[1..]);
    var x := multiset{Parcel(q[i].packets[0], q[i].nextHop)};
    WaitingReplaced(q, i, e);
    assert InEntry(q[i]) == x + InEntry(e);
    PopCancels(Waiting(Popped(q, i)), InEntry(q[i]), InEntry(e), Waiting(q), x);
  }

  lemma PopCancels(after: multiset<Parcel>, was: multiset<Parcel>, rest: multiset<Parcel>, before: multiset<Parcel>,
                   x: multiset<Parcel>)
    requires after + was == before + rest && was == x + rest
    ensures after + x == before
  {
    forall y ensures (after + x)[y] == before[y] {
      assert (after + was)[y] == (before + rest)[y];
    }
  }

  lemma OnWireNext(sent: seq<Frame>, f: Frame)
    ensures OnWire(sent + [f]) == OnWire(sent) + multiset{f.parcel}
  {
    assert (sent + [f])[..|sent|] == sent;
  }

  // --- errors about packets that cannot be delivered ------------------------------------

  /** Only these packets may cause an ICMP error: ICMP errors never do. */
  predicate MayCauseError(p: Packet) {
    p.proto != IP_PROTO_ICMP || p.icmpType == ICMP_ECHO_REPLY || p.icmpType == ICMP_ECHO_REQUEST
  }

  function HostUnreachable(p: Packet, src: U32): (e: Packet)
    ensures !MayCauseError(e)
  {
    Packet(ErrorAbout(p.tag), IP_PROTO_ICMP, ICMP_UNREACHABLE, src, p.src)
  }

  /** How much work draining `ps` can still take: a packet that may cause an error counts twice. */
  function Work(ps: seq<Packet>): nat {
    if ps == [] then 0 else (if MayCauseError(ps[0]) then 2 else 1) + Work(ps[1..])
  }

  lemma {:induction false} WorkNext(ps: seq<Packet>, p: Packet)
    ensures Work(ps + [p]) == Work(ps) + (if MayCauseError(p) then 2 else 1)
  {
    if ps == [] {
      assert ps + [p] == [p];
    } else {
      assert (ps + [p])[1..] == ps[1..] + [p];
      WorkNext(ps[1..], p);
    }
  }

  /** How many entries have used up their requests. */
  function Exhausted(q: Queue): nat {
    if q == [] then 0 else (if q[0].requests >= MAX_REQUESTS then 1 else 0) + Exhausted(q[1..])
  }

  /** Entries that differ only in their packets, and fresh ones after them, leave the count as it is. */
  lemma {:induction false} ExhaustedSame(q: Queue, r: Queue)
    requires |q| <= |r|
    requires forall k :: 0 <= k < |q| ==> r[k].requests == q[k].requests
    requires forall k :: |q| <= k < |r| ==> r[k].requests < MAX_REQUESTS
    ensures Exhausted(r) == Exhausted(q)
    decreases |r|
  {
    if r != [] {
      ExhaustedSame(if q == [] then [] else q[1..], r[1..]);
    }
  }

  // --- the books, and what each step does to them ------------------------------------------

  /** Everything that happened to parcels so far. */
  datatype Book = Book(
    queue: Queue,
    sent: seq<Frame>,             // frames put on the wire, in order
    given: multiset<Parcel>,      // parcels handed over so far
    dropped: multiset<Parcel>)    // parcels given up

  /** Every parcel is in exactly one place, as often as it was handed over. */
  ghost predicate Balanced(b: Book) {
    Proper(b.queue) && b.given == OnWire(b.sent) + Waiting(b.queue) + b.dropped
  }

  /** `p` goes out to `mac`. */
  function Transmitted(b: Book, p: Packet, hop: U32, mac: int): Book {
    b.(sent := b.sent + [Frame(Parcel(p, hop), mac)], given := b.given + multiset{Parcel(p, hop)})
  }

  /** `p` waits for a reply. */
  function Queued(b: Book, p: Packet, hop: U32, iface: string, now: int): Book {
    b.(queue := Enqueued(b.queue, p, hop, iface, now), given := b.given + multiset{Parcel(p, hop)})
  }

  /** The first packet of entry `i` goes out. */
  function HeadSent(b: Book, i: nat, mac: int): Book
    requires i < |b.queue| && b.queue[i].packets != []
  {
    b.(sent := b.sent + [Frame(Parcel(b.queue[i].packets[0], b.queue[i].nextHop), mac)], queue := Popped(b.queue, i))
  }

  /** The first packet of entry `i` is given up. */
  function HeadDropped(b: Book, i: nat): Book
    requires i < |b.queue| && b.queue[i].packets != []
  {
    b.(dropped := b.dropped + multiset{Parcel(b.queue[i].packets[0], b.queue[i].nextHop)}, queue := Popped(b.queue, i))
  }

  function Removed(q: Queue, i: nat): Queue
    requires i < |q|
  {
    q[..i] + q[i + 1..]
  }

  lemma TransmittedBalanced(b: Book, p: Packet, hop: U32, mac: int)
    requires Balanced(b)
    ensures Balanced(Transmitted(b, p, hop, mac))
  {
    OnWireNext(b.sent, Frame(Parcel(p, hop), mac));
  }

  lemma QueuedBalanced(b: Book, p: Packet, hop: U32, iface: string, now: int)
    requires Balanced(b)
    ensures Balanced(Queued(b, p, hop, iface, now)) && Grown(b.queue, Queued(b, p, hop, iface, now).queue)
  {
    EnqueuedProper(b.queue, p, hop, iface, now);
    EnqueuedPlaces(b.queue, p, hop, iface, now);
  }

  lemma HeadSentBalanced(b: Book, i: nat, mac: int)
    requires Balanced(b) && i < |b.queue| && b.queue[i].packets != []
    ensures Balanced(HeadSent(b, i, mac))
  {
    PoppedPlaces(b.queue, i);
    OnWireNext(b.sent, Frame(Parcel(b.queue[i].packets[0], b.queue[i].nextHop), mac));
  }

  lemma HeadDroppedBalanced(b: Book, i: nat)
    requires Balanced(b) && i < |b.queue| && b.queue[i].packets != []
    ensures Balanced(HeadDropped(b, i))
  {
    PoppedPlaces(b.queue, i);
  }

  lemma RemovedProper(q: Queue, i: nat)
    requires Proper(q) && i < |q|
    ensures Proper(Removed(q, i))
  {
  }

  lemma ReplacedProper(q: Queue, i: nat, e: QueueEntry)
    requires Proper(q) && i < |q| && e.nextHop == q[i].nextHop && 1 <= e.requests <= MAX_REQUESTS
    ensures Proper(q[i := e])
  {
  }

  lemma RemovedBalanced(b: Book, i: nat)
    requires Balanced(b) && i < |b.queue| && b.queue[i].packets == []
    ensures Balanced(b.(queue := Removed(b.queue, i)))
  {
    RemovedProper(b.queue, i);
    WaitingRemoved(b.queue, i);
  }

  lemma RequestedBalanced(b: Book, i: nat, now: int)
    requires Balanced(b) && i < |b.queue| && b.queue[i].requests < MAX_REQUESTS
    ensures Balanced(b.(queue := b.queue[i := b.queue[i].(requests := b.queue[i].requests + 1, lastReq := now)]))
  {
    var e := b.queue[i].(requests := b.queue[i].requests + 1, lastReq := now);
    ReplacedProper(b.queue, i, e);
    WaitingReplaced(b.queue, i, e);
    Cancel(Waiting(b.queue[i := e]), InEntry(e), Waiting(b.queue), multiset{});
  }

  /** A parcel handed over once is in exactly one of the three places. */
  lemma ExactlyOnePlace(b: Book, x: Parcel)
    requires Balanced(b) && b.given[x] == 1
    ensures OnWire(b.sent)[x] + Waiting(b.queue)[x] + b.dropped[x] == 1
  {
    assert (OnWire(b.sent) + Waiting(b.queue) + b.dropped)[x] == 1;
  }

  /** A waiting parcel is in the one entry of its next hop. */
  lemma {:induction false} WaitsAtItsHop(q: Queue, x: Parcel)
    requires x in Waiting(q)
    ensures exists i :: 0 <= i < |q| && q[i].nextHop == x.nextHop && x.packet in q[i].packets
  {
    var n := |q| - 1;
    if x in InEntry(q[n]) {
      ParcelInEntry(q[n].packets, q[n].nextHop, x);
      assert q[n].nextHop == x.nextHop;
    } else {
      WaitsAtItsHop(q[..n], x);
      var i :| 0 <= i < n && q[..n][i].nextHop == x.nextHop && x.packet in q[..n][i].packets;
      assert q[i] == q[..n][i];
    }
  }

  lemma {:induction false} ParcelInEntry(ps: seq<Packet>, hop: U32, x: Parcel)
    requires x in Parcels(ps, hop)
    ensures x.nextHop == hop && x.packet in ps
  {
    if x != Parcel(ps[0], hop) {
      ParcelInEntry(ps[1..], hop, x);
    }
  }
}
