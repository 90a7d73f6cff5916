/**
 The descriptor rings a network driver shares with its device. Driver methods and
 device steps alternate; the ghost fields say which buffers are where.
 */
module NicRings {

  /** Position `k` slots after `a` in a ring of `n`. */
  function Slot(n: nat, a: nat, k: nat): (s: nat)
    requires a < n && k <= n
    ensures s < n || (s == n && n == 0)
  {
    if a + k < n then a + k else a + k - n
  }

  lemma ModWraps(n: nat, x: nat)
    requires x < 2 * n
    ensures x % n == if x < n then x else x - n
  {
    if x >= n {
      assert x == n * 1 + (x - n);
      assert x / n == 1;
    }
  }

  /** Distinct offsets within a ring are distinct slots. */
  lemma SlotsDiffer(n: nat, a: nat, j: nat, k: nat)
    requires a < n && j < k < n
    ensures Slot(n, a, j) != Slot(n, a, k)
  {
  }

  type Buffer = int

  // --- transmit ------------------------------------------------------------------------

  class TxQueue {
    const n: nat                    // usable descriptors: one less than allocated
    const slots: array<Buffer>
    var nextToUse: nat
    var nextToClean: nat
    var cidx: nat                   // written back by the device
    var head: nat                   // published to the device
    ghost var accepted: seq<Buffer> // buffers taken over from the stack, in order
    ghost var freed: seq<Buffer>    // buffers freed, in order
    ghost var published: nat        // how many buffers in the ring the device may use
    ghost var consumed: nat         // how many of them it has consumed

    /** How many buffers are in the ring. */
    ghost function Flying(): int
      reads this
    {
      |accepted| - |freed|
    }

    /**
     Buffers are freed in the order they were accepted, each at most once; the
     ring holds the rest, in that order, from the tail to the head.
     */
    ghost predicate Valid()
      reads this, slots
    {
      && 2 <= n == slots.Length
      && nextToClean < n
      && freed <= accepted
      && consumed <= published <= Flying() < n
      && nextToUse == Slot(n, nextToClean, Flying())
      && head == Slot(n, nextToClean, published)
      && cidx == Slot(n, nextToClean, consumed)
      && (forall k :: 0 <= k < Flying() ==> slots[Slot(n, nextToClean, k)] == accepted[|freed| + k])
    }

    constructor (n: nat)
      requires n >= 2
      ensures Valid() && this.n == n && accepted == [] && fresh(slots)
    {
      this.n := n;
      slots := new Buffer[n](_ => 0);
      nextToUse, nextToClean, cidx, head := 0, 0, 0, 0;
      accepted, freed, published, consumed := [], [], 0, 0;
    }

    /** The device consumes `k` more of the published descriptors and writes its index back. */
    method DeviceWriteback(k: nat)
      requires Valid() && consumed + k <= published
      modifies `cidx, `consumed
      ensures Valid() && consumed == old(consumed) + k
    {
      ModWraps(n, cidx + k);
      cidx := (cidx + k) % n;
      consumed := consumed + k;
    }

    method RingFull() returns (full: bool)
      requires Valid()
      ensures full <==> Flying() == n - 1
    {
      ModWraps(n, nextToUse + 1);
      full := (nextToUse + 1) % n == nextToClean;
    }

    /** How many descriptors the device has consumed, from the index it wrote back. */
    method Finished() returns (work: int)
      requires Valid()
      ensures work == consumed
    {
      work := cidx - nextToClean;
      if work < 0 {
        work := work + n;
      }
    }

    /** How many published descriptors the device has yet to consume. */
    method Window() returns (w: int)
      requires Valid()
      ensures w == published - consumed
    {
      w := head - cidx;
      if w < 0 {
        w := w + n;
      }
    }

    /** Frees the buffer at the tail: the oldest one not freed yet. */
    method FreeTail()
      requires Valid() && consumed > 0
      modifies `nextToClean, `freed, `published, `consumed
      ensures Valid()
      ensures freed == old(freed) + [accepted[|old(freed)|]]
      ensures consumed == old(consumed) - 1 && published == old(published) - 1
    {
      assert slots[Slot(n, nextToClean, 0)] == accepted[|freed|];
      freed := freed + [slots[nextToClean]];
      ModWraps(n, nextToClean + 1);
      ghost var was := nextToClean;
      nextToClean := (nextToClean + 1) % n;
      published, consumed := published - 1, consumed - 1;
      assert forall k :: 0 <= k < Flying() ==> Slot(n, nextToClean, k) == Slot(n, was, k + 1);
    }

    /** Frees what the device has consumed, and nothing else. */
    method TxClean()
      requires Valid()
      modifies `nextToClean, `freed, `published, `consumed
      ensures Valid() && consumed == 0
      ensures |freed| == |old(freed)| + old(consumed) && published == old(published) - old(consumed)
    {
      if cidx == nextToClean {
        return;
      }
      var work := Finished();
      for i := 0 to work
        invariant Valid() && consumed == work - i
        invariant |freed| == |old(freed)| + i && published == old(published) - i
      {
        FreeTail();
      }
    }

    /** Puts `skb` into the slot at the head, which no buffer in the ring occupies. */
    method FillHead(skb: Buffer)
      requires Valid() && Flying() < n - 1
      modifies `nextToUse, `accepted, slots
      ensures Valid() && accepted == old(accepted) + [skb]
      ensures forall k :: 0 <= k < old(Flying()) ==> Slot(n, nextToClean, k) != old(nextToUse)
    {
      forall k | 0 <= k < Flying() ensures Slot(n, nextToClean, k) != nextToUse {
        SlotsDiffer(n, nextToClean, k, Flying());
      }
      slots[nextToUse] := skb;
      ModWraps(n, nextToUse + 1);
      nextToUse := (nextToUse + 1) % n;
      accepted := accepted + [skb];
    }

    /** Lets the device use everything in the ring. */
    method Publish()
      requires Valid()
      modifies `head, `published
      ensures Valid() && published == Flying()
    {
      head := nextToUse;
      published := Flying();
    }

    /** Sends `skb`, unless the ring is full or the buffer cannot be mapped. `more` says another send follows. */
    method XmitFrame(skb: Buffer, mapped: bool, more: bool) returns (ok: bool)
      requires Valid()
      modifies `nextToClean, `nextToUse, `head, `accepted, `freed, `published, `consumed, slots
      ensures Valid()
      ensures |freed| == |old(freed)| + old(consumed)
      ensures ok <==> old(Flying()) - old(consumed) < n - 1 && mapped
      ensures accepted == if ok then old(accepted) + [skb] else old(accepted)
      ensures consumed == 0
      ensures published == if ok && (!more || Flying() == n - 1) then Flying() else old(published) - old(consumed)
    {
      TxClean();
      var full := RingFull();
      if full {
        return false;
      }
      if !mapped {
        return false;
      }
      FillHead(skb);
      full := RingFull();
      if full || !more {
        Publish();
      }
      return true;
    }
  }

  // --- receive --------------------------------------------------------------------------

  /** How many descriptors one refill posts. */
  const STEP := 256

  /** What the device delivers: the data in a buffer and the length in a completion entry. */
  datatype Packet = Packet(data: int, length: int)

  /** How many of `completed` packets one poll may deliver. */
  function Allowed(budget: int, completed: nat): nat {
    if budget < 1 && completed > 0 then 1
    else if budget < completed && budget >= 0 then budget
    else completed
  }

  /** How many of `allowed` packets a poll delivers: up to the first that cannot be allocated or is refused. */
  function Served(allowed: nat, alloc: nat -> bool, takes: nat -> bool): (work: nat)
    ensures work <= allowed && forall k :: 0 <= k < work ==> alloc(k) && takes(k)
    ensures work < allowed ==> !(alloc(work) && takes(work))
  {
    if allowed == 0 then 0
    else
      var w := Served(allowed - 1, alloc, takes);
      if w == allowed - 1 && alloc(w) && takes(w) then allowed else w
  }

  /** A poll ends with a refusal if it could allocate a buffer for a packet that the stack did not take. */
  predicate Refusal(allowed: nat, alloc: nat -> bool, takes: nat -> bool) {
    var work := Served(allowed, alloc, takes);
    work < allowed && alloc(work)
  }

  /** Where no allocation fails and the stack takes everything, a poll delivers what was completed, up to its budget, at least one. */
  lemma ServedAll(budget: int, completed: nat, alloc: nat -> bool, takes: nat -> bool)
    requires forall k :: 0 <= k < completed ==> alloc(k) && takes(k)
    ensures Served(Allowed(budget, completed), alloc, takes) ==
      if completed == 0 then 0 else if budget < 1 then 1 else if budget < completed then budget else completed
    ensures !Refusal(Allowed(budget, completed), alloc, takes)
  {
    ServedUnique(Allowed(budget, completed), alloc, takes, Allowed(budget, completed));
  }

  lemma AllowedMeans(budget: int, completed: nat, work: nat)
    requires work <= completed && (work <= budget || work <= 1)
    ensures work <= Allowed(budget, completed)
    ensures work < Allowed(budget, completed) <==> work < completed && (work < budget || work == 0)
  {
  }

  lemma ServedUnique(allowed: nat, alloc: nat -> bool, takes: nat -> bool, work: nat)
    requires work <= allowed && forall k :: 0 <= k < work ==> alloc(k) && takes(k)
    requires work < allowed ==> !(alloc(work) && takes(work))
    ensures work == Served(allowed, alloc, takes)
  {
  }

  /** How many descriptors are posted once one more has been used: a refill follows when fewer than 128 are left. */
  function PostedNext(posted: nat): nat
    requires posted > 0
  {
    if posted - 1 < STEP / 2 then posted - 1 + STEP else posted - 1
  }

  function PostedAfter(posted: nat, work: nat): (p: nat)
    requires posted > 0
    ensures p > 0
  {
    if work == 0 then posted else PostedNext(PostedAfter(posted, work - 1))
  }

  lemma TakeOne(s: seq<Packet>, n: nat, next: nat)
    requires n < |s| && next == n + 1
    ensures s[n..][1..] == s[next..] && s[..next] == s[..n] + [s[n]]
  {
  }

  class RxQueue {
    const n: nat                    // usable descriptors of both rings
    const buffers: array<int>       // written by the device
    const completions: array<int>   // written by the device
    var nextToUse: nat              // descriptor ring: posted up to here
    var nextToClean: nat            // descriptor ring
    var cmplNextToClean: nat        // completion ring
    var pidx: nat                   // completion ring: written by the device
    ghost var posted: nat           // descriptors the device may use
    ghost var done: seq<Packet>     // completed and not yet delivered, in order

    /** Both rings are at the same place, and between 128 and 383 descriptors are posted. */
    ghost predicate Valid()
      reads this, buffers, completions
    {
      && 2 * STEP <= n == buffers.Length == completions.Length && buffers != completions
      && nextToClean == cmplNextToClean < n
      && STEP / 2 <= posted < STEP / 2 + STEP
      && |done| <= posted
      && nextToUse == Slot(n, nextToClean, posted)
      && pidx == Slot(n, nextToClean, |done|)
      && (forall k :: 0 <= k < |done| ==>
            done[k] == Packet(buffers[Slot(n, nextToClean, k)], completions[Slot(n, nextToClean, k)]))
    }

    constructor (n: nat)
      requires n >= 2 * STEP
      ensures Valid() && this.n == n && done == [] && posted == STEP
      ensures fresh(buffers) && fresh(completions)
    {
      this.n := n;
      buffers := new int[n](_ => 0);
      completions := new int[n](_ => 0);
      nextToUse, nextToClean, cmplNextToClean, pidx := STEP, 0, 0, 0;
      posted, done := STEP, [];
    }

    /** The device fills the next posted buffer and reports it. */
    method DeviceComplete(p: Packet)
      requires Valid() && |done| < posted
      modifies `pidx, `done, buffers, completions
      ensures Valid() && done == old(done) + [p]
    {
      forall k | 0 <= k < |done| ensures Slot(n, nextToClean, k) != pidx {
        SlotsDiffer(n, nextToClean, k, |done|);
      }
      buffers[pidx] := p.data;
      completions[pidx] := p.length;
      ModWraps(n, pidx + 1);
      pidx := (pidx + 1) % n;
      done := done + [p];
    }

    /** A posted buffer is still free. */
    method HasRoom() returns (room: bool)
      requires Valid()
      ensures room <==> |done| < posted
    {
      room := pidx != nextToUse;
    }

    /** Too few descriptors are posted. */
    method HighWatermark() returns (low: bool)
      requires nextToClean < n && posted < n && nextToUse == Slot(n, nextToClean, posted)
      ensures low <==> posted < 128
    {
      var unused := nextToUse - nextToClean;
      if nextToUse < nextToClean {
        unused := unused + n;
      }
      low := unused < STEP / 2;
    }

    /** Posts another 256 descriptors; the head stays behind the tail. */
    method Refill()
      requires nextToClean < n && posted + STEP < n && nextToUse == Slot(n, nextToClean, posted)
      modifies `nextToUse, `posted
      ensures posted == old(posted) + 256 && nextToUse == Slot(n, nextToClean, posted)
    {
      ModWraps(n, nextToUse + STEP);
      nextToUse := (nextToUse + STEP) % n;
      posted := posted + STEP;
    }

    /** The oldest completed packet, whose length has been read already, as it is handed to the stack. */
    method Oldest(length: int) returns (p: Packet)
      requires Valid() && |done| > 0 && length == completions[cmplNextToClean]
      ensures p == done[0]
    {
      assert done[0] == Packet(buffers[Slot(n, nextToClean, 0)], completions[Slot(n, nextToClean, 0)]);
      p := Packet(buffers[nextToClean], length);
    }

    /** Moves both rings past the oldest completed packet. */
    method DeliverOne()
      requires Valid() && |done| > 0
      modifies `nextToUse, `nextToClean, `cmplNextToClean, `posted, `done
      ensures Valid() && done == old(done)[1..] && posted == PostedNext(old(posted))
      ensures posted == if old(posted) <= 128 then old(posted) + 255 else old(posted) - 1
    {
      ghost var was := nextToClean;
      ModWraps(n, nextToClean + 1);
      nextToClean := (nextToClean + 1) % n;
      posted := posted - 1;
      var low := HighWatermark();
      if low {
        Refill();
      }
      cmplNextToClean := (cmplNextToClean + 1) % n;
      done := done[1..];
      assert forall k :: 0 <= k < |done| ==> Slot(n, nextToClean, k) == Slot(n, was, k + 1);
    }

    /** The loop of a poll: `work` packets delivered, in order, and how it came to an end. */
    method PollLoop(budget: int, alloc: nat -> bool, takes: nat -> bool) returns (work: nat, handed: seq<Packet>, refused: bool)
      requires Valid()
      modifies `nextToUse, `nextToClean, `cmplNextToClean, `posted, `done
      ensures Valid()
      ensures work <= |old(done)| && done == old(done)[work..] && posted == PostedAfter(old(posted), work)
      ensures (work <= budget || work <= 1) && forall k :: 0 <= k < work ==> alloc(k) && takes(k)
      ensures work < |old(done)| && (work < budget || work == 0) ==> !(alloc(work) && takes(work))
      ensures refused <==> work < |old(done)| && (work < budget || work == 0) && alloc(work)
      ensures handed == old(done)[..if refused then work + 1 else work]
    {
      ghost var was, from := done, posted;
      work, handed, refused := 0, [], false;
      var length := completions[cmplNextToClean];
      var end := pidx;
      while cmplNextToClean != end
        invariant Valid() && pidx == end && work <= |was| && !refused
        invariant length == completions[cmplNextToClean]
        invariant handed == was[..work] && done == was[work..]
        invariant work < budget || work == 0
        invariant forall k :: 0 <= k < work ==> alloc(k) && takes(k)
        invariant posted == PostedAfter(from, work)
        decreases |was| - work
      {
        if !alloc(work) {
          break;
        }
        var p := Oldest(length);
        var next := work + 1;
        handed := handed + [p];
        TakeOne(was, work, next);
        if !takes(work) {
          refused := true;
          break;
        }
        DeliverOne();
        work := next;
        if work >= budget {
          break;
        }
        length := completions[cmplNextToClean];
      }
    }

    /**
     Hands completed packets to the stack until none are left, the budget is used
     up, an allocation fails or the stack refuses one: `alloc(k)` and `takes(k)`
     say whether the k-th allocation and hand-over succeed. A budget of 0 still
     delivers one packet. A refused packet was handed over, but both rings stay
     where it is, so it is still to be delivered.
     */
    method RxPoll(budget: int, alloc: nat -> bool, takes: nat -> bool) returns (work: nat, handed: seq<Packet>, refused: bool)
      requires Valid()
      modifies `nextToUse, `nextToClean, `cmplNextToClean, `posted, `done
      ensures Valid()
      ensures var allowed := Allowed(budget, |old(done)|);
              work == Served(allowed, alloc, takes) && refused == Refusal(allowed, alloc, takes)
      ensures work <= |old(done)| && done == old(done)[work..] && (refused ==> work < |old(done)|)
      ensures posted == PostedAfter(old(posted), work)
      ensures handed == old(done)[..if refused then work + 1 else work]
      ensures (work <= budget || work <= 1) && forall k :: 0 <= k < work ==> alloc(k) && takes(k)
      ensures work < |old(done)| && (work < budget || work == 0) ==> !(alloc(work) && takes(work))
      ensures refused <==> work < |old(done)| && (work < budget || work == 0) && alloc(work)
    {
      ghost var allowed := Allowed(budget, |done|);
      work, handed, refused := PollLoop(budget, alloc, takes);
      AllowedMeans(budget, |old(done)|, work);
      ServedUnique(allowed, alloc, takes, work);
    }
  }

  // --- whole runs -----------------------------------------------------------------------

  /** A send, a clean from the receive poll, or a writeback of the device. */
  datatype TxStep = Send(skb: Buffer, mapped: bool, more: bool) | Clean | Writeback(k: nat)

  /** A transmit queue of `n` descriptors as a run sees it: buffers accepted, and how many were freed, published and consumed. */
  datatype TxView = TxView(n: nat, accepted: seq<Buffer>, freed: nat, published: nat, consumed: nat)

  function InRing(v: TxView): int {
    |v.accepted| - v.freed
  }

  /** What the device has consumed is freed. */
  function Cleaned(v: TxView): TxView
    requires v.consumed <= v.published
  {
    v.(freed := v.freed + v.consumed, published := v.published - v.consumed, consumed := 0)
  }

  /** A buffer is accepted if, after a clean, the ring has room and the buffer can be mapped. */
  function Sent(v: TxView, skb: Buffer, mapped: bool, more: bool): TxView
    requires v.consumed <= v.published
  {
    var c := Cleaned(v);
    if InRing(c) >= v.n - 1 || !mapped then c
    else
      var d := c.(accepted := c.accepted + [skb]);
      if (!more || InRing(d) == v.n - 1) && InRing(d) >= 0 then d.(published := InRing(d)) else d
  }

  /** What a step does; a writeback counts only if it stays within the published window. */
  function TxStepped(v: TxView, s: TxStep): TxView
    requires v.consumed <= v.published
  {
    match s
    case Send(skb, mapped, more) => Sent(v, skb, mapped, more)
    case Clean => Cleaned(v)
    case Writeback(k) => if k <= v.published - v.consumed then v.(consumed := v.consumed + k) else v
  }

  function TxRunOf(v: TxView, steps: seq<TxStep>): (r: TxView)
    requires v.consumed <= v.published
    ensures r.consumed <= r.published
  {
    if steps == [] then v else TxStepped(TxRunOf(v, steps[..|steps| - 1]), steps[|steps| - 1])
  }

  lemma TxRunNext(v: TxView, steps: seq<TxStep>, m: nat, next: nat)
    requires v.consumed <= v.published && m < |steps| && next == m + 1
    ensures TxRunOf(v, steps[..next]) == TxStepped(TxRunOf(v, steps[..m]), steps[m])
  {
    assert steps[..next][..m] == steps[..m];
  }

  /** What the fields of a queue say. */
  ghost function ViewOf(q: TxQueue): (v: TxView)
    requires q.Valid()
    reads q, q.slots
    ensures v.consumed <= v.published
  {
    TxView(q.n, q.accepted, |q.freed|, q.published, q.consumed)
  }

  /** One step of a run, on the queue. */
  method TxStepOnce(q: TxQueue, s: TxStep)
    requires q.Valid()
    modifies q, q.slots
    ensures q.Valid() && ViewOf(q) == TxStepped(old(ViewOf(q)), s)
  {
    match s
    case Send(skb, mapped, more) =>
      var ok := q.XmitFrame(skb, mapped, more);
    case Clean =>
      q.TxClean();
    case Writeback(k) =>
      var w := q.Window();
      if k <= w {
        q.DeviceWriteback(k);
      }
  }

  /**
   Any interleaving of sends, cleans and writebacks that stay inside the published
   window. What is accepted, freed, published and consumed is `TxRunOf` the
   steps; the ring holds the buffers in between, and they are freed in the order
   in which they were accepted, each at most once.
   */
  method RunTx(q: TxQueue, steps: seq<TxStep>)
    requires q.Valid()
    modifies q, q.slots
    ensures q.Valid() && ViewOf(q) == TxRunOf(old(ViewOf(q)), steps)
    ensures q.freed == q.accepted[..|q.freed|]
  {
    ghost var start := ViewOf(q);
    var m := 0;
    assert steps[..0] == [];
    while m < |steps|
      invariant 0 <= m <= |steps| && q.Valid() && ViewOf(q) == TxRunOf(start, steps[..m])
    {
      var next := m + 1;
      TxRunNext(start, steps, m, next);
      TxStepOnce(q, steps[m]);
      m := next;
    }
    assert steps[..m] == steps;
  }

  /** In a run buffers are only added to those accepted, and no freed one comes back. */
  lemma {:induction false} TxRunGrows(v: TxView, steps: seq<TxStep>)
    requires v.consumed <= v.published
    ensures v.accepted <= TxRunOf(v, steps).accepted && v.freed <= TxRunOf(v, steps).freed
  {
    if steps != [] {
      TxRunGrows(v, steps[..|steps| - 1]);
    }
  }

  datatype RxStep = Complete(p: Packet) | Poll(budget: int, alloc: nat -> bool, takes: nat -> bool)

  /** One hand-over to the stack: which of all completed packets, and whether the stack took it. */
  datatype HandOver = HandOver(index: nat, taken: bool)

  /** The packet after the last one taken. */
  function NextIndex(log: seq<HandOver>): nat {
    if log == [] then 0
    else
      var last := log[|log| - 1];
      if last.taken then last.index + 1 else last.index
  }

  /** Every hand-over is of the next packet if the one before it was taken, and of the same packet again if not. */
  ghost predicate InOrder(log: seq<HandOver>) {
    forall k :: 0 <= k < |log| ==> log[k].index == NextIndex(log[..k])
  }

  lemma InOrderNext(log: seq<HandOver>, taken: bool)
    requires InOrder(log)
    ensures InOrder(log + [HandOver(NextIndex(log), taken)])
  {
    var r := log + [HandOver(NextIndex(log), taken)];
    forall k | 0 <= k < |r| ensures r[k].index == NextIndex(r[..k]) {
      assert r[..k] == log[..k];
      assert log[..|log|] == log;
    }
  }

  /** The log after a poll that delivered `work` packets and had one more refused, or not. */
  function Logged(log: seq<HandOver>, work: nat, refused: bool): (r: seq<HandOver>)
    decreases work, refused
  {
    if refused then
      var r := Logged(log, work, false);
      r + [HandOver(NextIndex(r), false)]
    else if work == 0 then log
    else
      var r := Logged(log, work - 1, false);
      r + [HandOver(NextIndex(r), true)]
  }

  lemma {:induction false} LoggedInOrder(log: seq<HandOver>, work: nat, refused: bool)
    requires InOrder(log)
    ensures InOrder(Logged(log, work, refused)) && NextIndex(Logged(log, work, refused)) == NextIndex(log) + work
    decreases work, refused
  {
    if refused {
      LoggedInOrder(log, work, false);
      InOrderNext(Logged(log, work, false), false);
    } else if work > 0 {
      LoggedInOrder(log, work - 1, false);
      InOrderNext(Logged(log, work - 1, false), true);
    }
  }

  lemma {:induction false} IndexGrows(log: seq<HandOver>, j: nat, k: nat)
    requires InOrder(log) && j < k <= |log|
    ensures log[j].index <= NextIndex(log[..k]) && (log[j].taken ==> log[j].index < NextIndex(log[..k]))
    decreases k
  {
    if j < k - 1 {
      IndexGrows(log, j, k - 1);
      assert log[..k][k - 1] == log[k - 1];
    }
  }

  /** A packet is handed to the stack again exactly if it was refused and anything is handed over after that. */
  lemma HandedTwice(log: seq<HandOver>, i: nat)
    requires InOrder(log)
    ensures (exists j, k :: 0 <= j < k < |log| && log[j].index == log[k].index == i) <==>
      (exists j :: 0 <= j < |log| - 1 && log[j].index == i && !log[j].taken)
  {
    if j, k :| 0 <= j < k < |log| && log[j].index == log[k].index == i {
      IndexGrows(log, j, k);
      assert !log[j].taken;
    }
    if j :| 0 <= j < |log| - 1 && log[j].index == i && !log[j].taken {
      assert log[..j + 1][j] == log[j];
      assert log[j + 1].index == NextIndex(log[..j + 1]) == i;
    }
  }

  /** `handed` are the packets that the log speaks of. */
  ghost predicate Shows(handed: seq<Packet>, log: seq<HandOver>, all: seq<Packet>) {
    |handed| == |log| && forall k :: 0 <= k < |log| ==> log[k].index < |all| && handed[k] == all[log[k].index]
  }

  lemma ShowsNext(handed: seq<Packet>, log: seq<HandOver>, all: seq<Packet>, i: nat, taken: bool)
    requires Shows(handed, log, all) && i < |all|
    ensures Shows(handed + [all[i]], log + [HandOver(i, taken)], all)
  {
  }

  lemma Longer(handed: seq<Packet>, rest: seq<Packet>, n: nat, next: nat)
    requires n < |rest| && next == n + 1
    ensures handed + rest[..next] == (handed + rest[..n]) + [rest[n]]
  {
  }

  lemma {:induction false} ShowsLogged(handed: seq<Packet>, log: seq<HandOver>, all: seq<Packet>, rest: seq<Packet>, work: nat)
    requires InOrder(log) && Shows(handed, log, all)
    requires NextIndex(log) <= |all| && rest == all[NextIndex(log)..] && work <= |rest|
    ensures Shows(handed + rest[..work], Logged(log, work, false), all)
  {
    if work > 0 {
      var m := work - 1;
      var r := Logged(log, m, false);
      LoggedInOrder(log, m, false);
      ShowsLogged(handed, log, all, rest, m);
      ShowsNext(handed + rest[..m], r, all, NextIndex(r), true);
      Longer(handed, rest, m, work);
    } else {
      assert handed + rest[..0] == handed;
    }
  }

  /** The packets completed so far are `all`: handed over as the log says, those not taken yet being `done`. */
  ghost predicate Accounted(log: seq<HandOver>, handed: seq<Packet>, all: seq<Packet>, done: seq<Packet>) {
    InOrder(log) && Shows(handed, log, all) && NextIndex(log) <= |all| && done == all[NextIndex(log)..]
  }

  lemma AccountedComplete(log: seq<HandOver>, handed: seq<Packet>, all: seq<Packet>, done: seq<Packet>, p: Packet)
    requires Accounted(log, handed, all, done)
    ensures Accounted(log, handed, all + [p], done + [p])
  {
    assert (all + [p])[NextIndex(log)..] == all[NextIndex(log)..] + [p];
  }

  lemma Suffix(all: seq<Packet>, n: nat, work: nat, m: nat)
    requires n + work == m <= |all|
    ensures all[n..][work..] == all[m..]
  {
  }

  lemma AccountedWork(log: seq<HandOver>, handed: seq<Packet>, all: seq<Packet>, done: seq<Packet>, work: nat)
    requires Accounted(log, handed, all, done) && work <= |done|
    ensures Accounted(Logged(log, work, false), handed + done[..work], all, done[work..])
  {
    var r := Logged(log, work, false);
    LoggedInOrder(log, work, false);
    ShowsLogged(handed, log, all, done, work);
    Suffix(all, NextIndex(log), work, NextIndex(r));
  }

  lemma AccountedRefusal(log: seq<HandOver>, handed: seq<Packet>, all: seq<Packet>, done: seq<Packet>)
    requires Accounted(log, handed, all, done) && done != []
    ensures Accounted(log + [HandOver(NextIndex(log), false)], handed + [done[0]], all, done)
  {
    InOrderNext(log, false);
    ShowsNext(handed, log, all, NextIndex(log), false);
  }

  lemma AccountedPoll(log: seq<HandOver>, handed: seq<Packet>, all: seq<Packet>, done: seq<Packet>, work: nat, refused: bool)
    requires Accounted(log, handed, all, done)
    requires work <= |done| && (refused ==> work < |done|)
    ensures Accounted(Logged(log, work, refused), handed + done[..if refused then work + 1 else work], all, done[work..])
  {
    AccountedWork(log, handed, all, done, work);
    if refused {
      AccountedRefusal(Logged(log, work, false), handed + done[..work], all, done[work..]);
      Longer(handed, done, work, work + 1);
    }
  }

  /** A receive queue as a run sees it: all packets completed, what was handed over, and the descriptors posted. */
  datatype RxView = RxView(all: seq<Packet>, log: seq<HandOver>, posted: nat)

  function Pending(v: RxView): nat {
    if NextIndex(v.log) <= |v.all| then |v.all| - NextIndex(v.log) else 0
  }

  /** What a step does: a completion needs a posted buffer, a poll does as `Served` and `Refusal` say. */
  function Stepped(v: RxView, s: RxStep): RxView
    requires v.posted > 0
  {
    match s
    case Complete(p) => if Pending(v) < v.posted then v.(all := v.all + [p]) else v
    case Poll(budget, alloc, takes) =>
      var allowed := Allowed(budget, Pending(v));
      var work := Served(allowed, alloc, takes);
      RxView(v.all, Logged(v.log, work, Refusal(allowed, alloc, takes)), PostedAfter(v.posted, work))
  }

  function RunOf(v: RxView, steps: seq<RxStep>): (r: RxView)
    requires v.posted > 0
    ensures r.posted > 0
  {
    if steps == [] then v
    else
      var r := RunOf(v, steps[..|steps| - 1]);
      SteppedPosted(r, steps[|steps| - 1]);
      Stepped(r, steps[|steps| - 1])
  }

  lemma SteppedPosted(v: RxView, s: RxStep)
    requires v.posted > 0
    ensures Stepped(v, s).posted > 0
  {
  }

  lemma RunNext(v: RxView, steps: seq<RxStep>, n: nat, next: nat)
    requires v.posted > 0 && n < |steps| && next == n + 1
    ensures RunOf(v, steps[..next]) == Stepped(RunOf(v, steps[..n]), steps[n])
  {
    assert steps[..next][..n] == steps[..n];
  }

  /** A hand-over is refused exactly if the stack did not take it in the poll that made it. */
  lemma {:induction false} LoggedFlags(log: seq<HandOver>, work: nat, refused: bool, k: nat)
    requires k < |Logged(log, work, refused)|
    ensures |Logged(log, work, refused)| == |log| + work + (if refused then 1 else 0)
    ensures Logged(log, work, refused)[k].taken == if k < |log| then log[k].taken else k < |log| + work
    decreases work, refused
  {
    if refused {
      var r := Logged(log, work, false);
      if k < |r| {
        LoggedFlags(log, work, false, k);
      } else if |r| > 0 {
        LoggedFlags(log, work, false, 0);
      }
    } else if work > 0 {
      var r := Logged(log, work - 1, false);
      if k < |r| {
        LoggedFlags(log, work - 1, false, k);
      } else if |r| > 0 {
        LoggedFlags(log, work - 1, false, 0);
      }
    }
  }

  lemma PendingIs(v: RxView, handed: seq<Packet>, done: seq<Packet>)
    requires Accounted(v.log, handed, v.all, done)
    ensures Pending(v) == |done|
  {
  }

  lemma SteppedComplete(v: RxView, handed: seq<Packet>, done: seq<Packet>, p: Packet)
    requires Accounted(v.log, handed, v.all, done) && |done| < v.posted
    ensures var w := Stepped(v, Complete(p)); w.posted == v.posted && Accounted(w.log, handed, w.all, done + [p])
  {
    PendingIs(v, handed, done);
    AccountedComplete(v.log, handed, v.all, done, p);
  }

  lemma SteppedPoll(v: RxView, handed: seq<Packet>, done: seq<Packet>, s: RxStep, work: nat, refused: bool)
    requires Accounted(v.log, handed, v.all, done) && s.Poll? && v.posted > 0
    requires work <= |done| && (refused ==> work < |done|)
    requires work == Served(Allowed(s.budget, |done|), s.alloc, s.takes)
    requires refused == Refusal(Allowed(s.budget, |done|), s.alloc, s.takes)
    ensures var w := Stepped(v, s);
            && w.posted == PostedAfter(v.posted, work)
            && Accounted(w.log, handed + done[..if refused then work + 1 else work], w.all, done[work..])
  {
    PendingIs(v, handed, done);
    AccountedPoll(v.log, handed, v.all, done, work, refused);
  }

  /** One step of a run, on the queue. */
  method RxStepOnce(q: RxQueue, s: RxStep, ghost v: RxView, ghost handed: seq<Packet>)
    returns (got: seq<Packet>, ghost w: RxView)
    requires q.Valid() && v.posted == q.posted && Accounted(v.log, handed, v.all, q.done)
    modifies q, q.buffers, q.completions
    ensures q.Valid() && w == Stepped(v, s) && w.posted == q.posted
    ensures Accounted(w.log, handed + got, w.all, q.done)
  {
    got := [];
    w := Stepped(v, s);
    assert handed + [] == handed;
    ghost var was := q.done;
    if s.Complete? {
      PendingIs(v, handed, was);
      var room := q.HasRoom();
      if room {
        SteppedComplete(v, handed, was, s.p);
        q.DeviceComplete(s.p);
      }
    } else {
      var work, refused;
      work, got, refused := q.RxPoll(s.budget, s.alloc, s.takes);
      SteppedPoll(v, handed, was, s, work, refused);
    }
  }

  /**
   Any interleaving of completions and polls. What is handed over, and whether
   it is taken, is `RunOf` the steps: the packets the device completed, in
   order, each again only after it was refused; those not taken yet are still
   in the ring.
   */
  method RunRx(q: RxQueue, steps: seq<RxStep>) returns (handed: seq<Packet>, ghost v: RxView)
    requires q.Valid()
    modifies q, q.buffers, q.completions
    ensures q.Valid() && v == RunOf(RxView(old(q.done), [], old(q.posted)), steps)
    ensures v.posted == q.posted && Accounted(v.log, handed, v.all, q.done)
  {
    ghost var start := RxView(q.done, [], q.posted);
    handed, v := [], start;
    assert q.done[0..] == q.done && steps[..0] == [];
    var n := 0;
    while n < |steps|
      invariant 0 <= n <= |steps| && q.Valid() && v.posted == q.posted
      invariant Accounted(v.log, handed, v.all, q.done) && v == RunOf(start, steps[..n])
    {
      var next := n + 1;
      RunNext(start, steps, n, next);
      var got;
      got, v := RxStepOnce(q, steps[n], v, handed);
      handed, n := handed + got, next;
    }
    assert steps[..n] == steps;
  }
}
