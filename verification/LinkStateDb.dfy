/**
 The link-state database of one router: what an arriving LSU, a timeout and an
 LSU of our own do to it. Sequence numbers and TTLs are 16 bits wide.
 */
module LinkStateDb {
  import opened Numbers
  import opened HopGraph
  import opened Reconcile

  /** The TTL every LSU starts with. */
  const INITIAL_TTL: U16 := 64

  datatype Lsu = Lsu(rid: U32, seqno: U16, ttl: U16, advs: seq<Advert>)

  datatype Record = Record(id: U32, seqno: U16, lastUpdate: int, interfaces: seq<Interface>)

  // --- what sequence numbers decide ---------------------------------------------

  /** The sequence number stored for each known router. */
  type Seqs = map<U32, U16>

  /** An LSU is taken if it is not our own and is new or newer than the stored one. */
  predicate Accepts(seqs: Seqs, ourId: U32, rid: U32, seqno: U16) {
    rid != ourId && (rid !in seqs || seqno > seqs[rid])
  }

  function Received(seqs: Seqs, ourId: U32, rid: U32, seqno: U16): Seqs {
    if Accepts(seqs, ourId, rid, seqno) then seqs[rid := seqno] else seqs
  }

  /** Our own number moves on with every LSU we send, wrapping at 16 bits. */
  function Advanced(seqs: Seqs, ourId: U32): (r: Seqs)
    requires ourId in seqs
  {
    seqs[ourId := (seqs[ourId] + 1) % U16_SIZE]
  }

  /** The TTL after one hop, in 16-bit arithmetic: a received 0 wraps around. */
  function NextTtl(ttl: U16): (t: U16)
    ensures ttl > 0 ==> t == ttl - 1
  {
    (ttl - 1) % U16_SIZE
  }

  ghost predicate Distinct(rs: seq<Record>) {
    forall i, j :: 0 <= i < j < |rs| ==> rs[i].id != rs[j].id
  }

  ghost function SeqsOf(rs: seq<Record>): (m: Seqs)
    ensures forall id :: id in m <==> exists i :: 0 <= i < |rs| && rs[i].id == id
  {
    if rs == [] then map[]
    else SeqsOf(rs[..|rs| - 1])[rs[|rs| - 1].id := rs[|rs| - 1].seqno]
  }

  lemma {:induction false} SeqsAt(rs: seq<Record>, i: nat)
    requires Distinct(rs) && i < |rs|
    ensures SeqsOf(rs)[rs[i].id] == rs[i].seqno
  {
    var n := |rs| - 1;
    if i < n {
      SeqsAt(rs[..n], i);
      assert rs[..n][i] == rs[i];
    }
  }

  lemma SeqsExtensional(rs: seq<Record>, m: Seqs)
    requires Distinct(rs)
    requires forall i :: 0 <= i < |rs| ==> rs[i].id in m && m[rs[i].id] == rs[i].seqno
    requires forall id :: id in m ==> exists i :: 0 <= i < |rs| && rs[i].id == id
    ensures SeqsOf(rs) == m
  {
    forall id | id in SeqsOf(rs) ensures id in m && SeqsOf(rs)[id] == m[id] {
      var i :| 0 <= i < |rs| && rs[i].id == id;
      SeqsAt(rs, i);
    }
  }

  /** Replacing the record at `i`, or appending one for an unknown id, stores its sequence number. */
  lemma SeqsUpdated(rs: seq<Record>, i: nat, r: Record)
    requires Distinct(rs) && i < |rs| && rs[i].id == r.id
    ensures Distinct(rs[i := r]) && SeqsOf(rs[i := r]) == SeqsOf(rs)[r.id := r.seqno]
  {
    var n := rs[i := r];
    forall j | 0 <= j < |n| ensures n[j].id in SeqsOf(rs)[r.id := r.seqno] && SeqsOf(rs)[r.id := r.seqno][n[j].id] == n[j].seqno {
      SeqsAt(rs, j);
    }
    var m := SeqsOf(rs)[r.id := r.seqno];
    forall id | id in m ensures exists j :: 0 <= j < |n| && n[j].id == id {
      var j :| 0 <= j < |rs| && rs[j].id == id;
      assert n[j].id == id;
    }
    SeqsExtensional(n, SeqsOf(rs)[r.id := r.seqno]);
  }

  /** Our interfaces as an LSU advertises them. */
  function Adverts(list: seq<Interface>): (advs: seq<Advert>)
    ensures |advs| == |list| && forall i :: 0 <= i < |list| ==> advs[i] == Key(list[i])
  {
    if list == [] then [] else Adverts(list[..|list| - 1]) + [Key(list[|list| - 1])]
  }

  /** Our record's interfaces are what is advertised; its sequence number and time, and nothing else, have moved on. */
  ghost predicate Originated(was: seq<Record>, after: seq<Record>, ourId: U32, advs: seq<Advert>, now: int) {
    exists i ::
      && 0 <= i < |was| && was[i].id == ourId
      && advs == Adverts(was[i].interfaces)
      && after == was[i := Record(ourId, if was[i].seqno == 65535 then 0 else was[i].seqno + 1, now, was[i].interfaces)]
  }

  /** A record with its sequence number moved on at time `now`. */
  function Moved(r: Record, now: int): Record {
    r.(seqno := (r.seqno + 1) % U16_SIZE, lastUpdate := now)
  }

  lemma Originates(rs: seq<Record>, at: nat, ourId: U32, now: int)
    requires Distinct(rs) && at < |rs| && rs[at].id == ourId
    ensures Distinct(rs[at := Moved(rs[at], now)])
    ensures SeqsOf(rs[at := Moved(rs[at], now)]) == Advanced(SeqsOf(rs), ourId)
    ensures Originated(rs, rs[at := Moved(rs[at], now)], ourId, Adverts(rs[at].interfaces), now)
  {
    var r, m := Moved(rs[at], now), SeqsOf(rs);
    SeqsAt(rs, at);
    SeqsUpdated(rs, at, r);
    AdvancedTo(m, ourId, r.seqno);
  }

  lemma AdvancedTo(m: Seqs, ourId: U32, seqno: U16)
    requires ourId in m && seqno == (m[ourId] + 1) % U16_SIZE
    ensures Advanced(m, ourId) == m[ourId := seqno]
  {
  }

  /** A reconciled interface list, as `PopulateInterfaceList` leaves it. */
  ghost predicate Reconciled(was: seq<Interface>, advs: seq<Advert>, now: seq<Interface>) {
    Keys(now) == if was == [] then MaskedSet(advs) else MaskedSet(advs) * (Keys(was) + RawSet(advs))
  }

  lemma ReconciledKeys(was: seq<Interface>, advs: seq<Advert>, now: seq<Interface>)
    requires Reconciled(was, advs, now)
    ensures Keys(now) == Reconciliation(Keys(was), advs)
  {
    KeysEmpty(was);
  }

  /** The records that are our own or recent. */
  function Live(rs: seq<Record>, ourId: U32, now: int, limit: int): (r: seq<Record>) {
    if rs == [] then []
    else
      var last := rs[|rs| - 1];
      var front := Live(rs[..|rs| - 1], ourId, now, limit);
      if last.id != ourId && now - last.lastUpdate > limit then front else front + [last]
  }

  lemma {:induction false} LiveMembers(rs: seq<Record>, ourId: U32, now: int, limit: int, x: Record)
    ensures x in Live(rs, ourId, now, limit) <==> x in rs && (x.id == ourId || now - x.lastUpdate <= limit)
  {
    if rs != [] {
      LiveMembers(rs[..|rs| - 1], ourId, now, limit, x);
    }
  }

  lemma {:induction false} LiveDistinct(rs: seq<Record>, ourId: U32, now: int, limit: int)
    requires Distinct(rs)
    ensures Distinct(Live(rs, ourId, now, limit))
  {
    if rs != [] {
      var n := |rs| - 1;
      LiveDistinct(rs[..n], ourId, now, limit);
      var front := Live(rs[..n], ourId, now, limit);
      forall i | 0 <= i < |front| ensures front[i].id != rs[n].id {
        LiveMembers(rs[..n], ourId, now, limit, front[i]);
      }
    }
  }

  /** Records that survive keep their sequence numbers. */
  lemma LiveKeeps(rs: seq<Record>, ourId: U32, now: int, limit: int, id: U32)
    requires Distinct(rs) && id in SeqsOf(Live(rs, ourId, now, limit))
    ensures id in SeqsOf(rs) && SeqsOf(Live(rs, ourId, now, limit))[id] == SeqsOf(rs)[id]
  {
    var r := Live(rs, ourId, now, limit);
    LiveDistinct(rs, ourId, now, limit);
    var i :| 0 <= i < |r| && r[i].id == id;
    LiveMembers(rs, ourId, now, limit, r[i]);
    var j :| 0 <= j < |rs| && rs[j] == r[i];
    SeqsAt(r, i);
    SeqsAt(rs, j);
  }

  method RemoveTimedOut(rs: seq<Record>, ourId: U32, now: int, limit: int) returns (kept: seq<Record>, timedOut: bool)
    ensures kept == Live(rs, ourId, now, limit)
    ensures timedOut <==> kept != rs
  {
    kept, timedOut := [], false;
    for k := 0 to |rs|
      invariant kept == Live(rs[..k], ourId, now, limit)
      invariant |kept| <= k && (timedOut <==> |kept| < k) && (!timedOut ==> kept == rs[..k])
    {
      assert rs[..k + 1][..k] == rs[..k];
      if rs[k].id != ourId && now - rs[k].lastUpdate > limit {
        timedOut := true;
      } else {
        kept := kept + [rs[k]];
      }
    }
    assert rs[..|rs|] == rs;
  }

  class Database {
    const ourId: U32
    var routers: seq<Record>

    /** Ids are distinct and our own record is present. */
    ghost predicate Valid()
      reads this
    {
      Distinct(routers) && exists i :: 0 <= i < |routers| && routers[i].id == ourId
    }

    ghost function Known(): Seqs
      reads this
    {
      SeqsOf(routers)
    }

    constructor (ourId: U32, interfaces: seq<Interface>, now: int)
      ensures Valid() && Known() == map[ourId := 0] && this.ourId == ourId
    {
      this.ourId := ourId;
      routers := [Record(ourId, 0, now, interfaces)];
      new;
      assert routers[0].id == ourId;
    }

    method Find(rid: U32) returns (at: int)
      ensures at == -1 ==> forall i :: 0 <= i < |routers| ==> routers[i].id != rid
      ensures at != -1 ==> 0 <= at < |routers| && routers[at].id == rid
    {
      for k := 0 to |routers|
        invariant forall i :: 0 <= i < k ==> routers[i].id != rid
      {
        if routers[k].id == rid {
          return k;
        }
      }
      return -1;
    }

    /** Takes a newer LSU of a known router. */
    method Refresh(at: nat, p: Lsu, now: int) returns (changed: bool)
      requires Valid() && at < |routers| && routers[at].id == p.rid
      modifies this
      ensures Valid() && Known() == old(Known())[p.rid := p.seqno]
      ensures |routers| == |old(routers)|
      ensures forall i :: 0 <= i < |routers| && i != at ==> routers[i] == old(routers)[i]
      ensures routers[at].lastUpdate == now
      ensures Reconciled(old(routers)[at].interfaces, p.advs, routers[at].interfaces)
      ensures changed <==> old(routers)[at].interfaces == [] || Keys(old(routers)[at].interfaces) != MaskedSet(p.advs)
    {
      var list;
      list, changed := PopulateInterfaceList(routers[at].interfaces, p.advs);
      var r := Record(p.rid, p.seqno, now, list);
      SeqsUpdated(routers, at, r);
      routers := routers[at := r];
      ghost var i :| 0 <= i < |old(routers)| && old(routers)[i].id == ourId;
      assert routers[i].id == ourId;
    }

    /** Takes the first LSU of an unknown router. */
    method AddNewRouter(p: Lsu, now: int)
      requires Valid() && forall i :: 0 <= i < |routers| ==> routers[i].id != p.rid
      modifies this
      ensures Valid() && Known() == old(Known())[p.rid := p.seqno]
      ensures |routers| == |old(routers)| + 1 && routers[..|old(routers)|] == old(routers)
      ensures Keys(routers[|old(routers)|].interfaces) == MaskedSet(p.advs) && routers[|old(routers)|].lastUpdate == now
    {
      var list, _ := PopulateInterfaceList([], p.advs);
      routers := routers + [Record(p.rid, p.seqno, now, list)];
      assert routers[..|routers| - 1] == old(routers);
      ghost var i :| 0 <= i < |old(routers)| && old(routers)[i].id == ourId;
      assert routers[i].id == ourId;
    }

    /**
     One LSU arrives. `forward` says whether a copy with TTL `NextTtl(p.ttl)` goes
     to the other neighbours, `update` whether our own LSU is sent out as well.
     */
    method ProcessLsu(p: Lsu, now: int) returns (forward: bool, update: bool)
      requires Valid()
      modifies this
      ensures Valid()
      ensures Known() == Received(old(Known()), ourId, p.rid, p.seqno)
      ensures forward <==> Accepts(old(Known()), ourId, p.rid, p.seqno) && NextTtl(p.ttl) > 0
      ensures !Accepts(old(Known()), ourId, p.rid, p.seqno) ==> routers == old(routers) && !forward && !update
      ensures |old(routers)| <= |routers|
      ensures forall i :: 0 <= i < |old(routers)| && old(routers)[i].id != p.rid ==> routers[i] == old(routers)[i]
      ensures Accepts(old(Known()), ourId, p.rid, p.seqno) ==>
        forall i :: 0 <= i < |old(routers)| && old(routers)[i].id == p.rid ==>
          && routers[i].lastUpdate == now
          && Reconciled(old(routers)[i].interfaces, p.advs, routers[i].interfaces)
          && (update <==> old(routers)[i].interfaces == [] || Keys(old(routers)[i].interfaces) != MaskedSet(p.advs))
      ensures p.rid !in old(Known()) && p.rid != ourId ==>
        && update && |routers| == |old(routers)| + 1
        && Keys(routers[|old(routers)|].interfaces) == MaskedSet(p.advs) && routers[|old(routers)|].lastUpdate == now
    {
      forward, update := false, false;
      if p.rid == ourId {
        return;
      }
      var rebroadcast := false;
      var at := Find(p.rid);
      if at != -1 {
        SeqsAt(routers, at);
        if routers[at].seqno != p.seqno && p.seqno > routers[at].seqno {
          rebroadcast := true;
          update := Refresh(at, p, now);
        }
      } else {
        rebroadcast := true;
        AddNewRouter(p, now);
        update := true;
      }
      forward := rebroadcast && NextTtl(p.ttl) > 0;
    }

    /** Our own LSU: it carries the stored sequence number, which then moves on. */
    method ConstructLsu(now: int) returns (p: Lsu)
      requires Valid()
      modifies this
      ensures Valid()
      ensures p.rid == ourId && p.ttl == 64 && p.seqno == old(Known())[ourId]
      ensures Known() == Advanced(old(Known()), ourId)
      ensures Originated(old(routers), routers, ourId, p.advs, now)
    {
      var at := Find(ourId);
      SeqsAt(routers, at);
      var r := routers[at];
      p := Lsu(ourId, r.seqno, INITIAL_TTL, Adverts(r.interfaces));
      Originates(routers, at, ourId, now);
      routers := routers[at := Moved(r, now)];
      assert routers[at].id == ourId;
    }

    /** Drops every record, but never our own, that has not been refreshed for three intervals. */
    method Expire(now: int, interval: nat) returns (timedOut: bool)
      requires Valid()
      modifies this
      ensures Valid()
      ensures routers == Live(old(routers), ourId, now, 3 * interval)
      ensures timedOut <==> routers != old(routers)
      ensures ourId in Known() && forall id :: id in Known() ==> id in old(Known()) && Known()[id] == old(Known())[id]
    {
      var kept;
      kept, timedOut := RemoveTimedOut(routers, ourId, now, 3 * interval);
      LiveDistinct(routers, ourId, now, 3 * interval);
      routers := kept;
      forall id | id in Known() ensures id in old(Known()) && Known()[id] == old(Known())[id] {
        LiveKeeps(old(routers), ourId, now, 3 * interval, id);
      }
      ghost var i :| 0 <= i < |old(routers)| && old(routers)[i].id == ourId;
      LiveMembers(old(routers), ourId, now, 3 * interval, old(routers)[i]);
    }
  }
}
