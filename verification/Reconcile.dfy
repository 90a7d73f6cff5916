/**
 Bringing a router's stored interface list in line with the advertisements of
 an LSU. An advertisement that is new to a nonempty list is stored with its
 subnet as it arrived, not masked.
 */
module Reconcile {
  import opened Numbers
  import opened HopGraph

  /** A link-state advertisement. */
  datatype Advert = Advert(subnet: U32, mask: U32, routerId: U32)

  function Masked(a: Advert): Advert {
    a.(subnet := Under(a.subnet, a.mask))
  }

  /** Masking keeps mask and router, and of the subnet the bits under the mask. */
  lemma MaskedBits(a: Advert, n: nat)
    requires n < 32
    ensures Masked(a).mask == a.mask && Masked(a).routerId == a.routerId
    ensures Bit(Masked(a).subnet, n) == if Bit(a.subnet, n) == 1 && Bit(a.mask, n) == 1 then 1 else 0
  {
    AndBits(a.subnet, a.mask, 32, n);
  }

  function Key(i: Interface): Advert {
    Advert(i.subnet, i.mask, i.routerId)
  }

  /** What a list of interfaces says, apart from which adjacencies are active. */
  function Keys(list: seq<Interface>): set<Advert> {
    set i | i in list :: Key(i)
  }

  function MaskedSet(advs: seq<Advert>): set<Advert> {
    set a | a in advs :: Masked(a)
  }

  function RawSet(advs: seq<Advert>): set<Advert> {
    set a | a in advs :: a
  }

  function Stored(a: Advert): (i: Interface) {
    Interface(a.subnet, a.mask, a.routerId, false)
  }

  method Matches(list: seq<Interface>, a: Advert) returns (found: bool)
    ensures found <==> Masked(a) in Keys(list)
  {
    for k := 0 to |list|
      invariant forall i :: 0 <= i < k ==> Key(list[i]) != Masked(a)
    {
      if Key(list[k]) == Masked(a) {
        return true;
      }
    }
    return false;
  }

  method IsAdvertised(i: Interface, advs: seq<Advert>) returns (found: bool)
    ensures found <==> Key(i) in MaskedSet(advs)
  {
    for k := 0 to |advs|
      invariant forall n :: 0 <= n < k ==> Masked(advs[n]) != Key(i)
    {
      if Key(i) == Masked(advs[k]) {
        return true;
      }
    }
    return false;
  }

  lemma KeysOfSum(list: seq<Interface>, i: Interface)
    ensures Keys(list + [i]) == Keys(list) + {Key(i)}
  {
    forall x | x in Keys(list) + {Key(i)} ensures x in Keys(list + [i]) {
      if x in Keys(list) {
        var j :| j in list && Key(j) == x;
        assert j in list + [i];
      } else {
        assert i in list + [i];
      }
    }
  }

  lemma MaskedSetOfSum(advs: seq<Advert>, a: Advert)
    ensures MaskedSet(advs + [a]) == MaskedSet(advs) + {Masked(a)}
    ensures RawSet(advs + [a]) == RawSet(advs) + {a}
  {
    assert a in advs + [a];
    forall x | x in MaskedSet(advs) ensures x in MaskedSet(advs + [a]) {
      var b :| b in advs && Masked(b) == x;
      assert b in advs + [a];
    }
    forall x | x in RawSet(advs) ensures x in RawSet(advs + [a]) {
      assert x in advs + [a];
    }
  }

  /** Fills an empty list. */
  method AddAll(advs: seq<Advert>) returns (list: seq<Interface>)
    ensures Keys(list) == MaskedSet(advs) && forall i :: i in list ==> !i.isActive
  {
    list := [];
    for k := 0 to |advs|
      invariant forall i :: i in list ==> !i.isActive
      invariant Keys(list) == MaskedSet(advs[..k])
    {
      assert advs[..k + 1] == advs[..k] + [advs[k]];
      MaskedSetOfSum(advs[..k], advs[k]);
      KeysOfSum(list, Stored(Masked(advs[k])));
      list := list + [Stored(Masked(advs[k]))];
    }
    assert advs[..|advs|] == advs;
  }

  /** Appends the advertisements that the list does not hold. */
  method AddMissing(was: seq<Interface>, advs: seq<Advert>) returns (list: seq<Interface>, changed: bool)
    ensures Keys(was) <= Keys(list) <= Keys(was) + RawSet(advs)
    ensures forall a :: a in advs && Masked(a) == a ==> a in Keys(list)
    ensures changed <==> !(MaskedSet(advs) <= Keys(was))
    ensures !changed ==> list == was
    ensures was <= list && forall n :: |was| <= n < |list| ==> !list[n].isActive
  {
    list, changed := was, false;
    for k := 0 to |advs|
      invariant was <= list && forall n :: |was| <= n < |list| ==> !list[n].isActive
      invariant Keys(was) <= Keys(list) <= Keys(was) + RawSet(advs[..k])
      invariant forall n :: 0 <= n < k && Masked(advs[n]) == advs[n] ==> advs[n] in Keys(list)
      invariant changed <==> !(MaskedSet(advs[..k]) <= Keys(was))
      invariant !changed ==> list == was
    {
      assert advs[..k + 1] == advs[..k] + [advs[k]];
      MaskedSetOfSum(advs[..k], advs[k]);
      var known := Matches(list, advs[k]);
      if !known {
        KeysOfSum(list, Stored(advs[k]));
        list := list + [Stored(advs[k])];
        changed := true;
      }
    }
    assert advs[..|advs|] == advs;
  }

  /** Drops the interfaces that are no longer advertised. */
  method RemoveStale(was: seq<Interface>, advs: seq<Advert>) returns (list: seq<Interface>, changed: bool)
    ensures Keys(list) == Keys(was) * MaskedSet(advs)
    ensures changed <==> !(Keys(was) <= MaskedSet(advs))
    ensures forall i :: multiset(list)[i] == if Key(i) in MaskedSet(advs) then multiset(was)[i] else 0
  {
    list, changed := [], false;
    for k := 0 to |was|
      invariant forall i :: multiset(list)[i] == if Key(i) in MaskedSet(advs) then multiset(was[..k])[i] else 0
      invariant Keys(list) == Keys(was[..k]) * MaskedSet(advs)
      invariant changed <==> !(Keys(was[..k]) <= MaskedSet(advs))
    {
      assert was[..k + 1] == was[..k] + [was[k]];
      KeysOfSum(was[..k], was[k]);
      var found := IsAdvertised(was[k], advs);
      if found {
        KeysOfSum(list, was[k]);
        list := list + [was[k]];
      } else {
        changed := true;
      }
    }
    assert was[..|was|] == was;
  }

  /**
   The reconciled list holds, of the masked advertisements, those already stored
   and those that arrived masked. It reports a change exactly when the old list
   was empty or said something else than the masked advertisements.
   */
  method PopulateInterfaceList(was: seq<Interface>, advs: seq<Advert>) returns (list: seq<Interface>, changed: bool)
    ensures was == [] ==> Keys(list) == MaskedSet(advs)
    ensures was != [] ==> Keys(list) == MaskedSet(advs) * (Keys(was) + RawSet(advs))
    ensures changed <==> was == [] || Keys(was) != MaskedSet(advs)
    ensures forall i :: i in list ==> i in was || !i.isActive
    ensures forall i :: i in was && Key(i) in MaskedSet(advs) ==> multiset(list)[i] >= multiset(was)[i]
  {
    if was == [] {
      list := AddAll(advs);
      changed := true;
    } else {
      var added, removed;
      list, added := AddMissing(was, advs);
      ghost var mid := list;
      assert mid == was + mid[|was|..];
      list, removed := RemoveStale(list, advs);
      changed := added || removed;
      forall x | x in MaskedSet(advs) * RawSet(advs) ensures x in Keys(mid) {
        var a :| a in advs && Masked(a) == x;
        MaskedTwice(a);
      }
    }
  }

  lemma MaskedTwice(a: Advert)
    ensures Masked(Masked(a)) == Masked(a)
  {
    UnderTwice(a.subnet, a.mask);
  }

  /** What the reconciled list says, in terms of what the old one said. */
  function Reconciliation(was: set<Advert>, advs: seq<Advert>): set<Advert> {
    if was == {} then MaskedSet(advs) else MaskedSet(advs) * (was + RawSet(advs))
  }

  lemma KeysEmpty(list: seq<Interface>)
    ensures Keys(list) == {} <==> list == []
  {
    if list != [] {
      assert Key(list[0]) in Keys(list);
    }
  }

  ghost predicate AllMasked(advs: seq<Advert>) {
    forall a :: a in advs ==> Masked(a) == a
  }

  /** Masked advertisements replace whatever was stored. */
  lemma ReconciliationMasked(was: set<Advert>, advs: seq<Advert>)
    requires AllMasked(advs)
    ensures Reconciliation(was, advs) == RawSet(advs)
  {
    assert MaskedSet(advs) == RawSet(advs) by {
      forall x | x in RawSet(advs) ensures x in MaskedSet(advs) {
        assert x in advs && Masked(x) == x;
      }
    }
  }

  /** For which inputs the new list says exactly what the LSU advertises. */
  lemma AgreementCondition(was: seq<Interface>, advs: seq<Advert>)
    ensures MaskedSet(advs) * (Keys(was) + RawSet(advs)) == MaskedSet(advs) <==>
      forall a :: a in advs ==> Masked(a) in Keys(was) || Masked(a) in advs
  {
    if forall a :: a in advs ==> Masked(a) in Keys(was) || Masked(a) in advs {
      forall x | x in MaskedSet(advs) ensures x in Keys(was) + RawSet(advs) {
        var a :| a in advs && Masked(a) == x;
        assert Masked(a) in Keys(was) || Masked(a) in advs;
      }
    }
    if MaskedSet(advs) * (Keys(was) + RawSet(advs)) == MaskedSet(advs) {
      forall a | a in advs ensures Masked(a) in Keys(was) || Masked(a) in advs {
        assert Masked(a) in MaskedSet(advs);
      }
    }
  }

  /** An advertisement that is new and not masked is stored, found unadvertised, and dropped again. */
  lemma UnmaskedIsLost()
    ensures var was := [Interface(0x0A000000, 0xFF000000, 1, true)];
            var advs := [Advert(0x0A000000, 0xFF000000, 1), Advert(0x0B000001, 0xFF000000, 2)];
            && Masked(advs[1]) in MaskedSet(advs)
            && Masked(advs[1]) !in MaskedSet(advs) * (Keys(was) + RawSet(advs))
  {
    var was := [Interface(0x0A000000, 0xFF000000, 1, true)];
    var advs := [Advert(0x0A000000, 0xFF000000, 1), Advert(0x0B000001, 0xFF000000, 2)];
    UnderEightBits(0x0B, 1);
    assert Masked(advs[1]) == Advert(0x0B000000, 0xFF000000, 2);
    assert advs[1] in advs;
    assert forall x :: x in Keys(was) ==> x == Advert(0x0A000000, 0xFF000000, 1);
  }
}
