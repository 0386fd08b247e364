/**
 The access list of one transaction: which addresses and which (address, slot) pairs are warm. Slot sets
 sit in one array and every address holds the index of its own set, or -1; deleting the last slot of an
 address cuts the array at that index, which is right only when the set cut away is the last one.
 */
module AccessLists {
  type Address = nat
  type Hash = nat

  datatype Listing = Listing(addresses: map<Address, int>, slots: seq<set<Hash>>)

  const EMPTY := Listing(map[], [])

  /** Indices in range and not shared, no empty slot set, no slot set without an owner. */
  ghost predicate Valid(l: Listing) {
    InRange(l) && Distinct(l) && Filled(l) && AllOwned(l)
  }

  ghost predicate InRange(l: Listing) {
    forall a :: a in l.addresses ==> -1 <= l.addresses[a] < |l.slots|
  }

  ghost predicate Distinct(l: Listing) {
    forall a, b :: a in l.addresses && b in l.addresses && l.addresses[a] == l.addresses[b] != -1 ==> a == b
  }

  ghost predicate Filled(l: Listing) {
    forall i :: 0 <= i < |l.slots| ==> l.slots[i] != {}
  }

  ghost predicate AllOwned(l: Listing) {
    forall i :: 0 <= i < |l.slots| ==> Owned(l, i)
  }

  ghost predicate Owned(l: Listing, i: int) {
    exists a :: a in l.addresses && l.addresses[a] == i
  }

  predicate ContainsAddress(l: Listing, a: Address) {
    a in l.addresses
  }

  predicate ContainsSlot(l: Listing, a: Address, k: Hash) {
    a in l.addresses && 0 <= l.addresses[a] < |l.slots| && k in l.slots[l.addresses[a]]
  }

  function AddAddress(l: Listing, a: Address): Listing {
    if a in l.addresses then l else l.(addresses := l.addresses[a := -1])
  }

  function AddSlot(l: Listing, a: Address, k: Hash): Listing
    requires a in l.addresses ==> -1 <= l.addresses[a] < |l.slots|
  {
    if a !in l.addresses || l.addresses[a] == -1 then
      Listing(l.addresses[a := |l.slots|], l.slots + [{k}])
    else
      var i := l.addresses[a];
      l.(slots := l.slots[i := l.slots[i] + {k}])
  }

  /** Otherwise DeleteSlot panics. */
  predicate CanDeleteSlot(l: Listing, a: Address) {
    a in l.addresses && 0 <= l.addresses[a] < |l.slots|
  }

  function DeleteSlot(l: Listing, a: Address, k: Hash): Listing
    requires CanDeleteSlot(l, a)
  {
    var i := l.addresses[a];
    var rest := l.slots[i] - {k};
    if rest == {} then Listing(l.addresses[a := -1], l.slots[..i]) else l.(slots := l.slots[i := rest])
  }

  function DeleteAddress(l: Listing, a: Address): Listing {
    l.(addresses := l.addresses - {a})
  }

  /** The warm pairs of `m` are those of `l` and (a, k). */
  ghost predicate AddsPair(l: Listing, m: Listing, a: Address, k: Hash) {
    forall b, j :: ContainsSlot(m, b, j) <==> ContainsSlot(l, b, j) || (b == a && j == k)
  }

  /** The warm pairs of `m` are those of `l` but (a, k). */
  ghost predicate DropsPair(l: Listing, m: Listing, a: Address, k: Hash) {
    forall b, j :: ContainsSlot(m, b, j) <==> ContainsSlot(l, b, j) && !(b == a && j == k)
  }

  lemma AddAddressWarms(l: Listing, a: Address)
    requires Valid(l)
    ensures Valid(AddAddress(l, a))
    ensures forall b :: ContainsAddress(AddAddress(l, a), b) <==> ContainsAddress(l, b) || b == a
    ensures forall b, j :: ContainsSlot(AddAddress(l, a), b, j) <==> ContainsSlot(l, b, j)
  {
    var m := AddAddress(l, a);
    assert Distinct(m) by {
      hide Owned, AllOwned, Filled;
    }
    assert AllOwned(m) by {
      OwnersStay(l, m);
    }
  }

  /** A set that keeps its place keeps its owner. */
  lemma OwnersStay(l: Listing, m: Listing)
    requires AllOwned(l)
    requires forall b :: b in l.addresses && 0 <= l.addresses[b] < |l.slots| && l.addresses[b] < |m.slots| ==>
                         b in m.addresses && m.addresses[b] == l.addresses[b]
    ensures forall i :: 0 <= i < |l.slots| && i < |m.slots| ==> Owned(m, i)
  {
    forall i | 0 <= i < |l.slots| && i < |m.slots| ensures Owned(m, i) {
      assert Owned(l, i);
      var b :| b in l.addresses && l.addresses[b] == i;
      assert m.addresses[b] == i;
    }
  }

  /** AddSlot keeps the indexing sound and makes exactly the one pair warm. */
  lemma AddSlotWarms(l: Listing, a: Address, k: Hash)
    requires Valid(l)
    ensures Valid(AddSlot(l, a, k)) && AddsPair(l, AddSlot(l, a, k), a, k)
    ensures forall b :: ContainsAddress(AddSlot(l, a, k), b) <==> ContainsAddress(l, b) || b == a
  {
    hide Owned;
    var m := AddSlot(l, a, k);
    assert AllOwned(m) by {
      OwnersStay(l, m);
      assert |m.slots| > |l.slots| ==> Owned(m, |l.slots|) by {
        OwnedBy(m, a);
      }
    }
    assert Distinct(m) by {
      hide AllOwned, Filled;
    }
  }

  lemma OwnedBy(l: Listing, a: Address)
    requires a in l.addresses
    ensures Owned(l, l.addresses[a])
  {
  }

  /**
   DeleteSlot forgets exactly the one pair and keeps the indexing sound when the set keeps another slot or
   is the last of the array, and in no other case.
   */
  lemma DeleteSlotExact(l: Listing, a: Address, k: Hash)
    requires Valid(l) && ContainsSlot(l, a, k)
    ensures Valid(DeleteSlot(l, a, k)) && DropsPair(l, DeleteSlot(l, a, k), a, k)
            <==> l.slots[l.addresses[a]] != {k} || l.addresses[a] == |l.slots| - 1
  {
    hide Valid, DropsPair, DeleteSlot;
    if l.slots[l.addresses[a]] != {k} {
      DeleteOneOfMany(l, a, k);
    } else if l.addresses[a] == |l.slots| - 1 {
      DeleteLast(l, a, k);
    } else {
      DeleteInside(l, a, k);
    }
  }

  lemma DeleteOneOfMany(l: Listing, a: Address, k: Hash)
    requires Valid(l) && ContainsSlot(l, a, k) && l.slots[l.addresses[a]] != {k}
    ensures Valid(DeleteSlot(l, a, k)) && DropsPair(l, DeleteSlot(l, a, k), a, k)
  {
    hide Owned;
    var m, i := DeleteSlot(l, a, k), l.addresses[a];
    assert l.slots[i] - {k} != {} by {
      var j :| j in l.slots[i] && j != k;
      assert j in l.slots[i] - {k};
    }
    assert AllOwned(m) by {
      OwnersStay(l, m);
    }
  }

  lemma DeleteLast(l: Listing, a: Address, k: Hash)
    requires Valid(l) && ContainsSlot(l, a, k) && l.slots[l.addresses[a]] == {k} && l.addresses[a] == |l.slots| - 1
    ensures Valid(DeleteSlot(l, a, k)) && DropsPair(l, DeleteSlot(l, a, k), a, k)
  {
    hide Owned;
    var m := DeleteSlot(l, a, k);
    assert {k} - {k} == {};
    assert AllOwned(m) by {
      OwnersStay(l, m);
    }
    assert Distinct(m) by {
      hide AllOwned, Filled;
    }
  }

  /** Cutting the array anywhere else leaves the next set's owner with a dangling index. */
  lemma DeleteInside(l: Listing, a: Address, k: Hash)
    requires Valid(l) && ContainsSlot(l, a, k) && l.slots[l.addresses[a]] == {k} && l.addresses[a] < |l.slots| - 1
    ensures !Valid(DeleteSlot(l, a, k))
  {
    var m, i := DeleteSlot(l, a, k), l.addresses[a];
    assert {k} - {k} == {};
    assert Owned(l, i + 1);
    var b :| b in l.addresses && l.addresses[b] == i + 1;
    assert m.addresses[b] == i + 1 > |m.slots|;
  }

  /** The undo of AddSlot, run at once, gives the very same listing back. */
  lemma AddSlotUndone(l: Listing, a: Address, k: Hash)
    requires a in l.addresses ==> -1 <= l.addresses[a] < |l.slots|
    requires a in l.addresses && l.addresses[a] != -1 ==> l.slots[l.addresses[a]] != {}
    requires !ContainsSlot(l, a, k)
    ensures CanDeleteSlot(AddSlot(l, a, k), a)
    ensures var m := DeleteSlot(AddSlot(l, a, k), a, k);
            (if a in l.addresses then m else DeleteAddress(m, a)) == l
  {
    var n := AddSlot(l, a, k);
    var m := DeleteSlot(n, a, k);
    if a !in l.addresses || l.addresses[a] == -1 {
      assert n.slots[|l.slots|] - {k} == {};
      assert m.slots == l.slots;
      assert m.addresses == l.addresses[a := -1];
      assert (m.addresses - {a}) == l.addresses - {a};
    } else {
      var i := l.addresses[a];
      assert n.slots[i] - {k} == l.slots[i];
      assert m.slots == l.slots;
    }
  }

  class AccessList {
    var addresses: map<Address, int>
    var slots: seq<set<Hash>>

    function Contents(): Listing
      reads this
    {
      Listing(addresses, slots)
    }

    constructor ()
      ensures Contents() == EMPTY
    {
      addresses, slots := map[], [];
    }

    /** A new list for the next transaction. */
    method Clear()
      modifies this
      ensures Contents() == EMPTY
    {
      addresses, slots := map[], [];
    }

    method Contains(a: Address, k: Hash) returns (addressPresent: bool, slotPresent: bool)
      requires Valid(Contents())
      ensures addressPresent == ContainsAddress(Contents(), a)
      ensures slotPresent == ContainsSlot(Contents(), a, k)
    {
      if a !in addresses {
        return false, false;
      }
      var i := addresses[a];
      if i == -1 {
        return true, false;
      }
      return true, k in slots[i];
    }

    method Add(a: Address) returns (changed: bool)
      modifies this
      ensures Contents() == AddAddress(old(Contents()), a)
      ensures changed == !ContainsAddress(old(Contents()), a)
    {
      if a in addresses {
        return false;
      }
      addresses := addresses[a := -1];
      return true;
    }

    method Slot(a: Address, k: Hash) returns (addrChange: bool, slotChange: bool)
      requires a in addresses ==> -1 <= addresses[a] < |slots|
      modifies this
      ensures Contents() == AddSlot(old(Contents()), a, k)
      ensures addrChange == !ContainsAddress(old(Contents()), a)
      ensures slotChange == !ContainsSlot(old(Contents()), a, k)
    {
      if a !in addresses || addresses[a] == -1 {
        addrChange := a !in addresses;
        addresses := addresses[a := |slots|];
        slots := slots + [{k}];
        return addrChange, true;
      }
      var i := addresses[a];
      if k !in slots[i] {
        slots := slots[i := slots[i] + {k}];
        return false, true;
      }
      assert slots[i] + {k} == slots[i];
      return false, false;
    }

    method RemoveSlot(a: Address, k: Hash)
      requires CanDeleteSlot(Contents(), a)
      modifies this
      ensures Contents() == DeleteSlot(old(Contents()), a, k)
    {
      var i := addresses[a];
      slots := slots[i := slots[i] - {k}];
      if slots[i] == {} {
        slots := slots[..i];
        addresses := addresses[a := -1];
      }
    }

    method Remove(a: Address)
      modifies this
      ensures Contents() == DeleteAddress(old(Contents()), a)
    {
      addresses := addresses - {a};
    }
  }
}
