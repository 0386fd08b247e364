/** The dynamic gas functions of SSTORE: they price the write and settle its refund before the write is made. */
module SstoreGas {
  import opened Common
  import opened AccessLists
  import opened StateSpec
  import opened Sstore
  import opened StateDB
  import Journal

  const SENTRY := 2300
  const COLD_SLOAD := 2100

  /** Refund operations do not look at caches. */
  lemma RefundSame(db: Store, s: State, t: State, amount: int)
    requires Same(db, s, t)
    ensures Same(db, Change(s, amount), Change(t, amount))
  {
    hide SameObject, FindTransient;
  }

  /** `t` is what the calls `xs` on the refund counter make of `s`, up to caches. */
  ghost predicate Settled(db: Store, s: State, xs: seq<int>, t: State) {
    Same(db, ChangeAll(s, xs), t)
  }

  lemma SettledNone(db: Store, s: State, t: State)
    requires Same(db, s, t)
    ensures Settled(db, s, [], t)
  {
  }

  lemma SettledOne(db: Store, s: State, t: State, x: int)
    requires Same(db, s, t)
    ensures Settled(db, s, [x], Change(t, x))
  {
    hide Same;
    RefundSame(db, s, t, x);
    assert ChangeAll(Change(s, x), [x][1..]) == Change(s, x);
  }

  lemma SettledTwo(db: Store, s: State, t: State, x: int, y: int)
    requires Same(db, s, t)
    ensures Settled(db, s, [x, y], Change(Change(t, x), y))
  {
    hide Same;
    assert [x, y][1..] == [y];
    RefundSame(db, s, t, x);
    SettledOne(db, Change(s, x), Change(t, x), y);
  }

  /** The part all net-metering functions share. */
  method NetGas(sdb: Database, p: Pricing, a: Address, k: Hash, value: Hash) returns (cost: nat)
    requires sdb.Sound()
    modifies sdb`objects, sdb`refund, sdb`journal
    ensures var s := old(sdb.Contents());
            var original, current := GetCommittedState(sdb.db, s, a, k), GetState(sdb.db, s, a, k);
            && cost == Cost(p, original, current, value)
            && Settled(sdb.db, s, Refunds(p, original, current, value), sdb.Contents())
  {
    hide Same, Settled, GetState, GetCommittedState;
    ghost var s := sdb.Contents();
    var current := sdb.Slot(a, k);
    if current == value {
      SettledNone(sdb.db, s, sdb.Contents());
      return p.noop;
    }
    ghost var t := sdb.Contents();
    SameCommitted(sdb.db, s, t, a, k);
    var original := sdb.CommittedSlot(a, k);
    Journal.SameTransitive(sdb.db, s, t, sdb.Contents());
    ghost var u := sdb.Contents();
    SettledNone(sdb.db, s, u);
    if original == current {
      if original == 0 {
        return p.init;
      }
      if value == 0 {
        sdb.ChangeRefund(p.clear);
        SettledOne(sdb.db, s, u, p.clear);
      }
      return p.clean;
    }
    DirtyRefunds(sdb.db, p, s, u, original, current, value);
    if original != 0 {
      if current == 0 {
        sdb.ChangeRefund(0 - p.clear);
      } else if value == 0 {
        sdb.ChangeRefund(p.clear);
      }
    }
    if original == value {
      if original == 0 {
        sdb.ChangeRefund(p.resetZero);
      } else {
        sdb.ChangeRefund(p.reset);
      }
    }
    return p.noop;
  }

  /** The state after a write to a slot that was already dirty. */
  ghost function DirtyState(p: Pricing, u: State, original: Hash, current: Hash, value: Hash): State {
    var v := if original != 0 && current == 0 then Change(u, 0 - p.clear)
             else if original != 0 && value == 0 then Change(u, p.clear) else u;
    if original == value then Change(v, if original == 0 then p.resetZero else p.reset) else v
  }

  lemma DirtyRefunds(db: Store, p: Pricing, s: State, u: State, original: Hash, current: Hash, value: Hash)
    requires Same(db, s, u) && current != value && original != current
    ensures Settled(db, s, Refunds(p, original, current, value), DirtyState(p, u, original, current, value))
  {
    hide Same, Settled;
    SettledNone(db, s, u);
    var xs := Refunds(p, original, current, value);
    if |xs| == 2 {
      assert xs == [xs[0], xs[1]];
      SettledTwo(db, s, u, xs[0], xs[1]);
    } else if |xs| == 1 {
      assert xs == [xs[0]];
      SettledOne(db, s, u, xs[0]);
    }
  }

  lemma SameCommitted(db: Store, s: State, t: State, a: Address, k: Hash)
    requires Same(db, s, t)
    ensures GetCommittedState(db, s, a, k) == GetCommittedState(db, t, a, k)
  {
    assert SameObject(db, a, Find(s.objects, a), Find(t.objects, a));
  }

  /** gasSStore: before net metering, or EIP-1283. */
  method GasSStore(sdb: Database, legacy: bool, a: Address, k: Hash, value: Hash) returns (cost: nat)
    requires sdb.Sound()
    modifies sdb`objects, sdb`refund, sdb`journal
    ensures var s := old(sdb.Contents());
            var original, current := GetCommittedState(sdb.db, s, a, k), GetState(sdb.db, s, a, k);
            if legacy then
              && cost == (if current == 0 && value != 0 then 20000 else 5000)
              && Settled(sdb.db, s, if current != 0 && value == 0 then [15000] else [], sdb.Contents())
            else
              cost == Cost(EIP1283, original, current, value)
              && Settled(sdb.db, s, Refunds(EIP1283, original, current, value), sdb.Contents())
  {
    hide Same, Settled, GetState, GetCommittedState, Cost, Refunds;
    if !legacy {
      cost := NetGas(sdb, EIP1283, a, k, value);
      return;
    }
    ghost var s := sdb.Contents();
    var current := sdb.Slot(a, k);
    SettledNone(sdb.db, s, sdb.Contents());
    SettledOne(sdb.db, s, sdb.Contents(), 15000);
    if current == 0 && value != 0 {
      return 20000;
    } else if current != 0 && value == 0 {
      sdb.ChangeRefund(15000);
      return 5000;
    } else {
      return 5000;
    }
  }

  /** gasSStoreEIP2200: None when the gas left does not exceed the sentry. */
  method GasSStoreEIP2200(sdb: Database, gas: nat, a: Address, k: Hash, value: Hash) returns (r: Option<nat>)
    requires sdb.Sound()
    modifies sdb`objects, sdb`refund, sdb`journal
    ensures var s := old(sdb.Contents());
            var original, current := GetCommittedState(sdb.db, s, a, k), GetState(sdb.db, s, a, k);
            if gas <= SENTRY then r == None && sdb.Contents() == s
            else
              r == Some(Cost(EIP2200, original, current, value))
              && Settled(sdb.db, s, Refunds(EIP2200, original, current, value), sdb.Contents())
  {
    hide Settled, GetState, GetCommittedState, Cost, Refunds;
    if gas <= SENTRY {
      return None;
    }
    var cost := NetGas(sdb, EIP2200, a, k, value);
    return Some(cost);
  }

  /**
   makeGasSStoreFunc: EIP-2929 with a clearing refund of 15000, EIP-3529 with 4800. A cold slot costs
   2100 more and becomes warm; the address must be warm already, or the function panics.
   */
  method GasSStoreEIP2929(sdb: Database, p: Pricing, gas: nat, a: Address, k: Hash, value: Hash)
    returns (r: Option<nat>)
    requires Valid(sdb.Contents().warm) && ContainsAddress(sdb.Contents().warm, a)
    requires p == EIP2929.(clear := p.clear)
    modifies sdb, sdb.accessList
    ensures var s := old(sdb.Contents());
            var original, current := GetCommittedState(sdb.db, s, a, k), GetState(sdb.db, s, a, k);
            if gas <= SENTRY then r == None && sdb.Contents() == s
            else
              r == Some(Cost(p, original, current, value) + if ContainsSlot(s.warm, a, k) then 0 else COLD_SLOAD)
              && Settled(sdb.db, WarmSlot(s, a, k), Refunds(p, original, current, value), sdb.Contents())
  {
    hide Settled, Cost, Refunds, Valid, WarmSlot, CommittedOf;
    if gas <= SENTRY {
      return None;
    }
    ghost var s := sdb.Contents();
    Journal.ValidRange(s.warm);
    WarmSlotRange(s, a, k);
    var cost := 0;
    var addrPresent, slotPresent := sdb.accessList.Contains(a, k);
    if !slotPresent {
      cost := COLD_SLOAD;
      sdb.WarmStorage(a, k);
    } else {
      WarmAlready(s, a, k);
    }
    var net := NetGas(sdb, p, a, k, value);
    return Some(cost + net);
  }

  lemma WarmSlotRange(s: State, a: Address, k: Hash)
    requires Valid(s.warm) && InRange(s.warm)
    ensures InRange(WarmSlot(s, a, k).warm) && WarmSlot(s, a, k).objects == s.objects
  {
    AddSlotWarms(s.warm, a, k);
  }

  lemma WarmAlready(s: State, a: Address, k: Hash)
    requires InRange(s.warm) && ContainsSlot(s.warm, a, k)
    ensures WarmSlot(s, a, k) == s
  {
    Journal.AddSlotIdle(s.warm, a, k);
  }
}
