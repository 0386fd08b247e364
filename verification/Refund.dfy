/**
 The refund counter covers every slot that was cleared: refund >= clear * (slots originally non-zero, now
 zero). That is what keeps SubRefund from going below zero, and nothing weaker does.
 */
module Refund {
  import opened Common
  import opened AccessLists
  import opened StateSpec
  import opened Sstore
  import Journal

  /** The slot was committed non-zero and is zero now. */
  predicate IsCleared(db: Store, s: State, a: Address, k: Hash) {
    k in Get(s, a).dirty && Get(s, a).dirty[k] == 0 && CommittedOf(db, a, Get(s, a), k) != 0
  }

  ghost function Cleared(db: Store, s: State): set<(Address, Hash)> {
    set a, k | a in s.objects && k in s.objects[a].dirty && IsCleared(db, s, a, k) :: (a, k)
  }

  lemma ClearedMeans(db: Store, s: State, a: Address, k: Hash)
    ensures (a, k) in Cleared(db, s) <==> IsCleared(db, s, a, k)
    ensures IsCleared(db, s, a, k) <==> GetState(db, s, a, k) == 0 && GetCommittedState(db, s, a, k) != 0
  {
  }

  ghost predicate Covered(db: Store, p: Pricing, s: State) {
    s.refund >= p.clear * |Cleared(db, s)|
  }

  lemma SameSet(db: Store, s: State, t: State)
    requires forall a, k :: IsCleared(db, s, a, k) == IsCleared(db, t, a, k)
    ensures Cleared(db, s) == Cleared(db, t)
  {
    hide IsCleared;
    forall a: Address, k: Hash ensures (a, k) in Cleared(db, s) <==> (a, k) in Cleared(db, t) {
      ClearedMeans(db, s, a, k);
      ClearedMeans(db, t, a, k);
    }
  }

  lemma SameCovered(db: Store, p: Pricing, s: State, t: State)
    requires Same(db, s, t) && Covered(db, p, s)
    ensures Covered(db, p, t)
  {
    hide Cleared;
    forall a, k ensures IsCleared(db, s, a, k) == IsCleared(db, t, a, k) {
      hide AccountOf, CodeOf, CommittedOf;
      assert SameObject(db, a, Find(s.objects, a), Find(t.objects, a));
    }
    SameSet(db, s, t);
  }

  // ---------------------------------------------------------------- one write

  function Flag(original: Hash, x: Hash): int {
    if original != 0 && x == 0 then 1 else 0
  }

  /** A write takes from the counter at most what the clearing of this slot put there. */
  lemma RefundsCover(p: Pricing, original: Hash, current: Hash, value: Hash)
    requires Balanced(p)
    ensures var xs := Refunds(p, original, current, value);
            && Total(xs) >= p.clear * (Flag(original, value) - Flag(original, current))
            && Total(xs) <= MAX_REFUND
            && (xs != [] && xs[0] < 0 ==> xs[0] == 0 - p.clear && Flag(original, current) == 1)
            && (xs != [] ==> xs[0] <= MAX_REFUND)
            && |xs| <= 2 && (|xs| == 2 ==> 0 <= xs[1] <= MAX_REFUND && xs[0] <= 0)
  {
    TotalOfFew(Refunds(p, original, current, value));
  }

  /** What one more refund may do to a covered state: keep it near, or overflow a counter that was near the top. */
  predicate Near(s: State, r: Outcome, weight: nat) {
    && (r.Done? || r.Overflow?)
    && (r.Done? ==> r.state.refund <= s.refund + MAX_REFUND * weight)
    && (r.Overflow? ==> s.refund + MAX_REFUND * weight >= TWO_64)
  }

  /** Settling a write never takes the counter below zero. */
  lemma ChargeSafe(db: Store, p: Pricing, s: State, a: Address, k: Hash, v: Hash)
    requires Balanced(p) && Covered(db, p, s)
    ensures Near(s, Charge(db, p, s, a, k, v), 1)
  {
    hide Cleared, IsCleared, Refunds, Total, Apply, CommittedOf;
    var original, current := GetCommittedState(db, s, a, k), GetState(db, s, a, k);
    var xs := Refunds(p, original, current, v);
    RefundsCover(p, original, current, v);
    ClearedMeans(db, s, a, k);
    if (a, k) in Cleared(db, s) {
      AtLeastOne(Cleared(db, s), (a, k), p.clear);
    }
    SettleFew(s, xs);
  }

  lemma AtLeastOne(S: set<(Address, Hash)>, x: (Address, Hash), n: nat)
    requires x in S
    ensures n * |S| >= n
  {
    assert |S| == |S - {x}| + 1;
    MulMonotone(1, |S|, n);
  }

  lemma SettleFew(s: State, xs: seq<int>)
    requires |xs| <= 2
    requires xs != [] ==> 0 <= s.refund + xs[0] && xs[0] <= MAX_REFUND
    requires |xs| == 2 ==> xs[0] <= 0 <= xs[1] <= MAX_REFUND
    ensures Near(s, Settle(s, xs), 1)
    decreases |xs|
  {
    TotalOfFew(xs);
    if |xs| > 0 && s.refund + xs[0] < TWO_64 {
      SettleFew(Change(s, xs[0]), xs[1..]);
    }
  }

  lemma WriteMoves(db: Store, s: State, a: Address, k: Hash, v: Hash)
    requires InRange(s.warm)
    ensures var t := Apply(db, s, SetState(a, k, v));
            Cleared(db, t) == if Flag(GetCommittedState(db, s, a, k), v) == 1 then Cleared(db, s) + {(a, k)}
                              else Cleared(db, s) - {(a, k)}
  {
    var t := Apply(db, s, SetState(a, k, v));
    forall b, j ensures IsCleared(db, t, b, j) ==
                        if b == a && j == k then Flag(GetCommittedState(db, s, a, k), v) == 1
                        else IsCleared(db, s, b, j)
    {
    }
    forall b: Address, j: Hash
      ensures (b, j) in Cleared(db, t) <==> IsCleared(db, t, b, j)
      ensures (b, j) in Cleared(db, s) <==> IsCleared(db, s, b, j)
    {
      hide IsCleared;
      ClearedMeans(db, s, b, j);
      ClearedMeans(db, t, b, j);
    }
  }

  lemma WriteCovered(db: Store, p: Pricing, s: State, a: Address, k: Hash, v: Hash)
    requires Balanced(p) && InRange(s.warm) && Covered(db, p, s) && Charge(db, p, s, a, k, v).Done?
    ensures Covered(db, p, Apply(db, Charge(db, p, s, a, k, v).state, SetState(a, k, v)))
  {
    hide Apply, Refunds, Total, IsCleared, Cleared;
    var original, current := GetCommittedState(db, s, a, k), GetState(db, s, a, k);
    var t := Charge(db, p, s, a, k, v).state;
    var u := Apply(db, t, SetState(a, k, v));
    RefundsCover(p, original, current, v);
    ClearedMeans(db, s, a, k);
    SameObjectsCleared(db, s, t);
    WriteMoves(db, t, a, k, v);
    SetStateKeepsRefund(db, t, a, k, v);
    var S, x := Cleared(db, s), (a, k);
    if Flag(original, v) == 1 {
      assert |S + {x}| == |S| + 1 - Flag(original, current) by {
        if x in S {
          assert S + {x} == S;
        }
      }
    } else {
      assert |S - {x}| == |S| - Flag(original, current) by {
        if x !in S {
          assert S - {x} == S;
        }
      }
    }
    var n := |Cleared(db, u)|;
    assert n == |S| + Flag(original, v) - Flag(original, current);
    Distribute(p.clear, |S|, Flag(original, v) - Flag(original, current));
  }

  lemma Distribute(c: nat, n: nat, d: int)
    ensures c * (n + d) == c * n + c * d
  {
  }

  lemma SetStateKeepsRefund(db: Store, s: State, a: Address, k: Hash, v: Hash)
    requires InRange(s.warm)
    ensures Apply(db, s, SetState(a, k, v)).refund == s.refund
  {
  }

  lemma SameObjectsCleared(db: Store, s: State, t: State)
    requires s.objects == t.objects
    ensures Cleared(db, s) == Cleared(db, t)
  {
    SameSet(db, s, t);
  }

  // ---------------------------------------------------------------- other acts

  /** A new object has no pending writes, so its slots are as committed. */
  lemma CreateCovered(db: Store, p: Pricing, s: State, a: Address)
    requires InRange(s.warm) && Covered(db, p, s)
    ensures Covered(db, p, Apply(db, s, CreateAccount(a)))
    ensures Apply(db, s, CreateAccount(a)).refund == s.refund
  {
    var t := Apply(db, s, CreateAccount(a));
    assert Cleared(db, t) <= Cleared(db, s) by {
      hide LoadAccount;
    }
    Smaller(Cleared(db, t), Cleared(db, s), p.clear);
  }

  lemma Smaller(S: set<(Address, Hash)>, T: set<(Address, Hash)>, n: nat)
    requires S <= T
    ensures n * |S| <= n * |T|
  {
    assert T == S + (T - S);
    assert |T| == |S| + |T - S|;
    MulMonotone(|S|, |T|, n);
  }

  ghost predicate KeepsStorage(db: Store, a: Address, o: Object, p: Object) {
    p.dirty == o.dirty && forall k :: CommittedOf(db, a, p, k) == CommittedOf(db, a, o, k)
  }

  /** At most one object is replaced, by one with the same pending and committed storage. */
  lemma PlainKeepsStorage(db: Store, s: State, op: Op)
    requires InRange(s.warm) && IsPlain(op)
    ensures var t := Apply(db, s, op);
            && t.refund == s.refund
            && (t.objects == s.objects
                || exists a, o :: t.objects == s.objects[a := o] && KeepsStorage(db, a, Get(s, a), o))
  {
    hide AccountOf, CodeOf, CommittedOf, LoadAccount, LoadCode, LoadSlot, InRange, Find, KeepsStorage;
    hide Transient, WarmAddress, WarmSlot, PutSlot, Created, Replaced;
    var t := Apply(db, s, op);
    if op.SetTransientState? || op.AddAddressToAccessList? || op.AddSlotToAccessList? {
      NoObject(db, s, op);
    } else if Journal.IsRead(op) {
      ReadKeepsStorage(db, s, op);
    } else if t.objects != s.objects {
      OneObject(db, s, op);
      CleanKept(db, op.a, Get(s, op.a), t.objects[op.a]);
    }
  }

  /** The operations on one object that are left. */
  predicate OnObject(op: Op) {
    op.AddBalance? || op.SubBalance? || op.SetNonce? || op.SetCode? || op.SetBalance? || op.Suicide?
      || op.SelfDestruct6780?
  }

  /** `t` is `s` with the object at `a` replaced by one with the same storage maps. */
  predicate OneReplaced(s: State, t: State, a: Address) {
    && t.refund == s.refund && a in t.objects && t.objects == s.objects[a := t.objects[a]]
    && t.objects[a].dirty == Get(s, a).dirty && t.objects[a].clean == Get(s, a).clean
  }

  lemma OneObject(db: Store, s: State, op: Op)
    requires InRange(s.warm) && OnObject(op) && Apply(db, s, op).objects != s.objects
    ensures OneReplaced(s, Apply(db, s, op), op.a)
  {
    hide Find, Shift, Destroy, OneReplaced;
    if op.AddBalance? {
      ShiftOne(s, op.a, op.amount);
    } else if op.SubBalance? {
      ShiftOne(s, op.a, 0 - op.amount);
    } else if op.Suicide? || op.SelfDestruct6780? {
      DestroyOne(s, op.a);
    } else {
      SetterOne(db, s, op);
    }
  }

  lemma ShiftOne(s: State, a: Address, amount: int)
    ensures OneReplaced(s, Shift(s, a, amount), a)
  {
    hide Find;
  }

  lemma DestroyOne(s: State, a: Address)
    ensures OneReplaced(s, Destroy(s, a), a) && OneReplaced(s, Put(s, a, Get(s, a)), a)
  {
    hide Find;
  }

  lemma SetterOne(db: Store, s: State, op: Op)
    requires InRange(s.warm) && (op.SetNonce? || op.SetCode? || op.SetBalance?)
    ensures OneReplaced(s, Apply(db, s, op), op.a)
  {
    hide Find;
  }

  lemma NoObject(db: Store, s: State, op: Op)
    requires InRange(s.warm) && (op.SetTransientState? || op.AddAddressToAccessList? || op.AddSlotToAccessList?)
    ensures Apply(db, s, op).objects == s.objects && Apply(db, s, op).refund == s.refund
  {
    hide AddSlot;
  }

  lemma CleanKept(db: Store, a: Address, o: Object, p: Object)
    requires p.dirty == o.dirty && p.clean == o.clean
    ensures KeepsStorage(db, a, o, p)
  {
  }

  lemma ReadKeepsStorage(db: Store, s: State, op: Op)
    requires InRange(s.warm) && Journal.IsRead(op)
    ensures var t := Apply(db, s, op);
            && t.refund == s.refund && t.objects == s.objects[op.a := t.objects[op.a]]
            && KeepsStorage(db, op.a, Get(s, op.a), t.objects[op.a])
  {
    hide AccountOf, CodeOf, CommittedOf, LoadAccount, LoadCode, LoadSlot, InRange, Find;
    Journal.LoadAccountSame(db, op.a, Get(s, op.a));
    Journal.LoadCodeSame(db, op.a, Get(s, op.a));
    if op.ReadSlot? {
      Journal.LoadSlotSame(db, op.a, Get(s, op.a), op.k);
    }
  }

  lemma StorageDecides(db: Store, s: State, t: State, a: Address, o: Object)
    requires t.objects == s.objects[a := o] && KeepsStorage(db, a, Get(s, a), o)
    ensures Cleared(db, s) == Cleared(db, t)
  {
    hide Cleared, CommittedOf;
    SameSet(db, s, t);
  }

  lemma PlainCovered(db: Store, p: Pricing, s: State, op: Op)
    requires InRange(s.warm) && IsPlain(op) && Covered(db, p, s)
    ensures Covered(db, p, Apply(db, s, op)) && Apply(db, s, op).refund == s.refund
  {
    hide Apply, Cleared, CommittedOf, Get, KeepsStorage;
    PlainKeepsStorage(db, s, op);
    var t := Apply(db, s, op);
    if t.objects == s.objects {
      SameObjectsCleared(db, s, t);
    } else {
      var a, o :| t.objects == s.objects[a := o] && KeepsStorage(db, a, Get(s, a), o);
      StorageDecides(db, s, t, a, o);
    }
  }

  lemma RewardCovered(db: Store, p: Pricing, s: State, g: nat)
    requires Covered(db, p, s) && g <= MAX_REFUND
    ensures Near(s, Settle(s, [g]), 1)
    ensures Settle(s, [g]).Done? ==> Covered(db, p, Settle(s, [g]).state)
  {
    hide Cleared, Apply;
    SettleFew(s, [g]);
    TotalOfFew([g]);
    if Settle(s, [g]).Done? {
      SameObjectsCleared(db, s, Settle(s, [g]).state);
    }
  }

  // ---------------------------------------------------------------- whole runs

  /** One act other than a frame or an unpaid write. */
  lemma ActCovered(db: Store, p: Pricing, s: State, act: Act)
    requires Balanced(p) && InRange(s.warm) && Covered(db, p, s)
    requires !act.Frame? && !act.Unpaid?
    requires (act.Reward? ==> act.gas <= MAX_REFUND) && (act.Plain? ==> IsPlain(act.op))
    ensures Near(s, Perform(db, p, s, act), 1)
    ensures Perform(db, p, s, act).Done? ==> Covered(db, p, Perform(db, p, s, act).state)
  {
    hide Apply, Covered, Settle, Charge;
    match act
    case Write(a, k, v) =>
      ChargeSafe(db, p, s, a, k, v);
      if Charge(db, p, s, a, k, v).Done? {
        WriteCovered(db, p, s, a, k, v);
        SetStateKeepsRefund(db, Charge(db, p, s, a, k, v).state, a, k, v);
      }
    case Create(a) => CreateCovered(db, p, s, a);
    case Reward(g) => RewardCovered(db, p, s, g);
    case Plain(op) => PlainCovered(db, p, s, op);
    case Unpaid(_, _, _) => assert false;
    case Frame(_, _) => assert false;
  }

  /**
   Writes that cannot be paid, account creations, nested frames that fail or succeed: from a covered state
   no step of a run takes the refund counter below zero, nothing panics, and the state stays covered. Only a run
   of more than 2^64 / 24000 refunds could take the counter beyond its upper end.
   */
  lemma {:induction false} RefundSafe(db: Store, p: Pricing, s: State, acts: seq<Act>, keeps: bool)
    requires Balanced(p) && Valid(s.warm) && Covered(db, p, s) && WellFormed(acts, keeps)
    ensures Near(s, PerformAll(db, p, s, acts), Weight(acts))
    ensures keeps && PerformAll(db, p, s, acts).Done? ==> Covered(db, p, PerformAll(db, p, s, acts).state)
    decreases acts
  {
    hide Covered, Valid, Revert, Same;
    if acts != [] {
      Journal.ValidRange(s.warm);
      if acts[0].Unpaid? {
        ChargeSafe(db, p, s, acts[0].a, acts[0].k, acts[0].v);
      } else {
        if acts[0].Frame? {
          FrameCovered(db, p, s, acts[0]);
        } else {
          ActCovered(db, p, s, acts[0]);
        }
        var r := Perform(db, p, s, acts[0]);
        if r.Done? {
          Journal.Unchanged(db, s);
          PerformUnwinds(db, p, s, acts[0], |s.journal|, s);
          Journal.UnwindsValid(db, r.state, |s.journal|, s);
          RefundSafe(db, p, r.state, acts[1..], keeps);
        }
      }
    }
  }

  lemma {:induction false} FrameCovered(db: Store, p: Pricing, s: State, act: Act)
    requires Balanced(p) && Valid(s.warm) && Covered(db, p, s) && act.Frame? && WellFormed(act.acts, act.keeps)
    ensures Near(s, Perform(db, p, s, act), Weight(act.acts))
    ensures Perform(db, p, s, act).Done? ==> Covered(db, p, Perform(db, p, s, act).state)
    decreases act
  {
    hide Covered, Valid, Revert, PerformAll, SameObjects, SameTransient;
    Journal.ValidRange(s.warm);
    RefundSafe(db, p, s, act.acts, act.keeps);
    if !act.keeps && PerformAll(db, p, s, act.acts).Done? {
      FailedFrame(db, p, s, act.acts);
      SameCovered(db, p, s, Perform(db, p, s, act).state);
    }
  }

  // ---------------------------------------------------------------- where runs start

  /** At the start of a transaction nothing is pending: the counter is zero and no slot has been cleared. */
  lemma CleanStart(db: Store, p: Pricing, s: State)
    requires forall a, k :: GetState(db, s, a, k) == GetCommittedState(db, s, a, k)
    ensures Covered(db, p, s)
  {
    forall x | x in Cleared(db, s) ensures false {
      ClearedMeans(db, s, x.0, x.1);
    }
    assert Cleared(db, s) == {};
  }

  /** A value that is neither zero nor the original. */
  function Other(original: Hash): Hash {
    if original == 1 then 2 else 1
  }

  /** Rewriting the cleared slots one by one takes `clear` off the counter each time, until it would go below zero. */
  lemma {:induction false} Drain(db: Store, p: Pricing, s: State) returns (acts: seq<Act>)
    requires Balanced(p) && Valid(s.warm) && !Covered(db, p, s)
    ensures WellFormed(acts, true) && PerformAll(db, p, s, acts).Underflow?
    decreases |Cleared(db, s)|
  {
    hide Cleared, IsCleared, Refunds, Apply, CommittedOf, Valid;
    Journal.ValidRange(s.warm);
    assert Cleared(db, s) != {} by {
      assert p.clear * 0 == 0;
    }
    var x: (Address, Hash) :| x in Cleared(db, s);
    var (a, k) := x;
    ClearedMeans(db, s, a, k);
    var act := Write(a, k, Other(GetCommittedState(db, s, a, k)));
    OneDrained(db, p, s, a, k);
    if Perform(db, p, s, act).Underflow? {
      acts := [act];
    } else {
      var rest := Drain(db, p, Perform(db, p, s, act).state);
      acts := [act] + rest;
      assert acts[1..] == rest;
    }
  }

  lemma OneDrained(db: Store, p: Pricing, s: State, a: Address, k: Hash)
    requires Balanced(p) && Valid(s.warm) && !Covered(db, p, s) && IsCleared(db, s, a, k) && InRange(s.warm)
    ensures var r := Perform(db, p, s, Write(a, k, Other(GetCommittedState(db, s, a, k))));
            && (r.Underflow? || r.Done?)
            && (r.Done? ==>
                Valid(r.state.warm) && !Covered(db, p, r.state) && |Cleared(db, r.state)| < |Cleared(db, s)|)
  {
    hide Cleared, IsCleared, Apply, CommittedOf;
    ClearedMeans(db, s, a, k);
    var original := GetCommittedState(db, s, a, k);
    var v := Other(original);
    var xs := Refunds(p, original, 0, v);
    assert xs == [0 - p.clear];
    TotalOfFew(xs);
    var r := Charge(db, p, s, a, k, v);
    SettleOne(s, 0 - p.clear);
    if r.Done? {
      SameObjectsCleared(db, s, r.state);
      WriteMoves(db, r.state, a, k, v);
      SetStateKeepsRefund(db, r.state, a, k, v);
      SetStateKeepsWarm(db, r.state, a, k, v);
      assert |Cleared(db, s) - {(a, k)}| == |Cleared(db, s)| - 1;
      Distribute(p.clear, |Cleared(db, s)|, -1);
    }
  }

  lemma SettleOne(s: State, x: int)
    requires x <= 0
    ensures Settle(s, [x]).Underflow? || Settle(s, [x]).Done?
  {
    assert [x][1..] == [];
  }

  lemma SetStateKeepsWarm(db: Store, s: State, a: Address, k: Hash, v: Hash)
    requires InRange(s.warm)
    ensures Apply(db, s, SetState(a, k, v)).warm == s.warm
  {
  }

  /**
   No run takes the counter below zero exactly when the start is covered. A slot overridden to zero before the
   run, with nothing in the counter, is a start that is not.
   */
  lemma SafeExactlyWhenCovered(db: Store, p: Pricing, s: State)
    requires Balanced(p) && Valid(s.warm)
    ensures Covered(db, p, s) <==> forall acts :: WellFormed(acts, true) ==> !PerformAll(db, p, s, acts).Underflow?
  {
    hide Covered, PerformAll, WellFormed, Weight, Valid;
    if Covered(db, p, s) {
      forall acts | WellFormed(acts, true) ensures !PerformAll(db, p, s, acts).Underflow? {
        RefundSafe(db, p, s, acts, true);
      }
    } else {
      var acts := Drain(db, p, s);
    }
  }

  /** The four pricings of the forks: a transaction that starts with every slot as committed never underflows. */
  lemma TransactionsSafe(db: Store, p: Pricing, s: State, acts: seq<Act>)
    requires p == EIP1283 || p == EIP2200 || p == EIP2929 || p == EIP3529
    requires forall a, k :: GetState(db, s, a, k) == GetCommittedState(db, s, a, k)
    requires Valid(s.warm) && WellFormed(acts, true)
    ensures var r := PerformAll(db, p, s, acts);
            && (r.Done? || r.Overflow?)
            && (s.refund + MAX_REFUND * Weight(acts) < TWO_64 ==> r.Done? && Covered(db, p, r.state))
  {
    hide PerformAll, WellFormed, Weight, Valid, GetState, GetCommittedState, Covered;
    PricingsBalanced();
    CleanStart(db, p, s);
    RefundSafe(db, p, s, acts, true);
  }

  /**
   From a state with every slot as committed and an empty counter, overriding one committed slot with zero and then
   writing it takes the counter below zero.
   */
  lemma OverrideUnderflows(db: Store, s: State, a: Address, k: Hash)
    requires forall b, j :: GetState(db, s, b, j) == GetCommittedState(db, s, b, j)
    requires InRange(s.warm) && s.refund == 0 && GetCommittedState(db, s, a, k) != 0
    ensures var t := Apply(db, s, SetState(a, k, 0));
            Perform(db, EIP3529, t, Write(a, k, Other(GetCommittedState(db, s, a, k)))).Underflow?
  {
    hide LoadAccount, LoadCode, Created, Replaced, Destroy, WarmSlot, WarmAddress, Transient;
    var original := GetCommittedState(db, s, a, k);
    var t := Apply(db, s, SetState(a, k, 0));
    assert GetState(db, t, a, k) == 0 && GetCommittedState(db, t, a, k) == original && t.refund == 0
      && t.warm == s.warm;
    assert Refunds(EIP3529, original, 0, Other(original))[0] == -4800;
  }

  /** The same with the whole storage of the account replaced. */
  lemma ReplacedStorageUnderflows(db: Store, s: State, a: Address, k: Hash, dirty: map<Hash, Hash>)
    requires InRange(s.warm) && s.refund == 0 && GetCommittedState(db, s, a, k) != 0 && k in dirty && dirty[k] == 0
    ensures var t := Apply(db, s, SetStorage(a, dirty));
            Perform(db, EIP3529, t, Write(a, k, Other(GetCommittedState(db, s, a, k)))).Underflow?
  {
    hide LoadAccount, LoadCode, Created, Replaced, Destroy, WarmSlot, WarmAddress, Transient;
    var original := GetCommittedState(db, s, a, k);
    var t := Apply(db, s, SetStorage(a, dirty));
    assert GetState(db, t, a, k) == 0 && GetCommittedState(db, t, a, k) == original && t.refund == 0
      && t.warm == s.warm;
    assert Refunds(EIP3529, original, 0, Other(original))[0] == -4800;
  }
}
