/** The binary search for the gas a call needs, over runs on isolated copies of one state. */
module EstimateGas {
  import opened Common
  import opened Fees

  /**
   One run with a given gas limit. `Failed` is a failed execution or a limit below the intrinsic gas; every other
   consensus error is `Invalid` and ends the search, even one that more gas would cure.
   */
  datatype Run<S> = Succeeded(state: S) | Failed | Invalid

  const TX_GAS := 21000

  // ---------------------------------------------------------------- the highest limit tried

  /**
   The limit from the call or the block, capped by what the sender can pay and by the node; None: the value is
   not covered.
   */
  function HighestGas(gas: Option<uint64>, blockLimit: uint64, feeCap: nat, balance: nat, value: Option<nat>,
                      gasCap: uint64): Option<uint64> {
    var hi := if gas.Some? && gas.value >= TX_GAS then gas.value else blockLimit;
    if feeCap != 0 && value.Some? && value.value >= balance then None
    else
      var available: nat := if value.Some? && feeCap != 0 then balance - value.value else balance;
      var funded: uint64 :=
        if feeCap != 0 && available / feeCap < TWO_64 && hi > available / feeCap then available / feeCap else hi;
      Some(if gasCap != 0 && funded > gasCap then gasCap else funded)
  }

  /** Whatever limit up to the cap is used, the sender can pay for it on top of the value. */
  lemma CapIsFunded(gas: Option<uint64>, blockLimit: uint64, feeCap: nat, balance: nat, value: Option<nat>,
                    gasCap: uint64, limit: nat)
    requires HighestGas(gas, blockLimit, feeCap, balance, value, gasCap).Some? && feeCap != 0
    requires limit <= HighestGas(gas, blockLimit, feeCap, balance, value, gasCap).value
    ensures limit * feeCap + (if value.Some? then value.value else 0) <= balance
  {
    var available: nat := if value.Some? then balance - value.value else balance;
    assert limit <= available / feeCap;
    Affordable(limit, feeCap, available);
  }

  lemma Affordable(limit: nat, price: nat, available: nat)
    requires price > 0 && limit <= available / price
    ensures limit * price <= available
  {
    MulMonotone(limit, available / price, price);
  }

  // ---------------------------------------------------------------- the search

  /** mid, in 64-bit arithmetic. */
  function Middle(lo: uint64, hi: uint64): uint64 {
    Wrap64((hi as int) + lo) / 2
  }

  datatype Estimate<S> = Gas(gas: uint64, state: Option<S>) | Error

  /** The search in progress: the bounds and the state of the last run that succeeded. */
  datatype Progress<S> = Looking(lo: uint64, hi: uint64, found: Option<S>) | Done(answer: Estimate<S>)

  function Start<S>(cap: uint64): Progress<S> {
    Looking(TX_GAS - 1, cap, None)
  }

  /** Behind the loop: the cap itself has not been run yet. */
  function Close<S>(run: uint64 -> Run<S>, cap: uint64, hi: uint64, found: Option<S>): Progress<S> {
    if hi != cap then Done(Gas(hi, found))
    else
      match run(hi)
      case Succeeded(s) => Done(Gas(hi, Some(s)))
      case _ => Done(Error)
  }

  /** The end of a turn, where an approximate search may be satisfied. */
  function Narrow<S>(run: uint64 -> Run<S>, cap: uint64, approx: bool, lo: uint64, hi: uint64,
                     found: Option<S>): Progress<S> {
    if approx && Wrap64(hi - lo) < hi / 100 then Close(run, cap, hi, found) else Looking(lo, hi, found)
  }

  /** One turn of the loop of DoEstimateGas, for every cap. */
  function Turn<S>(run: uint64 -> Run<S>, cap: uint64, approx: bool, p: Progress<S>): Progress<S> {
    match p
    case Done(_) => p
    case Looking(lo, hi, found) =>
      if (lo as int) + 1 >= hi then Close(run, cap, hi, found)
      else
        var mid := Middle(lo, hi);
        match run(mid)
        case Invalid => Done(Error)
        case Failed => Narrow(run, cap, approx, mid, hi, found)
        case Succeeded(s) => Narrow(run, cap, approx, lo, mid, Some(s))
  }

  /** The progress after k turns. */
  function After<S>(run: uint64 -> Run<S>, cap: uint64, approx: bool, k: nat, p: Progress<S>): Progress<S> {
    if k == 0 then p else After(run, cap, approx, k - 1, Turn(run, cap, approx, p))
  }

  /** The search ends with this answer. */
  ghost predicate Answers<S>(run: uint64 -> Run<S>, cap: uint64, approx: bool, r: Estimate<S>) {
    exists k: nat :: After(run, cap, approx, k, Start(cap)) == Done(r)
  }

  // ---------------------------------------------------------------- what an answer means

  /** An upper bound below the cap has been run and succeeded. */
  ghost predicate Sound<S>(run: uint64 -> Run<S>, cap: uint64, p: Progress<S>) {
    match p
    case Looking(lo, hi, found) => hi <= cap && (hi < cap ==> found.Some? && run(hi) == Succeeded(found.value))
    case Done(Gas(gas, state)) => gas <= cap && state.Some? && run(gas) == Succeeded(state.value)
    case Done(Error) => true
  }

  lemma MiddleBelow(lo: uint64, hi: uint64)
    requires lo < hi
    ensures Middle(lo, hi) < hi
  {
    if (hi as int) + lo < TWO_64 {
      assert Middle(lo, hi) == (hi + lo) / 2;
    } else {
      assert Middle(lo, hi) == (hi + lo - TWO_64) / 2;
    }
  }

  lemma TurnSound<S>(run: uint64 -> Run<S>, cap: uint64, approx: bool, p: Progress<S>)
    requires Sound(run, cap, p)
    ensures Sound(run, cap, Turn(run, cap, approx, p))
  {
    if p.Looking? && (p.lo as int) + 1 < p.hi {
      MiddleBelow(p.lo, p.hi);
    }
  }

  lemma {:induction false} AfterSound<S>(run: uint64 -> Run<S>, cap: uint64, approx: bool, k: nat, p: Progress<S>)
    requires Sound(run, cap, p)
    ensures Sound(run, cap, After(run, cap, approx, k, p))
  {
    if k > 0 {
      TurnSound(run, cap, approx, p);
      AfterSound(run, cap, approx, k - 1, Turn(run, cap, approx, p));
    }
  }

  /** For every cap: the answer is within it, was run and succeeded, and its state is the state of that run. */
  lemma AnswerSucceeds<S>(run: uint64 -> Run<S>, cap: uint64, approx: bool, r: Estimate<S>)
    requires Answers(run, cap, approx, r) && r.Gas?
    ensures r.gas <= cap && r.state.Some? && run(r.gas) == Succeeded(r.state.value)
  {
    var k: nat :| After(run, cap, approx, k, Start(cap)) == Done(r);
    AfterSound(run, cap, approx, k, Start(cap));
  }

  /** More gas never turns a success into a failure. */
  ghost predicate Monotone<S(!new)>(run: uint64 -> Run<S>) {
    forall g: uint64, h: uint64 :: g <= h && run(g).Succeeded? ==> run(h).Succeeded?
  }

  ghost predicate NoneBelow<S(!new)>(run: uint64 -> Run<S>, gas: uint64) {
    forall g: uint64 :: TX_GAS <= g < gas ==> !run(g).Succeeded?
  }

  lemma {:induction false} AfterLeast<S(!new)>(run: uint64 -> Run<S>, cap: uint64, k: nat, p: Progress<S>)
    requires Monotone(run) && p.Looking? && (p.lo >= TX_GAS ==> !run(p.lo).Succeeded?)
    ensures var q := After(run, cap, false, k, p); q.Done? && q.answer.Gas? ==> NoneBelow(run, q.answer.gas)
  {
    if k > 0 {
      var q := Turn(run, cap, false, p);
      if q.Looking? {
        AfterLeast(run, cap, k - 1, q);
      } else {
        Stays(run, cap, false, k - 1, q);
      }
    }
  }

  lemma {:induction false} Stays<S>(run: uint64 -> Run<S>, cap: uint64, approx: bool, k: nat, p: Progress<S>)
    requires p.Done?
    ensures After(run, cap, approx, k, p) == p
  {
    if k > 0 {
      Stays(run, cap, approx, k - 1, p);
    }
  }

  /** For every cap: the exact answer for a monotone call is the least limit of a transaction that works. */
  lemma LeastGas<S(!new)>(run: uint64 -> Run<S>, cap: uint64, r: Estimate<S>)
    requires Monotone(run) && Answers(run, cap, false, r) && r.Gas?
    ensures run(r.gas).Succeeded? && NoneBelow(run, r.gas)
  {
    var k: nat :| After(run, cap, false, k, Start(cap)) == Done(r);
    AfterLeast(run, cap, k, Start(cap));
    AnswerSucceeds(run, cap, false, r);
  }

  // ---------------------------------------------------------------- the loop

  lemma Begins<S>(run: uint64 -> Run<S>, cap: uint64, approx: bool)
    ensures After(run, cap, approx, 0, Start(cap)) == Start(cap)
  {
  }

  lemma {:induction false} OneMore<S>(run: uint64 -> Run<S>, cap: uint64, approx: bool, k: nat, p: Progress<S>)
    ensures After(run, cap, approx, k + 1, p) == Turn(run, cap, approx, After(run, cap, approx, k, p))
  {
    if k > 0 {
      OneMore(run, cap, approx, k - 1, Turn(run, cap, approx, p));
    }
  }

  /** A turn in the middle, where nothing wraps. */
  lemma Advances<S>(run: uint64 -> Run<S>, cap: uint64, approx: bool, k: nat, lo: uint64, hi: uint64, found: Option<S>)
    requires After(run, cap, approx, k, Start(cap)) == Looking(lo, hi, found) && lo + 1 < hi <= TWO_63
    ensures var mid, q := Middle(lo, hi), After(run, cap, approx, k + 1, Start(cap));
            && lo < mid < hi
            && match run(mid)
               case Invalid => q == Done(Error)
               case Failed =>
                 q == if approx && hi - mid < hi / 100 then Close(run, cap, hi, found) else Looking(mid, hi, found)
               case Succeeded(s) =>
                 q == if approx && mid - lo < mid / 100 then Close(run, cap, mid, Some(s))
                      else Looking(lo, mid, Some(s))
  {
    hide After, Close;
    OneMore(run, cap, approx, k, Start(cap));
  }

  lemma Closes<S>(run: uint64 -> Run<S>, cap: uint64, approx: bool, lo: uint64, hi: uint64, found: Option<S>)
    requires lo + 1 >= hi
    ensures Turn(run, cap, approx, Looking(lo, hi, found)) == Close(run, cap, hi, found)
  {
  }

  /** A limit one below `gas`, or less than one percent below, failed or is below the least gas of a transaction. */
  ghost predicate Tight<S>(run: uint64 -> Run<S>, lo: uint64, gas: uint64) {
    && TX_GAS - 1 <= lo < gas && (lo >= TX_GAS ==> run(lo) == Failed)
    && (lo + 1 == gas || gas - lo < gas / 100)
  }

  /**
   DoEstimateGas for a cap whose doubling does not wrap: the answer was run and succeeded, its state is the
   state of that run, and in exact mode one unit less failed or is below the least gas of a transaction.
   */
  method Search<S>(run: uint64 -> Run<S>, cap: uint64, approx: bool) returns (r: Estimate<S>)
    requires cap <= TWO_63
    ensures Answers(run, cap, approx, r)
    ensures r.Gas? ==> r.gas <= cap && r.state.Some? && run(r.gas) == Succeeded(r.state.value)
    ensures r.Gas? && !approx && r.gas > TX_GAS ==> run(r.gas - 1) == Failed
    ensures r.Gas? && approx && r.gas > TX_GAS ==>
              exists lo: uint64 :: Tight(run, lo, r.gas)
    ensures r.Error? ==> run(cap) == Failed || exists g: uint64 :: g <= cap && run(g) == Invalid
  {
    hide After, Turn, Narrow, Middle;
    var lo: uint64, hi: uint64 := TX_GAS - 1, cap;
    var stateData: Option<S> := None;
    ghost var k: nat := 0;
    Begins(run, cap, approx);
    while lo + 1 < hi
      invariant hi <= cap && TX_GAS - 1 <= lo && (lo < hi || (hi == cap && lo == TX_GAS - 1))
      invariant lo >= TX_GAS ==> run(lo) == Failed
      invariant hi < cap ==> stateData.Some? && run(hi) == Succeeded(stateData.value)
      invariant After(run, cap, approx, k, Start(cap)) == Looking(lo, hi, stateData)
      decreases hi - lo
    {
      Advances(run, cap, approx, k, lo, hi, stateData);
      k := k + 1;
      var mid := Middle(lo, hi);
      match run(mid) {
        case Invalid => return Error;
        case Failed => lo := mid;
        case Succeeded(s) => hi, stateData := mid, Some(s);
      }
      if approx && hi - lo < hi / 100 {
        break;
      }
    }
    if After(run, cap, approx, k, Start(cap)).Looking? {
      OneMore(run, cap, approx, k, Start(cap));
      Closes(run, cap, approx, lo, hi, stateData);
      k := k + 1;
    }
    assert After(run, cap, approx, k, Start(cap)) == Close(run, cap, hi, stateData);
    assert hi > TX_GAS ==> Tight(run, lo, hi);
    if hi == cap {
      match run(hi) {
        case Invalid => return Error;
        case Failed => return Error;
        case Succeeded(s) => stateData := Some(s);
      }
    }
    return Gas(hi, stateData);
  }

  // ---------------------------------------------------------------- where the search does not end

  ghost predicate Ends<S(!new)>(run: uint64 -> Run<S>, cap: uint64, approx: bool) {
    exists r :: Answers(run, cap, approx, r)
  }

  /** With a cap above 2^63 the middle wraps below the lower bound, and the loop condition holds for ever. */
  lemma {:induction false} NeverEnds(cap: uint64, k: nat, lo: uint64)
    requires cap > TWO_63 && lo + 1 < cap
    ensures After((_: uint64) => Run<int>.Failed, cap, false, k, Looking(lo, cap, None)).Looking?
  {
    if k > 0 {
      if (cap as int) + lo < TWO_64 {
        assert Middle(lo, cap) == (cap + lo) / 2;
      } else {
        assert Middle(lo, cap) == (cap + lo - TWO_64) / 2;
      }
      NeverEnds(cap, k - 1, Middle(lo, cap));
    }
  }

  lemma {:induction false} Reaches<S>(run: uint64 -> Run<S>, cap: uint64, approx: bool, lo: uint64, hi: uint64,
                                      found: Option<S>)
    returns (k: nat)
    requires hi <= TWO_63
    ensures After(run, cap, approx, k, Looking(lo, hi, found)).Done?
    decreases hi - lo
  {
    var q := Turn(run, cap, approx, Looking(lo, hi, found));
    if q.Done? {
      k := 1;
    } else {
      var j := Reaches(run, cap, approx, q.lo, q.hi, q.found);
      k := j + 1;
    }
  }

  /**
   The search ends for every call exactly when the cap is at most 2^63; above, it never ends on one that always
   fails.
   */
  lemma EndsExactlyWhenSmall(cap: uint64)
    ensures (forall run: uint64 -> Run<int>, approx: bool :: Ends(run, cap, approx)) <==> cap <= TWO_63
  {
    if cap <= TWO_63 {
      forall run: uint64 -> Run<int>, approx: bool ensures Ends(run, cap, approx) {
        var k := Reaches(run, cap, approx, TX_GAS - 1, cap, None);
        assert Answers(run, cap, approx, After(run, cap, approx, k, Start(cap)).answer);
      }
    } else {
      var run := (_: uint64) => Run<int>.Failed;
      forall r ensures !Answers(run, cap, false, r) {
        forall k: nat ensures After(run, cap, false, k, Start(cap)) != Done(r) {
          NeverEnds(cap, k, TX_GAS - 1);
        }
      }
      assert !Ends(run, cap, false);
    }
  }

  /** Above 2^63 an exact search that ends may answer a limit although one unit less works as well. */
  lemma WrappedAnswer()
    ensures var cap: uint64, gas: uint64 := TWO_63 + TWO_63 / 2, TWO_63 / 8 + 5249;
            exists run: uint64 -> Run<int> :: Answers(run, cap, false, Gas(gas, Some(0))) && run(gas - 1).Succeeded?
  {
    var cap: uint64, gas: uint64 := TWO_63 + TWO_63 / 2, TWO_63 / 8 + 5249;
    var first: uint64 := (TX_GAS - 1 + cap) / 2;
    var run := (g: uint64) => if g == first then Run.Failed else Run.Succeeded(0);
    assert Turn(run, cap, false, Start(cap)) == Looking(first, cap, None);
    assert Middle(first, cap) == gas;
    assert Turn(run, cap, false, Looking(first, cap, None)) == Looking(first, gas, Some(0));
    assert Turn(run, cap, false, Looking(first, gas, Some(0))) == Done(Gas(gas, Some(0)));
    assert After(run, cap, false, 1, Looking(first, gas, Some(0))) == Done(Gas(gas, Some(0)));
    assert After(run, cap, false, 2, Looking(first, cap, None)) == Done(Gas(gas, Some(0)));
    assert After(run, cap, false, 3, Start(cap)) == Done(Gas(gas, Some(0)));
    assert Answers(run, cap, false, Gas(gas, Some(0))) && run(gas - 1).Succeeded?;
  }

  // ---------------------------------------------------------------- calls with a data floor

  /**
   Limits below the intrinsic gas fail, those from there to the floor of EIP-7623 are a consensus error, then the
   execution fails up to `need` and succeeds from there.
   */
  ghost predicate Floored<S>(run: uint64 -> Run<S>, intrinsic: uint64, floor: uint64, need: uint64) {
    && floor <= need && intrinsic <= need
    && forall g: uint64 ::
      && (run(g).Invalid? <==> intrinsic <= g < floor)
      && (run(g).Succeeded? <==> need <= g)
  }

  /** Within k turns the bisection towards `need` lands between the intrinsic gas and the floor. */
  predicate LandsWithin(k: nat, intrinsic: uint64, floor: uint64, need: uint64, approx: bool, lo: uint64, hi: uint64) {
    k > 0 && (lo as int) + 1 < hi &&
    var mid := Middle(lo, hi);
    || intrinsic <= mid < floor
    || (var (l, h) := if mid < need then (mid, hi) else (lo, mid);
        !(approx && Wrap64((h as int) - l) < h / 100) && LandsWithin(k - 1, intrinsic, floor, need, approx, l, h))
  }

  ghost predicate Lands(intrinsic: uint64, floor: uint64, need: uint64, approx: bool, lo: uint64, hi: uint64) {
    exists k: nat :: LandsWithin(k, intrinsic, floor, need, approx, lo, hi)
  }

  lemma {:induction false} LandsLater(j: nat, k: nat, intrinsic: uint64, floor: uint64, need: uint64, approx: bool,
                                      lo: uint64, hi: uint64)
    requires j <= k && LandsWithin(j, intrinsic, floor, need, approx, lo, hi)
    ensures LandsWithin(k, intrinsic, floor, need, approx, lo, hi)
    decreases j
  {
    hide Middle;
    var mid := Middle(lo, hi);
    if !(intrinsic <= mid < floor) {
      var (l, h) := if mid < need then (mid, hi) else (lo, mid);
      LandsLater(j - 1, k - 1, intrinsic, floor, need, approx, l, h);
    }
  }

  /** What a turn does to a call with a floor. */
  lemma FlooredTurn<S>(run: uint64 -> Run<S>, cap: uint64, approx: bool, intrinsic: uint64, floor: uint64, need: uint64,
                       lo: uint64, hi: uint64, found: Option<S>)
    requires Floored(run, intrinsic, floor, need) && need <= cap && hi <= cap
    ensures var q := Turn(run, cap, approx, Looking(lo, hi, found));
            var mid := Middle(lo, hi);
            var (l, h) := if mid < need then (mid, hi) else (lo, mid);
            if (lo as int) + 1 >= hi then q.Done? && q.answer.Gas?
            else if intrinsic <= mid < floor then q == Done(Error)
            else if approx && Wrap64((h as int) - l) < h / 100 then q.Done? && q.answer.Gas?
            else q.Looking? && q.lo == l && q.hi == h && h <= cap
  {
    if (lo as int) + 1 < hi {
      MiddleBelow(lo, hi);
      var mid := Middle(lo, hi);
      assert run(mid).Invalid? <==> intrinsic <= mid < floor;
      assert run(mid).Succeeded? <==> need <= mid;
    }
    assert run(cap).Succeeded?;
  }

  lemma {:induction false} LandingErrs<S>(run: uint64 -> Run<S>, cap: uint64, approx: bool, intrinsic: uint64,
                                          floor: uint64, need: uint64, k: nat, lo: uint64, hi: uint64, found: Option<S>)
    requires Floored(run, intrinsic, floor, need) && need <= cap && hi <= cap
    ensures var q := After(run, cap, approx, k, Looking(lo, hi, found));
            q.Done? ==> q.answer.Error? == LandsWithin(k, intrinsic, floor, need, approx, lo, hi)
    decreases k
  {
    hide Turn, Floored, Middle;
    if k > 0 {
      var q := Turn(run, cap, approx, Looking(lo, hi, found));
      FlooredTurn(run, cap, approx, intrinsic, floor, need, lo, hi, found);
      if q.Looking? {
        LandingErrs(run, cap, approx, intrinsic, floor, need, k - 1, q.lo, q.hi, q.found);
      } else {
        Stays(run, cap, approx, k - 1, q);
      }
    }
  }

  lemma {:induction false} DoneStays<S>(run: uint64 -> Run<S>, cap: uint64, approx: bool, j: nat, k: nat,
                                        p: Progress<S>)
    requires j <= k && After(run, cap, approx, j, p).Done?
    ensures After(run, cap, approx, k, p) == After(run, cap, approx, j, p)
    decreases j
  {
    hide Turn;
    if j == 0 {
      Stays(run, cap, approx, k, p);
    } else {
      DoneStays(run, cap, approx, j - 1, k - 1, Turn(run, cap, approx, p));
    }
  }

  /** Although the cap works, the search errs exactly when its bisection lands below the floor. */
  lemma ErrsExactlyWhenLanding<S>(run: uint64 -> Run<S>, cap: uint64, approx: bool, intrinsic: uint64, floor: uint64,
                                  need: uint64, r: Estimate<S>)
    requires Floored(run, intrinsic, floor, need) && need <= cap && Answers(run, cap, approx, r)
    ensures r.Error? <==> Lands(intrinsic, floor, need, approx, TX_GAS - 1, cap)
  {
    hide After, LandsWithin, Floored;
    var k: nat :| After(run, cap, approx, k, Start(cap)) == Done(r);
    LandingErrs(run, cap, approx, intrinsic, floor, need, k, TX_GAS - 1, cap, None);
    if Lands(intrinsic, floor, need, approx, TX_GAS - 1, cap) {
      var j: nat :| LandsWithin(j, intrinsic, floor, need, approx, TX_GAS - 1, cap);
      var m := if j < k then k else j;
      LandsLater(j, m, intrinsic, floor, need, approx, TX_GAS - 1, cap);
      DoneStays(run, cap, approx, k, m, Start(cap));
      LandingErrs(run, cap, approx, intrinsic, floor, need, m, TX_GAS - 1, cap, None);
    }
  }

  // ---------------------------------------------------------------- a call with more data than work

  /** When the floor itself decides, an exact search can only end with an error. */
  lemma {:induction false} BindingFloor<S>(run: uint64 -> Run<S>, cap: uint64, intrinsic: uint64, floor: uint64, k: nat,
                                           lo: uint64, hi: uint64, found: Option<S>)
    requires Floored(run, intrinsic, floor, floor) && intrinsic < floor <= hi <= cap && lo + 1 < floor
    ensures var q := After(run, cap, false, k, Looking(lo, hi, found)); q.Done? ==> q.answer == Error
    decreases k
  {
    hide Turn, Floored, Middle;
    if k > 0 {
      var q := Turn(run, cap, false, Looking(lo, hi, found));
      FlooredTurn(run, cap, false, intrinsic, floor, floor, lo, hi, found);
      if q.Looking? {
        BindingFloor(run, cap, intrinsic, floor, k - 1, q.lo, q.hi, q.found);
      } else {
        Stays(run, cap, false, k - 1, q);
      }
    }
  }

  /** So no call whose floor exceeds its execution can be estimated exactly, whatever the cap. */
  lemma BindingFloorErrs<S>(run: uint64 -> Run<S>, cap: uint64, intrinsic: uint64, floor: uint64, r: Estimate<S>)
    requires Floored(run, intrinsic, floor, floor) && intrinsic < floor && TX_GAS < floor <= cap
    requires Answers(run, cap, false, r)
    ensures r == Error
  {
    hide After, Floored;
    var k: nat :| After(run, cap, false, k, Start(cap)) == Done(r);
    BindingFloor(run, cap, intrinsic, floor, k, TX_GAS - 1, cap, None);
  }

  /** One run of a message with the given limit: the checks of the transition, then an execution. */
  function Attempt<S>(msg: Message, rules: Rules, execute: uint64 -> Option<S>): uint64 -> Run<S> {
    (gas: uint64) =>
      match Verdict(msg.(gasLimit := gas), rules)
      case Some(IntrinsicTooHigh) => Failed
      case Some(_) => Invalid
      case None => match execute(gas) case None => Failed case Some(s) => Succeeded(s)
  }

  lemma LimitIsFree(msg: Message, rules: Rules, gas: uint64)
    ensures Intrinsic(msg.(gasLimit := gas), rules) == Intrinsic(msg, rules)
  {
  }

  function FloorOf(msg: Message, rules: Rules): int {
    if rules.prague then Floor(msg.data) else 0
  }

  lemma AttemptOutcome<S>(msg: Message, rules: Rules, execute: uint64 -> Option<S>, gas: uint64)
    requires DataGas(msg.data, msg.to.None?, rules) < TWO_64 && FloorOf(msg, rules) < TWO_64
    ensures var run := Attempt(msg, rules, execute);
            && (run(gas).Invalid? <==> Intrinsic(msg, rules) <= gas < FloorOf(msg, rules))
            && (run(gas).Succeeded? <==>
                Intrinsic(msg, rules) <= gas && FloorOf(msg, rules) <= gas && execute(gas).Some?)
  {
    hide DataGas, Floor, Intrinsic;
    var m := msg.(gasLimit := gas);
    LimitIsFree(msg, rules, gas);
    assert Verdict(m, rules) == if gas < Intrinsic(msg, rules) then Some(IntrinsicTooHigh)
                                else if gas < FloorOf(msg, rules) then Some(FloorTooHigh)
                                else None;
  }

  /** The checks give every message this shape, if its execution succeeds from some limit on. */
  lemma ChecksAreFloored<S>(msg: Message, rules: Rules, execute: uint64 -> Option<S>, need: uint64)
    requires DataGas(msg.data, msg.to.None?, rules) < TWO_64 && 0 <= FloorOf(msg, rules) < TWO_64
    requires forall gas: uint64 :: execute(gas).Some? <==> need <= gas
    ensures var least := Most(need, Most(Intrinsic(msg, rules), FloorOf(msg, rules)));
            Floored(Attempt(msg, rules, execute), Intrinsic(msg, rules), FloorOf(msg, rules), least)
  {
    hide DataGas, Floor, Lists, Attempt, Intrinsic;
    var run := Attempt(msg, rules, execute);
    var least := Most(need, Most(Intrinsic(msg, rules), FloorOf(msg, rules)));
    forall gas: uint64
      ensures run(gas).Invalid? <==> Intrinsic(msg, rules) <= gas < FloorOf(msg, rules)
      ensures run(gas).Succeeded? <==> least <= gas
    {
      AttemptOutcome(msg, rules, execute, gas);
    }
  }

  function Most(x: int, y: int): int {
    if x < y then y else x
  }

  /**
   A call whose data floor is above its intrinsic gas and above what its execution needs is never estimated
   exactly, although every limit from the floor to the cap works.
   */
  lemma DataHeavyCallErrs<S>(msg: Message, rules: Rules, execute: uint64 -> Option<S>, cap: uint64, r: Estimate<S>)
    requires DataGas(msg.data, msg.to.None?, rules) < TWO_64
    requires rules.prague && Intrinsic(msg, rules) < Floor(msg.data) <= cap && TX_GAS < Floor(msg.data)
    requires forall gas: uint64 :: Floor(msg.data) <= gas ==> execute(gas).Some?
    requires Answers(Attempt(msg, rules, execute), cap, false, r)
    ensures r == Error
    ensures forall gas: uint64 :: Floor(msg.data) <= gas ==> Attempt(msg, rules, execute)(gas).Succeeded?
  {
    hide DataGas, Floor, Lists, Answers, Attempt, Intrinsic;
    var run := Attempt(msg, rules, execute);
    forall gas: uint64
      ensures run(gas).Invalid? <==> Intrinsic(msg, rules) <= gas < Floor(msg.data)
      ensures run(gas).Succeeded? <==> Floor(msg.data) <= gas
    {
      AttemptOutcome(msg, rules, execute, gas);
    }
    BindingFloorErrs(run, cap, Intrinsic(msg, rules), Floor(msg.data), r);
  }
}
