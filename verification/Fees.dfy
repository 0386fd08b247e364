/**
 What a transaction pays: intrinsic and floor gas, the purchase of gas before execution and the settlement
 after it (EIP-1559, EIP-3529, EIP-7623).
 */
module Fees {
  import opened Common
  import opened AccessLists
  import opened Balances
  import opened Solvency
  import opened StateSpec
  import Memory

  // ---------------------------------------------------------------- gas due for the data

  function NonZero(data: seq<byte>): nat {
    if data == [] then 0 else NonZero(data[..|data| - 1]) + if data[|data| - 1] != 0 then 1 else 0
  }

  datatype Rules = Rules(homestead: bool, istanbul: bool, shanghai: bool, prague: bool, london: bool)

  /** The charge for the data of a transaction, without overflow. */
  function DataGas(data: seq<byte>, creation: bool, rules: Rules): int {
    (if creation && rules.homestead then 53000 else 21000)
    + NonZero(data) * (if rules.istanbul then 16 else 68) + (|data| - NonZero(data)) * 4
    + (if creation && rules.shanghai then (|data| + 31) / 32 * 2 else 0)
  }

  /** The charges for the access list and the authorisations, which are added without a check. */
  function ListGas(addresses: nat, keys: nat, auths: nat): nat {
    addresses * 2400 + keys * 1900 + auths * 25000
  }

  /** IntrinsicGas: None is an overflow of the data part; the list part wraps. */
  method IntrinsicGas(data: seq<byte>, addresses: nat, keys: nat, auths: nat, creation: bool, rules: Rules)
    returns (r: Option<uint64>)
    requires |data| < TWO_63
    ensures r == if DataGas(data, creation, rules) >= TWO_64 then None
                 else Some(Wrap64(DataGas(data, creation, rules) + ListGas(addresses, keys, auths)))
  {
    hide NonZero, Memory.ToWordSize;
    var gas: nat := if creation && rules.homestead then 53000 else 21000;
    var nz := CountNonZero(data);
    if |data| > 0 {
      var bytes := ByteGas(gas, nz, |data| - nz, if rules.istanbul then 16 else 68);
      if bytes.None? {
        return None;
      }
      gas := bytes.value;
      if creation && rules.shanghai {
        var words := Memory.ToWordSize(|data|);
        Memory.WordsOf(|data|);
        NotAbove(gas, 2, words);
        if (TWO_64 - 1 - gas) / 2 < words {
          return None;
        }
        gas := gas + words * 2;
      }
    }
    return Some(Wrap64(gas + addresses * 2400 + keys * 1900 + auths * 25000));
  }

  /** The charges for non-zero and for zero bytes. */
  method ByteGas(gas: uint64, nz: nat, z: nat, nonZeroGas: nat) returns (r: Option<uint64>)
    requires nonZeroGas == 16 || nonZeroGas == 68
    ensures var total := gas + nz * nonZeroGas + z * 4; r == if total >= TWO_64 then None else Some(total)
  {
    NotAbove(gas, nonZeroGas, nz);
    if (TWO_64 - 1 - gas) / nonZeroGas < nz {
      return None;
    }
    var sum: uint64 := (gas as int) + nz * nonZeroGas;
    NotAbove(sum, 4, z);
    if (TWO_64 - 1 - sum) / 4 < z {
      return None;
    }
    return Some((sum as int) + z * 4);
  }

  /** The overflow checks divide so as not to overflow themselves. */
  lemma NotAbove(gas: uint64, price: nat, n: nat)
    requires price == 2 || price == 4 || price == 16 || price == 68
    ensures (TWO_64 - 1 - gas) / price < n <==> gas + n * price >= TWO_64
  {
  }

  method CountNonZero(data: seq<byte>) returns (nz: nat)
    ensures nz == NonZero(data) && nz <= |data|
  {
    nz := 0;
    for i := 0 to |data|
      invariant nz == NonZero(data[..i]) && nz <= i
    {
      assert data[..i + 1][..i] == data[..i];
      if data[i] != 0 {
        nz := nz + 1;
      }
    }
    assert data[..|data|] == data;
  }

  /** Four tokens for a non-zero byte and one for a zero byte, in 64-bit arithmetic. */
  function Tokens(data: seq<byte>): uint64 {
    Wrap64(NonZero(data) * 4 + (|data| - NonZero(data)))
  }

  /** The floor for data-heavy transactions: ten gas for every token. */
  function Floor(data: seq<byte>): int {
    21000 + 10 * Tokens(data)
  }

  method FloorDataGas(data: seq<byte>) returns (r: Option<uint64>)
    ensures r == if Floor(data) < TWO_64 then Some(Floor(data)) else None
  {
    var nz := CountNonZero(data);
    var z := |data| - nz;
    var tokens := Wrap64(nz * 4 + z);
    if (TWO_64 - 1 - 21000) / 10 < tokens {
      return None;
    }
    return Some(21000 + tokens * 10);
  }

  // ---------------------------------------------------------------- the price of gas

  datatype Prices = Prices(gasPrice: nat, feeCap: nat, tipCap: nat)

  function Least(x: int, y: int): int {
    if x < y then x else y
  }

  /** ToMessage: None when both fee styles are given. */
  function ToMessage(gasPrice: Option<nat>, maxFee: Option<nat>, maxTip: Option<nat>,
                     baseFee: Option<nat>): Option<Prices> {
    if gasPrice.Some? && (maxFee.Some? || maxTip.Some?) then None
    else if gasPrice.Some? then Some(Prices(gasPrice.value, gasPrice.value, gasPrice.value))
    else if baseFee.None? then Some(Prices(0, 0, 0))
    else
      var cap := if maxFee.Some? then maxFee.value else 0;
      var tip := if maxTip.Some? then maxTip.value else 0;
      Some(Prices(if cap > 0 || tip > 0 then Least(tip + baseFee.value, cap) else 0, cap, tip))
  }

  /** The base fee in force. */
  function Base(rules: Rules, baseFee: Option<nat>): nat {
    if rules.london && baseFee.Some? then baseFee.value else 0
  }

  function EffectiveTip(p: Prices, rules: Rules, baseFee: Option<nat>): int {
    if rules.london && baseFee.Some? then Least(p.tipCap, p.feeCap - baseFee.value) else p.gasPrice
  }

  /** Of every unit of gas the sender pays, the base fee is burnt and the rest is the tip. */
  lemma PriceSplits(gasPrice: Option<nat>, maxFee: Option<nat>, maxTip: Option<nat>, rules: Rules, baseFee: Option<nat>)
    requires ToMessage(gasPrice, maxFee, maxTip, baseFee).Some?
    ensures var p := ToMessage(gasPrice, maxFee, maxTip, baseFee).value;
            p.gasPrice == Base(rules, baseFee) + EffectiveTip(p, rules, baseFee)
  {
  }

  /** The fee checks of preCheck; they are skipped for a zero-fee call with the base fee disabled. */
  predicate FeesPass(p: Prices, rules: Rules, baseFee: Option<nat>, noBaseFee: bool) {
    rules.london && baseFee.Some? && (!noBaseFee || p.feeCap > 0 || p.tipCap > 0) ==>
      p.feeCap < WORD && p.tipCap < WORD && p.tipCap <= p.feeCap && baseFee.value <= p.feeCap
  }

  const WORD := 0x1_0000000000000000_0000000000000000_0000000000000000_0000000000000000

  /** The coinbase is debited exactly in a zero-fee call that skipped the checks under a positive base fee. */
  lemma TipSign(p: Prices, rules: Rules, baseFee: Option<nat>, noBaseFee: bool)
    requires FeesPass(p, rules, baseFee, noBaseFee)
    ensures EffectiveTip(p, rules, baseFee) < 0 <==>
            noBaseFee && p.feeCap == 0 && p.tipCap == 0 && Base(rules, baseFee) > 0
  {
  }

  // ---------------------------------------------------------------- the block's gas pool

  class GasPool {
    var gas: uint64

    constructor (gas: uint64)
      ensures this.gas == gas
    {
      this.gas := gas;
    }

    /** AddGas panics when the pool would overflow. */
    method AddGas(amount: uint64)
      requires (gas as int) + amount < TWO_64
      modifies this
      ensures gas == old(gas) + amount
    {
      gas := (gas as int) + amount;
    }

    method SubGas(amount: uint64) returns (ok: bool)
      modifies this
      ensures ok <==> amount <= old(gas)
      ensures gas == if ok then old(gas) - amount else old(gas)
    {
      if gas < amount {
        return false;
      }
      gas := gas - amount;
      return true;
    }
  }

  // ---------------------------------------------------------------- one transaction

  datatype Access = Access(address: Address, keys: seq<Hash>)

  /** A delegation (EIP-7702); the authority is recovered from the signature, if that is valid. */
  datatype Authorization = Authorization(chainId: nat, authority: Option<Address>, address: Address, nonce: uint64)

  /** A message without a receiver creates a contract; without a nonce the nonce is not looked at. */
  datatype Message = Message(from: Address, to: Option<Address>, nonce: Option<uint64>, value: nat, gasLimit: uint64,
                             prices: Prices, data: seq<byte>, accessList: seq<Access>, authList: seq<Authorization>)

  datatype Failure = NonceTooHigh | NonceTooLow | FeeError | InsufficientFunds | PoolExhausted | IntrinsicOverflow
                     | IntrinsicTooHigh | FloorTooHigh | InsufficientFundsForTransfer | InitCodeTooLarge

  datatype Result = Used(gas: uint64, ret: seq<byte>, failed: bool) | Rejected(why: Failure) | Crashed

  /** Gas used: the floor, or what execution took less the capped refund. */
  function Charged(limit: int, left: int, refund: int, quotient: int, floor: int): int
    requires quotient > 0
  {
    var used := limit - left - Least((limit - left) / quotient, refund);
    if used < floor then floor else used
  }

  /** The refund is capped at a fifth of the gas consumed since London, and at a half before. */
  function Quotient(rules: Rules): nat {
    if rules.london then 5 else 2
  }

  /** A rebate within the refund counter and within its share of the gas consumed. */
  predicate Allowed(rebate: int, consumed: int, refund: int, london: bool) {
    rebate <= refund && (if london then 5 * rebate else 2 * rebate) <= consumed
  }

  ghost predicate Largest(rebate: int, consumed: int, refund: int, london: bool) {
    && Allowed(rebate, consumed, refund, london)
    && forall more :: more > rebate ==> !Allowed(more, consumed, refund, london)
  }

  /** The sender gets the largest rebate allowed, and then pays at least the floor. */
  lemma LargestRebate(limit: nat, left: nat, refund: nat, rules: Rules, floor: nat) returns (rebate: nat)
    requires left <= limit
    ensures Largest(rebate, limit - left, refund, rules.london)
    ensures Charged(limit, left, refund, Quotient(rules), floor) ==
            if limit - left - rebate > floor then limit - left - rebate else floor
  {
    rebate := Least((limit - left) / Quotient(rules), refund);
  }

  function Keys(list: seq<Access>): nat {
    if list == [] then 0 else |list[0].keys| + Keys(list[1..])
  }

  /** The charge for the lists of a message, which is added without a check. */
  function Lists(msg: Message): nat {
    ListGas(|msg.accessList|, Keys(msg.accessList), |msg.authList|)
  }

  /** The intrinsic charge, whose list part wraps. */
  function Intrinsic(msg: Message, rules: Rules): uint64 {
    Wrap64(DataGas(msg.data, msg.to.None?, rules) + Lists(msg))
  }

  /** What the checks on gas say of a message: nothing, or the first that fails. */
  function Verdict(msg: Message, rules: Rules): Option<Failure> {
    if DataGas(msg.data, msg.to.None?, rules) >= TWO_64 then Some(IntrinsicOverflow)
    else if msg.gasLimit < Intrinsic(msg, rules) then Some(IntrinsicTooHigh)
    else if rules.prague && Floor(msg.data) >= TWO_64 then Some(IntrinsicOverflow)
    else if rules.prague && msg.gasLimit < Floor(msg.data) then Some(FloorTooHigh)
    else None
  }

  /** The state once the balance was looked up and the gas paid for. */
  function Bought(db: Store, s: State, msg: Message): State {
    Credit(Put(s, msg.from, LoadAccount(db, msg.from, Get(s, msg.from)).0), msg.from,
           0 - msg.gasLimit * msg.prices.gasPrice)
  }

  /** The state once unused gas and the tip are paid out. */
  function PaidOut(s: State, from: Address, rest: int, coinbase: Address, tip: int): State {
    Credit(Credit(s, from, rest), coinbase, tip)
  }

  // ---------------------------------------------------------------- what the fee steps do to balances

  /** What the fee steps change in the total: the purchase before and the settlement after, without the execution. */
  ghost function FeeChange(db: Store, start: State, bought: State, ran: State, end: State,
                           accounts: set<Address>): int {
    var purchase := TotalOf(db, bought, accounts) - TotalOf(db, start, accounts);
    var settlement := TotalOf(db, end, accounts) - TotalOf(db, ran, accounts);
    purchase + settlement
  }

  /** What is paid out to accounts that have no record, and never read. */
  function Lost(db: Store, ran: State, from: Address, rest: int, coinbase: Address, tip: int): int {
    (if Known(db, ran, from) then 0 else rest) + (if Known(db, ran, coinbase) then 0 else tip)
  }

  /** The purchase is always readable: a sender without a record has no balance, so it can only buy for nothing. */
  lemma PurchaseShows(db: Store, s: State, msg: Message, accounts: set<Address>)
    requires msg.from in accounts && msg.prices.gasPrice <= msg.prices.feeCap
    requires GetBalance(db, s, msg.from) >= msg.gasLimit * msg.prices.feeCap
    ensures TotalOf(db, Bought(db, s, msg), accounts) == TotalOf(db, s, accounts) - msg.gasLimit * msg.prices.gasPrice
  {
    hide GetBalance, TotalOf, Known, Credit;
    var t := Put(s, msg.from, LoadAccount(db, msg.from, Get(s, msg.from)).0);
    LoadReads(db, s, msg.from);
    TotalSame(db, s, t, accounts);
    CreditTotal(db, t, msg.from, 0 - msg.gasLimit * msg.prices.gasPrice, accounts);
    if !Known(db, t, msg.from) {
      if GetBalance(db, t, msg.from) != 0 {
        ReadableIsKnown(db, t, msg.from);
      }
      NothingToPay(msg.gasLimit, msg.prices.gasPrice, msg.prices.feeCap);
    }
  }

  /** Looking an account up changes no balance. */
  lemma LoadReads(db: Store, s: State, a: Address)
    ensures var t := Put(s, a, LoadAccount(db, a, Get(s, a)).0);
            forall b :: GetBalance(db, t, b) == GetBalance(db, s, b)
  {
  }

  lemma NothingToPay(limit: nat, price: nat, cap: nat)
    requires price <= cap && limit * cap <= 0
    ensures limit * price == 0
  {
    MulMonotone(price, cap, limit);
  }

  /**
   The fee steps of a transaction take the base fee of the used gas out of the total, and besides that exactly what
   they pay to accounts without a record. The execution in between may do anything.
   */
  lemma FeesBurn(db: Store, start: State, msg: Message, ran: State, used: nat, coinbase: Address,
                 accounts: set<Address>, gasPrice: Option<nat>, maxFee: Option<nat>, maxTip: Option<nat>, rules: Rules,
                 baseFee: Option<nat>)
    requires msg.from in accounts && coinbase in accounts && used <= msg.gasLimit
    requires ToMessage(gasPrice, maxFee, maxTip, baseFee) == Some(msg.prices)
    requires GetBalance(db, start, msg.from) >= msg.gasLimit * msg.prices.feeCap
    ensures var rest := (msg.gasLimit - used) * msg.prices.gasPrice;
            var tip := used * EffectiveTip(msg.prices, rules, baseFee);
            FeeChange(db, start, Bought(db, start, msg), ran, PaidOut(ran, msg.from, rest, coinbase, tip), accounts)
            == 0 - used * Base(rules, baseFee) - Lost(db, ran, msg.from, rest, coinbase, tip)
  {
    hide GetBalance, TotalOf, Known, Credit, Bought, EffectiveTip, ToMessage;
    var price, tip, limit := msg.prices.gasPrice, EffectiveTip(msg.prices, rules, baseFee), msg.gasLimit;
    PriceWithinCap(gasPrice, maxFee, maxTip, baseFee);
    PurchaseShows(db, start, msg, accounts);
    PayoutShows(db, ran, msg.from, (limit - used) * price, coinbase, used * tip, accounts);
    PriceSplits(gasPrice, maxFee, maxTip, rules, baseFee);
    Shares(limit, used, price, tip, Base(rules, baseFee));
  }

  lemma PayoutShows(db: Store, s: State, from: Address, rest: int, coinbase: Address, tip: int, accounts: set<Address>)
    requires from in accounts && coinbase in accounts
    ensures TotalOf(db, PaidOut(s, from, rest, coinbase, tip), accounts)
            == TotalOf(db, s, accounts) + rest + tip - Lost(db, s, from, rest, coinbase, tip)
  {
    hide GetBalance, TotalOf, Known, Credit;
    CreditTotal(db, s, from, rest, accounts);
    CreditMeans(db, s, from, rest, coinbase);
    CreditTotal(db, Credit(s, from, rest), coinbase, tip, accounts);
  }

  lemma PriceWithinCap(gasPrice: Option<nat>, maxFee: Option<nat>, maxTip: Option<nat>, baseFee: Option<nat>)
    requires ToMessage(gasPrice, maxFee, maxTip, baseFee).Some?
    ensures var p := ToMessage(gasPrice, maxFee, maxTip, baseFee).value; p.gasPrice <= p.feeCap
  {
  }

  lemma Shares(limit: int, used: int, price: int, tip: int, base: int)
    requires price == base + tip
    ensures 0 - limit * price + (limit - used) * price + used * tip == 0 - used * base
  {
    assert (limit - used) * price == limit * price - used * price;
    assert used * price == used * base + used * tip;
  }

  /**
   With a sender that still has its record, as every run leaves it (`Balances.KnownStays`), exactly the base fee
   leaves the total if and only if the coinbase is known at settlement or there is no tip.
   */
  lemma BurnsExactlyTheBaseFee(db: Store, start: State, msg: Message, ran: State, used: nat, coinbase: Address,
                               accounts: set<Address>, gasPrice: Option<nat>, maxFee: Option<nat>, maxTip: Option<nat>,
                               rules: Rules, baseFee: Option<nat>)
    requires msg.from in accounts && coinbase in accounts && used <= msg.gasLimit
    requires ToMessage(gasPrice, maxFee, maxTip, baseFee) == Some(msg.prices)
    requires GetBalance(db, start, msg.from) >= msg.gasLimit * msg.prices.feeCap
    requires Known(db, ran, msg.from) || (msg.gasLimit - used) * msg.prices.gasPrice == 0
    ensures var rest := (msg.gasLimit - used) * msg.prices.gasPrice;
            var tip := used * EffectiveTip(msg.prices, rules, baseFee);
            FeeChange(db, start, Bought(db, start, msg), ran, PaidOut(ran, msg.from, rest, coinbase, tip), accounts)
            == 0 - used * Base(rules, baseFee)
            <==> Known(db, ran, coinbase) || tip == 0
  {
    hide GetBalance, TotalOf, Known, Bought, EffectiveTip, ToMessage, FeeChange, PaidOut;
    FeesBurn(db, start, msg, ran, used, coinbase, accounts, gasPrice, maxFee, maxTip, rules, baseFee);
  }

  /** A coinbase the store does not know gets nothing that can be read: the whole price leaves the total. */
  lemma UnknownCoinbase(db: Store, start: State, msg: Message, ran: State, used: nat, coinbase: Address,
                        accounts: set<Address>, gasPrice: Option<nat>, maxFee: Option<nat>, maxTip: Option<nat>,
                        rules: Rules, baseFee: Option<nat>)
    requires msg.from in accounts && coinbase in accounts && used <= msg.gasLimit
    requires ToMessage(gasPrice, maxFee, maxTip, baseFee) == Some(msg.prices)
    requires GetBalance(db, start, msg.from) >= msg.gasLimit * msg.prices.feeCap
    requires Known(db, ran, msg.from) && coinbase !in db.accounts && Get(ran, coinbase).account.None?
    ensures var rest := (msg.gasLimit - used) * msg.prices.gasPrice;
            var tip := used * EffectiveTip(msg.prices, rules, baseFee);
            var end := PaidOut(ran, msg.from, rest, coinbase, tip);
            && GetBalance(db, end, coinbase) == 0
            && FeeChange(db, start, Bought(db, start, msg), ran, end, accounts) == 0 - used * msg.prices.gasPrice
  {
    hide TotalOf, Bought, EffectiveTip, ToMessage, FeeChange, Credit;
    var rest, tip := (msg.gasLimit - used) * msg.prices.gasPrice, used * EffectiveTip(msg.prices, rules, baseFee);
    FeesBurn(db, start, msg, ran, used, coinbase, accounts, gasPrice, maxFee, maxTip, rules, baseFee);
    PriceSplits(gasPrice, maxFee, maxTip, rules, baseFee);
    CreditMeans(db, ran, msg.from, rest, coinbase);
    CreditMeans(db, Credit(ran, msg.from, rest), coinbase, tip, coinbase);
    assert used * msg.prices.gasPrice == used * Base(rules, baseFee) + used * EffectiveTip(msg.prices, rules, baseFee);
  }

  // ---------------------------------------------------------------- a transaction makes no ether

  /** Over every set with these accounts among them, at least the amount leaves the total. */
  ghost predicate Burns(db: Store, s: State, t: State, amount: int, involved: set<Address>) {
    forall accounts: set<Address> :: involved <= accounts ==>
      TotalOf(db, t, accounts) <= TotalOf(db, s, accounts) - amount
  }

  /**
   With an execution that makes no ether, as every frame of the interpreter, a transaction burns at least the base
   fee of the gas it used, and overdraws no account. The one exception is a coinbase that is debited: a zero-fee
   call may overdraw it.
   */
  lemma TransactionsMakeNoEther(db: Store, start: State, msg: Message, ran: State, used: nat, coinbase: Address,
                                gasPrice: Option<nat>, maxFee: Option<nat>, maxTip: Option<nat>, rules: Rules,
                                baseFee: Option<nat>)
    requires used <= msg.gasLimit && ToMessage(gasPrice, maxFee, maxTip, baseFee) == Some(msg.prices)
    requires GetBalance(db, start, msg.from) >= msg.gasLimit * msg.prices.feeCap
    requires Solvent(db, start) && Frugal(db, Bought(db, start, msg), ran)
    requires EffectiveTip(msg.prices, rules, baseFee) >= 0 || Known(db, ran, coinbase)
    ensures var tip := EffectiveTip(msg.prices, rules, baseFee);
            var end := PaidOut(ran, msg.from, (msg.gasLimit - used) * msg.prices.gasPrice, coinbase, used * tip);
            && (exists involved :: Burns(db, start, end, used * Base(rules, baseFee), involved))
            && (tip >= 0 ==> Solvent(db, end))
  {
    hide GetBalance, TotalOf, Known, Bought, EffectiveTip, ToMessage, PaidOut, Solvent;
    var price, tip := msg.prices.gasPrice, EffectiveTip(msg.prices, rules, baseFee);
    var rest, share := (msg.gasLimit - used) * price, used * tip;
    var bought, end := Bought(db, start, msg), PaidOut(ran, msg.from, rest, coinbase, share);
    PriceWithinCap(gasPrice, maxFee, maxTip, baseFee);
    PurchaseSolvent(db, start, msg);
    PayoutSolvent(db, ran, msg.from, rest, coinbase, share);
    Sign(used, tip);
    var touched :| NoGain(db, bought, ran, touched);
    var involved := touched + {msg.from, coinbase};
    forall accounts: set<Address> | involved <= accounts
      ensures TotalOf(db, end, accounts) <= TotalOf(db, start, accounts) - used * Base(rules, baseFee)
    {
      assert msg.from in accounts && coinbase in accounts && touched <= accounts;
      FeesBurn(db, start, msg, ran, used, coinbase, accounts, gasPrice, maxFee, maxTip, rules, baseFee);
    }
    assert Burns(db, start, end, used * Base(rules, baseFee), involved);
  }

  lemma Sign(used: nat, tip: int)
    ensures tip >= 0 ==> used * tip >= 0
  {
  }

  /** The purchase overdraws nobody. */
  lemma PurchaseSolvent(db: Store, s: State, msg: Message)
    requires Solvent(db, s) && msg.prices.gasPrice <= msg.prices.feeCap
    requires GetBalance(db, s, msg.from) >= msg.gasLimit * msg.prices.feeCap
    ensures Solvent(db, Bought(db, s, msg))
  {
    hide GetBalance, Known, Credit;
    var t := Put(s, msg.from, LoadAccount(db, msg.from, Get(s, msg.from)).0);
    var price := msg.gasLimit * msg.prices.gasPrice;
    LoadReads(db, s, msg.from);
    MulMonotone(msg.prices.gasPrice, msg.prices.feeCap, msg.gasLimit);
    forall a ensures GetBalance(db, Bought(db, s, msg), a) >= 0 {
      CreditMeans(db, t, msg.from, 0 - price, a);
      assert GetBalance(db, s, a) >= 0;
    }
  }

  /** Nor does a payout of a tip that is not negative. */
  lemma PayoutSolvent(db: Store, s: State, from: Address, rest: int, coinbase: Address, tip: int)
    requires Solvent(db, s) && rest >= 0
    ensures tip >= 0 ==> Solvent(db, PaidOut(s, from, rest, coinbase, tip))
  {
    hide GetBalance, Known, Credit;
    forall a ensures tip >= 0 ==> GetBalance(db, PaidOut(s, from, rest, coinbase, tip), a) >= 0 {
      CreditMeans(db, s, from, rest, a);
      CreditMeans(db, Credit(s, from, rest), coinbase, tip, a);
      assert GetBalance(db, s, a) >= 0;
    }
  }
}
