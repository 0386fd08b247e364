/**
 How much gas a call may take along: at most all but one 64th of what is left after its own charges. The
 subtraction wraps when the charges exceed the gas, and the cold surcharge is added without a check; neither
 lets a call through that cannot be paid.
 */
module CallGas {
  import opened Common

  const COLD_ACCOUNT := 2600
  const WARM_READ := 100
  const VALUE_TRANSFER := 9000
  const NEW_ACCOUNT := 25000
  const STIPEND := 2300

  /** A bound on memory fee, value transfer and account creation together. */
  const MAX_BASE := 0x200_0000_0000_0000

  function AllBut64th(gas: nat): nat {
    gas - gas / 64
  }

  function SafeAdd(a: uint64, b: uint64): Option<uint64> {
    if (a as int) + b < TWO_64 then Some(Wrap64(a + b)) else None
  }

  /** callGas on a 256-bit request; None is an overflow. */
  function CallGas(isEip150: bool, availableGas: uint64, base: uint64, request: nat): (r: Option<uint64>)
    ensures isEip150 && base <= availableGas ==>
              r == Some(if request < AllBut64th(availableGas - base) then request else AllBut64th(availableGas - base))
  {
    var available: uint64 := Wrap64(availableGas - base);
    var gas: uint64 := AllBut64th(available);
    if isEip150 && (request >= TWO_64 || gas < request) then Some(gas)
    else if request >= TWO_64 then None
    else Some(request)
  }

  /** The inner calculators: base cost plus what the callee gets. */
  function Inner(gas: uint64, base: uint64, request: nat): Option<(uint64, uint64)> {
    match CallGas(true, gas, base, request)
    case None => None
    case Some(temp) =>
      match SafeAdd(base, temp)
      case None => None
      case Some(cost) => Some((cost, temp))
  }

  /** makeCallVariantGasCallEIP2929: `access` is the cold surcharge or zero, added back without a check. */
  function Variant2929(gas: uint64, access: uint64, base: uint64, request: nat): Option<(uint64, uint64)> {
    if gas < access then None
    else
      match Inner(gas - access, base, request)
      case None => None
      case Some((cost, temp)) => Some((Wrap64(cost + access), temp))
  }

  /** makeCallVariantGasCallEIP7702: `access` also covers the resolution of a delegation. */
  function Variant7702(gas: uint64, access: uint64, base: uint64, request: nat): Option<(uint64, uint64)> {
    if gas < access then None
    else
      match Inner(gas - access, base, request)
      case None => None
      case Some((cost, temp)) =>
        match SafeAdd(cost, access)
        case None => None
        case Some(total) => Some((total, temp))
  }

  /** The gas function succeeds and its cost can then be paid. */
  predicate Proceeds(gas: uint64, r: Option<(uint64, uint64)>) {
    r.Some? && r.value.0 <= gas
  }

  /** With charges beyond the gas, the wrapped subtraction makes a cost far above it, or an overflow. */
  lemma WrappedNeverCheap(gas: uint64, base: uint64, request: nat)
    requires gas < base < MAX_BASE
    ensures Inner(gas, base, request).Some? ==>
              gas < Inner(gas, base, request).value.0 < TWO_64 - 2 * COLD_ACCOUNT
  {
    var x := TWO_64 + gas - base;
    assert Wrap64(gas - base) == x;
    assert x >= TWO_64 - MAX_BASE;
    var temp := CallGas(true, gas, base, request).value;
    assert temp <= x - x / 64;
  }

  /**
   A call goes ahead exactly when its access and base charges are covered; it then costs those charges plus
   what the callee gets, which is the request or all but one 64th of the rest, whichever is less.
   */
  lemma CallAffordable(gas: uint64, access: uint64, base: uint64, request: nat)
    requires access <= 2 * COLD_ACCOUNT && base < MAX_BASE
    ensures Proceeds(gas, Variant2929(gas, access, base, request)) <==> access + base <= gas
    ensures Proceeds(gas, Variant7702(gas, access, base, request)) <==> access + base <= gas
    ensures access + base <= gas ==>
              var rest := AllBut64th(gas - access - base);
              var temp := if request < rest then request else rest;
              && Variant2929(gas, access, base, request) == Some((access + base + temp, temp))
              && Variant7702(gas, access, base, request) == Some((access + base + temp, temp))
  {
    if gas >= access && gas - access < base {
      WrappedNeverCheap(gas - access, base, request);
    }
  }

  /**
   The callee, with its stipend, has less than the frame had before the step, and so has the caller when all of
   it comes back: the constant charge has been taken from `head`, and the stipend is covered by the transfer charge.
   */
  lemma ChildHasLess(head: uint64, access: uint64, base: uint64, request: nat, value: bool)
    requires access <= 2 * COLD_ACCOUNT && base < MAX_BASE && WARM_READ + access + base <= head
    requires value ==> base >= VALUE_TRANSFER
    ensures var (cost, temp) := Variant7702(head - WARM_READ, access, base, request).value;
            var child := temp + if value then STIPEND else 0;
            && child < head && (head - WARM_READ - cost) + child < head
  {
    CallAffordable(head - WARM_READ, access, base, request);
  }
}
