/**
 EVM memory: sized in 32-byte words, paid for by a fee that is linear plus quadratic in the words. Gas is
 charged before the store grows, and every access then lies inside it.
 */
module Memory {
  import opened Common

  /** Above this size the square of the word count would not fit 64 bits. */
  const MAX_SIZE := 0x1FFFFFFFE0

  function Fee(words: nat): nat {
    3 * words + words * words / 512
  }

  /** toWordSize: the guard only avoids the overflow of size + 31. */
  function ToWordSize(size: uint64): (w: uint64)
    ensures 32 * w >= size && (w > 0 ==> 32 * (w - 1) < size)
  {
    if size > TWO_64 - 1 - 31 then (TWO_64 - 1) / 32 + 1 else (size + 31) / 32
  }

  lemma WordsOf(size: uint64)
    ensures ToWordSize(size) == (size + 31) / 32
  {
  }

  lemma WholeWords(size: uint64)
    requires size % 32 == 0
    ensures 32 * ToWordSize(size) == size
  {
  }

  /** calcMemSize64WithUint on a 256-bit offset: None is an overflow. */
  function CalcMemSize(offset: nat, length: nat): (r: Option<uint64>)
    ensures r == if length == 0 then Some(0) else if offset + length < TWO_64 then Some(offset + length) else None
  {
    if length >= TWO_64 then None
    else if length == 0 then Some(0)
    else if offset >= TWO_64 then None
    else
      var val: uint64 := Wrap64(offset + length);
      if val < offset then None else Some(val)
  }

  lemma FeeMonotone(v: nat, w: nat)
    requires v <= w
    ensures Fee(v) <= Fee(w)
  {
    assert v * v <= w * w by {
      MulMonotone(v, w, v);
      MulMonotone(v, w, w);
    }
  }

  lemma FeeFits(w: nat)
    requires w <= 0xFFFFFFFF
    ensures w * w < TWO_64 && Fee(w) < 0x100_0000_0000_0000
  {
    MulMonotone(w, 0xFFFFFFFF, w);
    MulMonotone(w, 0xFFFFFFFF, 0xFFFFFFFF);
    assert w * w <= 0xFFFFFFFF * 0xFFFFFFFF;
  }

  class Store {
    var store: seq<byte>
    var lastGasCost: uint64

    /** At every loop head of the interpreter: whole words, within the limit, and paid for exactly. */
    ghost predicate Paid()
      reads this
    {
      |store| % 32 == 0 && |store| <= MAX_SIZE && lastGasCost == Fee(|store| / 32)
    }

    /** Between the charge and Resize: the fee for `size` bytes is settled, the store not yet grown. */
    ghost predicate PaidFor(size: nat)
      reads this
    {
      && |store| % 32 == 0 && size % 32 == 0 && |store| <= MAX_SIZE && size <= MAX_SIZE
      && lastGasCost == Fee(if size > |store| then size / 32 else |store| / 32)
    }

    constructor ()
      ensures Paid() && store == []
    {
      store, lastGasCost := [], 0;
    }

    /** memoryGasCost: the subtraction never wraps, and the fee is what the growth adds. */
    method GasCost(newSize: uint64) returns (fee: Option<uint64>)
      requires Paid()
      modifies `lastGasCost
      ensures fee.None? <==> newSize > MAX_SIZE
      ensures fee.None? ==> Paid()
      ensures fee.Some? ==> var rounded := 32 * ToWordSize(newSize);
                            && PaidFor(rounded) && lastGasCost == old(lastGasCost) + fee.value
                            && fee.value < 0x100_0000_0000_0000
    {
      hide Fee;
      if newSize == 0 {
        return Some(0);
      }
      if newSize > MAX_SIZE {
        return None;
      }
      var words := ToWordSize(newSize);
      var size := words * 32;
      if size > |store| {
        FeeMonotone(|store| / 32, words);
        var newTotalFee := TotalFee(words);
        var cost := newTotalFee - lastGasCost;
        lastGasCost := newTotalFee;
        return Some(cost);
      }
      return Some(0);
    }

    /** The fee in 64-bit arithmetic: neither the square nor the sum overflows. */
    static method TotalFee(words: uint64) returns (fee: uint64)
      requires words <= 0xFFFFFFFF
      ensures fee == Fee(words) && fee < 0x100_0000_0000_0000
    {
      FeeFits(words);
      var square: uint64 := words * words;
      var linCoef: uint64 := words * 3;
      var quadCoef: uint64 := square / 512;
      fee := linCoef + quadCoef;
    }

    /** Resize */
    method Resize(size: uint64)
      requires PaidFor(size)
      modifies `store
      ensures Paid() && size <= |store| && old(store) <= store
      ensures forall i :: |old(store)| <= i < |store| ==> store[i] == 0
      ensures |store| == if size > |old(store)| then size else |old(store)|
    {
      if |store| < size {
        store := store + seq(size - |store|, _ => 0);
      }
    }

    /** Set: copies as much of the value as fits the window; panics when the window leaves the store. */
    method Set(offset: nat, size: nat, value: seq<byte>)
      requires size > 0 ==> offset + size <= |store|
      modifies `store
      ensures |store| == |old(store)|
      ensures forall i :: 0 <= i < |store| ==>
                store[i] ==
                if offset <= i < offset + size && i - offset < |value| then value[i - offset] else old(store)[i]
    {
      if size > 0 {
        var n := if |value| < size then |value| else size;
        store := store[..offset] + value[..n] + store[offset + n..];
      }
    }

    /** Set32 of a word given as its 32 bytes. */
    method Set32(offset: nat, value: seq<byte>)
      requires offset + 32 <= |store| && |value| == 32
      modifies `store
      ensures |store| == |old(store)| && store[offset..offset + 32] == value
      ensures forall i :: 0 <= i < |store| && !(offset <= i < offset + 32) ==> store[i] == old(store)[i]
    {
      store := store[..offset] + value + store[offset + 32..];
    }

    /** GetPtr and GetCopy: nil when nothing is asked for. */
    method Get(offset: nat, size: nat) returns (r: seq<byte>)
      requires size > 0 ==> offset + size <= |store|
      ensures |r| == size && forall i :: 0 <= i < size ==> r[i] == store[offset + i]
    {
      if size == 0 {
        return [];
      }
      r := store[offset..offset + size];
    }

    /** Copy, on ranges that may overlap. */
    method Copy(dst: nat, src: nat, len: nat)
      requires len > 0 ==> src + len <= |store| && dst + len <= |store|
      modifies `store
      ensures |store| == |old(store)|
      ensures len > 0 ==> store[dst..dst + len] == old(store)[src..src + len]
      ensures forall i :: 0 <= i < |store| && !(dst <= i < dst + len) ==> store[i] == old(store)[i]
    {
      if len == 0 {
        return;
      }
      store := store[..dst] + store[src..src + len] + store[dst + len..];
    }
  }

  /** The fees of any sequence of accesses add up to the fee of the final size: only the largest access counts. */
  method Expand(m: Store, sizes: seq<uint64>) returns (total: nat, ok: bool)
    requires m.Paid()
    modifies m
    ensures m.Paid() && total == Fee(|m.store| / 32) - Fee(|old(m.store)| / 32)
    ensures ok <==> forall i :: 0 <= i < |sizes| ==> sizes[i] <= MAX_SIZE
    ensures ok ==> forall i :: 0 <= i < |sizes| ==> sizes[i] <= |m.store|
    ensures |m.store| == |old(m.store)| || exists i :: 0 <= i < |sizes| && |m.store| == 32 * ToWordSize(sizes[i])
  {
    hide Fee, ToWordSize;
    total, ok := 0, true;
    for j := 0 to |sizes|
      invariant m.Paid() && total == m.lastGasCost - old(m.lastGasCost)
      invariant |old(m.store)| <= |m.store|
      invariant forall i :: 0 <= i < j ==> sizes[i] <= MAX_SIZE && sizes[i] <= |m.store|
      invariant |m.store| == |old(m.store)| || exists i :: 0 <= i < |sizes| && |m.store| == 32 * ToWordSize(sizes[i])
    {
      var fee := m.GasCost(sizes[j]);
      if fee.None? {
        return total, false;
      }
      total := total + fee.value;
      Rounded(sizes[j]);
      m.Resize(32 * ToWordSize(sizes[j]));
    }
  }

  lemma Rounded(size: uint64)
    requires size <= MAX_SIZE
    ensures size <= 32 * ToWordSize(size) <= MAX_SIZE
  {
  }
}
