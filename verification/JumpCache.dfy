/**
 Jump destinations of a contract. Analyses are kept per contract and, for code with a hash, in a map shared
 by all frames of a transaction; the map answers for whatever code was analysed under that hash first.
 */
module JumpCache {
  import opened Common
  import opened AccessLists
  import opened CodeBitmap

  ghost predicate Analysed(bits: seq<bv8>, code: seq<byte>) {
    |bits| == |code| / 8 + 5 && forall i: nat :: i < 8 * |bits| ==> Bit(bits, i) == InData(code, 0, i)
  }

  /** Which code belongs to which non-zero hash. */
  type CodeOf = Hash -> seq<byte>

  /** The shared map, with the code each analysis was made from. */
  class Jumpdests {
    var entries: map<Hash, seq<bv8>>
    ghost var codes: map<Hash, seq<byte>>

    ghost predicate Valid()
      reads this
    {
      entries.Keys == codes.Keys && forall h :: h in entries ==> Analysed(entries[h], codes[h])
    }

    /** Every analysis is of the code that belongs to its hash. */
    ghost predicate Right(codeOf: CodeOf)
      reads this
    {
      forall h :: h in codes ==> codes[h] == codeOf(h)
    }

    constructor ()
      ensures Valid() && entries == map[] && codes == map[]
    {
      entries, codes := map[], map[];
    }
  }

  /** The target is an instruction of the code, and a JUMPDEST. */
  predicate IsJumpdest(code: seq<byte>, dest: nat) {
    dest < |code| && code[dest] == JUMPDEST && IsStart(code, 0, dest)
  }

  /** What the analysis of `subject` says of a target in `code`; None is an index behind the bit vector, a panic. */
  function Judged(subject: seq<byte>, code: seq<byte>, dest: nat): Option<bool> {
    if dest >= |code| || code[dest] != JUMPDEST then Some(false)
    else if dest / 8 >= |subject| / 8 + 5 then None
    else Some(!InData(subject, 0, dest))
  }

  /** An analysis of the code itself judges every target right. */
  lemma OwnAnalysis(code: seq<byte>, dest: nat)
    ensures Judged(code, code, dest) == Some(IsJumpdest(code, dest))
  {
    if dest < |code| {
      StartOrData(code, 0, dest);
    }
  }

  class Contract {
    const code: seq<byte>
    const codeHash: Hash
    const jumpdests: Jumpdests
    var analysis: Option<seq<bv8>>
    ghost var analysed: seq<byte>

    /** The contract's own analysis is one of the code it names. */
    ghost predicate Own()
      reads this
    {
      analysis.Some? ==> Analysed(analysis.value, analysed)
    }

    ghost predicate Valid()
      reads this, jumpdests
    {
      jumpdests.Valid() && Own()
    }

    /** The code whose analysis answers for this contract. */
    ghost function Subject(): seq<byte>
      reads this, jumpdests
    {
      if analysis.Some? then analysed
      else if codeHash != 0 && codeHash in jumpdests.codes then jumpdests.codes[codeHash]
      else code
    }

    /** The contract's hash, if it has one, belongs to its code, and it was not analysed as anything else. */
    ghost predicate Honest(codeOf: CodeOf)
      reads this
    {
      (codeHash != 0 ==> code == codeOf(codeHash)) && (analysis.Some? ==> analysed == code)
    }

    constructor (code: seq<byte>, codeHash: Hash, jumpdests: Jumpdests)
      ensures this.code == code && this.codeHash == codeHash && this.jumpdests == jumpdests
      ensures Own() && analysis.None?
    {
      this.code, this.codeHash, this.jumpdests, analysis, analysed := code, codeHash, jumpdests, None, [];
    }

    /** isCode: the first of the local, the shared and a fresh analysis; None when the target is behind its bits. */
    method IsCode(dest: nat) returns (r: Option<bool>)
      requires Valid()
      modifies this, jumpdests
      ensures Valid() && Subject() == old(Subject()) && analysis.Some?
      ensures r == if dest / 8 >= |Subject()| / 8 + 5 then None else Some(!InData(Subject(), 0, dest))
      ensures jumpdests.codes == if codeHash != 0 && codeHash !in old(jumpdests.codes) && old(analysis).None?
                                 then old(jumpdests.codes)[codeHash := code] else old(jumpdests.codes)
    {
      hide Bit, InData;
      if analysis.None? {
        if codeHash != 0 {
          if codeHash !in jumpdests.entries {
            var bits := Analyse(code);
            jumpdests.entries := jumpdests.entries[codeHash := bits[..]];
            jumpdests.codes := jumpdests.codes[codeHash := code];
          }
          analysis := Some(jumpdests.entries[codeHash]);
          analysed := jumpdests.codes[codeHash];
        } else {
          var bits := Analyse(code);
          analysis := Some(bits[..]);
          analysed := code;
        }
      }
      if dest / 8 >= |analysis.value| {
        return None;
      }
      r := Some(!Bit(analysis.value, dest));
    }

    /** validJumpdest on a 256-bit stack value: whatever code was analysed first under the hash is the judge. */
    method ValidJumpdest(dest: nat) returns (r: Option<bool>)
      requires Valid() && |code| < TWO_64
      modifies this, jumpdests
      ensures Valid() && Subject() == old(Subject()) && r == Judged(Subject(), code, dest)
      ensures forall codeOf: CodeOf :: old(Honest(codeOf)) && old(jumpdests.Right(codeOf)) ==>
                r == Some(IsJumpdest(code, dest)) && Honest(codeOf) && jumpdests.Right(codeOf)
    {
      hide InData, IsStart;
      ghost var subject := Subject();
      OwnAnalysis(code, dest);
      if dest >= TWO_64 || dest >= |code| {
        return Some(false);
      }
      if code[dest] != JUMPDEST {
        return Some(false);
      }
      r := IsCode(dest);
      HonestKept(subject, old(analysis), old(analysed), old(jumpdests.codes));
    }

    /** With honest hashes the judge is the contract's own code, and the map gains no wrong entry. */
    lemma HonestKept(subject: seq<byte>, was: Option<seq<bv8>>, wasCode: seq<byte>, codes: map<Hash, seq<byte>>)
      requires subject ==
               if was.Some? then wasCode else if codeHash != 0 && codeHash in codes then codes[codeHash] else code
      requires Subject() == subject && analysis.Some?
      requires jumpdests.codes ==
               if codeHash != 0 && codeHash !in codes && was.None? then codes[codeHash := code] else codes
      ensures forall codeOf: CodeOf ::
                && (codeHash != 0 ==> code == codeOf(codeHash)) && (was.Some? ==> wasCode == code)
                && (forall h :: h in codes ==> codes[h] == codeOf(h)) ==>
                subject == code && Honest(codeOf) && jumpdests.Right(codeOf)
    {
    }
  }

  /** A question to one of the contracts. */
  datatype Ask = Ask(contract: nat, dest: nat)

  /**
   Any number of contracts share the map, and are asked in any order. If equal non-zero hashes belong to equal
   code, every answer is that of a fresh analysis.
   */
  method AnswerAll(codeOf: CodeOf, shared: Jumpdests, contracts: seq<Contract>, asks: seq<Ask>)
    returns (answers: seq<bool>)
    requires shared.Valid() && shared.Right(codeOf)
    requires forall i :: 0 <= i < |contracts| ==>
               && contracts[i].jumpdests == shared && contracts[i].Own() && contracts[i].Honest(codeOf)
               && |contracts[i].code| < TWO_64
    requires forall i :: 0 <= i < |asks| ==> asks[i].contract < |contracts|
    modifies shared, contracts
    ensures |answers| == |asks|
    ensures forall i :: 0 <= i < |asks| ==> answers[i] == IsJumpdest(contracts[asks[i].contract].code, asks[i].dest)
  {
    hide IsJumpdest, Judged, Analysed;
    answers := [];
    for n := 0 to |asks|
      invariant shared.Valid() && shared.Right(codeOf) && |answers| == n
      invariant forall i :: 0 <= i < |contracts| ==> contracts[i].Own() && contracts[i].Honest(codeOf)
      invariant forall i :: 0 <= i < n ==> answers[i] == IsJumpdest(contracts[asks[i].contract].code, asks[i].dest)
    {
      var c := contracts[asks[n].contract];
      assert c.Own() && c.Honest(codeOf);
      var r := c.ValidJumpdest(asks[n].dest);
      answers := answers + [r.value];
    }
  }

  /** Two codes under one hash: the second contract may jump into the argument of its PUSH1. */
  method SharedHash() returns (r: Option<bool>)
    ensures r == Some(true) && !IsJumpdest([PUSH1, JUMPDEST], 1)
  {
    var shared := new Jumpdests();
    var first := new Contract([JUMPDEST, JUMPDEST], 7, shared);
    var _ := first.IsCode(0);
    var second := new Contract([PUSH1, JUMPDEST], 7, shared);
    r := second.ValidJumpdest(1);
    assert !InData([JUMPDEST, JUMPDEST], 1, 1);
    assert !IsStart([PUSH1, JUMPDEST], 2, 1);
  }
}
