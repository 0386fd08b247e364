# Cardinal EVM in Dafny

Cardinal EVM is a stripped-down geth: an Ethereum virtual machine over a journaled state, with the codecs,
field arithmetic, hashing and fee logic around it. This project models its hardest parts and proves what they
are for. `dafny verify dfyconfig.toml` checks everything.

- **RLP** (`RlpSpec`, `RlpStream`, `RlpEncode`): the streaming decoder with its stack of remaining sizes and
  the encoder with its deferred list headers, both against one recursive tree encoding (Appendix B of the
  Ethereum Yellow Paper).
- **Contract ABI** (`AbiTypes`, `AbiPack`, `AbiUnpack`, `AbiWords`): head/tail encoding of nested static and dynamic
  types, and what a word means by itself.
- **BLS12-381 field** (`Montgomery`): multiplication, addition, subtraction and exponentiation on six 64-bit limbs.
- **Journaled state** (`AccessLists`, `StateSpec`, `Journal`, `StateCaches`, `StateDB`): undo entries as data, the
  claim that a revert restores every reading, and where cached reads get in its way.
- **Balances** (`Balances`, `Solvency`): what each operation does to the total of all balances, and that execution
  overdraws nobody and makes no ether.
- **Storage gas** (`Sstore`, `SstoreGas`, `Refund`, `Accrual`): net metering, the refund counter, and why it stays in
  range over execution with gas.
- **Jump analysis** (`CodeBitmap`, `JumpCache`, `CodeHashes`), **memory and call gas** (`Memory`, `CallGas`), and the
  **interpreter** (`Opcodes`, `Scopes`, `Effects`, `Evm`): mutually recursive frames with gas as the measure.
- **Meaning of execution** (`Semantics`, `Programs`): which derivation trees of turns, calls and creations the code
  allows, and what small programs do by them; the interpreter is proved against these trees.
- **Transactions** (`Fees`, `Deliveries`, `Transaction`, `EstimateGas`): fees, what a message asks for, and the whole
  transition around the interpreter.
- **BLAKE2b** (`Blake2b`): the digest around the compression function.

Objects that the Go code updates in place are classes; what their methods promise refers to specification
functions on values, and the theorems are about those functions. Byte strings are sequences of `byte`, unsigned
64-bit arithmetic is written out with `Wrap64`, and words of the EVM stack are naturals. The storage engine is the
value `Store`; Keccak, precompiles, arithmetic opcodes, address derivation and the BLAKE2b compression function
are parameters. Storage slots are named by their hashed keys.

Results worth knowing before reading:

- Some properties hold only under a condition, and the condition is exact. `DeleteSlot` is right only for a set
  that keeps a slot or is the last (`DeleteSlotExact`). `GetCodeHash`, `Exist` and `Empty` look at caches, so a
  mere read can change them (`CodeHashFirm`, `ExistFirm`, `ReadChangesCodeHash`). No run takes the refund counter
  below zero exactly from states that cover the cleared slots (`SafeExactlyWhenCovered`): every transaction starts
  in one (`TransactionsSafe`), a state override need not leave one (`OverrideUnderflows`,
  `ReplacedStorageUnderflows`). The gas search ends for every call exactly when its cap is at most 2^63
  (`EndsExactlyWhenSmall`), and errs although the cap works exactly when its bisection lands between intrinsic gas
  and data floor (`ErrsExactlyWhenLanding`), which an exact search always does when the floor decides
  (`DataHeavyCallErrs`). A zero-fee call with the base fee disabled debits the coinbase (`TipSign`). What an ABI type
  encodes in no bytes needs a word behind it to decode (`RoundTrip`, `EmptyArraysDecode`), and a fixed byte string
  wider than a word overruns its place (`StaticSize`, `WideShifts`).
- The interpreter executes its code. Every frame gives a tree whose turns start at the first instruction with an empty
  stack and memory, each do what their opcode means, at its exact price, and end at the first that halts, reverts or
  fails (`Runs`); calls and creations hang under the turns that make them, each in the frame of the right address,
  caller and value (`Calls`, `Creates`). A turn fails exactly when its operation is undefined, does not fit the stack,
  cannot be paid, must not act or jumps where the analysis lets nothing land. `StoresOneWord`, `CalleeStores`,
  `ReturnsZeros` and `DeploysZeros` follow for every operand. A transaction is rejected for exactly the first
  objection, and one that does not crash delivers its message (`Delivers`); a plain transfer moves exactly its value
  and the fees (`TransactionPays`).
- Every frame of the interpreter, however it ends, can be undone, overdraws no account, makes no ether and leaves
  fitting code hashes fitting (the relation is `Path`). A frame that does not panic adds at most 200 gas of refund for
  every unit of gas it spends, and with room for that the refund counter never leaves its range (`Accrues`).
  `TransitionDb` joins this with the fee steps: from a solvent state a transaction burns at least the base fee of the
  gas it used.
- A credit to an account without a record is never read back. So a transfer, a self-destruct and the beginning of a
  call keep the total of the balances exactly when the receiver has a record (`TransferTotal`, `SelfdestructTotal`,
  `CallKeepsTotal`), and the fee steps of a transaction burn exactly the base fee when the coinbase has one or there
  is no tip (`BurnsExactlyTheBaseFee`, `UnknownCoinbase`).
- The jump-analysis cache is right when equal non-zero code hashes mean equal code, over any queries of any
  contracts that share it (`AnswerAll`). `SharedHash` shows the wrong answer otherwise, and `SetCodeKeepsHash` that
  the state database itself can report one hash for two codes. The interpreter asks this cache. If hashing is
  injective and every account starts with a code hash that fits its code, which is so without code overrides
  (`FreshFits`, `SetCodeFits`), then in every run the program counter is at an instruction at every step and no jump
  panics (`Step`, `Loop`).
- Where comments and code differ the code is followed: `Exist` is documented to hold for destroyed accounts but
  asks only whether they are empty, `DeleteSlot` is documented to undo additions in the order they were made and
  is run in the reverse order, and a created account still reads the slots that the store holds for its address.

## Model

| member | source | states |
|---|---|---|
| `RlpSpec.PrefixFree` | rlp/encode.go:117-134 | no encoding is a proper prefix of another, and equal encodings come from equal values |
| `RlpSpec.EncodeAllInjective` | rlp/encode.go:302-340 | a list payload determines its elements |
| `RlpSpec.HeaderUnique` | rlp/encode.go:126-134 | the head of an item determines kind and payload size |
| `RlpSpec.FirstByte` | rlp/decode.go:1038-1096 | the ranges of the first byte: a byte itself, a short or long string, a short or long list |
| `RlpStream.HeaderParses` | rlp/decode.go:1038-1096 | the head parser reads back every head the encoding writes |
| `RlpStream.ParseHeadIsHeader` | rlp/decode.go:1038-1096 | a head the parser accepts is the canonical head for its size |
| `RlpStream.Stream.Kind` | rlp/decode.go:1011-1036 | the kind and size of the next value, read now or before, the end of a list, or the error, with the limit read before the tag |
| `RlpStream.Stream.ReadKind` | rlp/decode.go:1038-1096 | consumes a head and rejects a non-canonical one |
| `RlpStream.Stream.ReadUint` | rlp/decode.go:1098-1123 | a big-endian integer without leading zeros, zero for no bytes |
| `RlpStream.Stream.ReadFull` | rlp/decode.go:1125-1145 | reads exactly the bytes asked for or fails |
| `RlpStream.Stream.ReadByte` | rlp/decode.go:1147-1158 | reads one byte against all limits |
| `RlpStream.Stream.WillRead` | rlp/decode.go:1160-1176 | charges the input and the enclosing list, in wrapping arithmetic |
| `RlpStream.Stream.EnterList` | rlp/decode.go:796-817 | succeeds exactly when a list is ahead, whether or not its head has been read, opens it and takes its size off the enclosing one |
| `RlpStream.Stream.ListEnd` | rlp/decode.go:819-832 | closes a list exactly when it is used up |
| `RlpStream.Stream.Bytes` | rlp/decode.go:635-657 | the content of the string ahead, whether or not its head has been read, canonical single bytes only |
| `RlpStream.Stream.DecodeInterface` | rlp/decode.go:517-539 | accepts exactly an encoding in front of the input and moves past it |
| `RlpStream.Stream.DecodeListSlice` | rlp/decode.go:297-310 | accepts exactly the encoding of a list |
| `RlpStream.Stream.DecodeSliceElems` | rlp/decode.go:312-339 | the elements are those whose encodings fill the list |
| `RlpStream.DecodeBytes` | rlp/decode.go:92-106 | returns v exactly when the input is the encoding of v |
| `RlpStream.OverrunNeverCloses` | rlp/decode.go:796-830 | once the remaining count of a list has wrapped, the list never closes |
| `RlpStream.WrapsOuterCount` | rlp/decode.go:1011-1036 | C2 C2 01 01 makes the outer count wrap, and is rejected |
| `RlpEncode.IntSize` | rlp/encode.go:489-495 | the number of bytes of the minimal big-endian form |
| `RlpEncode.IntBytesAreDigits` | rlp/encode.go:431-487 | putint writes the minimal big-endian form |
| `RlpEncode.HeadBytes` | rlp/encode.go:117-134 | the head written in place is the head of the specification and has the computed size |
| `RlpEncode.EncBuffer.List` | rlp/encbuffer.go:194-197 | opens a list whose header is spliced in later |
| `RlpEncode.EncBuffer.ListEnd` | rlp/encbuffer.go:199-207 | closes the innermost list; the buffer stands for the tree with that list added |
| `RlpEncode.EncBuffer.Write` | rlp/encbuffer.go:107-110 | appends bytes to the innermost open list |
| `RlpEncode.EncBuffer.WriteUint64` | rlp/encbuffer.go:121-132 | appends the encoding of the integer |
| `RlpEncode.EncBuffer.WriteBytes` | rlp/encbuffer.go:134-142 | appends the encoding of the string |
| `RlpEncode.EncBuffer.Size` | rlp/encbuffer.go:54-56 | the length of the spliced output |
| `RlpEncode.EncBuffer.CopyTo` | rlp/encbuffer.go:65-80 | fills the array with the spliced output |
| `RlpEncode.EncBuffer.WriteTo` | rlp/encbuffer.go:82-104 | hands the writer the spliced output in order, up to its first error |
| `RlpEncode.EncBuffer.Encode` | rlp/encode.go:286-340 | writing a value adds exactly its encoding |
| `RlpEncode.EncodeToBytes` | rlp/encode.go:77-87 | the bytes are the recursive encoding of the value |
| `RlpEncode.ListEndRefines` | rlp/encbuffer.go:194-207 | patching a header size refines closing a list in the tree |
| `RlpEncode.SpliceConcat` | rlp/encbuffer.go:65-80 | splicing headers commutes with concatenation |
| `RlpEncode.EncReader.Next` | rlp/encbuffer.go:262-293 | the next piece of the output, headers and strings in order |
| `RlpEncode.EncReader.Read` | rlp/encbuffer.go:237-258 | the next bytes of the output into a caller's buffer |
| `RlpEncode.ReadSizes` | rlp/encbuffer.go:237-293 | reads of any sizes give the output in order |
| `RlpEncode.ReadChunks` | rlp/encode.go:89-101 | reading an encoded value in chunks of any sizes gives its encoding from the beginning |
| `AbiTypes.TotalSizeRepeat` | abi/type.go:386-401 | an array of static elements is as long as its elements together |
| `AbiTypes.CanonAllIsIdentity` | abi/pack.go:74-86 | reduction to 256 bits leaves values alone exactly when they fit |
| `AbiPack.StaticSize` | abi/type.go:386-401 | a static value is longer than getTypeSize by exactly what its byte strings exceed a word, so it fits exactly if none does |
| `AbiPack.BlockSplits` | abi/argument.go:227-267 | every dynamic offset of a head points at its own tail |
| `AbiPack.PackElements` | abi/type.go:272-353 | the loop over elements gives heads then tails, or fails for an ill-typed element |
| `AbiPack.PackType` | abi/type.go:272-353 | gives the encoding exactly for well-typed values; what its words mean is stated by the rows of AbiWords |
| `AbiPack.Pack` | abi/argument.go:227-267 | gives the block of all arguments exactly for well-typed values |
| `AbiPack.PackArgs` | abi/argument.go:227-267 | the argument loop with its running offset gives heads then tails |
| `AbiUnpack.IntegerRoundTrip` | abi/unpack.go:37-75 | an integer word reads back reduced to its width |
| `AbiUnpack.BoolRoundTrip` | abi/unpack.go:78-93 | a boolean word reads back |
| `AbiUnpack.PrefixFound` | abi/unpack.go:258-287 | offset and length prefix of a dynamic value are found where it lies |
| `AbiUnpack.BytesRoundTrip` | abi/unpack.go:194-255 | dynamic bytes and strings read back |
| `AbiUnpack.DecodeLocated` | abi/unpack.go:194-301 | a value of any nested type decodes from where it was placed exactly when all that takes no bytes has room, and is an error otherwise |
| `AbiUnpack.DecodeBlock` | abi/unpack.go:123-192 | the same for the components of a block, wherever the block lies |
| `AbiUnpack.AllSizedHaveRoom` | abi/unpack.go:123-198 | types whose every part takes bytes, dynamic ones among them, always have room |
| `AbiUnpack.ForEachUnpack` | abi/unpack.go:123-160 | the element loop |
| `AbiUnpack.UnpackValues` | abi/argument.go:189-218 | the argument loop with its virtual arguments, also that of tuples |
| `AbiUnpack.RoundTrip` | abi/argument.go:189-267 | UnpackValues of a packed block, whatever follows it, gives every value back, reduced to 256 bits, exactly when all that takes no bytes has room |
| `AbiUnpack.PackThenUnpack` | abi/argument.go:189-267 | packing then unpacking is the identity exactly for values that fit 256 bits and have room, and an error exactly without room |
| `AbiUnpack.PackInjective` | abi/argument.go:227-267 | different values have different encodings |
| `AbiUnpack.EmptyArraysDecode` | abi/unpack.go:123-160 | a slice of n empty static arrays decodes exactly when 32 bytes for each of them follow |
| `AbiUnpack.EmptyArrayFails` | abi/unpack.go:194-198 | a lone empty array packs to nothing and is rejected |
| `AbiUnpack.WideAlone` | abi/unpack.go:109-120 | a byte string of 33 bytes is packed whole and alone reads back |
| `AbiUnpack.WideShifts` | abi/type.go:151-157 | in front of a number it moves the number by one byte, so that another number is read |
| `AbiWords.IntegerIsNumber` | abi/pack.go:74-85 | an integer is 32 bytes that stand for it modulo 2^256 |
| `AbiWords.BoolIsNumber` | abi/pack.go:50-54 | a boolean is encoded as the number 0 or 1 |
| `AbiWords.AddressIsNumber` | abi/pack.go:44-49 | an address is encoded as the 160-bit number of its bytes |
| `AbiWords.FixedBytesLead` | abi/pack.go:63-67 | fixed bytes and functions come first in their word, zeros follow |
| `AbiWords.BytesFollowLength` | abi/pack.go:31-34 | length as a number, the bytes, and zeros up to a whole word |
| `AbiWords.AddressDecodes` | abi/unpack.go:242-243 | any word is read as the address of its low 160 bits |
| `AbiWords.BoolDecodes` | abi/unpack.go:78-93 | exactly the words 0 and 1 are booleans |
| `AbiWords.UintDecodes` | abi/unpack.go:37-51 | any word is read modulo 2^bits, or whole where there is no machine integer |
| `AbiWords.IntDecodes` | abi/unpack.go:53-75 | any word is read as the one number of the range congruent to it |
| `AbiWords.FunctionDecodes` | abi/unpack.go:96-107 | a function is the high 192 bits, and an error exactly when the low 64 are not zero |
| `AbiWords.FixedBytesDecode` | abi/unpack.go:109-120 | fixed bytes are the high bits of any word |
| `Montgomery.Madd0` | crypto/bls12381/arithmetic_fallback.go:477-484 | the high word of a product and a sum, no carry lost |
| `Montgomery.Madd1` | crypto/bls12381/arithmetic_fallback.go:486-493 | both words of a product and a sum |
| `Montgomery.Madd2` | crypto/bls12381/arithmetic_fallback.go:495-504 | both words of a product and two sums |
| `Montgomery.Madd3` | crypto/bls12381/arithmetic_fallback.go:558-566 | the same with a carry into the high word |
| `Montgomery.FirstRound` | crypto/bls12381/arithmetic_fallback.go:227-250 | the first of the six rounds divides exactly by 2^64 and stays below 2q |
| `Montgomery.Round` | crypto/bls12381/arithmetic_fallback.go:251-330 | every later round does the same |
| `Montgomery.Reduce` | crypto/bls12381/arithmetic_fallback.go:331-344 | one conditional subtraction brings the result below q |
| `Montgomery.Mul` | crypto/bls12381/arithmetic_fallback.go:227-344 | z is x * y / 2^384 mod q and below q, in place and with aliasing |
| `Montgomery.Add` | crypto/bls12381/arithmetic_fallback.go:42-63 | the sum mod q |
| `Montgomery.LAdd` | crypto/bls12381/arithmetic_fallback.go:88-96 | the sum mod 2^384, without reduction |
| `Montgomery.Double` | crypto/bls12381/arithmetic_fallback.go:108-129 | twice the value mod q |
| `Montgomery.Sub` | crypto/bls12381/arithmetic_fallback.go:165-182 | the difference mod q |
| `Montgomery.Neg` | crypto/bls12381/arithmetic_fallback.go:213-225 | the negation mod q |
| `Montgomery.MontProductIsHomomorphic` | crypto/bls12381/arithmetic_fallback.go:227-344 | the Montgomery product of two forms is the form of the product |
| `Montgomery.PlainInvertsMontForm` | crypto/bls12381/fp.go:76-82 | leaving Montgomery form undoes entering it |
| `Montgomery.ToMont` | crypto/bls12381/fp.go:76-78 | enters Montgomery form |
| `Montgomery.FromMont` | crypto/bls12381/fp.go:80-82 | leaves Montgomery form |
| `Montgomery.Exp` | crypto/bls12381/fp.go:84-93 | square-and-multiply gives the form of the power |
| `AccessLists.AddAddressWarms` | state/access_list.go:77-83 | exactly the address becomes warm, indexing stays sound |
| `AccessLists.AddSlotWarms` | state/access_list.go:90-108 | exactly the pair and its address become warm, indexing stays sound |
| `AccessLists.DeleteSlotExact` | state/access_list.go:114-129 | removes exactly the pair if and only if the set keeps a slot or is the last of the array |
| `AccessLists.AddSlotUndone` | state/access_list.go:90-137 | the undo of AddSlot gives the very same list back |
| `AccessLists.AccessList.Contains` | state/access_list.go:37-49 | whether address and slot are warm |
| `AccessLists.AccessList.Add` | state/access_list.go:77-83 | the new list, and whether it changed |
| `AccessLists.AccessList.Slot` | state/access_list.go:90-108 | the new list, and which parts changed |
| `AccessLists.AccessList.RemoveSlot` | state/access_list.go:114-129 | the list after the deletion and truncation |
| `AccessLists.AccessList.Remove` | state/access_list.go:135-137 | the list without the address |
| `StateSpec.SameIsSeen` | state/state_object.go:143-304 | states equal up to caches agree on every balance, nonce, code, slot, transient, suicide, refund and access-list reading |
| `StateSpec.TransferMoves` | vm/evm.go:95-102 | debit and credit change the readings of their accounts exactly when these have a record, and no other reading; also from an account to itself |
| `StateSpec.SetStateMeans` | state/statedb.go:213-222 | a written slot reads back, every other slot is untouched |
| `StateSpec.SetTransientMeans` | state/statedb.go:223-239 | the same for transient storage |
| `StateSpec.SettersMean` | state/state_object.go:236-275 | nonce and code read back |
| `StateSpec.CreateMeans` | state/statedb.go:133-150 | a created account keeps a live predecessor's balance, and starts with nonce 0 and no pending writes |
| `StateSpec.BalanceAfter` | state/statedb.go:133-340 | the balance of every account behind every operation |
| `StateSpec.NonceAfter` | state/statedb.go:133-340 | the nonce of every account behind every operation |
| `StateSpec.CodeAfter` | state/statedb.go:133-340 | the code of every account behind every operation |
| `StateSpec.SlotAfter` | state/statedb.go:133-340 | every slot, current and committed, behind every operation |
| `StateSpec.TransientAfter` | state/statedb.go:223-239 | every transient slot behind every operation |
| `StateSpec.SuicidedAfter` | state/statedb.go:249-263 | which accounts are marked behind every operation: by Suicide any that is not gone, by SelfDestruct6780 only one made in this transaction |
| `StateSpec.CreatedAfter` | state/statedb.go:133-150 | only a creation makes an account one of this transaction, and no operation makes it gone |
| `StateSpec.KnownAfter` | state/statedb.go:133-150 | a creation gives an account its record, and no operation takes one away |
| `StateSpec.WarmAfter` | state/statedb.go:318-340 | which addresses and slots are warm behind every operation |
| `StateSpec.RefundAfter` | state/statedb.go:198-207 | the refund counter behind every operation, modulo 2^64 |
| `StateSpec.FinaliseCommits` | state/statedb.go:112-119 | current storage becomes committed, destroyed accounts read as gone |
| `Journal.UnwindSame` | state/state_object.go:191-320 | an undo entry acts alike on states equal up to caches, and does not panic on one if not on the other |
| `Journal.ApplyUndone` | state/statedb.go:133-340 | the entries of every operation undo it, up to caches, without a panic |
| `Journal.WarmSlotUndone` | state/statedb.go:328-340 | a slot warmed with its address is undone slot first, then address |
| `Journal.CreateUndone` | state/statedb.go:133-150 | undoing a creation puts the loaded predecessor back |
| `Journal.RevertUnwinds` | state/statedb.go:341-346 | reverting to an inner snapshot leaves outer snapshots intact |
| `Journal.RevertRestores` | state/statedb.go:341-347 | after any run with nested snapshots and reverts, RevertToSnapshot restores every reading without a panic |
| `StateCaches.CodeHashFirm` | state/state_object.go:251-259 | no read changes GetCodeHash exactly for settled accounts |
| `StateCaches.ReadChangesCodeHash` | state/state_object.go:251-259 | reading the balance changes the code hash of an account whose code was set |
| `StateCaches.SetCodeKeepsHash` | state/state_object.go:251-275 | setting the code of a loaded account leaves its hash |
| `StateCaches.ExistFirm` | state/state_object.go:322-324 | loading an account never changes Exist and Empty exactly for settled objects |
| `StateCaches.RevertRestoresQueries` | state/statedb.go:269-285 | a revert restores GetCodeHash, Exist and Empty of settled accounts |
| `StateDB.Database.Balance` | state/statedb.go:166-172 | the balance, filling only caches |
| `StateDB.Database.Nonce` | state/statedb.go:173-176 | the nonce, filling only caches |
| `StateDB.Database.CodeBytes` | state/statedb.go:186-189 | the code, filling only caches |
| `StateDB.Database.CodeHashAt` | state/statedb.go:181-184 | the code hash as the caches have it |
| `StateDB.Database.CommittedSlot` | state/statedb.go:209-212 | the committed slot, filling only caches |
| `StateDB.Database.Slot` | state/statedb.go:213-218 | the current slot, filling only caches |
| `StateDB.Database.Exists` | state/statedb.go:274-278 | whether the account exists |
| `StateDB.Database.Empty` | state/statedb.go:282-285 | whether the account is empty |
| `StateDB.Database.AddSigned` | state/state_object.go:191-212 | the new delta and its undo entry |
| `StateDB.Database.SetSlot` | state/state_object.go:300-307 | the pending slot and its undo entry |
| `StateDB.Database.SetTransient` | state/statedb.go:223-232 | the transient slot and its undo entry |
| `StateDB.Database.PutNonce` | state/state_object.go:245-249 | the nonce and its undo entry |
| `StateDB.Database.PutCode` | state/state_object.go:268-275 | the code with its hash and its undo entry |
| `StateDB.Database.PutBalance` | state/state_object.go:230-234 | the balance override and its undo entry |
| `StateDB.Database.PutStorage` | state/state_object.go:308-312 | the storage override and its undo entry |
| `StateDB.Database.Create` | state/statedb.go:133-150 | the new account and the loaded predecessor in its undo entry |
| `StateDB.Database.Kill` | state/state_object.go:314-320 | marks the account once |
| `StateDB.Database.ChangeRefund` | state/statedb.go:198-207 | the wrapping counter and its undo entry |
| `StateDB.Database.Warm` | state/statedb.go:320-324 | the warm address and its undo entry |
| `StateDB.Database.WarmStorage` | state/statedb.go:328-340 | the warm pair and its one or two undo entries |
| `StateDB.Database.RevertTo` | state/statedb.go:341-346 | runs the undo entries from the last to the snapshot and cuts the journal |
| `StateDB.Database.FinaliseAll` | state/statedb.go:112-119 | finalises every object and clears the per-transaction parts |
| `StateDB.Database.Attempt` | state/statedb.go:341-347 | snapshot, any run, revert: every reading is as before |
| `Balances.CreditTotal` | state/statedb.go:152-172 | a credit or debit shows in the total of the balances exactly when the account has a record |
| `Balances.TransferTotal` | vm/evm.go:95-102 | a transfer keeps the total exactly when it moves nothing or both accounts have a record, or neither |
| `Balances.SelfdestructTotal` | vm/eips.go:337-352 | a self-destruct keeps the total exactly when there was nothing to move or the beneficiary has a record |
| `Balances.CallTotal` | vm/evm.go:198-232 | the beginning of a call keeps the total exactly when the receiver has or gets a record and no destroyed balance is replaced |
| `Balances.KnownStays` | state/statedb.go:133-347 | an account with a record keeps one through any run with nested snapshots and reverts |
| `Solvency.FrugalTransfer` | vm/evm.go:95-102 | a payment the payer can make overdraws no account and makes no ether |
| `Solvency.FrugalCreate` | state/statedb.go:133-150 | neither does a creation, which may lose the balance of a destroyed predecessor |
| `Solvency.FrugalByOp` | state/statedb.go:133-340 | nor any operation of the state database but a credit, a debit and a balance override |
| `Solvency.FrugalTransitive` | vm/interpreter.go:193-252 | steps that make no ether compose, over all accounts that any of them involves |
| `Sstore.NetCost` | vm/gas_table.go:123-221 | the charge of a write less its refund is the per-write charge plus the change of the slot's potential |
| `Sstore.NetIsPathIndependent` | vm/operations_acl.go:29-98 | the net price of any run of writes depends only on its length, first and last value |
| `Sstore.FailedFrame` | vm/evm.go:262-274 | a failed frame with refunds, writes and creations leaves the state as at its start |
| `SstoreGas.NetGas` | vm/gas_table.go:181-221 | cost and refund operations of a net-metered write |
| `SstoreGas.GasSStore` | vm/gas_table.go:99-167 | legacy pricing or EIP-1283 |
| `SstoreGas.GasSStoreEIP2200` | vm/gas_table.go:181-221 | the sentry, then EIP-2200 pricing |
| `SstoreGas.GasSStoreEIP2929` | vm/operations_acl.go:29-98 | the sentry, the cold surcharge and warming, then EIP-2929 or EIP-3529 pricing |
| `Refund.RefundsCover` | vm/gas_table.go:123-167 | a write takes from the counter at most what clearing its slot put there |
| `Refund.RefundSafe` | vm/operations_acl.go:29-98 | from a covered state no run of any length of writes, unpaid writes, creations and nested frames takes the counter below zero or panics |
| `Refund.CleanStart` | state/statedb.go:112-119 | a state with every slot as committed is covered |
| `Refund.TransactionsSafe` | vm/gas_table.go:99-221 | the same for every transaction under each of the four net-metered pricings |
| `Refund.SafeExactlyWhenCovered` | vm/gas_table.go:123-136 | no run underflows if and only if the start is covered |
| `Refund.OverrideUnderflows` | api/eth.go:188-193 | on a clean state, a slot overridden to zero and then written underflows the counter |
| `Refund.ReplacedStorageUnderflows` | api/eth.go:184-187 | so does a storage that was replaced as a whole |
| `Accrual.IdleByOp` | state/statedb.go:133-340 | no operation but a storage write or a refund touches the counter or uncovers it |
| `Accrual.SstoreAccrues` | vm/operations_acl.go:29-98 | a charged and written slot: with room above, no call on the counter leaves its range, the slots are covered again, and the cost pays for the refund |
| `Accrual.AccruesTransitive` | vm/interpreter.go:193-252 | spending gas composes: what one stretch leaves is what the next may use |
| `CodeBitmap.StartOrData` | vm/analysis.go:75-118 | inside the code a byte is an instruction or PUSH data, never both |
| `CodeBitmap.SetN` | vm/analysis.go:33-43 | marks exactly n bits, given that nothing ahead is set |
| `CodeBitmap.Set8` | vm/analysis.go:45-49 | marks exactly eight bits |
| `CodeBitmap.Set16` | vm/analysis.go:51-56 | marks exactly sixteen bits |
| `CodeBitmap.MarkArgument` | vm/analysis.go:82-114 | marks exactly the argument of one PUSH |
| `CodeBitmap.Analyse` | vm/analysis.go:64-118 | a bit is set exactly for PUSH data, also behind the end of the code, and no write leaves the vector |
| `JumpCache.Contract.IsCode` | vm/contract.go:102-131 | answers for the code that was analysed first under the hash, for every target, or panics beyond its bitmap |
| `JumpCache.Contract.ValidJumpdest` | vm/contract.go:86-98 | for every target as that code says; as a fresh analysis would, without a panic, when every hash in the map belongs to one code |
| `JumpCache.AnswerAll` | vm/contract.go:86-131 | any queries of any contracts sharing the map are answered as by fresh analyses when equal non-zero hashes mean equal code |
| `JumpCache.SharedHash` | vm/contract.go:102-131 | two codes under one hash: a jump into PUSH data is accepted |
| `CodeHashes.FittingHash` | state/state_object.go:251-259 | where the record fits, the reported hash is zero or that of the code, whatever is cached |
| `CodeHashes.FreshFits` | state/state_object.go:169-189 | a state nothing was done to is fit |
| `CodeHashes.SetCodeFits` | state/state_object.go:268-275 | setting code keeps this exactly when the record has no other hash, or the code never jumps or is never read |
| `CodeHashes.OrderlyByOp` | state/statedb.go:133-340 | every other operation keeps it, and so does setting the code of an account created in the transaction |
| `Memory.ToWordSize` | vm/common.go:67-73 | the number of words that hold the size, for every 64-bit size |
| `Memory.CalcMemSize` | vm/common.go:27-50 | offset plus length, or an overflow, for every 256-bit operand |
| `Memory.Store.GasCost` | vm/gas_table.go:30-57 | neither square nor subtraction wraps, and the fee is the growth of 3w + w*w/512 |
| `Memory.Store.Resize` | vm/memory.go:65-69 | the store holds the size, old bytes stay, new ones are zero |
| `Memory.Store.Set` | vm/memory.go:37-48 | copies as much as fits the window |
| `Memory.Store.Set32` | vm/memory.go:52-62 | the word at the offset, the rest untouched |
| `Memory.Store.Get` | vm/memory.go:72-98 | the bytes of the window |
| `Memory.Store.Copy` | vm/memory.go:114-119 | copies between overlapping ranges |
| `Memory.Expand` | vm/gas_table.go:30-57 | the fees of any sequence of accesses add up to the fee of the final size |
| `CallGas.CallGas` | vm/gas.go:37-53 | the request or all but one 64th of the rest, whichever is less |
| `CallGas.WrappedNeverCheap` | vm/gas.go:37-53 | when the charges exceed the gas, the wrapped subtraction gives a cost above it or an overflow |
| `CallGas.CallAffordable` | vm/operations_acl.go:162-194 | a call goes ahead exactly when access and base charges are covered, and then costs those and its share |
| `CallGas.ChildHasLess` | vm/instructions.go:667-707 | the callee, stipend included, has less than the caller had before the step, and so has the caller when all comes back |
| `Opcodes.ResizedForWindows` | vm/memory_table.go:19-121 | every slice an operation takes lies inside the resized memory |
| `Opcodes.NextStart` | vm/instructions.go:877-913 | behind a PUSH and its argument comes an instruction |
| `Scopes.Scope.UseGas` | vm/contract.go:163-169 | takes the amount or nothing |
| `Scopes.Scope.JumpTo` | vm/instructions.go:535-559 | a target the shared analysis accepts is reached after the increment, target 0 by wrapping; any other fails, and one beyond the bitmap panics |
| `Scopes.Scope.ExecuteStack` | vm/instructions.go:491-578 | the new stack and program counter, which is at an instruction after the increment when the shared analyses are right |
| `Scopes.Scope.MovedWords` | vm/instructions.go:916-930 | DUP copies and SWAP exchanges the right words |
| `Scopes.Scope.Mload` | vm/instructions.go:496-501 | pushes the word in memory |
| `Scopes.Scope.Mstore` | vm/instructions.go:503-514 | the low bytes of the word are in memory, the rest untouched |
| `Scopes.Scope.Mcopy` | vm/eips.go:314-324 | the window is copied, the rest untouched |
| `Scopes.Scope.ExecuteMemory` | vm/instructions.go:496-514 | which of MLOAD, MSTORE, MSTORE8 and MCOPY the opcode is, and what it makes of stack and memory |
| `Effects.QuietIsSeen` | vm/interpreter.go:128-139 | quiet execution changes no reading of an account that was loaded and existed, and no transient slot |
| `Effects.QuietCreate` | vm/evm.go:211-228 | creating an account that did not exist is quiet |
| `Effects.RevertMoves` | vm/evm.go:262-274 | the snapshot of a frame is restored whatever the frame did |
| `Effects.PathByTransfer` | vm/evm.go:95-102 | a payment the payer can make is undoable, makes no ether and leaves refunds and code hashes alone |
| `Effects.PathTransitive` | vm/interpreter.go:193-252 | paths of execution compose |
| `Evm.Interpreter.AccessCost` | vm/operations_acl.go:255-291 | the access charge of a call with delegation, or out of gas, and the state it leaves |
| `Evm.Interpreter.CallCost` | vm/operations_acl.go:255-313 | exactly what a call has to pay for access, base and memory, and the share of the callee by the 63/64 rule; dearer than the gas exactly when these are |
| `Evm.Interpreter.SloadCost` | vm/operations_acl.go:105-117 | 100 or 2100, and the slot is warm |
| `Evm.Interpreter.SstoreCost` | vm/operations_acl.go:29-98 | None exactly at the sentry; otherwise the EIP-3529 price with the cold surcharge, the slot warmed and the refund settled, which the price pays for once the slot is written; never the panic for a cold address |
| `Evm.Interpreter.SelfdestructCost` | vm/operations_acl.go:225-248 | the cold and new-account charges, and the beneficiary is warm |
| `Evm.Interpreter.WordCost` | vm/gas_table.go:446-477 | the memory fee plus the charge per word copied or of init code, None exactly beyond the limits |
| `Evm.Interpreter.Charge` | vm/interpreter.go:200-241 | goes on exactly when the operation is affordable; then exactly its price is paid, memory has grown by zeros, the state is that of the payment, windows lie in memory, and a call's share is set aside |
| `Evm.Interpreter.Step` | vm/interpreter.go:193-252 | the turn is one of the semantics: it fails, goes on, halts, reverts or calls as its opcode means; one that goes on leaves less gas, memory whole and paid for, and refunds that the gas pays for; while code hashes fit, the program counter is at an instruction and nothing panics |
| `Evm.Interpreter.Loop` | vm/interpreter.go:193-260 | the answer is that of the turns from the first instruction to the first that does not go on; the run ends, with no more gas than it got; from a trusted state it does not panic; a success has paid for its refunds |
| `Evm.Interpreter.Run` | vm/interpreter.go:128-260 | the code runs in the frame of the given address, caller, value, flag and depth, as the semantics says; read-only flag and depth are restored, also by a panic; the frame overdraws no account, makes no ether and keeps code hashes fitting; a success has paid for its refunds, and is quiet if static |
| `Evm.Interpreter.ExecuteStack` | vm/instructions.go:491-578 | stack, program counter and outcome are those of the opcode, jumps as the shared analysis judges them |
| `Evm.Interpreter.ExecuteLoad` | vm/instructions.go:516-533 | SLOAD and TLOAD push the slot of the frame's account |
| `Evm.Interpreter.ExecuteStore` | vm/instructions.go:516-533 | SSTORE and TSTORE write it, and fail under the read-only flag |
| `Evm.Interpreter.ExecuteHalt` | vm/instructions.go:803-842 | STOP, RETURN, REVERT and SELFDESTRUCT end the frame with the bytes and the state their opcode means |
| `Evm.Interpreter.Selfdestruct` | vm/eips.go:337-352 | the balance moves to the beneficiary; an account not made in this transaction keeps nonce, code and slots, also when the transaction is over; the total is kept exactly when there was nothing to move or the beneficiary has a record |
| `Evm.Interpreter.ExecuteCall` | vm/instructions.go:667-801 | the request is that of the opcode: callee, value, window of memory, share and stipend, and for DELEGATECALL the caller and value of the frame itself; child gas below the gas at the start of the step, no overflow when the rest is added back |
| `Evm.Interpreter.Return` | vm/instructions.go:691-706 | the flag, the return data in its window and the gas that is left |
| `Evm.Interpreter.Transfer` | vm/evm.go:95-102 | debit and credit, nothing at all for zero |
| `Evm.Interpreter.Pay` | vm/evm.go:95-102 | a debit and a credit covered by the payer, which overdraw nobody and make no ether |
| `Evm.Interpreter.Enter` | vm/evm.go:244-275 | the precompile or the code of the target ran for the request; a frame that fails or reverts leaves the state as at its snapshot |
| `Evm.Interpreter.ResolveCode` | vm/evm.go:540-551 | the code itself, or that of the target of its delegation |
| `Evm.Interpreter.ResolveHash` | vm/evm.go:552-565 | the hash the caches have for the account whose code is run |
| `Evm.Interpreter.Load` | vm/evm.go:249-257 | code and hash in the order each call variant asks for them; the code is the resolved one, and in a fit state the hash is zero or that of the code |
| `Evm.Interpreter.Call` | vm/evm.go:198-275 | the call is one of the semantics: refused exactly when too deep or without funds, nothing for an absent account, otherwise the account created, the value moved and the code of the target run in its name; an error leaves every reading as at entry; no ether is made, refunds are paid for, and from a trusted state nothing panics |
| `Evm.CallKeepsTotal` | vm/evm.go:198-232 | the state in which the callee starts has the same total of balances exactly when the receiver has or gets a record and no destroyed balance is replaced |
| `Evm.Interpreter.CallCode` | vm/evm.go:284-324 | the code of the target runs in the caller's own account, with the caller as caller and the value it names |
| `Evm.Interpreter.DelegateCall` | vm/evm.go:331-363 | the code of the target runs in the caller's account, for the caller's own caller and with the caller's own value |
| `Evm.Interpreter.StaticCall` | vm/evm.go:369-419 | the code of the target itself runs read-only in its own account without value; quiet however deep and through whichever call variants |
| `Evm.Interpreter.ExecuteCreate` | vm/instructions.go:580-665 | the order is that of the opcode: init code, value, address and all but one 64th of the gas; the rest and what comes back are kept, the new address or zero is pushed |
| `Evm.Interpreter.Launch` | vm/instructions.go:580-665 | the share that goes along, the creation, and what comes back, with refunds paid for |
| `Evm.Interpreter.Spawn` | vm/evm.go:522-536 | the address by nonce or by salt and code, then the creation, whose code hash is known only to CREATE2 |
| `Evm.Interpreter.Announce` | vm/evm.go:443-449 | the nonce goes up by one and the address is warm, before the snapshot, and nothing else |
| `Evm.Interpreter.Taken` | vm/evm.go:450-454 | an address with a nonce or code cannot be created |
| `Evm.Interpreter.Create` | vm/evm.go:434-520 | the creation is one of the semantics: denied exactly when too deep or without funds, a clash exactly when the address is taken, otherwise the init code run in the endowed account and what it returned deposited or all undone; no ether is made, refunds are paid for and code hashes keep fitting |
| `Evm.Interpreter.Deposit` | vm/evm.go:479-504 | code is stored exactly when size, prefix and gas allow it |
| `Evm.Interpreter.RunPrecompiled` | vm/contracts.go:290-298 | the output and the gas beyond the required amount, or a failure |
| `Semantics.DestructsMarks` | vm/eips.go:337-352 | which account a self-destruct marks; every other reading but balances stays, and unmarked accounts read the same when the transaction is over |
| `Semantics.DestructsMoves` | vm/eips.go:337-352 | the balance of every account behind a self-destruct |
| `Programs.StackTurn` | vm/interpreter.go:193-252 | with room and gas a stack operation goes on with its stack and its price paid |
| `Programs.SstoreTurn` | vm/instructions.go:524-533 | with gas and outside a static frame SSTORE writes its slot and no other |
| `Programs.StoresOneWord` | vm/interpreter.go:193-260 | every run of a program that pushes a word and stores it: the slot holds it, no other slot changes, and exactly the price is gone |
| `Programs.CalleeStores` | vm/evm.go:198-363 | a callee that stores its address, caller or value shows in whose name CALL, CALLCODE and DELEGATECALL run it |
| `Programs.ReturnsZeros` | vm/instructions.go:803-808 | every run of a program that returns memory gives that many zeros, the state as it was and the gas less the price |
| `Programs.DeploysZeros` | vm/evm.go:434-520 | a creation with that init code leaves exactly these bytes as code |
| `Fees.IntrinsicGas` | api/state_transition.go:121-169 | the exact sum, None exactly on overflow of the data part, wrapping in the list part |
| `Fees.FloorDataGas` | api/state_transition.go:172-184 | the EIP-7623 floor of tokens counted in 64 bits, None exactly on overflow |
| `Fees.PriceSplits` | api/transaction_args.go:106-134 | for every message the gas price is base fee plus effective tip |
| `Fees.TipSign` | api/state_transition.go:407-411 | the coinbase is debited exactly in a zero-fee call that skipped the fee checks |
| `Fees.GasPool.AddGas` | api/gaspool.go:29-35 | adds without overflow |
| `Fees.GasPool.SubGas` | api/gaspool.go:39-45 | takes the amount or fails |
| `Fees.LargestRebate` | api/state_transition.go:420-433 | the sender gets the largest rebate within the refund counter and a fifth of the gas consumed, a half before London, and pays at least the floor |
| `Transaction.StateTransition.BuyGas` | api/state_transition.go:229-248 | which of balance and pool falls short, if either; otherwise the price is taken from the sender's balance |
| `Transaction.StateTransition.CheckNonce` | api/state_transition.go:250-260 | the nonce is that of the sender, or too high or too low, where it is looked at |
| `Transaction.StateTransition.PayIntrinsic` | api/state_transition.go:324-344 | takes exactly the intrinsic gas, or gives the first check that fails |
| `Transaction.StateTransition.Prepare` | api/state_transition.go:346-359 | rejects exactly when the value cannot be paid or the init code is too long; otherwise prepares the access list |
| `Transaction.StateTransition.PrepareAccessList` | state/statedb.go:286-306 | exactly sender, receiver, precompiles, the listed addresses and slots and from Shanghai the coinbase become warm, nothing else is touched |
| `Transaction.AuthAccrues` | api/state_transition.go:458-460 | the refund of an authorisation is paid for by its charge |
| `Transaction.StateTransition.ApplyAuthorization` | api/state_transition.go:442-468 | not for this chain, looked at and skipped, or applied, exactly as its conditions say; makes no ether, keeps code hashes fitting, pays for its refund; panics only for an authority with code of one or two bytes |
| `Transaction.StateTransition.ApplyAll` | api/state_transition.go:370-375 | the same for all of them; a panic is foreseeable from the state at the start |
| `Transaction.StateTransition.Execute` | api/state_transition.go:364-388 | the message is delivered: nonce, authorisations and warming, then the call of the receiver with the data, gas and value of the message, or the creation from them |
| `Transaction.StateTransition.Enter` | api/state_transition.go:387 | the outermost call is from the sender to the receiver with the message's data and value |
| `Transaction.StateTransition.Deploy` | api/state_transition.go:364-365 | the outermost creation is from the sender with the message's data and value |
| `Deliveries.DesignatorParses` | api/state_transition.go:461-465 | a delegation that is written is read back as one |
| `Deliveries.DelegatesMeans` | api/state_transition.go:458-467 | an applied authorisation shows in code, nonce and refund, and in no balance |
| `Deliveries.Listed` | state/statedb.go:296-301 | the listed addresses and slots are those of the entries |
| `Deliveries.CallPays` | vm/evm.go:198-275 | a call of a known account without code moves exactly the value and returns all its gas |
| `Deliveries.TransactionPays` | api/state_transition.go:303-417 | a plain transfer: exactly the value more on the receiver, that and the price of the gas used less on the sender, the tip on the coinbase, nothing else |
| `Transaction.StateTransition.Settle` | api/state_transition.go:389-411 | used gas is the floor or execution gas less the capped refund; sender, pool and coinbase get their parts |
| `Transaction.StateTransition.TransitionDb` | api/state_transition.go:303-417 | rejected exactly for the first objection; otherwise the message is delivered from the purchase on, with its answer; the execution goes on from the purchase on a path that makes no ether; used gas within the limit and at least the floor, the pool falls by exactly it; from a solvent state at least the base fee is burnt and nobody overdrawn; refunds are paid for; a panic needs an unfit code hash or a short authority code |
| `Fees.FeesBurn` | api/state_transition.go:229-248 | whatever the execution does, the fee steps take the base fee of the used gas out of the total, and besides exactly what they pay to accounts without a record |
| `Fees.BurnsExactlyTheBaseFee` | api/state_transition.go:389-411 | they burn exactly the base fee if and only if the coinbase has a record or there is no tip |
| `Fees.UnknownCoinbase` | api/state_transition.go:407-411 | with a coinbase the store does not know they burn the whole price of the used gas |
| `Fees.TransactionsMakeNoEther` | api/state_transition.go:303-417 | from a solvent state and with an execution that makes no ether at least the base fee of the used gas leaves the total, and no account is overdrawn unless a zero-fee call debits the coinbase |
| `Transaction.StateTransition.MakesNoEther` | api/state_transition.go:303-417 | the same with the interpreter as the execution |
| `EstimateGas.CapIsFunded` | api/eth.go:376-422 | every limit up to the cap can be paid on top of the value |
| `EstimateGas.AnswerSucceeds` | api/eth.go:441-478 | for every cap the answer is within it, was run and succeeded, and its state is of that run |
| `EstimateGas.LeastGas` | api/eth.go:441-478 | for every cap and a call monotone in gas the exact answer is the least limit that works |
| `EstimateGas.Search` | api/eth.go:441-478 | the loop gives that answer, and in exact mode one less failed, in approximate mode a limit within one percent |
| `EstimateGas.EndsExactlyWhenSmall` | api/eth.go:441-460 | the search ends for every call exactly when the cap is at most 2^63 |
| `EstimateGas.WrappedAnswer` | api/eth.go:441-460 | above 2^63 an exact search may answer a limit although one less works |
| `EstimateGas.ErrsExactlyWhenLanding` | api/eth.go:425-452 | for every cap that works the search errs exactly when its bisection lands between intrinsic gas and data floor |
| `EstimateGas.BindingFloorErrs` | api/state_transition.go:331-343 | when the floor decides, an exact search that ends has erred, whatever the cap |
| `EstimateGas.ChecksAreFloored` | api/state_transition.go:324-344 | the checks of the transition give every message this shape, if its execution succeeds from some limit on |
| `EstimateGas.DataHeavyCallErrs` | api/eth.go:425-452 | a message whose floor is above its intrinsic gas and its execution is never estimated exactly, although every limit from the floor on works |
| `Blake2b.Carry` | crypto/blake2b/blake2b.go:160-164 | the two counter words after a block |
| `Blake2b.Borrow` | crypto/blake2b/blake2b.go:285-289 | the two counter words after the unused part is taken off |
| `Blake2b.HashBlocks` | crypto/blake2b/blake2b.go:156-172 | chains whole blocks with their byte counts |
| `Blake2b.CheckSum` | crypto/blake2b/blake2b.go:127-154 | the first bytes of the hash are the one-shot hash of RFC 7693, whose words are written lowest byte first, only as many as needed |
| `Blake2b.PutWords` | crypto/blake2b/blake2b.go:151-153 | the first words of the chaining value, zeros behind |
| `Blake2b.LittleEndianReads` | crypto/blake2b/blake2b.go:151-153 | the bytes of a word give it back |
| `Blake2b.NewDigest` | crypto/blake2b/blake2b.go:110-125 | a fresh digest exactly for sizes from 1 to 64 and keys of at most 64 bytes |
| `Blake2b.ParameterBlock` | crypto/blake2b/blake2b.go:233-241 | the bytes of the parameter block: hash size, key length, fanout 1, depth 1 |
| `Blake2b.Digest.Reset` | crypto/blake2b/blake2b.go:233-241 | nothing written, with the key as a first block and the sizes in the initial value |
| `Blake2b.Digest.Write` | crypto/blake2b/blake2b.go:243-272 | appends to what was written, keeping the last block back |
| `Blake2b.Digest.Sum` | crypto/blake2b/blake2b.go:280-297 | appends the hash of everything written, cut to the size; the digest is untouched |
| `Blake2b.Digest.Finalise` | crypto/blake2b/blake2b.go:280-297 | the chaining value of everything written, the digest untouched |
| `Blake2b.HashPieces` | crypto/blake2b/blake2b.go:127-297 | any way of cutting a message into writes gives the hash of the whole under the key, and without a key the one-shot hash |

## Left out

- rlp/raw.go (Split, CountValues, AppendUint64): it would repeat the head parser on slices with easier claims.
- RLP into typed Go values: reflection, struct tags, pointers and optional fields; untyped trees are modelled.
- ABI JSON, method selectors, indexed arguments and fixed-point numbers.
- ABI sizes beyond 64 bits: array sizes whose byte count exceeds 2^63 are not modelled.
- AbiUnpack.RoundTrip: fixed byte strings are at most 32 bytes wide, as in the ABI specification; wider ones overrun their place, as WideShifts shows. The error is claimed for lists shorter than 2^63, which every Go slice is.
- AbiPack.BlockSplits: the same width; offsets are counted from reserved sizes, which wider byte strings exceed.
- AbiUnpack.DecodeLocated: the same width; a wide byte string whose data ends early is an error here, where Go takes the bytes behind the slice or panics.
- AbiUnpack.PackInjective: types with parts that take no bytes are covered for values that have room in front of some data, since the proof decodes them.
- square and inverse in crypto/bls12381: the squaring helpers drop a carry, and inversion is not modelled; curve and pairing code likewise.
- Copy, ALCalcCopy and kv of the state database, and state overrides other than as operations on a start state.
- Aliasing of the map given to SetStorage: the model copies it.
- Evm.Interpreter.Step: opcodes for hashing, call data, return data, block data, logs, account queries, EXP and CLZ are treated as undefined; arithmetic results are a parameter.
- Evm.Interpreter.Run: code of 2^63 bytes or more, which no Go slice can hold, is refused. That no two codes have one Keccak hash is a hypothesis of the jump claims.
- Fork rules other than the Osaka set in the interpreter, and with it in Transaction; the gas functions of earlier forks appear in SstoreGas and CallGas, and fees follow the rules of any fork.
- Transaction.StateTransition.TransitionDb: authorities are recovered from signatures by a parameter; refunds are claimed for lists whose charge does not wrap around 2^64.
- Transaction.StateTransition.ApplyAuthorization: code of one or two bytes is a panic, although Go may find bytes behind the slice to compare.
- Fees.TransactionsMakeNoEther: a coinbase without a record that a zero-fee call debits is excluded, since the debit is never read.
- EstimateGas.Search: the method is for caps up to 2^63, since above the loop need not end; the lemmas about its answer hold for every cap.
- Blake2b: the compression function on a block is left open; MarshalBinary is left out.
- Storage engine, RPC handlers, streams, tracers, timeouts and cancellation.
