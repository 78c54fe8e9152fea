# A verified model of the FORCEIO core

FORCEIO is a delegated-proof-of-stake blockchain with WebAssembly contracts. This project models the
parts of it whose correctness is hard to see from the code, and proves what they promise for every
value, every run or every chain. `dafny verify dfyconfig.toml` checks all of it.

## What is modelled

**The wire format of contracts.** `Values` describes the types that can be serialised and their
values, `Varint` the variable-length integers, `Codec` the format as a pure encoder and decoder,
`Layout` the block copies of arrays and characters. `Streams` holds the code in its own form: a
cursor over a byte array, a second stream that only counts, and the family of read and write
operators, which are proved against `Codec`. The main results are the round trip on every type with
anything behind it, prefix-freeness, canonical repacking of whatever bytes were read, and that packing
never meets a bounds assertion and fills its buffer exactly.

**Actions.** `Actions` follows the arguments of an inline call from the sender, through the packed
action, to the handler of the receiver, and finds the handler for an action.

**Fixed-size keys.** `FixedKey` packs small words into 16-byte words, in place, and proves that keys
compare as the word lists do. `KeyBytes` gives the bytes back. Two properties one would expect hold
only for some sizes; both are proved as equivalences.

**Confirmations.** `HeaderState` is the header state that a chain carries from block to block, with
its confirmation counters, and `Chains` the chains of headers that the source accepts, with what holds
on all of them. `Confirmations` proves, through changes of schedule, what the counters mean: a block
number is proposed or taken as irreversible only when more than two thirds of the producers confirmed
it, each counted once. That holds on sound chains, and the counters are right exactly on those; a
header is sound if it claims no more confirmations than there are blocks, or if the counter of its
producer's last block is gone or is not reached. `DoubleConfirming` gives an accepted chain that is not
sound, on which one producer alone makes a block irreversible. `Switching` shows when the irreversible
number goes back, and gives a chain on which it does. `Traces` holds the single steps of these two
chains, `Quorum` and `Rotation` the arithmetic of majorities and of turns.

**Merkle trees.** `Merkle` proves that the incremental tree, which keeps no more nodes than the tree
has levels and one more, has the root of the full tree. `Bits` proves that the bit tricks on 64-bit
words by which it finds its depth count those levels.

**Smaller parts.** `NameSuffix` (a bit-level loop against a function on symbol lists),
`PermissionVisitor` (saved lengths against full snapshots), `Asset` and `SymbolName` (checked
arithmetic against exact integers, and the validity of a symbol).

Where the source is imperative, so is the model: classes with fields for streams, the tree, the
visitor and assets, methods with loops for the algorithms. Machine words are natural numbers with
explicit wrap-around. An assertion that stops a contract, or an exception, is an
error value or a false result. Memory, the host functions of a contract and the hash function are
parameters or fields.

## Where the code does less than its comments say

- A `signed_int` reads back as it was written only in the range of 31 bits
  (`Varint.SignedRoundTripExactly`).
- Keys whose size is not a multiple of 16 do not compare as their bytes
  (`KeyBytes.OrderAgreesExactly`), and bytes in their last word come back moved
  (`KeyBytes.BytesRoundTripExactly`).
- The bounds check of a write is the intended one only below 2^31 bytes (`Streams.WriteCheckExact`).
- The check against confirming a block twice is the intended one only when the header does not claim
  more confirmations than there are blocks (`HeaderState.ConfirmCheckExact`). Up to block 65534 a header
  can, and then a block becomes irreversible that one producer confirmed
  (`DoubleConfirming.IrreversibleByOne`). `Confirmations.ProposalExactly` says for each header, and
  `Confirmations.SoundExactly` for each chain, exactly when the counters stay right.
- The irreversible block number can go back right after a change of schedule
  (`Switching.IrreversibleCanGoBack`, and exactly when in `Switching.IrreversibleGoesBackExactly`).
- The fraction of a negative amount is printed with characters that are not digits unless it is zero
  (`Asset.FractionReadsBack`).
- The search for the next round wraps to zero when the block it looks for does not fit 32 bits
  (`Rotation.NextRoundFirstBlock`).

## Model

| member | source | states |
|---|---|---|
| Varint.VarintRoundTrip | contracts/eosiolib/varint.hpp:211-242 | every 32-bit number reads back, whatever follows, and exactly its bytes are consumed |
| Varint.DecodeFromBounds | contracts/eosiolib/varint.hpp:232-242 | a successful read gives a 32-bit value and consumes at least one byte |
| Varint.DecodeFromExtend | contracts/eosiolib/varint.hpp:232-242 | more input changes neither a value that was read nor an error other than running out |
| Varint.SignedRoundTripExactly | contracts/eosiolib/varint.hpp:448-481 | a signed number reads back as itself if and only if it is in the 31-bit range |
| Varint.SignedRoundTripFails | contracts/eosiolib/varint.hpp:448-481 | 0x40000000 reads back as 0x40000001 |
| Values.LessOrder | contracts/eosiolib/datastream.hpp:660-790 | the key order is irreflexive and total on values |
| Values.LessTransitive | contracts/eosiolib/datastream.hpp:660-790 | the key order is transitive |
| Values.EmplaceSorted | contracts/eosiolib/datastream.hpp:670-680 | emplacing keeps strict key order and adds the entry exactly when its key is new |
| Values.CollectFirstOccurrences | contracts/eosiolib/datastream.hpp:670-724 | a container read from any entries holds, in key order, exactly the first entry for each key |
| Values.CollectOrderIndependent | contracts/eosiolib/datastream.hpp:670-724 | with distinct keys, entries in any order give the same container |
| Codec.RoundTrip | contracts/eosiolib/datastream.hpp:394-894 | for every type and value, reading its encoding followed by any bytes gives the value and leaves those bytes |
| Codec.ReadStable | contracts/eosiolib/datastream.hpp:394-894 | appending input changes neither a value that was read nor an error other than running out |
| Codec.ProperPrefixStops | contracts/eosiolib/datastream.hpp:67-125 | every proper prefix of an encoding stops at the bounds assertion |
| Codec.EncodingInjective | contracts/eosiolib/datastream.hpp:394-894 | equal streams that start with encodings hold the same value and the same remainder |
| Codec.ReadTyped | contracts/eosiolib/datastream.hpp:394-894 | what is read from any bytes is a value of the type, so a set or map is strictly sorted |
| Codec.RepackIsCanonical | contracts/eosiolib/datastream.hpp:660-790 | what was read from any bytes, packed and read again, is the same value |
| Codec.ContainerFromAnyEntries | contracts/eosiolib/datastream.hpp:660-790 | entries sent in any order and with repeats are read as the sorted container of the first entry for each key |
| Layout.BlockWriteIsElementWise | contracts/eosiolib/datastream.hpp:516-602 | one block write of an array's memory gives the bytes of writing its elements in turn |
| Layout.BlockReadIsElementWise | contracts/eosiolib/datastream.hpp:516-638 | one block read fills the array as reading in turn would, and fails exactly when that would |
| Layout.ArrayVectorInterchange | contracts/eosiolib/datastream.hpp:516-658 | a vector's bytes read as a built-in array if and only if the counts agree; otherwise the size assertion stops the read |
| Layout.StringIsCharVector | contracts/eosiolib/datastream.hpp:394-420 | a string and a vector of its characters are written alike |
| Layout.StringReadsAsCharVector | contracts/eosiolib/datastream.hpp:394-420 | any input reads as a string exactly when it reads as a vector of characters, with the same characters or the same error |
| Streams.WriteCheckExact | contracts/eosiolib/datastream.hpp:82-87 | the signed comparison of the writer is the intended one if and only if the count is below 2^31 |
| Streams.Datastream.constructor | contracts/eosiolib/datastream.hpp:48-49 | a new cursor is at the start and inside its bounds |
| Streams.Datastream.Read | contracts/eosiolib/datastream.hpp:67-72 | succeeds exactly when enough is left, gives the next bytes and advances past them; a failure moves nothing |
| Streams.Datastream.Write | contracts/eosiolib/datastream.hpp:82-87 | writes the bytes at the cursor and nothing else exactly when they fit; a block that does not fit runs over the end exactly when its count, read as a signed number, passes the check, which no count below 2^31 does |
| Streams.Datastream.Put | contracts/eosiolib/datastream.hpp:96-101 | writes one byte exactly when there is room |
| Streams.Datastream.Get | contracts/eosiolib/datastream.hpp:119-125 | reads one byte exactly when there is one |
| Streams.SizeStream.Write | contracts/eosiolib/datastream.hpp:186-262 | adds the number of bytes to the count, modulo 2^32 |
| Streams.WriteVarint | contracts/eosiolib/varint.hpp:211-221 | the loop lays down the encoding of the number, and stops at an assertion exactly when it does not fit |
| Streams.ReadVarint | contracts/eosiolib/varint.hpp:232-242 | the loop with its 32-bit shifts reads what the decoder reads and stops where it stops |
| Streams.WriteValue | contracts/eosiolib/datastream.hpp:394-894 | writing any value lays down its encoding and fails exactly when that does not fit; below 2^31 bytes it is an assertion that stops it |
| Streams.CountValue | contracts/eosiolib/datastream.hpp:186-262 | counting any value adds the length of its encoding, modulo 2^32 |
| Streams.ReadValue | contracts/eosiolib/datastream.hpp:394-894 | reading any value gives the decoder's value or error and leaves the cursor where the decoder stops |
| Streams.ReadEntries | contracts/eosiolib/datastream.hpp:670-680 | the loop that emplaces entries computes the container of first occurrences |
| Streams.PackSize | contracts/eosiolib/datastream.hpp:934-939 | the counting stream gives the length of the encoding, modulo 2^32 |
| Streams.Pack | contracts/eosiolib/datastream.hpp:949-957 | packing succeeds if and only if the encoding is below 2^31 bytes; then no assertion stops it and the buffer it allocated holds exactly the encoding |
| Streams.Unpack | contracts/eosiolib/datastream.hpp:905-911 | unpacking any buffer gives what the decoder gives |
| Streams.PackThenUnpack | contracts/eosiolib/datastream.hpp:905-957 | unpacking what was packed gives the value back, for every value that can be packed |
| Actions.MessageDetermines | contracts/eosiolib/action.hpp:264-278 | a message reads back as its action with nothing left over, and no other action has the same message |
| Actions.ArgumentsReadBack | contracts/eosiolib/action.hpp:264-266 | packed arguments unpack to the same list |
| Actions.Send | contracts/eosiolib/action.hpp:275-278 | the packed action is handed to the chain if and only if it is below 2^31 bytes |
| Actions.DispatchInline | contracts/eosiolib/action.hpp:335-355 | the message sent is that of the action holding the packed arguments, unless one of the two is too large to be packed |
| Actions.UnpackActionData | contracts/eosiolib/action.hpp:47-60 | the data decodes to the result, and the heap holds as many blocks as before |
| Actions.ExecuteAction | contracts/eosiolib/dispatcher.hpp:66-90 | the handler runs once with what the data decodes to, or not at all, and no heap block stays behind |
| Actions.SendThenExecute | contracts/eosiolib/dispatcher.hpp:66-90 | whatever can be packed reaches the handler of the receiver, called once with exactly the arguments of the sender, on either side of the 512-byte limit |
| Actions.FirstMatch | contracts/eosiolib/dispatcher.hpp:13-40 | the entry found matches and no earlier one does |
| Actions.Dispatch | contracts/eosiolib/dispatcher.hpp:13-40 | true exactly when some entry matches; only the handler of the first match runs, once |
| FixedKey.BigEndianOrder | contracts/eosiolib/fixed_key.hpp:284-287 | numerals of equal length compare as their digit lists do |
| FixedKey.KeyWordFits | contracts/eosiolib/fixed_key.hpp:52-81 | no shift loses a bit: a key word fits in 16 bytes |
| FixedKey.PlainLayoutExactly | contracts/eosiolib/fixed_key.hpp:52-81 | a partly filled word has the plain big-endian layout, with zeros for the missing words, if and only if words are single bytes, at most one is missing, or all are zero |
| FixedKey.KeyOrder | contracts/eosiolib/fixed_key.hpp:149-166 | for a fixed count of words of any size, keys compare as the word lists do and only equal lists give equal keys |
| FixedKey.PackWords | contracts/eosiolib/fixed_key.hpp:52-81 | the loop writes the finished key words, stays inside the array and never fails its assertion |
| FixedKey.SetFromWordSequence | contracts/eosiolib/fixed_key.hpp:52-81 | exactly the key words that words fall into are written, with their values |
| FixedKey.MakeFromWordSequence | contracts/eosiolib/fixed_key.hpp:149-166 | the key made of any list that fits is its list of key words, zero past the end |
| KeyBytes.ExtractWord | contracts/eosiolib/fixed_key.hpp:198-221 | the inner loop writes the low bytes of a word, most significant first, each index once and no other |
| KeyBytes.ExtractAsByteArray | contracts/eosiolib/fixed_key.hpp:198-221 | whatever the array held before, it ends with the bytes of the key, and the log of all assignments holds each index exactly once and no other |
| KeyBytes.BytesOrder | contracts/eosiolib/fixed_key.hpp:284-287 | without padding, keys compare as their bytes do |
| KeyBytes.OrderAgreesExactly | contracts/eosiolib/fixed_key.hpp:284-287 | keys of a size compare as their bytes do if and only if the size is a multiple of 16 |
| KeyBytes.HiddenDifference | contracts/eosiolib/fixed_key.hpp:198-221 | for any other size, two keys in order with the same bytes |
| KeyBytes.BytesRoundTripExactly | contracts/eosiolib/fixed_key.hpp:198-221 | the bytes a key was made of come back, followed by zeros, if and only if the size is a multiple of 16 or no non-zero byte reaches the last word |
| Rotation.RotationFair | unittests/producer_schedule_tests.cpp:19-22 | every window of one round, wherever it starts, gives each producer exactly its repetitions |
| Rotation.NextRoundFirstBlock | unittests/producer_schedule_tests.cpp:36-43 | the search ends within a round; it finds the least multiple above the head if and only if that fits 32 bits; the first producer is due there |
| Quorum.QuorumsOverlap | unittests/special_accounts_tests.cpp:56-58 | two majorities of n producers share at least a third of n and one more |
| Quorum.LastIrreversibleIsLargestSupported | libraries/chain/block_header_state.cpp:18-29 | the entry one third into the sorted list is the largest number that more than two thirds of the producers reach |
| Quorum.LastIrreversibleMonotone | libraries/chain/block_header_state.cpp:18-29 | raising what one producer implies cannot lower it |
| Quorum.LastIrreversibleReaches | libraries/chain/block_header_state.cpp:18-29 | the last irreversible number is at least x if and only if enough producers reach x |
| HeaderState.SetConfirmedLoop | libraries/chain/block_header_state.cpp:186-219 | the in-place loop over the counters computes the confirmation function |
| HeaderState.TakesTurns | libraries/chain/block_header_state.cpp:12-16 | the producers take turns in the order of the schedule, each for its repetitions in a row |
| HeaderState.CountDownEffect | libraries/chain/block_header_state.cpp:186-219 | counters up to the one that ran out are gone, of the others the last ones are one lower, none is zero |
| HeaderState.ConfirmCheckExact | libraries/chain/block_header_state.cpp:154-157 | the 32-bit check is the intended comparison if and only if no more blocks are confirmed than exist |
| Chains.ExtendIsNext | libraries/chain/block_header_state.cpp:144-184 | the chain grows by the transition of the source |
| Chains.LaterHeadersSound | libraries/chain/block_header_state.cpp:154-157 | from block 65535 on every header is sound, since the claim has 16 bits |
| Chains.ConfirmedShape | libraries/chain/block_header_state.cpp:36-88 | counting any accepted block keeps the bounds of all numbers in the state and its records, and does not lower the proposed number |
| Chains.PromotedShape | libraries/chain/block_header_state.cpp:90-123 | putting a schedule into force keeps them, so that nobody who comes back is credited with less than before |
| Chains.AnnouncedShape | libraries/chain/block_header_state.cpp:125-133 | announcing a schedule keeps them |
| Chains.ReachedShape | libraries/chain/block_header_state.cpp:144-184 | they hold on every chain of accepted headers, sound or not |
| Chains.ProposedMonotone | libraries/chain/block_header_state.cpp:186-219 | on every chain the proposed irreversible number never goes back |
| Chains.SoundUnlessEarly | libraries/chain/block_header_state.cpp:154-157 | a chain is sound if no header below number 65535 claims more confirmations than there are blocks |
| Confirmations.CountersStep | libraries/chain/block_header_state.cpp:186-219 | after the count-down the surviving counters and the one that ran out are right if and only if each counter that matters was lowered for a new confirmer |
| Confirmations.FreshExactly | libraries/chain/block_header_state.cpp:154-157 | each of those counters is lowered for a new confirmer if and only if the header is sound |
| Confirmations.ProposalExactly | libraries/chain/block_header_state.cpp:154-219 | for every accepted header: counters and proposed number stay right if and only if the header is sound, which the state before it tells |
| Confirmations.ConfirmedKeeps | libraries/chain/block_header_state.cpp:36-88 | starting a block with a sound header and counting its confirmations keeps what the numbers in the state mean |
| Confirmations.PromotedKeeps | libraries/chain/block_header_state.cpp:90-123 | putting a pending schedule into force keeps it |
| Confirmations.ExtendKeeps | libraries/chain/block_header_state.cpp:144-184 | every sound header keeps the invariant |
| Confirmations.ReachedInv | libraries/chain/controller.cpp:622-635 | the invariant holds on every sound chain from a genesis state |
| Confirmations.SoundExactly | libraries/chain/block_header_state.cpp:144-219 | on every chain of accepted headers, the counters are right all along if and only if every header was sound |
| Confirmations.IrreversibleIsConfirmed | libraries/chain/block_header_state.cpp:144-219 | on every sound chain, the irreversible and the proposed block were confirmed by more than two thirds as many producers as their schedule has, each counted once |
| Confirmations.ForksShareConfirmers | libraries/chain/block_header_state.cpp:144-219 | on any two sound forks under one schedule, more than a third of the producers confirmed what each takes as irreversible |
| DoubleConfirming.ProposedByOne | libraries/chain/block_header_state.cpp:154-219 | an accepted chain of two blocks that proposes a block confirmed by one producer where two are needed |
| DoubleConfirming.IrreversibleByOne | libraries/chain/block_header_state.cpp:154-219 | an accepted chain of four blocks that takes such a block as irreversible |
| Switching.IrreversibleGoesBackOnlyAfterSwitch | libraries/chain/block_header_state.cpp:90-123 | on every chain the irreversible number goes back only in the block after one that put a schedule into force |
| Switching.IrreversibleGoesBackExactly | libraries/chain/block_header_state.cpp:36-123 | on every chain it goes back if and only if fewer than the required number of producers on record imply the current one |
| Switching.IrreversibleCanGoBack | libraries/chain/block_header_state.cpp:90-184 | a chain of accepted headers whose next block lowers it from 3 to 0 |
| Merkle.PairLevel | libraries/chain/merkle.cpp:35-50 | one round of the in-place loop gives the next level |
| Merkle.FullMerkle | libraries/chain/merkle.cpp:35-50 | the loop computes the root of the full tree |
| Bits.SmearFills | libraries/chain/include/eosio/chain/incremental_merkle.hpp:17-27 | on every 64-bit word the six steps set every bit up to the highest and no other |
| Bits.ClzFindsPlace | libraries/chain/include/eosio/chain/incremental_merkle.hpp:38-50 | the parallel search finds the place of the only bit of a word |
| Bits.DepthIsLevels | libraries/chain/include/eosio/chain/incremental_merkle.hpp:59-65 | for every 64-bit count the depth computed is the number of times the count can be halved, and one more |
| Merkle.FewActive | libraries/chain/include/eosio/chain/incremental_merkle.hpp:168-226 | an append leaves no more nodes than there are levels, and the root |
| Merkle.ActiveReady | libraries/chain/include/eosio/chain/incremental_merkle.hpp:168-226 | the nodes kept after an append start with the left siblings the next one needs and end with the root |
| Merkle.Climb | libraries/chain/include/eosio/chain/incremental_merkle.hpp:168-226 | the loop from the leaf to the root reads the right siblings and collects the new active nodes |
| Merkle.IncrementalMerkle.Append | libraries/chain/include/eosio/chain/incremental_merkle.hpp:168-226 | appending gives the tree over one more leaf and returns the root of the full tree |
| Merkle.IncrementalMerkle.GetRoot | libraries/chain/include/eosio/chain/incremental_merkle.hpp:233-239 | the stored root is the root of the full tree |
| Merkle.IncrementalRoot | libraries/chain/include/eosio/chain/incremental_merkle.hpp:168-239 | appending any leaves one by one gives the root of the full tree over them |
| NameSuffix.LastInnerDotMeaning | unittests/misc_tests.cpp:33-61 | the dot found has another symbol after it, and no later dot has |
| NameSuffix.SuffixIdempotent | unittests/misc_tests.cpp:33-61 | a suffix has no inner dot, so it is its own suffix |
| NameSuffix.FindInnerDot | unittests/misc_tests.cpp:34-49 | the loop over the bits finds the last inner dot of the symbol list |
| NameSuffix.SuffixMoves | unittests/misc_tests.cpp:56-60 | masking and shifting move the symbols after the dot to the front, the 4-bit one included, and lose none |
| NameSuffix.NameSuffix | unittests/misc_tests.cpp:33-61 | on every 64-bit name the code computes the suffix of the symbol list |
| NameSuffix.NameSuffixTwice | unittests/misc_tests.cpp:33-61 | the suffix of a suffix is the same word |
| PermissionVisitor.Visitor.Call | unittests/misc_tests.cpp:203-205 | adds the permission to the log and nothing else |
| PermissionVisitor.Visitor.CallRepeat | unittests/misc_tests.cpp:207 | a repeated permission leaves log and levels as they are |
| PermissionVisitor.Visitor.Push | unittests/misc_tests.cpp:209-213 | saves the length of the log |
| PermissionVisitor.Visitor.Pop | unittests/misc_tests.cpp:215-222 | cuts the log back to the saved length, or fails and changes nothing |
| PermissionVisitor.Visitor.Squash | unittests/misc_tests.cpp:224-229 | drops the saved length and keeps the log, or fails and changes nothing |
| PermissionVisitor.RunRefines | unittests/misc_tests.cpp:196-231 | every run with saved lengths does what full snapshots do, and the size assertion never fails |
| PermissionVisitor.EveryRun | unittests/misc_tests.cpp:196-231 | a run of a new visitor succeeds if and only if no event closes a level that is not open, with the log of full snapshots |
| PermissionVisitor.Brackets | unittests/misc_tests.cpp:209-229 | after any history, popping a balanced bracket restores the visitor and squashing it is the events alone |
| PermissionVisitor.BracketsAppend | unittests/misc_tests.cpp:209-229 | balanced events only add to the log |
| SymbolName.IsValidSymbol | contracts/eosiolib/symbol.hpp:66-81 | the nested loops accept exactly one to seven letters followed by zero bytes |
| Asset.TruncDivMeaning | contracts/eosiolib/asset.hpp:220-225 | quotient and remainder rebuild the dividend; the remainder is smaller than the divisor and has the dividend's sign |
| Asset.NoOverflow | contracts/eosiolib/asset.hpp:115-181 | before any check, sums fit 64 bits and products 128 bits |
| Asset.MachineIsExact | contracts/eosiolib/asset.hpp:90-225 | each operation gives the exact result, and aborts if and only if an operand is refused or the exact result is out of range |
| Asset.EveryRun | contracts/eosiolib/asset.hpp:59-225 | a run aborts if and only if some exact intermediate result leaves the range or an operand is refused; otherwise the amount is the exact result |
| Asset.AssetObject.Make | contracts/eosiolib/asset.hpp:59-64 | accepts exactly an amount in range with a valid symbol |
| Asset.AssetObject.SetAmount | contracts/eosiolib/asset.hpp:90-93 | stores the amount, and succeeds if and only if it is in range |
| Asset.AssetObject.Negated | contracts/eosiolib/asset.hpp:101-105 | a new object with the exact negative of an amount in range; the old one is unchanged |
| Asset.AssetObject.SubtractAssign | contracts/eosiolib/asset.hpp:115-121 | for amounts in range, also of the object itself: succeeds if and only if the symbols agree and the exact difference is in range, and stores it |
| Asset.AssetObject.AddAssign | contracts/eosiolib/asset.hpp:131-137 | likewise for the exact sum |
| Asset.AssetObject.MultiplyAssign | contracts/eosiolib/asset.hpp:175-181 | likewise for the exact product |
| Asset.AssetObject.DivideAssign | contracts/eosiolib/asset.hpp:220-225 | for an amount in range: succeeds if and only if the divisor is not zero, and stores the exact quotient truncated toward zero, which is in range |
| Asset.Print | contracts/eosiolib/asset.hpp:349-370 | the whole part is the truncated quotient and the characters are the signed digits of the remainder |
| Asset.FractionReadsBack | contracts/eosiolib/asset.hpp:349-370 | whole part and digits read back as the amount; the characters are all digits if and only if the amount is not negative or has no fraction |

## Left out

- Streams.Datastream.Write: buffers of 2^31 bytes or more, which the difference of two pointers cannot measure; what a copy past the end does to memory.
- Streams.WriteValue: such buffers, likewise.
- Streams.ReadValue: bytes of a boolean other than 0 and 1 inside built-in arrays of booleans, and running out of memory while a vector is resized.
- Actions.SendThenExecute: the chain between the two contracts is only the reading of the message.
- Asset.Print: precisions above 18, whose power of ten overflows 64 bits and has no defined value.
- Asset.EveryRun: amounts that were unpacked or written directly, which no check has seen.
- Confirmations.IrreversibleIsConfirmed: chains that are not sound, on which it fails (DoubleConfirming.IrreversibleByOne).
- Confirmations.ForksShareConfirmers: chains that are not sound, for the same reason.
- Chains.AnnouncedShape: schedules of more than 382 producers, whose number of needed confirmations does not fit the 8-bit counter; the source's static assertion keeps its configured maximum below that.
- Chains.ReachedShape: block numbers of 2^32 and more, where the 32-bit number wraps.
- Merkle.IncrementalMerkle.Append: the leaf that would make the 64-bit counter wrap.
- A variable-length integer of more than five bytes shifts by more than the word's width, which C++ leaves undefined; the decoder answers with an error of its own there.
- `signed_int` as a field of other types: it has its own theorems instead, since it does not always read back.
- The stream operators of 256-bit keys, and the unchecked `skip` and `seekp`.
- Signed words in fixed-size keys.
- Ids, signatures, Merkle roots and the hash chain of headers; the confirmations sent for pure byzantine fault tolerance; the fork database.
- The guard of the contract entry point, context-free actions, `data_as`, and the comparison of schedules: each would only add easy members.
- The quotient and the comparisons of two assets, and how a symbol is printed.
- Everything else in the chain engine: transactions, authorities, resources, snapshots, the WebAssembly runtime, plugins and contracts.
