# A model of Strawberry

Strawberry is a client for JAM. This project models the parts of it that decide what a chain
of blocks means, and proves that they do what they are for. Its parts:

- The codec (`Bytes`, `Naturals`, `Codec`, `Pointers`, `CodecIO`): the variable-length naturals, the
  type-directed printer and parser, destinations, and the writer and reader objects that do the work.
  Reflection is a schema.
- Merkle structures (`MountainRange`, `BinaryTree`, `Trie`): mountain ranges through to the recent
  blocks, constant-depth proofs, and the state trie with its store.
- Service accounts (`ServiceIndex`, `Preimages`, `Accounts`): index allocation, the life of a
  preimage, and the host calls New, Upgrade, Solicit, Forget and Eject with supply by extrinsic.
- Safrole (`Safrole`, `Epochs`): the ticket contest, the winners it announces and the series that seals;
  around it the entropy pool, the validator keys and the epoch marker.
- Disputes (`Disputes`, `DisputeRules`): verdicts, culprits and faults.
- Parallel accumulation (`ParallelAccumulation`): goroutines under a mutex, as a state machine over
  the orders in which they take it.
- Guarantor assignment (`Assignment`, with `Division`): spread, shuffle and rotation.
- The virtual machine: programs (`Programs`), instructions and their formats (`Instructions`, `Assembly`),
  memory (`Memory`), the stepping machine (`Interpreter`) and what each instruction does (`Semantics`).
- Erasure coding (`ReedSolomon`, `ErasureCoding`).
- Chain heads (`Chain`).
- `Sorting`, `Hashing` and `Timeslots` are shared.

Code that computes by expressions and recursion is functions. Code that changes things step by
step is classes and loops, each proved equal to a function, and the theorems are about the
function. Hash functions, signature and ring verification, the Reed-Solomon library, the arithmetic
unit of the virtual machine and the accumulation of one service are parameters. Where a theorem
needs something of them it says so: "or two of the inputs hashed collide", where the inputs are named,
and the MDS property of the library. Hashes and keys that the code only compares are 32 octets read as one number.

Some promises do not hold of the code as it is. For each there is a lemma that says exactly when
they do, and one with an input for which they do not.

- Encodings of naturals are not always the shortest input that decodes, because a short read
  leaves zeros: `Naturals.MinimalExactlyWhen`, `Naturals.ShortenedExample`.
- A fixed-width number with a length tag is truncated without an error: `Codec.FixedRoundTrip`,
  `Codec.TruncatedExample`.
- Decoding follows the pointers of its destination before it reads, so that the marker written for a
  pointer is taken for its target: `Pointers.ComesBackExactlyWhen`, `Pointers.PointerExample`.
- Forgetting in the first 28800 timeslots can expunge inside the window, because an unsigned
  subtraction wraps: `Preimages.WindowHoldsExactlyWhen`, `Preimages.EarlyForgetExample`.
- New by a caller with less than the fee creates money: `Accounts.NewConservesExactlyWhen`,
  `Accounts.NewCreatesMoneyExample`.
- New answers the index held before the call and stores the account under the next one:
  `Accounts.NewAnswersItsIndexExactlyWhen`, `Accounts.NewMisreportsExample`.
- Preimages supplied to a service without a lookup map replace each other:
  `Accounts.SuppliedExactlyWhen`, `Accounts.LostPreimageExample`.
- Tickets in the block that opens an epoch are merged into the old accumulator, so that the series
  differs from the winners announced: `Safrole.PublishedWinnersAreUsed`, `Safrole.OpeningTicketExample`.
- They are verified with the entropy and the ring of the epoch before:
  `Epochs.TicketsUseNewValuesExactlyWhen`, `Epochs.OldEntropyExample`.
- Faults that vote for a bad report are accepted without making an offender:
  `Disputes.FaultsOffendExactlyWhen`, `Disputes.UnpunishedFaultExample`.
- Two culprits are asked for once, not for each bad verdict: `DisputeRules.TwoCulpritsExactlyWhen`,
  `DisputeRules.MissingCulpritsExample`.
- Two services that produce one new id race: `ParallelAccumulation.AgreeExactlyWhen`,
  `ParallelAccumulation.ClashExample`.
- The size check of the memory layout leaves out the read-only data: `Memory.LaidOutExactlyWhen`,
  `Memory.ReadOnlyOverStackExample`.
- Growing the heap takes its new end for its new size: `Memory.GrownIsLaidExactlyWhen`,
  `Memory.HeapOverStackExample`.
- A block-ending instruction with operands at the end of the code makes its first operand octet a
  jump target: `Programs.BlockIsMarkedExactlyWhen`, `Programs.BlockInsideOperandExample`.
- Merklize indexes past the key on a repeated key: `Trie.SucceedsExactlyWhenDistinct`,
  `Trie.RepeatedKeyExample`. A leaf drops the last octet of its key, so that a root does not always
  decide the state: `Trie.SameRootExactlyWhen`, `Trie.LastOctetIsDropped`.
- A header announced again after its child becomes a leaf again: `Chain.LeavesExactlyWhen`,
  `Chain.RepeatedHeaderExample`.
- The walk by slots refuses a descendant behind a block of an earlier slot:
  `Chain.AcceptsExactlyWhen`, `Chain.RefusedDescendantExample`.
- A block on the finalized one can move finalization back: `Chain.FinalizationStandsExactlyWhen`,
  `Chain.FinalizationMovesBackExample`.

The second bit of a leaf's header marks a hashed value, where a comment has it mark an embedded one:
`Trie.LeafFields`. That the keys of culprits and faults belong to validators, which comments ask for, is
not checked: `DisputeRules.AcceptsMeans` has no such condition.

## Model

| member | source | states |
|---|---|---|
| `Naturals.SerializeTrivialNatural` | pkg/serialization/codec/jam/trivial_natural.go:7-13 | the loop writes exactly the `l` little-endian octets of the number |
| `Naturals.DeserializeTrivialNatural` | pkg/serialization/codec/jam/trivial_natural.go:15-22 | or-ing shifted octets gives the little-endian number, cut to the width of the destination word |
| `Naturals.SerializeUint64` | pkg/serialization/codec/jam/general_natural.go:9-31 | the length search and the marker arithmetic give the encoding that the theorems below are about |
| `Naturals.EncodingShape` | pkg/serialization/codec/jam/general_natural.go:9-31 | the octets of an encoding: first the marker of its length with the highest bits of the number, or 255, then its lower octets, lowest first |
| `Naturals.DeserializeUint64WithLength` | pkg/serialization/codec/jam/general_natural.go:34-59 | the or-accumulation assembles the number from the payload of the first octet and the octets after it; eight or more announced octets take the plain path |
| `Naturals.FirstOctetAnnouncesLength` | pkg/serialization/codec/jam/decode.go:388-398 | for every x < 2^64 the leading ones of the first octet equal the number of octets that follow |
| `Naturals.NaturalRoundTrip` | pkg/serialization/codec/jam/decode.go:388-417 | decoding an encoding followed by any octets returns the number and leaves exactly those octets |
| `Naturals.NaturalDecodes` | pkg/serialization/codec/jam/decode.go:388-417 | what any first octet and the octets it announces decode to, shortest or not |
| `Naturals.NaturalPrefixFree` | pkg/serialization/codec/jam/general_natural.go:9-31 | no encoding is a prefix of the encoding of another number |
| `Naturals.NoSmallerClass` | pkg/serialization/codec/jam/decode.go:388-417 | nothing that announces fewer octets decodes to the same number |
| `Naturals.ShorterIsPadded` | pkg/serialization/codec/jam/decode.go:400-405 | whatever shorter input decodes to x is the encoding of x with final zero octets dropped, because a short read leaves zeros; and then the encoding does end in one |
| `Naturals.MinimalExactlyWhen` | pkg/serialization/codec/jam/decode.go:388-417 | no shorter octet string decodes to x if and only if the encoding does not end in a droppable zero octet |
| `Naturals.ShortenedExample` | pkg/serialization/codec/jam/decode.go:400-405 | 65536 decodes from fewer octets than its encoding has |
| `Codec.FixedRoundTrip` | pkg/serialization/codec/jam/encode.go:321-345 | a fixed-width number written on `l` octets comes back if and only if it is below 2^(8l) |
| `Codec.TruncatedExample` | pkg/serialization/codec/jam/encode.go:321-345 | 256 on one octet is written as 0 and does not come back |
| `Codec.SortedKeysAscend` | pkg/serialization/codec/jam/encode.go:224-258 | sorted map keys are strictly ascending and are all the keys |
| `Codec.SortedKeysInOrder` | pkg/serialization/codec/jam/encode.go:224-258 | the order is that of the numbers, false before true, and for octet arrays that of the first octet in which two keys differ |
| `Codec.AscendingUnique` | pkg/serialization/codec/jam/encode.go:224-258 | two ascending key lists with the same keys are one list, so the order of iteration over the map cannot matter |
| `Codec.RoundTrip` | pkg/serialization/codec/jam/decode.go:82-110 | for every well-typed value of every schema, decoding its encoding followed by any octets returns that value and leaves exactly those octets |
| `Codec.MapRoundTrip` | pkg/serialization/codec/jam/decode.go:279-316 | the same for maps, whose entries are written in ascending key order |
| `Codec.ItemsRoundTrip` | pkg/serialization/codec/jam/decode.go:242-277 | the same for the elements of slices and arrays |
| `Codec.FieldsRoundTrip` | pkg/serialization/codec/jam/decode.go:329-368 | the same for the fields of a struct |
| `Codec.PrefixFree` | pkg/serialization/codec/jam/encode.go:32-57 | encodings of one schema are injective and none is a prefix of another |
| `Codec.FixedFormat` | pkg/serialization/codec/jam/encode.go:321-345 | a fixed-width number is its octets, lowest first |
| `Codec.TagFormat` | pkg/serialization/codec/jam/encode.go:59-72 | booleans are 0 or 1, a nil pointer 0, any other 1 and its target, an enum its index and its payload |
| `Codec.LengthFormat` | pkg/serialization/codec/jam/encode.go:145-221 | octets, slices and maps begin with their length; public keys, arrays and structs do not |
| `Codec.SequenceFormat` | pkg/serialization/codec/jam/encode.go:145-221 | elements, fields and entries follow each other in order, each key before its value |
| `Codec.TagDecodes` | pkg/serialization/codec/jam/decode.go:192-240 | what any first octet of a boolean, a pointer or an enum decodes to, and which are refused |
| `Codec.OctetsDecode` | pkg/serialization/codec/jam/decode.go:370-459 | what any input decodes to as a number, octets or a public key, short reads and bad lengths included |
| `Codec.SequencesDecode` | pkg/serialization/codec/jam/decode.go:242-277 | elements and fields are decoded one after the other, and the first failure fails |
| `Codec.EntriesDecode` | pkg/serialization/codec/jam/decode.go:279-316 | of two entries with one key the later one counts |
| `CodecIO.SortMapKeys` | pkg/serialization/codec/jam/encode.go:224-258 | whatever order the keys come in, the result is the one list of them in the order of their kind: ascending numbers, false before true, octet arrays by the first octet that differs |
| `CodecIO.ByteWriter.Marshal` | pkg/serialization/codec/jam/encode.go:32-57 | writing appends exactly the encoding of the value to the buffer |
| `CodecIO.ByteWriter.MarshalMap` | pkg/serialization/codec/jam/encode.go:181-221 | writing a map, iterated in any order, appends its one encoding |
| `CodecIO.ByteWriter.MarshalItems` | pkg/serialization/codec/jam/encode.go:145-169 | the element loop appends the encodings in order |
| `CodecIO.ByteWriter.MarshalFields` | pkg/serialization/codec/jam/encode.go:356-397 | the field loop appends the encodings in order |
| `CodecIO.ByteWriter.MarshalEnum` | pkg/serialization/codec/jam/encode.go:127-143 | index octet, then the payload |
| `CodecIO.ByteReader.DecodeUint` | pkg/serialization/codec/jam/decode.go:388-417 | consumes exactly one natural, or fails as the decoder does |
| `CodecIO.ByteReader.Unmarshal` | pkg/serialization/codec/jam/decode.go:82-110 | returns what the decoder function says and leaves what it says |
| `CodecIO.ByteReader.UnmarshalMap` | pkg/serialization/codec/jam/decode.go:279-316 | the same for the entry loop of a map |
| `CodecIO.ByteReader.UnmarshalFields` | pkg/serialization/codec/jam/decode.go:329-368 | the same for the field loop of a struct |
| `CodecIO.ByteReader.UnmarshalItems` | pkg/serialization/codec/jam/decode.go:242-277 | the same for the element loops |
| `CodecIO.ByteReader.DecodeTo` | pkg/serialization/codec/jam/decode.go:44-51 | the entry point: the loop that follows pointers, and then one value read, give what the destination function says |
| `Pointers.StaysBehind` | pkg/serialization/codec/jam/decode.go:82-110 | a decoder that starts some octets, each 0 or 1, before the encoding of a value and still decodes that value ends as far before what follows; for every schema |
| `Pointers.ComesBackExactlyWhen` | pkg/serialization/codec/jam/decode.go:586-603 | for every well-typed value of every schema, decoding its encoding into a destination returns it and leaves exactly what follows if and only if the type is not a pointer: no pointer, nil or not, ever comes back |
| `Pointers.PointerExample` | pkg/serialization/codec/jam/encode.go:64-72 | a nil pointer is written as 0 and comes back as a pointer to 0; a pointer to 7 comes back as a pointer to 1 and leaves the 7 |
| `CodecIO.WriteThenRead` | pkg/serialization/codec/jam/decode.go:44-51 | a program that marshals a value, appends any octets and decodes into a destination of the same type gets the value back and is left with those octets if and only if the type is not a pointer |
| `MountainRange.AppendExtendsRange` | internal/merkle/mountain_ranges/mmr.go:15-50 | appending a leaf to the range of n leaves gives the range of n + 1 leaves, defined independently by pairing |
| `MountainRange.AppendedRange` | internal/merkle/mountain_ranges/mmr.go:15-50 | after n appends peak i exists exactly when bit i of n is one, and is the root of the perfect tree over its own block of 2^i leaves |
| `MountainRange.BlocksTile` | internal/merkle/mountain_ranges/mmr.go:15-50 | the blocks of the peaks follow each other without gap or overlap, older leaves in higher peaks |
| `MountainRange.SuperPeak` | internal/merkle/mountain_ranges/mmr.go:62-91 | the filtering loop and the recursion fold exactly the present peaks |
| `MountainRange.SuperPeakBinds` | internal/merkle/mountain_ranges/mmr.go:62-91 | ranges of one length with the same super-peak have the same leaves, or two different pairs among those hashed to build and fold the two ranges have one hash |
| `MountainRange.UpdateRecentBlocks` | internal/statetransition/state_transition.go:312-353 | one update settles the state root of the previous entry, appends to its range and keeps the last eight |
| `MountainRange.RecentBlocksHoldWholeHistory` | internal/statetransition/state_transition.go:312-353 | in every run of n blocks only the last eight entries are kept, yet the newest holds the range of all n accumulation roots, and each older one the range up to itself |
| `BinaryTree.Preprocess` | internal/merkle/binary_tree/tree.go:78-96 | each leaf hashed with its tag, in its place, padded with nothing to the next power of two |
| `BinaryTree.NodeIs` | internal/merkle/binary_tree/node.go:8-27 | a node of two or more blobs is the hash of a tag and the nodes of its halves, left before right |
| `BinaryTree.RootOfThree` | internal/merkle/binary_tree/tree.go:29-36 | the root of three blobs, written out |
| `BinaryTree.TraceComplete` | internal/merkle/binary_tree/trace.go:7-39 | folding a leaf with its trace by the bits of its index gives the node of the list, for every list of 2^d blobs |
| `BinaryTree.ProofsAreComplete` | internal/merkle/binary_tree/tree.go:29-36 | for every non-empty blob list and every index below the padded length the proof folds to the constant-depth root and is as long as the tree is deep |
| `BinaryTree.TraceSound` | internal/merkle/binary_tree/node.go:8-27 | whatever leaf and trace fold to the root, the leaf is the one in the list, or two different inputs among those hashed to make the tree and to fold the trace have one hash |
| `Trie.SplitAt` | internal/merkle/trie/merkle.go:9-64 | the loop over the entries keeps exactly those with bit i set, and exactly those without, in order |
| `Trie.Merklize` | internal/merkle/trie/merkle.go:9-64 | the recursion returns the root and appends the stored nodes of the tree of the list, and fails where the original indexes bit 256 |
| `Trie.LeafFields` | internal/merkle/trie/leaf.go:27-45 | the 64 octets of a leaf, field by field: 128 and the length of an embedded value, or 192 for a hashed one, in the header |
| `Trie.BranchFields` | internal/merkle/trie/branch.go:17-31 | the 64 octets of a branch: the left hash without its first bit, and the right hash |
| `Trie.BitIs` | internal/merkle/trie/merkle.go:66-69 | bit i is in octet i / 8, the most significant first |
| `Trie.TreeOfListIsTreeOfSet` | internal/merkle/trie/merkle.go:9-64 | for distinct keys the tree of a list is the tree of its set of entries |
| `Trie.RootDependsOnlyOnMapping` | internal/merkle/trie/merkle.go:9-64 | two permutations of one list with distinct keys give the same root and the same sequence of stored nodes |
| `Trie.SucceedsExactlyWhenDistinct` | internal/merkle/trie/merkle.go:9-64 | the recursion ends within 256 bits if and only if no key occurs twice |
| `Trie.RepeatedKeyExample` | internal/merkle/trie/merkle.go:9-64 | one key twice fails |
| `Trie.RootBinds` | internal/merkle/trie/merkle.go:9-64 | two states with one root have the same marks: the same values under the same first 31 octets of keys and the same bits of the last octet on the way to the leaf; or among the inputs hashed for them two agree in their hash but for its first bit, or one hashes to the empty root |
| `Trie.RootDecidesState` | internal/merkle/trie/merkle.go:9-64 | if no two keys differ in their last octet only, one root means one state, or such inputs among those hashed |
| `Trie.SameRootExactlyWhen` | internal/merkle/trie/merkle.go:9-64 | any two states without repeated keys have one root if and only if they have the same marks, unless there are such inputs among those hashed |
| `Trie.LastOctetIsDropped` | internal/merkle/trie/merkle.go:9-64 | states of one entry whose keys differ in the last octet have one root |
| `Trie.StoredUnderOwnHash` | internal/merkle/trie/db.go:43-45 | every node is stored under its own hash, and the root of a non-empty state is the last one stored |
| `Trie.DB.MerklizeAndCommit` | internal/merkle/trie/db.go:31-56 | a commit puts exactly the emitted nodes in the store and sets the root; a failed one changes nothing |
| `ServiceIndex.CheckIndexFindsFirstFree` | internal/service/util.go:19-25 | the search ends at the first unused index in cyclic order of [2^8, 2^32 - 2^8) |
| `ServiceIndex.CheckIndexIsExactlyWhen` | internal/service/util.go:19-25 | the search gives f if and only if f is unused, in range, and every index met before it is used |
| `ServiceIndex.DerivedIndexIsFree` | internal/service/util.go:27-29 | deriving from any index gives the first unused one after it in cyclic order |
| `ServiceIndex.FewServicesLeaveRoom` | internal/service/util.go:19-25 | with fewer than 2^32 - 2^9 services there is an unused index, so the search ends |
| `ServiceIndex.Advance` | internal/service/util.go:14-29 | every step of the index arithmetic, unsigned wrap included, lands in the range |
| `ServiceIndex.AdvanceIs` | internal/service/util.go:14-29 | the index arithmetic in numbers, for indices below the range too |
| `Preimages.StepKeepsWellFormed` | internal/polkavm/host_call/accumulate_functions.go:366-469 | solicit, forget and supply keep a history ascending, with at most three entries and none in the future |
| `Preimages.StepKeepsAnswer` | internal/service/service.go:131-145 | no action at time t >= D changes the answer to a query q with q < t <= q + D |
| `Preimages.ForgetMeans` | internal/polkavm/host_call/accumulate_functions.go:406-469 | an accepted Forget at t ends availability at t, for every history; before t a preimage that was running is available since its last entry, and anything else not at all |
| `Preimages.ForgetRefused` | internal/polkavm/host_call/accumulate_functions.go:406-469 | from slot D on, Forget is refused if and only if the preimage was forgotten no longer than D ago, and then changes nothing |
| `Preimages.SolicitMeans` | internal/polkavm/host_call/accumulate_functions.go:366-403 | Solicit records what has no history, makes what was forgotten available from t on besides when it was before, and is refused and changes nothing otherwise |
| `Preimages.SupplyMeans` | internal/statetransition/state_transition.go:134-195 | a preimage taken at t is available exactly from t on; one that is not taken keeps its history |
| `Preimages.ExpungeLimitIs` | internal/polkavm/host_call/accumulate_functions.go:430-466 | the unsigned subtraction of D |
| `Preimages.RunKeepsWellFormed` | internal/polkavm/host_call/accumulate_functions.go:366-469 | the same over every run with a clock that never goes back |
| `Preimages.RunIs` | internal/polkavm/host_call/accumulate_functions.go:366-469 | a run is its events one after the other |
| `Preimages.HistoryIsStable` | internal/service/service.go:131-145 | over every run inside the window of a query, from any history, the answer stays what it was |
| `Preimages.WindowHoldsExactlyWhen` | internal/polkavm/host_call/accumulate_functions.go:406-469 | forgetting at t respects the window if and only if t is 0 or at least D; before that the unsigned subtraction wraps |
| `Preimages.EarlyForgetExample` | internal/polkavm/host_call/accumulate_functions.go:406-469 | forgetting at timeslot 100 a preimage unavailable since then is accepted and changes the answer for timeslot 99 |
| `Accounts.ThresholdBalance` | internal/service/service.go:40-73 | the loops over both maps compute the threshold, 32-bit item counts and 64-bit wrap included; while nothing overflows it is 81 and 32 octets of overhead for each preimage and each storage value with their octets, 100, and 10 for each item, preimages counted twice |
| `Accounts.AccumulateContext.New` | internal/polkavm/host_call/accumulate_functions.go:118-175 | without gas, or with an unreadable hash, nothing changes; otherwise accounts and index become what the ledger function says; a new account is under an index that was free, with 100, the code and the gas limits given |
| `Accounts.AccumulateContext.Upgrade` | internal/polkavm/host_call/accumulate_functions.go:178-199 | the same contract: only the caller's code hash and gas limits change |
| `Accounts.AccumulateContext.Solicit` | internal/polkavm/host_call/accumulate_functions.go:366-403 | the same contract: only one history of the caller changes, and it is written even when the call answers FULL; after any answer but a crash there is a history |
| `Accounts.AccumulateContext.Forget` | internal/polkavm/host_call/accumulate_functions.go:406-469 | the same contract: only one history of the caller changes, and the preimage goes when the history does; after OK at t the preimage is available at no q >= t |
| `Accounts.AccumulateContext.Eject` | internal/polkavm/host_call/accumulate_functions.go:253-316 | the same contract: the first failing check decides the answer and changes nothing; after OK the service, which had offered itself to the caller, is gone and its balance is the caller's |
| `Accounts.NewMeans` | internal/polkavm/host_call/accumulate_functions.go:118-175 | New is refused if and only if the balance less 100, on a word, is below the threshold; otherwise the caller pays 100 and the new account holds them and the solicited code and nothing else |
| `Accounts.UpgradeMeans` | internal/polkavm/host_call/accumulate_functions.go:178-199 | Upgrade sets the code hash and both gas limits and nothing else |
| `Accounts.SolicitCallMeans` | internal/polkavm/host_call/accumulate_functions.go:366-403 | each answer of Solicit with its exact condition, and the history it leaves |
| `Accounts.ForgetCallMeans` | internal/polkavm/host_call/accumulate_functions.go:406-469 | each answer of Forget with its exact condition, the history it leaves, and when the blob goes with it |
| `Accounts.EjectMeans` | internal/polkavm/host_call/accumulate_functions.go:253-316 | a service is ejected if and only if it is another one whose code hash offers it to the caller, with two items left and the code forgotten for more than D; its balance goes to the caller and nobody else changes |
| `Accounts.NewNeverOverwrites` | internal/polkavm/host_call/accumulate_functions.go:118-175 | the new account gets an index nobody has, and no account but the caller's changes |
| `Accounts.NewConservesExactlyWhen` | internal/polkavm/host_call/accumulate_functions.go:143-166 | New keeps the sum of balances if and only if the caller holds the fee or the call is refused |
| `Accounts.NewCreatesMoneyExample` | internal/polkavm/host_call/accumulate_functions.go:143-166 | a caller that holds 50 ends with 2^64 - 50 |
| `Accounts.NewAnswersItsIndexExactlyWhen` | internal/polkavm/host_call/accumulate_functions.go:118-175 | the index a paid New answers is that of the account it made if and only if it is in range and unused and every index from the bumped one up to it is used |
| `Accounts.NewMisreportsExample` | internal/polkavm/host_call/accumulate_functions.go:118-175 | from index 256 the call answers 256, stores the account under 298, and nothing is under 256 |
| `Accounts.CallKeepsSound` | internal/polkavm/host_call/accumulate_functions.go:118-199 | each of the five calls keeps the sum of all balances and the caller above its threshold |
| `Accounts.RunCalls` | internal/polkavm/host_call/accumulate_functions.go:118-316 | the same for every run of calls, of any length, by a caller that starts above its threshold, with total balance below 2^64 and an unused index whenever a New is made |
| `Accounts.RunCallsIs` | internal/polkavm/host_call/accumulate_functions.go:118-316 | a run of calls is its calls one after the other |
| `Accounts.CalculateIntermediateServiceState` | internal/statetransition/state_transition.go:156-197 | the loop over the extrinsic, with maps shared between a state and its shallow clone and nil maps replaced in the clone only, computes the supply function that the results below are about |
| `Accounts.TakenExactlyWhen` | internal/statetransition/state_transition.go:134-175 | a preimage of the extrinsic is taken if and only if its service waits for it and it is the first of its kind in the extrinsic, or the service has neither map; for blobs whose hashes do not collide |
| `Accounts.SuppliedExactlyWhen` | internal/statetransition/state_transition.go:156-197 | a preimage taken is in the lookup map afterwards if and only if the service had such a map or the last preimage taken for it is the same blob; its history is there if and only if the service had a metadata map or the last one taken has its key |
| `Accounts.LostPreimageExample` | internal/statetransition/state_transition.go:183-195 | a service without a lookup map that solicited two preimages: both are taken, both histories say so, and the first blob is lost |
| `Accounts.SupplyOneActs` | internal/statetransition/state_transition.go:134-197 | supplying writes one slot over an empty or missing history, or nothing |
| `Accounts.AnswersAreStable` | internal/service/service.go:131-145 | over every run of host calls by any services and of supplied preimages, the answer for any service, preimage and query in the window stays what it was while the service exists |
| `Accounts.ForgetForgets` | internal/polkavm/host_call/accumulate_functions.go:406-469 | after an accepted Forget at t, over every run without a Solicit or a supply of it, the preimage is not available at any q >= t |
| `Accounts.ForgottenUntilAsked` | internal/polkavm/host_call/accumulate_functions.go:366-469 | the same from any state in which it is not available from t on |
| `Accounts.AvailableUntilForgotten` | internal/polkavm/host_call/accumulate_functions.go:366-469 | over every run without a Forget of it or the ejection of its service, a preimage that is available from t on stays so, whatever is solicited and supplied |
| `Accounts.LedgerRunIs` | internal/polkavm/host_call/accumulate_functions.go:118-469 | a run of the ledger is its calls and extrinsics one after the other |
| `Accounts.HistoriesStayWellFormed` | internal/polkavm/host_call/accumulate_functions.go:366-469 | over every run with a clock that never goes back, every history of every service stays ascending with at most three entries, none in the future |
| `Safrole.CalculateTickets` | internal/statetransition/state_transition.go:449-509 | accepts exactly the admissible proofs; otherwise names the first fault; accepted tickets ascend and are new to the accumulator |
| `Safrole.OutsideInSequence` | internal/safrole/state.go:72-88 | the two moving indices produce first, last, second, last but one, and so on |
| `Safrole.OutsideInPermutes` | internal/safrole/state.go:72-88 | the outside-in sequence is a permutation |
| `Safrole.OutsideInInjective` | internal/safrole/state.go:72-88 | different lists have different outside-in sequences |
| `Safrole.UpdateSafroleState` | internal/statetransition/state_transition.go:527-667 | the part that concerns the contest: accepts exactly the blocks the step predicate admits and then does exactly that step |
| `Safrole.AdmissibleMeans` | internal/statetransition/state_transition.go:449-509 | the proofs of a block are admissible if and only if there are at most 16, each of attempt 0 or 1, verified and new to the accumulator, with ascending outputs; the tickets are the outputs with their attempts |
| `Safrole.AcceptsMeans` | internal/statetransition/state_transition.go:527-642 | exactly which blocks are accepted, in slots and tickets |
| `Safrole.StepMeans` | internal/statetransition/state_transition.go:556-664 | what an accepted block does to accumulator, series and marker, case by case |
| `Safrole.MergeKeepsLowest` | internal/statetransition/state_transition.go:556-594 | merging, sorting and truncating keeps the accumulator the E lowest identifiers seen |
| `Safrole.LowestIsUnique` | internal/statetransition/state_transition.go:556-594 | there is only one such list |
| `Safrole.StepKeepsLowest` | internal/statetransition/state_transition.go:556-594 | every ticket of an accepted block is in the accumulator right after it, and the accumulator stays the E lowest |
| `Safrole.ContestKeepsLowest` | internal/statetransition/state_transition.go:556-594 | over every run of accepted blocks in one epoch from an empty accumulator, the accumulator is exactly the E lowest identifiers of all tickets brought |
| `Safrole.AfterIs` | internal/statetransition/state_transition.go:527-667 | a run of the contest is its blocks one after the other, each accepted |
| `Safrole.ClosedContest` | internal/jamtime/timeslot.go:105-115 | once submission has closed nothing moves the accumulator before the epoch ends |
| `Safrole.PublishedWinnersAreUsed` | internal/statetransition/state_transition.go:596-664 | the announced winners are an outside-in permutation of the accumulator, and the series that seals the next epoch equals them if and only if the block that opens it carries no tickets |
| `Safrole.OpeningTicketExample` | internal/statetransition/state_transition.go:556-642 | a state, a closing block that announces winners and an opening block with one ticket after which the series is not the winners |
| `Safrole.SealedWereAnnounced` | internal/statetransition/state_transition.go:596-664 | tickets never seal an epoch unless a block of the run announced them |
| `Epochs.NullifyOffenders` | internal/validator/validators.go:34-49 | index by index, an offender is replaced by zeros and anyone else is kept |
| `Epochs.SelectFallbackKeys` | internal/safrole/state.go:47-69 | for each slot of the epoch the key of the validator drawn by entropy and slot, modulo their number |
| `Epochs.CalculateNewEntropyPool` | internal/statetransition/state_transition.go:673-689 | mixes in the entropy of the block, and moves the older ones up on an epoch change |
| `Epochs.UpdateSafrole` | internal/statetransition/state_transition.go:527-667 | accepts exactly the blocks that the contest accepts with the ring, entropy and fallback keys of the state, and then does the whole step: contest, pool, keys, commitment and both markers |
| `Epochs.OpeningBlockMoves` | internal/statetransition/state_transition.go:596-655 | a block that opens an epoch moves every list of keys and every entropy up by one place; queued validators come in index by index, offenders as zeros; the commitment is that of their keys, and the marker publishes them with the two newest entropies before the block |
| `Epochs.HonestComeIn` | internal/statetransition/state_transition.go:596-655 | without offenders the queued validators come in as they are |
| `Epochs.OtherBlocksMove` | internal/statetransition/state_transition.go:673-689 | any other block changes only the contest and the newest entropy |
| `Epochs.TicketsAreVerifiedWith` | internal/statetransition/state_transition.go:449-483 | the keys, in order, the commitment and the entropy that tickets are verified with |
| `Epochs.RunIsContestRun` | internal/statetransition/state_transition.go:527-667 | every run of the whole state is a run of the contest, so the results on runs above hold of it |
| `Epochs.WholeAfterIs` | internal/statetransition/state_transition.go:527-667 | a run of the whole state is its blocks one after the other, each taken |
| `Epochs.EpochStandsStill` | internal/statetransition/state_transition.go:596-667 | inside an epoch only the contest and the newest entropy change |
| `Epochs.PublishedKeysAreUsed` | internal/statetransition/state_transition.go:596-667 | after any blocks of the epoch that an epoch marker opens, its keys are the ring with its commitment and its second entropy is what tickets are verified with; when the next epoch opens its keys are the current ones, the queued keys without the offenders, and fallback keys are drawn from them with its first entropy |
| `Epochs.TicketsUseNewValuesExactlyWhen` | internal/statetransition/state_transition.go:556-562 | the entropy, ring and commitment that tickets of a block are verified with are those after the block if and only if it opens no epoch or the values it moves up are the same |
| `Epochs.OldEntropyExample` | internal/statetransition/state_transition.go:470-483 | a state and an opening block whose ticket is taken though it does not verify with the values after it |
| `Disputes.CountPositiveJudgments` | internal/block/dispute.go:42-50 | counts the positive votes: all of them exactly when every vote is positive, none exactly when none is |
| `Disputes.VerifySortedUnique` | internal/statetransition/state_transition.go:998-1023 | succeeds exactly when faults, verdicts and the votes of each verdict strictly ascend |
| `Disputes.VerifyAllSignatures` | internal/statetransition/state_transition.go:1027-1056 | succeeds exactly when everything is signed by the right key in the right context and verdicts are of this epoch or the one before |
| `Disputes.VerifyVerdictSignatures` | internal/statetransition/state_transition.go:1061-1094 | the same for one verdict, with the validator set its epoch selects |
| `Disputes.VerifyFaults` | internal/statetransition/state_transition.go:1127-1162 | succeeds exactly when every fault opposes the first verdict on its report, is signed, and names no known offender |
| `Disputes.ProcessPositiveVerdict` | internal/statetransition/state_transition.go:907-925 | fails exactly without an invalid-voting fault; otherwise adds the report and the new offenders |
| `Disputes.ProcessVerdicts` | internal/statetransition/state_transition.go:875-903 | succeeds exactly when every verdict stands, and records each on the list of its vote count |
| `Disputes.VerifyCulprits` | internal/statetransition/state_transition.go:1099-1122 | succeeds exactly when culprits ascend, are new, are signed and name bad reports |
| `Disputes.ProcessCulprits` | internal/statetransition/state_transition.go:959-991 | succeeds exactly when in addition the first verdict on each culprit's report condemns it, and adds their keys |
| `Disputes.CalculateNewJudgements` | internal/statetransition/state_transition.go:789-821 | accepts exactly the extrinsics that pass every check, and a rejected one changes nothing |
| `DisputeRules.AcceptsMeans` | internal/statetransition/state_transition.go:789-1162 | an extrinsic is accepted if and only if it is in order and every verdict, vote, fault and culprit is right: which keys a vote of which epoch is checked with, what each signature says, what the verdict on a report must be, and who must not be an offender yet |
| `DisputeRules.RecordedInOrder` | internal/statetransition/state_transition.go:875-941 | newly judged reports are appended in ascending order |
| `DisputeRules.TwoCulpritsExactlyWhen` | internal/statetransition/state_transition.go:927-935 | that each bad verdict has two culprits of its own holds of all accepted extrinsics with at most n bad verdicts if and only if n is at most one |
| `DisputeRules.MissingCulpritsExample` | internal/statetransition/state_transition.go:927-935 | an accepted extrinsic with two bad verdicts and both culprits on the first |
| `Disputes.DisputeKeepsConsistent` | internal/statetransition/state_transition.go:789-821 | good, bad and wonky lists stay duplicate-free and pairwise disjoint, offenders duplicate-free, and all only grow |
| `Disputes.VerdictsAreRecorded` | internal/statetransition/state_transition.go:875-903 | each verdict puts its report on exactly the list its votes say: good when all are positive, bad when none is, wonky at one third |
| `Disputes.OffendersExactly` | internal/statetransition/state_transition.go:907-991 | the offenders become exactly the old ones, the culprits, and those whose faults called a newly good report invalid |
| `Disputes.FaultOffendsExactlyWhen` | internal/statetransition/state_transition.go:781-821 | the key of a fault of an accepted extrinsic is an offender afterwards if and only if the fault calls its report invalid or the key is a culprit's |
| `Disputes.FaultsOffendExactlyWhen` | internal/statetransition/state_transition.go:781-821 | so every fault makes an offender if and only if each is of that kind |
| `Disputes.UnpunishedFaultExample` | internal/statetransition/state_transition.go:1127-1162 | a lone fault that calls its report valid is accepted and its key is no offender |
| `Disputes.RunsStayConsistent` | internal/statetransition/state_transition.go:789-821 | consistency and growth over every run of extrinsics, accepted or not |
| `Disputes.AfterAllIs` | internal/statetransition/state_transition.go:789-821 | a run is its extrinsics one after the other; one that is not accepted changes nothing |
| `ParallelAccumulation.Shared.Enter` | internal/statetransition/state_transition.go:2490-2572 | what one goroutine does while it holds the mutex: that of a service adds to the transfers, pairs and removals, writes no account but its own and new ones, and leaves the privileged state; the others change nothing but that |
| `ParallelAccumulation.ServiceIndices` | internal/statetransition/state_transition.go:2450-2462 | the two loops collect exactly the services of the reports and of the privileged gas |
| `ParallelAccumulation.ParallelDelta` | internal/statetransition/state_transition.go:2438-2587 | for any order of taking the mutex, the result in terms of the initial state and of what each service made of it: gas, transfers, pairs in order, who the privileged parts come from, which accounts there are, and that an account is as its own service left it, or as it was, or for a new one as the last service that made it left it |
| `ParallelAccumulation.ResultIsWhatItMeans` | internal/statetransition/state_transition.go:2438-2587 | the same of any result of an order |
| `ParallelAccumulation.NewAccountOfAny` | internal/statetransition/state_transition.go:2574-2580 | without clashes a new account is as any service that made it left it |
| `ParallelAccumulation.Confluence` | internal/statetransition/state_transition.go:2438-2587 | every two orders give the same gas total, sorted hash pairs, multiset of transfers, privileged state and service domain (d ∪ n) minus m, and without clashes the same accounts |
| `ParallelAccumulation.AgreeExactlyWhen` | internal/statetransition/state_transition.go:2438-2587 | all orders give the same accounts if and only if no two services produce one id outside the initial state in different versions |
| `ParallelAccumulation.ClashExample` | internal/statetransition/state_transition.go:2506-2518 | two services that produce one new id in two versions, and two orders that disagree |
| `ParallelAccumulation.PairsAre` | internal/statetransition/state_transition.go:2497-2504 | a hash pair is there exactly when its service ran and gave that hash |
| `ParallelAccumulation.ProducedValue` | internal/statetransition/state_transition.go:2506-2518 | without clashes a produced account is the one any of its producers made |
| `ParallelAccumulation.SortedPairsAgree` | internal/statetransition/state_transition.go:2580-2584 | sorted by service the hash pairs are one list, whatever the order of arrival |
| `Assignment.GenerateRandomNumbers` | internal/common/shuffling.go:37-63 | number i is, little-endian, the four octets at 4 (i mod 8) of the hash of the entropy and i / 8 |
| `Assignment.ShufflePermutes` | internal/common/shuffling.go:18-34 | the swap-with-last shuffle permutes, for any random numbers |
| `Assignment.ShuffleDraws` | internal/common/shuffling.go:18-34 | the first number modulo the length picks the first element, the last element takes its place, and all others stay where they were |
| `Assignment.ShuffleReaches` | internal/common/shuffling.go:18-34 | every permutation is reached by some random numbers |
| `Assignment.DeterministicShuffle` | internal/common/shuffling.go:9-15 | the shuffle by the drawn numbers, a permutation |
| `Assignment.SpreadIsFloor` | internal/statetransition/state_transition.go:1746-1749 | with k validators to a core, floor spreading puts validator i on core i / k |
| `Assignment.RotationMovesCounts` | internal/statetransition/state_transition.go:1734-1740 | rotation moves the number of validators of each core to one other core |
| `Assignment.RotateSequence` | internal/statetransition/state_transition.go:1734-1740 | every entry is the old one plus n modulo the number of cores, in its place |
| `Assignment.PermuteAssignments` | internal/statetransition/state_transition.go:1744-1764 | for every entropy and timeslot each of C cores gets exactly k of the k·C validators, and the result is the shuffled spread rotated by the tenth of the slot in its epoch |
| `Memory.InitializeMemory` | internal/polkavm/initialisation.go:35-73 | fails exactly when the size check does; otherwise builds the four segments |
| `Memory.InitialMeans` | internal/polkavm/initialisation.go:35-73 | address, access and octets of the four segments |
| `Memory.FitsMeans` | internal/polkavm/initialisation.go:36-43 | the size check in zones |
| `Memory.LaidOutExactlyWhen` | internal/polkavm/initialisation.go:35-73 | sizes that pass the check give separated whole pages if and only if the heap, above the read-only data the check leaves out, ends below the stack |
| `Memory.ReadOnlyOverStackExample` | internal/polkavm/initialisation.go:35-73 | sizes that pass the check with the heap over the stack |
| `Memory.BlobSizesAreLaidOut` | internal/polkavm/initialisation.go:35-73 | sizes within the three- and two-octet fields of a blob, with arguments up to 2^24, always pass and are always separated |
| `Memory.Memory.GetAccess` | internal/polkavm/common.go:149-163 | the access of the page's address in flat memory |
| `Memory.Memory.Read` | internal/polkavm/common.go:36-70 | succeeds and fails as the access check says, ranges that wrap past 2^64 included; delivers the octets, changes no memory, and leaves the buffer alone on failure |
| `Memory.Memory.Write` | internal/polkavm/common.go:73-108 | the same for writing: overwrites the segment in place, and changes nothing on failure |
| `Memory.AccessExactlyWhen` | internal/polkavm/common.go:36-108 | a non-empty access goes through if and only if every address in its range permits it |
| `Memory.FaultIsLowest` | internal/polkavm/common.go:58-64 | a failed access names the page of the lowest address that does not permit it |
| `Memory.LoadedIsFlat` | internal/polkavm/common.go:36-70 | a read delivers the octets of flat memory |
| `Memory.StoredIsFlat` | internal/polkavm/common.go:73-108 | a write changes exactly its range of flat memory and no permission |
| `Memory.StoredKeepsLayout` | internal/polkavm/common.go:73-108 | a write keeps the layout |
| `Memory.ReadAfterWrite` | internal/polkavm/common.go:36-108 | reading back what was just written gives it |
| `Memory.PastTheEndFails` | internal/polkavm/common.go:36-108 | a range that wraps past 2^64 never succeeds, whatever the segments |
| `Memory.FailuresAre` | internal/polkavm/common.go:36-108 | which accesses are forbidden and which run past the end of a segment, exactly |
| `Memory.GrownIsLaidExactlyWhen` | internal/polkavm/common.go:110-126 | growing the heap keeps the segments apart if and only if the new end, rounded to pages and added to the address of the heap, is below the stack |
| `Memory.HeapOverStackExample` | internal/polkavm/common.go:110-126 | in the memory of an empty program, a growth the check admits lays the heap over the stack |
| `Memory.GrowthKeepsReadOnly` | internal/polkavm/common.go:110-126 | a growth that keeps the segments apart leaves every octet and permission of memory that is not writable |
| `Programs.SkipIs` | internal/polkavm/program.go:101-111 | the skip leads to the next marked position within reach; otherwise it is 24, or 0 when the bitmask ends first |
| `Programs.Skip` | internal/polkavm/program.go:101-111 | the scanning loop computes the skip |
| `Programs.Instantiate` | internal/polkavm/interpreter/instance.go:10-35 | the sentinel is appended, and the block starts are exactly 0 and what follows each marked block-ending instruction, all within the code |
| `Interpreter.Instance.BranchTo` | internal/polkavm/interpreter/instance.go:93-106 | a taken branch continues only at its target and only if that is a block start; otherwise it exits and changes nothing; registers, gas and memory stay |
| `Interpreter.Instance.Djump` | internal/polkavm/interpreter/instance.go:109-130 | a table jump continues only at a block start in the jump table, halts exactly on the return address, and otherwise panics; registers, gas and memory stay |
| `Interpreter.Instance.DeductGas` | internal/polkavm/interpreter/instance.go:52-58 | charges only when there is enough |
| `Interpreter.Instance.SetAndSkip` | internal/polkavm/interpreter/instance.go:87-90 | sets one register and advances |
| `Interpreter.Instance.LoadInto` | internal/polkavm/interpreter/instance.go:61-71 | a failed load changes nothing; one that succeeds no register but its own, and neither gas nor memory |
| `Interpreter.Instance.StoreAt` | internal/polkavm/interpreter/instance.go:74-85 | a failed store changes nothing; one that succeeds no register and no gas |
| `Interpreter.Instance.Step` | internal/polkavm/interpreter/step.go:9-585 | charges, decodes and executes one instruction |
| `Semantics.BranchStep` | internal/polkavm/interpreter/mutations.go:177-225 | a step at each branch opcode goes to the target if and only if its comparison holds of the register and the immediate or other register: equality, unsigned order or signed order; registers and memory stay |
| `Semantics.OppositeBranches` | internal/polkavm/interpreter/mutations.go:177-225 | of a comparison and its opposite exactly one branches |
| `Semantics.JumpStep` | internal/polkavm/interpreter/mutations.go:46-49 | a jump goes to its target if a block starts there, and stops the machine otherwise |
| `Semantics.SetAndJumpStep` | internal/polkavm/interpreter/mutations.go:171-175 | the register is set, whether or not the jump succeeds |
| `Semantics.JumpIndirectStep` | internal/polkavm/interpreter/instance.go:109-130 | a table jump with even address a goes to entry a/2 - 1 if a block starts there, returns to the host at one address, and panics otherwise |
| `Semantics.SetAndJumpIndirectStep` | internal/polkavm/interpreter/mutations.go:579-584 | the same, with the address from the register before the other is set |
| `Semantics.MoveStep` | internal/polkavm/interpreter/mutations.go:227-230 | the destination holds what the source held, and nothing else changes |
| `Semantics.SetStep` | internal/polkavm/interpreter/mutations.go:21-24 | the destination holds the immediate, and nothing else changes |
| `Semantics.ArithStep` | internal/polkavm/interpreter/step.go:271-585 | the destination holds the result of the arithmetic unit on the named registers, and nothing else changes |
| `Semantics.LoadStep` | internal/polkavm/interpreter/mutations.go:61-129 | a load succeeds if and only if every octet of its range is readable; its register then holds them little-endian, with zeros or copies of the sign above, and nothing else changes |
| `Semantics.StoreStep` | internal/polkavm/interpreter/mutations.go:131-169 | a store succeeds if and only if every octet of its range is writable; the range then holds the low octets of the value, and nothing else changes |
| `Semantics.DecodedLoad` | internal/polkavm/interpreter/step.go:128-173 | which opcodes load, how many octets, and which extend the sign |
| `Semantics.DecodedStore` | internal/polkavm/interpreter/step.go:69-107 | which opcodes store, and how many octets |
| `Semantics.SbrkMeans` | internal/polkavm/common.go:110-126 | when the heap stays, when there is no room, and what it is when it grows |
| `Semantics.SbrkStep` | internal/polkavm/interpreter/mutations.go:232-245 | the size comes from one register and the end of the heap goes to the other |
| `Semantics.ExitStep` | internal/polkavm/interpreter/mutations.go:11-19 | trap panics, a host call hands out its immediate, fallthrough goes on |
| `Semantics.CostMeans` | internal/polkavm/instructions.go:5-145 | every opcode of the tables costs one gas, and any other nothing |
| `Semantics.BadStep` | internal/polkavm/interpreter/step.go:17-33 | without gas nothing happens, an unknown opcode panics for free, and operands past the code stop the machine |
| `Semantics.BlocksEndAtJumps` | internal/polkavm/interpreter/instance.go:16-23 | the opcodes that end a block are exactly those of traps, fallthroughs, jumps and branches |
| `Semantics.OperandFields` | internal/polkavm/interpreter/step.go:119-136 | where registers and the lengths of immediates are in the octets, and their limits |
| `Semantics.LoneImmediate` | internal/polkavm/interpreter/step.go:31-51 | the immediate of a host call or a jump is as long as the skip, at most four octets, and code that ends before it panics |
| `Semantics.OneImmediateExamples` | internal/polkavm/interpreter/step.go:31-51 | octets of instructions with one immediate or two registers, decoded |
| `Semantics.OneRegisterExamples` | internal/polkavm/interpreter/step.go:128-173 | octets of instructions with one register and of three registers, decoded |
| `Semantics.TwoRegisterExamples` | internal/polkavm/interpreter/step.go:310-448 | octets of instructions with two registers and an immediate, decoded |
| `Semantics.TwoImmediateExamples` | internal/polkavm/interpreter/step.go:69-107 | octets of instructions with two immediates, decoded |
| `Semantics.IndirectExample` | internal/polkavm/interpreter/step.go:450-484 | octets of a load and indirect jump, decoded |
| `Interpreter.StepBounds` | internal/polkavm/interpreter/step.go:9-585 | a step that continues costs exactly one gas and leaves the counter in 0..|c|, on the next instruction or a block start; one that exits costs at most one |
| `Interpreter.FreeNeverContinues` | internal/polkavm/interpreter/step.go:17-33 | an opcode without a cost always panics |
| `Interpreter.Invoked` | internal/polkavm/interpreter/invocations.go:65-71 | every run from gas g ends after at most g + 1 steps, with gas in 0..g that accounts for the steps, and the counter in the code |
| `Interpreter.Instance.Invoke` | internal/polkavm/interpreter/invocations.go:65-71 | the loop ends and computes that run |
| `Programs.LandsOnMarkExactlyWhen` | internal/polkavm/program.go:101-111 | a sequential skip lands on a marked instruction if and only if there is a mark within reach |
| `Programs.BlockIsMarkedExactlyWhen` | internal/polkavm/interpreter/instance.go:16-23 | what follows a block-ending instruction is a marked position if and only if there is a mark within reach or the code ends right after the opcode, because block starts are computed without the sentinel |
| `Programs.BlockInsideOperandExample` | internal/polkavm/interpreter/instance.go:16-23 | a two-octet program whose only operand octet is a valid jump target |
| `Interpreter.RunsStayOnMarks` | internal/polkavm/interpreter/invocations.go:65-71 | in a program whose marks are all within reach and whose block starts are marked, no run ever executes an octet that does not start an instruction |
| `Interpreter.AfterIs` | internal/polkavm/interpreter/invocations.go:65-71 | the machine after k steps is k steps one after the other |
| `Instructions.SignExtendMeans` | internal/polkavm/interpreter/step.go:588-605 | read as a signed word, the extension lies in the range of its octets and agrees with them |
| `Assembly.DecodeUndoesAssemble` | internal/polkavm/interpreter/step.go:9-585 | every instruction of every format, with immediates of every length from none to four octets, laid out anywhere in any code, is decoded with each register, immediate and target in its place |
| `Assembly.ProgramReadsBack` | internal/polkavm/interpreter/step.go:9-585 | the same in a program whose bitmask next marks the octet after the instruction, through the skip of that bitmask |
| `Interpreter.RunsKeepReadOnly` | internal/polkavm/interpreter/invocations.go:65-71 | a whole run, heap growth included, changes no octet and no permission of memory that is not writable, provided each growth in it leaves room below the stack |
| `ErasureCoding.UnzipData` | internal/erasurecoding/erasurecoding.go:128-146 | there are ceil(length / n) chunks, and octet j of chunk i is data octet j·k + i of k chunks, zero past the end; no chunks for n = 0 |
| `ErasureCoding.LaceChunks` | internal/erasurecoding/erasurecoding.go:155-167 | octet i comes from chunk i mod k, octet i / k; nothing without chunks |
| `ErasureCoding.LaceUndoesUnzip` | internal/erasurecoding/erasurecoding.go:128-167 | lacing the unzipped chunks to the original length gives the data back, padding and all |
| `ErasureCoding.Chunk` | internal/erasurecoding/reedsolomon/reedsolomon.go:76-100 | n shards of equal size that begin with the data and r empty ones; exactly when it fails, and how |
| `ErasureCoding.Encode` | internal/erasurecoding/erasurecoding.go:26-66 | shard j is the j-th shard of every chunk's code word; fails only on bad lengths or when the library does |
| `ErasureCoding.Decode` | internal/erasurecoding/erasurecoding.go:74-119 | the errors in order with their conditions, and otherwise the decoding function that the loss theorem is about |
| `ErasureCoding.SurvivesLoss` | internal/erasurecoding/erasurecoding.go:26-119 | whatever shards are lost, while 342 of 1023 are left decoding to the original length gives the data, given that the library's code is MDS |
| `ErasureCoding.EncodeLoseDecode` | internal/erasurecoding/erasurecoding.go:26-119 | a program that encodes 1 to 12·2^20 octets, drops all but any 342 or more shards and decodes, gets the data back |
| `ReedSolomon.Encode` | internal/erasurecoding/reedsolomon/reedsolomon.go:106-149 | fills in the recovery shards in place, or fails and changes nothing; each failure with its exact condition |
| `ReedSolomon.Decode` | internal/erasurecoding/reedsolomon/reedsolomon.go:155-218 | puts restored shards in their places, or fails and changes nothing; each failure with its exact condition |
| `ReedSolomon.PresentAre` | internal/erasurecoding/reedsolomon/reedsolomon.go:160-190 | the indices handed to the library are those of the shards that are there, ascending |
| `ReedSolomon.LibraryIsUsed` | internal/erasurecoding/reedsolomon/reedsolomon.go:106-218 | what the library makes follows the originals, and what it restores goes where it says, or the failure |
| `ReedSolomon.DecodeUndoesEncode` | internal/erasurecoding/reedsolomon/reedsolomon.go:106-218 | a damaged code word that keeps n shards decodes to its originals |
| `ReedSolomon.CutFlatten` | internal/erasurecoding/reedsolomon/reedsolomon.go:117-148 | cutting undoes flattening |
| `Chain.BlockService.constructor` | internal/chain/service.go:51-102 | genesis stored and finalized, no leaves, all invariants hold |
| `Chain.BlockService.IsDescendantOfFinalized` | internal/chain/service.go:214-238 | for any header the walk accepts exactly when the first ancestor at or below the finalized slot is the finalized block, and reports a missing parent exactly when the way ends before |
| `Chain.BlockService.CheckFinalization` | internal/chain/service.go:113-144 | finalizes the header five generations above the parent if all up to it are stored, and otherwise changes nothing |
| `Chain.BlockService.HandleNewHeader` | internal/chain/service.go:153-207 | accepts exactly those headers, and updates store, leaves and finalized block as the step function says |
| `Chain.AcceptsExactlyWhen` | internal/chain/service.go:214-238 | a header is accepted if and only if it is the finalized block, or leads back to it past nothing but blocks of later slots |
| `Chain.AcceptsDescendants` | internal/chain/service.go:214-238 | where slots grow from parent to child, that is exactly the descendants of the finalized block and itself |
| `Chain.RefusedDescendantExample` | internal/chain/service.go:214-238 | with the block of slot 15 finalized, its child of slot 16 and a child of that of slot 12 stored, a header of slot 20 on the last is a descendant and is refused |
| `Chain.FinalizationStandsExactlyWhen` | internal/chain/service.go:113-144 | after an accepted fresh header the finalized block descends from, or is, the one before if and only if, in the store before the call, too few ancestors are there or the finalized one is none of the five blocks before the header |
| `Chain.FinalizationMovesBackExample` | internal/chain/service.go:113-185 | eleven blocks in a line finalize the fifth; announcing another block on the fifth finalizes genesis |
| `Chain.HeaderKeepsSound` | internal/chain/service.go:153-185 | any header, of any slot, keeps the store closed under parents down to genesis, without circles, and the finalized block stored |
| `Chain.FreshKeepsExact` | internal/chain/service.go:153-207 | after a fresh header the known leaves are again exactly the stored non-genesis headers with no stored child |
| `Chain.ChildlessKeepsExact` | internal/chain/service.go:153-207 | so does any header, new or repeated, that is not genesis and has no stored child |
| `Chain.LeavesExactlyWhen` | internal/chain/service.go:166-176 | after any accepted header, new or repeated, the leaves are exact if and only if it is not genesis and has no stored child |
| `Chain.RepeatedHeaderExample` | internal/chain/service.go:166-176 | three headers for which announcing the middle one again makes the leaves wrong |
| `Chain.ChainHeadsAreExact` | internal/chain/service.go:113-238 | over every run of headers of any slots, new or repeated, that have no stored child: everything stored descends from genesis, leaves are exact, and a header is taken exactly when it is the latest finalized block or leads back to it past nothing but blocks of later slots |
| `Chain.AnnouncedIs` | internal/chain/service.go:51-207 | a run is its headers one after the other, from genesis on |
| `Chain.LaterHeadersDescend` | internal/chain/service.go:113-238 | over every such run of headers later than their parents, a header is taken exactly when it is the latest finalized block or descends from it |

## Left out

- Networking, certificates, the key-value store's errors, logging and the foreign crates: input and output.
- Bit sequences, signed integers and pointers to enums in the codec, and decoding from no octets at all.
- The logarithm in floating point that the padding of a constant-depth tree uses: the depth is computed exactly.
- Well-balanced roots, page proofs and leaf pages: they split at other midpoints and promise less.
- Transfer, Checkpoint, Write, Bless, Assign, Designate, Query and Yield: easy, or outside the conservation claim.
- Accounts.RunCalls: one caller, whose storage stays within the 32-bit item count and the 64-bit octet count.
- Epochs: a ring verifier that cannot be built refuses every proof, where the original has an error of its own; validators are never nil.
- Disputes: which error is reported among several is not stated.
- ParallelAccumulation: accumulating one service, its gas limit and operands, and the outer sequential loop.
- Assignment.PermuteAssignments: the number of validators is a multiple of the number of cores, as in both configurations of the constants.
- Memory: SetAccess, which changes the access of a whole segment. Sbrk replaces the heap by a new array in the original and is modelled on values.
- Interpreter: what arithmetic instructions compute is a parameter; host calls and the parsing of program blobs are not modelled.
- Interpreter.Instance.Step: the instance holds its memory as a value, which the in-place memory of `Memory` is proved to implement.
- Interpreter.RunsStayOnMarks: the condition on the program is sufficient; a program outside it strays only if it gets there.
- ErasureCoding.Encode: final shards are appended to, chunk by chunk, where the original copies into a preallocated slice at the same place.
- Chain: errors of the store are not modelled.
- Work-report accumulation queues, authorizer pools and assurances: easy, or without a promise that holds.
