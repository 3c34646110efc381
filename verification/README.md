# A verified model of the node

This project models the core of the small Bitcoin node in `src/` and proves what that core promises: what its
codecs, scripts, signatures, header index and ledger mean, operation by operation and over whole runs. Bytes are
integers from 0 to 255, fixed-width integers are subset types with their wrap-around written out, and every hash,
signature and key operation is a parameter. No hash is assumed injective: where a statement rests on collision
resistance it says "or the two computations exhibit a collision".

| files | part of the node |
|---|---|
| `Bytes`, `Numerals` | byte order, numerals, `reverse_bytes`, `bytescmp`, `combine_*`, `segment_uint32` |
| `Codec`, `CodecBuffer` | wire form of lengths, transactions and blocks; the cursor methods that write and read it |
| `SigHash`, `Der` | what a signature commits to; normalising its encoding in place |
| `Script`, `Conditionals`, `Multisig`, `Interpreter`, `Opcodes`, `Spending` | decoding, subscripts, the branch stack, multisignature matching, opcodes, whole standard programs, and their use in validation |
| `Stream` | framing of the byte stream by a buffer fed in segments |
| `Merkle` | the linked list collapsed to the Merkle root |
| `Hashmap`, `IndexTable`, `TableNode` | the chained hash table, the header index kept in it, and the node's runs on it |
| `Target` | compact targets, hash comparison and retargeting |
| `HeaderIndex`, `Download` | the block tree, its tip and main chain; which blocks to fetch |
| `UtxoStore`, `Ledger`, `Validation`, `Conservation`, `Supply` | unspent outputs, block validation and registration, conservation, the subsidy |
| `Acceptance` | what a legal and a valid block are, without the steps that decide it |
| `Chain`, `Node` | runs of the node, and the mutable state that takes the same steps |
| `Progress`, `Admission` | what a validation round and an arrival do to the state, and what every registered block has been through |
| `Commitments` | what a transaction id and a block header commit to |

Code that changes state is a class or a method with loops, proved against a function of the old state; the theorems
are about those functions. `dafny verify dfyconfig.toml` checks everything.

## What is proved

**Supply.** `Chain.SupplyCapOverRuns` covers every run of header arrivals, block arrivals, changes to the block files
and validation rounds cut anywhere by the timer, starting with the validated tip at genesis. The store of unspent
outputs is the replay of the genesis path up to the tip, each block once, and its value is at most the sum of the
subsidies of those heights, never above 2,099,999,997,690,000. The conditions the source leaves unchecked are spelled
out in `Chain.CleanRun` and `Conservation.Clean`: header targets of size 3 or more (positive work), fresh transaction
hashes, no outpoint spent twice in a block, outputs of each transaction that sum below 2^64, and output counts that
fit 32 bits; the store starts without negative values. For accepted blocks, `SourcesRemovedExactly` shows that
distinct spends are exactly what makes validation and registration agree, and `RepeatedSpendAccepted` is the block
that breaks it. While inputs and subsidy of a block are below 2^64, `ConservedExactly` shows that the store grows by
at most the subsidy exactly when each output sum fits: the node compares wrapped sums, so a coinbase of 2, 2^63 - 1
and as much again counts as 0 and is accepted (`OverflowAccepted`, `OverflowingOutputs`). Nothing is asked of the other
amounts, whose wrapping only understates them (`BlockConserves`). A block that arrives persistently is registered
wherever it stands; `SoundExactlyInOrder` shows that the store stays the replay of the path exactly when each such
block is the next one on the path, and `NewArrivalInOrder` reads that off the block's parent.

**Validation.** `Acceptance.LegalExactly` and `ValidExactly` say what the checks of a block amount to: one coinbase,
first; work measured without the lowest byte; the tree over its hashes; every other input naming an output that is
there, with a script that works; checkpoints; and, while the sums fit 64 bits, balanced exact amounts.
`Admission.RunGrows` holds over every run, clean or not, in path order or not: blocks are only added, each valid over
the store the ones before it left, and the store is their replay; so every registered block has work, one coinbase,
its checkpoint, working scripts and met key hashes (`RegisteredAreVetted`, `RegisteredPayToHash`).
`Progress.RoundExactly` says what a validation round does, whatever it meets: it registers, flags and makes the tip
the path blocks above the validated tip for as long as the clock lasts and each is available, loads and is valid over
those before it; a block whose file does not load is marked unavailable; nothing else changes. So n ready blocks are n
registered blocks (`ReadyBlocksValidated`), and a path block that arrives, is saved and stays valid is registered by
the next round (`SavedIsValidated`).

**Headers.** In every reachable index, headers without a known parent included, parents are stored one height lower,
work adds up along ancestors, and the retarget look-back is total and exact. The main chain is the first-child path of
genesis if and only if every header arrived after its parent, because a header without parent keeps status 0, which
means main chain. `is_block_header_valid` accepts everything: it compares a hash of zeros, and its error return of -50
converts to true. The model follows the code.

**Scripts and signatures.** The flat branch-state loop has the ordinary meaning of conditionals exactly for programs
without nested ones (`MeaningKeptExactly`), and on any program nested at most 64 deep when the run skips no
conditional (`StructuredProgramRuns`); the subscript is what follows the last separator exactly when a frame precedes
that separator; greedy multisignature matching is complete; preimages commit to exactly what the hashtype keeps; DER
fixing keeps values and makes them canonical. Errors of the signature check are not 0, and OP_CHECKSIG pushes true for
them, so a pay-to-key-hash input asks for a valid signature exactly when the key has a known prefix, decodes, and
ECDSA_verify does not fail (`GenuineExactly`). `Opcodes` fixes each modelled opcode on any stack, and whole programs: hash
locks, `<key> OP_CHECKSIGVERIFY OP_1`, one-of-one, and OP_RETURN.

**Wire, stream, tree, table, targets.** Round trips hold for exactly the stated inputs; extraction does not depend on
segmentation; the in-place Merkle fold is the tree's root, which commits to the padded leaves; the hash table is a map
for exactly the sets named in `SetMeetsMap`, and the node that keeps its index there, reading and flagging entries
through lookups, takes the same runs (`TableNode.RunRefines`, `ResetRefines`); a header commits to its block's
transactions, once their number is known, up to an exhibited collision (`HeaderCommits`), but not to that number
(`RepeatedTailLegal`); storing a target loses less than one part in 2^15, and a retarget answers the greatest
storable number below the exact quotient for every 32-bit period, also one whose fourfold overflows
(`RetargetExactly`).

## Model

| member | source | states |
|---|---|---|
| `Bytes.Combine64Value` | src/utils/integers.c:26-37 | the eight-byte reader is the little-endian number less 2^32 when byte 3 has its top bit set (sign extension), modulo 2^64 |
| `Bytes.Combine64Inverse` | src/utils/integers.c:26-37 | eight bytes come back as written if and only if bit 31 of the number is clear |
| `Bytes.SegmentUint32` | src/utils/integers.c:5-10 | the first four array elements become the little-endian bytes of the number, the rest stay |
| `Bytes.ReverseBytes` | src/utils/data.c:5-11 | swapping inward from both ends reverses the first `width` bytes and leaves the rest alone |
| `Bytes.ReversedNumeral` | src/utils/data.c:5-11 | a byte string reversed spells, from the other end, the same number |
| `Bytes.Bytescmp` | src/utils/data.c:28-38 | the answer is the order of the two little-endian numbers without their lowest byte: byte 0 is never read |
| `Varint.VarintBytes` | src/messages/shared.c:24-47 | the written form has exactly the width calc_number_varint_width announces (lines 9-22) |
| `Varint.VarintRoundTrip` | src/messages/shared.c:49-72 | parsing a written length, whatever follows, gives it back and stops at its end if and only if it is below 2^32 or has bit 31 clear |
| `Varint.ListRoundTrip` | src/messages/tx.c:133-145 | a list whose items each survive writing and parsing survives as a list, with the same rest |
| `Codec.TxInRoundTrip` | src/messages/tx.c:87-97 | a serialized input followed by anything parses to itself and leaves exactly what followed |
| `Codec.TxOutRoundTrip` | src/messages/tx.c:99-105 | a serialized output followed by anything parses to itself and leaves exactly what followed |
| `Codec.MarkerDetected` | src/messages/tx.c:121-131 | the parser takes the segregated-witness branch exactly for witness transactions and for those whose counts spell 00 01 |
| `Codec.TxRoundTrip` | src/messages/tx.c:121-159 | a well-formed transaction followed by any bytes parses to itself, consuming exactly its width, if and only if it is not one with no input and one output and no witness |
| `Codec.TxPrefixFree` | src/messages/tx.c:55-85 | two serialized transactions with any tails are equal byte strings only if the transactions and the tails are equal |
| `Codec.HeaderRoundTrip` | src/messages/block.c:10-30 | a serialized block header followed by anything parses to itself after 80 bytes |
| `Codec.BlockRoundTrip` | src/messages/block.c:32-66 | a serialized block followed by any bytes parses to itself, consuming exactly its width |
| `Codec.BlockPrefixFree` | src/messages/block.c:53-66 | two serialized blocks with any tails are equal byte strings only if the blocks and the tails are equal |
| `Codec.HeaderLayout` | src/messages/block.c:21-30 | version, previous hash, root, time, target and nonce stand at offsets 0, 4, 36, 68, 72 and 76, numbers little-endian |
| `Codec.VarintLayout` | src/messages/shared.c:24-47 | a length is itself below 253, and otherwise 253, 254 or 255 followed by it in two, four or eight little-endian bytes |
| `Codec.TxInLayout` | src/messages/tx.c:25-35 | an input is hash, index, counted script and sequence, in this order |
| `Codec.TxOutLayout` | src/messages/tx.c:37-43 | an output is its value in eight bytes of two's complement and its counted script |
| `Codec.TxLayout` | src/messages/tx.c:55-85 | version first, the marker 00 01 only with witnesses, counted inputs before counted outputs, lock time in the last four bytes |
| `CodecBuffer.PutVarint` | src/messages/shared.c:24-47 | the cursor writer puts the varint form at the cursor, moves past it and touches nothing else |
| `CodecBuffer.PutTxIn` | src/messages/tx.c:25-35 | the input bytes stand at the cursor, everything before it and after them is unchanged |
| `CodecBuffer.PutTxOut` | src/messages/tx.c:37-43 | the output bytes stand at the cursor, everything before it and after them is unchanged |
| `CodecBuffer.SerializeTx` | src/messages/tx.c:55-85 | the buffer holds the serialized transaction at the cursor, nothing else moves, and the returned cursor is its end |
| `CodecBuffer.PutHeader` | src/messages/block.c:21-30 | the six header fields stand at the cursor in 80 bytes, nothing else moves |
| `CodecBuffer.SerializeBlock` | src/messages/block.c:53-66 | the buffer holds the serialized block from its start, nothing after it moves, and the returned width is its length |
| `CodecBuffer.GetVarint` | src/messages/shared.c:49-72 | the cursor reader agrees with the varint parser on the bytes left, value and new position both |
| `CodecBuffer.GetTxIn` | src/messages/tx.c:87-97 | the cursor reader agrees with the input parser on the bytes left |
| `CodecBuffer.GetTxOut` | src/messages/tx.c:99-105 | the cursor reader agrees with the output parser on the bytes left |
| `CodecBuffer.ParseIntoTx` | src/messages/tx.c:121-159 | the moving cursor and the filled arrays give the transaction and the position the parser specifies |
| `CodecBuffer.GetHeader` | src/messages/block.c:10-19 | the cursor reader agrees with the header parser on the bytes left |
| `CodecBuffer.ParseIntoBlock` | src/messages/block.c:32-43 | the moving cursor and the filled arrays give the block the parser specifies |
| `SigHash.SignatureCommitment` | src/script.c:381-396 | for one input index and outside the out-of-range case, two preimages are equal if and only if hashtypes and subscripts are equal and the transactions agree on what the hashtype keeps (ALL, NONE, SINGLE, each with or without ANYONECANPAY) |
| `SigHash.PreimageReadsBack` | src/script.c:381-396 | the bytes hashed parse as the copy its hashtype asks for, input by input and output by output, followed by the hashtype |
| `SigHash.DigestExactly` | src/script.c:69-86 | the digest is the number one exactly for SINGLE without an output at the index, and otherwise the hash of bytes that parse as the copy and the hashtype |
| `SigHash.DigestCommitment` | src/script.c:69-86 | out of range the digest is one constant; otherwise two digests agree exactly when the commitments agree or the hash collides on the two preimages |
| `SigHash.TxCopy.Clone` | src/messages/tx.c:330-346 | the copy holds the same transaction in fresh arrays |
| `SigHash.TxCopy.Blank` | src/script.c:381-396 | every signature script of the copy is emptied and the subscript put in the signed input, everything else stays |
| `SigHash.TxCopy.KeepSingleOutput` | src/script.c:516-526 | the outputs before the signed one become (-1, empty), the signed one stays, later ones go |
| `SigHash.TxCopy.Polish` | src/script.c:506-538 | the copy changed in place is the polished transaction the commitment is about |
| `SigHash.HashTxWithHashtype` | src/script.c:711-716 | clone, blank, polish, serialize into the buffer, append the hashtype and hash give the specified digest |
| `Script.FrameRoundTrip` | src/script.c:305-344 | a well-formed frame at the front of a script is read back whole, and the cursor moves exactly over it |
| `Script.DecodeEncode` | src/script.c:305-344 | decoding an encoded list of well-formed frames gives the list |
| `Script.EmptyPushEndsDecoding` | src/script.c:325-334 | a push of no bytes, and any PUSHDATA4, ends decoding: one empty frame, and the rest of the script is dropped |
| `Script.DecodeProgram` | src/blockchain.c:184-190 | the program made of signature script, separator and key script decodes to the two scripts split at the join |
| `Script.FindSeparator` | src/script.c:746-754 | the search gives the last separator up to its end, frame 0 never counting, or -1 when there is none |
| `Script.SubscriptRecovery` | src/script.c:756-784 | at a check after the last preceding separator the subscript is exactly the key script after that separator, without separators, if and only if some frame precedes the separator found |
| `Script.WholeScriptSigned` | src/script.c:756-784 | for a key script without separators the subscript is the whole key script if and only if the signature script has a frame |
| `Script.Stack.Push` | src/script.c:122-128 | the frame goes on top and a full stack is doubled without losing a frame |
| `Script.Stack.Pop` | src/script.c:112-120 | the top frame comes off; an empty stack yields the empty frame and stays empty |
| `Script.LoadProgram` | src/script.c:305-344 | the stack grows by exactly the decoded frames |
| `Script.FindOpFrame` | src/script.c:746-754 | the downward loop finds what the search function specifies |
| `Script.FormSubscript` | src/script.c:756-784 | the copying loop builds the specified subscript |
| `Conditionals.FlatRunObeysStructure` | src/script.c:867-896 | for every program tree, running its flattened frames with the branch stack is the structured evaluation that also pops for conditionals in skipped arms |
| `Conditionals.ConditionalsKeepMeaning` | src/script.c:1125-1174 | one run keeps the stacks and the failure of the ordinary big-step evaluation when the arms that run skips hold no conditional |
| `Conditionals.MeaningKeptExactly` | src/script.c:867-896 | running the flattened frames is the ordinary evaluation, for every meaning of the other frames and every machine, if and only if no arm of a conditional holds a conditional |
| `Conditionals.SkippedArmIsInert` | src/script.c:863-896 | a skipped arm leaves every machine unchanged for every meaning of its frames if and only if it holds no conditional |
| `Conditionals.NestedSkipDiffers` | src/script.c:1125-1139 | IF IF ENDIF ENDIF over two false values: the loop pops both, ordinary evaluation pops one |
| `Multisig.GreedyStep` | src/script.c:1045-1066 | taking the next key for the next signature whenever it checks loses no assignment |
| `Multisig.Greedy` | src/script.c:1045-1066 | two-pointer matching is true if and only if a strictly increasing assignment of all remaining signatures to keys exists with every pair valid |
| `Multisig.MatchSignatures` | src/script.c:1045-1066 | the loop with its counters is true if and only if such an assignment exists |
| `Multisig.MatchableReversed` | src/script.c:1014-1031 | matching popped (reversed) keys and signatures is matching them in script order |
| `Multisig.CheckMultisig` | src/script.c:1009-1073 | the opcode pops the counts, keys, signatures and one extra frame and answers whether an assignment exists, zero signatures included |
| `Multisig.MultisigMeaning` | src/script.c:1009-1073 | on a stack in script order it consumes exactly those frames, and its answer is about that order |
| `Interpreter.NextEndif` | src/script.c:809-817 | the search of next_op for ENDIF finds one exactly when one follows |
| `Interpreter.Evaluate` | src/script.c:867-1381 | the frame loop with its array of 64 branch states decides what the frame-by-frame run specifies |
| `Interpreter.DepthFitsExactly` | src/script.c:867-896 | a flattened program fits the 64 branch states if and only if its conditionals nest at most 64 deep |
| `Interpreter.StructuredProgramRuns` | src/script.c:867-1381 | a program nested at most 64 deep, whose run skips no conditional, fits, and evaluate decides what its ordinary evaluation leaves on the stack |
| `Interpreter.FlatProgramRuns` | src/script.c:867-1381 | so does every program without nested conditionals, whatever its run skips |
| `Interpreter.FrameIndexExactly` | src/script.c:1280-1299 | the 32-bit index of OP_PICK and OP_ROLL is inside the stack if and only if the stack is deep enough; it is never negative |
| `Interpreter.PayToHashAccepts` | src/script.c:1383-1390 | a pay-to-key-hash program is accepted if and only if the key hashes to the wanted hash and the verdict over the whole key script is not 0 (an error verdict accepts too) |
| `Interpreter.MultisigAccepts` | src/script.c:1383-1390 | a bare m-of-n program is accepted if and only if its signatures can be given keys in order, each verdict being 1 over the whole key script |
| `Opcodes.CheckSigVerifyDecides` | src/script.c:1271-1279 | OP_CHECKSIGVERIFY goes on without key and signature if the verdict is not 0, and fails otherwise, whatever follows |
| `Opcodes.CheckedAccepts` | src/script.c:1271-1279 | `<key> OP_CHECKSIGVERIFY OP_1` is accepted if and only if the verdict over the whole script is not 0 |
| `Opcodes.LockAccepts` | src/script.c:937-979 | a hash opcode, a hash and OP_EQUAL accept a push if and only if it hashes to that, for each of the five hash opcodes |
| `Opcodes.EqualDecides` | src/script.c:937-946 | OP_EQUAL leaves a true frame exactly for two pushes of the same bytes |
| `Opcodes.VerifyDecides` | src/script.c:1203-1208 | OP_VERIFY goes on without a true top and fails on a false one or none, whatever follows |
| `Opcodes.ReturnRejects` | src/script.c:1175-1178 | OP_RETURN and the reserved codes fail the run, whatever follows |
| `Opcodes.ReturnUnspendable` | src/script.c:1175-1178 | a script that starts with OP_RETURN accepts no pushes |
| `Opcodes.OneOfOneAccepts` | src/script.c:1009-1073 | one signature for one key is accepted by OP_CHECKMULTISIG if and only if the verdict is 1 |
| `Opcodes.Dup2` | src/script.c:905-917 | x y becomes x y x y |
| `Opcodes.Swap` | src/script.c:1217-1223 | x y becomes y x |
| `Opcodes.Tuck` | src/script.c:1308-1315 | x y becomes y x y |
| `Opcodes.Rot` | src/script.c:1316-1324 | x y z becomes y z x |
| `Opcodes.ToAndFromAlt` | src/script.c:1261-1270 | the top frame goes to the other stack and back |
| `Opcodes.ShortStack` | src/script.c:897-946 | with too few frames OP_DUP, OP_2DUP, the comparisons and the signature checks fail, and a hash opcode does nothing |
| `Opcodes.PayToHashBytes` | src/script.c:897-936 | the bytes of a pay-to-key-hash script are 76 a9, the push, 88 ac |
| `Spending.PayToHashInputSigned` | src/blockchain.c:169-203 | an input that pays to a key hash passes validation exactly when its key has the hash and check_signature over the source script does not answer 0 |
| `Spending.GenuineExactly` | src/script.c:691-743 | with the right key hash, acceptance means a signature that ECDSA_verify finds valid if and only if the key has a known prefix and decodes and the verification does not fail |
| `Spending.UnknownPrefixAccepted` | src/script.c:692-698 | a key with the right hash and an unknown prefix is accepted with any signature push |
| `Spending.SignatureNotPortable` | src/script.c:691-743 | a signature valid for an input of two transactions fixes all its hashtype keeps: they agree on it and on the subscript, unless out of range, the double hash collides, or the signature verifies for the two different digests |
| `Der.NormalKeepsValue` | src/script.c:455-471 | the fixed component keeps its unsigned value and is minimal with a clear top bit |
| `Der.NormalCanonical` | src/script.c:455-471 | two components are fixed to the same bytes if and only if they have the same unsigned value |
| `Der.NormalIdempotent` | src/script.c:455-471 | fixing a component twice is fixing it once |
| `Der.NormalStaysShort` | src/script.c:455-471 | the fixed component still fits a signed length byte if and only if it has at most 126 bytes, or 127 with a clear top bit |
| `Der.FixComponent` | src/script.c:455-471 | shifting the bytes in the buffer leaves the fixed component at its front and returns the change of width |
| `Der.FixNormalises` | src/script.c:473-476 | values and kinds stay, both components are minimal, and the length field is right exactly when it was |
| `Der.FixFrameNormalises` | src/script.c:491-503 | parse, fix, serialize keeps the values, makes both components minimal, keeps the length field as right as it was, and is idempotent, whatever follows in the frame |
| `Der.ParseOfSerialize` | src/script.c:433-449 | a serialized signature is parsed back, whatever follows it |
| `Der.FixComponents` | src/script.c:473-476 | the in-place fixes of r and s and the 8-bit length update give the specified signature |
| `Der.FixSignatureFrame` | src/script.c:491-503 | the front of the frame becomes the specified bytes and the rest stays |
| `Stream.NextTurn` | src/communication.c:669-710 | one turn takes a message of at least 24 bytes that with the rest fits the buffer, or waits |
| `Stream.TurnStable` | src/communication.c:669-710 | with more bytes behind, a message taken is the same one, and trimming before waiting loses nothing |
| `Stream.ExtractResumes` | src/communication.c:669-732 | extracting, then extracting the leftover with more bytes, is extracting everything at once |
| `Stream.SegmentationIndependent` | src/communication.c:712-732 | however a stream is cut into segments, the same messages come out in order and the same bytes stay behind as for the whole stream |
| `Stream.WellFormedStream` | src/communication.c:669-710 | a concatenation of well-formed messages yields exactly those messages and nothing is left |
| `Stream.Resynchronises` | src/communication.c:658-667 | bytes before a message in which no magic starts are dropped and the message is found |
| `Stream.ExtractWellFormed` | src/communication.c:669-710 | every extracted message starts with the magic and has the length its header gives |
| `Stream.ExtractAccounts` | src/communication.c:669-710 | messages and leftover together are no longer than the stream |
| `Stream.DeliveryIndependent` | src/communication.c:650-732 | the messages handled after the checksum and parse tests do not depend on the cutting either |
| `Stream.MessageCache.FindFirstMagic` | src/communication.c:658-667 | the scan over the filled buffer returns the first magic with a byte behind it, or -1 |
| `Stream.MessageCache.ExtractMessages` | src/communication.c:669-710 | the buffer is left holding the specified leftover, and the specified messages are handled in order |
| `Stream.MessageCache.OnIncomingSegment` | src/communication.c:712-732 | a segment that fits is appended and extracted; a negative count changes nothing |
| `Merkle.RootIsTree` | src/messages/tx.c:214-258 | collapsing level by level, odd levels padded by their last hash, gives the top of the recursive tree |
| `Merkle.RootCommits` | src/messages/tx.c:214-258 | lists of equal length with equal roots are equal, or computing the two roots exhibits a hash collision |
| `Merkle.RootCommitsToPadded` | src/messages/tx.c:214-258 | lists of any length and one height: equal padded leaves give equal roots, and equal roots give equal padded leaves or exhibit a hash collision |
| `Merkle.RepeatedLeafKeepsRoot` | src/messages/tx.c:234-250 | an odd list of at least three and the same list with its last hash repeated have one root |
| `Merkle.RepeatedSingleLeaf` | src/messages/tx.c:234-250 | a single hash repeated keeps its root if and only if it is its own double hash |
| `Merkle.BuildList` | src/messages/tx.c:214-228 | the linked list has one fresh node for each hash, in order |
| `Merkle.CollapseLevel` | src/messages/tx.c:234-250 | the inner loop pairs the hashes in place and unlinks every second node: the list is then the next level |
| `Merkle.ComputeMerkleRoot` | src/messages/tx.c:214-258 | the nested loops terminate with the root; no transaction gives none |
| `Buckets.SetMeetsMap` | src/hashmap.c:31-73 | a set acts on the bucket as a map update if and only if the key is absent, alone in its bucket, or last with the same value |
| `Buckets.SetRepresents` | src/hashmap.c:31-73 | setting an absent key, or one alone in its bucket, updates the represented map at that key and nowhere else |
| `Buckets.RunRepresents` | src/hashmap.c:31-93 | over any run of such sets every lookup answers as the updated map |
| `Buckets.EmptyRepresents` | src/hashmap.c:10-22 | the table hashmap_init leaves represents the empty map |
| `Buckets.StoredRepresents` | src/blockchain.c:348-352 | a write through a pointer hashmap_get returned is a map update whatever shares the bucket |
| `Buckets.KeysOfMap` | src/hashmap.c:95-110 | the listing names each key of the represented map exactly once and no other |
| `HashTable.Hashmap.Get` | src/hashmap.c:75-93 | chasing the next pointers finds what the bucket lookup specifies |
| `HashTable.Hashmap.Set` | src/hashmap.c:31-73 | the nodes after the call are the specified table: a new node appended, or the bucket replaced by it |
| `HashTable.Hashmap.Store` | src/blockchain.c:348-352 | writing through the found node changes that entry only |
| `HashTable.Hashmap.GetKeys` | src/hashmap.c:95-110 | the nested loops list the keys bucket by bucket |
| `Target.ToBignumValue` | src/blockchain.c:35-43 | from size 3 up a sign-clear compact denotes its mantissa times 256 to the size less 3 |
| `Target.ReadingsAgree` | src/blockchain.c:23-43 | for sign-clear compacts of size 3 to 32 the big number, the exact double and the 32 expanded bytes are one value |
| `Target.StoredIsTruncated` | src/blockchain.c:45-55 | encoding and decoding keeps the first three bytes of the minimal numeral and zeroes the others |
| `Target.StoredBounds` | src/blockchain.c:45-55 | the stored value t of n satisfies t <= n, and n < t(1 + 2^-15) when n is positive |
| `Target.StoredMonotone` | src/blockchain.c:45-55 | a smaller number is stored as no larger a value |
| `Target.StoredIdempotent` | src/blockchain.c:45-55 | storing a stored value changes nothing |
| `Target.StoredIsGreatest` | src/blockchain.c:45-55 | the stored value is the greatest exactly storable number not above the original |
| `Target.CompactRoundTrip` | src/blockchain.c:35-55 | a non-negative compact is decoded and encoded back to itself if and only if it is canonical |
| `Target.Expand` | src/messages/block.c:205-209 | the array holds the three mantissa bytes little-endian at offset size - 3 and zeros elsewhere |
| `Target.HashSatisfiesTarget` | src/messages/block.c:199-203 | the answer compares the two numbers without their lowest byte |
| `Target.SatisfiesExactly` | src/messages/block.c:199-203 | that is the comparison of the whole numbers unless all higher bytes are equal and the lowest byte of the hash is above that of the target |
| `Target.LowestByteIgnored` | src/utils/data.c:28-38 | the hash one passes the target zero |
| `Target.Retarget` | src/blockchain.c:400-433 | the in-place scaling of the big number gives the specified new target for the 32-bit difference of the timestamps |
| `Target.OverLimitExactly` | src/blockchain.c:409-415 | over exact reals the ceiling test compares the old target times the period with the limit times two weeks |
| `Target.ScaledBounds` | src/blockchain.c:421-430 | the scaled number is between a quarter of and four times the old target, and at most the limit when the ceiling is not hit |
| `Target.RetargetBounds` | src/blockchain.c:409-433 | for every 32-bit period the new target is at most the limit, at least the stored quarter of the old one, and at most four times it when the ceiling is not hit |
| `Target.RetargetExactly` | src/blockchain.c:408-433 | for every period p and old target t the answer is genesis' target when t * p / 1209600 is above it, and otherwise the canonical compact of the greatest storable number not above 4t for p above 4838400, t / 4 for p below 302400, and t * p / 1209600 in between |
| `Target.WrappedTestExactly` | src/blockchain.c:425 | the wrapped fourfold passes the second test without the exact one doing so exactly for p from 2^30 on with p modulo 2^30 below 302400, all taken by the first test |
| `Target.StorableIsStored` | src/blockchain.c:35-56 | the numbers some compact stands for are exactly those storing leaves alone |
| `HeaderIndex.Work` | src/blockchain.c:461-467 | work is never negative, and positive if and only if the target has size 3 or more |
| `HeaderIndex.WorkExactly` | src/blockchain.c:461-467 | from size 3 up the work times one more than the target is 2^256 |
| `HeaderIndex.WorkOrder` | src/blockchain.c:461-467 | a smaller target has more work, and only a smaller one |
| `HeaderIndex.ArriveExactly` | src/blockchain.c:279-362 | a header is stored if and only if it is new and less than two hours ahead; then one entry is added above its parent, listed last there, and nothing else changes |
| `HeaderIndex.ArriveKeepsReachable` | src/blockchain.c:279-366 | every arrival, orphans included, keeps the index a forest (parents stored one lower, work added, main chain only through first children, heights below the size) and the tip the greatest main-chain work |
| `HeaderIndex.ParentOf` | src/blockchain.c:301-339 | in every such index an entry above height 0 has its parent stored at the height below and is one of its children; it is main chain exactly as first child of a main-chain parent |
| `HeaderIndex.PowIsAncestorWork` | src/blockchain.c:304-338 | chainPOW is the sum of the work of the block and all its ancestors |
| `HeaderIndex.LookBackExact` | src/blockchain.c:385-399 | the 2015-step walk for a new header never meets a missing index and ends at the block exactly 2016 below |
| `HeaderIndex.MainchainExactly` | src/blockchain.c:305-339 | the main-chain entries are exactly the first-child path of genesis if and only if no other entry is a root |
| `HeaderIndex.MainchainOverRuns` | src/blockchain.c:279-366 | over every run from genesis: the forest holds, work adds up, and the main chain is the genesis path if and only if every accepted header found its parent stored |
| `HeaderIndex.TipEndsPath` | src/blockchain.c:354-359 | with one root the tip has the work of the last path block, the greatest on the main chain, and is that block if and only if the block added work |
| `HeaderIndex.TipOverRuns` | src/blockchain.c:354-359 | over every parent-first run the tip has the work of the last path block, the greatest on the main chain, and is that block if and only if the block added work |
| `HeaderIndex.OrphanFiledAsMainchain` | src/blockchain.c:335-339 | a header without stored parent is filed as main chain off the genesis path |
| `HeaderIndex.BlockIndices.GetMaximalTarget` | src/blockchain.c:368-434 | neither error is ever returned; the target is genesis', the parent's, or, for a sign-clear parent of size 3 to 32, the retarget over exactly one period |
| `HeaderIndex.BlockIndices.IsHeaderValid` | src/blockchain.c:57-67 | every header is accepted, since a hash of zeros is compared |
| `HeaderIndex.BlockIndices.ProcessHeader` | src/blockchain.c:279-366 | index, parent and tip become those of the arrival step, with status -2, 100 or 0; the table is set only at an absent key |
| `IndexTable.HeaderKeepsTable` | src/blockchain.c:286-362 | an accepted header changes the table through the pointer to its parent and by one set, of an absent key, after which the table represents the new index |
| `IndexTable.TableOverRuns` | src/blockchain.c:279-366 | over every run of headers from the empty table, the table represents the index of the run |
| `TableNode.StepRefines` | src/blockchain.c:279-716 | a step of the node on its hash table, each entry read by a lookup and changed through the pointer it returned, does to the index the table holds, the tips, the store and the files what the step of the run does |
| `TableNode.RunRefines` | src/blockchain.c:279-716 | so does every run of header arrivals, block arrivals, validation rounds and file changes |
| `TableNode.RunFromStart` | src/blockchain.c:279-716 | from the table of hashmap_init with any number of buckets and from any tips, every run keeps the table holding the index of the run |
| `TableNode.ResetRefines` | src/blockchain.c:718-737 | resetting the entry of each key hashmap_getkeys lists clears the flags of the whole index |
| `Download.WantedOnPath` | src/globalstate.c:72-92 | the blocks to fetch are exactly the genesis-path blocks neither available nor being requested |
| `Download.WantedOrdered` | src/globalstate.c:72-92 | they are listed by increasing height, hence without repeats |
| `Download.IsBeingRequested` | src/globalstate.c:94-102 | the loop over the peers answers membership |
| `Download.FindMissingBlocks` | src/globalstate.c:72-92 | the do-while walk ends with the first `desiredCount` such blocks in the array and the rest of it unchanged |
| `Download.MaxFullHeight` | src/blockchain.c:439-457 | the result is the height up to which the path is available without a gap, or 2^32 - 1 when genesis is not |
| `Download.FirstMissingFollowsFull` | src/blockchain.c:439-457 | with nothing in flight the first block to fetch is the path block one above that height |
| `UtxoStore.KeyInjective` | src/persistent.c:441-444 | two outpoints have the same key text only if they are equal |
| `UtxoStore.Store.SaveUtxo` | src/persistent.c:446-454 | the store then holds the output under the outpoint and is otherwise unchanged |
| `UtxoStore.Store.LoadUtxo` | src/persistent.c:456-469 | the output last saved comes back, nothing for an absent outpoint |
| `UtxoStore.Store.SpendOutput` | src/persistent.c:472-476 | the outpoint is gone and nothing else changes |
| `Validation.SearchUtxo` | src/blockchain.c:69-102 | the empty outpoint has no source; else the store, then the first earlier transaction with that hash and enough outputs |
| `Validation.SumOutputs` | src/blockchain.c:104-111 | the 64-bit loop sum is the exact sum modulo 2^64 |
| `Validation.SumInputs` | src/blockchain.c:113-138 | the 64-bit loop sum is the exact sum of the sources found, modulo 2^64; coinbases and missing sources add nothing |
| `Validation.ComputeResidue` | src/blockchain.c:139-143 | the 64-bit difference is inputs less outputs modulo 2^64 |
| `Validation.AggregateResidues` | src/blockchain.c:145-152 | the 64-bit loop sum is the exact sum of the residues modulo 2^64 |
| `Validation.IsTxLegal` | src/messages/tx.c:286-320 | true exactly for transactions with inputs and outputs, no negative value and coinbase scripts of 2 to 100 bytes |
| `Validation.IsNormalTxValid` | src/blockchain.c:154-208 | true exactly when every source is found and its script works and, after the first transaction, wrapped inputs cover wrapped outputs |
| `Validation.IsInitialTxValid` | src/blockchain.c:210-222 | moreover wrapped inputs, subsidy and the wrapped fees of all later transactions cover the outputs |
| `Validation.IsBlockLegal` | src/messages/block.c:138-197 | true exactly for blocks with one coinbase, first, legal transactions, a timestamp within two hours, a hash meeting the target and a matching Merkle root |
| `Validation.IsCheckpointCompatible` | src/blockchain.c:241-257 | true exactly when every checkpoint at the height has the hash |
| `Validation.IsBlockValid` | src/blockchain.c:259-276 | true exactly when the block is legal, compatible and every transaction valid |
| `Validation.RegisterValidatedBlock` | src/blockchain.c:469-508 | the store becomes the transaction-by-transaction registration: outputs saved, then sources removed |
| `Acceptance.LegalExactly` | src/messages/block.c:138-197 | legal if and only if there is one coinbase, first, with 2 to 100 bytes of script, every transaction has inputs, outputs and no negative value, the timestamp is less than two hours ahead, the hash is at most the target without the lowest byte, and the tree over the hashes is the root |
| `Acceptance.LegalHasWork` | src/messages/block.c:171-195 | for a sign-clear target the header hash of a legal block, without its lowest byte, is at most the number the target stands for |
| `Acceptance.AcceptedScriptsWork` | src/blockchain.c:154-208 | every input of an accepted block but its coinbase names an output that is stored or made earlier in the block, and its script works on it |
| `Acceptance.AcceptedPaysToHash` | src/blockchain.c:154-208 | in an accepted block every pay-to-key-hash input has a key of the wanted hash and a signature check that is not 0 |
| `Acceptance.ValidExactly` | src/blockchain.c:154-276 | while sums fit 64 bits and hashes are fresh, a legal block is valid if and only if its checkpoints agree, every input works, no transaction but the first pays out more than it takes in, and the first at most its inputs, the subsidy and all fees |
| `Acceptance.RegisteredExactly` | src/blockchain.c:469-508 | after a valid block with fresh hashes the store holds exactly the outputs that were there or are the block's and that no input of it spends |
| `Conservation.RegisteredKeeps` | src/blockchain.c:469-508 | an output that was stored or added by an earlier transaction, and not spent since, is in the store with its value |
| `Conservation.SourcesRemovedExactly` | src/blockchain.c:92-100 | for an accepted block with fresh hashes, every source validation read is the entry registration removes if and only if no outpoint is spent twice |
| `Conservation.RegisteredTotal` | src/blockchain.c:469-508 | registration changes the value of the store by exactly the residues, with the opposite sign |
| `Conservation.NothingWraps` | src/blockchain.c:104-152 | for an accepted clean block, when store, outputs and subsidy are together below 2^64, every 64-bit sum, difference, fee total and reward is the exact number |
| `Conservation.BlockConserves` | src/blockchain.c:210-222 | for every accepted clean block over a store without negative values, sources and removed entries agree and the store grows by at most the subsidy, also where inputs, fees or reward wrap |
| `Conservation.ConservedExactly` | src/blockchain.c:104-111 | while the inputs and the subsidy of an accepted block, fresh and without repeated spends, are below 2^64, the store grows by at most the subsidy if and only if the outputs of every transaction sum below 2^64 |
| `Conservation.RepeatedSpendCountedTwice` | src/blockchain.c:92-100 | an outpoint spent twice by one transaction is counted twice and removed once |
| `Conservation.RepeatedSpendAccepted` | src/blockchain.c:154-222 | a block whose second transaction spends an outpoint twice and pays out both is valid, and grows the store by the subsidy and the value spent twice |
| `Conservation.LoneCoinbaseExactly` | src/blockchain.c:210-222 | an accepted block of one coinbase grows the store by at most the subsidy if and only if its outputs sum below 2^64, whatever the store |
| `Conservation.OverflowAccepted` | src/blockchain.c:210-222 | a coinbase whose outputs sum to 2^64 is accepted, and grows the store by 2^64 |
| `Conservation.OverflowingOutputs` | src/messages/tx.c:286-297 | 2^63 - 1, 2^63 - 1 and 2 are three legal values with that sum |
| `Supply.PaidSumByEras` | src/blockchain.c:217 | the subsidies up to a block are the full eras of 210000 blocks and its part of the current one |
| `Supply.HalvingSumBound` | src/blockchain.c:217 | any number of halvings of v, rounded down, sum to at most 2v less the binary ones of v |
| `Supply.SubsidyCap` | src/blockchain.c:217 | the subsidies of heights 0 to n never exceed 2,099,999,997,690,000, for every n |
| `Supply.SubsidyExactly` | src/blockchain.c:217 | the subsidy is fifty coins divided by two to the number of full eras, rounded down |
| `Supply.CapReached` | src/blockchain.c:217 | from the last block of the 33rd era on the subsidies add up to 2,099,999,997,690,000 exactly |
| `Commitments.IdsShared` | src/messages/tx.c:198-203 | two transactions that read back share a hash if and only if they are one transaction or their serializations collide |
| `Commitments.FreshExactly` | src/messages/tx.c:198-203 | the hashes of a block are fresh if and only if the store has none of them, no transaction is repeated and no two collide |
| `Commitments.HeaderCommitsToIds` | src/messages/block.c:138-197 | legal blocks of one tree height under one header have the same padded transaction hashes, or a collision is exhibited |
| `Commitments.HeaderCommits` | src/messages/block.c:138-197 | legal blocks with equally many transactions under one header are the same block, or a collision is exhibited |
| `Commitments.RepeatedTailLegal` | src/messages/block.c:138-197 | a legal block with an odd number of transactions from three on stays legal with its last one repeated |
| `Chain.ArriveKeepsSound` | src/blockchain.c:279-366 | a header arrival keeps the validated tip on the genesis path and the store the replay up to it |
| `Chain.AcceptKeepsSound` | src/blockchain.c:651-677 | accepting the next path block extends the replay by it and moves the tip to it |
| `Chain.ValidateKeepsSound` | src/blockchain.c:688-716 | so does the validation loop, cut after any number of blocks |
| `Chain.PersistKeepsSound` | src/blockchain.c:532-557 | so does a persistent arrival, when a block it registers is clean and the next path block |
| `Chain.StepKeepsSound` | src/blockchain.c:510-716 | so does every step of the node whose registrations on arrival are in path order |
| `Chain.SoundExactlyInOrder` | src/blockchain.c:510-716 | over a clean run with persistent arrivals the store stays the replay of the path if and only if each block registered on arrival is the next path block |
| `Chain.NewArrivalRegisters` | src/blockchain.c:532-557 | a persistent legal block with a new header is registered if and only if it is valid one above its parent |
| `Chain.NewArrivalInOrder` | src/blockchain.c:316-357 | it is then the next path block if and only if its parent has no child yet and is the path block of the last one registered |
| `Chain.SiblingIsAstray` | src/blockchain.c:316-357 | a valid new block whose parent already has a child is registered off the path, and the validated tip stays |
| `Chain.ResetStartsRun` | src/blockchain.c:718-737 | resetting validation and store brings any reachable index to the start of a run |
| `Chain.SupplyCapOverRuns` | src/blockchain.c:469-716 | over every clean run in path order the store is the replay of the genesis path up to mainValidatedTip, each block registered once, worth at most the subsidies to that height and never above the cap |
| `Progress.RoundExactly` | src/blockchain.c:622-716 | a round registers, flags and moves the tip over exactly the path blocks that are available, load and are valid in turn, until the clock is used up or one is not; a file that does not load marks its block unavailable; nothing else changes |
| `Progress.ReadyBlocksValidated` | src/blockchain.c:651-716 | when the next n path blocks are ready at n clock readings, exactly these are registered, their flags set, and the tip is the path block n higher |
| `Progress.SavedIsValidated` | src/blockchain.c:559-716 | a path block that arrives and is saved, and is valid when a round begins, is registered by it and becomes the tip |
| `Progress.ArrivalExtends` | src/blockchain.c:532-557 | a persistent block with a new header on the validated tip is registered and becomes the tip if it is valid there |
| `Progress.ArrivalExactly` | src/blockchain.c:510-576 | what a legal block does on arrival: flags, registration, tip, store and file, in every state |
| `Progress.ResetExactly` | src/blockchain.c:718-737 | a reset clears every flag but availability, empties the store, keeps headers and files, and goes back to genesis |
| `Admission.RunGrows` | src/blockchain.c:510-716 | over every run blocks are only added, each valid at the height of its header over the store the ones before it left, and the store is their replay |
| `Admission.RegisteredAreVetted` | src/blockchain.c:510-716 | every block registered in a run has one coinbase, work, the checkpoint of its height, and scripts that work on outputs that were there |
| `Admission.RegisteredPayToHash` | src/blockchain.c:510-716 | and a key of the wanted hash with a check that is not 0 for each pay-to-key-hash input |
| `Node.Global.PersistBlock` | src/blockchain.c:532-557 | validated flag, tip, store and registered flag become those of the persistent step |
| `Node.Global.ProcessIncomingBlock` | src/blockchain.c:510-576 | a block arrival, persistent or not, takes the state through the arrival step, with status -1, -5 or 0 |
| `Node.Global.LoadBlock` | src/persistent.c:290-333 | status 0 exactly when the file gives a legal block of the wanted hash; otherwise a present file marks the block unavailable |
| `Node.Global.ValidateBlock` | src/blockchain.c:622-684 | code, state and next hash are those of the validation step: -1, -10, 0, 1 or 2 |
| `Node.Global.ValidateBlocks` | src/blockchain.c:688-716 | the loop takes the state through the validation steps until one does not continue or the timer cuts |
| `Node.Global.ResetUtxo` | src/blockchain.c:718-737 | flags, tip and store become those of a reset |

## Left out

- Reads and writes outside a buffer: a parser that runs past its input answers `Overrun`, decoding a program cut short reads zeros, and the capacities of fixed arrays (scripts, stack frames, 16 children, 64 branches) are preconditions or absent.
- Interpreter.Evaluate: its runtime stacks are sequences; the growing array is proved by itself in `Script.Stack`.
- Numeric and remaining opcodes (arithmetic, OP_ROLL, OP_PICK, OP_NOT, OP_MIN, OP_WITHIN, OP_SIZE and the like): one abstract function of the machine. The `return -1` of OP_ROLL is never reached, because its index is computed in 32 bits without sign (`Interpreter.FrameIndexExactly`); with too few frames OP_ROLL and OP_PICK read far outside the stack.
- OP_CHECKMULTISIG with more than 127 keys or signatures, whose signed 8-bit counters overflow; `Interpreter.CheckMulti` fails there.
- Spending.CheckSignature: for an empty signature frame the source takes the hashtype at index `dataWidth - 1`, which is 2^32 - 1 in unsigned 32 bits and far outside its array; the model answers 0.
- DER component lengths above 127, which a signed byte turns negative, and 127 with the top bit set, whose fixed form no longer fits.
- Floating point: work, chain work and the ceiling test use exact reals; rounding, overflow of targets wider than 128 bytes, and the not-a-number of a zero mantissa below size 3 are not modelled.
- HeaderIndex.BlockIndices.GetMaximalTarget: leaves open the retarget of a parent whose target has a sign bit or a size outside 3 to 32.
- Compacts of size below 3 or above 32 in `target_4to32`, which write outside the 32 bytes; `Validation.HashMeetsTarget` answers false.
- A block height from 64 * 210000 on, where the shift of the subsidy is undefined; the methods require less, the functions halve on.
- A block without transactions, or whose first transaction has no input, makes `is_block_legal` read absent entries; `Validation.BlockLegal` answers false.
- `MODE_VALIDATE_ONE` and `scan_block_indices`: a lookup that bypasses the store, and a batch of persistent arrivals. Persistent processing of genesis itself comes before the runs, which start with the validated tip there.
- Reorganisation and adoption of orphans, which the source does not implement, and the list `add_orphan` writes, which nothing reads.
- 32-bit wrap-around of heights: a height is below the number of entries, so it needs more than 2^32 headers.
- Ledger.Rules: hashing a transaction and running a program are parameters of the ledger; `Commitments.HashesBytes` says what the first is, `Spending.RulesOf` supplies the interpreter for the second.
- HeaderIndex.BlockIndices.ProcessHeader: its index is a map field; `TableNode.RunRefines` shows that the hash table represents that map over every run.
- File corruption is any change of the block files between steps (`Chain.FilesChange`); LevelDB failures, file formats and transaction locations are left out.
- Node.Global.ValidateBlocks: the clock is a list of readings, one for each block the timer admits; the average-time estimate that decides how many is not modelled.
- Overlapping `memcpy` in the stream buffer and the DER shift is taken as `memmove`.
- Sockets, timers, peers, handshakes, addresses, the smaller messages (ping, addr, inv, reject, version), options, printing, mining and memory auditing.
