# RelayNode: a verified model of its core

RelayNode relays Bitcoin blocks with low latency. Both ends of a link keep an ordered cache of the
transactions already sent; a block then travels as 16-bit cache indices, with the bytes of only those
transactions that are not cached. Everything rests on one fact: after the messages in flight, the two
caches are the same sequence. Several fast paths hide that picture: an index with a sliding offset and
lazy removal, a receiver that re-sorts the sender's removals and rewrites their indices, byte streams cut
at arbitrary points, hashing as the bytes come in. This project states the simple picture, models the
fast paths as the code has them, and proves that they agree.

## Layout

| file | models |
|---|---|
| `Basics.dfy`, `Varint.dfy` | bytes, big-endian fields, variable-length integers |
| `TxCache.dfy` | the simple picture of a cache: a list of distinct entries evicted from the front |
| `FlaggedArraySet.dfy` | the cache as it is: hash table, position vector, offset, pending removals |
| `TweakSort.dfy` | the in-place merge sort that rewrites removal indices |
| `Merkle.dfy` | the in-place strided Merkle reduction |
| `BlockFormat.dfy` | the walk over a block and the relay encoding of its transactions |
| `Transactions.dfy` | transactions by their parts, and that the walk steps over exactly their bytes |
| `Compression.dfy` | what compressing and decompressing compute, and that one undoes the other |
| `TxRelay.dfy` | loose transactions and the cache rules of both flag modes |
| `Compressor.dfy` | `RelayNodeCompressor`, method by method, over the cache as it is |
| `RelayRuns.dfy` | whole runs: a sender, links that join, receive and leave, a byte stream on each |
| `SendQueues.dfy`, `InboundQueue.dfy` | the outbound and inbound queues of a connection |
| `WakeUp.dfy`, `Teardown.dfy` | the wake-up pipe and the disconnect handshake as step systems |
| `Sha256.dfy` | streaming SHA-256 and the double hashes |
| `Mempool.dfy` | dependency graph and heap selection |
| `Deduper.dfy` | the background pass that shares equal transactions between caches |
| `Witnesses.dfy` | a concrete input for every promise that holds only under a condition |

An operation that changes state is a method proved against a function of the old state; the theorems are
about those functions, so they hold of the methods.

## What holds only under a condition

Five promises one might read into the code are false as they stand. Each has a concrete input in
`Witnesses.dfy` and the exact condition under which it does hold.

* *A refused compression leaves the link in step.* Transactions are removed from the cache as they are
  met (c++/relayprocess.cpp:164), and the block can still be refused afterwards
  (c++/relayprocess.cpp:191-195). The link stays in step if and only if the refusal came before the
  transaction loop or the loop met no cached transaction (`RefusalKeepsSync`). In a three-state run, a
  client joins, a 60-byte transaction is relayed and a truncated block is refused; the link is lost
  (`RefusalCanLoseSync`).
* *The block delivered is the block given.* The count is written anew and bytes behind the last transaction
  are dropped, so with a receiver that takes the block this holds if and only if the count was spelled as
  short as possible and nothing followed (`DeliveredIsGiven`; `LongCountIsRespelled`,
  `TrailingByteIsDropped`). And the sender spells out transactions of any size while the receiver takes
  at most 1000000 bytes: below 2^24 bytes, where the length field does not wrap, a link is in step after
  a sent block if and only if every uncached transaction is within that limit and the block passes the
  receiver's checks, if it makes any (`SentBlockKeepsSync`; `BigTxIsRefused`).
* *A number encoded by `varint` is read back.* The four-byte case passes through a signed `int`, so this
  holds if and only if the number is below 2^31 (`Varint.RoundTrip`; `SignIsExtended`).
* *A checking receiver answers every block message.* A message with a count of 0 leaves the list of Merkle
  leaves empty, and c++/relayprocess.cpp:101 reads its first element. The outcome is undefined if and only
  if the receiver checks, the count is 0 and the header that follows is complete, of version 4 or more and
  has the work (`EmptyBlockUndefined`; `EmptyBlockIsUndefined`).
* *A disconnecting thread gets the net thread's attention.* Setting `DISCONNECT_READS_DONE`
  (c++/connection.cpp:288) writes no pipe byte. With no wake-up under way, the sleeping net thread attends
  to the connection (watches its socket, or will time out for a throttled write) if and only if the
  inbound total was below 65536 or outbound data was waiting (`ReadsDoneIsSeen`); `ReadsDoneCanGoUnseen`
  is a reachable state in which it does not.

## Model

| member | source | states |
|---|---|---|
| `Varint.RoundTrip` | c++/utils.cpp:32-77 | reading an encoded number gives it back, and the position behind it, exactly for numbers below 2^31; above, the sign-extended value |
| `Varint.ReadVarintMoves` | c++/utils.cpp:32-54 | a read depends only on the bytes it covers: the same bytes read the same anywhere in any buffer |
| `Varint.EncodeIsShortest` | c++/utils.cpp:56-77 | no accepted spelling of a count up to 100000 is shorter than the canonical one |
| `Varint.ReadsLong` | c++/utils.cpp:35-53 | each of the three markers is read with its own width, whatever the number: eight bytes whole, four sign-extended, two whole |
| `TxCache.EvictIsLongestSuffix` | c++/flaggedarrayset.cpp:305-306 | eviction keeps a suffix, it meets both limits, and every longer suffix violates one |
| `TxCache.InsertKeeps` | c++/flaggedarrayset.cpp:290-309 | adding keeps the entries distinct and within both limits |
| `TxCache.InsertPresent` | c++/flaggedarrayset.cpp:296-298 | adding an element that is present changes nothing |
| `TxCache.InsertNew` | c++/flaggedarrayset.cpp:300-306 | a new element ends up last, behind as many of the last old entries as fit, and one more would not fit |
| `TxCache.ReplayFrom` | c++/flaggedarrayset.cpp:364-371 | adding a cache's entries in order into any prefix of it rebuilds it exactly, nothing evicted |
| `FlaggedArraySets.FlaggedArraySet.constructor` | c++/flaggedarrayset.h:51 | starts as the empty list, invariant established |
| `FlaggedArraySets.FlaggedArraySet.Clear` | c++/flaggedarrayset.cpp:354-362 | becomes the empty list whatever it held |
| `FlaggedArraySets.FlaggedArraySet.Renumber` | c++/flaggedarrayset.cpp:248-254 | exactly the stored numbers of the given positions move by the given amount |
| `FlaggedArraySets.FlaggedArraySet.RenumberAround` | c++/flaggedarrayset.cpp:246-254 | whichever side is renumbered, table, vector and offset then describe the list without the element |
| `FlaggedArraySets.Drop` | c++/flaggedarrayset.cpp:248-256 | both renumbering directions give the same list: each stored value is position plus offset again |
| `FlaggedArraySets.FlaggedArraySet.RemoveStored` | c++/flaggedarrayset.cpp:241-257 | the stored list loses exactly that position and the flag total follows |
| `FlaggedArraySets.LogicalPosition` | c++/flaggedarrayset.cpp:331-339 | with ascending pending removals, logical element x from the last one on is stored as many places further on as removals are pending |
| `FlaggedArraySets.PendingFlagSum` | c++/flaggedarrayset.cpp:228-233 | the flags still held plus the flags pending are the flags stored |
| `FlaggedArraySets.PushPending` | c++/flaggedarrayset.cpp:341-344 | recording a removal keeps the pending list ascending and has the effect of removing at once |
| `FlaggedArraySets.FlaggedArraySet.CleanupLateRemove` | c++/flaggedarrayset.cpp:259-271 | carrying out the pending removals changes nothing logically; afterwards stored and logical list coincide |
| `FlaggedArraySets.FlaggedArraySet.Views` | c++/flaggedarrayset.h:54-55 | size and flag count, read off the fields, are those of the logical list with removals pending |
| `FlaggedArraySets.FlaggedArraySet.Contains` | c++/flaggedarrayset.cpp:273-277 | answers membership in the logical list and leaves it unchanged |
| `FlaggedArraySets.FlaggedArraySet.ContainsHash` | c++/flaggedarrayset.cpp:279-288 | true exactly when some element of the logical list has that hash |
| `FlaggedArraySets.FlaggedArraySet.Add` | c++/flaggedarrayset.cpp:290-309 | the logical list becomes the simple cache's insertion: unchanged if present, else appended and evicted |
| `FlaggedArraySets.FlaggedArraySet.RemoveValue` | c++/flaggedarrayset.cpp:311-324 | returns the element's position in the logical list, -1 if absent, and removes that position |
| `FlaggedArraySets.FlaggedArraySet.RemoveIndex` | c++/flaggedarrayset.cpp:326-352 | lazy removal equals eager removal in result and list, fails exactly past the end, and the branch at lines 345-348 is unreachable |
| `FlaggedArraySets.FlaggedArraySet.ForAll` | c++/flaggedarrayset.cpp:364-371 | the callback sees the logical list in order |
| `TweakSort.SwapHead` | c++/relayprocess.cpp:224-226 | two removals commute when the later, lower one goes first and the other index drops by one |
| `TweakSort.MergeAscending` | c++/relayprocess.cpp:221-229 | merging ascending runs gives an ascending run, all elements placed |
| `TweakSort.MergeSameEffect` | c++/relayprocess.cpp:221-229 | a merge removes the same elements for the same positions and leaves the same list as its two runs one after the other, on every list |
| `TweakSort.TweakAscending` | c++/relayprocess.cpp:214-230 | the result is ascending and as long as the input |
| `TweakSort.TweakPositions` | c++/relayprocess.cpp:214-230 | every block position occurs as often as before |
| `TweakSort.TweakSameEffect` | c++/relayprocess.cpp:214-230 | on every list the result succeeds exactly when the input does, leaves the same list and hands each position the same element |
| `TweakSort.RemoveConserves` | c++/relayprocess.cpp:305-311 | what is left and what was handed out are together the list, for every sequence of indices |
| `TweakSort.Merge` | c++/relayprocess.cpp:221-229 | the in-place loop computes the recursive merge; indices never go below 0 and no unread right element is overwritten |
| `TweakSort.Sort` | c++/relayprocess.cpp:214-230 | the array range ends as the specified result, the rest of the array untouched |
| `Merkle.SameParents` | c++/relayprocess.cpp:91-97 | rows without twin tails and with equal parents are equal unless the pair hash collides at some place of the two rows |
| `Merkle.AcceptedLeavesAreUnique` | c++/relayprocess.cpp:87-102 | two accepted leaf lists of one height and one root are the same list exactly when their trees show no collision of the pair hash |
| `Merkle.DoubledTailRefused` | c++/relayprocess.cpp:91-92 | doubling the last leaf of an odd list keeps root and height, and is refused for every root |
| `Merkle.RootIsTree` | c++/relayprocess.cpp:87-102 | reducing row by row gives the root defined from the top down: left half hashed before right half, a half without leaves a copy of the other |
| `Merkle.MerkleTreeBuilder.constructor` | c++/relayprocess.cpp:85 | one slot per transaction |
| `Merkle.MerkleTreeBuilder.ReduceRow` | c++/relayprocess.cpp:94-97 | a row stored with a stride becomes its parents with twice the stride, all accesses in bounds |
| `Merkle.MerkleTreeBuilder.RootMatches` | c++/relayprocess.cpp:87-102 | for at least one leaf, true exactly when no row over one node ends in twins and the recursive root is the one asked for; without leaves a read outside the list |
| `BlockFormat.TxEndMoves` | c++/relayprocess.cpp:148-162 | a transaction ends at the same place wherever it stands in a block |
| `Transactions.SerEnds` | c++/relayprocess.cpp:148-162 | for every transaction, built of any inputs and outputs with any scripts, the walk ends right behind its serialisation, whatever stands around it |
| `Transactions.WrappedLength` | c++/relayprocess.cpp:153 | an input whose script length plus 4 wraps around 64 bits is walked on from right behind the length |
| `BlockFormat.ParsedBytes` | c++/relayprocess.cpp:145-164 | the transactions found are, concatenated, the bytes walked |
| `BlockFormat.ItemRoundTrip` | c++/relayprocess.cpp:175-188 | one encoded item is read back, and no index of a legal cache is taken for the escape |
| `BlockFormat.ItemsRoundTrip` | c++/relayprocess.cpp:268-299 | so is a whole list, leaving the bytes behind it |
| `BlockFormat.ReadItemsPrefix` | c++/relayprocess.cpp:268-299 | bytes that arrive behind complete items change nothing about them |
| `BlockFormat.ItemsCarried` | c++/relayprocess.h:38-42 | with at most 65000 cached entries every index the sender emits stays below the escape |
| `BlockFormat.ReadsBackIffFits` | c++/relayprocess.cpp:283-292 | the receiver reads back the sender's items exactly when every uncached transaction is at most 1000000 bytes, else refuses with that reason |
| `BlockFormat.OpsInBlockOrder` | c++/relayprocess.cpp:164-188 | removing by the emitted indices in block order is the sender's removal by value |
| `BlockFormat.FillInBlockOrder` | c++/relayprocess.cpp:305-311 | filling the gaps in block order gives the block's transactions |
| `BlockFormat.FillAnyOrder` | c++/relayprocess.cpp:305-311 | filling them in any order gives the same |
| `BlockFormat.ReceiverRebuilds` | c++/relayprocess.cpp:301-311 | the receiver's sorted removals never fail, rebuild the transactions in block order and leave the sender's cache |
| `BlockFormat.DeliveredFrom` | c++/relayprocess.cpp:268-311 | for any items, honest or not, a transaction spelled out is delivered as spelled and one referred to is an element of the receiver's cache |
| `Compression.SentWalk` | c++/relayprocess.cpp:105-201 | a sent block passed every check, has 1 to 100000 transactions, and when checked and honestly hashed satisfies a checking receiver |
| `Compression.FrameRoundTrip` | c++/relayprocess.cpp:232-320 | with equal caches the receiver delivers header, canonical count and transactions byte for byte, ends with the sender's cache, reads exactly the frame, and its work and Merkle verdicts are those on the original transactions |
| `Compression.OversizeFrameRefused` | c++/relayprocess.cpp:287-288 | with an uncached transaction over 1000000 and under 2^24 bytes the receiver refuses and keeps its cache |
| `Compression.WireBytesAreFrameBytes` | c++/relayprocess.cpp:239-298 | the byte count reported is the frame's length without the block header |
| `Compression.WalkedPayload` | c++/relayprocess.cpp:133-164 | a walked block is header, count bytes, transactions and trailing bytes |
| `Compression.DeliveredIsGiven` | c++/relayprocess.cpp:260-314 | the payload delivered equals the payload given exactly for canonical counts without trailing bytes |
| `Compression.GivenRoundTrip` | c++/relayprocess.cpp:105-320 | with equal caches, decompressing what was sent for a well-formed block delivers the very bytes given, counts the frame's bytes and leaves the sender's cache |
| `Compression.PayloadRoundTrip` | c++/relayprocess.cpp:105-320 | every payload of a header of version 4 or more, canonical count and list of transactions by their parts, with a new hash and passing the checks on either side, is sent and delivered byte for byte, both caches ending equal |
| `Compression.WalkedRoundTrip` | c++/relayprocess.cpp:105-320 | likewise for any byte strings the walk takes for transactions, canonical or not |
| `Compression.SentExactly` | c++/relayprocess.cpp:109-195 | a block is sent exactly when its hash is new, its bytes 24 to 28 are a signed version of 4 or more, its count is 1 to 100000, its transactions are complete and, if checked, hash bytes 25 to 31 are zero and its leaves have the root at bytes 60 to 92 |
| `Compression.RefusedBecause` | c++/relayprocess.cpp:109-195 | otherwise the reason is the first that applies, in the order of the code; a hash seen before is always refused |
| `Compression.RootField` | c++/relayprocess.cpp:129-131 | the root compared is the field behind the version and the previous block's hash |
| `Compression.DeliveredSound` | c++/relayprocess.cpp:232-320 | whatever message was delivered passed every test in terms of its bytes, each transaction has at most 1000000 bytes or was cached, and the cache lost exactly the entries referred to |
| `Compression.WireHeader` | c++/utils.h:59-63 | a frame starts with the bytes f2 be ef 42, the type and the length, each in network order |
| `Compression.EmptyBlockUndefined` | c++/relayprocess.cpp:316 | decompressing has no defined outcome exactly when the receiver checks, the count is 0 and a complete header of version 4 with the work follows |
| `Compression.BuiltBlock` | c++/relayprocess.cpp:119-164 | every header, canonical count and list of transactions is walked back into just those and is a well-formed block |
| `Compression.RefusalKeepsCache` | c++/relayprocess.cpp:164-195 | a refusal leaves the cache alone exactly when it came early or met no cached transaction |
| `TxRelay.SendTxSound` | c++/relayprocess.cpp:7-28 | relaying keeps the cache rules of both flag modes, and what is sent passes the receiver's test |
| `TxRelay.SoundMeans` | c++/relayprocess.h:38-42 | those rules mean: in old mode at most 5025 transactions, 25 of them over 10000 bytes, none over 200000; in new mode at most 65000, 5000000 bytes in all, none over 100000 |
| `TxRelay.SentWhen` | c++/relayprocess.cpp:7-28 | a transaction is sent exactly when it is not cached and its size allows it, in old mode together with the number of cached ones over 10000 bytes |
| `TxRelay.SentThen` | c++/relayprocess.cpp:16-24 | it is then the last of the cache, behind as many of the last entries as the mode's limits allow; one more would be too much |
| `TxRelay.ReceivedWhen` | c++/relayprocess.cpp:37-40 | a receiver lets a transaction join on the same terms |
| `TxRelay.AdmitSound` | c++/relayprocess.cpp:53-59 | admitting whatever passes the test keeps the rules |
| `TxRelay.RemoveSound` | c++/relayprocess.cpp:305-311 | so does removing by whatever indices |
| `TxRelay.WithoutAllSound` | c++/relayprocess.cpp:164 | taking a block's transactions out keeps them too |
| `TxRelay.ReplayAccepted` | c++/relayprocess.cpp:37-40 | while a legal cache is replayed, every transaction passes the receiver's test, in both modes |
| `Compressors.WalkInputs` | c++/relayprocess.cpp:150-154 | the loop over inputs finds the specified end or fails |
| `Compressors.WalkOutputs` | c++/relayprocess.cpp:156-160 | likewise for outputs |
| `Compressors.WalkTx` | c++/relayprocess.cpp:148-162 | one transaction is walked to its specified end |
| `Compressors.ReadOne` | c++/relayprocess.cpp:269-298 | reads one item off the connection, or the code's reason for refusing |
| `BlockFormat.SortedOps` | c++/relayprocess.cpp:301-311 | the assertion on sorted indices holds, every position is inside the block, and positions without a removal were spelled out |
| `Compressors.RelayNodeCompressor.constructor` | c++/relayprocess.h:38-42 | empty caches with the limits of the flag mode |
| `Compressors.RelayNodeCompressor.GetRelayTransaction` | c++/relayprocess.cpp:7-28 | message and new cache are those of the specification |
| `Compressors.RelayNodeCompressor.RecvTx` | c++/relayprocess.cpp:53-59 | a transaction that passed the size test is admitted as the sender admitted it |
| `Compressors.RelayNodeCompressor.ForEachSentTx` | c++/relayprocess.cpp:61-64 | yields the sent transactions in cache order |
| `Compressors.RelayNodeCompressor.Reset` | c++/relayprocess.cpp:30-35 | both caches are empty |
| `Compressors.RelayNodeCompressor.CompressTx` | c++/relayprocess.cpp:164-188 | a transaction leaves the cache and its code joins the frame |
| `Compressors.RelayNodeCompressor.CompressTxs` | c++/relayprocess.cpp:145-189 | the loop's frame, cache and Merkle leaves, also when it fails midway |
| `Compressors.RelayNodeCompressor.MaybeCompressBlock` | c++/relayprocess.cpp:105-201 | outcome, reason, new cache and seen set are those of the specification on every input |
| `Compressors.RelayNodeCompressor.ReadAllItems` | c++/relayprocess.cpp:265-299 | removals, spelled-out data, leaves and byte count of the items read, or the first failure |
| `Compressors.RelayNodeCompressor.FetchReferenced` | c++/relayprocess.cpp:305-311 | lazy removals in sorted order fill every gap and every Merkle leaf, or stop at the first index out of range |
| `Compressors.RelayNodeCompressor.Assemble` | c++/relayprocess.cpp:313-314 | the transactions follow the front in block order |
| `Compressors.RelayNodeCompressor.CollectTxs` | c++/relayprocess.cpp:265-311 | reading, sorting and fetching together compute the specified transactions and cache |
| `Compressors.RelayNodeCompressor.DecompressRelayBlock` | c++/relayprocess.cpp:232-320 | on every message, error, payload, hash, byte count, new cache, seen set and unread bytes are those of the specification; the undefined outcome is reported as such |
| `RelayRuns.ReceivePrefix` | c++/client.cpp:75-140 | a message received from some bytes is received alike when more bytes follow |
| `RelayRuns.DrainAppend` | c++/client.cpp:75-140 | receiving two byte strings in a row is receiving their concatenation |
| `RelayRuns.TxArrives` | c++/client.cpp:126-140 | a transaction message is accepted and does to the receiver's cache what sending did to the sender's |
| `RelayRuns.BlockArrives` | c++/client.cpp:114-125 | so does a block message with its end marker |
| `RelayRuns.ReplayArrives` | c++/server.cpp:249-254 | the replay to a joining client is accepted in full and rebuilds the sender's cache |
| `RelayRuns.ReplayOfElems` | c++/server.cpp:249-254 | the replay is one transaction frame for each transaction the sending cache lists, in that order |
| `RelayRuns.TookKnown` | c++/client.cpp:77-130 | a message that is taken has the magic number, a length of at most 1000000 and type 1, 2 or 3, and hands on a block, a transaction or nothing accordingly |
| `RelayRuns.ReceiveSound` | c++/client.cpp:114-140 | whatever bytes arrive, a receiver's cache keeps the rules of its mode |
| `RelayRuns.CachesStayWithinLimits` | c++/relayprocess.h:38-42 | in every state of every run the sender's cache and every receiver's are within the limits of their mode, counted in transactions and bytes |
| `RelayRuns.RelayTxKeeps` | c++/server.cpp:410-419 | broadcasting a transaction keeps every link in step |
| `RelayRuns.RelayBlockKeeps` | c++/server.cpp:337-356 | broadcasting a block does |
| `RelayRuns.DeliverKeeps` | c++/client.cpp:75-140 | receiving one message on one link does |
| `RelayRuns.JoinKeeps` | c++/server.cpp:127-131 | a client joining does |
| `RelayRuns.NextKeeps` | c++/server.cpp:337-420 | so does every step of the system |
| `RelayRuns.RunsStayInSync` | c++/relayprocess.cpp:7-320 | in every state of every run, receiving what is in flight brings each receiver to the sender's cache as a sequence, and completes what it was sent |
| `RelayRuns.LinkGuarantee` | c++/relayprocess.cpp:7-320 | hence what a receiver handed on is a prefix of what it was sent, no message in flight is ever refused, and an idle link has equal caches |
| `RelayRuns.RefusalKeepsSync` | c++/relayprocess.cpp:164-195 | a refused compression leaves a link in step exactly when it came early or met no cached transaction |
| `RelayRuns.BlockArrivesAsGiven` | c++/relayprocess.cpp:105-320 | in every run, at the place a well-formed block was sent at, a link that has not left hands on the block exactly as given, and has done so once nothing is in flight |
| `RelayRuns.SentBlockKeepsSync` | c++/relayprocess.cpp:283-317 | after a sent block with no transaction of 2^24 bytes or more, a link is in step exactly when every uncached transaction is at most 1000000 bytes and a checking receiver finds the block acceptable |
| `Witnesses.RefusalCanLoseSync` | c++/relayprocess.cpp:164-195 | a run that caches a transaction on a link in step, and a truncated block that is refused, sends nothing, empties the sender's cache and takes the link out of step, in both flag modes |
| `Witnesses.TrailingByteIsDropped` | c++/relayprocess.cpp:145-189 | a block with one trailing byte is sent, and what is delivered differs from what was given |
| `Witnesses.LongCountIsRespelled` | c++/relayprocess.cpp:260-261 | likewise a block whose count of one takes three bytes |
| `Witnesses.BigTxIsRefused` | c++/relayprocess.cpp:287-288 | a block with one walkable transaction of 1000064 bytes is sent and refused with the same cache |
| `Witnesses.SignIsExtended` | c++/utils.cpp:42 | 2^31 is read back as 2^64 - 2^31 |
| `Witnesses.EmptyBlockIsUndefined` | c++/relayprocess.cpp:101 | a block message of length 0 with a header that has the work takes a checking receiver to the undefined outcome |
| `SendQueues.WriteAssertions` | c++/connection.cpp:124-143 | whenever the net thread writes, the assertions at lines 126, 141 and 143 hold |
| `SendQueues.MoreBegun` | c++/connection.cpp:128-156 | a partial write extends the message begun; a finishing one completes exactly that message |
| `SendQueues.SendKeeps` | c++/connection.cpp:202-254 | queueing on either queue keeps the invariant |
| `SendQueues.WriteKeeps` | c++/connection.cpp:118-165 | so does every partial write |
| `SendQueues.RunsKeepMessagesWhole` | c++/connection.cpp:118-254 | in every interleaving the wire carries whole messages plus a part of one, each queue in order; the positions are never both non-zero and the total is the sum of the queued sizes |
| `SendQueues.PrimaryFirst` | c++/connection.cpp:124 | in every run, a write between two messages takes the next message of the primary queue, and one of the secondary queue only when all queued on the primary one is on the wire |
| `SendQueues.PrimaryWaitsForOne` | c++/connection.cpp:124-157 | from when a primary message is queued until it is on the wire, at most one secondary message is finished, and only if one was half written |
| `SendQueues.QueuedUnlessFull` | c++/connection.cpp:210-220 | in every run, a message is queued exactly when the sizes waiting, less the allowance during the throttle, do not exceed the buffer |
| `SendQueues.ThrottleEnds` | c++/connection.cpp:158-162 | a write ends the throttle exactly when it empties both queues and the send mutex is free |
| `SendQueues.BufferBound` | c++/connection.cpp:210-220 | in every state of every run with messages of at most m bytes, at most the buffer, m and the bytes sent with the send mutex wait; without a throttle, at most the buffer and m |
| `SendQueues.Connection.constructor` | c++/connection.h:61-62 | nothing queued, no position set |
| `SendQueues.Connection.DoSendBytes` | c++/connection.cpp:202-228 | the primary queue's step; a pipe byte exactly when nothing waited before |
| `SendQueues.Connection.MaybeSendBytes` | c++/connection.cpp:237-254 | the secondary queue's step; likewise |
| `SendQueues.Connection.WriteSome` | c++/connection.cpp:118-162 | the write step for whatever send returned; nothing changes on failure |
| `InboundQueue.RestStep` | c++/connection.cpp:356-372 | reading part of the front chunk takes exactly those bytes off what is left |
| `InboundQueue.ReadSide.Arrive` | c++/connection.cpp:112-114 | a chunk goes behind what is left to read and the inbound total follows |
| `InboundQueue.ReadSide.TakeFront` | c++/connection.cpp:353-373 | at least one byte, in order; a pipe byte exactly when a chunk was finished with 65536 or more inbound |
| `InboundQueue.ReadSide.ReadAll` | c++/connection.cpp:336-377 | for every timing of arrivals: what was read, then what is left, is the stream; success means all bytes asked for; the end is reported only after everything was read |
| `WakeUp.SendMatches` | c++/connection.cpp:219-224 | the wake-up model's counter moves as the outbound queues do on a send, and the pipe byte follows exactly when nothing waited |
| `WakeUp.WriteMatches` | c++/connection.cpp:133-156 | and on every write |
| `WakeUp.TakeMatches` | c++/connection.cpp:358-367 | and the inbound total as the chunk queue does when a chunk is finished |
| `WakeUp.StepKeeps` | c++/connection.cpp:61-182 | every step of senders, readers, net thread and new connections keeps the wake-up invariant |
| `WakeUp.NoLostWakeUp` | c++/connection.cpp:219-224 | in every reachable state: a net thread asleep without interest in unthrottled data or in room to read has a pipe byte pending or a writer on its way; the inbound total is at most 65535 + 4096 |
| `WakeUp.WritesOnlyWhileWaiting` | c++/connection.cpp:68-74 | a write is attempted only while something waits |
| `WakeUp.ReadsDoneIsSeen` | c++/connection.cpp:288 | when a disconnecting thread sets the flag during the net thread's sleep and no wake-up is under way, the socket is watched or a throttled write will time out exactly when the inbound total is below 65536 or outbound data waits |
| `WakeUp.ReadsDoneCanGoUnseen` | c++/connection.cpp:288 | a reachable state with the flag set in which neither holds and nothing is under way to wake the net thread |
| `Teardown.StepKeeps` | c++/connection.cpp:168-298 | every step of user thread, net thread and outside disconnects keeps the lock and flag invariant |
| `Teardown.CompleteIsFinal` | c++/connection.cpp:290-294 | once complete, for the rest of the run the connection is out of the map and no net-thread step touches it |
| `Teardown.NoMissedNotification` | c++/connection.cpp:290-292 | an unnotified waiter precedes the notification, and after the removal a waiter wakes and completes |
| `Teardown.FlagsInOrder` | c++/connection.cpp:279-294 | in every run the flags are set in the code's order, and a complete connection has been shut down with reading given up |
| `Sha256.PaddingBytes` | c++/crypto/sha2.cpp:299-303 | the padding is 0x80, zeros, and in its last eight bytes the bit length as one big-endian number modulo 2^64 |
| `Sha256.OutWords` | c++/crypto/sha2.cpp:304-311 | each four bytes of a digest are a word of the state, as a big-endian number |
| `Sha256.InitialWords` | c++/crypto/sha2.cpp:269-271 | each initial word is the first 32 bits of the fractional part of the square root of one of the first eight primes, as section 5.3.3 of FIPS 180-4 defines it |
| `Sha256.PaddedLength` | c++/crypto/sha2.cpp:298-303 | the padded length is a multiple of 64 |
| `Sha256.FewestZeros` | c++/crypto/sha2.cpp:302 | with fewer zero bytes it would not be, as section 5.1.1 of FIPS 180-4 asks |
| `Sha256.SpongeStep` | c++/crypto/sha2.cpp:276-294 | bytes that fill the buffer up to at most a block either stay buffered or are compressed once |
| `Sha256.CountMod` | c++/crypto/sha2.cpp:301-302 | the 64-bit counter loses nothing that buffering or padding look at |
| `Sha256.CSHA256.constructor` | c++/crypto/sha2.cpp:269-271 | nothing absorbed |
| `Sha256.CSHA256.Reset` | c++/crypto/sha2.cpp:314-318 | nothing absorbed, whatever came before |
| `Sha256.CSHA256.Write` | c++/crypto/sha2.cpp:273-296 | having absorbed m, absorbs m followed by the data, for every cutting and buffer fill |
| `Sha256.CSHA256.Finalize` | c++/crypto/sha2.cpp:298-312 | the fold of the compression function over the padded message |
| `Sha256.DoubleSha256` | c++/utils.cpp:297-303 | the double digest |
| `Sha256.DoubleSha256Two32` | c++/utils.cpp:330-334 | the double digest of the concatenation |
| `Sha256.DoubleSha256Step` | c++/utils.cpp:370-384 | from the state after m to the state after m and the input |
| `Sha256.DoubleSha256Done` | c++/utils.cpp:386-398 | the double digest of all bytes, of which this call sees the last |
| `Sha256.HashWhileReading` | c++/p2pclient.cpp:57-72 | init, a step per full block and done give the one-shot double digest |
| `Sha256.Sha256Blocks` | c++/utils.cpp:317 | n blocks folded into the state |
| `Sha256.HandPadded` | c++/utils.cpp:304-421 | the hand-padded branches give the same double digest, for whole messages and for tails |
| `Mempool.LinkDeps` | c++/rpcclient.cpp:244-250 | present dependencies get the entry as a child, for the others it waits |
| `Mempool.Arrive` | c++/rpcclient.cpp:237-256 | one arrival keeps children the inverse of the dependency relation and the waiting list exact |
| `Mempool.BuildGraph` | c++/rpcclient.cpp:237-272 | for every arrival order: fails exactly on duplicates or on unknown dependencies, else children is the inverse relation, counts are dependency counts and the ready entries those without any |
| `Mempool.GreedyRespectsDependencies` | c++/rpcclient.cpp:283-302 | any greedy order selects nothing twice and everything after all its dependencies |
| `Mempool.GreedyPaysBest` | c++/rpcclient.cpp:275-285 | every entry popped has at least the fee rate, and among equal ones at least the priority, of every entry that was ready then |
| `Mempool.AcceptedAre` | c++/rpcclient.cpp:287 | selected are exactly the entries popped of at most 100000 bytes |
| `Mempool.PopMax` | c++/rpcclient.cpp:284-286 | takes out an entry of the highest fee rate, and among those of the highest priority |
| `Mempool.Release` | c++/rpcclient.cpp:288-292 | counts are unselected dependencies again, and exactly the entries left with none join the heap |
| `Mempool.PopSmall` | c++/rpcclient.cpp:287-294 | selecting an entry keeps the heap equal to the ready entries and the counts exact |
| `Mempool.Select` | c++/rpcclient.cpp:278-302 | every pop is a maximal ready entry; no repeats, dependencies first, nothing selected once 4500000 bytes are, under 4600000 in all, and it stops short of 4500000 only when nothing is ready |
| `Deduper.Snapshot` | c++/flaggedarrayset.cpp:57-67 | the pointers of the part scanned, in order, behind those already taken |
| `Deduper.FindDuplicates` | c++/flaggedarrayset.cpp:70-78 | a vector is replaced only by one of equal hash; all with one hash lead to one vector; no replacement is itself replaced |
| `Deduper.SwapPass` | c++/flaggedarrayset.cpp:87-99 | exactly the entries reached whose element is a duplicate get new pointers |
| `Deduper.SwapReaches` | c++/flaggedarrayset.cpp:87-99 | each entry reached points to the vector found for its element, the others and all flags stay |
| `Deduper.SwappedShare` | c++/flaggedarrayset.cpp:73-98 | two entries scanned and swapped with equal hashes share one vector, in whatever caches |
| `Deduper.FullPassShares` | c++/flaggedarrayset.cpp:52-102 | after a whole pass with nothing in between, any two entries of equal hash in any caches point to one vector, and the caches stand for what they stood for |
| `Deduper.SameMeaning` | c++/flaggedarrayset.cpp:93-94 | both assertions hold: replacement and original have equal bytes and equal hash |
| `Deduper.StepKeeps` | c++/flaggedarrayset.cpp:52-102 | whatever happens between the phases, replacements stay valid, and no step of the pass changes what any cache stands for |
| `Deduper.PassIsInvisible` | c++/flaggedarrayset.cpp:52-102 | over every run, contents, order, flags and hashes of every cache change only by what the rest of the program does |

## Left out

- Hash functions: SHA-256's compression function and the pair hash are parameters; nothing is assumed of them but, where a lemma says so, that no collision occurs among the values at hand: the nodes of two Merkle trees, the contents of a deduper's snapshot.
- The hash table of `FlaggedArraySet` is a map keyed by content with the element's hash beside it; `std::hash`, its minimum length, iterators and a collision of two different elements under the double hash (by which `add` and `contains` compare) are not modelled.
- Integer widths: offsets, counters and cache indices are unbounded, apart from the varint sign extension, the wrap of a script length plus 4, the 16- and 24-bit fields and SHA's 64-bit byte count. `move_forward` is a mathematical bounds check.
- Compressors.RelayNodeCompressor.RecvTx: requires the size test to have passed, as the original asserts.
- Merkle.MerkleTreeBuilder.RootMatches: 32-bit products of row index and stride are not wrapped (a block has at most 100000 transactions).
- RelayRuns.RunsStayInSync: a client joins in one atomic step, although c++/server.cpp:127-131 does not hold `map_mutex`; spelled-out transactions are at most 1000000 bytes, a checking receiver is sent acceptable blocks, and a refused compression did not touch the cache (`SentBlockKeepsSync` and `RefusalKeepsSync` say exactly what happens otherwise).
- SendQueues.RunsKeepMessagesWhole: messages are non-empty; an empty one at the front of a queue would fail the original's assertion at line 126.
- Sha256.HandPadded: the padded buffer is a value, not an array reused in place.
- Mempool.PopMax: the standard library's heap is an extract-max, and priorities are reals instead of doubles.
- `blocksAlreadySeen` never forgets a hash; the original keeps the last million.
- The capacity of the wake-up pipe, clocks and throttle timing: a connection may or may not write yet, and a wait may or may not run out of time.
- Sockets, `select`, DNS, HTTP and JSON, command lines, printing, version, ping, sponsor and out-of-band messages, keepalive and P2P handshakes: glue without a property of its own.
- `operator=` of caches and compressors, SHA-512, HMAC, Base64 and hex parsing: not on the compressor path, and they would only add easy members.
