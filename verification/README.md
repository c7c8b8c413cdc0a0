# PiPool: a verified model of the pool's core

PiPool is a mining pool written in Go.  This project models, in Dafny, the parts of it whose correctness has to hold
over unbounded inputs or unbounded runs, and proves what those parts are for:

* **Merkle proofs and block assembly** (`Merkle`, `AuxMerkle`, `BlockAssembly`, `Hex`, `Bytes`).  The coinbase branch is
  computed without the coinbase and folded by every share; it always gives the root of the full Bitcoin Merkle tree,
  defined independently as in Bitcoin's `CalcHash`.  The header a share was hashed with and the header of the assembled
  block are built along different routes and are the same 80 bytes.  A nonce counts exactly when the digest of that
  header, read as a little-endian number, is at most the target; the bytes submitted for such a share on a job built
  from a template carry that work, the template's chain tip, time, version and transactions, and a coinbase that pays
  the wallet.  The merged-mining branch of every chain leads to the root placed in the coinbase.
* **Coinbase transaction** (`Coinbase`).  Two halves around a gap; filled with any extranonce they read back, by an
  independent transaction reader, to a transaction whose script, first output and commitment output are written out.
  Height pushes are minimal script numbers.
* **Address codecs** (`Checksum`, `ChecksumCreate`, `ConvertBits`, `SegwitAddress`, `SegwitEncode`, `Base58`,
  `Bitwise`, `Text`).  Linearity of the two checksums, rejection of every error confined to 6 (Bech32) or 8 (CashAddr)
  consecutive symbols at any length, exactly one checksum for every payload, the two round trips of the bit regrouper
  with its never-masked 64-bit accumulator, a script for every witness program, and Base58 as a bijection onto its
  image.
* **Auto-swap engine** (`SwapJob`, `SwapEngine`, `SwapEvidence`, `SwapRuntime`).  A state machine per job driven by
  ticks, an arbitrary exchange and a clock: at most one active job per coin and money moved at most once at each stage
  (for buys, when orders get ids), and only after the exchange reported the deposit credited and the order before it
  filled.  When its polls are answered too, every job, once in flight, is retired as complete or failed within ten hours
  and three gaps between ticks.
* **PPLNS accounting** (`RingBuffer`, `Pplns`, `PplnsBooks`, `PplnsRuntime`).  The ring buffer is the last N shares;
  a block's credits add up to the reward less its percentage within half a unit per worker; over every run with failing
  sends and restarts under any configurations, what was credited is pending or was sent, and it is known exactly when
  a window is again the last shares of the whole history.
* **Event ledgers** (`Uptime`, `UptimeTruth`, `Earnings`).  Session time and downtime are the online and the offline
  time since the first event kept; the uptime tally is the exact online time of what trimming kept, never more than the
  truth, and equal to it under a condition on the first event kept; the earnings counters equal a fold over a ledger of
  all blocks ever found.
* **Bounded histories** (`Hashstore`, `HashHistory`, `HashOrder`, `HashRuns`, `HashRuntime`, `RecentJobs`,
  `Sequences`).  Downsampling is determined by what it means (one exact mean per non-empty bucket) and is idempotent;
  the tiers of the hashrate history keep their promised sizes over every run of samples in order and compactions not
  too close together, whether or not the list stays in time order; exactly when it does, and when queries are exact, is
  read off the samples and the three cutoffs; the window of recent jobs is the last N jobs, so stale means exactly
  "older than the window".

Hash functions are parameters (any function from bytes to 32 bytes; the proof-of-work hash may fail).  Wallets,
exchanges, nodes and clocks are parameters too: each call is given the answers it receives, and nothing is assumed of
them unless a theorem says so.  Money in the PPLNS model is counted in units of 1e-8 coin; times are integers.

Where the source changes state step by step the model does too: classes with updated fields, loops with invariants,
arrays written in place.  Each such method is proved equal to a specification function, and the laws are proved about
that function.

## Where the code and its own description differ

The model follows the code.  Each difference is shown on an input and given its exact condition.

* `CreateCoinbaseTx` promises a script of at most 100 bytes.  Trimming cuts the tag only when part of it can stay, so a
  tag that would have to vanish is kept whole (`Coinbase.ScriptLimit`, `Coinbase.ScriptLimitCounterexample`).  With the
  pool's own sizes the limit holds (`Coinbase.PoolScript`).
* `encodeHeight` writes height 0 as OP_1, which reads back as 1 (`Coinbase.HeightReadsBack`).
* `validateShare` accepts a time shorter than eight digits, or longer with leading zeros, for which `assembleBlockHex`
  then returns no block (`BlockAssembly.AcceptedShareAssembles`, `BlockAssembly.ShortTimeIsAcceptedButNotAssembled`,
  `BlockAssembly.PaddedTimeIsAcceptedButNotAssembled`, `BlockAssembly.AcceptedShareWithoutBlock`).
* A buy order accepted by the exchange with an empty id is placed again at the next tick
  (`SwapJob.BuysAgainOnlyWithoutId`, `SwapJob.EmptyIdBuysTwice`).
* The uptime window can forget a session that began before the oldest retained event
  (`Uptime.LongSessionIsForgotten`).  While the log is not full, the tally of a window is the truth exactly when the
  first retained event is no later than the window's start or is a connection (`UptimeTruth.TallyIsTruthIff`).  Once
  2000 events are reached no condition on the record can tell: of two workers with equal records one tally is the truth
  and the other is not (`UptimeTruth.FullLogHidesTheTruth`); what the first event still decides is
  `UptimeTruth.FirstEventTells`.
* The hashrate samples of a coin are described as time-ordered; compaction can disorder them at each of its three
  cutoffs (`HashOrder.CompactionCanDisorder`).  The list stays in order, and every query is exact, exactly when no
  sample is put later than one that came after it (`HashOrder.CompactionKeepsOrderIff`,
  `HashOrder.QueriesAfterCompaction`).  Over a run the size limits hold whether it does or not
  (`HashRuns.EveryRunStaysSmall`).
* Compaction relies on its own result still being in bucket order the next time.  It is, when at least two and a half
  minutes have passed, and no less will do (`HashHistory.TooSoonIsNotReady`, `HashHistory.GapIsExact`); the ticker
  leaves about five.
* A PPLNS window that grows at a restart does not get back the shares the smaller one dropped
  (`PplnsBooks.GrownWindowForgets`).  It is the last shares of the whole history exactly when it holds as many as there
  were or as many as fit, and how many it holds follows from the sequence of shares and window sizes
  (`PplnsBooks.WindowIsExactIff`).
* A block reported back to zero confirmations and then confirmed again is counted twice
  (`Earnings.UpdateKeepsLawIff`, `Earnings.ZeroThenPositiveCountsTwice`); the pool never sends such a status.

## Model

| member | source | states |
|---|---|---|
| Merkle.CombineRow | internal/stratum/server.go:2676-2686 | one pass of the loop is one level of the tree, the last node paired with itself on odd rows |
| Merkle.RootIsTopNode | internal/stratum/server.go:2663-2689 | the level-by-level root is the top node of Bitcoin's positional definition, for every number of leaves |
| Merkle.BranchFoldsToRoot | internal/stratum/server.go:2663-2689 | for every row and every coinbase leaf, folding the branch gives the root of leaf and row |
| Merkle.BuildMerkleBranch | internal/stratum/server.go:2663-2700 | the branch of hex strings is the coinbase path of the row of transaction hashes |
| Merkle.ComputeRoot | internal/stratum/server.go:1550-1562 | the share check folds the decoded branch over the coinbase hash, and fails exactly on undecodable branches |
| Merkle.MinerRootIsBlockRoot | internal/stratum/server.go:1550-1562 | that fold over the pool's branch is the byte root of the full tree over coinbase and transactions |
| Merkle.SmallTrees | internal/stratum/server.go:2663-2689 | in bytes, the tree of one, two and three leaves: left before right, and the last of three paired with itself |
| AuxMerkle.ComputeAuxMerkleRoot | internal/merge/auxpow.go:302-323 | the aux root is the tree root over the listed hashes |
| AuxMerkle.ComputeAuxMerkleBranch | internal/merge/auxpow.go:233-265 | the loop gives the sibling path of the index, and index 0 for a single chain |
| AuxMerkle.BranchAtFoldsToRoot | internal/merge/auxpow.go:233-265 | folding a leaf's path, left or right by the bits of its index, gives the root, for every size and index |
| AuxMerkle.BranchLength | internal/merge/auxpow.go:233-265 | every leaf's path has the height of the tree |
| AuxMerkle.SortSymbols | internal/merge/auxpow.go:169-176 | the symbols are listed once each in strictly increasing order |
| AuxMerkle.ListingIsUnique | internal/merge/auxpow.go:169-176 | that listing is the only one, so every caller sees the same chain order |
| AuxMerkle.LessIsFirstDifference | internal/merge/auxpow.go:169-176 | the order of symbols is decided by the first difference, a prefix first |
| AuxMerkle.BuildCoinbaseCommitment | internal/merge/auxpow.go:164-191 | magic, root over the sorted works, count and nonce; nothing for no works |
| AuxMerkle.FindChain | cmd/pipool/main.go:396-407 | the index of a symbol in the sorted list, or -1 when absent |
| AuxMerkle.EveryChainReachesCommitment | internal/merge/auxpow.go:164-265 | every work's hash folds along its branch to the root placed in the coinbase |
| AuxMerkle.OwnHashReachesCommitment | internal/merge/auxpow.go:164-265 | what folds to bytes 4 to 36 of the commitment is each work's own hash, cut or filled with zeros to 32 bytes |
| AuxMerkle.SmallCommitments | internal/merge/auxpow.go:302-323 | the root of one work is its hash, and of two the first in order is hashed on the left |
| AuxMerkle.RootSitsAfterMagic | internal/merge/auxpow.go:178-191 | the commitment has 44 bytes with the root at bytes 4 to 36 |
| AuxMerkle.CommitmentLayout | internal/merge/auxpow.go:178-191 | fabe6d6d, root, size and four zero bytes, at those places |
| Bytes.VarIntRoundTrip | internal/stratum/server.go:1770-1784 | a written variable-length integer reads back, leaving the rest untouched |
| Bytes.ReverseBytes | internal/stratum/server.go:1786-1794 | the copy loop gives the bytes in reverse order |
| Hex.EncodeDecode | internal/stratum/server.go:2692-2709 | hex text decodes to the bytes it encodes |
| Hex.HexReverseBytes | internal/stratum/server.go:2703-2710 | hex text reversed byte by byte |
| Hex.ReverseHexDecodes | internal/stratum/server.go:2703-2710 | the result always decodes, to the reverse of the bytes that were readable |
| Hex.ParseMatchesDecode | internal/stratum/server.go:1565-1600 | for eight hex digits, parsing the integer and writing it little-endian equals decoding and reversing |
| Hex.SwapChunk | internal/stratum/server.go:2712-2729 | one word's bytes are reversed in place, for any even-length chunk |
| Hex.ReverseByteOrder | internal/stratum/server.go:2712-2729 | every eight-digit word has its bytes reversed, a shorter tail included |
| Hex.SwapWordsInvolution | internal/stratum/server.go:853-856 | reversing byte order twice is the identity on every string |
| BlockAssembly.ValidateShare | internal/stratum/server.go:1540-1640 | a share is valid iff the digest of the header with its nonce, or else with its byte-reversed nonce, exists and as a little-endian number is at most the share target; the effective nonce is the first such; it is a block iff that digest is also at most the block target |
| BlockAssembly.TryNonce | internal/stratum/server.go:1605-1636 | one nonce counts iff its header can be hashed and the digest as a little-endian number is at most the share target, and is a block iff at most the block target too |
| BlockAssembly.MeetsIff | internal/stratum/server.go:1627-1634 | the comparison through reversed big-endian bytes is a comparison of the little-endian number with the target |
| BlockAssembly.AssembleBlockHex | internal/stratum/server.go:1650-1742 | the block for a job, share and nonce, or none when a field or a transaction does not decode; what its bytes hold is SubmittedHeader and SubmittedBody |
| BlockAssembly.AcceptedShareGivesBlockIff | internal/stratum/server.go:1650-1742 | a hashed share gives a block iff time and bits have eight digits and every transaction is hex |
| BlockAssembly.ConcatIs | internal/stratum/server.go:1724-1737 | the transactions of a block are those of the job, one after another and in order, or there is no block |
| BlockAssembly.AssembledHeaderIsHashedHeader | internal/stratum/server.go:1565-1720 | whenever both routes succeed the block's first 80 bytes are the header that was hashed |
| BlockAssembly.AcceptedShareAssembles | internal/stratum/server.go:1565-1720 | for a hashable share the block header assembles iff time and bits have eight digits |
| BlockAssembly.ShortTimeIsAcceptedButNotAssembled | internal/stratum/server.go:1565-1720 | an accepted share whose time loses a leading zero is still accepted, and no header is assembled for it |
| BlockAssembly.PaddedTimeIsAcceptedButNotAssembled | internal/stratum/server.go:1565-1720 | an accepted share whose eight-digit time gains a leading zero is still accepted, and no header is assembled for it |
| BlockAssembly.AcceptedShareWithoutBlock | internal/stratum/server.go:1540-1720 | on the job of every template, with every extranonce of the pool's sizes and every nonce, a time of two digits or the template's own with a leading zero is accepted with the best hash, and no header is assembled |
| BlockAssembly.BuildJob | internal/stratum/server.go:794-875 | the job's fields, its raw transactions included, follow from the template; what a block on that job then holds is AcceptedShareGivesWellFormedBlock |
| BlockAssembly.JobPrevHash | internal/stratum/server.go:850-856 | the header's previous hash is the byte-reversed template hash although it is swapped twice on the way |
| BlockAssembly.JobHeaderCommitsToTemplate | internal/stratum/server.go:794-875 | every header hashed for a job commits to the template's chain tip and to the full tree over spliced coinbase and transactions |
| BlockAssembly.Hex8Parses | internal/stratum/server.go:858-872 | version and time as the job writes them are read back as the numbers they were |
| BlockAssembly.SubmittedHeader | internal/stratum/server.go:1650-1742 | the first 80 bytes of the decoded block hash to at most the target, version, time, bits and nonce in them are the share's and the job's, and the block hash is their reversed double hash |
| BlockAssembly.SubmittedBody | internal/stratum/server.go:1650-1742 | the decoded block holds the template's chain tip, the tree root, a count of 1 + its transactions, the spliced coinbase and the transactions in order |
| BlockAssembly.AcceptedShareGivesWellFormedBlock | internal/stratum/server.go:1540-1742 | decoding the block text of a job built from a template: the first 80 bytes hash to at most the target and carry the template's chain tip, bits, version and time (when the share uses the job's) and the tree root; then a count of 1 + the template's transactions, a coinbase whose first output pays the wallet's script, and exactly the template's transactions in order |
| Coinbase.EncodeHeight | internal/rpc/client.go:473-489 | the shifting loop writes the height push |
| Coinbase.HeightIsMinimalScriptNumber | internal/rpc/client.go:473-489 | the pushed bytes are a minimal non-negative script number worth the height (BIP 34) |
| Coinbase.MinimalScriptNumberIsUnique | internal/rpc/client.go:473-489 | it is the only minimal number with that value |
| Coinbase.HeightReadsBack | internal/rpc/client.go:473-489 | the push reads back to the height iff the height is at least 1, and height 0 reads back as the number 1 |
| Coinbase.TxRoundTrip | internal/rpc/client.go:360-471 | the reader of transactions undoes the writer, consuming every byte |
| Coinbase.TrimTag | internal/rpc/client.go:363-379 | the tag kept and the declared script length |
| Coinbase.CreateCoinbaseTx | internal/rpc/client.go:360-471 | the two halves written to the buffers; what a reader finds in them is SplicedCoinbasePaysTheWallet |
| Coinbase.WriteValue | internal/rpc/client.go:438-442 | eight shifted bytes are the value in two's complement, little-endian |
| Coinbase.WriteSecondOutput | internal/rpc/client.go:456-466 | the commitment output is appended when there is one |
| Coinbase.SplicedCoinbaseReadsBack | internal/rpc/client.go:360-471 | with any extranonce of the declared size in the gap the halves read back to the intended transaction, script length exact |
| Coinbase.SplicedCoinbasePaysTheWallet | internal/rpc/client.go:360-471 | read back, the halves give one coinbase input with height, tag, extranonce and commitment, and a first output of the whole value to the wallet's script, or burnt without one; there is a second iff the commitment text decodes to at least one byte, with those bytes as script, after 6a24aa21a9ed when they are 32 |
| Coinbase.ScriptLimit | internal/rpc/client.go:369-379 | the script is within 100 bytes iff the fixed parts leave room, or fill it exactly with no tag |
| Coinbase.TagIsCutNoFurther | internal/rpc/client.go:363-379 | the tag kept is a prefix of its first 20 bytes: all of them when they fit or when nothing does, and else as many as fill the script to exactly 100 bytes |
| Coinbase.ScriptLimitCounterexample | internal/rpc/client.go:369-379 | with 99 extranonce bytes a one-byte tag that had to vanish is kept, giving 101 bytes |
| Coinbase.PoolScript | internal/rpc/client.go:360-379 | with 12 extranonce bytes and 0 or 44 commitment bytes the limit holds, the tag is cut only at 20, and the height is the first push |
| Coinbase.PoolCoinbaseReadsBack | internal/rpc/client.go:360-471 | with those sizes the spliced coinbase reads back for every extranonce |
| Checksum.Bech32Polymod | internal/rpc/bech32.go:12-24 | the loop over 32-bit words is a run of the generator steps; nothing is lost to the word size |
| Checksum.CashAddrPolymod | internal/rpc/cashaddr.go:16-37 | the conditional exclusive-ors are the same machine with 40 bits and other generators |
| Checksum.Bech32VerifyChecksum | internal/rpc/bech32.go:26-42 | true iff the expanded prefix and the data run to exactly 1 |
| Checksum.CashAddrVerifyChecksum | internal/rpc/cashaddr.go:40-49 | true iff the masked prefix, a zero and the data run to exactly 1 |
| Checksum.StepIsLinear | internal/rpc/bech32.go:12-24 | a step commutes with exclusive or, for both codes |
| Checksum.StepPacks | internal/rpc/bech32.go:12-24 | a step on a short state shifts and appends, so short words pack without loss |
| Checksum.StepKeepsDifference | internal/rpc/bech32.go:12-24 | a step on an equal symbol maps only zero to zero |
| Checksum.RunIsLinear | internal/rpc/bech32.go:12-24 | runs of any length are linear in state and symbols |
| Checksum.ChangeDetectedByDifference | internal/rpc/bech32.go:36-42 | a changed word is valid iff its difference from a valid one runs to zero |
| Checksum.BurstIsDetected | internal/rpc/bech32.go:36-42 | a change confined to 6 (CashAddr 8) consecutive symbols keeps validity iff nothing changed, at any length |
| Checksum.ChecksumIsDetermined | internal/rpc/cashaddr.go:40-49 | the checksum symbols are determined by prefix and payload |
| ChecksumCreate.CompletionIsTheChecksum | internal/rpc/bech32.go:36-42 | every prefix and payload is completed to a valid word by exactly one checksum |
| ChecksumCreate.ZeroBeforeFinalOneIsNotDetected | internal/rpc/bech32.go:36-42 | in both codes, a zero symbol put before or taken from before a final one never changes validity |
| ConvertBits.Bech32ConvertBits | internal/rpc/bech32.go:44-68 | the regrouper with its unmasked, wrapping 64-bit accumulator computes the regrouping of bits, errors included |
| ConvertBits.OrIsAddition | internal/rpc/bech32.go:51-56 | shifting the wrapping accumulator leaves its low bits clear, so the bitwise or with a symbol below them adds it |
| ConvertBits.PaddedCarriesAllBits | internal/rpc/bech32.go:44-68 | padding keeps every bit and adds only zeros up to a whole group |
| ConvertBits.NarrowThenWiden | internal/rpc/bech32.go:44-68 | 8 to 5 with padding then back without is the identity on every byte sequence (BIP 173) |
| ConvertBits.AcceptedComesBack | internal/rpc/bech32.go:44-68 | whatever the unpadded direction accepts is returned by the padded one |
| SegwitAddress.DecodeBech32 | internal/rpc/bech32.go:71-103 | decoding, with the case, separator, character and checksum errors in the source's order |
| SegwitAddress.BuildSegwitScript | internal/rpc/bech32.go:105-141 | the script for an address, or the error |
| SegwitAddress.DecodingIsInjective | internal/rpc/bech32.go:71-103 | addresses that decode alike differ at most in case |
| SegwitAddress.ScriptDeterminesAddress | internal/rpc/bech32.go:105-141 | on one network a script belongs to at most one address, up to case |
| SegwitEncode.EncodedDecodes | internal/rpc/bech32.go:71-103 | every lower-case prefix and payload has an address, which decodes to them |
| SegwitEncode.DecodedIsOneCase | internal/rpc/bech32.go:71-76 | what decodes has no capitals or nothing but capitals |
| SegwitEncode.EveryProgramHasAnAddress | internal/rpc/bech32.go:105-141 | every program of 20 or 32 bytes and version up to 16 has an address, whose script is the opcode (0, or 0x50 + version), the length, and the program |
| SegwitEncode.ScriptLayout | internal/rpc/bech32.go:105-141 | every accepted address gives 22 or 34 bytes, with that opcode and the push of the rest |
| Base58.TranscodeRoundTrip | internal/rpc/base58.go:12-39 | digits moved to another base with leading zeros kept come back unchanged |
| Base58.AlphabetValues | internal/rpc/base58.go:9-9 | the six ranges give each of the 58 letters its place in the alphabet |
| Base58.B58Decode | internal/rpc/base58.go:12-39 | the big-integer loop decodes, failing exactly on a foreign character |
| Base58.EncodeOfDecode | internal/rpc/base58.go:12-39 | encoding a decoded string gives the string |
| Base58.DecodeOfEncode | internal/rpc/base58.go:12-39 | every byte sequence has an encoding that decodes to it |
| Base58.LeadingZerosCountOnes | internal/rpc/base58.go:28-39 | the decoded bytes have exactly as many leading zeros as the string has leading '1's |
| Base58.DecodeIsInjective | internal/rpc/base58.go:12-39 | two valid strings never decode alike |
| SwapJob.AdvanceKeepsConsistent | internal/swap/engine.go:285-545 | one visit keeps the money moved in step with the state, never moves the state back, and leaves finished jobs alone; without order ids all of it but the number of buys |
| SwapJob.BeginIsConsistent | internal/swap/engine.go:220-282 | a job begins waiting for its deposit after one send, or failed |
| SwapJob.BeginsWithTheSurplus | internal/swap/engine.go:220-282 | a job begins iff wallet, address, market and balance are there and the balance is at least what to keep plus the minimum; its amount is the balance less what to keep |
| SwapJob.WaitsForItsDeposit | internal/swap/engine.go:298-320 | a waiting job leaves that state iff at least 95% of its amount was answered, or fails once over six hours old without; else nothing changes |
| SwapJob.SellsWhatWasDeposited | internal/swap/engine.go:322-370 | a credited job sells once, half a percent below the bid, or fails; bitcoin is spent at once |
| SwapJob.WaitsForItsSale | internal/swap/engine.go:372-411 | a selling job moves its bitcoin on iff the order is reported filled and the balance known, and fails after two hours without |
| SwapJob.WaitsForItsPurchase | internal/swap/engine.go:464-497 | a buying job with an order completes iff it is reported filled, and fails after two hours without |
| SwapJob.SpendsAgainWithoutId | internal/swap/engine.go:464-470 | without an order id the bitcoin is spent again, half a percent above the ask |
| SwapJob.BuysAgainOnlyWithoutId | internal/swap/engine.go:464-497 | a second buy happens iff the first has no id and the exchange accepts again |
| SwapJob.EmptyIdBuysTwice | internal/swap/engine.go:464-497 | two visits with an accepted buy and an empty id leave two buys on the tally |
| SwapJob.AdvanceKeepsPunctual | internal/swap/engine.go:298-320 | an answered visit keeps every job within its state's timeout plus the gaps between ticks |
| SwapJob.PunctualIsYoung | internal/swap/engine.go:298-497 | an active punctual job is at most ten hours and two gaps old |
| SwapEngine.EveryRunIsSafe | internal/swap/engine.go:188-217 | over every run: one active job per coin, consistent jobs, a history of finished ones; with order ids the number of buys is part of it |
| SwapEngine.SafeMovesMoneyAtMostOnce | internal/swap/engine.go:188-217 | every job ever known has at most one send, sell and withdrawal, with order ids at most one buy, and none is stuck in sending |
| SwapEngine.CleanUpKeepsEveryJob | internal/swap/engine.go:576-590 | splitting active from finished loses and duplicates no job |
| SwapEngine.StepKeepsSafe | internal/swap/engine.go:188-217 | one tick keeps the invariant and never forgets a retired job |
| SwapEngine.EveryRunIsPunctual | internal/swap/engine.go:188-217 | over every run with answered polls and bounded gaps all jobs keep their timeouts |
| SwapEngine.RunFollows | internal/swap/engine.go:188-217 | over any number of ticks a job once in flight is represented by a job of the same origin, in flight or retired |
| SwapEngine.CreatedDuringRun | internal/swap/engine.go:220-282 | a job in flight was created during the run, and one that is already over in the last tick |
| SwapEngine.EveryJobIsRetiredInTime | internal/swap/engine.go:188-590 | a job in flight after any tick of a run that passes its deadline is retired, complete or failed and of the same origin, at a tick within ten hours and three gaps of its creation |
| SwapEvidence.EveryMoveIsBacked | internal/swap/engine.go:188-497 | over every run: a job that sold, bought, withdrew or completed was answered at least 95% of its amount while waiting; one that bought, withdrew or completed saw its sale reported filled unless it was bitcoin already; one that withdrew or completed saw its purchase reported filled unless it ends in bitcoin |
| SwapEvidence.TickStartsWhatIsDue | internal/swap/engine.go:203-282 | a tick starts a job for an enabled rule whose coin has none in flight and whose wallet holds enough, with the surplus as amount |
| SwapEvidence.StartsNothingElse | internal/swap/engine.go:203-282 | and no other job is started |
| SwapRuntime.Engine.Tick | internal/swap/engine.go:188-217 | one tick over the objects is one step of the engine, for the order in which the rules are walked |
| SwapRuntime.Engine.AdvanceJobs | internal/swap/engine.go:192-198 | every active job is visited once |
| SwapRuntime.Engine.CleanupJobs | internal/swap/engine.go:576-590 | active jobs stay in order, finished ones join the bounded history |
| SwapRuntime.Engine.HasActiveJob | internal/swap/engine.go:567-574 | true iff some job for the coin is active |
| SwapRuntime.Engine.StartJobs | internal/swap/engine.go:203-213 | each rule's coin is checked once |
| SwapRuntime.Engine.CheckAndInitiate | internal/swap/engine.go:220-282 | the balance checks, the send and the new job |
| SwapRuntime.SwapJob.Advance | internal/swap/engine.go:285-296 | the visit of a job, by state |
| SwapRuntime.SwapJob.AdvanceWaitDeposit | internal/swap/engine.go:298-320 | the deposit poll and its timeout, as SwapJob.WaitsForItsDeposit writes them out |
| SwapRuntime.SwapJob.PlaceSellOrder | internal/swap/engine.go:322-370 | the sell order or its failure |
| SwapRuntime.SwapJob.AdvanceSelling | internal/swap/engine.go:372-411 | the sell poll and its timeout |
| SwapRuntime.SwapJob.PlaceBuyOrder | internal/swap/engine.go:413-462 | the buy order, its failure, or withdrawal of bitcoin |
| SwapRuntime.SwapJob.AdvanceBuying | internal/swap/engine.go:464-497 | the buy poll, the missing order and the timeout |
| SwapRuntime.SwapJob.InitiateWithdraw | internal/swap/engine.go:499-539 | withdrawal completes the job whether or not the exchange accepts it |
| RingBuffer.RingBuffer.Push | internal/pplns/payout.go:86-93 | the buffer then holds the last elements ever pushed, oldest first |
| RingBuffer.RingBuffer.Snapshot | internal/pplns/payout.go:95-111 | the copy is the last elements ever pushed |
| RingBuffer.WritesOne | internal/pplns/payout.go:86-93 | one write drops the oldest element when the buffer is full and none otherwise |
| Pplns.Round | internal/pplns/payout.go:674-678 | rounding moves by at most half a unit and keeps the sign |
| Pplns.Config.Defaults | internal/pplns/payout.go:31-48 | an unset window, fee, minimum or interval gets its default; the window is positive and the fee between 0 and 100, and a sound setting is unchanged |
| Pplns.ValidSharesAreRecorded | internal/pplns/payout.go:265-289 | while enabled, a share with coin, worker and positive difficulty joins the last shares of its own coin; every other window and all balances stay |
| Pplns.WeightsAddUp | internal/pplns/payout.go:317-326 | the per-worker difficulties add up to the total kept beside them |
| Pplns.WeightIsWork | internal/pplns/payout.go:317-326 | a worker's weight is the sum of its shares, and it has one iff it has a share |
| Pplns.CreditIsProportional | internal/pplns/payout.go:341-351 | a worker is credited iff it has a share in the window; its credit is reward * (100 - fee) / 100 * its work / all work, within half a unit, and not negative |
| Pplns.BlockSplitsTheReward | internal/pplns/payout.go:298-355 | 100 times the sum of the credits is within 50 per worker of reward * (100 - fee); without a fee the credits add up to the reward within half a unit per worker |
| Pplns.BlockCreditsNobodyIff | internal/pplns/payout.go:298-330 | nobody is credited iff the engine is off, the reward not positive, or the window empty |
| PplnsBooks.BlockPays | internal/pplns/payout.go:298-355 | what a block adds to a balance: within half a unit its proportion of the reward less the percentage, for a worker with a share in that coin's window; nothing otherwise |
| PplnsBooks.RoundSettles | internal/pplns/payout.go:364-426 | a payout round in any order and with any failures moves exactly the due and accepted balances to the lifetime totals |
| PplnsBooks.RoundLogs | internal/pplns/payout.go:410-421 | the log is the newest 200 of all sends, and windows are untouched |
| PplnsBooks.RestartCutsTheWindows | internal/pplns/payout.go:547-668 | saving and loading under any window size keeps every ledger and the newest shares that fit |
| PplnsBooks.RestartIsInvisible | internal/pplns/payout.go:547-668 | under the same configuration it changes nothing at all |
| PplnsBooks.SteadyRunIsExact | internal/pplns/payout.go:265-289 | while restarts keep the window size, each window is the last shares of the whole history |
| PplnsBooks.WindowSlides | internal/pplns/payout.go:203-289 | from any state, a window is what it held and everything recorded since, cut to its size, over every run of that size |
| PplnsBooks.RunCounts | internal/pplns/payout.go:79-93 | over every run the numbers of shares recorded and retained are the counts read off the events: one more at an accepted share, cut to the size in force |
| PplnsBooks.WindowIsExactIff | internal/pplns/payout.go:605-655 | over every run, restarts under any configurations included, a window is the last shares of its coin's whole history iff the retained count is the smaller of the recorded count and the size in force |
| PplnsBooks.GrownWindowForgets | internal/pplns/payout.go:605-655 | a run where it is not: two shares under a window of one, then a restart with a window of two |
| PplnsBooks.ReconfiguredWindowIsExactIff | internal/pplns/payout.go:605-655 | from an exact window, after one restart with another size and any run under it: exact again iff it did not grow, or had dropped no share, or as many shares came since as it grew by |
| PplnsBooks.StepConserves | internal/pplns/payout.go:298-426 | one share, block or payout round keeps the books balanced |
| PplnsBooks.EveryRunBalances | internal/pplns/payout.go:203-426 | over every run, restarts under other configurations included: pending plus paid is credited, paid is what the wallets sent, the log is the newest 200 sends, and each window is an end of the shares of its own coin |
| PplnsRuntime.SumWork | internal/pplns/payout.go:317-326 | the loop that adds up difficulty |
| PplnsRuntime.CreditAll | internal/pplns/payout.go:341-351 | crediting the workers in any order gives the same balances |
| PplnsRuntime.Engine.RecordShare | internal/pplns/payout.go:265-289 | the share joins its coin's window only; invalid ones are ignored |
| PplnsRuntime.Engine.BlockFound | internal/pplns/payout.go:298-355 | the balances after a block, including every case it skips; what that adds to each is PplnsBooks.BlockPays |
| PplnsRuntime.Engine.ProcessPayouts | internal/pplns/payout.go:364-426 | a round visits every balance of every coin with a client, once per pair, and does what the round function says |
| PplnsRuntime.Engine.Pay | internal/pplns/payout.go:384-421 | one balance paid, or left when small or refused |
| PplnsRuntime.Engine.BuildPersistState | internal/pplns/payout.go:537-579 | the saved state, for the order in which the windows were walked |
| PplnsRuntime.Engine.LoadState | internal/pplns/payout.go:605-655 | the restored state |
| PplnsRuntime.GroupByCoin | internal/pplns/payout.go:621-626 | saved shares grouped by coin in their order |
| Uptime.EveryRunTracks | internal/uptime/tracker.go:77-158 | every reachable log is ordered and alternating, agrees with the status fields, and is the end of the full history |
| Uptime.TrimIsSuffix | internal/uptime/tracker.go:141-158 | trimming keeps the end of the log, at most 2000 events, and always the newest |
| Uptime.SessionsAndGapsTile | internal/uptime/tracker.go:202-225 | sessions and closed gaps of a log add up to its span |
| Uptime.TimeIsConserved | internal/uptime/tracker.go:202-332 | session time plus downtime is now minus the first event, plus the session a leading disconnection reports |
| Uptime.SessionTimeIsOnlineTime | internal/uptime/tracker.go:202-332 | session time is the number of online instants since the first retained event, plus the session a leading disconnection reports, and downtime the number of the others |
| Uptime.OnlineInWindow | internal/uptime/tracker.go:255-295 | the cursor walk tallies exactly the online instants of the window |
| Uptime.UptimePct | internal/uptime/tracker.go:243-304 | the percentage before rounding; the clamps never fire |
| Uptime.TrimmedTime | internal/uptime/tracker.go:141-158 | a trimmed log tallies the true online time from its first event on |
| Uptime.TallyNeverExceedsTruth | internal/uptime/tracker.go:243-305 | the tally lies between 0 and the truth, which is within the window |
| UptimeTruth.EveryRunDropsOnlyOld | internal/uptime/tracker.go:141-158 | over every run, while fewer than 2000 events are kept, every dropped event was over thirty days old at the last change |
| UptimeTruth.TallyIsTruthIff | internal/uptime/tracker.go:243-305 | while the log is not full, the tally of a window up to thirty days is the true online time iff the first retained event is no later than the window's start or is a connection |
| UptimeTruth.FirstEventTells | internal/uptime/tracker.go:243-305 | full or not: an early first event makes the tally exact, a later one that ends a session makes it fall short |
| UptimeTruth.FullLogHidesTheTruth | internal/uptime/tracker.go:141-158 | two runs end in the same full record, and the tally is the truth for one and not for the other |
| Uptime.TallyGrowsWithTheWindow | internal/uptime/tracker.go:197-200 | a longer window never tallies less |
| Uptime.LongSessionIsForgotten | internal/uptime/tracker.go:141-158 | a forty-day session leaves no uptime in the thirty-day window |
| Uptime.Worker.WorkerOnline | internal/uptime/tracker.go:77-105 | a connection recorded once |
| Uptime.Worker.WorkerOffline | internal/uptime/tracker.go:108-137 | a disconnection recorded with its session |
| Uptime.Worker.TrimEvents | internal/uptime/tracker.go:141-158 | old and excess events dropped |
| Uptime.Worker.SessionStats | internal/uptime/tracker.go:202-230 | the number and total of sessions, and the longest as an attained maximum |
| Uptime.Worker.Downtime | internal/uptime/tracker.go:308-332 | the downtime loop with its zero-time marker |
| Hashstore.Downsample | internal/hashstore/store.go:268-304 | the loop computes the downsampling of any list, in order or not |
| Hashstore.DownsampledAverages | internal/hashstore/store.go:268-304 | of a list in bucket order: one sample per non-empty bucket, strictly increasing, at the middle, with the exact mean |
| Hashstore.AveragesAreUnique | internal/hashstore/store.go:268-304 | that description determines the result |
| Hashstore.DownsamplingIsIdempotent | internal/hashstore/store.go:268-304 | doing it again with the same bucket changes nothing |
| Hashstore.MovesAtMostHalfABucket | internal/hashstore/store.go:268-304 | no sample's time moves by more than half a bucket |
| Hashstore.SpanBoundsPoints | internal/hashstore/store.go:4-10 | a span of n buckets leaves at most n + 1 points |
| HashHistory.ReadyIsCompacted | internal/hashstore/store.go:206-266 | compacting a list that is in bucket order where it matters gives the averages of each tier and leaves the last hour alone |
| HashHistory.TiersAreSmall | internal/hashstore/store.go:4-10 | the tiers stay within 2880, 2016 and 1440 points |
| HashHistory.CompactedIsTiered | internal/hashstore/store.go:206-266 | what compaction leaves behind, tier by tier |
| HashHistory.AddKeepsTiers | internal/hashstore/store.go:97-102 | a sample arriving in order joins the raw tier |
| HashHistory.CompactionStaysReady | internal/hashstore/store.go:206-266 | a compacted history, and what is appended to it, is in bucket order for every later compaction from two and a half minutes on whose drop line is not just where two tiers met |
| HashHistory.TooSoonIsNotReady | internal/hashstore/store.go:206-266 | the compaction of two given samples is not in bucket order for any compaction sooner than that |
| HashHistory.GapIsExact | internal/hashstore/store.go:75-89 | a gap up to 22 days keeps every compacted history ready iff it is at least two and a half minutes |
| HashOrder.CompactionKeepsOrderIff | internal/hashstore/store.go:206-266 | the compacted list is in time order iff no sample is put later than one that came after it |
| HashOrder.OnlyCutoffsMatter | internal/hashstore/store.go:227-248 | and only samples on two sides of one of the three cutoffs can pass each other |
| HashOrder.CompactionCanDisorder | internal/hashstore/store.go:206-266 | at each of the three cutoffs two ordered samples come out in the wrong order |
| HashOrder.RecentIsExactIff | internal/hashstore/store.go:110-120 | a query gives exactly the samples no older than its cutoff iff no older sample follows one of them |
| HashOrder.QueriesAreExactIff | internal/hashstore/store.go:110-120 | every query is exact iff the list is in time order |
| HashOrder.QueriesAfterCompaction | internal/hashstore/store.go:110-120 | after a compaction every query is exact iff no sample passed another |
| HashOrder.QueriesAwayFromCutoffs | internal/hashstore/store.go:110-120 | whatever passed what, a query is exact when its cutoff is not within half a bucket of where two tiers meet |
| HashRuns.EveryRunIsSound | internal/hashstore/store.go:75-266 | over every run from an empty or loaded history the list is its tiers one after another, and stays compactable |
| HashRuns.EveryRunStaysSmall | internal/hashstore/store.go:4-10 | over every run the tiers stay within their sizes, and each compaction gives the averages of what it found |
| HashRuntime.Search | internal/hashstore/store.go:115-115 | the binary search ends where halving ends, on any list |
| HashRuntime.Zones | internal/hashstore/store.go:227-248 | the four zones are the samples of the four spans of age, in order |
| HashRuntime.CompactCoin | internal/hashstore/store.go:216-263 | one coin's history is compacted, whatever its order |
| HashRuntime.CompactEach | internal/hashstore/store.go:216-263 | every coin is compacted once |
| HashRuntime.Store.Add | internal/hashstore/store.go:97-102 | the sample is appended to its coin |
| HashRuntime.Store.Compact | internal/hashstore/store.go:206-266 | every coin takes a compaction step and the time is noted |
| HashRuntime.Store.Query | internal/hashstore/store.go:110-120 | the end of the list from where the search ends, which is exact iff the list splits there |
| RecentJobs.FindOldest | internal/stratum/server.go:657-665 | the scan finds an oldest job whatever the map's order |
| RecentJobs.Server.BroadcastJob | internal/stratum/server.go:648-667 | the new job enters and an oldest one leaves an overfull window |
| RecentJobs.Server.ProxyJob | internal/stratum/server.go:375-395 | a proxy job enters, alone when the window is over its size |
| RecentJobs.Server.Lookup | internal/stratum/server.go:1286-1326 | no job, known or stale; a stale share extends the streak and may disconnect |
| RecentJobs.WindowIsBounded | internal/stratum/server.go:375-395 | with both kinds of job in any order the size is at most one over the limit and the current job is in the window |
| RecentJobs.ProxyJobEnters | internal/stratum/server.go:375-395 | after a proxy job that job is known, and all others unless the window was over its size |
| RecentJobs.OwnJobEnters | internal/stratum/server.go:648-667 | after a job of the pool's own all are known but the oldest, which leaves iff the window is overfull |
| RecentJobs.BroadcastSlides | internal/stratum/server.go:648-667 | one broadcast slides the window of the last jobs by one |
| RecentJobs.WindowIsLastJobs | internal/stratum/server.go:648-667 | under the pool's own broadcasts the window is the last jobs |
| RecentJobs.KnownIffRecent | internal/stratum/server.go:1286-1301 | a submission is known iff its job is among the last jobs |
| RecentJobs.StreakIsTail | internal/stratum/server.go:1301-1326 | the streak reaches k iff the last k stale shares since a good one name the same job |
| RecentJobs.DisconnectsIff | internal/stratum/server.go:1301-1326 | a worker is disconnected iff its last stale shares since a good one, the configured number or five, name one job |
| RecentJobs.Worker.NoteGood | internal/stratum/server.go:1405-1405 | a good share resets the streak |
| Earnings.RecordKeepsLaw | internal/earnings/tracker.go:376-421 | recording a block keeps counters and ledger equal |
| Earnings.UpdateKeepsLawIff | internal/earnings/tracker.go:425-466 | an update keeps them equal iff it is sound for the block's present status |
| Earnings.ZeroThenPositiveCountsTwice | internal/earnings/tracker.go:456-462 | a return to zero confirmations makes the next positive one count again |
| Earnings.EveryRunKeepsLaw | internal/earnings/tracker.go:376-466 | over every run as the pool is wired the counters are the fold over all blocks ever recorded |
| Earnings.OrphanIsFinal | internal/earnings/tracker.go:442-454 | an orphan stays one, and no later status moves a counter |
| Earnings.OrphaningUndoes | internal/earnings/tracker.go:442-460 | orphaning a confirmed block leaves exactly what orphaning it unconfirmed would |
| Earnings.RepeatsAreIdempotent | internal/earnings/tracker.go:425-466 | repeating a status changes nothing |
| Earnings.MinedBlockPays | internal/earnings/tracker.go:376-466 | a block mined and then confirmed adds one found, then one confirmed and exactly its reward, under the upper-case coin |
| Earnings.Tracker.RecordBlock | internal/earnings/tracker.go:376-421 | the counter and the recent list after a block |
| Earnings.Tracker.UpdateConfirmations | internal/earnings/tracker.go:425-466 | the first block with the hash is restated and recounted |
| Earnings.Tracker.GetOrCreateCoin | internal/earnings/tracker.go:627-636 | a coin's counters start at zero |

## Left out

- Sockets, HTTP, JSON, file formats, dashboards, metrics and notifications: input and output around the modelled core.
- SHA-256d, scrypt and their byte order inside: any function of the bytes; nothing about collisions is used.
- Network difficulty, share and block targets from bits, vardiff: single divisions and comparisons; targets are given, so bits that are not eight digits, from which the source cannot compute one, are only parsed.
- CashAddr payload layout and Base58Check versions: only the CashAddr checksum and plain Base58 are modelled.
- Field layout of the serialised aux proof beyond its two branches and index: the repository defines it for itself.
- Unicode: case folding in addresses and coin symbols is ASCII; the source's folding of other characters is not modelled.
- Floating point: amounts, difficulties and averages are integers or reals; rounding of a percentage for display is out.
- Template version and time outside 32 bits, negative heights and scripts of 253 bytes or more in the coinbase.
- Several readings of the clock within one operation: each operation is given one reading.
- Formatting of prices and quantities in swap orders, and the quantity an order was placed for.
- A crash between a wallet or exchange call and saving the state; the saved PPLNS state is a value, not a file.
- Luck statistics and last-block times of the earnings tracker, and re-import of evicted blocks from block logs.
- The map of workers in the uptime tracker and of symbols around it: one worker's record is modelled.
- Detection of disconnect patterns, which is a heuristic on the last ten disconnects.
- HashRuns.EveryRunStaysSmall: samples have non-negative times, arrive in time order and at most an hour late, and compactions are 150 seconds or more apart and not, to within minutes, 23 or 29 days or 30 days less an hour; the methods themselves demand nothing.
- HashRuns.EveryRunIsSound: speaks of the same runs, because bucket order is what later compactions need.
- HashOrder.CompactionKeepsOrderIff: speaks of lists in bucket order where it matters, which `HashRuns.SoundIsReady` gives along every such run.
- Hashstore.DownsampledAverages: times are non-negative; the source's division truncates, and `Hashstore.Downsample` follows it for all times.
- UptimeTruth.TallyIsTruthIff: the log holds fewer than 2000 events and the window is at most thirty days; the rest is `UptimeTruth.FirstEventTells`, and no more can be read from a full log.
- RecentJobs.WindowIsLastJobs: ids are distinct and creation times strictly increase; random 32-bit ids can repeat, and then only `RecentJobs.WindowIsBounded` speaks.
- Earnings.EveryRunKeepsLaw: hashes are fresh and a status is sent for the coin the block was recorded under, as the pool's own callbacks do.
- SwapEngine.EveryJobIsRetiredInTime: exchange polls that decide a job's fate are answered and buy orders get ids; an exchange that never answers keeps a job waiting.
