# Swarm core verification

A Dafny model of the algorithmic cores of the swarm node, with proofs of what
they promise:

* the Reed–Solomon erasure codec over GF(256), from its table-filling loops and
  the in-place Gauss–Jordan inversion to the round trip of every byte string
  (`GF256`, `GFTables`, `LinearAlgebra`, `Polynomials`, `Cauchy`, `ByteStrings`,
  `Erasure`, `Reconstruct`);
* the two Merkle trees, over anchor commitments and over torrent pieces:
  completeness, soundness and what a root binds (`Hashing`, `MerkleTree`,
  `AnchorMerkle`, `MerkleBinding`, `PieceMerkle`);
* the Bitcoin anchor service over a chain that reorganises, with its lifecycle,
  its queue and the verification of clocks claimed by peers (`Chain`,
  `Lifecycle`, `AnchorState`, `AnchorRuns`, `AnchorService`, `AnchorTable`,
  `AnchorPipeline`, `ClockVerify`);
* the torrent download driven by messages from arbitrary peers (`TorrentState`,
  `TorrentRuns`, `TorrentBackoff`, `TorrentManager`);
* the hash-chained audit log (`Audit`), the value ledger (`Ledger`), the replay
  cache (`Dedup`) and the nonce partition of the CPU hasher (`Nonces`).

`Options` and `Strings` hold what several of them share.

Objects that the program updates in place are classes with the same fields, and
each of their methods is proved against a function on the state before. Runs
are sequences of those functions, so a theorem about all runs is a theorem
about all sequences of method calls. Loops that fill lists, matrices or tables
are loops here too, with their invariants.

SHA-256 is an arbitrary function from byte strings to 32 bytes. Where a result
rests on collision resistance it says so: it assumes that no two of the strings
that were hashed in this very computation collide. Times are arguments.

## Where the code differs from its documentation

The model follows the code; each difference is a lemma.

* A replacement branch gets no extra work, so the work of the tip can fall
  (`Chain.ForkWinsWhenLonger`).
* Replacement blocks can have the hashes of orphaned ones
  (`Chain.ReplacementsAreNew`, `Chain.OrphanMinedAgain`, `Chain.TipMinedAgain`).
* Two things leave the transition table: `record` over an anchor that was
  already broadcast, and the demotion of CONFIRMED to INCLUDED by a
  synchronisation (`AnchorTable.StepFollowsTable`), which one reorganisation and
  one synchronisation reach from every anchor confirmed at a depth of three or
  more whose transaction is not pending again (`AnchorPipeline.ReorgDemotes`,
  `AnchorPipeline.DemotionIsReached`).
* A batch that raises half way leaves the records before the refused one on a
  transaction that it has not submitted (`AnchorPipeline.BatchStrandsExactlyWhen`).
  They stay BROADCAST, and the transaction off the chain, as long as nothing
  sends it again or gives the asset another one (`AnchorPipeline.StrandedStays`).
* A Merkle root alone does not determine the list: the exact condition for two
  lists to share one is that doubling fills them up to the same tree
  (`MerkleBinding.SameRootExactlyWhen`).
* A trimmed audit log no longer verifies (`Audit.VerifiesWhileUntrimmed`), and a
  log cut at its end does (`Audit.CutVerifies`): it is complete exactly when it
  ends in the head, which the check reports but does not compare
  (`Audit.CompleteExactlyWhen`).
* A download whose pieces are all found on disk at the start never writes its
  file. Neither does one that accepts a message under a negative index before it
  is complete: that counts as one more piece, and the count passes the total
  without a complete set. Every other one that gets all its pieces writes the
  original (`TorrentRuns.WrittenExactlyWhen`,
  `TorrentRuns.RecoverableExactlyWhen`).
* The back-off of a lost request does not grow step by step: it is 34 seconds
  once and then the maximum, because a point in time is taken for a duration
  (`TorrentBackoff.BackoffJumps`).
* A negative transfer fee breaks the supply (`Ledger.RunConservesExactlyWhen`),
  and two nodes share claims exactly when one id continues the other with a
  colon that no white space follows (`Ledger.NodesClashExactlyWhen`).
* A full replay cache evicts before it looks up, so a duplicate can evict its
  own record (`Dedup.DuplicateAccepted`, `Dedup.WindowIsExact`,
  `Dedup.SingleEntryRefusesNothing`), and a late message is rejected only if it
  expires during its own check (`Dedup.LateRejected`).

## Model

| member | source | states |
|---|---|---|
| `GF256.X2Linear` | mods/asset_fabric/erasure.py:38-40 | doubling modulo 0x11D, written with shifts and a conditional xor, is linear over xor |
| `GF256.X2Injective` | mods/asset_fabric/erasure.py:38-40 | doubling loses nothing: different bytes have different doubles |
| `GF256.PowerPeriod` | mods/asset_fabric/erasure.py:28-42 | doubling 1 255 times gives 1 again, which is why the table may be continued with period 255 |
| `GF256.PowersDistinct` | mods/asset_fabric/erasure.py:35-37 | the 255 table entries are all different, so no logarithm is overwritten |
| `GF256.EveryByteIsAPower` | mods/asset_fabric/erasure.py:35-37 | every non-zero byte is reached, so every logarithm is set |
| `GF256.MulPow2` | mods/asset_fabric/erasure.py:48-51 | products of powers add their exponents |
| `GF256.MulComm` | mods/asset_fabric/erasure.py:48-51 | the field product is commutative |
| `GF256.MulAssoc` | mods/asset_fabric/erasure.py:48-51 | the field product is associative |
| `GF256.MulDistrib` | mods/asset_fabric/erasure.py:48-51 | the field product distributes over xor |
| `GF256.MulNotZero` | mods/asset_fabric/erasure.py:49-50 | a product is zero exactly when a factor is |
| `GFTables.InitGf` | mods/asset_fabric/erasure.py:33-42 | the loops fill both tables so that exponents and logarithms of the field are right at every index a caller can reach |
| `GFTables.Tables.GfMul` | mods/asset_fabric/erasure.py:48-51 | the table lookup is multiplication of polynomials over GF(2) modulo 0x11D |
| `GFTables.Tables.GfDiv` | mods/asset_fabric/erasure.py:54-59 | division fails exactly by zero, and its result times the divisor is the dividend |
| `LinearAlgebra.MatMulVec` | mods/asset_fabric/erasure.py:62-72 | the loops compute every dot product over the field |
| `LinearAlgebra.SwapKernel` | mods/asset_fabric/erasure.py:86-87 | swapping rows keeps the vectors sent to zero |
| `LinearAlgebra.ScaleKernel` | mods/asset_fabric/erasure.py:88-89 | scaling a row by a non-zero factor keeps the vectors sent to zero |
| `LinearAlgebra.EliminateKernel` | mods/asset_fabric/erasure.py:90-96 | adding a multiple of the pivot row to another row keeps the vectors sent to zero |
| `LinearAlgebra.NoPivot` | mods/asset_fabric/erasure.py:79-85 | a column without a pivot exposes a non-zero vector that the original matrix sends to zero |
| `LinearAlgebra.ReducedIsInverse` | mods/asset_fabric/erasure.py:78-97 | once the left half is the identity, the right half undoes the matrix from both sides |
| `LinearAlgebra.InverseHasNoKernel` | mods/asset_fabric/erasure.py:75-97 | an invertible matrix sends no non-zero vector to zero |
| `LinearAlgebra.MatInvert` | mods/asset_fabric/erasure.py:75-97 | the in-place elimination returns a two-sided inverse, and raises exactly when the matrix has a non-zero kernel vector |
| `Cauchy.ParityMatrix` | mods/asset_fabric/erasure.py:100-115 | the loops build the matrix whose entry (p, d) times (n_data + 1 + p) xor (d + 1) is 1 in the field, and raise exactly above 255 shards; negative counts give empty rows or none |
| `Cauchy.CauchyUnique` | mods/asset_fabric/erasure.py:100-115 | encoder and decoder work with the same parity matrix |
| `Polynomials.DivisionLaw` | mods/asset_fabric/erasure.py:48-51 | dividing a polynomial over the field by a linear factor leaves its value at the root |
| `Polynomials.ManyRoots` | mods/asset_fabric/erasure.py:48-51 | a polynomial with as many roots as coefficients is zero everywhere |
| `Cauchy.AnyRowsDetermine` | mods/asset_fabric/erasure.py:100-115 | the code is maximum distance separable: any n_data different generator rows send no non-zero data vector to zero |
| `ByteStrings.JoinPieces` | mods/asset_fabric/erasure.py:132 | cutting a byte string into pieces and joining them again is the identity |
| `Erasure.ParityShards` | mods/asset_fabric/erasure.py:146-152 | every parity byte is the dot product of its matrix row with the data bytes at that offset |
| `Erasure.EncodingBytes` | mods/asset_fabric/erasure.py:126-152 | every single byte of an encoding, data and parity, without the functions that make it |
| `Erasure.Encode` | mods/asset_fabric/erasure.py:118-163 | raises exactly for invalid counts; otherwise the shard size is the least positive one of which n_data shards hold the data, the data shards hold the data in order and then zero bytes, the parity shards hold the products with the inverses of (n_data + 1 + p) xor (d + 1), and the sizes, hash and code name are reported |
| `Erasure.CollectPresent` | mods/asset_fabric/erasure.py:178-183 | collects the shards that are there with their indices, or gives up exactly when a size is wrong |
| `Erasure.DataWords` | mods/asset_fabric/erasure.py:188-194 | takes the short way exactly when every data shard is there |
| `Erasure.GeneratorRows` | mods/asset_fabric/erasure.py:200-207 | the matrix to invert consists of the generator rows of the chosen shards; an index beyond the parity matrix fails |
| `Erasure.Recover` | mods/asset_fabric/erasure.py:214-221 | the recovered words are the inverse applied to the received bytes, offset by offset |
| `Erasure.RowsHaveNoKernel` | mods/asset_fabric/erasure.py:200-212 | the rows that decode inverts never have a kernel, so its "singular matrix" branch is dead |
| `Erasure.DecodeMissing` | mods/asset_fabric/erasure.py:196-223 | with a data shard missing the result solves the equations of the chosen shards; it never gives up, and raises exactly for bad counts |
| `Erasure.SolutionUnique` | mods/asset_fabric/erasure.py:196-223 | n_data shards fix the data words |
| `Erasure.Decode` | mods/asset_fabric/erasure.py:166-223 | when decode returns None, when it raises, and that what it returns otherwise are data words whose generator rows are the present shards |
| `Erasure.RoundTrip` | mods/asset_fabric/erasure.py:118-223 | for every byte string, every valid pair of counts and every choice of at least n_data surviving shards, decoding gives the original bytes |
| `Reconstruct.ReconstructImportant` | mods/asset_fabric/reconstruct.py:33-68 | for every surviving choice of at least n_data shards of an encoding it reports ok with the original bytes, size and shard count, or a mismatch exactly when another non-empty content hash was given; too few shards are refused |
| `Reconstruct.SelfTest` | mods/asset_fabric/erasure.py:230-258 | the self-test succeeds for every payload |
| `MerkleTree.BuildLevel` | mods/btc_anchor/merkle.py:28-33 | the inner loop hashes neighbours, an odd last node with itself |
| `MerkleTree.MerkleRoot` | mods/btc_anchor/merkle.py:26-34 | the loops compute the root of the odd-duplicating tree |
| `MerkleTree.BuildLevelTracking` | mods/btc_anchor/merkle.py:49-58 | while building a level the loop records the sibling of the tracked node and moves to its parent, though the index changes in mid-loop |
| `MerkleTree.MerkleProof` | mods/btc_anchor/merkle.py:43-60 | the loops collect the siblings on the way to the root |
| `MerkleTree.CheckText` | mods/btc_anchor/merkle.py:64-70 | folds a proof given as text; any side but "R" counts as left and a malformed sibling raises |
| `MerkleTree.ProofFolds` | mods/btc_anchor/merkle.py:23-60 | the proof of every node of every level folds to the root |
| `MerkleTree.TextProofFolds` | mods/btc_anchor/merkle.py:23-71 | the same through hexadecimal text and back |
| `MerkleTree.FoldIsSound` | mods/btc_anchor/merkle.py:23-71 | whatever folds to the root, by a proof of any length with 32-byte siblings, started from a leaf of the tree, unless two of the strings hashed collide |
| `Hashing.HexRoundTrip` | mods/btc_anchor/merkle.py:52-55 | bytes survive being written and read as hexadecimal |
| `AnchorMerkle.CommitmentRoot` | mods/btc_anchor/merkle.py:23-34 | the root over commitments, with its own constant for no commitments |
| `AnchorMerkle.CommitmentProof` | mods/btc_anchor/merkle.py:37-60 | a proof exactly for an index in the list |
| `AnchorMerkle.VerifyProof` | mods/btc_anchor/merkle.py:63-71 | the check answers as the fold of the proof dictates |
| `AnchorMerkle.ProofVerifies` | mods/btc_anchor/merkle.py:23-71 | completeness: every commitment of every batch passes the check with the proof made for it |
| `AnchorMerkle.VerifiedIsMember` | mods/btc_anchor/merkle.py:18-71 | soundness: a commitment that passes the check is in the batch up to case and "0x", unless two of the strings hashed collide |
| `AnchorMerkle.HexIsKept` | mods/btc_anchor/merkle.py:18-20 | removing "0x" takes nothing from a hexadecimal commitment |
| `AnchorMerkle.SameLeafExactlyWhen` | mods/btc_anchor/merkle.py:18-20 | two hexadecimal commitments share a leaf exactly when they differ in nothing but the case of letters, and a leading "0x" makes no difference |
| `AnchorMerkle.SmallRoots` | mods/btc_anchor/merkle.py:18-34 | the roots of no, one, two and three commitments written out, with the prefix of a leaf, the order of the children and the odd node |
| `MerkleBinding.SameRootExactlyWhen` | mods/btc_anchor/merkle.py:23-34 | two lists have one root exactly when the doubling of odd nodes fills their trees up to full trees of one height with the same leaves, unless two of the strings hashed collide |
| `MerkleBinding.SameBatchExactlyWhen` | mods/btc_anchor/merkle.py:18-34 | the same for batches of commitments, up to case and "0x" and with the empty batch |
| `MerkleBinding.RootBindsLevel` | mods/btc_anchor/merkle.py:27-33 | so levels of one length with one root are equal |
| `MerkleBinding.RootBindsBatch` | mods/btc_anchor/merkle.py:18-34 | so root and length determine the whole batch |
| `MerkleBinding.RepeatedLastSameRoot` | mods/btc_anchor/merkle.py:27-33 | so the root alone does not: an odd batch and the batch with its last entry repeated have one root |
| `PieceMerkle.PieceRoot` | mods/asset_fabric/merkle_pieces.py:23-34 | the root over piece hashes |
| `PieceMerkle.VerifyProofOnly` | mods/asset_fabric/merkle_pieces.py:90-99 | the check of a receiver without the list answers as the fold dictates |
| `PieceMerkle.VerifyPiece` | mods/asset_fabric/merkle_pieces.py:60-87 | refuses whatever misses its slot; without a proof a piece that matches is accepted exactly when the root given is the root of the list |
| `PieceMerkle.VerifiedPieceIsListed` | mods/asset_fabric/merkle_pieces.py:19-99 | soundness for a receiver that holds only the root |
| `PieceMerkle.SmallPieceRoots` | mods/asset_fabric/merkle_pieces.py:19-34 | the roots of no, one and two piece hashes written out |
| `Chain.SimulatedBitcoinChain.constructor` | mods/btc_anchor/chain.py:137-154 | a chain of one genesis block with work 1 |
| `Chain.SimulatedBitcoinChain.Submit` | mods/btc_anchor/chain.py:203-206 | appends to the mempool, keeping the invariant |
| `Chain.SimulatedBitcoinChain.MineBlock` | mods/btc_anchor/chain.py:208-237 | appends the block that carries the mempool and the extra transactions, empties the mempool and keeps the invariant |
| `Chain.SimulatedBitcoinChain.Reorganise` | mods/btc_anchor/chain.py:242-268 | refuses a fork point that is not below the tip; otherwise keeps the blocks up to it, retains the others as orphans and appends the replacements |
| `Chain.SimulatedBitcoinChain.MineBranch` | mods/btc_anchor/chain.py:263-268 | the loop that mines the replacement blocks |
| `Chain.SimulatedBitcoinChain.FindTx` | mods/btc_anchor/chain.py:197-201 | the search from the tip down finds the last canonical block with the transaction |
| `Chain.MineKeepsInv` | mods/btc_anchor/chain.py:208-237 | mining keeps heights, links, work and lookups |
| `Chain.WithExtraIs` | mods/btc_anchor/chain.py:208-214 | a block takes what is pending, in order, and each extra transaction once if it is not pending |
| `Chain.MinedBlockIs` | mods/btc_anchor/chain.py:208-237 | the k-th block ever mined has nonce k, unless it replaces a block, and comes 600k seconds after the genesis block; its height, work, parent, hash and transactions |
| `Chain.ReorgKeepsInv` | mods/btc_anchor/chain.py:242-268 | so does every reorganisation |
| `Chain.ReorgIs` | mods/btc_anchor/chain.py:242-268 | a reorganisation keeps the blocks up to the fork, orphans the others, and puts max(1, new_length) new ones on top whose nonces count on from 10000 plus the number of orphans |
| `Chain.ChainRun` | mods/btc_anchor/chain.py:137-268 | every run keeps heights contiguous, links intact, work equal to height - start + 1, every canonical block in the index, and every block ever mined stored with its parent |
| `Chain.QueriesAgree` | mods/btc_anchor/chain.py:181-195 | a hash is canonical exactly when a canonical block bears it; it then has tip - height + 1 confirmations, any other has none |
| `Chain.ForkWinsWhenLonger` | mods/btc_anchor/chain.py:242-268 | a new branch has more work exactly when it is longer than what it replaces; the extra work of the documentation (lines 244 and 248) is not there |
| `Chain.ReplacementsAreNew` | mods/btc_anchor/chain.py:264-267 | the replacement hashes differ from all orphaned ones, as the comment promises, exactly when no orphan has the contents that the first replacement gets |
| `Chain.TipMinedAgain` | mods/btc_anchor/chain.py:264-267 | replacing only the tip can mine the same block again |
| `Chain.OrphanMinedAgain` | mods/btc_anchor/chain.py:264-267 | replacing one block by two and then the tip alone always brings an orphan back under its old hash |
| `Lifecycle.NormalizeName` | mods/btc_anchor/lifecycle.py:75-87 | a status written by name is read back |
| `Lifecycle.NormalizeStyle` | mods/btc_anchor/lifecycle.py:75-87 | a name is read in any case, with blanks around it and with a hyphen or blank for the underscore |
| `Lifecycle.NormalizeLegacy` | mods/btc_anchor/lifecycle.py:65-87 | the six words of earlier versions are read as their new statuses, in any case and with blanks around them |
| `Lifecycle.NormalizeExactlyWhen` | mods/btc_anchor/lifecycle.py:75-87 | the three look-ups never disagree: a text is read as a status exactly when it spells its name, in any case and with a hyphen or blank for the underscore, or an earlier word for it in any case; a text that spells nothing is UNANCHORED |
| `Lifecycle.ConfirmedWasIncluded` | mods/btc_anchor/lifecycle.py:54-103 | no path of transitions that the table allows reaches CONFIRMED without having been INCLUDED |
| `AnchorService.AssetAnchor.constructor` | mods/btc_anchor/anchor.py:55-77 | an empty service on a given chain |
| `AnchorService.AssetAnchor.Record` | mods/btc_anchor/anchor.py:104-172 | raises exactly without commitment and manifest hash; otherwise the record is COMMITMENT_PENDING, whatever was stored before |
| `AnchorService.AssetAnchor.RequestBroadcast` | mods/btc_anchor/anchor.py:246-259 | finds a commitment or not, and moves the record to COMMITMENT_PENDING only from the three statuses named |
| `AnchorService.AssetAnchor.MarkBroadcast` | mods/btc_anchor/anchor.py:357-380 | the new record, or the refusal of the transition, with the store unchanged |
| `AnchorService.AssetAnchor.ProcessQueue` | mods/btc_anchor/anchor.py:261-289 | the loop marks and submits in turn and ends at the first refusal |
| `AnchorService.AssetAnchor.ProcessQueueBatched` | mods/btc_anchor/anchor.py:291-355 | the loop stores root and proof, marks each asset, and submits the one transaction at the end |
| `AnchorService.AssetAnchor.ApplyChainProgress` | mods/btc_anchor/anchor.py:382-394 | the loop synchronises every listed record and never raises |
| `AnchorService.AssetAnchor.SyncRecordWithChain` | mods/btc_anchor/anchor.py:400-458 | one record, with the observed copy it leaves behind; what that is, AnchorRuns.SyncOutcome says |
| `AnchorRuns.ServiceRun` | mods/btc_anchor/anchor.py:104-458 | every run keeps the service invariant: a record that is INCLUDED or CONFIRMED has a transaction, a height and the canonical mark |
| `AnchorRuns.NextKeepsInv` | mods/btc_anchor/anchor.py:104-458 | every single step keeps it |
| `AnchorRuns.RecordedIs` | mods/btc_anchor/anchor.py:117-150 | every field of the record that `record` stores: the epoch given or the height of the tip, the commitment given or derived, and nothing of what was there before |
| `AnchorRuns.LocationIsCanonical` | mods/btc_anchor/anchor.py:403-421 | a location found is a canonical block with the transaction, so the "not canonical" branch (433-440) needs a collision |
| `AnchorRuns.SyncDecidesRecord` | mods/btc_anchor/anchor.py:400-458 | a synchronised record agrees with the chain, whatever it was before |
| `AnchorRuns.SyncOutcome` | mods/btc_anchor/anchor.py:400-458 | the whole record after a synchronisation: reset when it was INCLUDED or CONFIRMED and is off the chain, given the coordinates of its block and the status of its depth when it is on it, and otherwise unchanged; and the copy left behind |
| `AnchorRuns.SyncDecides` | mods/btc_anchor/anchor.py:382-458 | in every run, right after a synchronisation each record with a transaction is canonical exactly when its transaction is on the chain, with its depth as confirmations; it is CONFIRMED exactly at full depth, INCLUDED exactly below, with the coordinates and the anchor id of its block |
| `AnchorRuns.OnlyRaisedAreCanonical` | mods/btc_anchor/anchor.py:104-458 | in every run exactly the INCLUDED and CONFIRMED records are marked canonical, and the others count no confirmations |
| `AnchorRuns.OnlySyncRaises` | mods/btc_anchor/anchor.py:104-394 | no other step raises a record to INCLUDED or CONFIRMED |
| `AnchorRuns.SyncIsIdempotent` | mods/btc_anchor/anchor.py:382-458 | synchronising twice on one chain changes nothing more, neither records nor copies |
| `AnchorRuns.ObservedOnlyGrows` | mods/btc_anchor/anchor.py:472-482 | observed copies are never removed |
| `AnchorRuns.DroppedIsObserved` | mods/btc_anchor/anchor.py:407-418 | a record moved to RE_ANCHOR_REQUIRED has left a copy of its old status, marked not canonical, under its asset and anchor id or commitment prefix |
| `AnchorRuns.SyncFollowsTable` | mods/btc_anchor/anchor.py:400-458 | a synchronisation stays within the transition table exactly unless a CONFIRMED record is still canonical but below its depth |
| `AnchorRuns.DemotionIsOffTable` | mods/btc_anchor/lifecycle.py:54-62 | two transitions of the table never lead from CONFIRMED to INCLUDED |
| `AnchorTable.StepFollowsTable` | mods/btc_anchor/anchor.py:104-458 | for every step and every stored asset the status stays within two transitions of the table, exactly unless `record` overwrites a BROADCAST, INCLUDED or CONFIRMED record or a synchronisation demotes a CONFIRMED one |
| `AnchorPipeline.ReorgDemotes` | mods/btc_anchor/anchor.py:452-455 | a reorganisation just above the block of a CONFIRMED transaction is followed by that demotion exactly when the new branch is shorter than the depth requires |
| `AnchorPipeline.DemotionIsReached` | mods/btc_anchor/anchor.py:452-455 | from every CONFIRMED record that agrees with the chain at a depth of three or more, one reorganisation and one synchronisation lead to the demotion |
| `AnchorRuns.BatchProves` | mods/btc_anchor/anchor.py:302-351 | every stored asset of a batch ends up with the batch transaction and a proof that the check accepts against the stored root |
| `AnchorPipeline.QueueRaisesExactlyWhen` | mods/btc_anchor/anchor.py:261-289 | the queue raises exactly when a broadcast succeeded for an asset that is INCLUDED, CONFIRMED or REORGED |
| `AnchorPipeline.QueueDelivers` | mods/btc_anchor/anchor.py:261-289 | a queue run that does not raise puts every sent transaction into the mempool in order, and on each record the last one sent for it; nothing else changes |
| `AnchorPipeline.QueueStopsAt` | mods/btc_anchor/anchor.py:261-289 | a queue run that raises leaves behind exactly what the items before the refused one deliver |
| `AnchorPipeline.BatchRaisesExactlyWhen` | mods/btc_anchor/anchor.py:335-350 | the same condition for a batch |
| `AnchorPipeline.BatchRaiseStrands` | mods/btc_anchor/anchor.py:335-353 | a batch that raises leaves the records before the refused one on a transaction that it has not submitted |
| `AnchorPipeline.BatchStrandsExactlyWhen` | mods/btc_anchor/anchor.py:291-355 | a batch that was broadcast leaves a record on a transaction that the chain has not got exactly when some item is refused and the record belongs to an item before the first refused one, or was stranded on that transaction already |
| `AnchorPipeline.StrandedStays` | mods/btc_anchor/anchor.py:104-458 | such a record stays BROADCAST, and its transaction off the chain, in every run in which nothing sends the transaction again or gives the asset another one, reorganisations included |
| `AnchorPipeline.MineCarries` | mods/btc_anchor/chain.py:208-237 | a pending transaction enters the next block, and every further block buries it one deeper |
| `AnchorPipeline.ReorgCarries` | mods/btc_anchor/chain.py:242-268 | a reorganisation that spares the block of a transaction leaves it there, less deep by the blocks dropped and deeper by the new ones; one that is pending enters the first new block |
| `AnchorPipeline.RunCarries` | mods/btc_anchor/anchor.py:261-458 | after a delivery, any run that does not drop the block of the transaction, send it again or give the asset another one keeps it as deep as the blocks mined and replaced since make it |
| `AnchorPipeline.ConfirmedAtDepth` | mods/btc_anchor/anchor.py:261-458 | in every run, what the queue delivered is INCLUDED by a synchronisation at a depth of 1 to depth-1 and CONFIRMED from depth on, whatever steps come in between, reorganisations included, that do not drop its block, send the transaction again or give the asset another one |
| `AnchorPipeline.BatchConfirmedAtDepth` | mods/btc_anchor/anchor.py:291-458 | the same for every stored member of a batch |
| `ClockVerify.VerifyAnchorRecord` | mods/btc_anchor/verify.py:68-143 | gives each reason exactly when it applies; ok exactly without reasons; accepted exactly when also canonical and CONFIRMED; the status, canonical mark and fields it repeats |
| `ClockVerify.RejectPeerClockClaim` | mods/btc_anchor/verify.py:146-200 | without a local record only refusals; with one, each reason exactly when it applies, ok exactly without reasons, and accepted exactly the claims that agree with the record and, given a chain view, with the chain |
| `ClockVerify.AuthoritativeMeansBuried` | mods/asset_fabric/artifact_clock.py:188-229 | the clock derived from a synchronised record is authoritative exactly when its transaction is canonical at full depth |
| `ClockVerify.ClockIs` | mods/asset_fabric/artifact_clock.py:188-229 | the clock of a synchronised record: the epoch recorded, even when the block came later, the coordinates of the block, and the confidence that chain and status dictate |
| `ClockVerify.ClockOfRecord` | mods/asset_fabric/artifact_clock.py:41-65 | the clock of any record: its own depth or the default, never fully confirmed when not canonical, and nothing claimed without confidence |
| `ClockVerify.AuthoritativeEpoch` | mods/asset_fabric/artifact_clock.py:216-218 | an authoritative clock has exactly the epoch that was recorded; the height of the block stands in only for a record without one |
| `ClockVerify.AuthoritiesAgreeExactlyWhen` | mods/btc_anchor/lifecycle.py:114-121 | the lifecycle and the clock agree on authority exactly unless a canonical record is CONFIRMED too early or INCLUDED at full depth |
| `ClockVerify.AuthoritiesAgree` | mods/asset_fabric/artifact_clock.py:101-103 | on synchronised records they always agree |
| `ClockVerify.AcceptedClaimIsOnChain` | mods/btc_anchor/verify.py:146-200 | a claim accepted against a synchronised record has the height and hash of a canonical block that holds the transaction at full depth, and the clock is authoritative |
| `ClockVerify.AcceptedAfterSync` | mods/btc_anchor/verify.py:146-200 | the same over every run that ends with a synchronisation |
| `ClockVerify.HonestClaimIsAccepted` | mods/btc_anchor/verify.py:146-200 | a claim that repeats a synchronised CONFIRMED record is accepted |
| `ClockVerify.DerivedCommitmentMatches` | mods/btc_anchor/verify.py:35-46 | the commitment that `record` derives passes the check for hexadecimal text and a version that is not zero |
| `ClockVerify.CommitmentBinds` | mods/btc_anchor/verify.py:35-46 | no record with another asset, manifest, epoch or version passes with the same commitment, unless the derived commitments collide |
| `ClockVerify.AcceptedManifest` | mods/btc_anchor/verify.py:146-200 | an accepted claim, the record and the node name one manifest, as far as each names one |
| `TorrentManager.CreateTorrent` | mods/torrent_protocol/torrent_manager.py:212-263 | raises exactly for an empty or too large file or too many pieces; otherwise the manifest has the size, the clamped piece size and the hash of every piece |
| `TorrentManager.TorrentDownload.constructor` | mods/torrent_protocol/torrent_manager.py:83-102 | an empty download with the request limit clamped to 1..64 |
| `TorrentManager.TorrentDownload.ExpireStale` | mods/torrent_protocol/torrent_manager.py:463-470 | drops exactly the requests older than 20 seconds and lengthens their back-off |
| `TorrentManager.TorrentDownload.RarestMissing` | mods/torrent_protocol/torrent_manager.py:436-450 | exactly the pieces that are missing, not pending and not kept back, in the order of rarity and index |
| `TorrentManager.TorrentDownload.RequestPieces` | mods/torrent_protocol/torrent_manager.py:472-483 | each request is noted, and taken back when it fails to go out |
| `TorrentManager.TorrentDownload.FillPipeline` | mods/torrent_protocol/torrent_manager.py:452-461 | leaves the requests that are not overdue, asks only for missing pieces that are not kept back, and for all of those when no request is lost and a slot stays free |
| `TorrentManager.TorrentDownload.CheckPiece` | mods/torrent_protocol/torrent_manager.py:559-584 | the checks a piece message must pass; an index is only bounded above, and a negative one reads the manifest from its end |
| `TorrentManager.TorrentDownload.OnPieceData` | mods/torrent_protocol/torrent_manager.py:559-607 | what a message changes: nothing, the request, or the stored piece followed by a fill or the assembly |
| `TorrentManager.TorrentDownload.JoinStored` | mods/torrent_protocol/torrent_manager.py:627 | fails exactly when a piece is missing |
| `TorrentManager.TorrentDownload.AssembleAndFinish` | mods/torrent_protocol/torrent_manager.py:623-648 | writes the joined pieces if their size is right and clears the tables |
| `TorrentManager.TorrentDownload.StartDownload` | mods/torrent_protocol/torrent_manager.py:289-317 | refuses exactly an incomplete download over the limits; otherwise loads what is on disk and fills the pipeline; wanted exactly while incomplete and within the limits |
| `TorrentManager.TorrentDownload.LoadPartialPieces` | mods/torrent_protocol/torrent_manager.py:388-401 | takes over exactly the piece files that match the manifest |
| `TorrentManager.TorrentDownload.OnAnnounce` | mods/torrent_protocol/torrent_manager.py:507-509 | counts every announced piece once more |
| `TorrentManager.TorrentDownload.RecoverStall` | mods/torrent_protocol/torrent_manager.py:176-181 | forgets requests and back-off, then fills |
| `TorrentManager.TorrentDownload.OnPieceRequest` | mods/torrent_protocol/torrent_manager.py:518-557 | serves what is held, from memory, piece file or the finished file |
| `TorrentRuns.ChoiceIsRarest` | mods/torrent_protocol/torrent_manager.py:436-461 | a fill asks for different pieces, missing, not pending and not kept back, as many as there are free slots or all of them, and for none that is later in (rarity, index) than one left out |
| `TorrentRuns.FillIs` | mods/torrent_protocol/torrent_manager.py:452-483 | every entry of the request and back-off tables after a fill: what expires, how long it is kept back, what goes on waiting and what is asked for now |
| `TorrentRuns.FillUsesSlots` | mods/torrent_protocol/torrent_manager.py:452-461 | if no request is lost and a slot stays free, every piece that may be asked for is |
| `TorrentRuns.NewRequests` | mods/torrent_protocol/torrent_manager.py:289-648 | whatever the step, a request that it adds is for a piece that is missing and not kept back at that time |
| `TorrentRuns.RarityCounts` | mods/torrent_protocol/torrent_manager.py:507-592 | a piece becomes less rare by one when it is announced, taken in or served, and by nothing else |
| `TorrentRuns.AnswerForgets` | mods/torrent_protocol/torrent_manager.py:585-588 | a message that passes the checks ends the request for its piece and its back-off |
| `TorrentBackoff.RunWithin` | mods/torrent_protocol/torrent_manager.py:463-470 | in every run each back-off entry is a point in time of the run plus at most the maximum |
| `TorrentBackoff.BackoffJumps` | mods/torrent_protocol/torrent_manager.py:469-470 | on any clock past 71 seconds the first time-out of a piece costs 34 seconds and every later one the maximum: the growth by 1.7 is applied to a point in time |
| `TorrentBackoff.NoPieceStarves` | mods/torrent_protocol/torrent_manager.py:436-470 | once the maximum back-off has passed since the last step, every missing piece is pending or eligible |
| `TorrentRuns.RunKeepsInv` | mods/torrent_protocol/torrent_manager.py:289-648 | every run keeps at most max_outstanding requests, none for a piece already had, and every stored piece matching the manifest hash that its index reads |
| `TorrentRuns.NextKeepsInv` | mods/torrent_protocol/torrent_manager.py:289-648 | every single step keeps it |
| `TorrentRuns.JoinIsOriginal` | mods/torrent_protocol/torrent_manager.py:623-632 | with nothing missing the joined pieces are the original data |
| `TorrentRuns.FileIsOriginal` | mods/torrent_protocol/torrent_manager.py:559-632 | whatever messages arrive from whatever peers, under indices of either sign, and whatever piece files were there, a finished file is the original byte for byte, unless a payload collides with a piece |
| `TorrentRuns.FinishedExactlyWhen` | mods/torrent_protocol/torrent_manager.py:602-605 | a step writes the file exactly if it is the message with the last missing piece and no piece is counted under a negative index |
| `TorrentRuns.FinishClears` | mods/torrent_protocol/torrent_manager.py:623-648 | the step that writes the file leaves no request, no back-off, no piece in memory and no piece file of the manifest, other piece files stay, the file has the size of the manifest, and the download is not wanted any more |
| `TorrentRuns.WrittenExactlyWhen` | mods/torrent_protocol/torrent_manager.py:289-648 | in every run a download that counts as many pieces as the manifest has, or more, has written the original exactly if just those pieces were had at some moment and were not all on disk before; otherwise it has written nothing |
| `TorrentRuns.RecoverableExactlyWhen` | mods/torrent_protocol/torrent_manager.py:559-648 | a download without a file can still write it, by whatever steps may follow, exactly when a piece is missing and none is counted under a negative index |
| `TorrentRuns.BothIndicesPass` | mods/torrent_protocol/torrent_manager.py:575-584 | piece k of n is accepted under its own index and under k - n |
| `TorrentRuns.ServedIsAccepted` | mods/torrent_protocol/torrent_manager.py:518-605 | what a run serves is the original piece that the index reads, and every receiver with the same manifest accepts it |
| `TorrentRuns.ServedExactlyWhen` | mods/torrent_protocol/torrent_manager.py:518-557 | a run serves exactly the pieces that it counts as had |
| `Audit.AuditLog.Append` | mods/aegis_42/audit.py:56-81 | chains the record to the head, stores it and trims as Python slices do |
| `Audit.AuditLog.VerifyIntegrity` | mods/aegis_42/audit.py:83-108 | intact exactly when every link holds; otherwise the first one that does not |
| `Audit.HeadDeterminesLog` | mods/aegis_42/audit.py:83-108 | two verifying logs with one head are equal record by record, unless two of their records collide |
| `Audit.CompleteExactlyWhen` | mods/aegis_42/audit.py:83-108 | a list that verifies is the log of the contents exactly when it ends in the head of that log, unless two records collide |
| `Audit.CutVerifies` | mods/aegis_42/audit.py:83-108 | the check alone does not see that: a log cut short anywhere verifies |
| `Audit.FullChainVerifies` | mods/aegis_42/audit.py:56-77 | without trimming every log verifies |
| `Audit.AppendedIs` | mods/aegis_42/audit.py:76-80 | what the log holds after any appends: the whole chain, its last max records, or nothing for a negative maximum |
| `Audit.VerifiesWhileUntrimmed` | mods/aegis_42/audit.py:78-108 | after k appends the log verifies exactly when k is at most the maximum or the maximum is zero or less |
| `Ledger.BabelLedger.Append` | mods/bvl/ledger.py:27-36 | the stored list is cut to the newest 2000 entries |
| `Ledger.BabelLedger.Credit` | mods/bvl/ledger_service.py:81-102 | refuses exactly an amount that is not positive; otherwise balance and supply grow by it and the entry records both |
| `Ledger.BabelLedger.Debit` | mods/bvl/ledger_service.py:104-127 | refuses exactly an amount that is not positive or not covered |
| `Ledger.BabelLedger.Reward` | mods/bvl/ledger_service.py:136-187 | pays exactly when an asset is named, after stripping it, or an hour for an uptime reward without one, the claim is new and the amount positive; it then adds what the policy sets for that reason, or the amount given for a seed, to balance and supply, and the entry names it |
| `Ledger.BabelLedger.TransferTo` | mods/bvl/ledger_service.py:203-248 | exactly when the stripped name is another node, the amount positive and at most one million and the balance covers it with the fee: the amount moves and a positive fee leaves the supply |
| `Ledger.BabelLedger.SettleToSats` | mods/bvl/ledger_service.py:250-279 | exactly when the balance covers it, the amount leaves balance and supply, and burn and settlement are noted |
| `Ledger.TransferAccounts` | mods/bvl/ledger_service.py:220-233 | a transfer lowers the sum of the balances by the fee, whatever its sign, but the supply only by a positive one |
| `Ledger.ConservedExactlyWhen` | mods/bvl/ledger_service.py:220-233 | so an allowed transfer keeps supply and balances together exactly when the fee is not negative |
| `Ledger.RunConservesExactlyWhen` | mods/bvl/ledger_service.py:81-279 | supply and balances stay together in every run exactly when the fee is not negative |
| `Ledger.RunKeepsBooks` | mods/bvl/ledger_service.py:60-279 | under any fee the claims of a run are the keys of its payments, each made once, and the stored list is the end of the history |
| `Ledger.RunKeepsInv` | mods/bvl/ledger_service.py:60-279 | with a fee that is not negative every run keeps supply equal to the sum of all balances and no balance negative; the history replays to both, the stored list is its end, and claims match payments one to one |
| `Ledger.KeysAgreeExactlyWhen` | mods/bvl/ledger_service.py:60-61 | two payments share a claim key exactly when their reasons agree and node and asset, joined by a colon, read the same |
| `Ledger.UptimeOncePerHour` | mods/bvl/ledger_service.py:179-187 | uptime rewards that name nothing share a claim exactly within one hour of the clock |
| `Strings.StripIsMiddle` | mods/bvl/ledger_service.py:145 | what is stripped from an asset is white space at both ends and nothing else |
| `Ledger.NodesClashExactlyWhen` | mods/bvl/ledger_service.py:60-187 | two different nodes have payments that share a key exactly when one id continues the other with a colon that no white space follows |
| `Ledger.ClaimKeyUnique` | mods/bvl/ledger_service.py:60-187 | otherwise different payments have different keys |
| `Ledger.RewardPaidExactlyWhen` | mods/bvl/ledger_service.py:136-187 | in every run a reward is paid exactly when it is due and none was paid before under its key |
| `Ledger.RewardPaidOnce` | mods/bvl/ledger_service.py:136-187 | which means that very reward, in every run that pays no node whose id clashes with this one in that way |
| `Dedup.Oldest` | comms/routing/delivery.py:232 | the first entry with the least expiry |
| `Dedup.DedupCache.DropExpired` | comms/routing/delivery.py:226-230 | removes exactly the expired entries and counts them |
| `Dedup.DedupCache.Purge` | comms/routing/delivery.py:225-234 | the loop ends; it raises exactly for a bound below one, after emptying the cache; evictions are counted |
| `Dedup.DedupCache.CheckAndRecord` | comms/routing/delivery.py:236-252 | purges, then refuses or records, with the statistics; every accepted message is held, was evicted or was recorded again |
| `Dedup.DedupCache.Seen` | comms/routing/delivery.py:254-256 | purges, then looks the id up |
| `Dedup.RunKeepsBound` | comms/routing/delivery.py:225-252 | no run exceeds max_entries or holds an id twice |
| `Dedup.SurvivesExactlyWhen` | comms/routing/delivery.py:231-234 | capacity eviction keeps exactly the entries outranked by fewer than max_entries - 1 |
| `Dedup.DuplicateAccepted` | comms/routing/delivery.py:236-252 | a recorded id passes as new exactly when its record expired before the purge, when at least max_entries - 1 live entries outrank it so that its own purge evicts it, or when it expires between purge and check and the nonce is another |
| `Dedup.KeptWhile` | comms/routing/delivery.py:236-252 | along every run in which the record always has room, every duplicate is refused until the expiry |
| `Dedup.WindowIsExact` | comms/routing/delivery.py:225-252 | with one ttl and a clock that never goes back, within or between calls, every duplicate before the expiry and before the id is accepted again passes exactly when max_entries - 1 or more messages were accepted in between |
| `Dedup.LateRejected` | comms/routing/delivery.py:213-252 | a message after its expiry is rejected, as the class comment promises, exactly when its record was still live at the purge, had room and holds the nonce |
| `Dedup.SingleEntryRefusesNothing` | comms/routing/delivery.py:231-252 | a cache of one entry refuses nothing |
| `Nonces.HashProcess` | mods/mining_engine/stratum_cpu.py:39-65 | one process tries tid, tid + step, ... modulo 2^32, and hands over every 4096 hashes, holding back the remainder |
| `Nonces.SpawnWorkers` | mods/mining_engine/stratum_cpu.py:394-406 | worker i of T starts with tid i and step T |
| `Nonces.EveryScheduleTries` | mods/mining_engine/stratum_cpu.py:39-65 | under every interleaving each worker tries its own sequence |
| `Nonces.CoveredExactly` | mods/mining_engine/stratum_cpu.py:39-406 | after k turns of each of T workers with k*T at most 2^32, the nonces tried are exactly 0..k*T-1, each once |
| `Nonces.DistinctExactlyWhen` | mods/mining_engine/stratum_cpu.py:39-406 | no nonce is repeated exactly as long as k*T is at most 2^32 |
| `Nonces.NothingUncounted` | mods/mining_engine/stratum_cpu.py:61-65 | the shared counter and what the workers hold back add up to the hashes made |
| `Nonces.CounterIsExact` | mods/mining_engine/stratum_cpu.py:61-65 | the counter is behind by at most 4095 per worker |

## Left out

- SHA-256, HMAC and canonical JSON: hash functions are parameters, and block bodies, audit records, artifact commitments and anchor ids are hashed as records, which takes their JSON text to be injective.
- AnchorMerkle.VerifiedIsMember: siblings are taken to be 32 bytes and leaves not to be 52 characters long, which the code does not check; commitments have 64 characters.
- MerkleBinding.SameBatchExactlyWhen: likewise with leaves not 52 characters long.
- PieceMerkle.VerifiedPieceIsListed: likewise with leaves not 51 characters long; piece hashes have 64.
- Text is ASCII; other text raises in `encode("ascii")` and is not part of the model.
- `shard_hashes`, `load_local_shards` and `reconstruct_from_dir`: hashing shards for a manifest and reading them from files.
- Chain.SimulatedBitcoinChain.Submit: the payload kept beside a transaction id is not modelled; work is an integer instead of its hexadecimal text, and `get_block` is left out.
- NullChain: the layer that is switched off; every anchor simply stays where it is.
- AnchorService.AssetAnchor.constructor: the queue object and the choice of a broadcaster are not modelled; the chain is always the simulated one.
- AnchorService.AssetAnchor.Record: asset ids are taken to be stripped and in lower case; note, network, method, creation fields, `meta` beyond root and proof, the fallback to a commitment over the whole manifest without an epoch, and the published message are left out.
- AnchorService.AssetAnchor.RequestBroadcast: the queue entry it appends is left out.
- AnchorService.AssetAnchor.ProcessQueue: the pending entries and the broadcaster's answers are inputs; the queue's own bookkeeping, its limits, its marks and the list of results are not modelled.
- AnchorService.AssetAnchor.ProcessQueueBatched: likewise, and the OP_RETURN payload and the returned summary are left out.
- AnchorService.AssetAnchor.ApplyChainProgress: the list of stored assets is an input, and the theorems about runs assume that it names all of them; scan limits and key filtering are left out.
- Observed copies are keyed by the pair of asset and anchor id instead of one joined string.
- Short payloads in OP_RETURN (`verify_op_return_prefix`).
- ClockVerify.ClockOfRecord: a record without an inclusion time gets observation time 0, not its creation time, which is not modelled.
- TorrentManager.TorrentDownload.OnPieceData: one infohash is modelled with a fixed manifest, and the wrapper in byzantine_receive.py, progress callbacks and failed disk writes are left out.
- TorrentManager.TorrentDownload.StartDownload: replacing the manifest of a running download, fetching a manifest, checking the infohash text and resuming from a complete file of the right size without hashing it are left out.
- TorrentManager.TorrentDownload.OnAnnounce: the stored claim, and the start of a wanted download by an announcement, are left out.
- TorrentManager.TorrentDownload.RecoverStall: the timer that triggers it is left out; it may happen at any time.
- TorrentManager.CreateTorrent: the infohash, the Merkle root, the file name and the tables it fills are left out, and so is creating a torrent for an infohash that is being downloaded.
- Threads: every handler is one step.
- Ledger.BabelLedger.Reward: amounts are exact reals instead of floats; the whole history exists for the proofs only, the program stores its last 2000 entries.
- Ledger.BabelLedger.TransferTo: the memo is not modelled; the limit is one million, as the policy has no `max_transfer`.
- Ledger.BabelLedger.SettleToSats: the tip that is requested in exchange is not modelled.
- Dedup.DedupCache.CheckAndRecord: expiry times are exact reals instead of floats.
- Nonces.HashProcess: hashing the header, comparing with the target and reporting hits are left out; the stop flag is a number of rounds.
- Redis, publish and subscribe, sockets, UDP discovery, subprocesses, Lightning, HTTP routes and the dashboard: input and output.
- Evidence store, artifact history, control plane, route scoring, rule tables, the mining governor and the pool protocol.
