# Equihash (210, 9) solver, its checker, and the mining client around it

This project models the CPU solver of the Aion reference miner and proves what it
computes. The solver looks for 512 indices whose BLAKE2b hashes xor to zero, by
Wagner's algorithm in ten rounds over two heaps that are overwritten in place. Around it
stand the independent checker, the hand-off of jobs to the mining threads, the packing
of solutions, 256-bit arithmetic with the compact format, the Merkle tree, the
variable-length integers and the streaming hashes.

## How it is put together

- `Arith`, `HashBits`: integers, bitwise xor, and bit fields of a 27-byte hash.
- `Wagner`, `Verifier`: the conditions on a proof, flat and as a tree, and the checker
  `verify`, proved to accept exactly the proofs that meet them.
- `Layers`, `SolverTheorems`, `ProofTheorems`: the rounds over explicit trees. A layer
  keeps the arrivals of every bucket in order; the first NSLOTS of them are stored. The
  theorems are about runs in which every round visits its colliding pairs in any order:
  soundness, uniqueness, and completeness up to the trees that were dropped.
- `TreeTag`, `Slots`, `Collisions`, `Memory`, `Ordering`, `Equihash`: tags, slots as
  bytes and words, the linked lists of colliding slots, the two heaps, and the solver
  object itself. Each digit method is proved to take heaps that represent the layers so
  far to heaps that represent the next one too.
- `CpuTromp`: the sequence of rounds with its cancel questions. Everything handed over from
  inside the solution array passes `verify`.
- `Workers`, `WorkerInvariant`, `ConcurrentSolver`, `WorkerTags`, `WorkerProgress`: the
  multi-threaded build as a step system, for any number of workers and any interleaving,
  with torn slots that read as anything. An execution that reaches the last barrier is a
  run, so the same soundness, uniqueness and completeness hold. The tags of finished rounds
  outlive the writes of later ones, and every execution makes a bounded number of steps, but
  for repeated beginnings of writes, and can go on to the last barrier.
- `JobHandoff`, `JobFlow`, `Nonces`: the message handler and one mining thread as a step
  system, what becomes of a job and of a pause in it, and the range of nonces a thread runs
  through in one job.
- `Limbs`, `Uint256`, `Compact`: 256-bit numbers in 32-bit limbs, long division, and the
  compact format of targets.
- `Compress`, `PackedBits`, `Submission`: packing of index vectors.
- `Merkle`, `Bytes`, `VarInt`, `Blake2b`, `Sha256`: the flat Merkle tree, and the
  encodings and hash shells over abstract pair hash, compression and transformation.

Machine words are naturals with their range stated; a shift is a product or a quotient by
a power of two, a mask a remainder, and every wrap-around is written out.

## Where the code differs from what is written about it

- `verifyrec` asks for 21 zero bits per height, 189 at the root, while `digit9` leaves all
  210 bits zero. Both are stated: `Verifier.Verify` for the first, `ProofTheorems.SolverSound`
  for the second.
- `verify` declares its root buffer with WN / 8 = 26 bytes but fills HASHLEN = 27; the
  buffer has 27 bytes here.
- `nsols` counts past MAXSOLS although only MAXSOLS proofs are stored, and the loop that
  hands proofs over runs to `nsols`: with more proofs than MAXSOLS and no cancel it reads
  behind the array (`CpuTromp.Solve` says exactly when).
- The output length that `CompressArray` asserts may ask for bits of an incomplete last
  element; exactly then it reads outside the input (`Compress.CompressArray`, with three
  bytes and 25-bit elements as an instance in `Compress.ThreeBytesTooFew`).
- A number multiplied by itself in place becomes zero (`Uint256.BaseUint.Mul`).
- Two of the examples beside the variable-length integers are misprinted: 16511 is encoded as
  FF 7F and 65535 as 82 FE 7F; what the comment shows stands for 32895 and 65407
  (`VarInt.EncodeExamples`).
- The space reserved for the Merkle tree is called a safe upper bound; it is one only
  while at most 17 levels are odd (`Merkle.ReservedIsEnough`).
- The cancel flag of a mining thread can be lost: after a pause, exactly when the thread
  stood between taking the work and resetting the flag as the flag was raised
  (`JobHandoff.CancelIsLostExactly`, `JobHandoff.CancelCanBeLost`). It is never lost for a
  solve on an older copy (`JobHandoff.StaleSolveIsCancelled`). Raised between the reset and
  the lock it cancels the solve of the very job that raised it
  (`JobHandoff.FreshSolveCancelledExactly`).
- Nothing limits the server's part of a nonce to the nineteen bytes below the thread's
  number. Whether a thread meets the end of its range, and with it whether it comes back to
  nonces that it has tried, depends on the overlap of the two (`Nonces.RangeEndsExactly`,
  `Nonces.NonceRepeatedExactly`), as do the survival of the server's bits
  (`Nonces.ServerBitsKept`) and whether two threads try a common nonce
  (`Nonces.NoncesSharedExactly`). With at most nineteen bytes every thread meets its end, the
  server's bits survive and no nonce of a job is tried twice (`Nonces.NoncesDiffer`).

## Model

| member | source | states |
|---|---|---|
| `Wagner.ProofIsTree` | aion_reference_miner/cpu_tromp/equi.h:114-163 | 512 indices are a Wagner proof (different, and on every aligned block of 2^k ordered with 21k leading zero xor bits) exactly when they are the leaves of an ordered tree of height 9 with those zero prefixes at every node |
| `Wagner.BlocksAreNodes` | aion_reference_miner/cpu_tromp/equi.h:114-138 | for every height r, the conditions on the aligned blocks of a flat list are the conditions on the nodes of its tree |
| `Wagner.TreeXorFold` | aion_reference_miner/cpu_tromp/equi.h:129-130 | the xor of a tree is the xor of its leaf hashes in list order |
| `Wagner.CanonFixed` | aion_reference_miner/cpu_tromp/equi_miner_210.h:485-498 | a tree ordered at every node with different leaves is left alone by the re-ordering of siblings |
| `Wagner.CanonOrdered` | aion_reference_miner/cpu_tromp/equi_miner_210.h:485-498 | re-ordering siblings by their first index makes a tree with different leaves strictly ordered at every node |
| `Wagner.CanonLeaves` | aion_reference_miner/cpu_tromp/equi_miner_210.h:485-498 | re-ordering siblings permutes the leaves and loses none |
| `Wagner.CanonNodeInjective` | aion_reference_miner/cpu_tromp/equi_miner_210.h:485-498 | two nodes become the same after re-ordering only if their halves are the same in one order or the other |
| `Wagner.SameLeaves` | aion_reference_miner/cpu_tromp/equi.h:155-163 | perfect trees of one height, any height, with equal leaf lists are equal |
| `Verifier.GenHash` | aion_reference_miner/cpu_tromp/equi.h:105-112 | the buffer holds bytes 27 (idx % 2) to 27 (idx % 2) + 26 of the 54 bytes of block idx / 2 |
| `Verifier.LeadingBitsZero` | aion_reference_miner/cpu_tromp/equi.h:131-136 | the byte loop and the shifted last byte accept exactly the buffers whose first b bits are zero |
| `Verifier.VerifyRec` | aion_reference_miner/cpu_tromp/equi.h:114-138 | returns the first condition the subtree breaks, and on success leaves its xor in the buffer |
| `Verifier.VerdictExact` | aion_reference_miner/cpu_tromp/equi.h:114-138 | the recursive check passes exactly the trees that are ordered and have all zero prefixes |
| `Verifier.VerdictDef` | aion_reference_miner/cpu_tromp/equi.h:114-138 | the code of a node: out of order if its first indices are, else the code of the left half if that fails, else of the right half, else nonzero xor unless its own 21r bits are zero |
| `Verifier.VerdictCodes` | aion_reference_miner/cpu_tromp/equi.h:114-138 | an ordered tree that lacks a prefix gets POW_NONZERO_XOR, a tree with all prefixes that is not ordered POW_OUT_OF_ORDER, and so does every tree whose root is out of order |
| `Verifier.Duped` | aion_reference_miner/cpu_tromp/equi.h:145-153 | true exactly when some index occurs twice |
| `Verifier.Verify` | aion_reference_miner/cpu_tromp/equi.h:155-163 | POW_OK exactly for Wagner proofs, POW_DUPLICATE exactly for repeated indices, otherwise the first condition broken, order before children before xor |
| `HashBits.XorHashAssoc` | aion_reference_miner/cpu_tromp/equi_miner_210.h:1606-1609 | bytewise xor of hashes is associative, so a stored xor does not depend on the shape of the tree |
| `HashBits.XorFieldZero` | aion_reference_miner/cpu_tromp/equi_miner_210.h:656-659 | a bit range of an xor is zero exactly when the two ranges are equal |
| `HashBits.FieldSplit` | aion_reference_miner/cpu_tromp/equi_miner_210.h:1593-1598 | a bit range is its high part followed by its low part |
| `HashBits.ZeroPrefixExtend` | aion_reference_miner/cpu_tromp/equi.h:131-136 | n more leading bits are zero exactly when the next field of n bits is zero |
| `TreeTag.TagRoundTrip` | aion_reference_miner/cpu_tromp/equi_miner_210.h:165-221 | bucket and both slots come back from the 32-bit tag, and the tag fits 32 bits |
| `TreeTag.TagLayout` | aion_reference_miner/cpu_tromp/equi_miner_210.h:165-221 | the bucket is in the bits from 18 up, the first slot in bits 9 to 17, the second in bits 0 to 8 |
| `TreeTag.CantorLayout` | aion_reference_miner/cpu_tromp/equi_miner_210.h:132-141 | the CANTOR tag is the bucket times the number of pairs, plus the first slot, plus the triangular number of the second |
| `TreeTag.ProbDisjointExact` | aion_reference_miner/cpu_tromp/equi_miner_210.h:223-237 | prob_disjoint refuses exactly the pairs of tags with the same bucket and an equal first or second slot |
| `TreeTag.CantorSlot1` | aion_reference_miner/cpu_tromp/equi_miner_210.h:209-221 | the Newton loop of the CANTOR build ends at the integer square root and gives back the second slot, for every slot pair under the static_assert |
| `TreeTag.CantorRoundTrip` | aion_reference_miner/cpu_tromp/equi_miner_210.h:132-141 | under the static_assert the pair number fits its bits, and bucket and first slot come back |
| `TreeTag.CantorFitsExact` | aion_reference_miner/cpu_tromp/equi_miner_210.h:132-137 | the static_assert holds exactly when the number of every pair of slots is below the room for it |
| `Slots.TagUnitsFall` | aion_reference_miner/cpu_tromp/equi_miner_210.h:268-302 | each reuse of a heap puts its tag unit strictly below the tags that are still needed |
| `Slots.KeptBytesExact` | aion_reference_miner/cpu_tromp/equi_miner_210.h:311-366 | what a slot keeps after round r begins with the byte of bit 21r + 14 of the hash and ends right before the tag, in the fewest units that hold it |
| `Slots.XHashReads` | aion_reference_miner/cpu_tromp/equi_miner_210.h:1563-1939 | in each of the nine rounds the shift and mask expression reads bits 21(r-1) + 14 to 21r - 1 of the stored hash, the seven rest bits of the digit before |
| `Slots.XorBucketReads` | aion_reference_miner/cpu_tromp/equi_miner_210.h:1593-1932 | in each of the eight rounds the expression on the two slots is bits 21r to 21r + 13 of the xor of the two hashes, the bucket bits of the next digit |
| `Slots.EqualLastReads` | aion_reference_miner/cpu_tromp/equi_miner_210.h:656-659 | equal holds exactly when bits 184 to 215, the last 32, of the two hashes are the same |
| `Slots.LastDigitReads` | aion_reference_miner/cpu_tromp/equi_miner_210.h:1975-1978 | the four comparisons of digit9 hold exactly when the last 21 bits of the xor are zero |
| `Slots.CombinedHolds` | aion_reference_miner/cpu_tromp/equi_miner_210.h:1604-1610 | a slot written with the shortened xor holds the kept bytes of the xor of the two hashes |
| `Collisions.CollisionData.Clear` | aion_reference_miner/cpu_tromp/equi_miner_210.h:693-701 | no slot is linked |
| `Collisions.CollisionData.AddSlot` | aion_reference_miner/cpu_tromp/equi_miner_210.h:702-713 | the walk started for a slot is over exactly the earlier slots with its rest bits, in descending order |
| `Collisions.CollisionData.NextCollision` | aion_reference_miner/cpu_tromp/equi_miner_210.h:714-721 | true exactly while the walk has slots left |
| `Collisions.CollisionData.Slot` | aion_reference_miner/cpu_tromp/equi_miner_210.h:722-732 | gives the next slot of the walk; the link followed is strictly smaller, so every walk ends |
| `Collisions.PrevHeads` | aion_reference_miner/cpu_tromp/equi_miner_210.h:702-713 | following the links from a head enumerates the earlier slots with that rest, each once |
| `Layers.PairsInBucketExact` | aion_reference_miner/cpu_tromp/equi_miner_210.h:677-733 | one bucket scan yields exactly the pairs s0 < s1 with equal rest bits, each once |
| `Layers.PairsBelowExact` | aion_reference_miner/cpu_tromp/equi_miner_210.h:1568-1582 | a round visits exactly the colliding pairs of all buckets, each once |
| `Layers.PairsBelowOrdered` | aion_reference_miner/cpu_tromp/equi_miner_210.h:1568-1582 | a round visits them bucket by bucket, the larger slot upwards and the smaller slot downwards |
| `Layers.LeafLayerExact` | aion_reference_miner/cpu_tromp/equi_miner_210.h:774-806 | after n hashes a bucket of round 0 lists exactly the indices below n whose first 14 bits are its number, in ascending order |
| `Layers.RejectedExact` | aion_reference_miner/cpu_tromp/equi_miner_210.h:1583-1586 | a pair is rejected exactly when bits 184 to 215 of the xor of its node are all zero |
| `Layers.PairsAccounted` | aion_reference_miner/cpu_tromp/equi_miner_210.h:1583-1603 | in a round every pair visited is stored, counted in bfull or counted in hfull, and bfull is the excess of the full buckets |
| `Layers.PairCountFits` | aion_reference_miner/cpu_tromp/equi_miner_210.h:1568-1582 | a round visits at most 2^14 * C(512, 2) pairs, which is below 2^32 |
| `Layers.CountersFit` | aion_reference_miner/cpu_tromp/equi_miner_210.h:405-410 | after a round run on any layer, the slot counter of every bucket, bfull, hfull and the number of proofs are below 2^32, so no 32-bit counter wraps |
| `Layers.LeafCountersFit` | aion_reference_miner/cpu_tromp/equi_miner_210.h:405-410 | in round 0 every slot counter and bfull are at most the number of hashes, 2^22 at the end |
| `SolverTheorems.DigitCancels` | aion_reference_miner/cpu_tromp/equi_miner_210.h:1563-1612 | two hashes whose first 21r bits are zero agree on bucket and rest bits of digit r exactly when 21 more bits of their xor are zero |
| `SolverTheorems.AbsorbSound` | aion_reference_miner/cpu_tromp/equi_miner_210.h:1563-1939 | every tree a round stores has 21r leading zero bits at every node of height r, lies in the bucket of its next digit and comes from a colliding pair |
| `SolverTheorems.AbsorbNoTwins` | aion_reference_miner/cpu_tromp/equi_miner_210.h:1563-1939 | a round run on a layer without repeated trees stores no tree twice, not even with siblings swapped |
| `SolverTheorems.AbsorbAll` | aion_reference_miner/cpu_tromp/equi_miner_210.h:1583-1603 | every pair that is not rejected arrives in its bucket |
| `SolverTheorems.LayersOK` | aion_reference_miner/cpu_tromp/equi_miner_210.h:1563-1939 | in every run, whatever the order of visits, each layer holds only good trees, each once |
| `SolverTheorems.SequentialRun` | aion_reference_miner/cpu_tromp/equi_miner_210.h:1563-1939 | the order of visits of one thread makes a run |
| `SolverTheorems.ArrivesExactly` | aion_reference_miner/cpu_tromp/equi_miner_210.h:1583-1603 | a Wagner tree arrives in its layer exactly when both halves were stored and bits 184 to 215 of its xor are not all zero |
| `SolverTheorems.StoredExactly` | aion_reference_miner/cpu_tromp/equi_miner_210.h:1563-1939 | a Wagner tree is stored exactly when none of its subtrees was dropped; node by node: exactly when both halves were stored, bits 184 to 215 of its xor are not all zero and its bucket was not full when it came |
| `ProofTheorems.LastDigit` | aion_reference_miner/cpu_tromp/equi_miner_210.h:1942-1985 | for a tree with 189 leading zero bits the test of the last round means that all 210 bits are zero and no index repeats |
| `ProofTheorems.SolverSound` | aion_reference_miner/cpu_tromp/equi_miner_210.h:533-548 | every proof a search records is a Wagner proof with 210 zero bits over indices below 2^22 |
| `ProofTheorems.SolverUnique` | aion_reference_miner/cpu_tromp/equi_miner_210.h:533-548 | no proof is found twice |
| `ProofTheorems.SolverComplete` | aion_reference_miner/cpu_tromp/equi_miner_210.h:533-548 | a proof is found exactly when neither half of its tree lost a subtree on the way |
| `Memory.TagKept` | aion_reference_miner/cpu_tromp/equi_miner_210.h:268-302 | writing a slot of round r changes no tag of an older or current tree that can still be reached |
| `Memory.StoreKeeps` | aion_reference_miner/cpu_tromp/equi_miner_210.h:1604-1610 | after the words and the tag of a pair are written, the two heaps represent all older layers and one more tree of the new one |
| `Memory.OverflowKeeps` | aion_reference_miner/cpu_tromp/equi_miner_210.h:1599-1603 | a tree turned away by a full bucket changes nothing in memory |
| `Memory.LeafKeeps` | aion_reference_miner/cpu_tromp/equi_miner_210.h:793-805 | after a hash and its index are written, the heap represents one more leaf |
| `Memory.ReadPair` | aion_reference_miner/cpu_tromp/equi_miner_210.h:1577-1598 | what a round reads from two live slots decides rejection, the target bucket and the tag of the tree they make |
| `Memory.ReadRest` | aion_reference_miner/cpu_tromp/equi_miner_210.h:1578-1579 | the rest bits read from a live slot are those of the xor of its tree |
| `Memory.ReadLastPair` | aion_reference_miner/cpu_tromp/equi_miner_210.h:1975-1979 | what the last round reads from two live slots decides whether the last digit of their xor is zero |
| `Memory.Children` | aion_reference_miner/cpu_tromp/equi_miner_210.h:499-531 | following the two slots of a tag leads to the tags of the two halves of its tree |
| `Memory.SharedChild` | aion_reference_miner/cpu_tromp/equi_miner_210.h:223-237 | two trees of one layer that prob_disjoint refuses have a leaf in common |
| `Ordering.OrderIndices` | aion_reference_miner/cpu_tromp/equi_miner_210.h:485-498 | the two halves end up swapped exactly when the first starts with the larger index |
| `Ordering.JoinHalves` | aion_reference_miner/cpu_tromp/equi_miner_210.h:514 | after ordering, a duplicate is reported exactly when the two first indices are equal; that means a repeated leaf, otherwise the ordered halves make an ordered tree, and the range holds its leaves |
| `Equihash.Equi.constructor` | aion_reference_miner/cpu_tromp/equi_miner_210.h:416-429 | the heaps and counters are allocated, all slot counters are zero |
| `Equihash.Equi.GetSlot` | aion_reference_miner/cpu_tromp/equi_miner_210.h:450-467 | the old count is returned and only that counter grows by one, also past NSLOTS |
| `Equihash.Equi.GetNSlots` | aion_reference_miner/cpu_tromp/equi_miner_210.h:468-483 | the count capped at NSLOTS is returned and only that counter becomes zero |
| `Equihash.Equi.StoreTree` | aion_reference_miner/cpu_tromp/equi_miner_210.h:1604-1610 | the next free slot of the bucket comes to hold the tree of the pair, and nothing older is lost |
| `Equihash.Equi.HandlePair` | aion_reference_miner/cpu_tromp/equi_miner_210.h:1580-1611 | one colliding pair is rejected, turned away or stored just as the layer model says, with bfull and hfull growing alike |
| `Equihash.Equi.ScanSlot` | aion_reference_miner/cpu_tromp/equi_miner_210.h:1575-1611 | one slot adds exactly its pairs with earlier slots, in the order of the links |
| `Equihash.Equi.ScanBucket` | aion_reference_miner/cpu_tromp/equi_miner_210.h:1573-1612 | one bucket adds exactly its colliding pairs |
| `Equihash.Equi.DigitRound` | aion_reference_miner/cpu_tromp/equi_miner_210.h:1563-1939 | digit1 to digit8: from heaps that represent layers 0 to r-1, to heaps that represent layers 0 to r, with the increments of bfull and hfull |
| `Equihash.Equi.HandleIndex` | aion_reference_miner/cpu_tromp/equi_miner_210.h:774-806 | one hash is put into the bucket of its first 14 bits, or counted as overflow |
| `Equihash.Equi.Digit0` | aion_reference_miner/cpu_tromp/equi_miner_210.h:744-809 | all 2^22 hashes are in place, and bfull has grown by those that found their bucket full |
| `Equihash.Equi.ListIndices0` | aion_reference_miner/cpu_tromp/equi_miner_210.h:499-516 | on a tag of even height: a duplicate is reported only if a leaf repeats, otherwise the leaves are written in canonical order and at every node the first indices of the two halves differ |
| `Equihash.Equi.ListIndices1` | aion_reference_miner/cpu_tromp/equi_miner_210.h:517-531 | the same for a tag of odd height, without the prob_disjoint shortcut |
| `Equihash.Equi.Candidate` | aion_reference_miner/cpu_tromp/equi_miner_210.h:532-548 | the canonical leaves are recorded exactly when no index repeats; nsols counts all, the array keeps the first MAXSOLS |
| `Equihash.Equi.HandleLastPair` | aion_reference_miner/cpu_tromp/equi_miner_210.h:1969-1982 | a pair whose last 21 bits agree becomes a candidate, every other is passed over |
| `Equihash.Equi.Digit9` | aion_reference_miner/cpu_tromp/equi_miner_210.h:1942-1985 | the proofs of the search are recorded in the order found, and both tables of slot counters are zero |
| `CpuTromp.MiddleRounds` | aion_reference_miner/cpu_tromp/cpu_tromp.cpp:29-75 | digit1 to digit8 run one after another unless a cancel question is answered yes; then the heaps represent the layer of height 8 |
| `CpuTromp.Deliver` | aion_reference_miner/cpu_tromp/cpu_tromp.cpp:86-94 | entry after entry of the solution array is handed over in the order found, each before its cancel question: some entry if any proof was found, none after the first yes, and fewer than were found only if the last question was answered yes; the loop reads behind the array exactly when it hands over more than MAXSOLS entries |
| `CpuTromp.Solve` | aion_reference_miner/cpu_tromp/cpu_tromp.cpp:16-97 | a yes to one of the first ten questions hands over nothing; otherwise entry after entry for the proofs found, at least one if there is any, none after the first yes, and all without a yes; hashdonef is reached exactly without any yes; entries behind the array are read exactly when more than MAXSOLS are handed over, and as long as none is, what is handed over is a prefix of the proofs found |
| `CpuTromp.DeliveredVerify` | aion_reference_miner/cpu_tromp/equi.h:155-163 | every proof handed over meets the conditions of verify, with all 210 bits zero |
| `CpuTromp.SolveThenVerify` | aion_reference_miner/cpu_tromp/equi.h:155-163 | verify answers POW_OK on everything that solve hands over from inside the solution array, so on all of it unless the loop overran, and on what lies behind only if that happens to be a proof |
| `ConcurrentSolver.ExecutionInv` | aion_reference_miner/cpu_tromp/equi_miner_210.h:2026-2073 | an invariant of control, counters, heaps, claims and history holds in every state of every interleaving of any number of workers |
| `ConcurrentSolver.WorkersApart` | aion_reference_miner/cpu_tromp/equi_miner_210.h:450-467 | at any moment two workers write to different slots or solutions, and no bucket is in the hands of two workers |
| `ConcurrentSolver.NoSlotTwice` | aion_reference_miner/cpu_tromp/equi_miner_210.h:450-467 | claims made at different steps of one round are for different slots |
| `ConcurrentSolver.ClaimAt` | aion_reference_miner/cpu_tromp/equi_miner_210.h:450-467 | the number a claim gets is the number of earlier arrivals in that bucket |
| `ConcurrentSolver.ReadsAreWhole` | aion_reference_miner/cpu_tromp/equi_miner_210.h:2035-2073 | a slot that a scanning worker may read is completely written and holds what the round before stored there |
| `ConcurrentSolver.WritesTear` | aion_reference_miner/cpu_tromp/equi_miner_210.h:1604-1610 | from the first part of a write on a reader may find anything in the slot, and from its end exactly the tree |
| `ConcurrentSolver.HeapsApart` | aion_reference_miner/cpu_tromp/equi_miner_210.h:2035-2073 | no heap is read and written in the same round |
| `WorkerInvariant.RoundPairs` | aion_reference_miner/cpu_tromp/equi_miner_210.h:1568-1582 | when every bucket has been scanned to its end the pairs handled are the colliding pairs of the layer, each once |
| `WorkerInvariant.RoundLeaves` | aion_reference_miner/cpu_tromp/equi_miner_210.h:744-809 | when every block has been hashed every index sits in its bucket, once |
| `WorkerInvariant.OpenKeeps` | aion_reference_miner/cpu_tromp/equi_miner_210.h:2026-2034 | when the barrier opens, the layer just built is whole in its heap, its counters stand, and those of the other heap are zero |
| `WorkerInvariant.HandlePairKeeps` | aion_reference_miner/cpu_tromp/equi_miner_210.h:1580-1611 | one pair handled by one worker, with its fetch-and-add, keeps the invariant |
| `ConcurrentSolver.ConcurrentSearch` | aion_reference_miner/cpu_tromp/equi_miner_210.h:2035-2073 | after the last barrier the layers form a run, the numbered proofs are those its last round finds, the first MAXSOLS are stored and all counters are zero |
| `ConcurrentSolver.ConcurrentSound` | aion_reference_miner/cpu_tromp/equi_miner_210.h:533-548 | every proof left by the workers is a full proof, and no two are the same, for every interleaving |
| `ConcurrentSolver.ConcurrentComplete` | aion_reference_miner/cpu_tromp/equi_miner_210.h:533-548 | a full proof is among them exactly when no subtree of its halves was dropped in this interleaving |
| `WorkerTags.TagsOutliveRounds` | aion_reference_miner/cpu_tromp/equi_miner_210.h:268-302 | in every state of every interleaving each tree that a finished round stored still has its tag (the index, or bucket and slots) at that round's tag unit, also while a later round has the slot half written, and following the tags from there gives the tree |
| `WorkerTags.FollowGives` | aion_reference_miner/cpu_tromp/equi_miner_210.h:499-531 | following a tag down the tag units of the finished rounds, as listindices does, gives the tree that it stands for |
| `WorkerTags.TagsGiveTree` | aion_reference_miner/cpu_tromp/equi_miner_210.h:1969-1982 | in every state of every interleaving, following the tags down from the two slots of the pair a worker handles, in the last round from height 8 to 0, gives the tree it read from the two slots |
| `WorkerTags.ProofsAreListed` | aion_reference_miner/cpu_tromp/equi_miner_210.h:533-548 | every proof found in any interleaving is the canonical list of the leaves that following the tags gives, at the step of the last round that handled its pair |
| `WorkerTags.HistoryKept` | aion_reference_miner/cpu_tromp/equi_miner_210.h:268-302 | a write of the current round reaches no tag unit of an earlier round |
| `WorkerProgress.StepFalls` | aion_reference_miner/cpu_tromp/equi_miner_210.h:2035-2073 | every step of every worker and of the barrier lowers the measure, except that a write that has begun may begin again |
| `WorkerProgress.WorkIsBounded` | aion_reference_miner/cpu_tromp/equi_miner_210.h:2035-2073 | no execution has more steps, but for repeated beginnings of writes, than the measure of its first state |
| `WorkerProgress.FirstMeasure` | aion_reference_miner/cpu_tromp/equi_miner_210.h:2035-2073 | that measure is bounded by a number that depends on the number of workers alone |
| `WorkerProgress.RunsToTheEnd` | aion_reference_miner/cpu_tromp/equi_miner_210.h:2035-2073 | every execution can be continued to one in which the last barrier has opened |
| `WorkerProgress.NeverStuck` | aion_reference_miner/cpu_tromp/equi_miner_210.h:2026-2073 | until the last barrier has opened a step that lowers the measure is possible |
| `JobHandoff.ExecutionInv` | aion_reference_miner/aionminer/libstratum/AionStratum.cpp:107-174 | an invariant of lock, shared fields, flags, the thread's copy, the pause flag and the way of a job holds in every interleaving of messages and mining |
| `JobHandoff.SubmissionsOfOneJob` | aion_reference_miner/aionminer/libstratum/AionStratum.cpp:151-174 | header, job id, time and target of every submission come from one job that was handled |
| `JobHandoff.OneStaleSolve` | aion_reference_miner/aionminer/libstratum/AionStratum.cpp:376-399 | between two messages the thread starts at most one solve on a copy older than the last message |
| `JobHandoff.PauseStopsMining` | aion_reference_miner/aionminer/libstratum/AionStratum.cpp:127-131 | after a message without a job at most one solve of any kind is started, and a waiting thread keeps waiting |
| `JobHandoff.StaleSolveIsCancelled` | aion_reference_miner/aionminer/libstratum/AionStratum.cpp:122-131 | a solve on a copy older than a cancelling message sees the cancel flag until the next message |
| `JobHandoff.CancelIsLostExactly` | aion_reference_miner/aionminer/libstratum/AionStratum.cpp:122-149 | while the last message is one that cancels, a solve sees its flag down exactly when the thread was about to reset the flag at the moment it was raised, or has since taken the work waiting at that moment; after a pause only the first can be |
| `JobHandoff.FreshSolveCancelledExactly` | aion_reference_miner/aionminer/libstratum/AionStratum.cpp:122-165 | a solve on the copy made from the last message is cancelled by that message exactly when the flag was raised between the thread's reset and its lock and has not been reset since |
| `JobHandoff.CancelCanBeLost` | aion_reference_miner/aionminer/libstratum/AionStratum.cpp:147-149 | an execution in which the flag raised by the last message is reset before the copy is taken, so that a solve runs with the flag down |
| `JobHandoff.CleanJobCanCancelItself` | aion_reference_miner/aionminer/libstratum/AionStratum.cpp:119-125 | an execution in which a clean job cancels the solve that works on it |
| `JobFlow.PauseExactly` | aion_reference_miner/aionminer/libstratum/AionStratum.cpp:107-133 | in every execution, between two messages the pause flag is up exactly when the last message was a pause |
| `JobFlow.JobGoesOn` | aion_reference_miner/aionminer/libstratum/AionStratum.cpp:389-399 | after a job, a thread at its test for newer work with none waiting passes that test and the test for a pause, changes nothing, and starts on its next nonce |
| `JobFlow.ThreadTests` | aion_reference_miner/aionminer/libstratum/AionStratum.cpp:389-399 | the test for newer work sends the thread to wait exactly when work waits, the test for a pause exactly when the flag is up, else to the next test or nonce |
| `JobFlow.JobNotLost` | aion_reference_miner/aionminer/libstratum/AionStratum.cpp:107-174 | after a job with no work waiting the thread is about to copy it or works on it: header, job id, time and target of its copy are those of that job |
| `JobFlow.FlagsChange` | aion_reference_miner/aionminer/libstratum/AionStratum.cpp:107-149 | in every step of every execution: the cancel flag goes up only in a pause or a clean job and down only at the thread's reset, the pause flag goes up only in a pause and down only in a job, work becomes ready only in a job and is taken only by the thread or a pause, and the fields change only in a job |
| `JobFlow.SubmitsItsJob` | aion_reference_miner/aionminer/libstratum/AionStratum.cpp:226-362 | whatever is added to the submissions is added one at a time in the middle of a solve, and is the last job among the messages that were handled before the thread copied |
| `JobFlow.NotTwice` | aion_reference_miner/aionminer/libstratum/AionStratum.cpp:376-399 | of two solves begun between the same two messages at most one is on a copy older than the last message, and after a pause there are no two |
| `JobFlow.JobIsHandled` | aion_reference_miner/aionminer/libstratum/AionStratum.cpp:107-125 | a job handled while the thread takes no step: all fields are its own, the pause ends, work is ready, and the cancel flag goes up exactly if it is clean |
| `JobFlow.PauseIsHandled` | aion_reference_miner/aionminer/libstratum/AionStratum.cpp:126-131 | a pause handled while the thread takes no step: no work is ready, the cancel and the pause flag are up, the fields stay |
| `JobFlow.JobIsTaken` | aion_reference_miner/aionminer/libstratum/AionStratum.cpp:137-174 | a waiting thread with work ready and the lock free can come to start on exactly the fields that are there, with the work taken and the cancel flag down |
| `JobFlow.NonceIsTried` | aion_reference_miner/aionminer/libstratum/AionStratum.cpp:376-399 | a thread that starts can solve, submit what it found, and comes to start again exactly when its range has not ended, no work waits and no pause is on, else to wait |
| `JobFlow.ThreadEnds` | aion_reference_miner/aionminer/libstratum/AionStratum.cpp:141-147 | a thread told to end can end where it waits and where it would begin a solve |
| `Nonces.ServerIncrement` | aion_reference_miner/aionminer/libstratum/AionStratum.cpp:594-595 | 2^bits modulo 2^256, the step that leaves the bits fixed by the server alone |
| `Nonces.ThreadBase` | aion_reference_miner/aionminer/libstratum/AionStratum.cpp:161-164 | the server's nonce or the thread's number shifted to bit 152, for every server nonce |
| `Nonces.NonceExact` | aion_reference_miner/aionminer/libstratum/AionStratum.cpp:376-387 | the nonce after k solves is the bitwise or of the server's nonce and the thread's number at bit 152, plus k times 2^bits, modulo 2^256; the end is met when that is the start of the next thread, the first nonce excepted |
| `Nonces.MineRange` | aion_reference_miner/aionminer/libstratum/AionStratum.cpp:376-399 | one job, for every server nonce and length: the nonces tried are the start plus multiples of 2^bits modulo 2^256, in order, up to the first that meets the end, which are then all that the thread comes to, or up to the interruption |
| `Nonces.RangeEndsExactly` | aion_reference_miner/aionminer/libstratum/AionStratum.cpp:385-387 | for every server nonce of any length, the test for the end of the range is met after some solves exactly when the starts of this thread and the next agree in the bits the server fixes, wrap-around included |
| `Nonces.RangeLength` | aion_reference_miner/aionminer/libstratum/AionStratum.cpp:385-387 | while the server fixes at most 152 bits that is so, and the end is met first after 2^(152-bits) solves |
| `Nonces.ServerBitsKept` | aion_reference_miner/aionminer/libstratum/AionStratum.cpp:161-164 | a nonce keeps the server's bits exactly when the bits of the thread's number that reach into them are already set there; always while the server fixes at most 152 bits |
| `Nonces.NoncesDiffer` | aion_reference_miner/aionminer/libstratum/AionStratum.cpp:161-164 | while the server fixes at most 152 bits, all nonces of one job are different, within a thread and between threads |
| `Nonces.NoncesSharedExactly` | aion_reference_miner/aionminer/libstratum/AionStratum.cpp:161-164 | for every server nonce: two threads, each going on until it meets its end, come to a common nonce never while at most 152 bits are fixed, and otherwise exactly when their starts agree in the server's bits and are equal or at least one of the two does not end after its first solve |
| `Nonces.EndAtOnceExactly` | aion_reference_miner/aionminer/libstratum/AionStratum.cpp:383-387 | with 153 to 255 bits fixed a thread ends after its first solve exactly when its start and the next thread's agree in the server's bits and the next number of a thread ends in zeros there |
| `Nonces.NonceRepeatedExactly` | aion_reference_miner/aionminer/libstratum/AionStratum.cpp:376-399 | for every server nonce a thread comes back to a nonce it has tried, before its end, exactly when it has no end: when its start and the next thread's differ in the server's bits |
| `Nonces.BothEndAtOnce` | aion_reference_miner/aionminer/libstratum/AionStratum.cpp:575-596 | with twenty bytes fixed, the last of them 255, the threads 255 and 511 have different starts that agree in the server's bits, each ends after one solve, and they share no nonce |
| `Nonces.TwentyBytesSharedStart` | aion_reference_miner/aionminer/libstratum/AionStratum.cpp:575-596 | with twenty bytes fixed, the last of them 1, threads 0 and 1 start on one nonce, and thread 0 meets its end first after 2^96 solves |
| `Nonces.TwentyZeroBytes` | aion_reference_miner/aionminer/libstratum/AionStratum.cpp:575-596 | with twenty zero bytes fixed, thread 1 changes the server's bits and thread 0 never meets its end |
| `Limbs.ShiftUpValue` | aion_reference_miner/aionminer/arith_uint256.cpp:22-36 | shifting limbs up by less than a limb multiplies by the power of two, but for what leaves at the top |
| `Limbs.ShiftDownValue` | aion_reference_miner/aionminer/arith_uint256.cpp:38-53 | shifting limbs down by less than a limb divides by the power of two |
| `Limbs.ValueOrder` | aion_reference_miner/aionminer/arith_uint256.cpp:109-119 | the highest limb that differs decides which number is larger |
| `Limbs.OrDisjoint` | aion_reference_miner/aionminer/arith_uint256.cpp:30-34 | or of bits that do not overlap is their sum |
| `Limbs.OrBit` | aion_reference_miner/aionminer/arith_uint256.h:111-116 | a bit of the or is set exactly when it is set in one of the two |
| `Limbs.AndBit` | aion_reference_miner/aionminer/libstratum/AionStratum.cpp:47-63 | a bit of the and is set exactly when it is set in both |
| `Uint256.ShiftLeftValue` | aion_reference_miner/aionminer/arith_uint256.cpp:22-36 | limbs moved and shifted up have the value times 2^shift modulo 2^256, for every shift |
| `Uint256.ShiftRightValue` | aion_reference_miner/aionminer/arith_uint256.cpp:38-53 | limbs moved and shifted down have the value divided by 2^shift, for every shift |
| `Uint256.BaseUint.ShiftLeft` | aion_reference_miner/aionminer/arith_uint256.cpp:21-36 | multiplication by 2^shift modulo 2^256 |
| `Uint256.BaseUint.ShiftRight` | aion_reference_miner/aionminer/arith_uint256.cpp:37-53 | division by 2^shift rounding down |
| `Uint256.BaseUint.MulWord` | aion_reference_miner/aionminer/arith_uint256.cpp:55-65 | product with a 32-bit word modulo 2^256; every intermediate fits 64 bits |
| `Uint256.BaseUint.MulRow` | aion_reference_miner/aionminer/arith_uint256.cpp:72-78 | one row of the schoolbook product; every intermediate fits 64 bits |
| `Uint256.BaseUint.Mul` | aion_reference_miner/aionminer/arith_uint256.cpp:67-81 | product modulo 2^256 when the operand is another number; zero when it is the number itself, which is cleared before it is read |
| `Uint256.BaseUint.Div` | aion_reference_miner/aionminer/arith_uint256.cpp:83-107 | refuses zero, with this number cleared; otherwise the exact quotient, and the local remainder is the dividend modulo the divisor |
| `Uint256.AlignExact` | aion_reference_miner/aionminer/arith_uint256.cpp:94-95 | shifting the divisor up to the dividend loses no bits |
| `Uint256.ClearBelow` | aion_reference_miner/aionminer/arith_uint256.cpp:97-100 | the quotient bit that is set was clear, so or is addition and the limb does not overflow |
| `Uint256.BaseUint.CompareTo` | aion_reference_miner/aionminer/arith_uint256.cpp:109-119 | -1, 0 or 1 as the value is below, equal to or above that of the operand |
| `Uint256.BaseUint.EqualTo` | aion_reference_miner/aionminer/arith_uint256.cpp:121-133 | true exactly when the value is the 64-bit number |
| `Uint256.BaseUint.Bits` | aion_reference_miner/aionminer/arith_uint256.cpp:171-184 | zero for zero, otherwise the r with 2^(r-1) <= value < 2^r |
| `Uint256.BaseUint.Add` | aion_reference_miner/aionminer/arith_uint256.h:135-145 | sum modulo 2^256, also when the operand is the number itself |
| `Uint256.BaseUint.OrAssign` | aion_reference_miner/aionminer/arith_uint256.h:111-116 | the bitwise or of the two values |
| `Uint256.BaseUint.Equals` | aion_reference_miner/aionminer/arith_uint256.h:220 | true exactly when the values are equal |
| `Uint256.BaseUint.Negate` | aion_reference_miner/aionminer/arith_uint256.h:77-84 | 2^256 minus the value, modulo 2^256 |
| `Uint256.BaseUint.Sub` | aion_reference_miner/aionminer/arith_uint256.h:147-151 | difference modulo 2^256 |
| `Uint256.BaseUint.Increment` | aion_reference_miner/aionminer/arith_uint256.h:173-180 | value plus one modulo 2^256 |
| `Uint256.BaseUint.Decrement` | aion_reference_miner/aionminer/arith_uint256.h:190-197 | value minus one modulo 2^256 |
| `Uint256.BaseUint.Assign` | aion_reference_miner/aionminer/arith_uint256.h:88-95 | the value is the 64-bit number |
| `Uint256.BaseUint.GetLow64` | aion_reference_miner/aionminer/arith_uint256.h:245-249 | the value modulo 2^64 |
| `Compact.SetCompact` | aion_reference_miner/aionminer/arith_uint256.cpp:204-222 | the value is mantissa * 256^(exponent-3) modulo 2^256; overflow exactly when that needs more than 256 bits; negative exactly when the sign bit is set and it is not zero |
| `Compact.OverflowExact` | aion_reference_miner/aionminer/arith_uint256.cpp:204-222 | for every compact word the three comparisons of the flag hold exactly when mantissa * 256^(exponent-3), rounded down, is at least 2^256 |
| `Compact.GetCompact` | aion_reference_miner/aionminer/arith_uint256.cpp:224-244 | the encoding of the value; both assertions of the original hold |
| `Compact.CompactRoundTrip` | aion_reference_miner/aionminer/arith_uint256.cpp:204-244 | decoding an encoded 256-bit number never overflows, is below it by less than one unit of the last mantissa bit, and encodes to the same word |
| `Compact.FieldsExact` | aion_reference_miner/aionminer/arith_uint256.cpp:204-222 | a word of exponent byte e, sign bit s and mantissa m has these fields and stands for m * 256^(e-3), rounded down |
| `Compact.CompactNormal` | aion_reference_miner/aionminer/arith_uint256.cpp:224-244 | zero is the word 0; otherwise the mantissa is at least 0x8000, is exact up to an exponent of 3 and else the number without its low bytes, and the sign bit is the flag given |
| `Compress.ReadElement` | aion_reference_miner/aionminer/libstratum/AionStratum.cpp:47-60 | the bytes of one element under the mask are its low bit_len bits, placed below what the accumulator keeps |
| `Compress.PackedRead` | aion_reference_miner/aionminer/libstratum/AionStratum.cpp:47-60 | the 32-bit shift of the accumulator pushes out only bits that were already written |
| `Compress.PackedWrite` | aion_reference_miner/aionminer/libstratum/AionStratum.cpp:62-63 | the byte written is the next eight bits of the sequence |
| `Compress.CompressArray` | aion_reference_miner/aionminer/libstratum/AionStratum.cpp:29-65 | for an input of any length, all reads stay inside it exactly when its whole elements hold the bits of the asserted output length, and then the output is the first 8 * out_len bits of their big-endian concatenation |
| `Compress.OutputLength` | aion_reference_miner/aionminer/libstratum/AionStratum.cpp:34-35 | the asserted output length leaves fewer than eight bits of the whole elements out, and asks for no more than they hold when the input consists of whole elements |
| `Compress.ReadsOutside` | aion_reference_miner/aionminer/libstratum/AionStratum.cpp:41-60 | in every state of the loop in which the accumulator has run short before all bytes are written, the next element ends outside the input exactly when all whole elements have been read, and then they do not hold the bits asked for |
| `Compress.GetMinimalFromIndices` | aion_reference_miner/aionminer/libstratum/AionStratum.cpp:67-87 | the packed low cBitLen + 1 bits of the indices |
| `PackedBits.MinimalBit` | aion_reference_miner/aionminer/libstratum/AionStratum.cpp:67-87 | bit i of byte k, from the top, is bit e of the low bits of index d, from the top, wherever 8k + i is (cBitLen + 1) d + e; the output has as many whole bytes as the bits fill |
| `PackedBits.CompressedBit` | aion_reference_miner/aionminer/libstratum/AionStratum.cpp:29-65 | the same for CompressArray, down to the byte of the input that holds the bit |
| `Compress.PackingInjective` | aion_reference_miner/aionminer/libstratum/AionStratum.cpp:29-65 | when the bits fill the bytes, vectors of indices below 2^bit_len that pack alike are equal |
| `Compress.PackingLosesBits` | aion_reference_miner/aionminer/libstratum/AionStratum.cpp:29-65 | otherwise two different vectors of every length pack alike |
| `Submission.ProofsPackApart` | aion_reference_miner/aionminer/libstratum/AionStratum.cpp:235-241 | a proof packs into 1408 bytes, and different proofs pack differently |
| `Merkle.Block.BuildMerkleTree` | aion_reference_miner/aionminer/primitives/block.cpp:60-85 | the vector holds the levels from the transactions up, one after another, the result is the one node of the last, and the flag is set exactly when some level of an even number of two or more nodes ends in two equal ones |
| `Merkle.Block.GetMerkleBranch` | aion_reference_miner/aionminer/primitives/block.cpp:87-101 | one entry for every level of more than one node: the sibling, in that level, of the node above the leaf, the last node standing in for a missing one; a negative index is harmless only when there is no level to read |
| `Merkle.Block.CheckMerkleBranch` | aion_reference_miner/aionminer/primitives/block.cpp:103-116 | zero for index -1, otherwise the hash folded up along the branch |
| `Merkle.MutatedExact` | aion_reference_miner/aionminer/primitives/block.cpp:60-85 | the flag in terms of the levels: some level, the k-fold pairing of the transactions, is even and ends in two equal nodes |
| `Merkle.LevelsExact` | aion_reference_miner/aionminer/primitives/block.cpp:60-85 | the number of levels of more than one node, and the root as the one node above them |
| `Merkle.TreeLevels` | aion_reference_miner/aionminer/primitives/block.cpp:60-85 | the tree is the concatenation of the levels |
| `Merkle.BranchLeadsToRoot` | aion_reference_miner/aionminer/primitives/block.cpp:87-116 | for every list and every index in it, the leaf folded along its branch is the root |
| `Merkle.FoldExact` | aion_reference_miner/aionminer/primitives/block.cpp:103-116 | for every index: at each level the hash is joined with the entry, on the left where the index of that level is odd and on the right where it is even |
| `Merkle.OnlyLeafLeadsToRoot` | aion_reference_miner/aionminer/primitives/block.cpp:103-116 | only that leaf and that branch of the right length lead to the root, unless a pair hashed along the branch collides with a different pair hashed in the tree |
| `Merkle.BranchChecks` | aion_reference_miner/aionminer/primitives/block.cpp:60-116 | building, taking a branch and checking it gives back the root |
| `Merkle.RootDetermines` | aion_reference_miner/aionminer/primitives/block.cpp:30-59 | two lists with as many levels, the same root and no flag are equal, unless a pair hashed for one collides with a different pair hashed for the other |
| `Merkle.RepeatedEndKeepsRoot` | aion_reference_miner/aionminer/primitives/block.cpp:30-59 | repeating the last node of an odd list keeps the root and is flagged |
| `Merkle.LevelsMatter` | aion_reference_miner/aionminer/primitives/block.cpp:60-85 | lists with different numbers of levels can have the same root |
| `Merkle.ReservedIsEnough` | aion_reference_miner/aionminer/primitives/block.cpp:62 | the space reserved holds all nodes exactly when at most 17 levels are odd |
| `Merkle.ReservedCanBeShort` | aion_reference_miner/aionminer/primitives/block.cpp:62 | for 2^19 + 1 transactions it does not |
| `VarInt.GetSizeOfVarInt` | aion_reference_miner/aionminer/serialize.h:338-349 | the number of digits of the encoding |
| `VarInt.EncodeFits` | aion_reference_miner/aionminer/serialize.h:354 | a number of so many bits has at most (bits + 6) / 7 digits, so the buffer is large enough |
| `VarInt.WriteVarInt` | aion_reference_miner/aionminer/serialize.h:351-366 | the encoding is appended to the stream |
| `VarInt.ReadVarInt` | aion_reference_miner/aionminer/serialize.h:368-380 | reads up to the first byte without the high bit, and gives the value of those bytes modulo 2^bits |
| `VarInt.ReadUndoesWrite` | aion_reference_miner/aionminer/serialize.h:351-380 | reading after writing gives the number back and leaves what follows alone |
| `VarInt.EncodeOfValue` | aion_reference_miner/aionminer/serialize.h:314-336 | every terminated byte string is the encoding of its value |
| `VarInt.ValueOfEncode` | aion_reference_miner/aionminer/serialize.h:314-336 | the value of an encoding is the number encoded |
| `VarInt.EncodeOrder` | aion_reference_miner/aionminer/serialize.h:314-336 | of two numbers the smaller has the shorter encoding, or one as long that is smaller in the first byte that differs |
| `VarInt.EncodeExamples` | aion_reference_miner/aionminer/serialize.h:330-336 | the examples of the comment as the code encodes them, two of them corrected |
| `VarInt.ReadIsCanonical` | aion_reference_miner/aionminer/serialize.h:368-380 | the bytes read are the encoding of the number returned exactly when their value fits its type |
| `VarInt.GetSizeOfCompactSize` | aion_reference_miner/aionminer/serialize.h:249-255 | the length of the encoding |
| `VarInt.CompactBytes` | aion_reference_miner/aionminer/serialize.h:242-280 | the bytes of a size: itself below 253, else 253, 254 or 255 and its two, four or eight bytes, least significant first |
| `VarInt.WriteCompactSize` | aion_reference_miner/aionminer/serialize.h:257-280 | the encoding is appended to the stream |
| `VarInt.ReadCompactSize` | aion_reference_miner/aionminer/serialize.h:282-312 | the size at the front of the stream, or which of the three failures it is |
| `VarInt.ReadSizeExact` | aion_reference_miner/aionminer/serialize.h:282-312 | a size is read exactly from its own encoding, and only up to MAX_SIZE |
| `VarInt.ReadSizeFailures` | aion_reference_miner/aionminer/serialize.h:282-312 | on the bytes: end of data exactly when the width that the first byte asks for is not there, non-canonical exactly when a shorter width would have held the size, too large exactly when it is above MAX_SIZE otherwise |
| `Blake2b.Blake2bState.constructor` | aion_reference_miner/blake2/blake2bx.cpp:54-67 | the state after initialisation stands for the empty input |
| `Blake2b.Blake2bState.Update` | aion_reference_miner/blake2/blake2bx.cpp:196-222 | the state stands for the old input followed by the new, however it is split |
| `Blake2b.Blake2bState.Final` | aion_reference_miner/blake2/blake2bx.cpp:225-245 | the digest of all input, cut to the length asked for, byte 8i + j being word i of the last chaining value shifted right by 8j bits, modulo 256; a length above 64 is refused |
| `Blake2b.DigestIsRfc` | aion_reference_miner/blake2/blake2bx.cpp:196-245 | below 2^16 bytes the digest is that of section 3.3 of RFC 7693, whose last block is filled with zeros and whose words are put out least significant byte first, both written out byte by byte |
| `Blake2b.HashBytesAt` | aion_reference_miner/blake2/blake2bx.cpp:240-242 | byte j of word i of the chaining value in memory is the word shifted right by 8j bits, modulo 256 |
| `Blake2b.ChainedExact` | aion_reference_miner/blake2/blake2bx.cpp:196-222 | the chaining value is the end of any list that begins with the first one and goes on by compressing block after block, with the count of bytes so far modulo 2^16 and no last-block flag |
| `Blake2b.FinalChainExact` | aion_reference_miner/blake2/blake2bx.cpp:225-242 | the last block is what the whole blocks before leave, never empty unless the message is, filled with zeros, with the length modulo 2^16 and the last-block flag |
| `Blake2b.SetHeader` | aion_reference_miner/cpu_tromp/equi.h:47-71 | the midstate stands for header and nonce |
| `Blake2b.GenHashFrom` | aion_reference_miner/cpu_tromp/equi.h:105-112 | a copy of the midstate gives bytes 27 (idx % 2) to 27 (idx % 2) + 26 of the digest of header, nonce and the four bytes of idx / 2, and leaves the midstate alone |
| `Sha256.CSHA256.Write` | aion_reference_miner/aionminer/crypto/sha256.cpp:142-166 | the state stands for the old input followed by the new, whole blocks transformed in order |
| `Sha256.CSHA256.Finalize` | aion_reference_miner/aionminer/crypto/sha256.cpp:168-193 | the 32 bytes put out are the big-endian words of the state of the message padded as in section 5.1.1 of FIPS 180-4, with the length modulo 2^64 bits |
| `Sha256.CSHA256.FinalizeNoPadding` | aion_reference_miner/aionminer/crypto/sha256.cpp:178-193 | the words of the state as bytes, or a refusal that leaves the output alone when a single block is demanded and another length was written |
| `Sha256.WordBytesInjective` | aion_reference_miner/aionminer/crypto/sha256.cpp:184-191 | the digest bytes determine the words of the state |
| `Sha256.WordBytesAt` | aion_reference_miner/aionminer/crypto/sha256.cpp:184-191 | byte j of word i is the word shifted right by 8 (3 - j) bits, modulo 256 |
| `Sha256.ChainedExact` | aion_reference_miner/aionminer/crypto/sha256.cpp:142-166 | the state is the end of any list of states that begins with the first one and goes on by the transformation of block after block |
| `Sha256.PaddedExact` | aion_reference_miner/aionminer/crypto/sha256.cpp:168-176 | the padded message byte by byte: the message, 0x80, the fewest zeros, and the length in bits modulo 2^64 in the last eight bytes, most significant first |
| `Bytes.BigEndianAt` | aion_reference_miner/aionminer/crypto/sha256.cpp:168-191 | byte i of k bytes, most significant first, is the number shifted right by 8 (k - 1 - i) bits, modulo 256 |
| `Bytes.LittleEndianAt` | aion_reference_miner/aionminer/serialize.h:257-280 | byte i of k bytes, least significant first, is the number shifted right by 8i bits, modulo 256 |
| `Sha256.PadGap` | aion_reference_miner/aionminer/crypto/sha256.cpp:173 | the number of zero bytes computed is the smallest that lets the length end a block |
| `Sha256.PaddedOnce` | aion_reference_miner/aionminer/crypto/sha256.cpp:168-176 | a message has one padded form |

## Left out

- The BLAKE2b compression function and the SHA-256 transformation: parameters, so every
  result holds for any such function. The parameter block of BLAKE2b is the initial
  chaining value here.
- SIMD and four- or eight-way BLAKE2b, the CUDA solver, the (200, 9) build, the RESTBITS
  8 build, `equi_miner.h`, `equi_miner2.h`, `digitK`, `getxhash0`, `getxhash1` and the
  XBITMAP variant: unused here or other variants of the same algorithm.
- The refinement down to bytes and words is for one thread; the step system of the
  workers is over trees in slots, with a slot being whole or torn, and over tags in their
  units. There a candidate is the tree that was read from its two slots; the tags list the
  same (`WorkerTags.ProofsAreListed`). `bfull` and `hfull` are not part of the step system, where they are updated
  without synchronisation.
- The order of memory accesses is sequentially consistent in the step systems.
- `bfull` is not initialised before round 0 in the original; results are about its
  increase. The constructor here sets it to zero.
- The counters are unbounded here; `Layers.CountersFit` and `Layers.LeafCountersFit` show
  that 32 bits hold them.
- `qsort` is a function that sorts; how it sorts is not modelled.
- `prob_disjoint` is exact on tags; its name speaks of probability because two trees can
  share leaves deeper down, which the later tests find.
- Nonces are those of one job; across a job change the increment is read outside the lock.
  Finding the value of the server's bytes from their hex text is left out.
- Each mining thread has its own copy of the hand-off state, so one thread is modelled.
- Sockets, JSON, logging, the command line, clocks, `diffToTarget`, `getdouble`, hex and
  base conversions, scripts and transactions, RIPEMD-160, the solo pool in JavaScript.
- Uint256.BaseUint.Div: the remainder is a ghost result, because the original keeps it
  in a local variable only.
- Verifier.Verify: has a root buffer of 27 bytes, because the original fills 27 bytes of
  one that it declares with 26; what the one byte behind it overwrites is not modelled.
- CpuTromp.Solve: a read behind the solution array gives some value here, because what the
  original finds there, or whether the read fails, is not determined by it.
- VarInt.ReadVarInt: what is left in the stream after it ran out in the middle of a
  number is not stated.
- Probabilities: how often buckets overflow or shortcuts fire.
