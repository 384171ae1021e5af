# elara-mesh in Dafny

A model of the parts of elara-mesh where correctness is hardest to see from the code, with proofs.
`dafny verify dfyconfig.toml` checks everything.

- **The DAG index** (`Dag*.dfy`). Records name parents that may not have arrived. `Dag.dfy` gives each
  operation of the index as a function on its state; `DagIndex.dfy` is the index itself, a class whose
  methods update the maps and sets in place, each proved to compute that function. The other files prove
  what holds over whole runs: the cached frontiers never drift, arrival order does not matter, removals
  commute, the breadth-first walks are exact, strict runs stay acyclic. `DagEffects.dfy` tells every
  operation edge by edge.
- **The account tree** (`Smt*.dfy`, `SparseMerkleTree.dfy`). `Smt.dfy` has the hashing, the proof fold and
  its soundness; `SmtVerifier.dfy` the verifier, against a recipe in bits and bytes; `SmtTree.dfy` the canonical 256-level tree over a set of leaves, as a recursive function.
  `SmtCrown.dfy`, `SmtStore.dfy` and the class `SparseMerkleTree` are the compact store, which keeps rows
  only where two keys still share a prefix: binary search for the place of a key, splitting and merging of
  single-key stems, and siblings folded on the fly. Its root and its proofs are those of the canonical tree.
- **The seal tree** (`SealMerkle.dfy`). Pairwise layers with the odd element promoted, tagged or untagged.
- **The emergency circuit breaker** (`Emergency*.dfy`). The max-nonce fold and its canonical bytes;
  `EmergencyNode.dfy`, the node's persist-then-publish protocol with crashes and snapshots, which are
  published first and persisted later; `EmergencyHistory.dfy`, every run of it as the fold of a list of
  records; `EmergencyReader.dfy`, what a lock-free reader sees meanwhile.
- **The source guards** (`Utf8.dfy`, `RustLexer.dfy`, `RustTokens.dfy`, `ItemExtents.dfy`, `TestCfg.dfy`,
  `ProductionText.dfy`, `TestFiles.dfy`). The mini-lexer and the grammar of the tokens it cuts, how far
  attributes and items reach, which attributes are test-only, the blanking of test-only code, and the worklist
  that finds test-only files.
- **Continuity scores** (`Continuity.dfy`, `ContinuityCurve.dfy` for scores and counts in closed form, and
  `ContinuityReturn.dfy` for identities that are pruned and come back) and **collaboration records**
  (`Collaboration.dfy`).

Hashes are a parameter of the model. Soundness is stated for every function that does not collide on the
strings hashed by the proofs at hand; the compact store asks that no 65-byte string, which is what leaves and
interior nodes hash, hashes to the empty sentinel, and statements about whole account tables that no two of the
accounts hash to the same slot.
Clocks are parameters too. The exponential in the continuity score is any function on the non-positive reals
that is 1 at zero, positive, rising and nowhere steeper than 1.

Where the code or its comments promise more than holds, the model keeps the code and gives the exact condition:

- `link_external_parent` with an absent child and `relink_single_parent` with an absent parent let the
  cached frontiers drift later; `DagIndices.LegalExactlyWhenNoDrift` shows these calls, and no others, do.
- The emergency fold is called order-independent; it is exactly when the halts that share the top nonce carry
  the same window and reason (`Emergency.OrderIrrelevantExactlyWhenTopsAgree`).
- Canonical halt bytes cut lengths to 32 bits; they are injective on network names of up to `limit` bytes
  exactly when `limit` is below 4 GiB (`EmergencyBytes.InjectiveExactlyBelow`).
- The durable halt state is said never to lag the live one. Without snapshots it never does. A snapshot is
  published before it is written, so the durable nonces lag in between, and after the write they are in step
  exactly when the node was not ahead of the snapshot and no fold in between saved more
  (`EmergencyNode.AdoptionExactly`, with a lost fold in `EmergencyNode.FoldLostToSnapshot`).
- A warm restart is said never to un-halt. After a snapshot is adopted it does exactly when, among the node's
  records, the snapshot and the folds in between, the first top halt is above every resume and outlasts the
  snapshot's own closure (`EmergencyHistory.AdoptionUnhaltsExactly`, `EmergencyNode.FoldLostToSnapshot`).
- Boots are said never to extend the window. They do not exactly when the stored expiry is within the ceiling
  (`EmergencyNode.BootsNeverExtendExactly`, with a run that extends it in `EmergencyNode.BootsCanExtend`).
- Nodes agree on the nonces exactly when the greatest nonces of their records do, and on the gate exactly when
  the first top halts were given the same window besides (`EmergencyHistory.NodesAgreeExactly`,
  `EmergencyHistory.NodesDisagree`).
- A lock-free read answers what the gate was at one of its loads except in exactly two cases: the halt it saw
  was resumed and a newer one published before its second load, or a new window with its resume was published
  after that load while the old window had run out (`EmergencyReader.ReadIsSomeInstantExactly`,
  `EmergencyReader.ReadMissesHalt`, `EmergencyReader.ReadMissesResume`).
- Removal leaves the edges a record waits for in place, so an edge can be both wired and waiting, in exactly one
  way (`DagWaiting.ApartExactly`, `DagWaiting.RemovedWaiterOverlaps`).
- Pruning a continuity tracker is said only to lower trust. It does until the next activity; afterwards it can
  raise the score exactly when, at the return, the identity had fewer active days than its age in days
  (`ContinuityReturn.PruneRaisesExactly`, `ContinuityReturn.PruningCanRaise`).
- `production_text` cuts an attribute's text one byte before its end. That cut fails exactly when the scan
  reaches an attribute that never closes in a source that ends right after it opens or in a multi-byte
  character (`ProductionText.ProducedExactly`).

## Model

| member | source | states |
|---|---|---|
| DagIndices.IndicesNeverDrift | src/dag.rs:114-130 | After any run of inserts, re-zonings, relinks, prunes, removals and evictions the rebuild of roots, tips and zone tips would change nothing. |
| DagIndices.LegalExactlyWhenNoDrift | src/dag.rs:418-457 | From a sound state, an operation can be followed by a run that drifts exactly when it links an absent child externally or relinks an absent parent that has present claimants. |
| DagIndices.RunKeepsSound | src/dag.rs:270-485 | Every legal run keeps the edge maps within the present nodes, each child edge matched by a parent edge, and roots, tips and zone tips equal to what the edges say. |
| DagWaiting.ApartExactly | src/dag.rs:270-549 | From a sound state with no edge both wired and waiting, any operation keeps it so exactly when it does not add a record that a present parent of its claims already has waiting. |
| DagWaiting.RemovedWaiterOverlaps | src/dag.rs:785-829 | A record removed while it waits and inserted again after its parent came is wired to it and waiting for it at once. |
| DagWaiting.ApartWithoutRemovals | src/dag.rs:379-485 | In legal runs without removals no edge is ever both wired and waiting, and every waiting record is present. |
| DagIndices.ClaimAllEffect | src/dag.rs:379-411 | Claiming any list of parents wires exactly the present ones and queues exactly the absent ones, whatever the order and repeats. |
| DagIndices.WireAllIsClaimAll | src/dag.rs:283-308 | With all parents present the strict insert and the tolerant insert wire the same edges. |
| DagEffects.StepExactly | src/dag.rs:133-829 | From a sound state, each legal operation leaves exactly the stated child, parent and waiting edges, records, timestamps, zones, marks and epoch, told pair by pair and without the functions the operations are built from. |
| DagEffects.FrontiersExactly | src/dag.rs:114-130 | In a sound state the roots are the records without a parent edge, the tips those without a child edge, and the tips of a zone those registered there. |
| DagEffects.ZoneExactly | src/dag.rs:363-374 | A re-zoned record is in the new zone and no other, is listed there exactly if it is a tip, and every other record keeps its place. |
| DagEffects.RelinkAllExactly | src/dag.rs:461-485 | Relinking a list of parents wires exactly the present records that waited for one of them and ends all waiting for them. |
| DagEffects.MissingExactly | src/dag.rs:379-411 | The missing count is the number of places in the claim list that name an absent record. |
| DagArrival.ArrivalSettles | src/dag.rs:379-485 | Tolerant inserts and single-parent relinks in any order, then one reindex: wired edges are the claims with both ends present, waiting edges those whose parent is absent, nothing lost. |
| DagArrival.ArrivalOrderIrrelevant | src/dag.rs:461-485 | Two such runs that deliver the same records end in the same state. |
| DagEviction.RemovalsCommute | src/dag.rs:785-829 | Removing two records in either order gives the same state, edges, waiting edges, zones and frontiers included. |
| DagEviction.EvictAllIsRestrict | src/dag.rs:160-211 | Evicting a list of records leaves the state restricted to the rest, built directly from the remaining records. |
| DagEviction.EvictionOrderIrrelevant | src/dag.rs:160-211 | Two orders of evicting the same records end in the same state. |
| DagPaths.Walk | src/dag.rs:636-677 | The breadth-first walk returns exactly the records at 1 to d steps, on any graph, cyclic ones included, and terminates. |
| DagPaths.WalkCapped | src/dag.rs:692-751 | The capped walk never exceeds its cap, equals the full walk unless truncated, and when truncated holds exactly the cap, none farther than any record left out. |
| DagLineage.AncestorsMirrorDescendants | src/dag.rs:636-677 | In runs without external links, x is within d parent steps of y exactly when y is within d child steps of x. |
| DagLineage.RunMirrored | src/dag.rs:803-828 | Wiring, relinking, removal and eviction keep the child map and the parent map inverse to each other. |
| DagLineage.StrictRunsAreAcyclic | src/dag.rs:270-337 | In runs of strict inserts, removals and evictions, re-insertion included, no record reaches itself. |
| DagOrdering.FewestGroups | src/dag.rs:526-549 | Taking the largest groups first until enough is dropped drops the fewest groups of any choice. |
| DagOrdering.SortBy | src/dag.rs:246-262 | Sorting by key yields an ascending enumeration of exactly the given ids. |
| DagIndex.DagIndex.constructor | src/dag.rs:69-83 | A new index is the empty state. |
| DagIndex.DagIndex.TipsPerZoneInsert | src/dag.rs:88-98 | Adds a tip to the set of its zone, if it has one, and changes nothing else. |
| DagIndex.DagIndex.TipsPerZoneRemove | src/dag.rs:99-111 | Takes a tip from the set of its zone and drops the set when it empties. |
| DagIndex.DagIndex.RebuildIndices | src/dag.rs:114-130 | Recomputes roots, tips and zone tips from the edges. |
| DagIndex.DagIndex.Insert | src/dag.rs:270-308 | Answers a known id, else the first absent parent in list order, and then changes nothing; otherwise adds the record, wires its parents and updates the frontiers. |
| DagIndex.DagIndex.InsertWithZone | src/dag.rs:315-337 | Checks before the zone is registered, so a refusal changes nothing; otherwise inserts the record as a member of its zone. |
| DagIndex.DagIndex.InsertTolerant | src/dag.rs:379-411 | Wires present parents, queues absent ones and counts the places that name them; a known id is left alone. |
| DagIndex.DagIndex.InsertTolerantWithZone | src/dag.rs:343-355 | As tolerant insert, with the zone registered first. |
| DagIndex.DagIndex.RegisterZone | src/dag.rs:363-374 | Moves a present record to the zone, out of the tips of its old zone and, if it is a tip, into those of the new one; all other records, fields and tips stay. |
| DagIndex.DagIndex.LinkExternalParent | src/dag.rs:418-430 | Adds exactly one parent edge, takes exactly one waiting edge, takes the child off the roots and changes no other edge or record. |
| DagIndex.DagIndex.RelinkSingleParent | src/dag.rs:440-457 | Wires exactly the present records that waited for the parent, counts them, and ends all waiting for it. |
| DagIndex.DagIndex.ReindexOrphans | src/dag.rs:461-485 | Wires exactly the present records that wait for present parents; the count is the number of such pairs, whatever the order. |
| DagIndex.DagIndex.OrphanCount | src/dag.rs:488-490 | The number of waiting edges. |
| DagIndex.DagIndex.RemoveOrphanParent | src/dag.rs:515-521 | Drops the waiting edges of one parent, and nothing else, and counts them. |
| DagIndex.DagIndex.PruneOrphanEdges | src/dag.rs:526-549 | Leaves at most the maximum, returns exactly the number dropped and drops the fewest parent groups possible. |
| DagIndex.DagIndex.Remove | src/dag.rs:785-829 | Drops the record with its edges and the edges that wait for it, and no other; parents and children become tips and roots where nothing else holds them. |
| DagIndex.DagIndex.MarkFinalized | src/dag.rs:133-137 | Marks a present record with an epoch and changes nothing else. |
| DagIndex.DagIndex.SetCurrentEpoch | src/dag.rs:147-151 | The epoch only moves forward, and nothing else changes. |
| DagIndex.DagIndex.EvictOldEpochs | src/dag.rs:160-176 | Evicts exactly the ids marked more than three epochs ago, counts them, and leaves the state restricted to the rest. |
| DagIndex.DagIndex.EvictFinalized | src/dag.rs:185-211 | Evicts exactly the records finalized elsewhere that were not marked within the last three epochs, whatever order the set yields. |
| DagIndex.DagIndex.EvictOlderThan | src/dag.rs:220-242 | Evicts exactly the marked records with a timestamp before the cutoff. |
| DagIndex.DagIndex.EvictToCap | src/dag.rs:246-262 | Leaves exactly the cap when it was exceeded, with no survivor older than an evicted record. |
| DagIndex.DagIndex.Ancestors | src/dag.rs:636-655 | Exactly the records within d parent steps. |
| DagIndex.DagIndex.Descendants | src/dag.rs:658-677 | Exactly the records within d child steps. |
| DagIndex.DagIndex.AncestorsCapped | src/dag.rs:692-719 | The nearest records over parent edges, at most the cap, and whether any were cut. |
| DagIndex.DagIndex.DescendantsCapped | src/dag.rs:724-751 | The nearest records over child edges, at most the cap, and whether any were cut. |
| SmtVerifier.BitsSpellBytes | crates/elara-smt/src/lib.rs:258-265 | Each byte of a digest is 128, 64 down to 1 times its eight path bits: bit 0 is the most significant of byte 0, bit 255 the least significant of byte 31. |
| SmtVerifier.BitsInjective | crates/elara-smt/src/lib.rs:251-256 | Equal paths come from equal hashes. |
| SmtVerifier.FoldExactly | src/conformance.rs:266-278 | The fold succeeds exactly when there are as many siblings as bits set, and reaches a root exactly when a row of values leads there: on each level the child on the path is the right one iff its path bit is set, the sibling is the one after those of all deeper levels, and the node is the hash of byte 1, left and right, or empty above two empties. |
| SmtVerifier.HashedExactly | src/conformance.rs:266-278 | The strings assumed free of collisions are the empty one and those the levels of the fold hash, no others. |
| SmtVerifier.Fold | crates/elara-smt/src/lib.rs:383-421 | The loop from the deepest level up uses each sibling the bitmap names once and rejects too few or too many. |
| SmtVerifier.VerifyProof | crates/elara-smt/src/lib.rs:426-433 | Accepts exactly when the recipe leads from the hash of byte 0, account and state to the root, along the bits of the account's hash. |
| SmtVerifier.VerifyExclusionProof | crates/elara-smt/src/lib.rs:438-444 | Accepts exactly when the recipe leads from the hash of the empty string to the root, along the bits of the account's hash. |
| Smt.FoldsAgree | src/conformance.rs:266-278 | Two folds along one path to one root start from the same value, barring a collision among the strings they hash. |
| Smt.InclusionIsUnique | src/conformance.rs:374-389 | Two inclusion proofs of one account against one root carry the same state hash. |
| Smt.InclusionRefutesExclusion | src/conformance.rs:336-360 | No account has both an inclusion proof and an exclusion proof against one root. |
| Smt.InclusionNeverCollapses | src/conformance.rs:266-278 | The empty-collapse branch is not reached in any inclusion fold. |
| SmtTree.ProofsAreComplete | crates/elara-smt/src/lib.rs:1054-1090 | The siblings of any slot of the canonical tree, empty ones skipped, fold from the slot's value to the root. |
| SmtTree.CanonUnary | crates/elara-smt/src/lib.rs:298-312 | Under a prefix with one key the canonical hash is the leaf folded up with empty siblings. |
| SparseMerkleTree.SparseMerkleTree.constructor | crates/elara-smt/src/lib.rs:724-735 | A new tree stores nothing. |
| SparseMerkleTree.SparseMerkleTree.Root | crates/elara-smt/src/lib.rs:758-760 | The stored root is the canonical root of the leaves. |
| SparseMerkleTree.SparseMerkleTree.Resolve | crates/elara-smt/src/lib.rs:1581-1620 | Binary search tells whether the tree is empty, the key is there and where its stem starts, the path dives into another key's stem, or it leaves the tree beside a branch. |
| SparseMerkleTree.SparseMerkleTree.RecomputeFrom | crates/elara-smt/src/lib.rs:1645-1679 | Recomputing the rows of one path from a depth makes the whole store canonical again. |
| SparseMerkleTree.SparseMerkleTree.PlaceLeaf | crates/elara-smt/src/lib.rs:826-900 | Placing a leaf leaves exactly the rows due, canonical except above the depth returned. |
| SparseMerkleTree.SparseMerkleTree.SplitUnary | crates/elara-smt/src/lib.rs:826-900 | A path that dives into another key's stem splits it at the first differing bit and rewrites the chain above. |
| SparseMerkleTree.SparseMerkleTree.UpdateAt | crates/elara-smt/src/lib.rs:791-820 | Sets one leaf and one value; the store stays exactly the compact store of the new leaves. |
| SparseMerkleTree.SparseMerkleTree.RemoveLeaf | crates/elara-smt/src/lib.rs:973-1044 | Removing a leaf merges a neighbour left alone into one stem and leaves exactly the rows due. |
| SparseMerkleTree.SparseMerkleTree.DeleteAt | crates/elara-smt/src/lib.rs:930-966 | Removes one leaf and one value; the store is the compact store of the rest. |
| SparseMerkleTree.FirstDiffBit | crates/elara-smt/src/lib.rs:284-292 | The first position at which two paths differ. |
| SparseMerkleTree.FoldTailLoop | crates/elara-smt/src/lib.rs:298-312 | Folds a hash up one stem with empty siblings. |
| SparseMerkleTree.NextTop | crates/elara-smt/src/lib.rs:973-1044 | The lowest depth from which the neighbour left behind is on its own. |
| SparseMerkleTree.SparseMerkleTree.ProbeSiblings | crates/elara-smt/src/lib.rs:1096-1122 | Reading the rows beside a path above its branch gives the canonical siblings there. |
| SparseMerkleTree.SparseMerkleTree.CollectSiblings | crates/elara-smt/src/lib.rs:1054-1090 | The bitmap and siblings of any slot, present or absent, are those of the canonical tree. |
| SparseMerkleTree.SparseMerkleTree.Update | crates/elara-smt/src/lib.rs:781-784 | The table gains the account, exactly the slot spelled by the account's hash gets its leaf, and the tree still stands for the table. |
| SparseMerkleTree.SparseMerkleTree.Delete | crates/elara-smt/src/lib.rs:922-925 | The table loses the account, exactly that slot is cleared, and the tree stands for the rest. |
| SparseMerkleTree.SparseMerkleTree.MakeProof | crates/elara-smt/src/lib.rs:1125-1141 | Exactly the accounts of the table get an inclusion proof, for their recorded state, and the verifier's recipe leads by it to the root. |
| SparseMerkleTree.SparseMerkleTree.MakeExclusionProof | crates/elara-smt/src/lib.rs:1145-1161 | Exactly the other accounts get an exclusion proof, and the verifier's recipe leads by it to the root. |
| SmtAccounts.SeparateExactly | crates/elara-smt/src/lib.rs:251-256 | Accounts share no slot exactly when their hashes do not collide. |
| SmtAccounts.StoreDependsOnTableOnly | crates/elara-smt/src/lib.rs:916-921 | Any two stores of the same table agree on every row and marker, so deletion undoes insertion and history leaves no trace. |
| SmtAccounts.InclusionMatchesTable | crates/elara-smt/src/lib.rs:426-433 | An inclusion proof that verifies against the tree's root is for a recorded account and its recorded state. |
| SmtAccounts.ExclusionMatchesTable | crates/elara-smt/src/lib.rs:438-444 | An exclusion proof that verifies against the tree's root is for an account the table lacks. |
| SealMerkle.RootIsBalanced | src/network/sync.rs:37-62 | The layer walk with promotion builds the left-complete tree: a full tree over the largest power of two of leaves joined with the tree of the rest. |
| SealMerkle.RootBytes | src/network/sync.rs:47-59 | The root of two or more leaves is the hash of the tag, the root of the first power of two of them, and the root of the rest, in this order. |
| SealMerkle.PreimageLayout | src/network/sync.rs:200-207 | The left half lies right behind the tag and the right half behind it. |
| SealMerkle.RootBindsList | src/network/sync.rs:179-189 | If no leaf preimage looks like an interior node, equal roots mean equal lists, lengths included. |
| SealMerkle.InteriorIsNoLeaf | src/network/sync.rs:179-189 | A root of two or more leaves is the hash of no raw leaf. |
| SealMerkle.RootBindsCountedList | src/network/sync.rs:37-62 | For lists of equal length equal roots mean equal lists, tagged or not. |
| SealMerkle.RootsMeetExactly | src/network/sync.rs:37-62 | Two lists of any leaves and lengths have one root exactly when their trees split alike until one has a leaf that is the hash of what the other has below. |
| SealMerkle.PathReachesRoot | src/conformance.rs:588-651 | The proof path of every position, promoted levels skipped, leads from its leaf to the root. |
| SealMerkle.WalksAgree | src/conformance.rs:103-124 | Two walks with the same sides to the same root carry the same leaf and the same siblings. |
| SealMerkle.ProofBindsLeaf | src/conformance.rs:588-651 | A proof with the sides of a position that reaches the list's root is for the leaf at that position. |
| SealMerkle.NextLayer | src/network/sync.rs:47-59 | One layer: pairs combined, an odd last element promoted. |
| SealMerkle.Root | src/network/sync.rs:212-232 | The loop computes the left-complete tree's root; 32 zero bytes for an empty list. |
| SealMerkle.Prove | src/network/sync.rs:100-149 | A proof exists exactly for the leaves of the list, follows the first position and reaches the root. |
| SealMerkle.WalkExactly | src/network/sync.rs:152-168 | The walk reaches a root exactly when a row of values leads there, each the hash of the tag and the two nodes with a right-hand sibling last. |
| SealMerkle.Verify | src/network/sync.rs:152-168 | Accepts exactly when such a row leads from the leaf to the root. |
| Emergency.EmergencyState.FoldHalt | src/emergency.rs:254-260 | A halt wins only with a greater nonce and then brings its window and reason. |
| Emergency.EmergencyState.FoldResume | src/emergency.rs:263-267 | A resume wins only with a greater nonce and touches nothing else. |
| Emergency.RunCharacterised | src/emergency.rs:241-267 | After any records the nonces are the maxima seen and the window is that of the first halt with the top nonce. |
| Emergency.RunsAgreeExactly | src/emergency.rs:254-267 | Any two lists of records give the same state exactly when their greatest nonces agree and their first top halts carry the same window and reason. |
| Emergency.SameRecordsAgree | src/emergency.rs:254-267 | The same records in any order, with any repeats and windows, always give the same nonces, and the same state exactly when the first top halts carry the same window and reason. |
| Emergency.OrderIrrelevantExactlyWhenTopsAgree | src/emergency.rs:245-267 | The state is the same for every order and repetition of the records exactly when the halts with the top nonce agree. |
| Emergency.HaltedExactlyWhen | src/emergency.rs:241-243 | After any records the gate is closed exactly while the first halt with the top nonce is above every resume and has its window open. |
| Emergency.ReplayIsInert | src/emergency.rs:254-267 | Halts no newer than a folded resume, however often replayed and mixed with resumes, never close the gate. |
| Emergency.ExpiryBounds | src/emergency.rs:101-182 | Windows end at most thirty days after issue and, bounded, after observation; the second bound bites exactly for halts dated that far ahead. |
| Emergency.WindowExactly | src/emergency.rs:101-182 | A window is open exactly until the time asked for has passed since the issue, or thirty days since the issue or the observation, or the clock's last second. |
| EmergencyBytes.EncodeHalt | src/emergency.rs:135-145 | The bytes of a halt in field order. |
| EmergencyBytes.EncodeResume | src/emergency.rs:201-209 | The bytes of a resume in field order. |
| EmergencyBytes.HaltBytesInjective | src/emergency.rs:135-145 | Bytes determine a halt if the networks, or else the reasons, are shorter than 4 GiB. |
| EmergencyBytes.WellFormedHaltsInjective | src/emergency.rs:154-158 | Well-formed halts with equal bytes are equal, with no bound on the network name. |
| EmergencyBytes.InjectiveExactlyBelow | src/emergency.rs:284-287 | With networks of up to a given length the encoding is injective exactly when that length is below 4 GiB. |
| EmergencyBytes.ResumeBytesInjective | src/emergency.rs:201-209 | Bytes determine a resume, at any length. |
| EmergencyBytes.HaltIsNoResume | src/emergency.rs:56-59 | No halt and resume share their bytes. |
| EmergencyBytes.BigEndianSpells | src/emergency.rs:140-142 | The bytes of a number spell it, the first weighing most. |
| EmergencyBytes.HaltReadsBack | src/emergency.rs:135-145 | A reader that takes the fields off the bytes in order gets the halt back, for strings shorter than 4 GiB. |
| EmergencyBytes.ResumeReadsBack | src/emergency.rs:201-209 | Likewise for resumes. |
| EmergencyBytes.WellFormedBytes | src/emergency.rs:154-158 | A halt is well formed exactly when its bytes hold version 1, a positive duration and at most 1024 bytes of reason. |
| EmergencyNode.RunKeepsInv | src/network/state.rs:5549-5650 | In every run of folds, stores, crashes and snapshots of any content, the live values differ from what the stores lead to only in the stores still to be made, the blob is no newer than that, and no window exceeds the ceiling. |
| EmergencyNode.AnythingMayCome | src/network/state.rs:5549-5650 | The runs leave nothing out: in every reachable state the process may die, a published snapshot may be written whatever is under way, and at rest any record may be folded or snapshot adopted. |
| EmergencyNode.GateClearsItself | src/network/state.rs:5631-5639 | Thirty days after the node last acted the gate is open, whatever snapshots it adopted. |
| EmergencyNode.NodeRefinesAtomic | src/network/state.rs:5549-5650 | Through all interleavings and crashes the blob, and the state the stores lead to, are those of the same operations done atomically. |
| EmergencyNode.BehindExactly | src/network/state.rs:5544-5602 | For each step, exactly when it leaves the durable nonces behind: a saved winning fold or a boot never, a newer snapshot always until it is written, and its writing exactly when the node has gone beyond it. |
| EmergencyNode.BlobNeverLags | src/network/state.rs:5544-5548 | In runs without snapshots the durable nonces are never behind, not even between the stores of a fold. |
| EmergencyNode.PublishedBeforeWritten | src/network/sync.rs:2154-2158 | A newer snapshot is live before it is durable; dying there boots into the state before it. |
| EmergencyNode.AdoptionExactly | src/network/sync.rs:2154-2158 | A snapshot published, any folds, then the snapshot written: the blob is in step exactly when the node was not ahead of the snapshot and no fold in between saved a greater nonce. |
| EmergencyNode.FoldLostToSnapshot | src/network/sync.rs:2154-2158 | A halt folded between publishing a snapshot and writing it is lost from the blob, and a restart opens a gate that was closed. |
| EmergencyNode.InStepExactly | src/network/state.rs:5549-5650 | For each step, exactly when blob and target agree in full afterwards; after a saved winning fold they always do. |
| EmergencyNode.CrashExactly | src/network/state.rs:5549-5602 | Dying anywhere and booting gives what the stores would have led to exactly when the blob has its nonces and, cut at the boot, its window and reason. |
| EmergencyNode.CrashIsAtomic | src/network/state.rs:5549-5602 | In step, dying between any two stores and booting is as good as finishing. |
| EmergencyNode.RestartExactly | src/bin/elara_node.rs:725-730 | A restart at rest leaves the gate as it was at every moment exactly when the blob, its window cut at the boot, opens it at the same time. |
| EmergencyNode.RestartKeepsGate | src/bin/elara_node.rs:725-730 | In step, a warm restart leaves the gate as it was at every moment. |
| EmergencyNode.BootsNeverExtendExactly | src/network/state.rs:5635-5639 | No later boot gives a longer window exactly when the stored expiry is within the ceiling at this one. |
| EmergencyNode.BootsCanExtend | src/network/state.rs:5635-5639 | A run in which a snapshot dated far ahead is written as it came, and two boots a hundred seconds apart give windows that end a hundred seconds apart. |
| EmergencyHistory.NodeIsItsRecords | src/network/state.rs:5549-5650 | In every run, with any snapshots, failed writes and crashes, what the stores lead to is the reference fold of the run's live records, and the blob boots as the fold of those written. |
| EmergencyHistory.NodeCharacterised | src/network/state.rs:5549-5650 | At rest the nonces are the greatest of the folds, the adopted snapshots and what the last boot read, and the window is that of the first halt with the top nonce. |
| EmergencyHistory.AllRecordsKept | src/network/state.rs:5549-5602 | Without snapshots the live records and those written are, through all crashes, all the records saved with the windows first given. |
| EmergencyHistory.NodeRefinesFold | src/network/state.rs:5549-5602 | Without snapshots a node is the reference fold of its saved records, each halt with its window cut at the ceiling when it came. |
| EmergencyHistory.NodesAgreeExactly | src/emergency.rs:25-32 | Any two nodes at rest, snapshots included, agree on the nonces exactly when the greatest nonces of their records agree, and on the gate state exactly when the first top halts were given the same window and reason besides. |
| EmergencyHistory.SameRecordsNodesAgree | src/emergency.rs:25-32 | Two nodes without snapshots that saved the same records, in any order and at any times and through any crashes, always agree on the nonces, and on the gate state exactly when their first top halts were cut alike. |
| EmergencyHistory.BootstrapMatches | src/network/sync.rs:2151-2158 | A fresh node that adopts the state of any node at rest, and writes it, has its gate state live and durable. |
| EmergencyHistory.WindowsAgreeExactly | src/emergency.rs:101-182 | Two nodes give one halt the same window exactly when neither cuts it or both cut it at the same time. |
| EmergencyHistory.NodesDisagree | src/emergency.rs:101-182 | A halt dated ahead and seen ten seconds apart gives windows ten seconds apart. |
| EmergencyHistory.AdoptionUnhaltsExactly | src/network/sync.rs:2154-2158 | A snapshot published, any folds, the snapshot written, a restart: it opens a closed gate exactly when the first top halt of the node's records, the snapshot and the folds is above every resume and outlasts the snapshot's closure from the boot on. |
| EmergencyReader.ReaderSeesMatchingExpiry | src/network/state.rs:5530-5542 | A lock-free reader that saw a nonce later gets exactly the expiry that a halt at least that new was given: by the fold or snapshot with which it won, cut at that time, or by the boot that read it from a written snapshot, cut at the boot. |
| EmergencyReader.ReaderSeesFoldedExpiry | src/network/state.rs:5530-5542 | Without snapshots, through any earlier crashes, it gets exactly the expiry that the winning fold of a halt at least that new computed. |
| EmergencyReader.ReadIsSomeInstantExactly | src/network/state.rs:5534-5542 | A read that overlaps any folds and snapshots answers what the gate was at one of its three loads except in exactly two cases, told by the nonces and windows at the loads; in both a resume and a new window were published meanwhile. |
| EmergencyReader.SwappedReadExactly | src/network/state.rs:5534-5542 | With the two relaxed loads in the other order only the first of the two cases remains. |
| EmergencyReader.ReadMissesHalt | src/network/state.rs:5534-5542 | A run in which a read answers open though the gate was closed at every step. |
| EmergencyReader.ReadMissesResume | src/network/state.rs:5534-5542 | A run in which a read answers closed though the gate was open at every step. |
| Utf8.BlankStaysValid | src/build_invariants.rs:1800-1913 | Overwriting whole characters with spaces keeps a text UTF-8. |
| Utf8.CharLengthExactly | src/build_invariants.rs:1909-1911 | A character is a lead byte with its tail bytes whose bits spell, in no fewer bytes than needed, a code point that is no surrogate. |
| Utf8.ValidExactly | src/build_invariants.rs:1909-1911 | A text is UTF-8 exactly when it is a row of characters. |
| RustLexer.Classify | src/build_invariants.rs:1611-1755 | The scanner stays in bounds, terminates and gives every byte the kind of the lexeme whose body holds it. |
| RustLexer.ScanLexeme | src/build_invariants.rs:1617-1752 | One step paints exactly the body of the lexeme that starts there and resumes at its end. |
| RustLexer.KindsExactly | src/build_invariants.rs:1607-1611 | A byte is code exactly when no lexeme's body holds it, and otherwise of that lexeme's kind. |
| RustLexer.CodeEnds | src/build_invariants.rs:1611-1755 | Code gives way to a literal only after a quote and to a comment only at a slash. |
| RustLexer.CommentsAligned | src/build_invariants.rs:1611-1755 | Comments consist of whole characters. |
| RustTokens.KindsAreTokens | src/build_invariants.rs:1607-1755 | The text is cut into tokens of the grammar, each starting where the one before ends, and every byte has the kind of the token whose body holds it or is code. |
| RustTokens.LexemeIsToken | src/build_invariants.rs:1617-1752 | The lexeme at a place is the token there: a line comment up to the line break, a nested block comment, a raw string up to the first quote with as many hashes, a string up to the first quote not escaped, a character literal, or one byte of code. |
| RustTokens.TokenUnique | src/build_invariants.rs:1617-1752 | The grammar gives one token at each place. |
| RustTokens.BlockEndExactly | src/build_invariants.rs:1628-1653 | A block comment ends with the closing that matches its opening, comments inside it being whole, and with the text when none matches. |
| RustTokens.OneCharacter | src/build_invariants.rs:1715-1751 | In UTF-8 a character literal that is no escape holds exactly one character, and an apostrophe before a character opens one exactly when another follows. |
| TestCfg.IsTestOnlyCfg | src/build_invariants.rs:1759-1785 | True exactly for the bare test predicate and for an outermost all-list with the bare element. |
| TestCfg.HasTest | src/build_invariants.rs:1768-1784 | Splitting at top-level commas finds the element exactly when it is one. |
| TestCfg.AllExactly | src/build_invariants.rs:1757-1785 | An all-list written from any balanced elements is test-only exactly when the bare predicate is among them. |
| TestCfg.AnyAndNotCompile | src/build_invariants.rs:1757-1758 | No any-list and no negation is test-only. |
| ProductionText.FindAttrEnd | src/build_invariants.rs:1816-1836 | The least end at a closing code bracket with as many opened as closed, counted from the attribute's start, or the end of the text. |
| ProductionText.FindItemStart | src/build_invariants.rs:1854-1865 | The first byte past white space, blanked comments and whole attributes. |
| ProductionText.FindItemEnd | src/build_invariants.rs:1866-1890 | The least end at a code brace that leaves as many opened as closed, or at a code semicolon with as many before it, or the end of the text. |
| ProductionText.Produce | src/build_invariants.rs:1806-1913 | Exactly the comments and the test-only units become spaces, line breaks excepted, and the result is UTF-8. The units are in order and disjoint, no attribute lies outside them, and a test-only one reaches from its attribute to the balanced end of its item. |
| ProductionText.ProducedExactly | src/build_invariants.rs:1846-1850 | The attribute texts can be taken exactly when no unclosed attribute is reached in a source ending right after it opens or in a multi-byte character. |
| ProductionText.ClosedSourcesProduce | src/build_invariants.rs:1806-1913 | A source whose attributes close is always produced. |
| ProductionText.BareOpeningIsStuck | src/build_invariants.rs:1846-1850 | The two-byte source that opens an attribute is not. |
| TestFiles.TestOnlyFiles | scripts/scan-prod-panics.py:283-305 | Whatever order the frontier is popped in, the result is the files reached from a test-gated child: the least set that holds those children and, for each of its files, the children gated and the children declared plainly. |
| TestFiles.ReachedIsLeast | scripts/scan-prod-panics.py:283-292 | The files reached are the least set closed under each kind of declaration by itself. |
| Continuity.IdleScoreNeverRises | src/continuity.rs:124-168 | After more than one idle day the score never rises until the next activity. |
| Continuity.LongIdleIsFloor | src/continuity.rs:124-168 | From 47.5 idle days on the score is exactly 0.05. |
| Continuity.AboveFloorExactly | src/continuity.rs:124-168 | After an idle time some list of activity times still scores above the floor exactly when the idle time is within a day or the exponential gets below a tenth of the days it lacks of 47.5. |
| Continuity.FloorNotBefore | src/continuity.rs:124-168 | With an exponential that gets below every positive bound, some list of activity times still scores above the floor after an idle time exactly when that is below 47.5 days. |
| Continuity.ScoreRange | src/continuity.rs:124-168 | The score is 0 exactly in the first day, then between 0.05 and 1. |
| ContinuityCurve.ActiveIsOnCurve | src/continuity.rs:124-168 | After any activity times, an identity with as many active days as its age and active within the last day is on the curve: the line from 0.1 to 0.4 over days 1 to 30, the line from 0.4 to 0.8 up to day 365, then 1 less a fifth of the exponential. |
| ContinuityCurve.ScoreExactly | src/continuity.rs:124-168 | The score of any tracker: the curve at its age, less a fiftieth per idle day past the first down to a twentieth, times the share of active days, and at least a twentieth. |
| ContinuityCurve.HistoryExactly | src/continuity.rs:93-121 | After any activity times the tracker holds the count of those later than all before, their last, the number and the longest of the gaps over a day, and the run since the last gap over thirty days. |
| Continuity.RecordedSound | src/continuity.rs:93-121 | Every activity keeps counts, gaps, times and the stored score consistent. |
| Continuity.HistorySound | src/continuity.rs:93-121 | Every list of activity times leaves a consistent tracker. |
| Continuity.PruneLowersOnly | src/continuity.rs:227-240 | Pruning drops only identities at the floor and raises no score until they are next active. |
| ContinuityReturn.PruneRaisesExactly | src/continuity.rs:227-240 | A pruned identity that comes back can, by some further activity and at some time, score higher than had it been kept exactly when it had fewer active days than its age in days at the return. |
| ContinuityReturn.DailyRaised | src/continuity.rs:227-240 | In that case being active once a day for long enough does it. |
| ContinuityReturn.SteadyPruneNeverRaises | src/continuity.rs:227-240 | It does not score higher while its activity ratio overall is no lower than since it came back. |
| ContinuityReturn.PruningCanRaise | src/continuity.rs:227-240 | Seen once, back after a thousand days and active again two days later, a pruned identity scores above 0.1 and a kept one 0.05. |
| Continuity.ContinuityState.RecordActivity | src/continuity.rs:195-200 | One identity's tracker is updated or started; no other score changes. |
| Continuity.ContinuityState.Cleanup | src/continuity.rs:234-240 | Exactly the trackers active in the last ninety days stay, as they were, and the count of the others is returned. |
| Collaboration.CollaborationState.Register | src/collaboration.rs:191-223 | Refused first for want of participants, then of a work hash, then for an id already in the log, and then nothing changes; otherwise the record extends the log and both indices. |
| Collaboration.CollaborationState.ForWork | src/collaboration.rs:232-238 | Each stored record with the hash once, in order of registration. |
| Collaboration.CollaborationState.ForIdentity | src/collaboration.rs:251-257 | Each stored record once per participant slot the identity holds, in order. |
| Collaboration.CollaborationState.ConflictCount | src/collaboration.rs:270-275 | The number of hashes held by two or more stored records. |
| Collaboration.ConflictExactly | src/collaboration.rs:270-275 | An index entry has two or more ids exactly when two stored records hold the hash. |
| Collaboration.WithHashExactly | src/collaboration.rs:232-238 | The scan behind the work query picks exactly the places of the log with the hash, in order. |
| Collaboration.WithIdentityExactly | src/collaboration.rs:251-257 | The scan behind the identity query picks exactly the participant slots the identity holds, in order. |
| Collaboration.AcceptedExactly | src/collaboration.rs:330-338 | A replay keeps exactly the records that are the first well-formed ones of their id, in order. |
| Collaboration.Rebuild | src/collaboration.rs:330-338 | Replaying any records accepts each id's first well-formed record, in order. |

## Left out

- Signatures, the SHA3 function itself, key handling and record wire decoding: hashes are parameters and nothing else of them is needed.
- The interval tree clocks of `crates/elara-itc`, content-safety tables, the network routes, the ledger and its accounting.
- The account tree's buffered writes, commit, format tag, legacy full-depth format, migration, shards and row-key bytes: the model keeps the view the buffers give as one map, keyed by bit prefixes.
- SparseMerkleTree.SparseMerkleTree.Resolve: models a compact store only; store errors are not modelled.
- SmtVerifier.VerifyProof: takes a proof's bitmap as its 256 bits rather than 32 bytes, and the root beside the proof.
- The lossy JSON and metadata forms of halts, resumes and collaboration records.
- EmergencyReader.ReadIsSomeInstantExactly: interleaves whole loads and stores in the order written, and EmergencyReader.SwappedReadExactly the two relaxed loads in the other order; a relaxed load that returns a value already overwritten is not modelled.
- ProductionText.Produce: does not model the list of separate files that test-only module declarations resolve to, nor 32-bit overflow of the nesting counters; white-space removal from attribute texts is a parameter.
- Continuity.ContinuityState.RecordActivity: trackers are values in a map, so updating one in place is a map update; times are exact reals, so rounding and NaN are not modelled.
- Collaboration roles, contributions, signing flags beyond the field, and chains: they do not enter the indices.
- TestFiles.TestOnlyFiles: takes the children of each file as given; globbing and the line patterns that find declarations are not modelled.
- DagIndex.DagIndex.EvictOlderThan: the wall clock is a parameter and timestamps are exact reals.
