# Verified core of a blockchain repository

This Dafny project models the hardest parts of a repository that bundles go-ethereum and Hyperledger Fabric, and
proves what those parts are for. It has seven areas.

**Canonical chain** (`Ancestry`, `CanonicalChain`, `HeaviestChain`, `SideChain`, `TrieCollector`, `Rewind`,
`BlockHashes`). Blocks form one ancestry relation by parent hash. The number-to-hash index, the transaction lookup, the
total-difficulty ledger, the head markers and the trie references are all proved to agree with it, operation by
operation, in a class whose methods follow the source's loops. Over any run of writes the head is the heaviest block
accepted, and the lowest of those. Side chains are stored with exact totals and re-imported along exactly the pruned
path.

**Section indexer** (`SectionIndex`, `IndexerRuns`, `IndexerConfirms`, `IndexerProgress`, `ChainIndexer`). A state
machine in which every step writes at most one database entry, and the chain may reorganise between any two steps. Every
reachable state keeps the section heads chained, so a verification that stops on a match has verified all of them, and
every section that is begun was confirmed or is covered by the checkpoint. `ChainIndexer` is the class with the source's operations; each is tied to the
machine.

**Identity Mixer** (`Field`, `Transcript`, `IdemixSuite`, `IdemixIssuance`, `IdemixSignature`, `IdemixSoundness`,
`IdemixIssuerKey`, `WeakBB`). Points are discrete logarithms modulo the prime group order, so the pairing is a product;
hash and encodings are arbitrary functions and every random draw is an argument. Completeness is proved from key
generation to a verified signature, acceptance is characterised byte by byte, and two accepted proofs with one
commitment are shown to give away the whole credential. The protocol is that of sections 4.3 and 4.5 of eprint 2016/663.

**Authorisation cache** (`AuthCacheRuns`, `AuthCacheUse`, `AccessCache`). Any number of concurrent calls, each a
sequence of separate critical sections, interleaved with configuration changes. Every answer is that of the uncached
check at some moment of the call, repeated requests are answered without a new check, and the size is bounded as long as a purge evicts anything.

**Membership principals** (`Principals`, `OrganizationalUnits`). Flattening a combined principal preserves its meaning,
and the organizational-unit check singles out one role.

**Derivation paths** (`DerivationPath`) and **gas limit** (`GasLimit`). The printer and the parser are inverses on every
non-empty path, and the limit converges without overshooting.

Properties that turned out not to hold as one might state them:

- After a reorganisation onto a branch of one block, from a head that is higher, index entries survive above the new
  head. `CanonicalChain.StaleEntries` gives the exact condition, `CanonicalChain.ShallowForkExample` a run.
- The indexer clears its sections without the lock when a backend reset fails. Runs in which no reset fails are safe
  (`IndexerRuns.ResetFreeHeadsChained`). `IndexerRuns.OverlapExact` says for every interleaving of the clearing with a
  rewrite when the heads stay chained, `IndexerRuns.OverlapStep` for every single step, and `IndexerRuns.RaceExample`
  is a run from a start that breaks them.
- A restart forgets the indexer's checkpoint, and adding it again has no effect. `IndexerRuns.CheckpointRecovery` says
  when the index can be read back all the same, `IndexerRuns.RestartExample` is a run after which it cannot.
- A section may be begun after a reorganisation before the new branch has confirmed it: a reorganisation does not take the
  required depth off again. `IndexerConfirms.FreshExactly` says for which configurations, `IndexerConfirms.StaleBegin` is
  a run, and `IndexerConfirms.BegunIsConfirmed` what holds of all runs.
- The buffer under a credential request does not say where the nonce ends, so it binds nonce and key hash only for nonces
  of one length (`IdemixIssuance.RequestDataBinds`, `IdemixIssuance.NonceShifts`).
- A credential that signs the identity is accepted, but no signature made with it is
  (`IdemixSignature.SignatureCompleteness`); `IdemixSignature.DegenerateArises` shows how it is issued.
- A generated issuer key fails its own check exactly when one base is the identity
  (`IdemixIssuerKey.KeyCompleteness`).
- An empty derivation path prints as `m`, which does not parse (`DerivationPath.PrintParse`).
- A cache with a retention ratio of one never makes room (`AuthCacheRuns.PurgeMakesRoom`, `AccessCache.RetainedPart`), and
  so has no bound (`AuthCacheUse.GrowsWithoutEviction`).

Where comments and code differ, the code is followed: the side chain import loops on a pruned ancestor although a
comment speaks of an unknown one, and the signature's responses for `e` and `r3` subtract although comments add.

## Model

| member | source | states |
|---|---|---|
| `Ancestry.Parent` | src/geth_fuzz/core/blockchain.go:884-897 | A parent found in the store lies one number lower |
| `Ancestry.AncestorHasLess` | src/geth_fuzz/core/blockchain.go:1424-1425 | A proper ancestor has strictly less total difficulty |
| `Ancestry.TotalDifficultyGrows` | src/geth_fuzz/core/blockchain.go:1374-1385 | Storing more blocks changes no complete block's total difficulty |
| `CanonicalChain.BlockChain.constructor` | src/geth_fuzz/core/blockchain.go:705-731 | A chain reset to its genesis block has all indexes consistent |
| `CanonicalChain.BlockChain.WriteHeadBlock` | src/geth_fuzz/core/blockchain.go:771-798 | The whole state written for a new head, including that the header and fast heads follow exactly when the block was not canonical |
| `CanonicalChain.BlockChain.FindFork` | src/geth_fuzz/core/blockchain.go:2110-2153 | The two walks stop at the nearest common ancestor; they succeed whenever the branches share their first block |
| `CanonicalChain.BlockChain.WriteBranch` | src/geth_fuzz/core/blockchain.go:2170-2181 | The new branch except its head is in the index and its transactions in the lookup |
| `CanonicalChain.BlockChain.CollectTxs` | src/geth_fuzz/core/blockchain.go:2139-2187 | The transactions gathered from a segment are exactly those of its blocks |
| `CanonicalChain.BlockChain.DeleteAbove` | src/geth_fuzz/core/blockchain.go:2188-2199 | Deleting upward to the first gap removes exactly the entries above the number |
| `CanonicalChain.BlockChain.Reorg` | src/geth_fuzz/core/blockchain.go:2054-2199 | What a reorganisation leaves in index, lookup and heads, in terms of the two segments above the common ancestor |
| `CanonicalChain.BlockChain.SwitchTo` | src/geth_fuzz/core/blockchain.go:1516-1530 | From every consistent state, reorganisation plus head write keeps every index equal to the new head's ancestry; no entry remains above it exactly after a deep fork or from a head that is not higher; the other heads follow exactly when the block is not at or below the old head in the index |
| `CanonicalChain.BlockChain.Extend` | src/geth_fuzz/core/blockchain.go:1527-1530 | Extending the head keeps every index equal to the ancestry, and leaves entries above the new head exactly when there were some; the other heads follow unless the block was left over in the index |
| `CanonicalChain.BlockChain.WriteKnownBlock` | src/geth_fuzz/core/blockchain.go:1387-1401 | The same for any stored block, with the exact condition for entries above it and for the other head markers from every consistent state |
| `CanonicalChain.BlockChain.WriteBlockWithoutState` | src/geth_fuzz/core/blockchain.go:1374-1385 | Storing a block with its total keeps all invariants |
| `CanonicalChain.BlockChain.WriteBlockWithState` | src/geth_fuzz/core/blockchain.go:1413-1530 | Fails exactly without a parent; otherwise stores the exact total and decides: the heavier branch wins, a tie goes to the lower block, at equal numbers the head stays if it is the local miner's, else the block wins if it is or if the coin says so. Keeps all invariants, says exactly when entries remain above the head and where the other heads point; the head's total never decreases, and heads that agree with a clear index keep agreeing |
| `CanonicalChain.BlockChain.ChooseHead` | src/geth_fuzz/core/blockchain.go:1498-1530 | The same rules for totals, numbers, local blocks and the coin, with the same conditions on leftover entries and the other heads |
| `CanonicalChain.BlockChain.PreferredIsNotBelow` | src/geth_fuzz/core/blockchain.go:1498-1515 | A preferred block that is already in the index at or below the head is the head, since ancestors weigh less |
| `CanonicalChain.BlockChain.StoreGrows` | src/geth_fuzz/core/blockchain.go:1427-1438 | One more block keeps ledger, index and lookup correct |
| `CanonicalChain.BlockChain.RecordedParent` | src/geth_fuzz/core/blockchain.go:1417-1425 | Totals needed by a write are on record and agree with the ledger |
| `CanonicalChain.LookupFollowsSwitch` | src/geth_fuzz/core/blockchain.go:2110-2187 | After a switch the lookup maps exactly the new branch's transactions to their block numbers |
| `CanonicalChain.SwitchedLookupForward` | src/geth_fuzz/core/blockchain.go:2172-2187 | Every transaction of the new branch is found at its number |
| `CanonicalChain.SwitchedLookupBackward` | src/geth_fuzz/core/blockchain.go:2182-2187 | Nothing off the new branch is left in the lookup |
| `CanonicalChain.CanonFollowsSwitch` | src/geth_fuzz/core/blockchain.go:2170-2199 | After a switch and the head write the index is the ancestry of the new head |
| `CanonicalChain.BranchStep` | src/geth_fuzz/core/blockchain.go:2172-2174 | Each write of the branch extends the written part, and was not canonical before |
| `CanonicalChain.BranchesDiffer` | src/geth_fuzz/core/blockchain.go:2129-2153 | Above the nearest common ancestor the branches share no block |
| `CanonicalChain.ForkDepth` | src/geth_fuzz/core/blockchain.go:2172-2189 | A fork is at least two blocks deep exactly when the block's parent is not in the index |
| `CanonicalChain.StaleEntries` | src/geth_fuzz/core/blockchain.go:2188-2196 | From every consistent index, no entry survives above the new head if and only if the fork is deep or the old head was not higher |
| `CanonicalChain.AlreadyCanonical` | src/geth_fuzz/core/blockchain.go:772-773 | The new head is in the index at or below the old head, before the switch as after it, exactly when it is an ancestor of the old head |
| `CanonicalChain.CanonExtends` | src/geth_fuzz/core/blockchain.go:775-779 | Writing a child of the head keeps the index an ancestry |
| `CanonicalChain.LedgerGrows` | src/geth_fuzz/core/blockchain.go:1417-1433 | Recording parent total plus difficulty keeps the ledger exact |
| `CanonicalChain.IndexesKept` | src/geth_fuzz/core/blockchain.go:1427-1438 | Storing blocks off the branch disturbs neither index nor lookup |
| `CanonicalChain.ShallowForkExample` | src/geth_fuzz/core/blockchain.go:2188-2196 | A run after which an entry above the head is left over |
| `HeaviestChain.WriteAll` | src/geth_fuzz/core/blockchain.go:1413-1530 | Over any run of writes, in any order, a block is refused exactly when its parent is neither stored before nor accepted before it, the store is the initial one plus the accepted blocks, and the head is at every point, among the old head and the blocks accepted so far, of the largest total and of the least number with that total |
| `HeaviestChain.WriteOne` | src/geth_fuzz/core/blockchain.go:1413-1530 | One write is refused exactly without a parent, else stored, and the head then outranks both the old head and the block: a larger total, or the same and a number not higher |
| `HeaviestChain.RankWins` | src/geth_fuzz/core/blockchain.go:1498-1530 | The fork choice leaves a head that outranks both candidates |
| `HeaviestChain.LeadsNext` | src/geth_fuzz/core/blockchain.go:1498-1530 | A head that outranks its predecessor and the new block outranks everything accepted so far |
| `SideChain.InsertIterator.constructor` | src/geth_fuzz/core/blockchain_insert.go:93-102 | The iterator starts before the first block with no result taken |
| `SideChain.InsertIterator.Next` | src/geth_fuzz/core/blockchain_insert.go:104-122 | Advances by one and returns the block with the verdict that belongs to it |
| `SideChain.InsertIterator.Peek` | src/geth_fuzz/core/blockchain_insert.go:124-143 | Shows the next block's header result without advancing; no result is taken twice or skipped |
| `SideChain.InsertIterator.Previous` | src/geth_fuzz/core/blockchain_insert.go:145-151 | The block before the current one, if any |
| `SideChain.WriteSideBlock` | src/geth_fuzz/core/blockchain.go:1944-1987 | Refuses exactly a block that claims the canonical block's state root; otherwise stores it with its exact total |
| `SideChain.WriteSideBlocks` | src/geth_fuzz/core/blockchain.go:1934-1988 | Reports ghost state exactly when a block of the pruned stretch repeats a canonical state, after storing exactly those before it; otherwise stores the whole stretch, and mixing recorded totals with a running sum keeps the ledger exact |
| `SideChain.RepeatKept` | src/geth_fuzz/core/blockchain.go:1950-1975 | Storing the stretch does not change which of its blocks repeat a canonical state |
| `SideChain.RepeatsAncestor` | src/geth_fuzz/core/blockchain.go:1950-1975 | A block is refused as ghost state exactly when the head's ancestor at its number is another block with the same state root |
| `SideChain.CollectPruned` | src/geth_fuzz/core/blockchain.go:2000-2014 | The walk terminates at the nearest ancestor with state, or finds none exactly when no stored ancestor has any |
| `SideChain.ImportBatches` | src/geth_fuzz/core/blockchain.go:2015-2048 | The batches concatenate to the oldest-first path, cut greedily at 2048 blocks or 64 MB; every one but the last was imported, and the status follows from how the last one ended |
| `SideChain.BatchOutcome` | src/geth_fuzz/core/blockchain.go:2015-2048 | A batch has at most 2048 blocks and is cut as soon as it has 2048 or more than 64 MB, or the path ends; failure and shutdown are reported exactly as the last import ended, a shutdown only after a full batch |
| `SideChain.AddBlock` | src/geth_fuzz/core/blockchain.go:2020-2036 | One more block either is held back or completes a full batch |
| `SideChain.InsertSideChain` | src/geth_fuzz/core/blockchain.go:1934-2049 | Which of the four outcomes it has, exactly: ghost state, stored only, no ancestor with state, or re-imported; when the side chain's total reaches the head's, the batches run from the child of the nearest ancestor with state up to the last stored block |
| `TrieCollector.Collector.Push` | src/geth_fuzz/core/blockchain.go:1452-1454 | A pushed root gains one reference and one queue entry |
| `TrieCollector.Collector.DereferenceAt` | src/geth_fuzz/core/blockchain.go:1489-1494 | A popped root loses exactly one reference |
| `TrieCollector.Collector.CollectUpTo` | src/geth_fuzz/core/blockchain.go:1487-1495 | Exactly the roots above the chosen number stay queued |
| `TrieCollector.Collector.WriteState` | src/geth_fuzz/core/blockchain.go:1452-1496 | Above 128, every queued root is newer than the retention window; every root ever referenced is dereferenced or queued |
| `TrieCollector.Collector.Stop` | src/geth_fuzz/core/blockchain.go:1032-1034 | Shutdown leaves no outstanding reference |
| `Rewind.RewindHead` | src/geth_fuzz/core/blockchain.go:502-545 | The head is the highest eligible ancestor that the walk comes to, or a first block with state, or genesis; the number reported for a requested root is the highest one with it that the walk comes to, else zero, and the head is not above it; nil is dereferenced exactly when the walk strands |
| `BlockHashes.HashFn.constructor` | src/geth_fuzz/core/evm.go:76-79 | The closure starts with an empty cache |
| `BlockHashes.HashFn.Query` | src/geth_fuzz/core/evm.go:81-106 | A query returns what the uncached walk would, and only extends the cache |
| `BlockHashes.QueryAll` | src/geth_fuzz/core/evm.go:76-107 | Any sequence of queries is answered as without a cache |
| `BlockHashes.AnswerIsAncestor` | src/geth_fuzz/core/evm.go:76-107 | Below the reference number the answer is the ancestor's hash whenever it is stored |
| `BlockHashes.AnswerAboveIsZero` | src/geth_fuzz/core/evm.go:86-88 | At or above it the answer is zero, except that 2^64-1 wraps to the first block's parent link: zero exactly when that link is |
| `BlockHashes.LinkIsParent` | src/geth_fuzz/core/evm.go:93-104 | Links that can be followed are parents of stored ancestors |
| `SectionIndex.HeadsCanonical` | src/geth_fuzz/core/chain_indexer.go:422-429 | If the last section head is canonical, so are all heads down to the checkpoint's own |
| `SectionIndex.SpanCanonical` | src/geth_fuzz/core/chain_indexer.go:388-417 | A span of blocks that ends on the canonical chain starts on it |
| `SectionIndex.SpanBottom` | src/geth_fuzz/core/chain_indexer.go:397-412 | No section above the first continues from the zero hash |
| `IndexerRuns.StepInv` | src/geth_fuzz/core/chain_indexer.go:130-491 | Every step, including every single database write, keeps the invariant, as long as the clearing overlaps no rewrite |
| `IndexerRuns.RunInv` | src/geth_fuzz/core/chain_indexer.go:130-491 | Every run without overlapping clears keeps it |
| `IndexerRuns.ReachableHeadsChained` | src/geth_fuzz/core/chain_indexer.go:329-491 | In every state of such a run each section head at or above the checkpoint is exactly one section above the previous one, in memory and in the database |
| `IndexerRuns.VerifiedHeadsCanonical` | src/geth_fuzz/core/chain_indexer.go:422-429 | When a verification stops on a match, all those heads are canonical at their section ends |
| `IndexerRuns.ResetFreeHeadsChained` | src/geth_fuzz/core/chain_indexer.go:329-491 | The same for every run in which no backend reset fails, with no condition on the interleaving |
| `IndexerRuns.ResetFreeHeadsCanonical` | src/geth_fuzz/core/chain_indexer.go:422-429 | In every such run, all heads are canonical when a verification stops on a match |
| `IndexerRuns.OverlapStep` | src/geth_fuzz/core/chain_indexer.go:478-491 | Exactly when a single step of a rewrite or of the clearing keeps the heads chained, whatever it overlaps, from the counters |
| `IndexerRuns.OverlapExact` | src/geth_fuzz/core/chain_indexer.go:391-395 | For every interleaving of the clearing with a rewrite, the heads end up chained if and only if neither the count in memory nor that on disk is above the checkpoint; whichever ends last decides the count in memory |
| `IndexerRuns.ChainMovesInv` | src/geth_fuzz/core/chain_indexer.go:388-417 | Reorganisations of the chain itself, at any moment, keep the invariant |
| `IndexerRuns.CheckpointInv` | src/geth_fuzz/core/chain_indexer.go:130-143 | A new checkpoint keeps it, also while a section is processed |
| `IndexerRuns.ReorgInv` | src/geth_fuzz/core/chain_indexer.go:243-276 | A reorganisation event keeps it, also while a section is processed |
| `IndexerRuns.VerifyInv` | src/geth_fuzz/core/chain_indexer.go:422-429 | Each round of the verification keeps it |
| `IndexerRuns.ReadInv` | src/geth_fuzz/core/chain_indexer.go:397-412 | What was read so far without the lock is one ancestry above the old head |
| `IndexerRuns.NewSectionChained` | src/geth_fuzz/core/chain_indexer.go:350-353 | A section accepted after processing continues the stored heads, whatever happened in between |
| `IndexerRuns.FinishInv` | src/geth_fuzz/core/chain_indexer.go:348-368 | Finishing a section keeps the invariant, on success and on failure |
| `IndexerRuns.ClearInv` | src/geth_fuzz/core/chain_indexer.go:391-395 | Clearing without the lock keeps it as long as nothing else rewrites sections |
| `IndexerRuns.RestartIsSafe` | src/geth_fuzz/core/chain_indexer.go:469-491 | Without a checkpoint, a stop between any two writes can be recovered from |
| `IndexerRuns.RestartForgetsCheckpoint` | src/geth_fuzz/core/chain_indexer.go:130-143 | Adding the checkpoint again after a restart has no effect |
| `IndexerRuns.CheckpointRecovery` | src/geth_fuzz/core/chain_indexer.go:130-143 | After a checkpoint was added, a restart finds a chained index if and only if it would have before and the checkpoint's head continues it |
| `IndexerRuns.ContinuesAsNext` | src/geth_fuzz/core/chain_indexer.go:130-143 | Without leftover heads that means: it is the very next section and its head one section above the last |
| `IndexerRuns.RestartExample` | src/geth_fuzz/core/chain_indexer.go:130-143 | A run from an empty index after which a restart does not find a chained one |
| `IndexerRuns.ReorgDuringClear` | src/geth_fuzz/core/chain_indexer.go:391-395 | The schedule in which the clearing overtakes a reorganisation: consistent heads if and only if the checkpoint covers the sections it keeps |
| `IndexerRuns.RaceExample` | src/geth_fuzz/core/chain_indexer.go:391-395 | A run from a start that breaks the section heads |
| `IndexerRuns.Settles` | src/geth_fuzz/core/chain_indexer.go:478-491 | An uninterrupted rewrite of the section count is a run of single writes |
| `IndexerConfirms.NewHeadRaises` | src/geth_fuzz/core/chain_indexer.go:277-300 | What a new head does to the known sections, in terms of blocks and confirmations: when they grow, to what, and when they stay |
| `IndexerConfirms.NewHeadEffect` | src/geth_fuzz/core/chain_indexer.go:277-300 | The same by the count of whole sections that the head confirms |
| `IndexerConfirms.ReorgLowers` | src/geth_fuzz/core/chain_indexer.go:246-276 | What a reorganisation leaves known and stored, in terms of the blocks it kept |
| `IndexerConfirms.ReorgEffect` | src/geth_fuzz/core/chain_indexer.go:246-276 | The same by the count of whole sections in those blocks |
| `IndexerConfirms.JustifiedRun` | src/geth_fuzz/core/chain_indexer.go:243-378 | Over every run, nothing is known that was neither confirmed by an announced head nor covered by the checkpoint, and the updater works behind it |
| `IndexerConfirms.BegunIsConfirmed` | src/geth_fuzz/core/chain_indexer.go:243-337 | Whenever a section is begun, its last block lies at least the required confirmations below a head announced before, and no reorganisation since went below it; or the checkpoint covers the section |
| `IndexerConfirms.FreshExactly` | src/geth_fuzz/core/chain_indexer.go:224-276 | That this head was named by the last reorganisation or since is true of all runs if and only if no confirmations are required |
| `IndexerConfirms.StaleBegin` | src/geth_fuzz/core/chain_indexer.go:224-276 | For every configuration with confirmations, a run that begins a section without them after a reorganisation |
| `IndexerConfirms.FreshAfterGrowth` | src/geth_fuzz/core/chain_indexer.go:224-300 | It does hold once the chain has grown by the required confirmations past the last reorganisation |
| `IndexerProgress.SectionReads` | src/geth_fuzz/core/chain_indexer.go:397-417 | While the canonical chain stays put and the backend accepts, reading a section ends with the canonical hash at its end |
| `IndexerProgress.SectionCompletes` | src/geth_fuzz/core/chain_indexer.go:318-366 | With sections known beyond those stored and a canonical last head, the next section can be completed, with the canonical hash as its head |
| `IndexerProgress.VerificationEnds` | src/geth_fuzz/core/chain_indexer.go:422-429 | An undisturbed verification ends after dropping exactly stale sections from the end, down to a canonical one or the checkpoint |
| `ChainIndexer.ChainIndexer.constructor` | src/geth_fuzz/core/chain_indexer.go:103-122 | Starts from what the database holds |
| `ChainIndexer.ChainIndexer.SetValidSections` | src/geth_fuzz/core/chain_indexer.go:478-491 | Removes exactly the heads from the new count up to the old one |
| `ChainIndexer.ChainIndexer.VerifyLastHead` | src/geth_fuzz/core/chain_indexer.go:419-429 | Keeps exactly the sections that are still canonical, when the canonical index is linked; never cuts below the checkpoint |
| `ChainIndexer.ChainIndexer.NewHead` | src/geth_fuzz/core/chain_indexer.go:242-300 | A new head raises the known sections to the largest count it confirms, not below the checkpoint and not past one that is not met, and changes nothing else; a reorganisation lowers known and stored to the sections that end at or below its block, but not stored below the checkpoint. Both act as the state machine says and keep its invariant |
| `ChainIndexer.ChainIndexer.AddCheckpoint` | src/geth_fuzz/core/chain_indexer.go:130-143 | Changes nothing when the checkpoint or the index is already past the section; otherwise the checkpoint, its head and the section count are exactly the new ones |
| `ChainIndexer.ChainIndexer.Sections` | src/geth_fuzz/core/chain_indexer.go:431-440 | Drops only stale sections, down to a match or the checkpoint; the reported head is the canonical block at the reported number; wrap-around for no sections |
| `ChainIndexer.ChainIndexer.BeginSection` | src/geth_fuzz/core/chain_indexer.go:329-337 | Drops only stale sections and takes up the section after the verified ones, on top of a canonical head |
| `ChainIndexer.ChainIndexer.FinishSection` | src/geth_fuzz/core/chain_indexer.go:348-368 | Adds the section only on top of the head it was processed from, and then exactly its head and count; otherwise drops only stale sections, down to a match or the checkpoint, and forgets what is known |
| `ChainIndexer.ProcessSection` | src/geth_fuzz/core/chain_indexer.go:388-417 | Succeeds exactly when every block read follows the one before; the result is exactly one section above the old head |
| `ChainIndexer.KeepsCanonical` | src/geth_fuzz/core/chain_indexer.go:419-429 | Sections kept by a verification are canonical, those dropped are not |
| `Field.InverseInverts` | src/fabric_fuzz/idemix/signature.go:73-75 | Inversion modulo the prime group order inverts |
| `Field.Cancel` | src/fabric_fuzz/idemix/signature.go:293-299 | A nonzero factor cancels modulo the group order |
| `Transcript.AppendBytes` | src/fabric_fuzz/idemix/util.go:54-83 | Writes bytes at an index of the buffer, dropping what does not fit, and returns the next index |
| `Transcript.PutExtends` | src/fabric_fuzz/idemix/util.go:54-83 | Writing at the end of the written part extends it |
| `IdemixSuite.PairedSum` | src/fabric_fuzz/idemix/credential.go:70-85 | The attribute product computed two bases at a time, odd one last, is the plain sum |
| `IdemixIssuance.RequestChallenge` | src/fabric_fuzz/idemix/credrequest.go:48-62 | The buffer filled through a moving index hashes to the challenge |
| `IdemixIssuance.NewCredRequest` | src/fabric_fuzz/idemix/credrequest.go:35-73 | Builds the request with its proof |
| `IdemixIssuance.Check` | src/fabric_fuzz/idemix/credrequest.go:76-109 | Computes the request verdict, which `IdemixIssuance.RequestAcceptance` characterises |
| `IdemixIssuance.RequestAcceptance` | src/fabric_fuzz/idemix/credrequest.go:76-109 | A request is accepted if and only if it has a nonce of at most 64 bytes and its challenge is the hash of the label, the commitment that its response opens, the base, the pseudonym, the nonce and the key hash; undefined exactly without a nonce, out of range exactly for a longer one |
| `IdemixIssuance.RequestLayout` | src/fabric_fuzz/idemix/credrequest.go:48-62 | The buffer is that concatenation, the key hash cut or padded to the room that the nonce leaves |
| `IdemixIssuance.RequestDataBinds` | src/fabric_fuzz/idemix/credrequest.go:48-62 | Equal buffers bind commitment, base and pseudonym; they bind nonce and key hash if and only if the nonces have one length |
| `IdemixIssuance.NonceShifts` | src/fabric_fuzz/idemix/credrequest.go:48-62 | For every nonce shorter than 32 bytes, another nonce and key hash with the same buffer |
| `IdemixIssuance.RequestCompleteness` | src/fabric_fuzz/idemix/credrequest.go:35-109 | A request carries the nonce and the pseudonym of the secret key; made with a nonce it is accepted, without one refused as undefined |
| `IdemixIssuance.SchnorrRecovers` | src/fabric_fuzz/idemix/credrequest.go:90-92 | The checker recovers the prover's commitment |
| `IdemixIssuance.RequestSpecialSoundness` | src/fabric_fuzz/idemix/credrequest.go:76-109 | Two accepted requests for one pseudonym, under any two hashes, with one commitment and different challenges determine the secret key |
| `IdemixIssuance.SchnorrExtraction` | src/fabric_fuzz/idemix/credrequest.go:90-92 | Two responses that open one commitment under different challenges determine the exponent |
| `IdemixIssuance.NewCredential` | src/fabric_fuzz/idemix/credential.go:37-107 | Issues a credential, or refuses a bad request or attribute count |
| `IdemixIssuance.IssueOutcome` | src/fabric_fuzz/idemix/credential.go:37-107 | A credential is issued if and only if the request is accepted and every attribute has a value; it carries the drawn numbers and the attributes and is a BBS+ signature on the pseudonym with them |
| `IdemixIssuance.VerifyCredential` | src/fabric_fuzz/idemix/credential.go:111-160 | Computes the credential verdict with its paired loops |
| `IdemixIssuance.CredentialAcceptance` | src/fabric_fuzz/idemix/credential.go:111-160 | A credential is accepted if and only if it is a BBS+ signature on secret key and attributes |
| `IdemixIssuance.IssuanceCompleteness` | src/fabric_fuzz/idemix/credential.go:37-160 | A credential issued on an accepted request verifies, for any number of attributes |
| `IdemixIssuance.IssuedFromRequestVerifies` | src/fabric_fuzz/idemix/credential.go:37-160 | Request, check, issuance and verification compose |
| `IdemixSignature.HiddenIndices` | src/fabric_fuzz/idemix/signature.go:37-46 | The indices that stay hidden, in increasing order |
| `IdemixSignature.HiddenExactly` | src/fabric_fuzz/idemix/signature.go:37-46 | An index is hidden if and only if its disclosure byte is zero |
| `IdemixSignature.SearchStaysInRange` | src/fabric_fuzz/idemix/signature.go:129-131 | The lookup of the handle's randomness is in range if and only if some attribute at or after it stays hidden |
| `IdemixSignature.HiddenPlusDisclosed` | src/fabric_fuzz/idemix/signature.go:315-328 | Hidden and disclosed parts make up the whole attribute product |
| `IdemixSignature.SignChallenge` | src/fabric_fuzz/idemix/signature.go:164-197 | The buffer and its reuse for the second hash compute the challenge |
| `IdemixSignature.SecondHash` | src/fabric_fuzz/idemix/signature.go:192-197 | The shortened buffer holds the first hash and the nonce |
| `IdemixSignature.SignLayout` | src/fabric_fuzz/idemix/signature.go:174-190 | The buffer is the concatenation of all proof elements, with the key hash cut or padded to 32 bytes |
| `IdemixSignature.SignDataBinds` | src/fabric_fuzz/idemix/signature.go:174-190 | Equal buffers bind every point, the issuer key, the disclosure and the message |
| `IdemixSignature.NewSignature` | src/fabric_fuzz/idemix/signature.go:53-240 | Computes the signature, with its error and out-of-range cases |
| `IdemixSignature.SignOutcome` | src/fabric_fuzz/idemix/signature.go:53-240 | When there is a signature, what it carries and how it answers; every refusal names a cause that is there |
| `IdemixSignature.CommitPoints` | src/fabric_fuzz/idemix/signature.go:84-162 | Computes the randomised credential and the commitments |
| `IdemixSignature.AttributeCommitment` | src/fabric_fuzz/idemix/signature.go:144-159 | The second commitment by paired multiplication is the plain sum |
| `IdemixSignature.Responses` | src/fabric_fuzz/idemix/signature.go:199-212 | Computes the responses from reduced intermediate values |
| `IdemixSignature.AnswerIsHonest` | src/fabric_fuzz/idemix/signature.go:199-212 | Each response answers the challenge for the secret behind it |
| `IdemixSignature.VerifySignature` | src/fabric_fuzz/idemix/signature.go:246-407 | Computes the verdict, which `IdemixSignature.SignatureAcceptance` and `IdemixSignature.SignatureRefusals` characterise |
| `IdemixSignature.SignatureAcceptance` | src/fabric_fuzz/idemix/signature.go:246-407 | A signature is accepted if and only if the indices are good, no revocation algorithm is named, some attribute at or after the handle is hidden, every disclosed value is there, the responses are as many as the hidden attributes, the randomised credential is not the identity, the pairing equation holds, and the challenge is the double hash of the label, the three commitments that the responses open, the four points, the key hash, the disclosure and the message, with the nonce |
| `IdemixSignature.SignatureRefusals` | src/fabric_fuzz/idemix/signature.go:246-407 | Every error, and every index out of range, names a cause that is there |
| `IdemixSignature.SignedLayout` | src/fabric_fuzz/idemix/signature.go:334-400 | The buffer hashed by the verifier is that concatenation |
| `IdemixSignature.MessageBound` | src/fabric_fuzz/idemix/signature.go:334-407 | A signature accepted for two messages shows two byte strings with one double hash |
| `IdemixSignature.RecoverPoints` | src/fabric_fuzz/idemix/signature.go:301-332 | Recomputes the commitments from the responses |
| `IdemixSignature.KnownPart` | src/fabric_fuzz/idemix/signature.go:321-328 | The generator times the disclosed attribute terms |
| `IdemixSignature.RecoversT2` | src/fabric_fuzz/idemix/signature.go:312-328 | The verifier's second value equals the signer's, through the credential equation |
| `IdemixSignature.CommitmentsRecovered` | src/fabric_fuzz/idemix/signature.go:301-332 | For every challenge the verifier recovers exactly the signer's points |
| `IdemixSignature.PairingHolds` | src/fabric_fuzz/idemix/signature.go:289-299 | The pairing check holds for a randomised credential |
| `IdemixSignature.SignatureCompleteness` | src/fabric_fuzz/idemix/signature.go:53-407 | Every signature of a credential holder verifies with the same disclosed values, except exactly when the credential's point is the identity |
| `IdemixSignature.OtherMessageRefused` | src/fabric_fuzz/idemix/signature.go:53-407 | The signature of a credential holder is refused for another message exactly when the challenge for it differs |
| `IdemixSignature.DegenerateCredential` | src/fabric_fuzz/idemix/signature.go:290-292 | That happens exactly when the credential signs the identity |
| `IdemixSignature.DegenerateArises` | src/fabric_fuzz/idemix/credential.go:59-107 | For every request and attribute list there is a draw of s for which the issuer signs the identity, and the user's check accepts the credential |
| `IdemixSignature.DegenerateNeverVerifies` | src/fabric_fuzz/idemix/signature.go:290-292 | No signature made with such a credential verifies |
| `IdemixSoundness.NymChallenge` | src/fabric_fuzz/idemix/nymsignature.go:38-59 | The buffer hashes to the challenge |
| `IdemixSoundness.NewNymSignature` | src/fabric_fuzz/idemix/nymsignature.go:16-71 | Computes a pseudonym signature |
| `IdemixSoundness.VerifyNym` | src/fabric_fuzz/idemix/nymsignature.go:74-109 | Computes its verdict, which `IdemixSoundness.NymAcceptance` characterises |
| `IdemixSoundness.NymAcceptance` | src/fabric_fuzz/idemix/nymsignature.go:74-109 | A pseudonym signature is accepted if and only if its challenge is the double hash of the label, the commitment that its responses open, the pseudonym, the key hash and the message, with the nonce |
| `IdemixSoundness.NymLayout` | src/fabric_fuzz/idemix/nymsignature.go:38-52 | The buffer is that concatenation |
| `IdemixSoundness.NymDataBinds` | src/fabric_fuzz/idemix/nymsignature.go:38-52 | Equal buffers bind commitment, pseudonym, key hash and message |
| `IdemixSoundness.NymCompleteness` | src/fabric_fuzz/idemix/nymsignature.go:16-109 | A signature by the owner of the pseudonym verifies |
| `IdemixSoundness.NymSpecialSoundness` | src/fabric_fuzz/idemix/nymsignature.go:74-109 | Two accepted pseudonym signatures, under any two hashes, with one commitment and different challenges determine an opening of the pseudonym |
| `IdemixSoundness.SignatureSpecialSoundness` | src/fabric_fuzz/idemix/signature.go:246-407 | Two accepted signatures, of any messages and under any two hashes, with the same points and commitments and different challenges determine a credential that the credential check accepts, with the disclosed values in it and a secret key that opens the pseudonym |
| `IdemixSoundness.SignatureExtraction` | src/fabric_fuzz/idemix/signature.go:289-332 | The same from the pairing check and the recovered commitments alone |
| `IdemixSoundness.ExtractedEquations` | src/fabric_fuzz/idemix/signature.go:305-328 | The extracted exponents satisfy the equations behind the first two commitments |
| `IdemixSoundness.ExtractedPairing` | src/fabric_fuzz/idemix/signature.go:289-299 | With the pairing check they satisfy the BBS+ equation |
| `IdemixSoundness.MergeDot` | src/fabric_fuzz/idemix/signature.go:321-328 | Disclosed values and extracted hidden ones make one attribute list |
| `IdemixIssuerKey.HasDuplicates` | src/fabric_fuzz/idemix/issuerkey.go:30-38 | Reports exactly a repeated attribute name |
| `IdemixIssuerKey.KeyChallenge` | src/fabric_fuzz/idemix/issuerkey.go:81-91 | The buffer hashes to the challenge |
| `IdemixIssuerKey.NewIssuerKey` | src/fabric_fuzz/idemix/issuerkey.go:29-110 | Generates a key with its proof, or refuses duplicate names |
| `IdemixIssuerKey.CheckKey` | src/fabric_fuzz/idemix/issuerkey.go:114-183 | Computes the key verdict, which `IdemixIssuerKey.KeyAcceptance` characterises, and sets the hash again |
| `IdemixIssuerKey.KeyAcceptance` | src/fabric_fuzz/idemix/issuerkey.go:114-183 | A key is accepted if and only if its second base is not the identity, every attribute has a base, and the challenge is the hash of both commitments that the response opens and the points of the key; nothing but the hash changes |
| `IdemixIssuerKey.KeyLayout` | src/fabric_fuzz/idemix/issuerkey.go:81-91 | The buffer is that concatenation |
| `IdemixIssuerKey.KeyDataBinds` | src/fabric_fuzz/idemix/issuerkey.go:81-91 | Equal buffers bind both commitments and the points of the key |
| `IdemixIssuerKey.KeyCompleteness` | src/fabric_fuzz/idemix/issuerkey.go:29-183 | A generated key passes its check unchanged if and only if its second base is not the identity |
| `IdemixIssuerKey.KeySpecialSoundness` | src/fabric_fuzz/idemix/issuerkey.go:114-172 | Two accepted proofs for one key, under any two hashes, with the same commitments and different challenges determine one exponent behind both parts of the key |
| `IdemixIssuerKey.ProtocolCompleteness` | src/fabric_fuzz/idemix/signature.go:53-407 | From key generation through request and issuance no step fails, and a signature that hides the handle verifies if and only if the credential does not sign the identity |
| `WeakBB.VerifyMeans` | src/fabric_fuzz/idemix/weak-bb.go:35-49 | The pairing check is an equation between exponents |
| `WeakBB.UniqueSignature` | src/fabric_fuzz/idemix/weak-bb.go:16-49 | A signature verifies if and only if it is the one the signer computes; there is none when key and message cancel |
| `AuthCacheRuns.StepInv` | src/fabric_fuzz/discovery/authcache.go:65-188 | Every critical section and every configuration change keeps the invariant |
| `AuthCacheRuns.RunInv` | src/fabric_fuzz/discovery/authcache.go:65-188 | Every interleaving keeps it |
| `AuthCacheRuns.NextCacheInv` | src/fabric_fuzz/discovery/authcache.go:102-188 | No cache ever holds an entry older than the sequence it was last emptied for, even when a delayed call empties it for an older one, or the sequence moves between the second look at it and the write |
| `AuthCacheRuns.NextAtInv` | src/fabric_fuzz/discovery/authcache.go:102-139 | A call that found the cache valid sees no entry older than the sequence it read |
| `AuthCacheRuns.FilledCache` | src/fabric_fuzz/discovery/authcache.go:122-139 | A result not older than what the cache was emptied for can be stored, whatever the current sequence is |
| `AuthCacheRuns.LocksMove` | src/fabric_fuzz/discovery/authcache.go:124-138 | A cache is locked exactly by the call that is about to write to it |
| `AuthCacheRuns.ReturnedOutcome` | src/fabric_fuzz/discovery/authcache.go:65-139 | What any returned call was told, for data with the same key |
| `AuthCacheRuns.Freshness` | src/fabric_fuzz/discovery/authcache.go:65-139 | Every answer is the uncached check's under a sequence the channel had during the call, at least as new as the one read; an error exactly for data without a key |
| `AuthCacheRuns.StableAnswer` | src/fabric_fuzz/discovery/authcache.go:65-139 | Without a configuration change during the call the answer is the current uncached one |
| `AuthCacheRuns.Progress` | src/fabric_fuzz/discovery/authcache.go:65-188 | No call gets stuck before it returns: it can go on, or the call that holds the lock it needs can |
| `AuthCacheRuns.PurgeMakesRoom` | src/fabric_fuzz/discovery/authcache.go:147-166 | A purge of a full or overgrown cache makes room if and only if it evicts all entries or more than the excess |
| `AuthCacheUse.Hit` | src/fabric_fuzz/discovery/authcache.go:102-113 | A call that finds a verdict for the current configuration returns it after four critical sections, none of which is the check |
| `AuthCacheUse.SecondCallHits` | src/fabric_fuzz/discovery/authcache.go:102-139 | Once a call has written its verdict, the same request gets it without a new check |
| `AuthCacheUse.SizeBound` | src/fabric_fuzz/discovery/authcache.go:117-166 | Over every run in which at most k calls at once are past the size check, no cache has more than the maximum size less one plus k entries, provided a purge evicts anything |
| `AuthCacheUse.Trade` | src/fabric_fuzz/discovery/authcache.go:102-166 | Every critical section keeps the balance of entries and calls that may still add one |
| `AuthCacheUse.GrowsWithoutEviction` | src/fabric_fuzz/discovery/authcache.go:147-166 | When a purge evicts nothing, a call adds its entry to a cache of any size |
| `AccessCache.RetainedPart` | src/fabric_fuzz/discovery/authcache.go:155-157 | A retention ratio from zero to one evicts between none and all, and some exactly when it is below one |
| `AccessCache.AccessCache.constructor` | src/fabric_fuzz/discovery/authcache.go:94-100 | A new cache is empty, for sequence zero |
| `AccessCache.AccessCache.IsValid` | src/fabric_fuzz/discovery/authcache.go:168-172 | Compares the sequence with the cache's |
| `AccessCache.AccessCache.ConfigChange` | src/fabric_fuzz/discovery/authcache.go:174-180 | Empties the cache for a sequence |
| `AccessCache.AccessCache.Lookup` | src/fabric_fuzz/discovery/authcache.go:182-188 | A hit returns the entry |
| `AccessCache.AccessCache.PurgeEntries` | src/fabric_fuzz/discovery/authcache.go:147-166 | Evicts exactly as many entries as asked, or all when there are fewer or the number is negative, in any order |
| `AccessCache.AccessCache.Store` | src/fabric_fuzz/discovery/authcache.go:135-138 | Adds one entry |
| `AccessCache.AccessCache.EligibleForService` | src/fabric_fuzz/discovery/authcache.go:102-139 | An uninterrupted call answers as the check itself, leaves the answer in a sound cache for the current sequence, and changes nothing for data without a key |
| `AccessCache.HitIsCurrent` | src/fabric_fuzz/discovery/authcache.go:109-113 | An entry of a cache valid for the newest sequence was computed under it |
| `Principals.CollectPrincipals` | src/fabric_fuzz/msp/mspimpl.go:421-454 | Succeeds exactly when every combination in the principal is supported, decodable and non-empty, with the simple principals from left to right; unsupported exactly for a combination under the first two versions, and the other errors only when such a combination is inside |
| `Principals.SatisfiesFlattened` | src/fabric_fuzz/msp/mspimpl.go:406-419 | Accepts exactly well-formed principals all of whose leaves are satisfied, and reports the first failing leaf |
| `Principals.SatisfiesRecursively` | src/fabric_fuzz/msp/idemixmsp.go:453-476 | The same for the recursive evaluator |
| `Principals.CompareChecks` | src/fabric_fuzz/msp/mspimpl.go:406-454 | Flattening and recursion accept the same principals, and return the same error on well-formed ones |
| `Principals.EmptyInside` | src/fabric_fuzz/msp/mspimpl.go:434-437 | An empty combination at any depth makes the whole fail |
| `Principals.FirstIsAll` | src/fabric_fuzz/msp/mspimpl.go:412-417 | The loop accepts exactly when all leaves are satisfied |
| `OrganizationalUnits.ValidateV1` | src/fabric_fuzz/msp/mspimplvalidate.go:129-155 | Accepts exactly when nothing is configured or some unit is recognized under one of its certifiers |
| `OrganizationalUnits.SpecialUnits` | src/fabric_fuzz/msp/mspimplvalidate.go:221-234 | The map of special units; of two roles with one name the later one counts |
| `OrganizationalUnits.ValidateV143` | src/fabric_fuzz/msp/mspimplvalidate.go:206-258 | Accepts exactly when V1 does and, if enforced, exactly one listed unit is special and has the certifier its role demands, despite the early exits; each refusal names a cause that is there |
| `OrganizationalUnits.ClassifiedByRole` | src/fabric_fuzz/msp/mspimplvalidate.go:221-255 | That is: exactly one unit has the name of a role, and the last role of that name, in the order client, peer, admin, orderer, has no certifier or the unit's |
| `OrganizationalUnits.SpecialIsLast` | src/fabric_fuzz/msp/mspimplvalidate.go:221-234 | Of the roles that share a name, the last one counts |
| `OrganizationalUnits.HasOURole` | src/fabric_fuzz/msp/mspimpl.go:329-358 | A role is held exactly when it is configured and some unit has its name |
| `OrganizationalUnits.OneRoleName` | src/fabric_fuzz/msp/mspimplvalidate.go:206-258 | An identity accepted under enforcement holds a role, and no two roles with different names |
| `DerivationPath.ParseDerivationPath` | src/geth_fuzz/accounts/hd.go:61-118 | Computes the parse of a text; the lemmas below say what it is |
| `DerivationPath.RelativeParse` | src/geth_fuzz/accounts/hd.go:68-118 | For any such reader, a path written without a prefix parses to 0x8000002C, 0x8000003C, 0x80000000, 0 and the path |
| `DerivationPath.RelativeIsRooted` | src/geth_fuzz/accounts/hd.go:68-118 | A relative text and the same text behind m/44'/60'/0'/0/ parse alike, errors included |
| `DerivationPath.PrefixErrors` | src/geth_fuzz/accounts/hd.go:72-90 | A text is ambiguous if and only if its first component is blank, and empty if and only if it is m alone |
| `DerivationPath.SpaceIgnored` | src/geth_fuzz/accounts/hd.go:91-100 | White space around a component, and around the number before the mark, changes nothing |
| `DerivationPath.ComponentRange` | src/geth_fuzz/accounts/hd.go:95-115 | Numbers below 2^32 stand for themselves without the mark, and below 2^31 for 2^31 more with it; others are out of range, with the limit |
| `DerivationPath.SplitJoined` | src/geth_fuzz/accounts/hd.go:72-73 | Splitting at the separator undoes joining |
| `DerivationPath.JoinSplit` | src/geth_fuzz/accounts/hd.go:72-73 | Joining undoes splitting, and no part holds a separator |
| `DerivationPath.ParseComponent` | src/geth_fuzz/accounts/hd.go:90-112 | A parsed component fits 32 bits |
| `DerivationPath.PrintDerivationPath` | src/geth_fuzz/accounts/hd.go:120-136 | Prints a path in its canonical form |
| `DerivationPath.PrintParse` | src/geth_fuzz/accounts/hd.go:68-136 | For any such reader, parsing what was printed returns the path; only the empty path fails |
| `DerivationPath.ParsePrintParse` | src/geth_fuzz/accounts/hd.go:68-136 | For any such reader, whatever text was accepted, printing and parsing again changes nothing |
| `DerivationPath.DecimalRoundTrip` | src/geth_fuzz/accounts/hd.go:68-136 | With the decimal reader, parsing what was printed returns the path, with nothing assumed about numerals |
| `DerivationPath.DecimalRelative` | src/geth_fuzz/accounts/hd.go:68-118 | With the decimal reader, a path without a prefix continues the default root |
| `DerivationPath.DecimalParsePrintParse` | src/geth_fuzz/accounts/hd.go:68-136 | With the decimal reader, whatever text was accepted survives printing and parsing |
| `DerivationPath.ReadPrinted` | src/geth_fuzz/accounts/hd.go:101-112 | The decimal reader reads every printed number back |
| `DerivationPath.PrintRead` | src/geth_fuzz/accounts/hd.go:101-130 | Every plain decimal numeral is the printed form of its value |
| `DerivationPath.DecimalReaders` | src/geth_fuzz/accounts/hd.go:101-104 | The readers of numbers for which the round trip holds are exactly those that agree with the decimal reader on plain numerals |
| `DerivationPath.SplitPrinted` | src/geth_fuzz/accounts/hd.go:72-73 | Splitting a printed path gives its components |
| `DerivationPath.UnmarkedHardened` | src/geth_fuzz/accounts/hd.go:95-112 | A component at or above 2^31 without the mark is the hardened one and prints as such |
| `GasLimit.OneStep` | src/geth_fuzz/core/block_validator.go:108-129 | A step is the parent's 1024th part less one, or what is left to the target if that is less, towards the target and not past it |
| `GasLimit.UpUnlessOverflow` | src/geth_fuzz/core/block_validator.go:115-121 | A step up goes up if and only if it does not overflow 64 bits |
| `GasLimit.Converges` | src/geth_fuzz/core/block_validator.go:108-129 | The target, at least 5000, is reached in finitely many blocks and kept |
| `GasLimit.NeverBelowMinimum` | src/geth_fuzz/core/block_validator.go:108-129 | No limit of such a run is below the minimum |
| `GasLimit.StuckBelow` | src/geth_fuzz/core/block_validator.go:109-110 | Between 1024 and 2047 the limit never moves |

## Left out

- FISCO-BCOS: node start-up wiring and service proxies hold no such property.
- The key-value database, the freezer, the trie database, snapshots, caches and the priority queue are maps, sets and a least-element search.
- Fast sync, receipts, logs, events, metrics and transaction index maintenance are not modelled.
- The effect of re-importing a batch of side chain blocks is not modelled; what is imported, and in which order, is.
- Block verification, transaction execution and state commits are assumed to have succeeded where the source goes on after them; transactions are unique on a branch, as account nonces make them.
- A block hash names one block, block hashes are not zero, and difficulties are positive.
- Rewind.RewindHead: models the loop that finds the new head block, not the deletion of bodies and headers around it; a missing parent of a skipped block is reported as a result instead of the source's nil dereference.
- TrieCollector.Collector.WriteState: the flushes to disk by size and time are left out, as are archive nodes.
- TrieCollector.Collector.Stop: the commits of recent tries before the queue is drained are left out.
- IndexerRuns.StepInv: leaves out steps that overlap the clearing with a rewrite, for which the invariant is false; IndexerRuns.OverlapStep says exactly when the heads survive one.
- IndexerRuns.RunInv: leaves out runs with such an overlap; IndexerRuns.OverlapExact gives the condition for them.
- IndexerRuns.ReachableHeadsChained: the same runs; IndexerRuns.ResetFreeHeadsChained covers every run in which no reset fails.
- IndexerRuns.VerifiedHeadsCanonical: the same runs; IndexerRuns.ResetFreeHeadsCanonical covers every run in which no reset fails.
- IndexerRuns.ClearInv: the same overlap; IndexerRuns.OverlapStep gives the condition for the clearing's steps.
- IndexerRuns.OverlapExact: the test and decrement of the section count are one step, so lost updates between two processors are not modelled.
- ChainIndexer.ChainIndexer.NewHead: child indexers, the head cascaded to them and the update signal are left out, as are 64-bit overflows of block numbers.
- ChainIndexer.ChainIndexer.FinishSection: throttling and logging are left out.
- Curve, pairing and hash internals, and the protobuf and byte codecs of points and numbers, are replaced by exponents and arbitrary functions.
- Revocation is modelled for the algorithm without revocation; others are refused as in the source.
- Nil arguments of the Identity Mixer functions are not modelled; a missing nonce is.
- IdemixSignature.NewSignature: inversion of zero does not terminate in the source, so the first random exponent is required to be nonzero, and so is the issuer's exponent plus `e` in IdemixIssuance.NewCredential.
- AuthCacheRuns.Freshness: assumes that no two of the data submitted have the same digest; AuthCacheRuns.ReturnedOutcome does not.
- AccessCache.RetainedPart: the retained part is computed over the reals, not in floating point.
- Principals.SatisfiesRecursively: the judgement of a simple principal is a parameter, the same for both evaluators; the individual role, identity and unit principals are not modelled.
- OrganizationalUnits.ValidateV143: certificate chains, validity periods and revocation lists are left out, as is the 1.1 variant of the check.
- DerivationPath.ParseDerivationPath: how numbers are read is a parameter; the reader of plain decimal numerals is defined and the round trip proved for it, while prefixes, signs and underscores are whatever another reader makes of them.
- Path iterators, wallet management, gas pools and role bit masks would only add easy members.
