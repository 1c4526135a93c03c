# Verified model of the Syntavra runtime's algorithmic core

This project models the parts of the Syntavra runtime whose correctness depends on loops, protocols or
whole-history arguments, and proves what they promise. `dafny verify dfyconfig.toml` checks everything.

- **Code graph** (`Reachability`, `CodeGraph`, `CycleDetection`, `Layers`, `BlastRadius`, `CallHierarchy`, `Sums`,
  `PageRank`, `RankFlow`, `GraphMeaning`): the recursive component search with its stack and low links, breadth-first
  impact and call hierarchies with exact distances, and rank iteration with its conservation law.
- **Sealed evidence** (`Bytes`, `Integers`, `ChaCha`, `Poly1305`, `KeyDerivation`, `SealedObject`, `SealedFile`,
  `SealedFileCodec`, `CipherLayout`, `SealedLayout`, `KeyRing`): XChaCha20-Poly1305 with real arithmetic, the object and
  file formats, what they consist of byte by byte, and the key ring.
- **Last-good configuration** (`WireText`, `ConfigTree`, `ConfigWire`, `ConfigPaths`, `ConfigRoundTrip`, `ConfigLayers`,
  `ConfigPhases`, `ConfigMeaning`, `ConfigApply`, `ConfigApplyOutcomes`, `ConfigApplyConcurrent`): the canonical wire
  format, layer precedence, the fold with fallback, and the crash-safe transaction, both as one run and as interleaved
  steps of many processes.
- **Context selection** (`ContextItems`, `ContextGovernor`, `ContextPacking`, `ContextChoices`, `AdaptivePolicy`,
  `AdaptiveEvaluation`, `AdaptiveMeaning`, `AdaptiveOvershoot`): dependency-closed packing with local replacement, and the budget ladder with the exact
  configurations under which its fit can be wrong.
- **Sketches** (`HyperLogLog`, `FrequentItems`, `Moments`, `ColumnSketch`, `RowSample`): one-pass summaries against
  their batch definitions.
- **Contract graph, decision trace, tool discovery** (`ContractGraph`, `DecisionTrace`, `DiscoveryAnswer`,
  `DiscoveryMeaning`, `DiscoveryCache`): invalidation as a least fixpoint, a history commitment, and a cache that cannot be stale.
- `Ordering` holds sorting and order lemmas used throughout.

Loops are proved against specification functions. What these functions mean is then stated without them, as exact
conditions, closed forms and layouts over the inputs: in the modules whose names end in `Meaning`, `Layout`, `Choices`,
`Flow` and `Outcomes`, and in lemmas beside the shorter ones.

SHA-256, HMAC, JSON, UTF-8, number formatting, case folding, random bytes, clocks and file contents are parameters;
each module names the laws it relies on in a predicate (`Lawful`, `WellFormed`). Hash functions are not assumed
injective: statements that depend on them end in "or these inputs collide", and name the inputs: the ones on the disk,
in the two traces, in the two requests or in the two packed selections.

Where the code falls short of what one would expect, the model keeps the code and says exactly when:

- Local replacement in `pack_context` can evict an item that the incoming closure depends on
  (`ContextGovernor.SwapClosedIff`), and the result then lacks it (`ContextPacking.PackCanLackDependency`); a result is
  complete exactly when nothing in it depends on an evicted item (`ContextPacking.PackClosedIff`).
- `_fit_budget` counts a step to EXTERNALIZE that makes an item more visible as free, so `evaluate` can report a fit,
  and go on with the session, above the budget. `AdaptiveOvershoot.DecisionFitIff` gives the exact configurations,
  which include the defaults; for rows of any kind the condition is a reference of more than sixteen tokens
  (`AdaptiveOvershoot.FitWithinBudgetIff`).
- `_fit_budget` rewrites recommended actions and leaves effective ones behind, so a degraded row reports two different
  actions (`AdaptiveEvaluation.EffectiveIff`, `AdaptiveOvershoot.FollowsIff`).
- A sealed file without records whose key id is cut short is still accepted when the shorter id decodes
  (`SealedFile.TruncationRejected`, `SealedFileCodec.EmptyFileCutAccepted`).
- A crash while the lock is being written leaves a lock that no later run takes over
  (`ConfigApply.TornLockBlocksForever`), and two processes can both take over one stale lock
  (`ConfigApplyConcurrent.StaleTakeoverCanOverlap`).
- Removing the active key file by hand lets a later rotation overwrite another key
  (`KeyRing.ForgottenKeyIsOverwritten`).
- PageRank loses rank exactly when an edge leaves the symbols (`PageRank.ConservedIff`).

## Model

| member | source | states |
|---|---|---|
| `CodeGraph.Adjacency` | syntavra_runtime/code_intelligence.py:56-61 | the adjacency map of the wanted edge kinds: an entry for every symbol and every source, pointing at exactly the targets |
| `CodeGraph.Reverse` | syntavra_runtime/code_intelligence.py:63-68 | the same with sources and targets exchanged |
| `CodeGraph.ReverseOfAdjacency` | syntavra_runtime/code_intelligence.py:56-68 | an edge is in one map exactly when its opposite is in the other |
| `CycleDetection.Discover` | syntavra_runtime/code_intelligence.py:478-480 | opening a new node keeps the invariant of the search: discovery order, stack links, and a stack anchor for everything still on the stack |
| `CycleDetection.Finish` | syntavra_runtime/code_intelligence.py:479-481 | closing a node whose low link is older keeps the invariant: everything it reaches is finished or reaches back below it |
| `CycleDetection.PopScc` | syntavra_runtime/code_intelligence.py:482-486 | what is popped at a root is exactly one strongly connected component, stated by paths in both directions |
| `CycleDetection.CycleFinder.PopComponent` | syntavra_runtime/code_intelligence.py:484-486 | the popping loop removes from the stack exactly the part above and including the root |
| `CycleDetection.CycleFinder.Visit` | syntavra_runtime/code_intelligence.py:476-487 | a recursive visit discovers and classifies everything newly reachable, appends the components it closes, and leaves the older stack as it was |
| `CycleDetection.CycleFinder.VisitFrom` | syntavra_runtime/code_intelligence.py:488-489 | the outer loop's step: after it the node is finished and nothing is left open |
| `CycleDetection.Cycles` | syntavra_runtime/code_intelligence.py:473-490 | the strongly connected components with more than one node or a self edge over call, import and inherits edges, each once, sorted, largest first |
| `CycleDetection.CyclesOf` | syntavra_runtime/code_intelligence.py:475-490 | the same for any directed graph; every node on a cycle is listed and every row is a component |
| `CycleDetection.CycleReportUnique` | syntavra_runtime/code_intelligence.py:490 | the report is determined by the graph: two reports meeting the statement are the same list |
| `GraphMeaning.CyclesMeaning` | syntavra_runtime/code_intelligence.py:473-490 | over the edges themselves: a symbol is listed if and only if a walk of call, import and inherits edges leads from it back to it, two symbols share a row if and only if walks lead both ways, rows are sorted, longer ones first, equally long ones by first member |
| `Layers.LayerIsPaths` | syntavra_runtime/code_intelligence.py:593-613 | being within n layers of the seeds is the same as having a path of at most n edges from one of them |
| `Layers.Enqueue` | syntavra_runtime/code_intelligence.py:609-613 | recording a new node one step further out keeps the search invariant |
| `Layers.Finished` | syntavra_runtime/code_intelligence.py:600-613 | when the queue is empty exactly the nodes within the depth are recorded, each at its shortest distance |
| `BlastRadius.ScanParents` | syntavra_runtime/code_intelligence.py:609-613 | the loop over the parents records every one that was not seen |
| `BlastRadius.Impacted` | syntavra_runtime/code_intelligence.py:593-613 | rows for exactly the paths holding a symbol within the depth of the first twenty targets, minimum depth the true shortest distance, every symbol there, only seeds as roots that are nearest to a node there, and for every node there such a root; a KeyError names a node within the depth that is no symbol |
| `BlastRadius.BlastRadius` | syntavra_runtime/code_intelligence.py:593-629 | succeeds if and only if every node within the depth is a symbol, and then renders those rows once each, nearest first |
| `GraphMeaning.ImpactMeaning` | syntavra_runtime/code_intelligence.py:593-629 | over the edges themselves: a path is listed if and only if a walk of at most `depth` dependency edges leads from a symbol there to one of the first twenty targets; the minimum depth is the length of the shortest such walk, the symbols are those one starts from, and rows come by depth, then path |
| `GraphMeaning.LinkedIff` | syntavra_runtime/code_intelligence.py:56-68 | the maps behind cycles, impact and ranks hold exactly the call, import and inherits edges, forwards or backwards |
| `CallHierarchy.ExpandCalls` | syntavra_runtime/code_intelligence.py:405-415 | exactly the other nodes within the depth, each once at its exact distance and nearest first; a KeyError exactly when one of them is no symbol |
| `CallHierarchy.Callers` | syntavra_runtime/code_intelligence.py:402-416 | the same over reversed call edges |
| `CallHierarchy.Callees` | syntavra_runtime/code_intelligence.py:402-416 | the same over call edges |
| `Sums.SumExchange` | syntavra_runtime/code_intelligence.py:430-433 | a double sum over two finite sets may be summed in either order |
| `PageRank.Balance` | syntavra_runtime/code_intelligence.py:427-434 | the exact total after one iteration for any damping factor: only rank sent outside the symbols is missing |
| `PageRank.Conserved` | syntavra_runtime/code_intelligence.py:422-434 | if every edge endpoint is a symbol all iterations keep the total at one |
| `PageRank.RankFloor` | syntavra_runtime/code_intelligence.py:428-433 | for a damping factor in [0,1] no rank is negative and after one iteration none is below (1 - damping) / n |
| `PageRank.ConservedIff` | syntavra_runtime/code_intelligence.py:422-434 | after at least one iteration the total is one if and only if no edge leaves the symbols or the damping is zero |
| `PageRank.RanksOfGraph` | syntavra_runtime/code_intelligence.py:422-434 | the same read off the edges of a code graph |
| `PageRank.Step` | syntavra_runtime/code_intelligence.py:428-434 | one iteration of the loops computes the stated next ranks; a KeyError exactly when a symbol has an edge from outside |
| `PageRank.PageRank` | syntavra_runtime/code_intelligence.py:422-435 | the ranks after the requested iterations in descending order, ties by id; empty without symbols |
| `RankFlow.RankFromEdges` | syntavra_runtime/code_intelligence.py:429-433 | one iteration gives each symbol (1 - damping) / n, damping / n of what the symbols without targets hold, and from each symbol with an edge to it damping times its rank divided by the number of its targets |
| `RankFlow.RankDifference` | syntavra_runtime/code_intelligence.py:429-433 | after an iteration two symbols differ by damping times the difference of what their incoming edges bring |
| `RankFlow.WithoutSources` | syntavra_runtime/code_intelligence.py:424-433 | ranks start at 1 / n, and a symbol nothing refers to gets exactly the common part in every iteration |
| `RankFlow.MoreSourcesRankHigher` | syntavra_runtime/code_intelligence.py:422-434 | if whatever refers to w also refers to v, v never ranks below w, and strictly above it when something more refers to v and the damping lies strictly between 0 and 1 |
| `RankFlow.RankingOrder` | syntavra_runtime/code_intelligence.py:435-435 | the list has larger ranks first, equal ones by id |
| `ChaCha.QuarterRoundInPlace` | syntavra_runtime/crypto.py:68-80 | the in-place updates turn the four lanes into the quarter round of RFC 8439 section 2.1 and leave the rest |
| `ChaCha.QuarterRoundExample` | syntavra_runtime/crypto.py:68-80 | the quarter round gives the published result of RFC 8439 section 2.1.1 |
| `ChaCha.StateQuarterRoundExample` | syntavra_runtime/crypto.py:68-80 | the quarter round on a state gives the published result of RFC 8439 section 2.2.1 |
| `ChaCha.LaneIsFourSteps` | syntavra_runtime/crypto.py:68-80 | the four add-xor-rotate steps in code order make one quarter round |
| `ChaCha.RoundsInPlace` | syntavra_runtime/crypto.py:83-92 | the loop performs ten double rounds on the state in place |
| `ChaCha.ComputeBlock` | syntavra_runtime/crypto.py:109-116 | an error exactly for a bad key or nonce length or a counter outside 32 bits, and otherwise the block of RFC 8439 section 2.3 |
| `ChaCha.ComputeHChaCha20` | syntavra_runtime/crypto.py:99-106 | an error exactly for bad lengths, and otherwise words 0-3 and 12-15 after the rounds, without the final addition |
| `CipherLayout.DoubleRoundIs` | syntavra_runtime/crypto.py:83-92 | a double round is four quarter rounds on the columns and four on the diagonals of what these leave, place by place |
| `CipherLayout.StateLayout` | syntavra_runtime/crypto.py:109-116 | the sixteen words of a block's state: the four constants as numbers, key, counter and nonce |
| `CipherLayout.BlockWord` | syntavra_runtime/crypto.py:109-116 | word i of a block is word i after ten double rounds plus word i of the state, least significant byte first |
| `CipherLayout.SubkeyWord` | syntavra_runtime/crypto.py:99-106 | the subkey holds words 0-3 and 12-15 after the rounds, with the constants, key and nonce in the state |
| `CipherLayout.XorBit` | syntavra_runtime/crypto.py:119-132 | every bit of the exclusive or is one exactly when the two bits differ |
| `ChaCha.ChaCha20Xor` | syntavra_runtime/crypto.py:119-132 | the nested loops xor every byte with its keystream byte; the exhausted counter and bad parameters are reported exactly where the loop meets them, and never for empty data |
| `ChaCha.XorStreamInvolution` | syntavra_runtime/crypto.py:119-132 | applying the same keystream twice restores the data |
| `Poly1305.HornerIsPolynomial` | syntavra_runtime/crypto.py:143-146 | the accumulator's recurrence is the message polynomial in r with zero constant term |
| `Poly1305.PrimeValue` | syntavra_runtime/crypto.py:142-142 | the modulus is 2^130 - 5 |
| `Poly1305.ModStep` | syntavra_runtime/crypto.py:146 | reducing after every block gives the same residue as reducing at the end |
| `Poly1305.ComputeTag` | syntavra_runtime/crypto.py:135-147 | an error exactly for a key that is not 32 bytes; otherwise the block loop yields polynomial mod 2^130-5, plus s, mod 2^128, for every message length including a short last block |
| `CipherLayout.ClampedByte` | syntavra_runtime/crypto.py:139-139 | clamping clears the top four bits of bytes 3, 7, 11 and 15 and the low two bits of bytes 4, 8 and 12, and nothing else |
| `CipherLayout.CoefficientIs` | syntavra_runtime/crypto.py:143-146 | the coefficients are the sixteen-byte pieces as little-endian numbers, each with a one in the place after its last byte |
| `CipherLayout.TagNumber` | syntavra_runtime/crypto.py:135-147 | the tag as a number: the sum of the coefficients times powers of the clamped r, modulo 2^130 - 5, plus s, modulo 2^128 |
| `Poly1305.MacDataInjective` | syntavra_runtime/crypto.py:150-166 | the padded authenticated input determines both the associated data and the ciphertext |
| `KeyDerivation.ComputeExpand` | syntavra_runtime/crypto.py:43-53 | the loop yields the first bytes of the chained blocks of RFC 5869 section 2.3, or an error outside 1 to 255 digests |
| `KeyDerivation.ShorterIsPrefix` | syntavra_runtime/crypto.py:43-53 | asking for less output yields a prefix of the longer output |
| `KeyDerivation.ExpandBlock` | syntavra_runtime/crypto.py:43-53 | block n of the output is the HMAC of the block before it, the info and the byte n |
| `SealedLayout.DerivedKeyIs` | syntavra_runtime/crypto.py:56-61 | the derived key is the HMAC under HMAC(SHA-256(project), master key) of the key id text followed by the byte one |
| `SealedObject.AeadInverse` | syntavra_runtime/crypto.py:162-179 | sealing gives a ciphertext and tag if and only if opening these gives the plaintext |
| `SealedLayout.SealBytes` | syntavra_runtime/crypto.py:162-170 | byte i of the ciphertext is byte i of the plaintext combined with byte i mod 64 of block 1 + i / 64 under the HChaCha20 subkey, and the tag is the Poly1305 tag of the padded associated data, ciphertext and lengths under the first half of block 0, which encrypts nothing |
| `SealedObject.HeaderRoundTrip` | syntavra_runtime/crypto.py:188-197 | the binary header is read back field by field |
| `SealedObject.HeaderUnique` | syntavra_runtime/crypto.py:194-199 | a header with the right magic is the writing of the fields read from it |
| `SealedObject.SealSucceeds` | syntavra_runtime/crypto.py:182-191 | sealing succeeds exactly for a key id of 1 to 255 bytes, a 32-byte master key and at most (2^32-1)*64 bytes |
| `SealedObject.SealThenOpen` | syntavra_runtime/crypto.py:182-220 | opening a sealed object gives back the plaintext, the key id and the sizes |
| `SealedObject.OpenThenSeal` | syntavra_runtime/crypto.py:211-220 | whatever opens is byte for byte the sealing of its plaintext under the nonce and key id it carries |
| `SealedLayout.ObjectIs` | syntavra_runtime/crypto.py:182-192 | a sealed object byte by byte: magic SCSEAL2, the sizes big-endian in 1, 2 and 8 bytes, key id, nonce, and ciphertext and tag under the derived key with all before them authenticated |
| `SealedLayout.SealLimits` | syntavra_runtime/crypto.py:182-348 | the exact limits in numbers: key id of 1 to 255 bytes, 32-byte master key, (2^32 - 1) * 64 bytes for an object, pieces of 64 KiB to 64 MiB and sizes below 2^64 for a file |
| `SealedFile.InspectSealedFile` | syntavra_runtime/crypto.py:371-397 | the reading loop decides exactly as the specification over all records |
| `SealedFile.InspectAccepts` | syntavra_runtime/crypto.py:371-397 | a written file is accepted if and only if header, key id, count, indices, chunk lengths and total all agree |
| `SealedFile.AcceptedIsWritten` | syntavra_runtime/crypto.py:371-397 | an accepted file is the writing of its header, key id and records in sequence |
| `SealedFile.ChunksInjective` | syntavra_runtime/crypto.py:385-394 | record sequences are determined by their bytes |
| `SealedFile.ReorderRejected` | syntavra_runtime/crypto.py:385-391 | any rearrangement of the records that changes the file is rejected |
| `SealedFile.TruncationRejected` | syntavra_runtime/crypto.py:371-397 | a proper prefix of an accepted file is rejected, except exactly when there are no records and the cut falls into the key id where the shorter id still decodes |
| `SealedFile.ExtensionRejected` | syntavra_runtime/crypto.py:395-396 | bytes after the last record of a file with a complete key id are rejected |
| `SealedFileCodec.SealFile` | syntavra_runtime/crypto.py:331-368 | the sealing loop writes header, key id and one record per piece of the source, or the first failing check |
| `SealedFileCodec.OpenSealedFile` | syntavra_runtime/crypto.py:400-446 | the opening loop decides and decrypts as specified |
| `SealedFileCodec.SealThenOpenFile` | syntavra_runtime/crypto.py:331-446 | opening a sealed file restores the source for every size and legal chunk size, and inspection reports the same info |
| `SealedFileCodec.OpenImpliesInspect` | syntavra_runtime/crypto.py:371-446 | a file that opens passes inspection with the same info |
| `SealedFileCodec.EmptyFileCutAccepted` | syntavra_runtime/crypto.py:371-446 | the accepted truncation occurs: the sealing of an empty source cut inside its key id, where the shorter id decodes, passes inspection and opens under the shorter id |
| `SealedFileCodec.SealFileSucceeds` | syntavra_runtime/crypto.py:340-348 | sealing a file succeeds exactly for a legal chunk size, key id, master key and a size below 2^64 |
| `SealedLayout.FileIs` | syntavra_runtime/crypto.py:331-368 | a sealed file byte by byte: magic SCCHNK2 and sizes, key id, then for every part of the source in order its number, nonce, size, ciphertext and tag with header, key id and record authenticated |
| `KeyRing.Ring.Active` | syntavra_runtime/crypto.py:256-272 | over any run, with a crash after either write, a key once handed out never changes, and the active local key is the one returned |
| `KeyRing.Ring.Rotate` | syntavra_runtime/crypto.py:288-300 | rotation makes the next number active, which no key handed out has, and changes none of those |
| `KeyRing.Ring.Get` | syntavra_runtime/crypto.py:274-286 | every local key ever handed out is found again with its bytes |
| `KeyRing.NextNumber` | syntavra_runtime/crypto.py:291-295 | with gapless numbers the next one is not registered yet |
| `KeyRing.ForgottenKeyIsOverwritten` | syntavra_runtime/crypto.py:262-268 | if the active key file is removed by hand, recreating it forgets the others, and the next rotation overwrites a key exactly when local-v2 exists or was the one recreated |
| `ConfigApply.StateDirectory.ApplyLastGood` | syntavra_runtime/config_last_good_apply.py:265-416 | a run ends in the specified outcome and disk, and every disk state it passes through is one an interrupted run may leave: the target old or a whole candidate |
| `ConfigApply.StateDirectory.AcquireLock` | syntavra_runtime/config_last_good_apply.py:154-187 | lock, stale takeover and torn lock writes, each intermediate state recorded |
| `ConfigApply.StateDirectory.Transact` | syntavra_runtime/config_last_good_apply.py:317-408 | temp recovery, validation, temp write and replace, each intermediate state recorded |
| `ConfigApply.CommitEffect` | syntavra_runtime/config_last_good_apply.py:317-408 | between acquiring and releasing, the lock is kept and the target changes only to the candidate under a write decision |
| `ConfigApply.LockDiscipline` | syntavra_runtime/config_last_good_apply.py:311-316 | a run that is refused the lock removes neither lock nor temp; every other run without a fault removes both |
| `ConfigApply.RunIsSafe` | syntavra_runtime/config_last_good_apply.py:265-416 | the final state, too, has the old target or a whole candidate |
| `ConfigApply.OneRun` | syntavra_runtime/config_last_good_apply.py:317-416 | from an available lock and an absent or valid target a run fails exactly over a torn temp, and otherwise installs the candidate, or else the temp or target it found is a snapshot colliding with the candidate |
| `ConfigApply.Recovery` | syntavra_runtime/config_last_good_apply.py:265-416 | from every disk two runs reach the candidate with lock and temp gone if and only if the lock was available and the target absent or valid, or else the temp or target found collides with the candidate |
| `ConfigApply.CrashRecovery` | syntavra_runtime/config_last_good_apply.py:154-416 | after a crash anywhere, also while taking over a stale lock of the project, once the lock is stale two runs finish the job, except when the lock itself was torn, and then nothing else had changed; or else the temp or target left by the crash collides with the candidate |
| `ConfigApply.SecondRunIsCurrent` | syntavra_runtime/config_last_good_apply.py:371-380 | running again reports already-current and changes nothing |
| `ConfigApply.TornLockBlocksForever` | syntavra_runtime/config_last_good_apply.py:140-166 | a lock whose content does not bind blocks every later write, however old it is |
| `ConfigApply.RetainKeepsTarget` | syntavra_runtime/config_last_good_apply.py:352-382 | a retain-existing run never changes the target, whatever fault strikes |
| `ConfigApplyOutcomes.RetainIff` | syntavra_runtime/config_last_good_apply.py:317-416 | a retain-existing run without fault is done if and only if the lock is free, the temp is not torn, and the target is there, normalizes, meets the schema and has the expected configuration hash; it then reports retained-existing with what it found |
| `ConfigApplyOutcomes.WriteIff` | syntavra_runtime/config_last_good_apply.py:317-416 | a write run without fault is done in exactly three ways: a valid temp with the candidate's digest is moved to an absent target, the target already is such a snapshot, or the candidate is written over nothing or a snapshot with another digest; each with its report and the disk it leaves |
| `ConfigApplyOutcomes.RefusedIff` | syntavra_runtime/config_last_good_apply.py:154-187 | a run is refused as held exactly when the lock is younger than 300 seconds and as invalid exactly when it is older but not bound to the project; a retain run without a target fails before; no refused run changes anything |
| `ConfigApplyOutcomes.FaultIff` | syntavra_runtime/config_last_good_apply.py:265-416 | which injected faults strike, and the target, temp and lock each of them leaves behind |
| `ConfigApply.TargetAlwaysWhole` | syntavra_runtime/config_last_good_apply.py:265-416 | over any serial history of complete and interrupted runs the target is the original or a whole snapshot some write asked for |
| `ConfigApplyConcurrent.SafeUnderInterleaving` | syntavra_runtime/config_last_good_apply.py:154-416 | with any number of processes, crashes and interleavings, if no lock reaches the stale age at most one process is inside and the target is the original or some writer's whole snapshot |
| `ConfigApplyConcurrent.StaleTakeoverCanOverlap` | syntavra_runtime/config_last_good_apply.py:163-173 | the age condition is needed: two processes judging the same stale lock can both end up inside |
| `ConfigApplyConcurrent.SoloIsApply` | syntavra_runtime/config_last_good_apply.py:265-416 | the small steps of one undisturbed process amount to the whole-run transaction |
| `WireText.UnhexHex` | syntavra_runtime/config_contract.py:165-209 | hexadecimal text decodes to the bytes it was made from |
| `WireText.SplitLinesTerminated` | syntavra_runtime/config_contract.py:202-253 | lines without line breaks are recovered from the terminated text |
| `ConfigTree.SetRowsOfRows` | syntavra_runtime/unified_config.py:81-102 | flattening a well-formed mapping and setting its dotted paths one by one rebuilds it, nesting and order included |
| `ConfigTree.SetDottedWellFormed` | syntavra_runtime/unified_config.py:92-102 | setting a proper path keeps a mapping well formed |
| `ConfigPaths.FlattenIsRows` | syntavra_runtime/unified_config.py:81-89 | the recursive flattening with its overwriting update lists exactly the leaves under their dotted paths |
| `ConfigRoundTrip.RoundTrip` | syntavra_runtime/config_contract.py:169-321 | decoding what was encoded for good phases gives these phases |
| `ConfigRoundTrip.DecodesIff` | syntavra_runtime/config_contract.py:238-321 | a byte string is read as given phases if and only if these are well formed, it is their encoding, and it is within the limit |
| `ConfigRoundTrip.EncodingInjective` | syntavra_runtime/config_contract.py:169-202 | different good phases are written differently |
| `ConfigRoundTrip.DecodedIsGood` | syntavra_runtime/config_contract.py:263-321 | the decoder returns only well-formed phases, and only from their own encoding |
| `ConfigRoundTrip.DecodeEncodedRow` | syntavra_runtime/config_contract.py:188-315 | one encoded assignment line is read back as that assignment |
| `ConfigRoundTrip.EncodeConfigWire` | syntavra_runtime/config_contract.py:169-202 | the encoding loops, stopping at the first value that cannot be written |
| `ConfigMeaning.EncodeIs` | syntavra_runtime/config_contract.py:169-202 | the wire is the UTF-8 text of the header line R6CFG1 and, for every phase, its numbered head and one line per row of the user, project, environment, session and task layers in this order |
| `ConfigMeaning.LineIs` | syntavra_runtime/config_contract.py:188-201 | an assignment line is the letter a, the scope, hexadecimal source and path, the type code n, b, i, f or s and the hexadecimal text of the value between tabs |
| `ConfigMeaning.SourcesAre` | syntavra_runtime/config_contract.py:178-187 | the source of a row: a fixed name for four layers, the full variable name for the environment, whose path is the rest of the name case-folded with double underscores as dots |
| `ConfigRoundTrip.DecodeConfigWire` | syntavra_runtime/config_contract.py:238-321 | the decoding loop with its state and checks, and the canonicality test |
| `ConfigLayers.MergeGet` | syntavra_runtime/unified_config.py:72-78 | after a merge the value at a path is the merged layer's wherever that layer decides the path, and the old one elsewhere |
| `ConfigLayers.LastLayerDecides` | syntavra_runtime/config_contract.py:94-99 | with several layers the last one that decides a path gives its value |
| `ConfigLayers.PhasePrecedence` | syntavra_runtime/config_contract.py:21-21 | task beats session beats environment beats project beats user beats the defaults, path by path |
| `ConfigMeaning.EnvironmentMeaning` | syntavra_runtime/config_contract.py:34-60 | the normalized environment holds, at a path, the value of the last variable whose path begins it, if it is that very path, and nothing otherwise |
| `ConfigMeaning.ResolvedIff` | syntavra_runtime/config_contract.py:88-117 | a phase fails with ConfigError when its environment cannot be normalized, with the validator's exception when that refuses the merged values, and otherwise resolves to them |
| `ConfigMeaning.ResolvedValue` | syntavra_runtime/config_contract.py:88-103 | a resolved phase holds at every path what the strongest layer that decides it gives, down to the defaults |
| `ConfigPhases.ResolveConfigPhases` | syntavra_runtime/config_contract.py:81-127 | the loop over the phases with its last-good fallback computes the fold |
| `ConfigPhases.ResolveMeaning` | syntavra_runtime/config_contract.py:81-127 | it fails exactly without phases or on an invalid first one; otherwise the values are those of the last valid phase, with a warning exactly when the final phase is invalid |
| `ConfigPhases.MakePlan` | syntavra_runtime/config_last_good_plan.py:54-91 | the first failing check in code order, from the form of the expected project and the readability of the root to the fold, or the request for the resolved snapshot |
| `ConfigMeaning.PlanIff` | syntavra_runtime/config_last_good_plan.py:54-91 | for every input which error rejects the plan, each with its exact condition, and when there is a plan |
| `ConfigPhases.PlanDecides` | syntavra_runtime/config_last_good_plan.py:76-91 | a plan is for the expected project, retains what exists if and only if the final phase is invalid, carries the last valid phase, and has no session or task layer |
| `ConfigPhases.InvalidFinalPhaseIsHarmless` | syntavra_runtime/config_last_good_apply.py:276-416 | a wire whose final phase is invalid, or that cannot be planned, never changes the target, whatever fault strikes |
| `ContextItems.FindClosure` | syntavra_runtime/context_governor.py:45-57 | the stack loop returns exactly what an item still needs, or a KeyError naming a missing dependency that it reaches |
| `ContextItems.ClosureIsLeast` | syntavra_runtime/context_governor.py:45-57 | the closure is contained in every complete selection that extends the given one by the item |
| `ContextGovernor.GreedyPick` | syntavra_runtime/context_governor.py:118-131 | the chosen candidate is the first in score order that fits |
| `ContextChoices.BestFitIff` | syntavra_runtime/context_governor.py:99-131 | the pick is worth at least as much per token as any other candidate that fits, closures counted with at least one token; ties go to more worth, then fewer tokens, then the smaller id |
| `ContextChoices.SumsGrow` | syntavra_runtime/context_governor.py:99-107 | what an item adds: its tokens if positive, its utility times confidence clipped to [0,1] to the worth, its plain utility times confidence to the reported value |
| `ContextGovernor.SelectGreedily` | syntavra_runtime/context_governor.py:116-133 | the greedy result is complete, within budget, keeps the mandatory items, accounts its cost exactly and leaves no closure that would fit; a KeyError exactly when some dependency is missing |
| `ContextGovernor.GreedyDeterministic` | syntavra_runtime/context_governor.py:117-133 | two greedy runs that cannot be continued end in the same selection |
| `ContextChoices.EveryPick` | syntavra_runtime/context_governor.py:110-133 | every pick of a run is the best fit for the room left at its turn, and the picks with what they bring in make up the result |
| `ContextGovernor.ReplaceOne` | syntavra_runtime/context_governor.py:139-154 | an incoming item evicts the first optional one the test admits, or none |
| `ContextChoices.TurnIs` | syntavra_runtime/context_governor.py:139-154 | a turn replaces the first optional item that may go - selected, worth less than the incoming closure, leaving enough room, needed by no other selected item - and changes nothing if there is none |
| `ContextChoices.PassIs` | syntavra_runtime/context_governor.py:139-154 | the pass takes the dropped items in order, each turn from where the one before left off |
| `ContextGovernor.SwapAccounting` | syntavra_runtime/context_governor.py:148-153 | after a replacement `used` does not understate the selection, stays within budget, and is exact for nonnegative token counts |
| `ContextGovernor.SwapRaisesValue` | syntavra_runtime/context_governor.py:144-153 | with sensible scores a replacement strictly raises the total value |
| `ContextGovernor.SwapClosedIff` | syntavra_runtime/context_governor.py:148-152 | a replacement keeps the selection complete if and only if nothing in the incoming closure depends on the evicted item |
| `ContextGovernor.ReplacementCanBreakClosure` | syntavra_runtime/context_governor.py:148-152 | a concrete greedy outcome in which the admitted replacement leaves a dependency unselected |
| `ContextGovernor.SwapRunKeeps` | syntavra_runtime/context_governor.py:135-154 | the same bounds over the whole pass: value never falls and rises if anything was replaced |
| `ContextPacking.MandatoryClosure` | syntavra_runtime/context_governor.py:83-86 | the smallest complete set with all mandatory items; a KeyError exactly when none exists |
| `ContextPacking.PackContext` | syntavra_runtime/context_governor.py:60-172 | which error, refusal or context pack results for every input, fixed by mandatory closure, greedy picks, replacement pass and reporting orders, with sections and stable prefix hash |
| `ContextChoices.OrdersAre` | syntavra_runtime/context_governor.py:135-161 | evictions are tried from the least value per token upwards, replacements from the most valuable downwards, and a pack lists stable items first, then by role, then by id, with their texts |
| `ContextChoices.RefusalIs` | syntavra_runtime/context_governor.py:87-102 | a refusal selects nothing, drops every item by id and names cost and budget; the missing roles it lists, in order, are exactly the mandatory ones that no item has |
| `ContextPacking.PackUnique` | syntavra_runtime/context_governor.py:66-68 | packing is deterministic: the set of items, the roles and the budget leave one possible pack, whatever order the items came in |
| `ContextPacking.PackKeeps` | syntavra_runtime/context_governor.py:83-172 | every pack holds the mandatory closure, stays within budget, never understates its cost, partitions the items, and is worth at least the greedy selection |
| `ContextPacking.PackClosedIff` | syntavra_runtime/context_governor.py:138-172 | a pack lacks no dependency if and only if nothing it selects depends on an item that its replacement pass evicted and did not bring back |
| `ContextPacking.PackClosed` | syntavra_runtime/context_governor.py:138-172 | a pack is dependency-closed when no item outside the greedy selection depends on an optional item of it, and when nothing was replaced |
| `ContextPacking.PackCanLackDependency` | syntavra_runtime/context_governor.py:138-172 | a concrete pack that gives an item without its dependency although the greedy selection was complete |
| `ContextPacking.PrefixHashCommits` | syntavra_runtime/context_governor.py:41-42 | equal stable prefix hashes mean the same items with the same texts in whatever order or role, or the two section lists the hashes were taken over collide |
| `ContextChoices.PrefixHashStable` | syntavra_runtime/context_governor.py:41-42 | the prefix hash is stable: the same ids with the same texts give the same hash, whatever the roles, the stability marks and the rest of the catalog |
| `ContextPacking.SatisfiedIff` | syntavra_runtime/context_governor.py:159-160 | mandatory roles are reported satisfied if and only if every one is the role of some item |
| `AdaptivePolicy.NextAction` | syntavra_runtime/adaptive_context_policy.py:243-264 | the next action is the lowest permitted one above the current; none exactly when none is permitted or the item is exact or denied |
| `AdaptivePolicy.StepCost` | syntavra_runtime/adaptive_context_policy.py:229-264 | only a step to EXTERNALIZE can make an item more visible, and by at most the reference tokens beyond sixteen |
| `AdaptivePolicy.OrderSound` | syntavra_runtime/adaptive_context_policy.py:279-292 | the candidate order lists exactly the eligible rows, by utility, then larger inputs, then identity |
| `AdaptivePolicy.FitKeeps` | syntavra_runtime/adaptive_context_policy.py:293-312 | the projection never exceeds the true total and misses at most one excess per externalized row |
| `AdaptivePolicy.FitMeansWithinBudget` | syntavra_runtime/adaptive_context_policy.py:312-312 | a reported fit leaves a total within the budget plus one excess per externalized row |
| `AdaptivePolicy.NoFitMeansExhausted` | syntavra_runtime/adaptive_context_policy.py:293-312 | a reported misfit means every eligible row is at its cheapest permitted action and the total exceeds the budget |
| `AdaptivePolicy.EarlierFirst` | syntavra_runtime/adaptive_context_policy.py:293-310 | a later candidate changes only after every earlier one is exhausted |
| `AdaptiveMeaning.FitRuns` | syntavra_runtime/adaptive_context_policy.py:266-312 | the pass is a run of single steps, each by the first candidate in the order that has one left, taken only while the target is missed, and ending as soon as it is met or nothing is left |
| `AdaptiveMeaning.VisibleIs` | syntavra_runtime/adaptive_context_policy.py:229-241 | the visible tokens of each action in numbers: 34 and 18 percent rounded up, at least 24 and 16, never more than there are |
| `AdaptivePolicy.IneligibleUntouched` | syntavra_runtime/adaptive_context_policy.py:280-286 | exact, abstained and already externalized rows pass through unchanged |
| `AdaptivePolicy.ProjectionExactIff` | syntavra_runtime/adaptive_context_policy.py:302-308 | the projection is exact on every input if and only if a reference takes at most sixteen tokens |
| `AdaptiveOvershoot.FitWithinBudgetIff` | syntavra_runtime/adaptive_context_policy.py:266-312 | over all rows that agree with their signals, a reported fit is within the budget on every input if and only if a reference takes at most sixteen tokens |
| `AdaptiveOvershoot.DecisionFitIff` | syntavra_runtime/adaptive_context_policy.py:168-418 | over all evaluations, a reported fit, and likewise a session not abstained from, is within the budget on every input if and only if the configuration cannot overshoot: short references, or a compress threshold above every utility, or a target equal to the budget with a summarize threshold above every utility and either one utility left or no room for two items |
| `AdaptiveOvershoot.Overshoot` | syntavra_runtime/adaptive_context_policy.py:168-418 | for every other configuration, signals and a state on which `evaluate` reports a fit, lets the session go on, and shows more than the budget |
| `AdaptiveOvershoot.FollowsIff` | syntavra_runtime/adaptive_context_policy.py:168-418 | outside shadow mode every effective action equals its recommended one, over all evaluations, if and only if the compress threshold is above every utility |
| `AdaptiveOvershoot.LeftBehind` | syntavra_runtime/adaptive_context_policy.py:293-312 | for every other configuration, an evaluation whose one row moves down the ladder while its effective action does not |
| `AdaptiveOvershoot.TrackAll` | syntavra_runtime/adaptive_context_policy.py:293-312 | in the remaining corner the projection counts every row at the lesser of its two counts, and misses something only if a row rose and the target is still missed or a later one fell |
| `AdaptiveEvaluation.FitBudget` | syntavra_runtime/adaptive_context_policy.py:266-312 | the nested loops rewrite the rows in place exactly as the ladder specification says and report the fit |
| `AdaptiveEvaluation.TaintedNeverShown` | syntavra_runtime/adaptive_context_policy.py:181-208 | an item from a tainted source is only referenced or abstained from |
| `AdaptiveMeaning.ScoresAre` | syntavra_runtime/adaptive_context_policy.py:166-189 | utility and risk are the stated weighted sums rounded to whole millionths, halves to even |
| `AdaptiveMeaning.InitialActionIff` | syntavra_runtime/adaptive_context_policy.py:191-227 | the exact condition of every initial action, for every item and configuration |
| `AdaptiveMeaning.InitialReasonIff` | syntavra_runtime/adaptive_context_policy.py:191-227 | the exact condition of every initial reason code |
| `AdaptiveEvaluation.Evaluate` | syntavra_runtime/adaptive_context_policy.py:350-418 | the decision rows, fit, session action with its reason code and effective session for every input, or the error for an empty task or repeated identity |
| `AdaptiveEvaluation.ArrivalOrderIrrelevant` | syntavra_runtime/adaptive_context_policy.py:361-363 | the order in which signals arrive changes nothing |
| `AdaptiveEvaluation.ItemsAreSafe` | syntavra_runtime/adaptive_context_policy.py:191-312 | every item ends at an action it permits with that action's tokens; exact items whole or not at all, denied items never |
| `AdaptiveEvaluation.SessionFits` | syntavra_runtime/adaptive_context_policy.py:314-411 | a session not abstained from has no denied or abstained item, its exact items fit, and its total fits up to the excess |
| `AdaptiveEvaluation.ResetIff` | syntavra_runtime/adaptive_context_policy.py:314-411 | a reset is decided exactly under pressure, permission, no forbidding condition, and full recoverability |
| `AdaptiveMeaning.BranchIff` | syntavra_runtime/adaptive_context_policy.py:314-411 | a session is branched exactly when the fit holds, nothing forbids going on, drift has reached the threshold and branching is allowed |
| `AdaptiveMeaning.KeepIff` | syntavra_runtime/adaptive_context_policy.py:314-411 | a session goes on exactly when the fit holds, nothing forbids going on, there is no drift, and pressure is low or all is recoverable but resets are not allowed |
| `AdaptiveMeaning.AbstainIff` | syntavra_runtime/adaptive_context_policy.py:314-411 | each reason for abstaining with its exact condition, in order of precedence |
| `AdaptiveMeaning.FitIff` | syntavra_runtime/adaptive_context_policy.py:365-411 | the reported fit is the projection within the budget and the exact items, denied ones apart, within it as well |
| `AdaptiveMeaning.ReportedRows` | syntavra_runtime/adaptive_context_policy.py:302-418 | reported rows gain the budget's reason at most once, and outside shadow mode rows and session take effect as decided |
| `AdaptiveEvaluation.ReasonExplains` | syntavra_runtime/adaptive_context_policy.py:314-411 | the reason code tells the outcomes apart: each way to go on has its own, denial is always named first, and the budget exactly when only the missing fit forbids going on |
| `AdaptiveEvaluation.EffectiveIff` | syntavra_runtime/adaptive_context_policy.py:293-312 | outside shadow mode a row keeps the effective action it started with, which agrees with the recommended one if and only if the budget pass left the row alone, that is, its reasons do not name budget pressure |
| `AdaptiveEvaluation.ShadowIsInert` | syntavra_runtime/adaptive_context_policy.py:413-418 | shadow mode recommends the same and puts nothing into effect |
| `HyperLogLog.RankMeaning` | syntavra_runtime/data_router.py:85-89 | the rank says which power of two divides the remainder, up to the cap |
| `HyperLogLog.DigestParts` | syntavra_runtime/data_router.py:82-90 | a digest splits into the register's number, its lowest bits, and the remainder whose trailing zeros give the rank, at most 65 less the bits taken |
| `HyperLogLog.RegisterUnique` | syntavra_runtime/data_router.py:82-90 | a register is determined by the set of values added |
| `HyperLogLog.RegisterBounded` | syntavra_runtime/data_router.py:82-90 | no register exceeds 65 minus the index bits, and it is zero exactly when no value maps to it |
| `HyperLogLog.Registers.Add` | syntavra_runtime/data_router.py:82-90 | after adding, every register is the largest rank of the values that map to it |
| `FrequentItems.Count` | syntavra_runtime/data_router.py:119-126 | counting a value, with a decrement round when a new key meets full counters |
| `FrequentItems.CountKeeps` | syntavra_runtime/data_router.py:119-126 | one more value keeps at most 128 positive counters, total mass plus 129 per decrement round equal to the stream length, and counts within the number of rounds |
| `FrequentItems.Decrement` | syntavra_runtime/data_router.py:123-126 | the decrement loop lowers every counter by one and drops those that reach zero |
| `FrequentItems.HeavyHittersSurvive` | syntavra_runtime/data_router.py:119-126 | a value that makes up more than one part in 129 of the stream is still counted |
| `Moments.WelfordStep` | syntavra_runtime/data_router.py:132-134 | the running update keeps mean and squared deviations exactly those of all numbers so far |
| `ColumnSketch.Sketch.Add` | syntavra_runtime/data_router.py:113-134 | every field of the sketch is what the whole column so far defines |
| `RowSample.BottomKAppend` | syntavra_runtime/data_router.py:309-312 | the bottom k of a longer stream follows from the bottom k of the shorter one and the new entry |
| `RowSample.SampleRows` | syntavra_runtime/data_router.py:294-315 | pruning at twice the reservoir yields exactly the k smallest (hash, arrival) pairs of the whole stream, in arrival order |
| `RowSample.BottomKMeaning` | syntavra_runtime/data_router.py:313-314 | the batch definition: k entries, none outside coming before one inside |
| `RowSample.ReservoirInOrder` | syntavra_runtime/data_router.py:315-315 | the reservoir consists of stream rows with their scores, strictly by arrival |
| `RowSample.ReservoirKeepsSmallest` | syntavra_runtime/data_router.py:309-315 | no row left out has a smaller score than a reported one, and of equal scores the earlier row wins |
| `ContractGraph.Propagate` | syntavra_runtime/contract_version_graph.py:245-256 | the worklist ends with exactly what some seed reaches against the dependencies |
| `ContractGraph.InvalidatedIsLeast` | syntavra_runtime/contract_version_graph.py:249-258 | the affected set is the least one that holds the seeds and is closed under dependents |
| `ContractGraph.NotInvalidatedIsSafe` | syntavra_runtime/contract_version_graph.py:227-258 | a current contract that is not invalidated is unchanged, and so is everything it depends on by old or new edges |
| `ContractGraph.InvalidatedHasCause` | syntavra_runtime/contract_version_graph.py:227-258 | an invalidated contract changed or depends on one that did |
| `ContractGraph.InvalidationPlan` | syntavra_runtime/contract_version_graph.py:226-270 | the four sorted lists, or the error for a repeated node |
| `ContractGraph.PlanMeaning` | syntavra_runtime/contract_version_graph.py:226-270 | the four lists told from the snapshots: paths only one of them has, paths with different records, and current paths from which a chain of either snapshot's dependencies leads to one of these, each list strictly by id |
| `DecisionTrace.Verify` | syntavra_runtime/context_decision_trace.py:263-305 | the loop accepts exactly the chained, correctly counted and sealed traces |
| `DecisionTrace.VerifiesIff` | syntavra_runtime/context_decision_trace.py:263-305 | verification told field by field: version one, numbers from one, 64 zeros first, every event's hash its own and the next one's predecessor, the tally of decisions, and the trace hash |
| `DecisionTrace.DecisionTable` | syntavra_runtime/context_decision_trace.py:14-50 | which decision each of the eight actions stands for, and that no other action stands for any |
| `DecisionTrace.CheckReferences` | syntavra_runtime/context_decision_trace.py:34-42 | the walk over nested values accepts exactly those with no forbidden key at any depth, in any case |
| `DecisionTrace.ForbiddenIff` | syntavra_runtime/context_decision_trace.py:34-42 | the six forbidden keys by name |
| `DecisionTrace.FromPolicyResult` | syntavra_runtime/context_decision_trace.py:183-227 | succeeds exactly on an authentic receipt with recordable rows whose signals only refer; the trace verifies and records every decision in order |
| `DecisionTrace.RecordMeaning` | syntavra_runtime/context_decision_trace.py:113-160 | a recorded event lists its references once each and sorted, its reasons once each, empty ones left out, and no negative token counts |
| `DecisionTrace.AppendKeeps` | syntavra_runtime/context_decision_trace.py:229-261 | appending to a verifying trace succeeds for every request with an identity, keeps the events, and verifies |
| `DecisionTrace.AppendAllKeeps` | syntavra_runtime/context_decision_trace.py:229-261 | the same over any number of retrievals |
| `DecisionTrace.LastHashCommits` | syntavra_runtime/context_decision_trace.py:276-290 | two chains ending in the same hash are equal, or share their last events up to a pair of bodies, one of each chain at the same place from the end, that collide |
| `DecisionTrace.TraceHashCommits` | syntavra_runtime/context_decision_trace.py:295-304 | equal trace hashes mean equal events, counts and receipt, or the records the two hashes were taken over collide |
| `DiscoveryAnswer.ComputeAnswer` | syntavra_runtime/deferred_tool_discovery.py:303-357 | the loops of stage one compute the answer the ranking of families defines |
| `DiscoveryAnswer.AnswerUnique` | syntavra_runtime/deferred_tool_discovery.py:341-354 | there is one answer |
| `DiscoveryAnswer.StatusMeaning` | syntavra_runtime/deferred_tool_discovery.py:343-354 | unknown, ambiguous or matched exactly as no family, several or one score best |
| `DiscoveryAnswer.NamedToolsUsable` | syntavra_runtime/deferred_tool_discovery.py:256-273 | every tool named is exposed, permitted by the host, and neither unavailable nor incompatible by the health in force |
| `DiscoveryMeaning.FamilyRowMeaning` | syntavra_runtime/deferred_tool_discovery.py:235-354 | a listed family names a tool if and only if a catalog row of that name and family is exposed, permitted, in an allowed namespace, healthy enough and shares a word with the query; tools and risks are sorted, and the score is the highest weight, five for a word of the family, three of the name, one of the description |
| `DiscoveryMeaning.FamiliesMeaning` | syntavra_runtime/deferred_tool_discovery.py:341-354 | families come by falling score, then name, at most as many as asked for; one that matches is missing only behind all listed ones when the list is full, or below the best when the answer is ambiguous |
| `DiscoveryMeaning.AnswerParts` | syntavra_runtime/deferred_tool_discovery.py:303-357 | the tree lists every usable row by name whatever the query, and the receipt covers query, hashes, status and listed families |
| `DiscoveryAnswer.SameStableSameAnswer` | syntavra_runtime/deferred_tool_discovery.py:183-207 | the answer depends on the catalog only through its stable order by name |
| `DiscoveryCache.Cache.Get` | syntavra_runtime/deferred_tool_discovery.py:188-193 | a hit returns the stored answer and makes its key the newest |
| `DiscoveryCache.Cache.Put` | syntavra_runtime/deferred_tool_discovery.py:195-199 | stores under the newest key and drops the oldest beyond the capacity |
| `DiscoveryCache.SameKeySameAnswer` | syntavra_runtime/deferred_tool_discovery.py:287-301 | equal keys mean the same answers, or the two requests clash: their key bases, stable catalogs or hosts differ and hash alike |
| `DiscoveryCache.LastUsesMeaning` | syntavra_runtime/deferred_tool_discovery.py:192-199 | the order of last use holds every key used once, earlier ones last used earlier |
| `DiscoveryCache.LastNTouch` | syntavra_runtime/deferred_tool_discovery.py:195-199 | dropping the oldest keys early does not change which are kept |
| `DiscoveryCache.Engine.Stage1` | syntavra_runtime/deferred_tool_discovery.py:275-357 | over any run of calls and health updates the answer is the one that would be computed now, unless on a hit the request clashes with the recorded one its answer was computed for; the cache holds exactly the most recently used keys |
| `DiscoveryCache.Engine.SetHealth` | syntavra_runtime/deferred_tool_discovery.py:99-102 | a health update leaves the cache sound |

## Left out

- Command line, dashboard, bridges, host adapters and installer plans: argument plumbing and input or output.
- SQLite, subprocesses, git, symlink and permission-mode checks, directory syncing and operating system errors other
  than those named: the apply protocol sees a target, a temp and a lock with atomic replace, exclusive creation and
  writes that may be torn.
- Floating point rounding: Python floats are reals, so `tokens * 0.34` and `tokens * 0.18` are exact percentages, and
  sums do not depend on their order. In the wire format a float is its 64-bit pattern.
- Python's recursion limit, which `visit` in `cycles` can reach on deep graphs.
- The class hierarchy, dead code, churn, hotspot and coupling reports of the code graph: each is read off one body.
- `resolve`, which turns a query into symbols by substring: the graph reports start from the resolved targets, and the line
  number of a call row is not carried.
- The estimate of distinct values computed from the registers, standard deviations and the choice of columns to show.
- The threshold actions of the context governor (`evaluate` with its levels).
- Receipts, hashes and metrics that `evaluate` adds to its decisions, and metadata checks on signals.
- Provenance lists and the projection of configuration snapshots; the validator is a parameter.
- Strings with lone surrogates, which Dafny's strings cannot hold.
- Stage two of tool discovery, negotiation and schema compilation; the namespace tree is kept as the list of names and
  fingerprints it is built from, and catalog rows are taken to have a name field, possibly empty.
- The building of the contract graph from files: contracts outside the roots are not expanded, so the walk is one level deep.
- The partial destination that a failed `open_sealed_file` leaves behind, and sources that change while being sealed.
- Secrecy and forgery resistance of the cipher, and the inverse of the ChaCha rounds: only functional correctness is stated.
- ChaCha.ComputeBlock: the published example block of RFC 8439 section 2.3.2 is not evaluated, only the quarter round examples are.
- ConfigApplyConcurrent.SafeUnderInterleaving: claims exclusion only while no lock reaches the stale age, because takeover is several separate steps.
- PageRank.RankFloor: stated for damping factors in [0,1] only; outside that range ranks can be negative.
- DecisionTrace.LastHashCommits: compares events as records, so two JSON spellings of one value are one event.
- RowSample.SampleRows: the per-row compaction of what is finally shown is not modelled.
