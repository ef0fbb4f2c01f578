# A Dafny model of Tempo's stateful tooling

This project models six parts of Tempo whose correctness rests on state kept in step across several
steps, and proves what those parts are for.

- **Block-0 account sync (regenesis).** Chosen accounts of a virgin block-0 database are replaced by
  their definition in a new genesis. `Changesets` holds the two ways of rewriting a sorted changeset
  (streaming merge; prune, re-sort and append) and proves them equal. `Replacements`, `HashedState`
  and `History` hold the replacement rows, the hashed tables with the post-state the state root is
  computed from, and the history index. `Regenesis` is the database they are all fields of.
- **Block cache and resolvers of the P2P proxy.** `ProxyCache` is the two-indexed cache with
  lowest-height eviction. `HeaderAnswers` says what a header request is owed by a proxy without a cache;
  `HeaderResolver` and `BodyResolver` answer `GetBlockHeaders` (0x03) and `GetBlockBodies` (0x05) through
  the cache while other tasks change it between lock acquisitions.
- **Identity-transition search.** `IdentityTransitions`: a memoised binary search inside an outer
  descending loop.
- **Shadow-fork storage.** `OverlayJournal`: nested checkpoints over an in-memory overlay.
  `ShadowStorage`: the plain and hashed database layouts below it, on the dup-sorted `DupTable`.
- **ABI inheritance closure.** `AbiClosure`: a graph walk with a stack of names under way.
- **Epoch boundaries and hardfork schedule.** `Epochs` and `Hardforks`.

`Rows` holds keyed rows, their order and the few library operations used (unstable sort, dedup,
first element of a tree set). `Common` holds the shared small types.

## How to read the model

- Addresses, slots, words and hashes are natural numbers. An account changeset row is keyed by
  (address, slot 0), so that one generic rewrite stands for the account and the storage version.
- A changeset file is a sequence of rows any of which the cursor may fail to read (`None`, a hole).
- keccak256 is a parameter assumed collision-free. The state root is a parameter: some function of the
  two hashed tables.
- Both block-0 changesets are assumed strictly sorted by key on entry (`BlockZeroDatabase.Valid`), and
  are proved so on exit.
- A table that holds several rows per key is a set of (key, subkey, value) rows; a seek returns some row
  with the least subkey not below the wanted one.
- The RPC endpoint is a fixed `World` for the length of one request: blocks by hash, some of them
  canonical at their height. A whole batch may fail and any single answer in a batch may fail. A request
  of its own for one block may fail for the heights and hashes of an `Outage`; the code then stops there.
  Other tasks are `OtherTasks`: any number of insertions of genuine blocks, with the evictions these cause,
  at every lock acquisition.
- A block fetched by hash need not be canonical, and the source caches it at its height all the same.
  The set `side` names the heights where that may have happened; any set that contains the heights of the
  non-canonical blocks asked for will do. `seen` records the block read from the cache at each such height.
  The response is the cacheless answer in the world `Seeing(w, seen)`, in which those blocks count as
  canonical. `AnswerUnmovedIff` says exactly when that is the answer of the real world, and
  `AnswerNeverMovedIff` exactly when no schedule and no cache content can move it.
- An in-place vector that a recursion passes along (`visiting`) is an in- and an out-parameter.

Seven claims fail for some inputs. Each is proved with its exact condition and shown to fail at an input.

| claim | exact condition | failing input |
|---|---|---|
| the fast changeset path writes the streamed file, cell for cell | `FastPathRefinesStreaming`: the old range had no hole | `HoleSurvivesFastPath` |
| the cache indexes mirror each other | `MirrorKeptIff`, `MirroredThroughoutIff`: no insertion brings a hash cached at another height | `MirrorNeedsUniqueHashes` |
| a canonical cache stays canonical | `CacheStaysCanonicalIff`: the block is canonical, or the cache is full of greater heights | `SideBlockIsCached`, `SideBlockIsTaken` |
| a header request gets the cacheless answer | `AnswerUnmovedIff`, `AnswerNeverMovedIff`, `TakenIsCorrectIff`: no block with another header is read | `SideBlockIsTaken`, `SideBlockIsServed` |
| the identity search lists every change | `SearchIsExactIff`, `NewestIsExactIff`: no probe hits an earlier run of the same identity | `ReturningIdentityIsMissed` |
| a written schedule reads back | `RoundTripIff`: the other known fields deserialize, or no fork is enabled | `MalformedFieldResetsSchedule` |
| being past a fork is the fork being active | `ActivityAgreesIffOrdered`: activations are ordered | `UnorderedScheduleDisagrees` |

## Model

| member | source | states |
|---|---|---|
| Changesets.StreamRewrite | bin/tempo/src/regenesis.rs:587-619 | the streamed file is the merge of the kept old rows with the replacements, and the collected keys are those of the dropped rows, in order |
| Changesets.RewrittenIsTheSortedUnion | bin/tempo/src/regenesis.rs:556-619 | the rewrite is strictly sorted, holds exactly the old rows of unsynced addresses plus the replacement rows, and is the only such sequence |
| Changesets.RewriteIsIdempotent | bin/tempo/src/regenesis.rs:556-619 | rewriting a rewritten changeset with the same replacements changes nothing |
| Changesets.FindTailStart | bin/tempo/src/regenesis.rs:764-809 | in a sorted range the index found separates the readable rows of smaller addresses from the rest; it gives up only when there is a hole |
| Changesets.CollectTail | bin/tempo/src/regenesis.rs:735-746 | succeeds exactly on a hole-free tail, adding its unsynced rows to the replacements in order and listing every dropped key |
| Changesets.TailReplacementPlan | bin/tempo/src/regenesis.rs:706-762 | a plan keeps everything below the first synced address, never underflows its counts, and is missing only for no file, nothing synced, rows past block 0 or a hole |
| Changesets.ReplaceTail | bin/tempo/src/regenesis.rs:811-845 | prunes the planned tail, appends the planned rows in order and records the new range |
| Changesets.FastPathRefinesStreaming | bin/tempo/src/regenesis.rs:527-548 | prune-and-append leaves the rows and old keys of the streaming rewrite, the recorded count is the real row count, and the range equals the streamed one cell for cell iff the old range had no hole |
| Changesets.HoleSurvivesFastPath | bin/tempo/src/regenesis.rs:706-762 | rows (hole, 1, 5) with address 5 synced have a plan, and its file keeps the hole that streaming closes |
| Changesets.ReplaceBlockZeroChangesets | bin/tempo/src/regenesis.rs:489-622 | whichever path is taken, both files hold the streaming rewrite, the ranges end at the file end, and the old storage keys are those of the dropped rows |
| Rows.SortedPermutationUnique | bin/tempo/src/regenesis.rs:690-690 | an unstable sort has one possible answer when some permutation is strictly sorted |
| Rows.SortUnstableByKey | bin/tempo/src/regenesis.rs:747-747 | some key-ordered permutation of the input |
| Replacements.SyncAccounts | bin/tempo/src/regenesis.rs:199-207 | exactly the requested addresses and, on demand, the validator registry, strictly increasing |
| Replacements.GenesisStorageEntries | bin/tempo/src/regenesis.rs:906-920 | exactly the non-zero slots of the genesis storage, each once, in order |
| Replacements.HashSlots | bin/tempo/src/regenesis.rs:349-356 | the same values under hashed slots, sorted |
| Replacements.GenesisAccountReplacement | bin/tempo/src/regenesis.rs:332-366 | fails exactly on invalid bytecode; otherwise account, code, storage and hashed storage all come from the genesis account |
| Replacements.ReplacementIsUnique | bin/tempo/src/regenesis.rs:332-366 | the genesis account determines its replacement, order of the hashed slots included |
| Replacements.GenesisAccountReplacements | bin/tempo/src/regenesis.rs:316-330 | succeeds exactly when every account is in the allocation with valid code, else reports the first that is not |
| Replacements.AccountChanges | bin/tempo/src/regenesis.rs:418-430 | strictly sorted, exactly one did-not-exist row per replaced account |
| Replacements.StorageChanges | bin/tempo/src/regenesis.rs:432-447 | strictly sorted, exactly one was-zero row per non-zero slot of every replaced account |
| HashedState.ReplacementPostState | bin/tempo/src/regenesis.rs:368-416 | the post-state holds every replacement value and a zero for every other old slot of a replaced account, and nothing else |
| HashedState.ReplaceHashedAccounts | bin/tempo/src/regenesis.rs:863-880 | every replaced account and its code is stored, all others are untouched |
| HashedState.ReplaceHashedStorage | bin/tempo/src/regenesis.rs:882-904 | a replaced account has exactly its new rows, all others are untouched |
| HashedState.PostStateIsWhatIsWritten | bin/tempo/src/regenesis.rs:239-247 | the post-state laid over the old tables is exactly the tables the two writers leave |
| History.SyncHistory | bin/tempo/src/regenesis.rs:449-487 | every replaced account gets its block-0 entry, old storage entries go before new ones come, nothing else moves |
| History.BatchMoves | bin/tempo/src/regenesis.rs:471-481 | whatever the storage index was, it loses the entries of the dropped rows, gains a block-0 entry per new slot, and keeps all else |
| History.OtherAddressesKeepTheirEntries | bin/tempo/src/regenesis.rs:471-481 | no entry of an address that is not synced moves |
| History.IndexMatchesAfterIff | bin/tempo/src/regenesis.rs:471-481 | after the sync the index of the synced addresses lists exactly the rewritten rows iff each of its old entries had an old row or is written again |
| History.IndexFollowsChangeset | bin/tempo/src/regenesis.rs:471-481 | an index that matched the old changeset on the synced addresses matches the rewritten one |
| History.MovedTwice | bin/tempo/src/regenesis.rs:471-481 | moving an index twice by the same replacements is moving it once, matching or not |
| Regenesis.BlockZeroDatabase.ReplaceHashedTables | bin/tempo/src/regenesis.rs:239-246 | the root returned is the root of the tables left behind |
| Regenesis.BlockZeroDatabase.ReplaceHistory | bin/tempo/src/regenesis.rs:248-250 | changesets and both indexes move by the same replacements, whatever they held; changesets stay sorted |
| Regenesis.SyncKeepsIndexMatching | bin/tempo/src/regenesis.rs:248-250 | a storage index that matched the storage changeset still does after the sync |
| Regenesis.RewriteFiles | bin/tempo/src/regenesis.rs:513-548 | from the replacements alone, both new files are the sorted unions and the old keys are the dropped ones |
| Regenesis.BlockZeroDatabase.SyncGenesisAccounts | bin/tempo/src/regenesis.rs:209-269 | either nothing changes, or hashed tables, codes, changesets and index all move by the replacements of exactly the given accounts, and the root matches |
| Regenesis.BlockZeroDatabase.SyncRequested | bin/tempo/src/regenesis.rs:145-153 | the accounts moved are exactly those asked for, each by its definition in the new genesis; succeeds iff all of them are there with valid code |
| Regenesis.SecondSyncChangesNothing | bin/tempo/src/regenesis.rs:209-269 | a second sync of the same accounts from the same genesis, whatever replacements it builds, leaves every view as it is |
| ProxyCache.EvictionKeepsTheLargest | bin/tempo/src/p2p_proxy.rs:249-255 | eviction leaves the capacity largest heights with their blocks, and keeps the hash index sound and, with it, complete |
| ProxyCache.CacheIsTopOfHistory | bin/tempo/src/p2p_proxy.rs:224-255 | after any insertions the cache is the uncapped history restricted to the capacity largest heights ever inserted |
| ProxyCache.HashIndexIsSound | bin/tempo/src/p2p_proxy.rs:193-247 | in every reachable state a hash points at a cached block with that hash |
| ProxyCache.EvictedAtOnceIff | bin/tempo/src/p2p_proxy.rs:246-255 | an insertion is evicted at once iff the cache is full of greater heights |
| ProxyCache.MirrorKeptIff | bin/tempo/src/p2p_proxy.rs:224-255 | an insertion keeps every cached block findable by hash iff no other cached height holds a block of its hash |
| ProxyCache.MirroredThroughoutIff | bin/tempo/src/p2p_proxy.rs:193-247 | over a whole run every block is findable throughout iff that holds at each insertion |
| ProxyCache.IndexesMirror | bin/tempo/src/p2p_proxy.rs:193-247 | if no hash is inserted at two heights, every block is found by hash and both indexes have one size, at most the capacity |
| ProxyCache.MirrorNeedsUniqueHashes | bin/tempo/src/p2p_proxy.rs:231-235 | one hash at heights 1 and 2, replaced at height 1, leaves the block at height 2 cached but not found by its hash |
| ProxyCache.CachedEntryIsLatest | bin/tempo/src/p2p_proxy.rs:237-244 | a cached entry carries the hash and header of the latest insertion at its height |
| ProxyCache.CachedBodyIsTrue | bin/tempo/src/p2p_proxy.rs:237-241 | across reorgs, header-only refreshes and evictions a cached body is the body of its entry's hash |
| ProxyCache.CachedBodyIff | bin/tempo/src/p2p_proxy.rs:237-241 | over every run a cached block has body b iff b came with the latest insertion at its height that carried one and no other block was inserted there since |
| ProxyCache.InsertedIsCachedOrTooLow | bin/tempo/src/p2p_proxy.rs:243-255 | right after an insertion its block is cached, with the body it carried, unless the cache is full of greater heights |
| ProxyCache.BlockCache.Upsert | bin/tempo/src/p2p_proxy.rs:224-247 | the object follows the transition the run theorems are about |
| ProxyCache.BlockCache.Evict | bin/tempo/src/p2p_proxy.rs:249-255 | the loop ends in the evicted state |
| ProxyCache.BlockCache.GetByHash | bin/tempo/src/p2p_proxy.rs:261-265 | finds a block exactly when the hash is indexed: the one at the indexed height, which has that hash |
| HeaderResolver.CacheStaysCanonicalIff | bin/tempo/src/p2p_proxy.rs:513-517 | caching a fetched block keeps a canonical cache canonical iff the block is canonical or the cache is full of greater heights |
| HeaderResolver.InsertKeepsFaithful | bin/tempo/src/p2p_proxy.rs:532-536 | inserting genuine blocks keeps everything cached genuine, and canonical outside the side heights |
| HeaderResolver.RequestedHeaderNumbers | bin/tempo/src/p2p_proxy.rs:680-704 | lists start, start plus or minus a step and so on: as many as asked for, at most 1024, fewer only at the edge of the u64 range |
| HeaderAnswers.ProgressionIsArithmetic | bin/tempo/src/p2p_proxy.rs:684-701 | entry i is start plus or minus i steps, entries are distinct, and the list is short only at the edge of the u64 range |
| HeaderResolver.TakeCachedHeaders | bin/tempo/src/p2p_proxy.rs:591-608 | returns the uncached numbers in order and adds exactly the cached headers |
| HeaderResolver.TakenIsCorrectIff | bin/tempo/src/p2p_proxy.rs:598-606 | those are the canonical headers iff every requested height that is cached holds its canonical header |
| HeaderResolver.FetchHeaderBatch | bin/tempo/src/p2p_proxy.rs:542-587 | unless the whole batch fails, the canonical headers up to the first number that is unavailable or whose retry may fail |
| HeaderResolver.FetchHeaderByNumber | bin/tempo/src/p2p_proxy.rs:521-538 | the canonical header of the height, then cached unless too low; none only if there is none or the request may fail |
| HeaderResolver.FetchChunk | bin/tempo/src/p2p_proxy.rs:625-649 | the first number of the chunk not held is unavailable or down, and the length test cuts exactly when there is one |
| HeaderResolver.FetchMissing | bin/tempo/src/p2p_proxy.rs:624-650 | chunk after chunk, the first number not held is unavailable or down |
| HeaderResolver.FetchHeaders | bin/tempo/src/p2p_proxy.rs:616-652 | every header held is that of the world seen, and the first number not held is unavailable there or down, whatever was cached, evicted or inserted meanwhile |
| HeaderResolver.ResolveStartBlock | bin/tempo/src/p2p_proxy.rs:656-678 | the start is that of the cacheless proxy, by number or by hash, and a named block is then cached unless too low; none if the fetch of the hash may fail |
| HeaderResolver.ServeInOrder | bin/tempo/src/p2p_proxy.rs:726-732 | the longest prefix of the request whose headers are held |
| HeaderResolver.HeldPrefixIsAvailable | bin/tempo/src/p2p_proxy.rs:726-732 | that prefix is a prefix of the longest available one, and all of it unless the next number is down |
| HeaderResolver.ResolveHeaders | bin/tempo/src/p2p_proxy.rs:707-735 | for every capacity, faithful cache, interference and outage the response is the cacheless answer in the world seen, or the prefix of it before a header whose request may fail |
| HeaderResolver.UndisturbedResponse | bin/tempo/src/p2p_proxy.rs:707-735 | a request that reads no height where a side block may be cached gets the answer of the real world, up to an outage and whole without one |
| HeaderResolver.SideBlockIsCached | bin/tempo/src/p2p_proxy.rs:513-517 | a non-canonical block at height 5 asked for by hash is cached at height 5 |
| HeaderResolver.SideBlockIsTaken | bin/tempo/src/p2p_proxy.rs:598-606 | the cache is then no longer canonical, and that block is taken for height 5 |
| HeaderAnswers.SideBlockIsServed | bin/tempo/src/p2p_proxy.rs:600-603 | seeing it, a request for height 5 is answered with the other branch's header |
| HeaderAnswers.AnswerUnmovedIff | bin/tempo/src/p2p_proxy.rs:707-735 | the answer in the world seen is that of the real world iff every block read up to the first unavailable height has the canonical header |
| HeaderAnswers.AnswerNeverMovedIff | bin/tempo/src/p2p_proxy.rs:707-735 | no cache content moves the answer iff no height in reach where side blocks may be cached has a block with another header |
| HeaderAnswers.AnswerIsLongestPrefix | bin/tempo/src/p2p_proxy.rs:707-735 | by number, the canonical headers a step apart from the start; by known hash, that block first; at most 1024 and at most the limit, short of both only at an unavailable height or the edge of the u64 range; an unknown hash gets nothing |
| HeaderAnswers.NamedStartIsNotReadBack | bin/tempo/src/p2p_proxy.rs:719-724 | a start named by hash is never read back through the cache |
| BodyResolver.BodyByHash | bin/tempo/src/p2p_proxy.rs:737-778 | the body of the hash, cached or not, and cached with its block afterwards unless too low; none only if the hash is unknown or its fetch may fail |
| BodyResolver.ResolveBodies | bin/tempo/src/p2p_proxy.rs:781-808 | bodies of a prefix of the hashes, at most 1024, all but the last together below 1 MiB, ending early only at an unknown hash, on reaching 1 MiB, or before a fetch that may fail |
| BodyResolver.PartialIsPrefix | bin/tempo/src/p2p_proxy.rs:789-795 | what is sent after a failed fetch is a prefix of the response |
| BodyResolver.ResponseExists | bin/tempo/src/p2p_proxy.rs:781-808 | every part of a response extends to the response |
| BodyResolver.ResponseIsUnique | bin/tempo/src/p2p_proxy.rs:781-808 | the response does not depend on cache content or schedule |
| BodyResolver.FirstBodyIsServed | bin/tempo/src/p2p_proxy.rs:798-804 | a request whose first block is known gets at least that body |
| IdentityTransitions.OutcomeCache.Get | xtask/src/identity_transitions.rs:230-273 | reads the last height of the epoch, (epoch + 1) * length - 1; succeeds exactly when the block is there, is the one asked for and decodes, else reports which of these failed; the memo never lies |
| IdentityTransitions.BoundaryHeightsAreRead | xtask/src/identity_transitions.rs:235-239 | with epoch length 10 the outcomes at heights 9 and 19 give the change at epoch 1 |
| IdentityTransitions.FindIdentityRunStart | xtask/src/identity_transitions.rs:191-213 | ends at an epoch of the target identity whose predecessor has another one, with no assumption on the identities; an error is that of an epoch without outcome |
| IdentityTransitions.BisectIsExactIff | xtask/src/identity_transitions.rs:199-210 | the search finds the start of the target's own run iff no probe lands on the same identity in an earlier run |
| IdentityTransitions.ReturningIdentityIsMissed | xtask/src/identity_transitions.rs:203-206 | with identities 7 7 7 8 7 the search from epoch 4 reports no change although epochs 3 and 4 both change identity |
| IdentityTransitions.ReturningIdentityMayBeFound | xtask/src/identity_transitions.rs:199-210 | with identities 7 8 7 7 7 both changes are found although identity 7 comes back |
| IdentityTransitions.ContiguousProbesAreHonest | xtask/src/identity_transitions.rs:203-210 | when equal identities form one contiguous run, as the source states, no probe is ever misled, which is the condition BisectIsExactIff asks for |
| IdentityTransitions.ChangePointsAreAll | xtask/src/identity_transitions.rs:172-176 | the reference list holds exactly the epochs whose identity differs from the one before |
| IdentityTransitions.NewestChangeIsRunStart | xtask/src/identity_transitions.rs:156-176 | the newest change point is where the run of the current identity starts |
| IdentityTransitions.NewestIsExactIff | xtask/src/identity_transitions.rs:156-189 | one round reports the newest change iff none of its probes is misled |
| IdentityTransitions.SearchIsExactIff | xtask/src/identity_transitions.rs:156-189 | the full search lists exactly the change points iff no probe of any round is misled |
| IdentityTransitions.ContiguousSearchIsExact | xtask/src/identity_transitions.rs:203-204 | if identities do not come back, as the source assumes, the full search lists exactly the change points |
| IdentityTransitions.ListTransitions | xtask/src/identity_transitions.rs:147-183 | round after round, the same list as SearchTransitions reports; an error is that of an epoch without outcome |
| IdentityTransitions.SearchTransitions | xtask/src/identity_transitions.rs:128-189 | always real, strictly older, linked change points from the reported identity down, none above the active epoch; with every outcome known, those the rounds find, or the newest without full |
| OverlayJournal.RunsIffWellBracketed | xtask/src/bootstrap_shadowfork.rs:602-617 | a trace runs without a panic iff every commit and revert names the innermost checkpoint |
| OverlayJournal.RunsIffInnermostNamed | xtask/src/bootstrap_shadowfork.rs:602-617 | that is, iff each index is one less than the number of checkpoints opened and not closed before it |
| OverlayJournal.JournalIsReplayOfSurvivors | xtask/src/bootstrap_shadowfork.rs:591-620 | overlay and events are a straight replay of the surviving operations, and each open snapshot is the replay of those before it |
| OverlayJournal.ShapeKeepsSurvivors | xtask/src/bootstrap_shadowfork.rs:591-620 | the surviving operations are the loads, stores and events outside every reverted bracket, committed brackets inside it included |
| OverlayJournal.RevertedBracketsVanish | xtask/src/bootstrap_shadowfork.rs:611-620 | the final overlay and events are those of the trace with reverted brackets deleted |
| OverlayJournal.SurvivingLoadsAgree | xtask/src/bootstrap_shadowfork.rs:514-519 | every load outside reverted brackets saw what it sees in that shorter trace |
| OverlayJournal.LoadSeesLastSurvivingStore | xtask/src/bootstrap_shadowfork.rs:514-533 | after every trace that runs, a load sees the value of the last surviving store to the cell, or the database value if none survives |
| OverlayJournal.EventsAreSurvivingEmits | xtask/src/bootstrap_shadowfork.rs:544-620 | after every trace that runs, the events are those of the surviving emissions, in order |
| ShadowStorage.DbStorageOverlay.Sload | xtask/src/bootstrap_shadowfork.rs:514-519 | what the journal says a load sees over what the database reads; changes nothing |
| ShadowStorage.DbStorageOverlay.Sstore | xtask/src/bootstrap_shadowfork.rs:525-533 | the journal's store step; the database is untouched |
| ShadowStorage.DbStorageOverlay.EmitEvent | xtask/src/bootstrap_shadowfork.rs:544-547 | the journal's event step; the database is untouched |
| ShadowStorage.DbStorageOverlay.OpenCheckpoint | xtask/src/bootstrap_shadowfork.rs:591-600 | the journal's checkpoint step, naming the innermost checkpoint |
| ShadowStorage.DbStorageOverlay.CommitCheckpoint | xtask/src/bootstrap_shadowfork.rs:602-609 | the journal's commit step |
| ShadowStorage.DbStorageOverlay.RevertCheckpoint | xtask/src/bootstrap_shadowfork.rs:611-620 | the journal's revert step |
| ShadowStorage.DbStorageOverlay.ReadDbStorage | xtask/src/bootstrap_shadowfork.rs:378-408 | the value of a row with exactly that key and slot, both hashed in the hashed table and neither in the plain one; zero without one |
| ShadowStorage.DbStorageOverlay.ClearDbStorage | xtask/src/bootstrap_shadowfork.rs:424-438 | removes exactly the rows of the address |
| ShadowStorage.DbStorageOverlay.WriteDbStorage | xtask/src/bootstrap_shadowfork.rs:440-474 | one row for a non-zero value, none for zero, every other row untouched |
| ShadowStorage.DbStorageOverlay.PatchRegistry | xtask/src/bootstrap_shadowfork.rs:768-771 | whatever was there, the address holds exactly the last non-zero word of each slot, one row each; no other address moves |
| ShadowStorage.LayoutsReadAlike | xtask/src/bootstrap_shadowfork.rs:378-474 | both layouts read the last listed value of every slot |
| DupTable.Seek | xtask/src/bootstrap_shadowfork.rs:387-389 | some row of the key with the least subkey not below the wanted one |
| AbiClosure.SurfaceForSpec | xtask/src/check_abi.rs:177-206 | terminates on every graph, succeeds iff no walk closes a cycle or meets an unknown parent, restores the stack and returns the union over everything reached; an error describes a real walk |
| AbiClosure.CollectsMeans | xtask/src/check_abi.rs:194-202 | functions, errors and events are each the union over everything reached |
| AbiClosure.FaultyIffCyclicOrUnknown | xtask/src/check_abi.rs:167-167 | from an empty stack the walk fails iff a name repeats along some walk or a reachable spec has an unknown parent |
| AbiClosure.ReachesStep | xtask/src/check_abi.rs:194-202 | what a spec reaches is itself and what its parents reach |
| Epochs.LatestDkgBlockIsGreatest | xtask/src/get_dkg_outcome.rs:60-76 | the greatest epoch-last height not above the given one, genesis when there is none |
| Epochs.LatestDkgBlockIsMonotone | xtask/src/get_dkg_outcome.rs:60-76 | never goes back as the height grows |
| Epochs.LastEndsItsEpoch | xtask/src/get_dkg_outcome.rs:60-76 | the last height of an epoch belongs to it and the next height to the next epoch |
| Epochs.EpochHeights | xtask/src/get_dkg_outcome.rs:60-76 | epoch e covers exactly the heights from e * length up to (e + 1) * length - 1 |
| Epochs.BoundariesAgree | crates/consensus/src/alias.rs:413-420 | the latest outcome block at a height is the boundary of the epoch the next height belongs to |
| Epochs.ForkBlockIsShadowBoundary | xtask/src/bootstrap_shadowfork.rs:133-137 | with epoch length fork + 1 the fork block is the boundary of shadow epoch 1 |
| Epochs.OnlyTheLastBlockHasNoShadowEpoch | xtask/src/bootstrap_shadowfork.rs:134-136 | the shadow epoch length is missing only for the greatest u64 |
| Hardforks.HardforkArgs.WriteTo | crates/chainspec/src/cli.rs:66-73 | every post-genesis fork gets its explicit time, else null after the fork asked for and zero up to it; no other field moves |
| Hardforks.RoundTripIff | crates/chainspec/src/spec.rs:58-81 | the schedule reads back as written iff the other known fields deserialize or no fork is enabled |
| Hardforks.MalformedFieldResetsSchedule | crates/chainspec/src/spec.rs:58-81 | with a zero epoch length in the config every fork is enabled at genesis and reads back as never |
| Hardforks.WrittenScheduleIsFollowed | crates/chainspec/src/spec.rs:210-222 | the chain spec activates each fork when the arguments say so |
| Hardforks.RequestedForkIsLatest | crates/chainspec/src/cli.rs:49-56 | with only a fork asked for, written and read back, that fork is the active one at every time |
| Hardforks.ExplicitTimeIsFollowed | crates/chainspec/src/cli.rs:49-56 | an explicit time is followed exactly, whatever fork is asked for |
| Hardforks.UnflaggedForkIsFollowed | crates/chainspec/src/cli.rs:49-56 | any other fork is active from genesis on iff it does not come after the fork asked for |
| Hardforks.ConfigIsFollowed | crates/chainspec/src/spec.rs:58-81 | a fork is active from its time in the config on; absent means never, and one malformed known field means never for all |
| Hardforks.HardforkAt | crates/chainspec/src/spec.rs:413-423 | the latest fork active at a time, Genesis when none is |
| Hardforks.HardforkIsMonotone | crates/chainspec/src/spec.rs:413-423 | the active fork never goes back, for every schedule |
| Hardforks.ActivityAgreesIffOrdered | crates/chainspec/src/spec.rs:428-431 | being past a fork and the fork being active agree at all times iff activations are ordered |
| Hardforks.UnorderedScheduleDisagrees | crates/chainspec/src/spec.rs:428-431 | with fork 2 scheduled but not fork 1, the chain is past fork 1 and fork 1 is not active |

## Left out

- Static files, RocksDB, MDBX and their cursors: only the effect of the calls used on rows and tables.
- Trie, state-root computation, keccak, RLP, BLS and DKG: parameters or absent. Trie updates are not modelled.
- The header and hash-index replacement of the regenesis command: a handful of table writes without a law.
- 64-bit overflow of row counts and of epoch-last heights: numbers are unbounded there.
- A chain that grows or reorganises during one request: the world is fixed for its length.
- Network manager, semaphores, statistics and task spawning of the proxy: only the lock boundaries remain.
- The `ValidatorConfigV2` checks and the boundary-header patch of the shadow fork: contract code and I/O.
- ABI diffing and printing: set differences.
- Gas and base-fee rules of the hardforks, and the names of forks: forks are their positions.
- `generate`, wallet, snapshot, telemetry and localnet commands: I/O and user interface.
