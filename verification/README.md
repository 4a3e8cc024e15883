# A Dafny model of CerclBackup

CerclBackup is a peer-to-peer backup tool written in Go. A file is cut into chunks, each
chunk is compressed behind a length header, padded, split into Reed-Solomon shards,
encrypted under the shard's global index and stored in a directory named by a prefix of the
content hash; a versioned manifest entry points at it. Buddies keep copies. This project
models that pipeline, the manifest and its retention rules, the protocol between buddies and
the small codecs underneath, and proves what they promise for every input, every interleaving
of the steps listed below and every reachable state. A step is one handled message, one
locked section, or one of the three parts of a revive (check, fetch, store).

SHA-256, HKDF, AES-GCM, zstd, the Reed-Solomon matrix code, JSON and BIP-39 word lists are
foreign: `Foreign.Lib` and `Mnemonic.Bip39` hold them as functions with contracts, and
`Foreign.ContractsAreSatisfiable` and `Mnemonic.ContractIsSatisfiable` exhibit libraries that
meet them.
SHA-256 is not assumed injective. Soundness of a restore reads "the original bytes, or two
named strings with one digest". Clocks, random tokens, nonces, map iteration order, the
order of a directory walk, lost acknowledgements and cancelled contexts are parameters or
arbitrary choices.

| module | models |
|---|---|
| Base, Text, Protocol, Foreign | bytes and numbers, decimal text, shared records, library contracts |
| Chunker, Compress, Codec, Storage | the stages between a file and its shards, and the shard store with its index |
| Backup, Restore, Recovery | `backupOneFile`, `Restore`, and what a restore gets from damaged stores |
| Repository, Requests | every sequence of backups, part-failed backups, prunes and disk damage; which entry a request names |
| Versions, Retention, Lookup, Policies, Pruning, ManifestRuns | the manifest: versions, tiers, lookups, policies in days, pruning, every sequence of them |
| Queue, Network, Handlers, Watcher, RateLimit | step machines: offline queue, buddy protocol, debounce, token bucket |
| Paths, BuddyStore, Scrub, Rebalance | the buddy store's file names, the scrub pass, redistribution |
| Invite, InviteRuns, Registry | one-time invites, the registry file under many handles |
| Wire, Mnemonic | message framing, the shift-by-four decoders |

Step machines (`Network`, `Queue`, `Watcher`, `RateLimit`, `Registry`, `InviteRuns`,
`ManifestRuns`, `Repository`) are relations over sequences of states. Classes and methods
beside them (`Handlers`, `Queue.QueueFile`, `Watcher.Loop`, `RateLimit.Limiter`,
`Registry.Handle`, `Invite.Manager`, `Pruning.Manifest`, `Backup.BackupOneFile`,
`Repository.Prune`) follow the Go code, and their contracts say which of those steps they
take: the handlers and `Handle` methods one step each, `FlushToPeer` a load, one step for
each item and a save (`Queue.FlushIsSteps`), `BackupOneFile` a completed or part-failed
backup (`Repository.BackupIsStep`).

## Where the code and its promises differ

- Pruning frees nothing. `Prune` and auto-prune delete directories named by manifest FileID
  (internal/api/maintenance.go:202-207, internal/api/backup.go:145-149) while shards live
  under hash prefixes (internal/api/backup.go:201). A FileID is a 36-character UUID and a
  store key is 16 hex digits, so the two never meet: `Repository.PruneFreesNothing`.
- A revive can undo an acknowledged push. Between its fetch (internal/scrub/scrub.go:132) and
  its store (internal/scrub/scrub.go:137) nothing is locked, so a copy fetched before a push
  can replace it: `Network.LateStoreReplacesPush`. `Network.NeverStaleIff` and
  `Network.AlwaysLastPushIff` say exactly when that does not happen.
- A scrub can revive a shard only if its owner once pushed it to itself: revive asks the
  owner's buddy store for the owner's own slot, which nothing else writes.
  `Network.FetchSucceedsIff`, `Network.ReviveSucceedsIff`.
- A shard whose FileID is "manifest.enc" and its owner's manifest want one path
  (internal/buddy/store.go:42-43, 197), and whichever comes second is refused:
  `BuddyStore.ShardBlockedIff`, `BuddyStore.ManifestBlockedIff`.
- An Enqueue between a flush's load and its save is overwritten: `Queue.EnqueueDuringFlushIsLost`.
  `Queue.RunLosesNothingIff` gives the exact condition.
- Generations restart at 0 with each watcher entry, so a popped callback left over from one
  entry can end the next one early: `Watcher.LeftoverCallbackEndsNextEntry`. Which callbacks
  fire is characterised exactly by `Watcher.FiresExactly`.
- A request so large that its wait exceeds 2^63 ns is not throttled:
  `RateLimit.HugeRequestIsNotThrottled`; `RateLimit.UnpaidIsSmallIffFits` is the exact condition.
- A shard whose local copy is corrupt is treated as lost even when buddies hold good copies,
  because buddies are asked only for missing files (internal/api/restore.go:168-190):
  `Recovery.BadCopiesHideGoodOnes`. `Recovery.LocalCopiesDecide` is the exact condition.
- A backup of unchanged content rewrites its shards in place, and a write that fails leaves a
  truncated file (internal/storage/store.go:62). More such failures than parity shards can make
  an older version unrestorable: `Repository.FailedRewritesDestroy`; up to that many never do:
  `Repository.EveryVersionRestores`.
- In the weekly and monthly tiers the newest version does not stand for its own week or
  month, so a second version of that week or month is kept (internal/manifest/manifest.go:255-258)
  although one is promised (internal/manifest/manifest.go:205-206):
  `Retention.TwoVersionsOfOneMonth`. `Retention.OnePerBucketIff` says when the promise holds.
- A policy of more than 106751 days does not fit a time.Duration and wraps
  (internal/manifest/manifest.go:267, 270): `Policies.WindowIsDaysIff`.
- `Manifest.Remove` of the latest version lets its number be given again, and `ImportEntry`
  can duplicate one: `ManifestRuns.RemovedNumberComesBack`, `ManifestRuns.ImportedNumberIsDoubled`,
  with the exact conditions `ManifestRuns.RemoveFreshIffNotLatest`, `ManifestRuns.ImportValidIffNewVersion`.
- `Restore` can only report IntegrityPassed: an empty recorded hash is refused before the
  branch that would skip the check. `Restore.RestoredChunks`.
- The comments on the mnemonic decoders place the checksum in the high nibble of byte 0. It
  is the low nibble of byte 16; the shift is right all the same. `Mnemonic.ShiftRecovers`.

## Model

| member | source | states |
|---|---|---|
| Restore.RestoreExact | internal/api/restore.go:144-235 | for every content, scheme and set of lost or undecryptable shards: if every chunk keeps DataShards genuine shards the output is the original bytes with the check passed, otherwise the restore fails |
| Restore.RestoreChunkExact | internal/api/restore.go:159-220 | the same equivalence for one chunk, including a short last chunk and lengths not divisible by DataShards |
| Restore.RestoreSound | internal/api/restore.go:98-235 | for arbitrary local and buddy contents and an arbitrary shard list, success means the check passed and the output is the backed-up file, or a collision is named |
| Restore.RestoredChunks | internal/api/restore.go:225-235 | a successful restore always passed its check, and its chunks hash to the recorded value |
| Restore.SameHashSameChunks | internal/api/backup.go:334-342 | equal hashes of concatenated chunk hashes mean equal chunk lists, or a collision is named |
| Restore.Restore | internal/api/restore.go:50-235 | the imperative restore computes the specification `RestoreEntry`, errors included |
| Restore.RestoreLoop | internal/api/restore.go:157-221 | the chunk loop yields the concatenated chunks and chunk hashes, or the first error |
| Restore.GatherShards | internal/api/restore.go:163-191 | per shard: local copy, else first buddy reply, else erasure; an undecryptable copy is an erasure |
| Restore.TryFetchFromBuddies | internal/api/restore.go:242-252 | nothing iff no buddy has the shard, otherwise the copy of the earliest buddy in registry order that has it |
| Restore.FirstReplyIff | internal/api/restore.go:242-252 | the same of the specification used in every restore law |
| Restore.LocalCopiesHideBuddies | internal/api/restore.go:168-190 | buddies affect the result only through shards with no local file |
| Recovery.RestoresIff | internal/api/restore.go:159-235 | a restore gives the content back iff every chunk has DataShards shards whose local copy opens, or that are missing locally and whose first reply opens; otherwise it fails |
| Recovery.ObtainsIff | internal/api/restore.go:168-190 | a shard can be had iff its local file opens, or there is none and the earliest buddy that has it has a copy that opens |
| Recovery.RestoresFromBuddiesIff | internal/api/restore.go:159-252 | with no local file left, the content comes back iff each chunk has DataShards shards whose earliest holder's copy opens |
| Recovery.LocalCopiesDecide | internal/api/restore.go:168-190 | with a local file for every shard, success iff each chunk has DataShards local copies that open, whatever the buddies hold |
| Recovery.BadCopiesHideGoodOnes | internal/api/restore.go:168-190 | with unopenable local files the restore fails although every buddy holds every shard, and deleting those files makes it succeed |
| Recovery.BadCopiesExist | internal/api/restore.go:168-190 | such stores exist for every content |
| Backup.BackupOneFile | internal/api/backup.go:183-247 | the store afterwards holds the first n shards of the content under its key, and possibly a truncated shard n, n being where a read or write failed or all; an entry with the next version, global shard indices and parity flags appears exactly on success |
| Backup.StoreFile | internal/api/backup.go:203-232 | the nested loops write shards 0, 1, 2, ... of all chunks in order, up to the first failing write |
| Backup.ShardAt | internal/api/backup.go:214-222 | global index ci*T+si is shard si of chunk ci, and is parity exactly when si is at least DataShards |
| Backup.FileHashFromChunks | internal/api/backup.go:334-342 | the loop over the chunks' hashes gives the file hash |
| Backup.SmallFileHash | internal/api/backup.go:334-342 | the hash of no bytes for an empty file, the hash of the content's hash for one chunk |
| Backup.CipherIs | internal/api/backup.go:214-221 | a shard is sealed under the key that master key, file hash and global index give |
| Backup.LocationsAre | internal/api/backup.go:225-230 | recorded indices count on through all chunks, each chunk's data shards before its parity shards |
| Repository.EveryVersionRestores | internal/api/backup.go:201-234 | over every sequence of completed and part-failed backups, prunes and disk damage with one scheme and distinct store keys, every version in the manifest restores to its own bytes while no chunk has more harmed shards than parity shards |
| Repository.EveryVersionRestoresIff | internal/api/restore.go:159-235 | in the same states: exactly when each chunk has DataShards shards that can be had, else the restore fails |
| Repository.UnharmedVersionsRestore | internal/api/backup.go:201-234 | without damage every version restores, whatever the buddies hold |
| Repository.FailedRewritesDestroy | internal/api/backup.go:214-224 | for every stored non-empty content, failing rewrites at shards p, ..., 0 with p the parity count leave it unrestorable |
| Repository.TwoContentsApart | internal/api/backup.go:344-346 | a machine exists whose libraries meet their contracts and on which two contents have two store keys, so the results above are not vacuous |
| Repository.RunsStayGood | internal/api/backup.go:142-156 | the invariant behind it: unharmed shards of every entry are genuine although equal contents rewrite one directory, and harmed ones never open as something else |
| Repository.BackupIsStep | internal/api/backup.go:183-247 | whatever `BackupOneFile` leaves behind is a completed or part-failed step of those sequences |
| Repository.Prune | internal/api/maintenance.go:168-212 | manifest pruning followed by one delete per pruned FileID is a prune step of those sequences |
| Repository.PruneFreesNothing | internal/api/maintenance.go:202-207 | in every sequence a prune leaves the shard store exactly as it was, store keys distinct or not |
| Requests.ChooseEntry | internal/api/restore.go:73-95 | returns the entry a FileID, a path and version, or a path alone names, and fails only when nothing is named |
| Requests.NamesAtMostOne | internal/api/restore.go:73-95 | a request never names two entries |
| Requests.RestoreFile | internal/api/restore.go:50-235 | in every reachable repository with tolerable damage a request succeeds exactly when it names an entry, and writes that entry's bytes |
| Chunker.PiecesPartition | internal/chunker/chunker.go:34-66 | chunks concatenate to the content, none is empty, only the last may be short and its size is known from the file size |
| Chunker.ChunkReader | internal/chunker/chunker.go:34-66 | the read loop yields those pieces, zero padded, numbered, each with the hash of its real bytes, and fails exactly when the reader does |
| Chunker.Reassemble | internal/chunker/chunker.go:70-85 | writing freshly made chunks back gives the content |
| Chunker.FreshChunksVerify | internal/chunker/chunker.go:89-96 | every freshly made chunk verifies |
| Chunker.VerifiedChunkIsGenuine | internal/chunker/chunker.go:89-96 | a chunk verifies only if it holds the bytes its hash was taken of, or a collision is named |
| Chunker.FourMebibyteChunks | internal/chunker/chunker.go:34-66 | a content has one chunk for each 4 MiB begun |
| Compress.SurvivesPadding | internal/compress/compress.go:57-89 | a compressed chunk decompresses to itself whatever follows it, so shard padding is harmless |
| Compress.CompressLayout | internal/compress/compress.go:57-67 | the length of the frame in four little-endian bytes, then the frame |
| Compress.DecompressIff | internal/compress/compress.go:72-89 | a buffer decompresses iff it has a header, the bytes the header claims, and those decode |
| Codec.MergeSplit | internal/codec/reedsolomon.go:85-113 | merging what is left of a split buffer gives the buffer and its padding exactly when DataShards shards are left |
| Codec.PaddedSize | internal/codec/reedsolomon.go:85-100 | padding is the least that makes the size a multiple of DataShards |
| Codec.SplitChunkToShards | internal/codec/reedsolomon.go:85-100 | padding, slicing and parity as specified, with zero-length shards refused |
| Codec.MergeShardToChunk | internal/codec/reedsolomon.go:103-113 | rebuild, then the data shards in order |
| Foreign.DecryptEncrypt | internal/crypto/encryptor.go:134-149 | a shard decrypts under its own file key and index |
| Foreign.BlobIsUnderItsIndex | internal/crypto/encryptor.go:87-149 | a blob is nonce and ciphertext under the key of that index, and opens as the library opens it under that key |
| Foreign.ContractsAreSatisfiable | internal/codec/reedsolomon.go:19-28 | some library, with a hash that is not constant, meets all contracts used by the pipeline |
| Protocol.BestScheme | pkg/protocol/messages.go:75-88 | a scheme exists exactly from three buddies up; it uses the largest of 3, 5, 8 and 10 shards that fits them, with 1, 2, 3 and 4 of them parity |
| Protocol.HexInjective | internal/api/restore.go:225-231 | comparing hex texts compares hashes |
| Protocol.StoreKeyIsNoUuid | internal/api/backup.go:344-346 | a store key is never a FileID |
| Protocol.StoreKeyIs | internal/api/backup.go:344-346 | 16 lower-case hex digits that decode to the first eight bytes of the hash |
| Protocol.UnhexIff | internal/api/restore.go:256-267 | text decodes iff it is an even number of hex digits of either case |
| Storage.MetaIsExactIndex | internal/storage/store.go:55-104 | under any sequence of writes and deletions meta.json lists exactly the stored shards, once each, with parity and size |
| Storage.RewriteMeta | internal/storage/store.go:66-85 | the scan updates the first matching entry or appends one |
| Storage.PutMetaIsUpdate | internal/storage/store.go:66-85 | that is a map update which keeps indices distinct |
| Storage.Store.PutShard | internal/storage/store.go:55-86 | the shard file and the index change together, other files and shards do not |
| Versions.SortByVersion | internal/manifest/manifest.go:306-312 | the in-place swaps compute insertion sort |
| Versions.SortSorts | internal/manifest/manifest.go:306-312 | the result is ascending and a permutation |
| Retention.SelectedExactly | internal/manifest/manifest.go:250-297 | version i is kept iff it is newest, in the keep-all window, or the highest of its week or month below the newest, and fewer than MaxVersions higher ones are kept |
| Retention.SelectVersionsToKeep | internal/manifest/manifest.go:250-297 | the descending loop with its shared seen map, the sort and the cut compute that selection |
| Retention.OnePerBucketIff | internal/manifest/manifest.go:202-209 | at most one version per week and month is kept, capped or not, iff the newest is in the keep-all window or no other version the cap leaves shares its week or month |
| Retention.TwoVersionsOfOneMonth | internal/manifest/manifest.go:255-258 | two versions of one month that are both kept |
| Retention.KeepDescending | internal/manifest/manifest.go:255-288 | the loop keeps, newest first, exactly the versions their tiers keep |
| Retention.KeyInjective | internal/manifest/manifest.go:272-285 | week and month keys name one bucket each and are never confused |
| Retention.KeyIsNoUuid | internal/manifest/manifest.go:256-285 | no week or month key is a FileID, so one seen map serves all three |
| Lookup.Latest | internal/manifest/manifest.go:186-200 | in any iteration order: the highest version of the path, nothing iff the path has none |
| Lookup.ListVersions | internal/manifest/manifest.go:171-183 | every entry of the path once, strictly ascending, whatever the iteration order |
| Lookup.LatestPerPath | internal/api/list.go:37-42 | the fold holds the latest entry of every path, although it compares raw version numbers |
| Pruning.PruneKeepsLatest | internal/manifest/manifest.go:220-248 | pruning never changes which entry is latest |
| Pruning.PruneLeavesOne | internal/manifest/manifest.go:220-248 | a path with entries keeps at least one |
| Pruning.PruneRespectsCap | internal/manifest/manifest.go:290-295 | and at most MaxVersions when capped |
| Pruning.PruneIsPerPath | internal/manifest/manifest.go:224-246 | what survives of a path depends on that path alone |
| Pruning.PruneIsIdempotent | internal/manifest/manifest.go:220-312 | pruning again at the same instant and policy removes nothing |
| Pruning.Manifest.PruneVersions | internal/manifest/manifest.go:220-248 | an entry stays iff the policy, in days and calendar terms, says so; the rest is returned once each |
| Policies.PruneLaw | internal/manifest/manifest.go:220-297 | an entry stays iff it is the latest, or at most KeepAllDays old, or at most KeepWeeklyDays old and the highest of its ISO week in that band, or older and the highest of its month, the latest not counting, and fewer than MaxVersions higher ones of its path qualify |
| Policies.TierLaw | internal/manifest/manifest.go:258-286 | the tier and its key from the age in days, counted from the backup or, if that is unset, the modification |
| Policies.WindowIsDaysIff | internal/manifest/manifest.go:267-270 | the 64-bit window is the number of days meant iff that is at most 106751 |
| Pruning.Manifest.Upsert | internal/manifest/manifest.go:131-168 | a fresh entry with the version after the highest one; versions of a path stay distinct; a failed stat changes nothing |
| Pruning.Manifest.NextVersion | internal/manifest/manifest.go:140-151 | one more than the highest version of the path, 1 if there is none |
| ManifestRuns.VersionsNeverReused | internal/manifest/manifest.go:131-248 | over every sequence of upserts and prunes a later version of a path has a higher number |
| ManifestRuns.LegacyEntryCountsAsOne | internal/manifest/manifest.go:299-304 | after an entry with version 0 the next version is 2 |
| ManifestRuns.RunsStayValid | internal/manifest/manifest.go:131-248 | versions of a path are distinct in every reachable manifest |
| ManifestRuns.LookupsAgree | internal/api/list.go:37-49 | Latest, the last of ListVersions and the ListFiles entry are one entry in every reachable manifest |
| ManifestRuns.RemoveFreshIffNotLatest | internal/manifest/manifest.go:357-361 | after a removal the next number is above the removed one iff the removed entry was not the latest |
| ManifestRuns.ImportValidIffNewVersion | internal/manifest/manifest.go:348-354 | an import keeps versions distinct iff its version is new to its path |
| ManifestRuns.RemovedNumberComesBack | internal/manifest/manifest.go:357-361 | an upsert, a removal and an upsert that give one number twice |
| ManifestRuns.ImportedNumberIsDoubled | internal/manifest/manifest.go:348-354 | an upsert and an import that leave a path with two entries of one number |
| Queue.RunLosesNothingIff | internal/p2p/queue.go:40-80 | for any interleaving of flushes and enqueues, nothing is ever lost iff every save had loaded all that was not yet acknowledged |
| Queue.QuietRunsLoseNothing | internal/p2p/queue.go:52-80 | with any number of concurrent flushes and no Enqueue during one, every item is in the file or was acknowledged and stored |
| Queue.StepLosesNothingIff | internal/p2p/queue.go:76-79 | only a save can lose items, and exactly when it is unsafe |
| Queue.EnqueueDuringFlushIsLost | internal/p2p/queue.go:40-80 | a three-step interleaving that loses an item |
| Queue.RemainingExact | internal/p2p/queue.go:61-74 | a flush keeps exactly the items of other peers and the unacknowledged ones |
| Queue.QueueFile.FlushToPeer | internal/p2p/queue.go:52-80 | the loop of an undisturbed flush writes back exactly those, and from any state takes a load, one step for each item and a save |
| Queue.FlushIsSteps | internal/p2p/queue.go:52-80 | that stretch of steps, with nothing between, ends with those items and leaves other flushes alone |
| Network.OnlyOwnerChangesSlot | internal/p2p/handler.go:133-185 | in every step a slot keeps its content, or takes what its owner pushed or answered to a revive, or the disk rotted |
| Network.SlotHoldsLastWrite | internal/p2p/handler.go:133-185 | over every interleaving of many nodes a slot holds, with its hash, what was written last for its owner |
| Network.SlotIff | internal/p2p/handler.go:133-185 | over every interleaving a slot is filled iff a push of its owner to it was acknowledged |
| Network.PushAckedIff | internal/p2p/handler.go:133-185 | a push is acknowledged iff a registered peer, with no key or its own on record, pushes its own shard under safe names that do not clash with its manifest |
| Network.ManifestPushAckedIff | internal/p2p/handler.go:296-340 | the same for a manifest |
| Network.PullFoundIff | internal/p2p/handler.go:88-129 | a pull is answered iff a registered peer asks for its own shard or one of the asked node's, and a push of it was acknowledged before |
| Network.WritesAreSupplied | internal/scrub/scrub.go:110-144 | whatever is written to a slot the owner handed out for it, by a push or by its answer to that revive |
| Network.FoundIsLastWrite | internal/p2p/handler.go:88-185 | a Found reply after an acknowledged push carries the last write, which the owner handed out |
| Network.NeverStaleIff | internal/scrub/scrub.go:128-141 | after an acknowledged push a slot never falls back to older data iff no revive stores in between what it fetched before the push |
| Network.FoundIsFreshIff | internal/scrub/scrub.go:128-141 | a Found reply carries data handed out at or after the push iff the last write before it is not a revive's older answer |
| Network.AlwaysLastPushIff | internal/scrub/scrub.go:128-141 | a slot always holds that push or a later one iff no revive stores into it in between |
| Network.FoundIsLastPush | internal/p2p/handler.go:88-185 | if no revive of the slot is under way when a push is acknowledged, or none stores after it, a Found reply carries the last acknowledged push |
| Network.LateStoreReplacesPush | internal/scrub/scrub.go:128-141 | an interleaving in which a late store replaces a newer acknowledged push |
| Network.NoSelfPushNoLateRevive | internal/scrub/scrub.go:128-141 | a shard its owner never pushed to itself is never overwritten by a revive |
| Network.FetchSucceedsIff | internal/p2p/handler.go:88-129 | the owner answers a revive iff it knows the asking node and once pushed the shard to itself |
| Network.ReviveSucceedsIff | internal/scrub/scrub.go:84-144 | an uninterrupted revive stores a copy iff the slot is there and fails its hash, the owner knows this node, and the owner once pushed the shard to itself |
| Network.ReviveNeverSucceeds | internal/scrub/scrub.go:110-144 | a revive of a shard never pushed by its owner to itself fails and changes no slot |
| Network.FoundIsOwnOrAsked | internal/p2p/handler.go:108-128 | a Found reply goes to an authenticated peer and concerns its own shard or the asked node's |
| Network.UnrottenSlotsVerify | internal/buddy/store.go:113-143 | a stored shard fails its hash only if the disk changed under it |
| Network.OnlyOwnerChangesManifest | internal/p2p/handler.go:296-373 | a stored manifest changes only by its authenticated owner's acknowledged push |
| Network.ManifestFoundIff | internal/p2p/handler.go:296-373 | over every interleaving a manifest request is answered iff an authenticated peer asks for its own and an earlier push was acknowledged, and then with the last such push |
| Handlers.HandleShard | internal/p2p/handler.go:133-185 | on files and registry the handler does to this node what the protocol step does to its slots, reply included |
| Handlers.HandlePull | internal/p2p/handler.go:88-129 | its reply is the protocol step's |
| Handlers.HandleManifestPush | internal/p2p/handler.go:322-340 | the same for storing a manifest |
| Handlers.HandleManifestPull | internal/p2p/handler.go:342-368 | the same for returning one |
| Handlers.CheckBuddyAuth | internal/p2p/handler.go:43-75 | true iff the peer is registered with no key or with its own |
| Handlers.VerifyAlike | internal/buddy/store.go:128-143 | a shard passes the store's check iff its slot passes the protocol's |
| Watcher.NoBurstLostOrDoubled | internal/watcher/watcher.go:82-136 | at every point of every interleaving each pending path has an unrun callback of its generation, calls are entries created minus entries pending, and no entry ends twice |
| Watcher.FiresExactly | internal/watcher/watcher.go:89-99 | a callback fires iff its path is pending and its place among its entry's events is, modulo 2^64, that of the pending entry's last event |
| Watcher.OnlyOneTimerRuns | internal/watcher/watcher.go:126-134 | of one entry's timers only the one armed last can still expire |
| Watcher.CallbackRunsOnce | internal/watcher/watcher.go:89-99 | no callback runs twice |
| Watcher.OnlyLastCallbackOfALifeFires | internal/watcher/watcher.go:89-136 | within one entry's life only the callback armed by its last event can fire |
| Watcher.EveryCallIsTheLastEvents | internal/watcher/watcher.go:89-136 | if no callback of an ended entry is left when the next one starts, every call comes from its own entry's last event |
| Watcher.LeftoverCallbackEndsNextEntry | internal/watcher/watcher.go:89-136 | an interleaving in which a left-over callback ends the next entry |
| Watcher.Loop.HandleEvent | internal/watcher/watcher.go:124-136 | the event branch takes the machine's event step |
| Watcher.Loop.Fire | internal/watcher/watcher.go:89-99 | the callback takes the machine's callback step |
| RateLimit.GrantedAtMostQuota | internal/ratelimit/ratelimit.go:47-81 | for every sequence of non-overlapping calls and every time t, bytes granted are at most capacity + rate*(t - start) plus less than one nanosecond's quota per sleeping call |
| RateLimit.TokensStayInRange | internal/ratelimit/ratelimit.go:47-81 | tokens stay between 0 and the capacity and time never goes back |
| RateLimit.CallBalances | internal/ratelimit/ratelimit.go:57-73 | granted, held and lost quota balance the time passed and the rounding, exactly |
| RateLimit.UnpaidIsSmallIffFits | internal/ratelimit/ratelimit.go:73 | the conversion to nanoseconds forgives less than one nanosecond's quota iff the quotient fits an int64 |
| RateLimit.HugeRequestIsNotThrottled | internal/ratelimit/ratelimit.go:73 | a request beyond that returns at once |
| RateLimit.Limiter.Wait | internal/ratelimit/ratelimit.go:47-81 | fields and return time as `RateLimit.WaitLaw` says; unlimited limiters and empty requests change nothing |
| RateLimit.WaitLaw | internal/ratelimit/ratelimit.go:56-80 | a request up to min(capacity, tokens + rate*elapsed) is paid at once and the rest stays; any other empties the bucket and pauses for the missing amount over the rate, in whole nanoseconds rounded down |
| RateLimit.ReturnsAtOnceIff | internal/ratelimit/ratelimit.go:65-74 | a call returns at its entry time iff the bucket can pay, or the missing amount earns in under a nanosecond and the sleep is not late |
| RateLimit.IdleGrantsAtOnce | internal/ratelimit/ratelimit.go:56-69 | in every sequence, after a second of idleness any request up to the capacity is granted at once |
| Paths.ParseShardPath | internal/buddy/store.go:35-44 | the walk reads every shard path back as the reference it was made from |
| Paths.ShardPathInjective | internal/buddy/store.go:35-44 | no two references share a path |
| Paths.PathsAreDistinct | internal/buddy/store.go:103-109 | shard files and sidecars never collide |
| Paths.AtoiDecimal | internal/buddy/store.go:171-175 | strconv.Atoi undoes strconv.Itoa on every int |
| Paths.AtoiAccepts | internal/buddy/store.go:171-175 | only an optional sign and digits within the int range are an index |
| Paths.SafeIff | internal/buddy/store.go:28-33 | a name is safe iff it holds no separator of any system and names a child of the directory it is used in |
| Paths.PathsStayBelowOwner | internal/buddy/store.go:35-44 | following "." and "..", every file lies exactly where its names say, below its owner's directory |
| Paths.SplitPath | internal/buddy/store.go:219-233 | the loop yields the path's components in order |
| BuddyStore.ListAllIsExact | internal/buddy/store.go:153-185 | on a store whose names are this program's, every stored shard is listed once and nothing else is |
| BuddyStore.EveryStoreIsOk | internal/buddy/store.go:113-200 | whatever handlers and revives wrote, and whatever was damaged since, all names are this program's and no manifest stands beside a shard directory of its name |
| BuddyStore.EveryListingIsExact | internal/buddy/store.go:153-185 | so listing is exact on every such store |
| BuddyStore.ShardBlockedIff | internal/buddy/store.go:52-57 | the file system refuses a shard iff its FileID is "manifest.enc" and its owner's manifest is stored |
| BuddyStore.ManifestBlockedIff | internal/buddy/store.go:189-200 | it refuses a manifest iff a shard of that owner has FileID "manifest.enc" |
| BuddyStore.StoreVerifiesAndSpares | internal/buddy/store.go:113-143 | a stored shard verifies with its data and no other shard changes |
| BuddyStore.DamageIsSeen | internal/buddy/store.go:128-143 | a stored shard whose file was overwritten verifies iff the new bytes have the old digest |
| BuddyStore.Store.ListAll | internal/buddy/store.go:153-185 | for any store contents and walk order: the references parsed from the walked files, which are exactly the stored shards when this program named them |
| BuddyStore.Store.PutWithHash | internal/buddy/store.go:113-123 | shard and sidecar are written, or nothing if a name is unsafe or a file is in the way |
| BuddyStore.Store.Verify | internal/buddy/store.go:128-143 | true iff both files exist and the sidecar is the SHA-256 of the shard file |
| Scrub.EveryPassIsExact | internal/scrub/scrub.go:75-144 | on every store handlers and revives can leave, damaged or not, a whole pass is exact as below |
| Scrub.PassIsExact | internal/scrub/scrub.go:75-144 | a whole pass counts the shards whose sidecar is the digest of their file, those without whose owner answers, and those without whose owner does not; answered shards end as the answer with its digest, all others keep their files |
| Scrub.RunOnce | internal/scrub/scrub.go:75-106 | the loop, cancelled anywhere; uncancelled, Checked = OK + Corrupted and Corrupted = Revived + Failed for any store, and the exact pass on this program's stores |
| Scrub.PassDecides | internal/scrub/scrub.go:84-104 | each shard is judged by its state at the start, and handling other shards never undoes what was done |
| Rebalance.Run | internal/rebalance/rebalance.go:56-126 | always ShardsAttempted = ShardsOK + connect and push errors; uncancelled, every indexed shard is at every valid buddy or an error names it; with every peer up and every indexed shard readable there are no errors; buddies lose nothing |
| Rebalance.ErrorFreeRunReplicates | internal/rebalance/rebalance.go:56-126 | with the exact index, no errors means every buddy with a valid peer ID holds every stored shard of every given key |
| Rebalance.Attempt | internal/rebalance/rebalance.go:100-121 | a peer that cannot be connected is recorded and sent nothing, an acknowledged push is held and counted, any other push is recorded |
| Rebalance.ExactIsReadable | internal/storage/store.go:55-104 | with the exact index every indexed shard is readable |
| InviteRuns.BuddiesAtMostInvites | internal/p2p/handler.go:189-241 | in every history buddies joined plus invites stored never exceed tokens generated plus commitments added |
| InviteRuns.AcceptedIff | internal/invite/generator.go:80-107 | in every history a request uses up a token iff that token was generated at most 24 hours before and every event in between spared it |
| InviteRuns.RedeemedIff | internal/p2p/handler.go:200-206 | a request without a live token is admitted iff an unexpired commitment with its digest is stored, and is otherwise without effect |
| InviteRuns.PendingIffLive | internal/invite/generator.go:80-151 | an invite is stored iff it was generated and every later event spared it |
| InviteRuns.CommitmentsBalance | internal/invite/generator.go:181-222 | per digest, commitments redeemed plus commitments left equal commitments added |
| InviteRuns.RedeemedIsUnexpired | internal/invite/generator.go:198-222 | a redeemed pre-image matches a commitment that was added and has not expired |
| InviteRuns.RejectedIffUnchanged | internal/p2p/handler.go:200-206 | a request leaves the stored invites unchanged iff it is rejected |
| Invite.ConsumeKeepsOthers | internal/invite/generator.go:89-105 | consuming drops that token and expired invites; every other invite keeps its copies |
| Invite.GenerateKeepsOthers | internal/invite/generator.go:141-150 | generating keeps every unexpired invite |
| Invite.Manager.Consume | internal/invite/generator.go:80-107 | succeeds iff an invite with the token and expiry not before now is stored; the in-place compaction, and the file left alone on failure |
| Invite.Manager.ConsumeCommitment | internal/invite/generator.go:198-222 | succeeds iff an unexpired commitment with the digest is stored, and removes exactly the first |
| Invite.Manager.Generate | internal/invite/generator.go:57-76 | prunes expired invites in place and appends the new one |
| Invite.HandleInvite | internal/p2p/handler.go:189-241 | the registry gains the sender exactly when an unexpired token or commitment admitted it |
| Registry.HandlesAreOneMap | internal/buddy/registry.go:48-171 | any number of handles interleaved operation by operation answer as one map would |
| Registry.RemovedStaysRemoved | internal/buddy/registry.go:109-131 | a removed buddy stays away until some handle adds it, whatever stale handles update |
| Registry.SaveLoad | internal/buddy/registry.go:48-90 | saving in any order and loading again gives the same map |
| Registry.Handle.LoadFile | internal/buddy/registry.go:48-70 | the cache becomes the file's map, also when the file does not exist yet |
| Registry.Handle.Add | internal/buddy/registry.go:94-105 | the file's map gains the stamped entry, whatever the cache held |
| Registry.Handle.UpdateAddrs | internal/buddy/registry.go:109-119 | addresses of a known buddy change, an unknown one is not created |
| Registry.Handle.Remove | internal/buddy/registry.go:123-131 | the file's map loses the buddy |
| Wire.ReadsExactlyFrames | pkg/wire/framing.go:13-51 | a stream starts with a message iff it starts with the frame of a non-empty payload within the cap; the rest is untouched |
| Wire.ReadLayout | pkg/wire/framing.go:34-51 | a message is read iff four bytes, most significant first, give a size from 1 to 64 MiB and that many bytes follow |
| Wire.ReadsBackList | pkg/wire/framing.go:13-51 | concatenated frames read back as the same list and leave the following bytes |
| Wire.StrictPrefixIsError | pkg/wire/framing.go:34-51 | no strict prefix of a frame is a message |
| Wire.CutStreamGivesWholeMessages | pkg/wire/framing.go:34-51 | a stream cut anywhere yields exactly its whole messages |
| Wire.Stream.WriteMsg | pkg/wire/framing.go:13-30 | appends the frame, or nothing when over the cap |
| Wire.Stream.ReadRawMsg | pkg/wire/framing.go:34-51 | reads as specified |
| Wire.Stream.ReadMsg | pkg/wire/framing.go:54-74 | accepts the frames ReadRawMsg accepts, if they decode, and leaves the same bytes |
| Mnemonic.ShiftRecovers | internal/invite/generator.go:126-131 | for every entropy and 4-bit checksum the shift-by-four loop recovers the entropy from the big-endian form of both (section "Generating the mnemonic" of BIP-39) |
| Mnemonic.WordsRoundTrip | internal/emailinvite/emailinvite.go:202-233 | every 16-byte secret comes back from its own words, through either decoder since trimming leaves those words alone |
| Mnemonic.ContractIsSatisfiable | internal/emailinvite/emailinvite.go:202-208 | some word library meets the contract, so the round trip is not vacuous |
| Mnemonic.TokenFromMnemonic | internal/invite/generator.go:114-132 | the loop, with short inputs used as they are or refused |
| Mnemonic.WordsToSecret | internal/emailinvite/emailinvite.go:215-233 | agrees with TokenFromMnemonic on trimmed words |
| Mnemonic.TrimTakesOnlySpace | internal/emailinvite/emailinvite.go:216 | trimming takes white space off both ends and nothing else |

## Left out

- libp2p hosts, discovery and dialing: a step is "peer X sent message M".
- The insides of SHA-256, HKDF, Argon2id, AES-GCM, Ed25519, zstd, Reed-Solomon and JSON.
- File-system failures and partial writes, except a backup that stops at a failing read or shard write and the damage events of `Repository`.
- `Export`, `Import`, `Audit` and the `Rebalance` command: they look the shard store up by FileID while backups store by hash prefix, so no end-to-end result holds through them.
- One content backed up under two schemes: the second backup rewrites the shared directory, so one scheme is a precondition of `Repository.EveryVersionRestores`.
- `pushToBuddies` after a backup: its push-or-enqueue loop adds nothing to the queue and protocol results.
- `sortByPathAndVersion`, `Storage` statistics, `Diff`, `DeleteOwner`: only easy members.
- Overlapping `Wait` calls and stopping the watcher: the code promises nothing there.
- Circle manager, keystore, glob exclusion, GUI, CLI, tray, configuration: presentation or thin wrappers.
- Registry.HandlesAreOneMap: entries are values, so a caller that keeps the entry returned by `Get` or passed to `Add` and writes to it is not captured; load and decrypt errors are not modelled.
- RateLimit.GrantedAtMostQuota: amounts are reals, so float64 rounding other than the truncation to nanoseconds is not captured.
- Paths.SplitPath: takes a clean path with '/' separators, which is what the walk yields on Unix; Windows separators are not modelled.
- Scrub.PassIsExact: assumes that nothing else writes the store during the pass; `Network` has the interleaved case.
- Network.UnrottenSlotsVerify: a message is handled in one step, so two pushes to one slot whose shard and sidecar writes interleave, and may leave a shard with the other's hash, are not captured.
- BuddyStore.Store.PutWithHash: a foreign directory in the place of a sidecar, which would let the shard be written and its hash not, is taken as a refusal; this program makes none.
- Repository.EveryVersionRestores: a truncated or damaged shard file is assumed not to authenticate as anything but its own shard, which is what AES-GCM is for.
- ShardLocation.StorageKey and BuddyID texts, which nothing reads back.
- Watcher.NoBurstLostOrDoubled: debounce durations are not modelled; an expiry may come at any time after its event.
