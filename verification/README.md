# Verified model of elu

elu is a content-addressed package manager. This project models its store and garbage
collector, its resolver and lockfile, the application of layers to a file tree, its
registry's publish protocol, and two small cores (canonical JSON and permission specs), and
proves what they promise each other. `dafny verify dfyconfig.toml` checks everything.

Data first: a manifest, a blob and an uncompressed tar are all named by a hash
(`Types.Hash`). What elu calls but does not define (SHA-256, gzip, zstd, UTF-8 validation,
manifest parsing, tar decoding, version matching, hook operations) appears as functions
inside records (`Types.Foreign`, `Versions.Semver`, `Stage.Tools`); nothing is assumed about
them except that the hash does not collide, where a statement says so, and that version
precedence is a total order.

* Store: `StoreModel` says what each operation does to the tables, `FsStore` is the store as
  a class whose methods change them in place, `StoreProofs` has its laws over all sequential
  runs. `StoreConcurrent` cuts every call into the steps between which other processes can
  run; `GcSafety` (what a collection keeps), `PutConvergence` (puts without collections),
  `PutsAndGc` (puts with collections), `StrandedPuts` (when exactly a collection can strand a put)
  and `RefRaces` (concurrent ref writers) are about all interleavings of those steps, `SoloCalls`
  about a call that nobody interrupts.
* Layers: `LayerTree` is the two-pass application of one archive, `LayerEntries` what each entry
  does to the tree, told from its path, kind and mode; `LayerOverlay` is the declarative overlay a
  layer should give, `LayerRefinement` the proof that it does and exactly when; `LayerApply` is the
  in-place code and `Stage` stacks layers.
* Resolution: `Versions`, `Resolver` (the walk as a function), `ResolverWalk` (as a class),
  `ResolverProofs`, `LockfileOps`, `LockfileProofs`, `Sources`, `Install`, `OfflineStability`.
* Registry: `Registry` (tables, blob backend, requests), `RegistryProtocol` (their interleavings).
* Small cores: `Texts` (the order of strings), `Canonical`, `CanonicalProofs`, `Bits`, `Mode`,
  `ModeProofs`, `Magic`.

Where the code and its own documentation disagree, the model follows the code:

* `update` promises to re-resolve the named packages with their transitive dependencies; it
  unpins by bare name only, so a transitive dependency stays behind
  (`LockfileProofs.UpdateLeavesDependencyBehind`, in general `UpdateKeepsUnlisted`; exactly which
  requirements are answered afresh: `UpdateAnswersFreshIff`).
* `stage` takes its hooks from the first manifest "by convention" the root; the resolver puts
  the root last (`Stage.DependencyHooksRun`), so the first is the root only when it is alone
  (`ResolverProofs.RootComesLast`).
* `stack` promises to leave the target untouched on error; with `force` it deletes the target
  before staging (`Stage.Stack`).
* Refs are meant to be immutable; the conflict check of `put_ref` runs before it takes its
  lock, so two writers can overwrite each other (`RefRaces.PutRefCanOverwrite`). A written ref
  is safe exactly when no process stands inside a call that will replace or remove it
  (`RefRaces.RefIsSafeIffSettled`).
* Refs are meant to keep what they reach from being collected; a component "." is accepted and
  its file is one no listing finds (`StoreProofs.PutRefProtectsIff`: a ref protects its target
  exactly when no component is ".").
* A blob stored next to a running collection is documented as harmless; `put_blob` takes no lock,
  and a collection between its two checks leaves an entry that leads nowhere
  (`StrandedPuts.DeadBlobStrands`). It can happen exactly when the blob is not already reachable
  from a ref (`StrandedPuts.PutResolvesIffLive`). A collector that dies strands entries likewise
  (`DeadCollectorStrands`, `EntryResolvesIffLive`); without overlap and deaths, all entries resolve
  over every schedule of puts and collections (`PutsAndGc.EntriesResolve`).
* Every write is documented as a file in `tmp/` and a rename, so that a crash leaves nothing behind
  that matters. Index files are written in place, and a `put_blob` that dies in between leaves an
  entry no later put repairs (`PutsAndGc.CrashTears`, `TornStaysTorn`). Refs are written to a
  temporary file beside them, and a `put_ref` that dies before the rename leaves a listed ref under a
  made-up version that pins its target for good (`RefRaces.DyingWriterPinsIff`, `LeftoverPinsForever`).
* An opaque marker written below a leading `./` clears nothing (`LayerRefinement.MarkerSeenIffPlain`).
* A replayed lockfile resolves alike only if the entry found for each requirement is the one
  it resolved to; a package locked twice breaks that (`LockfileProofs.MisnamedPinBreaksReplay`)
  and resolving again offline (`OfflineStability.DuplicateNameBreaksOffline`). The exact
  conditions: `LockfileProofs.LockReplaysIff`, `OfflineStability.OfflineStableIff`.
* Publishing is documented as atomic. `begin` takes any layer sizes below 2^64, the database takes
  none from 2^63 on, and `commit` has no transaction: with a larger one the version becomes visible
  without that layer and those after it and can never be completed
  (`RegistryProtocol.OversizedLayerIsNeverListed`). A visible record is complete exactly when every
  declared size fits (`RegistryProtocol.VisibleIsCompleteIff`, `Registry.CommitWholeIff`).
* `commit` checks the layer blobs but never the manifest blob: a version becomes visible without it
  (`RegistryProtocol.PublishedWithoutManifestBlob`); it is there exactly when it was uploaded
  (`ManifestBlobThereIff`).
* `begin` never checks that the manifest it is sent hashes to the id it is to be stored under, so
  consumers may download another one (`RegistryProtocol.OtherManifestPublished`); they get the
  accepted one exactly when it does (`DownloadedManifestIff`).
* A public package is documented not to depend on a private one. `begin` looks only at the version
  named "latest" and at the one published last, and refuses exactly when one of these is private
  (`RegistryProtocol.PrivateRefusedIff`): an older private version is missed (`OlderPrivateIsMissed`).
* Canonical JSON is documented to drop empty arrays from arrays; only empty members of objects are
  dropped (`CanonicalProofs.NormalizeKeepsMeaning`).
* A symbolic permission clause may have no permission letters, though its comment asks for one (`Mode.Parse`).

## Model

| member | source | states |
|---|---|---|
| Magic.PeekSniffsAlike | crates/elu-store/src/magic.rs:11-25 | sniffing the first 512 bytes of any blob finds the same encoding as sniffing all of it, so put_blob and fsck agree |
| Types.LayerDiffIdsMembers | crates/elu-cli/src/manifest_reader.rs:12-16 | the collector follows exactly the diff ids some layer carries |
| Types.DependencyHashesMembers | crates/elu-cli/src/manifest_reader.rs:17-27 | the collector follows exactly the hashes of pinned dependencies |
| Types.DecodeUnpacks | crates/elu-store/src/fs_store.rs:670-693 | by its first bytes alone (1f 8b, else 28 b5 2f fd, else "ustar" at 257) a blob is gunzipped, unzstd-ed or taken as it is; any other is not recognised |
| StoreModel.FollowedIff | crates/elu-cli/src/manifest_reader.rs:12-38 | what the collector follows from stored bytes, without the reader: the pins and diff ids of the manifest the bytes are as JSON, or, if they are no such JSON but UTF-8, as TOML; from anything else nothing |
| StoreModel.RefKeyErrorIff | crates/elu-store/src/fs_store.rs:729-739 | the first component that is empty or has a slash, a backslash, two dots in a row or a control character is named in the error; else there is none |
| StoreModel.RemoveFailsIff | crates/elu-store/src/fs_store.rs:454-482 | removing a ref that is not there fails in the file system exactly when its path runs through a file or leads to a directory; else it is reported missing |
| FsStore.Store.PutManifest | crates/elu-store/src/fs_store.rs:226-269 | stores the bytes under their hash and indexes them, or refuses non-UTF-8 and changes nothing |
| FsStore.Store.PutBlob | crates/elu-store/src/fs_store.rs:276-375 | a blob that unpacks to content c is answered with the hash of c, its own hash and both sizes; one that does not is refused, as of unknown encoding exactly when no header is recognised, and changes nothing; an existing object or index entry is never replaced |
| FsStore.Store.ResolveDiff | crates/elu-store/src/fs_store.rs:377-387 | the blob an index entry names, nothing for a missing one, an error for one that does not parse |
| FsStore.Store.PutRef | crates/elu-store/src/fs_store.rs:393-435 | a first write, an idempotent rewrite, or a refusal with its reason (bad component, conflict, a directory or file in the way); a key with a "." component goes to the file it really names, beside the listed refs |
| FsStore.Store.GetRef | crates/elu-store/src/fs_store.rs:437-452 | the text of the file the key names, if there is one |
| FsStore.Store.RemoveRef | crates/elu-store/src/fs_store.rs:454-482 | removes the one file the key names, or reports which of the three errors and changes nothing |
| FsStore.Store.ListRefs | crates/elu-store/src/fs_store.rs:484-520 | every ref that parses, each once, and so exactly the ref targets |
| FsStore.Store.Mark | crates/elu-store/src/fs_store.rs:97-126 | the work list ends on any store, cyclic pins included, with exactly the least set closed under pins and the entries and blobs it needs |
| FsStore.Store.FindDead | crates/elu-store/src/fs_store.rs:130-141 | lists every object that is not live once; its byte count is what the total shrinks by |
| FsStore.Store.ComputeGcPlan | crates/elu-store/src/fs_store.rs:94-167 | the plan names exactly the dead objects and entries, each once, and the bytes it would free |
| FsStore.Store.ApplyGcPlan | crates/elu-store/src/fs_store.rs:171-191 | removes what the plan names and nothing else, and counts it |
| FsStore.Store.Gc | crates/elu-store/src/fs_store.rs:522-539 | leaves exactly what is live; bytes before are bytes after plus bytes freed |
| FsStore.Store.Fsck | crates/elu-store/src/fs_store.rs:557-633 | reports every mismatch, every entry whose blob is missing or does not unpack to content with that hash, and every broken ref exactly once and nothing else |
| FsStore.Store.Repair | crates/elu-store/src/fs_store.rs:639-659 | removes exactly the reported entries and refs and counts reports by kind |
| FsStore.Store.FsckRepair | crates/elu-store/src/fs_store.rs:635-665 | fails exactly when there are mismatches, with their number; else reports how many of each were removed |
| StoreModel.LiveIsLeastClosed | crates/elu-store/src/fs_store.rs:100-126 | the live manifests are closed under pins and below every other closed set |
| StoreModel.TotalBytesSplit | crates/elu-store/src/fs_store.rs:136-138 | the byte total does not depend on the order of counting |
| StoreProofs.LiveIffReached | crates/elu-store/src/fs_store.rs:105-126 | a manifest is live exactly when a chain of pins leads to it from a ref |
| StoreProofs.GcKeepsLive | crates/elu-store/src/fs_store.rs:522-539 | collecting changes nothing about what is live |
| StoreProofs.GcIsExact | crates/elu-store/src/fs_store.rs:522-555 | after gc an object or entry is there exactly when it was there and live; a plan made next is empty; a second gc does nothing |
| StoreProofs.StepKeepsSound | crates/elu-store/src/fs_store.rs:226-665 | every operation keeps: objects hash to their ids, entries lead to stored blobs that unpack to content with that hash, refs parse |
| StoreProofs.RunsAreSound | crates/elu-store/src/fs_store.rs:226-665 | the same over every run of all six operations |
| StoreProofs.OnlyBrokenRefs | crates/elu-store/src/fs_store.rs:557-633 | after any run from an empty store fsck can report only broken refs |
| StoreProofs.PutThenGet | crates/elu-store/src/fs_store.rs:276-375 | whatever ran before, a blob that unpacks to c is read back under its hash, and the hash of c is indexed to a stored blob that unpacks to c itself; one that does not unpack leaves the store as it was |
| StoreProofs.RefsAreImmutable | crates/elu-store/src/fs_store.rs:393-435 | one call at a time, any ref that reads back keeps its text until its file is removed by name or repaired away, keys with a "." included |
| StoreProofs.PutRefThenGet | crates/elu-store/src/fs_store.rs:393-452 | a put that succeeds is read back under exactly the keys that name the same file, and no other ref changes |
| StoreProofs.RefProtectsClosure | crates/elu-store/src/fs_store.rs:94-191 | while a listed ref stays, all it reaches (manifests, entries, blobs) survives any run of puts, collections and repairs |
| StoreProofs.PutRefProtectsIff | crates/elu-store/src/fs_store.rs:393-520 | a ref put for a manifest nothing else reaches reads back, and the next collection spares the manifest exactly when no component is "." |
| StoreProofs.PlainPutProtects | crates/elu-store/src/fs_store.rs:94-191 | from a successful put under a key without ".", everything its target reaches survives every run |
| StoreProofs.CleanIffNoErrors | crates/elu-store/src/fs_store.rs:557-633 | fsck reports nothing exactly when the store is clean |
| StoreProofs.EmptyReportIsSoundIff | crates/elu-store/src/fs_store.rs:557-633 | what an empty report misses: the store is sound exactly when, besides, every index entry and ref parses; fsck skips those that do not |
| StoreProofs.GcKeepsClean | crates/elu-store/src/fs_store.rs:522-539 | gc keeps a store without errors free of errors |
| StoreProofs.RepairLeavesMismatches | crates/elu-store/src/fs_store.rs:635-665 | from any store, after a repair fsck reports exactly the earlier hash mismatches; no object is deleted; a second repair does nothing |
| StoreConcurrent.StepKeepsLockSafe | crates/elu-store/src/fs_store.rs:419-434 | in every interleaving the collector alone holds the lock exclusively, ref writers alone share it, never both; one step moves one process |
| GcSafety.UnlockedOnlyAdds | crates/elu-store/src/fs_store.rs:276-375 | while someone collects, every other process can only add objects and entries and cannot touch refs |
| GcSafety.HeldCollects | crates/elu-store/src/fs_store.rs:94-191 | the marking invariant relative to the locked store holds after every step of any interleaving |
| GcSafety.GcNeverTakesReachable | crates/elu-store/src/fs_store.rs:522-539 | from taking to releasing the lock, in any interleaving with any number of other calls and crashes, refs do not change and everything they reached is still there unchanged |
| PutConvergence.QuietRunConverging | crates/elu-store/src/fs_store.rs:327-367 | in every interleaving without a collection the store and all unfinished calls stay sound and a written entry never changes |
| PutConvergence.SoundStoresConverge | crates/elu-store/src/fs_store.rs:226-665 | every store that sequential runs produce is a starting point for that |
| PutConvergence.PutsConverge | crates/elu-store/src/fs_store.rs:347-367 | once all calls have returned, every pair of ids handed out by any call at any time leads to a stored blob with that diff id, even if another encoding of the same tar won |
| StrandedPuts.DeadBlobStrands | crates/elu-store/src/fs_store.rs:329-349 | from any state with the lock free, a put whose blob no ref reaches and that has nothing indexed yet can be stranded by another process collecting; nobody dies and no ref changes |
| RefRaces.PutRefCanOverwrite | crates/elu-store/src/fs_store.rs:406-434 | from any store with the lock free, two concurrent writers of a ref that does not exist yet can both pass the check; the later replaces the other's ref |
| RefRaces.RunKeepsSettled | crates/elu-store/src/fs_store.rs:393-482 | a ref that no unfinished call is about to replace or remove stays so in every interleaving in which nobody starts to remove it |
| RefRaces.EndangeredCanFall | crates/elu-store/src/fs_store.rs:406-434 | otherwise running unfinished calls on, with at most one crash, makes the ref lose its target |
| RefRaces.RefIsSafeIffSettled | crates/elu-store/src/fs_store.rs:406-482 | so a ref keeps its target over all those interleavings exactly when it is settled |
| RefRaces.RunKeepsLockAndTree | crates/elu-store/src/fs_store.rs:416-434 | what the two directions start from (lock discipline, files under directories) holds in every interleaving |
| RefRaces.DyingWriterPinsIff | crates/elu-store/src/atomic.rs:12-26 | a put_ref that dies before its rename leaves a listed ref, under the key with a made-up version and no other, exactly when no component of its key is "." |
| RefRaces.LeftoverPinsForever | crates/elu-store/src/atomic.rs:12-26 | that ref keeps its target live over every interleaving in which nobody removes it by that made-up name |
| PutsAndGc.GuardedRunResolving | crates/elu-store/src/fs_store.rs:327-367 | over any schedule of puts, collections and crashes that meets the two guards, entries outside a running sweep, unfinished puts and the collector's marks stay sound |
| PutsAndGc.EntriesResolve | crates/elu-store/src/fs_store.rs:327-367 | so whenever no collection runs, every written entry leads to a stored blob with that diff id; the guards: no put relies on its blob while a collection runs, no collector dies |
| StrandedPuts.DeadCollectorStrands | crates/elu-store/src/fs_store.rs:171-191 | from any state with the lock free, a collector that dies between deleting a blob and its entry strands the entry of any blob no ref reaches |
| StrandedPuts.RunSheltered | crates/elu-store/src/fs_store.rs:94-191 | an entry whose blob a ref reaches is never led astray over any schedule of calls, collections and crashes in which refs stay and no other content with that diff id is put |
| StrandedPuts.PutResolvesIffLive | crates/elu-store/src/fs_store.rs:327-367 | so for a put with nothing indexed yet, its entry resolves over all those schedules, with or without crashes, exactly when its blob is already reachable from a ref |
| StrandedPuts.EntryResolvesIffLive | crates/elu-store/src/fs_store.rs:171-191 | and an entry that is there outlives dying collectors exactly when its blob is reachable from a ref |
| StrandedPuts.SoloCollect | crates/elu-store/src/fs_store.rs:522-539 | with nobody in between, a collection of any store ends with exactly what the sequential gc leaves |
| SoloCalls.SoloPutBlob | crates/elu-store/src/fs_store.rs:276-375 | the steps of put_blob with nobody in between do what the sequential operation does and answer with the hash of the blob and of its content |
| SoloCalls.SoloPutManifest | crates/elu-store/src/fs_store.rs:226-269 | the same for put_manifest |
| SoloCalls.SoloPutRef | crates/elu-store/src/fs_store.rs:393-435 | the same for put_ref while the lock is free, which it gives back |
| SoloCalls.SoloRemoveRef | crates/elu-store/src/fs_store.rs:454-482 | the same for remove_ref |
| StrandedPuts.LiveGrows | crates/elu-store/src/fs_store.rs:97-126 | a store that keeps what another's refs reach, and those refs, keeps at least as much live |
| PutsAndGc.CrashTears | crates/elu-store/src/fs_store.rs:347-367 | a put that dies between creating its index file and writing it leaves an entry that does not parse |
| PutsAndGc.TornStaysTorn | crates/elu-store/src/fs_store.rs:347-387 | without a collection no interleaving of later calls, puts of the same tar included, mends it |
| PutsAndGc.OnlyGcMends | crates/elu-store/src/fs_store.rs:347-367 | of the sequential operations only a collection removes it, and only if no ref reaches it |
| LayerApply.CollectOpaques | crates/elu-layers/src/apply.rs:89-108 | the first pass collects the parent of every marker, as written, and skips paths that are not UTF-8 |
| LayerApply.Target.EmptyDir | crates/elu-layers/src/apply.rs:216-232 | deleting the listed children one by one removes everything below a directory and nothing else |
| LayerApply.Target.ClearDirOnce | crates/elu-layers/src/apply.rs:206-233 | an opaque directory is emptied the first time and never again |
| LayerApply.Target.Erase | crates/elu-layers/src/apply.rs:165-171 | a whiteout removes its victim with everything below it and counts |
| LayerApply.Target.Write | crates/elu-layers/src/apply.rs:181-194 | creates the parents, replaces what stood at the path, or fails on a non-directory in the way |
| LayerApply.Target.ApplyEntry | crates/elu-layers/src/apply.rs:145-204 | one entry does to the tree what the specification says, or stops with its error; what that is for each entry: LayerEntries |
| LayerApply.Target.Apply | crates/elu-layers/src/apply.rs:130-143 | both passes give the tree, the counts and the first error of the specification, and a success is a tree again |
| LayerEntries.EffectSpelled | crates/elu-layers/src/apply.rs:145-204 | what is made of an entry, from its path read piece by piece: the error, the node with mode `& 0o7777` (0644 and 0755 without one), the victim of a whiteout, or the directory of a marker |
| LayerEntries.WrittenStays | crates/elu-layers/src/apply.rs:180-194 | after a successful apply a regular file, directory or link stands at its path with its own content, mode or target, unless a later entry writes, whites out, clears or overwrites there |
| LayerEntries.CoveredGoes | crates/elu-layers/src/apply.rs:157-177 | what the last entry to touch a path whites out, clears, or puts a file or link above is gone, but for a directory that a later entry needs |
| LayerEntries.UntouchedStays | crates/elu-layers/src/apply.rs:130-204 | what no entry touches keeps its node, and nothing appears but what is written and the directories above it |
| LayerEntries.WhiteoutErases | crates/elu-layers/src/apply.rs:165-171 | an entry dir/.wh.x that is no marker leaves nothing at or below dir/x unless a later entry writes there |
| LayerEntries.ArchiveKeepsTree | crates/elu-layers/src/apply.rs:156-203 | the result is a tree, and the counts are the entries whose name is a whiteout and all others |
| LayerEntries.EntryAppliesIff | crates/elu-layers/src/apply.rs:145-359 | an entry is applied exactly when its path is safe and only directories stand in its way; an absolute path or a ".." ends the archive with UnsafePath, one that is not UTF-8 with NonUtf8Path |
| LayerEntries.LayerSpelled | crates/elu-layers/src/apply.rs:145-204 | the layer of ArchiveIsOverlay is what the entries write, white out and mark, read from their paths |
| LayerRefinement.ArchiveIsOverlay | crates/elu-layers/src/apply.rs:89-233 | on any tree, for distinct paths and markers both passes name alike, a success is the declarative overlay exactly when no entry is wiped by a later one; it is prefix-closed either way |
| LayerRefinement.RunRefines | crates/elu-layers/src/apply.rs:130-204 | after every prefix of the entries the tree is the overlay of that prefix |
| LayerRefinement.LostToTheEnd | crates/elu-layers/src/apply.rs:176-177 | an entry wiped by a later one is never seen again, so the order condition cannot be weakened |
| LayerRefinement.OrderIsIrrelevant | crates/elu-layers/src/apply.rs:89-204 | two orders of the same entries that wipe nothing of their own give the same tree, wherever the marker sits |
| LayerRefinement.MarkerSeenIffPlain | crates/elu-layers/src/apply.rs:100-105 | the first pass records a marker under the key the second pass looks up exactly when the path has no leading `./` and no trailing `.` |
| LayerRefinement.WhiteoutNames | crates/elu-layers/src/whiteout.rs:14-22 | a name whites out x exactly when it is x behind the prefix and not the opaque marker |
| LayerRefinement.PlainMarkersAgree | crates/elu-layers/src/apply.rs:249-260 | plainly written markers meet the condition of the refinement |
| Stage.ApplyInto | crates/elu-stacker/src/stage.rs:48-52 | one layer takes the staging tree to what applying its archive gives, and adds its counts |
| Stage.ApplyEach | crates/elu-stacker/src/stage.rs:46-52 | every layer of the resolution once, in order, up to the first failure; no other tree on disk changes |
| Stage.StageInto | crates/elu-stacker/src/stage.rs:40-72 | the staging tree is the fold of the layers followed by the first manifest's hook operations |
| Stage.StageAndPlace | crates/elu-stacker/src/stage.rs:97-156 | the staged tree is put at the target, or the disk is as before and the error is that of staging or renaming; no staging directory is left either way |
| Stage.Stack | crates/elu-stacker/src/stage.rs:83-102 | without force all or nothing; with force a failure leaves no target; on success the target is what Stage.StagedTreeIff says |
| Stage.OpenLayerIff | crates/elu-layers/src/apply.rs:33-61 | a layer opens with exactly the entries of the tar its indexed blob unpacks to; which of the errors else |
| Stage.StackedTree | crates/elu-stacker/src/stage.rs:46-52 | from an empty directory through one tree after each archive, the last is the staged tree, and every layer and entry is counted |
| Stage.StagedTreeIff | crates/elu-stacker/src/stage.rs:46-72 | what is put in place is exactly that tree, or what the operations of the first manifest, if any, make of it |
| LayerEntries.OneArchiveOver | crates/elu-layers/src/apply.rs:33-61 | a file or link is there after an archive exactly when the archive supplies it, or leaves it alone and it was there; for any archive that applies |
| Stage.LastLayerWins | crates/elu-stacker/src/stage.rs:48-52 | for any layers that apply: a file or link stands in the stacked tree exactly when some layer supplies it and no later layer sets, whites out, clears or overwrites it |
| Versions.HighestMatchIsHighest | crates/elu-resolver/src/version.rs:10-20 | the result is the greatest eligible candidate; none means none is eligible |
| Versions.HighestIsUnique | crates/elu-resolver/src/version.rs:10-20 | any two lists with the same greatest eligible version give it |
| ResolverWalk.Walker.Visit | crates/elu-resolver/src/resolve.rs:70-116 | ends on any finite version graph, cyclic ones included, with the tables of the specified walk |
| ResolverWalk.Walker.CheckConflicts | crates/elu-resolver/src/resolve.rs:118-129 | reports a name reached at two manifests exactly when there is one |
| ResolverWalk.Walker.Flatten | crates/elu-resolver/src/resolve.rs:172-185 | the nested loops compute the specified layer list |
| ResolverWalk.Walker.Resolve | crates/elu-resolver/src/resolve.rs:15-40 | manifests, layers or error of the specified resolution, which ResolverProofs characterises |
| ResolverProofs.ConflictIff | crates/elu-resolver/src/resolve.rs:118-129 | a walk has a conflict exactly when two arrivals under one name have different hashes |
| ResolverProofs.EdgeSatisfies | crates/elu-resolver/src/resolve.rs:132-164 | with an honest source and lockfile: a pin gives its hash, a range a version that matches it, no version one that matches "*" |
| ResolverProofs.PinnedAnswer | crates/elu-resolver/src/resolve.rs:138-140 | a pin resolves by its hash, whatever is locked or listed |
| ResolverProofs.LockedAnswer | crates/elu-resolver/src/resolve.rs:146-157 | else the first lockfile entry of the name decides: its manifest if its version matches the range, or "*" without one, else LockMismatch |
| ResolverProofs.ListedAnswer | crates/elu-resolver/src/resolve.rs:158-164 | else the highest allowed version listed is fetched, and NoMatch comes exactly when none is allowed: the range matches, and pre-releases only if it mentions one |
| ResolverProofs.SortKeeps | crates/elu-resolver/src/resolve.rs:98-99 | sorting dependencies loses and repeats none |
| ResolverProofs.SortSorts | crates/elu-resolver/src/resolve.rs:98-99 | and puts them in the order of their names as written, character by character, a proper prefix first |
| ResolverProofs.SortIsStable | crates/elu-resolver/src/resolve.rs:98-99 | dependencies on one name keep the order in which they are declared |
| ResolverProofs.VisitSound | crates/elu-resolver/src/resolve.rs:70-116 | every visit keeps: no hash twice, visited is placed or open, placed manifests have all dependencies answered, recorded chains are real |
| ResolverProofs.ResolutionSound | crates/elu-resolver/src/resolve.rs:15-164 | on success no manifest twice; every requirement anywhere is met by a resolved manifest with the pinned hash or a version its range matches, the highest allowed where it was picked from a listing; one manifest per required name; every manifest hangs on a real chain from a root |
| ResolverProofs.DependenciesComeFirstIff | crates/elu-resolver/src/resolve.rs:101-114 | every dependency precedes its dependents exactly when the resolved manifests have no cycle |
| ResolverProofs.RootComesLast | crates/elu-resolver/src/resolve.rs:101-114 | a single root is last, cycles or not, and first exactly when it is alone |
| Stage.DependencyHooksRun | crates/elu-stacker/src/stage.rs:53-65 | for a root with one dependency and other hook operations, those of the dependency run |
| ResolverProofs.FlattenOnce | crates/elu-resolver/src/resolve.rs:172-185 | each layer of each manifest exactly once, earlier manifests' layers first |
| ResolverProofs.LayersInOrder | crates/elu-resolver/src/resolve.rs:172-185 | of two layers the one first named, by manifest and then by place in it, comes first |
| LockfileOps.Verify | crates/elu-resolver/src/lockfile.rs:54-92 | passes exactly when for every dependency the first entry of its name has a version its range matches, any version for a pin; else exactly the errors of the others |
| LockfileOps.DepErrorIff | crates/elu-resolver/src/lockfile.rs:62-84 | for any lockfile: LockMismatch when the first entry of the name has a version that does not suit, NoMatch when there is none, nothing else |
| LockfileProofs.SameAnswersSameResolution | crates/elu-resolver/src/resolve.rs:15-164 | two environments that answer alike what a successful resolution asked resolve alike |
| LockfileProofs.LockReplays | crates/elu-resolver/src/lockfile.rs:44-51 | replaying what `lock` wrote gives the same manifests, order and layers if every entry found is what its requirement resolved to, which holds if no package is locked twice |
| LockfileProofs.LockReplaysIff | crates/elu-resolver/src/resolve.rs:146-157 | exactly then, where every unpinned requirement's manifest was first reached under its name |
| LockfileProofs.NamedPinsLockOnce | crates/elu-resolver/src/lockfile.rs:149-163 | pins under the right names never lock a package twice |
| LockfileProofs.MisnamedPinBreaksReplay | crates/elu-resolver/src/lockfile.rs:149-163 | a package locked twice, at releases 1 and 2: the replay succeeds with one manifest instead of two, and verify rejects the lockfile just written |
| LockfileProofs.LockVerifiesIff | crates/elu-resolver/src/lockfile.rs:54-92 | if no package is locked twice, the output of `lock` passes `verify` exactly when every pinned name is some resolved manifest's own |
| LockfileProofs.UpdateAllIsLock | crates/elu-resolver/src/lockfile.rs:120-135 | update without names is lock, errors included |
| LockfileOps.UpdateRefuses | crates/elu-resolver/src/lockfile.rs:103-118 | the first name that is no direct dependency's bare name ends the update with UnknownUpdateTarget |
| LockfileOps.UpdateResolves | crates/elu-resolver/src/lockfile.rs:120-136 | with known names it resolves against the old entries of all other names, each found as before |
| LockfileProofs.UpdateKeepsUnlisted | crates/elu-resolver/src/lockfile.rs:97-136 | a successful named update keeps the old hash of every locked package not listed that an unpinned requirement reaches |
| LockfileProofs.UpdateLeavesDependencyBehind | crates/elu-resolver/src/lockfile.rs:94-136 | updating "x" succeeds with its dependency at the locked version 1 where locking afresh takes version 2 |
| LockfileProofs.UpdateAnswersFreshIff | crates/elu-resolver/src/lockfile.rs:97-136 | an unpinned requirement is answered as without a lockfile exactly when its bare name is listed, nothing is locked for it, or the locked manifest is the fresh answer |
| Sources.OfflineSource.Insert | crates/elu-resolver/src/source.rs:62-70 | files the manifest under its own name and version, and under its hash |
| Sources.OfflineSource.ListVersions | crates/elu-resolver/src/source.rs:79-92 | the versions filed under the name, each once, lowest first |
| Sources.OfflineSource.FetchManifest | crates/elu-resolver/src/source.rs:93-125 | the manifest filed under name and version, or an error |
| Sources.OfflineSource.FetchByHash | crates/elu-resolver/src/source.rs:126-144 | the manifest inserted under the hash, or an error |
| Sources.UnionVersions | crates/elu-cli/src/source.rs:32-53 | local and registry versions together, lowest first; registry errors are ignored |
| Sources.HybridIsHonest | crates/elu-cli/src/source.rs:54-83 | an honest local source before an honest registry is honest |
| Sources.BuildOfflineSource | crates/elu-cli/src/cmd/install.rs:210-220 | exactly the targets of the refs, filed under their own names; fails only on a target that is missing or unreadable |
| Sources.OfflineIsHonest | crates/elu-cli/src/cmd/install.rs:210-220 | the local source of a sound store is honest |
| Install.BuildFetchPlan | crates/elu-resolver/src/resolve.rs:188-222 | lists exactly the manifests and layers that are not present |
| Install.FetchOne | crates/elu-cli/src/cmd/install.rs:155-205 | success exactly when the item was present or the bytes are what it asks for (for a layer: the blob its first record names, unpacking to content with that diff id); whatever bytes arrive, the store only gains, and only sound objects and entries |
| Install.ExecuteFetchPlan | crates/elu-cli/src/cmd/install.rs:149-208 | for a whole plan and any network: the store only gains and only what is right, success means every item is present and every new object is accounted for, and right bytes suffice for success |
| Install.GainsKeepSound | crates/elu-cli/src/cmd/install.rs:149-208 | so a sound store stays sound |
| Install.WriteRefs | crates/elu-cli/src/cmd/install.rs:91-97 | success exactly when every ref name is valid and free of other manifests, and then each reads back under namespace, name and version of its manifest; earlier refs never change; a failure leaves the refs of a prefix |
| Install.FetchAndRecord | crates/elu-cli/src/cmd/install.rs:82-97 | on success everything the resolution needs was present before its refs were written, and each ref reads back |
| Install.InstalledIsComplete | crates/elu-layers/src/apply.rs:38-45 | after a successful install into any store whose objects hash to their ids: every manifest is stored under its hash, and each layer's entry leads to content with its diff id exactly when it is new or already did (or its missing blob came in as a manifest), for entries that are there are never looked into; such a layer opens unless its tar stream is unreadable |
| Install.LockfileDiff | crates/elu-cli/src/cmd/install.rs:240-273 | no difference exactly when every resolved manifest has its hash locked under the name it was reached by; else the first that has not |
| Install.CoveredIff | crates/elu-cli/src/cmd/install.rs:240-273 | a manifest counts as locked exactly when the first entry of the name it was reached by has its hash |
| Install.LockedAcceptsOwnLockfile | crates/elu-cli/src/cmd/install.rs:75-80 | `--locked` accepts the lockfile made from a resolution exactly when every manifest was reached under its own name |
| OfflineStability.PickStaysLocal | crates/elu-resolver/src/version.rs:10-20 | the version picked from the union of local and registry is the highest local one after the install |
| OfflineStability.InstallMakesOfflineStable | crates/elu-cli/src/cmd/install.rs:57-97 | after an install, resolving the same roots with the same lockfile against the local store alone gives the same resolution, if no two manifests call themselves the same |
| OfflineStability.OfflineStableIff | crates/elu-resolver/src/resolve.rs:146-164 | with such manifests about: the same resolution exactly when every requirement without pin or lockfile entry finds its manifest filed under the highest local version that meets it, where manifests were first reached under the names required |
| OfflineStability.FoundAgainIsStable | crates/elu-resolver/src/resolve.rs:146-164 | and that condition suffices always |
| OfflineStability.InstallsKeepRefsNamed | crates/elu-cli/src/cmd/install.rs:91-97 | installs whose pins carry the right names keep that condition |
| OfflineStability.DuplicateNameBreaksOffline | crates/elu-cli/src/cmd/install.rs:210-220 | without it the second resolution can differ, for any two releases in order: one manifest instead of two |
| Registry.RegistryDb.PutPublishSession | crates/elu-registry/src/db/sqlite.rs:299-359 | records a session unless its version is already published or its id taken |
| Registry.RegistryDb.FindSessionByPackage | crates/elu-registry/src/db/sqlite.rs:810-845 | some session of the package, or none exists |
| Registry.RegistryDb.CommitVersion | crates/elu-registry/src/db/sqlite.rs:398-551 | the insert loop leaves the tables the specification says, including where it stops half-way: a layer without url, or with a size the database cannot hold; a success is answered with what the session said, field by field |
| Registry.RegistryDb.PutVersion | crates/elu-registry/src/db/sqlite.rs:83-143 | inserts a record with its layers up to the first whose sizes do not fit, unless the version exists |
| Registry.LocalBlobBackend.Put | crates/elu-registry/src/blob_store.rs:48-63 | keeps bytes only under the id they hash to |
| Registry.BeginPublish | crates/elu-registry/src/server/publish.rs:17-129 | says which error and when: reserved namespace, uncovered manifest, a public package on a private one, a published version; else records the session and asks for exactly the blobs the backend lacks |
| Registry.BeginErrorIff | crates/elu-registry/src/server/publish.rs:22-55 | a session is refused first for the namespaces debian, npm and pip, then for a manifest that is no JSON or has a layer whose diff id no declared layer has, and for nothing else before the dependencies |
| Registry.NewestVersion | crates/elu-registry/src/db/sqlite.rs:263-297 | the first of the listed versions: none of the package was published later |
| Registry.PrivateDep | crates/elu-registry/src/server/publish.rs:57-84 | a dependency whose version `latest` or newest version is private, or none is |
| Registry.CommitPublish | crates/elu-registry/src/server/publish.rs:132-178 | with nobody in between: writes the version of one session whose layer blobs are there, whole or up to an oversized layer, or changes nothing and says what was missing; the manifest blob is not asked for |
| Registry.CommitWholeIff | crates/elu-registry/src/server/publish.rs:151-178 | reached so, it succeeds with all layers exactly when every declared size fits; else the version is visible with fewer layers than declared |
| Registry.CommitRecord | crates/elu-registry/src/db/sqlite.rs:536-550 | what a commit returns is what reading the version gives: manifest id and url, publisher, time and visibility of its session, nothing about the package, and every layer under the url of its blob |
| Registry.CommitStopsHalfWay | crates/elu-registry/src/db/sqlite.rs:496-528 | commit_version stops half-way exactly when a layer has no url or a size of 2^63 or more; the version is then visible without it and no retry can complete it |
| Registry.PutThenGet | crates/elu-registry/src/db/sqlite.rs:83-143 | a record put in is read back up to the first layer whose sizes do not fit, so as it was exactly when all fit |
| RegistryProtocol.WriteIsWholeIff | crates/elu-registry/src/server/publish.rs:157-175 | reached through commit_publish, commit_version never stops on a missing url: it changes nothing, or makes the version visible, whole exactly when every declared size fits |
| RegistryProtocol.RunConsistent | crates/elu-registry/src/server/publish.rs:17-178 | the invariant of tables, blobs and requests in flight holds after any interleaving of begins, uploads and commits |
| RegistryProtocol.VisibleIsCompleteIff | crates/elu-registry/src/server/publish.rs:46-55 | in every run, whatever is visible says what one session said (manifest id and url, publisher, time, visibility, nothing else), its namespace is not reserved, its layers are those of the session up to the first with a size of 2^63 or more, every layer blob was uploaded by some step, and if every size is smaller they cover every diff id of the manifest accepted at begin |
| RegistryProtocol.PrivateIsShielded | crates/elu-registry/src/server/publish.rs:57-84 | once a private session is visible as "latest" or as the last published version of its package, a public session that depends on the package is refused with PublicDependsOnPrivate |
| RegistryProtocol.PrivateRefusedIff | crates/elu-registry/src/server/publish.rs:57-84 | with no two newest versions at one time, exactly such versions make begin refuse a public session for a dependency |
| RegistryProtocol.OlderPrivateIsMissed | crates/elu-registry/src/server/publish.rs:57-84 | with a public version published after a private one, a public session that depends on the package is accepted |
| RegistryProtocol.BlobThereIff | crates/elu-registry/src/blob_store.rs:48-63 | in every run a blob is in the backend exactly when some step uploaded it under its own hash or marked it uploaded |
| RegistryProtocol.ManifestBlobThereIff | crates/elu-registry/src/server/publish.rs:132-178 | so the manifest blob of a visible version is there exactly when it was uploaded; commit does not see to it |
| RegistryProtocol.AcceptableSessionPublishes | crates/elu-registry/src/server/publish.rs:17-178 | any session begin accepts becomes visible once its layers are uploaded, whole exactly when every size fits, and nothing else is added to the backend |
| RegistryProtocol.OversizedLayerIsNeverListed | crates/elu-registry/src/db/sqlite.rs:496-528 | with a layer of 2^63 bytes or more it is visible with fewer layers than declared, whatever runs afterwards |
| RegistryProtocol.PublishedWithoutManifestBlob | crates/elu-registry/src/server/publish.rs:132-178 | with only its layers uploaded it is visible without its manifest blob |
| RegistryProtocol.DownloadedManifestIff | crates/elu-registry/src/server/publish.rs:31-43 | what a consumer downloads is the manifest accepted at begin exactly when that hashes to the declared id; if the sizes fit too, the record covers all its layers |
| RegistryProtocol.OtherManifestPublished | crates/elu-registry/src/server/publish.rs:31-43 | and any content can stand under the declared id of an accepted session |
| RegistryProtocol.RecordsAreImmutable | crates/elu-registry/src/db/sqlite.rs:451-467 | a visible record and the session behind it never change |
| RegistryProtocol.PublishedOnce | crates/elu-registry/src/db/sqlite.rs:451-467 | in every run a version becomes visible at most once, and is visible exactly when it did; a client was told of success exactly when, besides, every size fits |
| CanonicalProofs.NormalizeIsCanonical | crates/elu-manifest/src/canonical.rs:23-51 | at any depth keys come out strictly ascending (the first is a proper prefix, or has the smaller character where they first differ) and no member is an empty collection |
| Texts.StrLess | crates/elu-manifest/src/canonical.rs:26-28 | less exactly when, behind a common beginning, the first ends or has the smaller character |
| Texts.StrLeq | crates/elu-resolver/src/resolve.rs:98-99 | the same or equal |
| CanonicalProofs.NormalizeKeepsMeaning | crates/elu-manifest/src/canonical.rs:23-43 | normalising drops nothing but members that come out empty; arrays keep their length |
| CanonicalProofs.CanonicalIsUnique | crates/elu-manifest/src/canonical.rs:10-20 | a meaning has one canonical form |
| CanonicalProofs.SameFormIffSameMeaning | crates/elu-manifest/src/canonical.rs:10-43 | two values have the same form exactly when they differ only in key order and in members that come out empty |
| CanonicalProofs.NormalizeIsIdempotent | crates/elu-manifest/src/canonical.rs:23-43 | canonical values are fixed points, so normalising twice is normalising once |
| CanonicalProofs.OrderAndEmptiesDoNotMatter | crates/elu-manifest/src/canonical.rs:23-51 | reordering members or adding one that comes out empty keeps the form |
| CanonicalProofs.NormalizeValue | crates/elu-manifest/src/canonical.rs:23-43 | the recursion over arrays and the loop over sorted keys compute the canonical form |
| Mode.Parse | crates/elu-hooks/src/mode.rs:30-63 | accepts exactly octal texts up to 7777 and comma lists of clauses, with the meaning their letters have; a leading zero changes nothing |
| ModeProofs.TrimCuts | crates/elu-hooks/src/mode.rs:31-56 | the text parse reads, whole and between commas, is what stands between the first and the last character that is no white space |
| ModeProofs.AsciiBlanks | crates/elu-hooks/src/mode.rs:31-56 | of plain text, space, tab, line feed, vertical tab, form feed and carriage return are white space and nothing else |
| Mode.ParseSymbolicClause | crates/elu-hooks/src/mode.rs:102-148 | accepts exactly who letters, one operator, permission letters; nobody named means everybody |
| Mode.FromOctal | crates/elu-hooks/src/mode.rs:37-51 | the octal value, unless a digit is 8 or 9 or the value passes 32 bits |
| Mode.Apply | crates/elu-hooks/src/mode.rs:68-99 | the nested loops compute the specified mode |
| ModeProofs.SpecIsMasks | crates/elu-hooks/src/mode.rs:68-99 | on every 32-bit mode a spec clears the bits outside one fixed mask and sets those of another |
| ModeProofs.ApplyIsIdempotent | crates/elu-hooks/src/mode.rs:68-99 | applying a spec twice is applying it once |
| ModeProofs.OctalReplacesLowTwelve | crates/elu-hooks/src/mode.rs:70 | octal digits are accepted exactly up to the value 0o7777, and replace the low twelve bits with that value and leave the rest |
| ModeProofs.SymbolicTouchesLowNine | crates/elu-hooks/src/mode.rs:71-97 | accepted letters leave everything above the nine permission bits alone |
| ModeProofs.LastClauseDecides | crates/elu-hooks/src/mode.rs:73-95 | each bit is decided by the last clause that touches it |
| ModeProofs.SplitCutsAtCommas | crates/elu-hooks/src/mode.rs:55 | the parts joined with commas are the text, and no part holds a comma |
| ModeProofs.OnlyOneCut | crates/elu-hooks/src/mode.rs:55 | there is only one way to cut a text so |
| ModeProofs.LastPartDecides | crates/elu-hooks/src/mode.rs:54-97 | from the text: however it is cut at its commas, the last part that speaks of a bit decides it, and a bit no part speaks of keeps its value |

## Left out

- HTTP handlers, clients, authentication, JSON and base64 encoding of requests, download urls: only the order of steps and "the network returns arbitrary bytes" are kept.
- SHA-256, gzip, zstd, tar headers, semver matching, serde and TOML: foreign functions without assumptions beyond those stated; a decoder error and a decoder panic are not told apart.
- fsync, removal of old files in `tmp/`, permissions of the store's own files and operating-system errors: renames and exclusive creation are atomic and deletions succeed.
- Files in `objects/`, `diffs/` or `refs/` whose names or text are not what the store writes (upper-case hashes, surrounding blanks, non-UTF-8 text), and the `manifests/` index, which gc never cleans and nothing reads.
- Byte totals are unbounded here and 64 bits wide in the code.
- Symbolic links followed during layer application, and whiteouts of "", "." and "..": an entry that needs them ends in an error of its own in the model.
- Hardlinks, devices and other entry types are counted and not written, as in the code; file contents and link targets are opaque values.
- fsck_repair next to other processes: it takes no lock, so it is in the sequential model only.
- The temporary file of a ref write in flight is its process's own in the model: a caller that names it, and the empty file of a process that dies before filling it (which no listing shows), are not modelled.
- Which conflict the resolver reports and the chains in its message: any name reached at two manifests may be reported.
- Urls in the fetch plan, and the order in which a directory or a table without an order is listed: any order is allowed.
- FsStore.Store.FindDead: models file sizes as content lengths.
- LockfileProofs.LockReplays: the condition is proved necessary (LockReplaysIff) only where every unpinned requirement's manifest was first reached under its name; elsewhere two wrong lookups can cancel out.
- OfflineStability.OfflineStableIff: the condition is proved necessary only where every unpinned requirement's manifest was first reached under its name; elsewhere two wrong answers can cancel out.
- PutsAndGc.EntriesResolve: its two guards suffice for all entries at once; what is exact is stated for one put and one entry (StrandedPuts).
- Registry.BeginPublish: which of several versions published at the same instant is listed first is left open, as the query leaves it.
- In the interleavings of RegistryProtocol begin lets the public-depends-on-private refusals through: those runs are more than the code's, so what is proved of all runs holds of the code's; from the empty registry nothing is private and the check passes.
- Ref components that are ".." or hold one are refused as in the code; case-insensitive or normalising file systems are not modelled.
- The lock of the in-memory database: each table operation is one step.
- Stage.StageInto: hook operations are one foreign function from tree to tree; of them only permission arithmetic is modelled (Mode).
- Mode.Parse: text is a sequence of characters rather than UTF-8 bytes, which no accepted text can tell apart.
- Importers, authoring, explain, schema, watch, qcow2 and tar outputs, command-line handling, registry search and listing: string work and I/O that would add only easy members.
