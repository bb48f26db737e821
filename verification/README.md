# SLM-OS core logic in Dafny

This project models five parts of SLM-OS and proves what they promise.

* **The persistent LittleFS store** (`StoreFormat`, `StoreDisk`, `StoreRam`, `StoreRecovery`, `StoreFlush`,
  `StoreRuns`, `StoreHealth`, `StoreRace`, `StoreBoot`, `StoreDevice`): a RAM image backed by a base file and one
  delta journal on FAT, with tmp/backup rotation, rollback and recovery. A flush is the list of durable disk states
  it passes through under any combination of failing calls; recovery is a function of the disk; a run is any
  sequence of calls, faults, power losses (also inside a sync and inside recovery) and boots. Main results: every
  run refines a plain byte array with a committed copy (`StoreRuns.RunRefines`), crash atomicity of both flush
  branches with the exact conditions under which it holds, and the same for the imperative driver (`StoreDevice`),
  which is proved to pass only through those disk states and to end in the last one.
* **Interrupt routing** (`GicBits`, `GicBitmap`, `GicV2`, `GicV3`, `GicHandlers`): the bookkeeping that moves
  shared interrupts off isolated CPUs and back, on packed target words and router registers, over arbitrary
  sequences of calls; and the lock-free handler table as interleaved atomic steps.
* **GPU launch encoding** (`MachineBits`, `QmdBits`, `QmdPopulate`, `PushBuffer`): the bit-range writer, the
  population of a launch descriptor and its overrides, the command stream, the ring entry.
* **Loops over memory** (`RowMajor`, `Console`, `Extents`): the framebuffer console as a refinement of a text
  grid, and the coalescing of physical pages into extents.
* **The eviction network** (`Mlp`, `Kernels`): transposed, split and double-buffered evaluation against the fused
  reference, and the batched evaluation thread by thread.

Code that updates things in place is imperative here too: classes with `modifies` clauses (`StoreDevice.Device`,
`StoreDevice.Fat`, `GicV2.Controller`, `GicV3.Controller`, `Console.FbConsole`) and methods on arrays, each proved
against a specification function about which the lemmas speak. Formats, registers, streams and pictures are also stated
by literal bytes, bits and numbers (`StoreFormat.DeltaAcceptedIff`, `StoreDisk.BootShows`, `GicBits.CpusAsNumber`,
`GicV3.AffBytes`, `QmdPopulate.DescriptorHolds`, `PushBuffer.LaunchIs`, `Console.PixelIff`), independently of the
functions that compute them. `dafny verify dfyconfig.toml` checks everything.

## What is false of the code

Some properties one would expect do not hold as stated. Each has the exact condition under which it does.

* A delta flush can lose committed data if the only journal is in DELTA_BAK, because that file is unlinked before
  the new DELTA exists: `StoreFlush.LostJournalWitness`, `StoreFlush.DeltaFlushAtomicIff`, `StoreFlush.HazardIff`.
* A full rewrite over old deltas, cut at the wrong moment, recovers a mixture: `StoreFlush.MixedImageWitness`,
  `StoreFlush.FullRewriteAtomicIff`. Without any power loss it can report success and not have committed the
  image, because it ignores whether the old deltas could be removed: `StoreFlush.StaleDeltaWitness`,
  `StoreFlush.FullRewriteCommitsIff`.
* DELTA_BAK does not always hold the generation before DELTA, as the comment at
  `kernel/drivers/persistent_lfs_store.c:338-343` says: it is unlinked before the new DELTA is installed, so a failed
  or interrupted flush can leave a good DELTA without it. `StoreFlush.DroppedBackupWitness`,
  `StoreFlush.FallbackKeptIff`, and over runs `StoreRuns.FallbackOverRuns`.
* A full rewrite destroys the image if the only copy is in STORE_BAK: `StoreFlush.SoleBackupIsDropped`,
  `StoreFlush.FullRewriteAtomicIff`; how a disk comes to that: `StoreFlush.FailedRewriteKeepsPrimary`.
* Recovery skips the journals when the backup image cannot be renamed: `StoreRecovery.StuckBackupWitness`,
  `StoreRecovery.RecoveryImageIff`. A sync right after such a boot reports success and commits nothing:
  `StoreRuns.StaleSyncWitness`, `StoreRuns.SyncCommitsIff`.
* One failed stat or read of an intact image can make the boot ask for a format, which
  `kernel/src/main.c:494-520` then does: `StoreBoot.FormatLosesWitness`, `StoreBoot.FormatLosesIff`.
* A read error inside a delta's payload leaves bytes in the image that no range records:
  `StoreBoot.TornReadWitness`, `StoreBoot.TornReadIff`.
* A read error of the primary image while an old backup exists destroys the primary:
  `StoreBoot.DroppedPrimaryWitness`, `StoreBoot.BootKeepsCommittedIff`.
* A write that spills out of its block, and an empty write just past the image, escape the bookkeeping:
  `StoreRam.ProgKeepsCoveredIff`. So can a write that races with a flush: `StoreRace.RacingWriteWitness`,
  `StoreRace.RacingWriteIff`.
* GICv3 routing is not always restored once every CPU is back: `GicV3.ExtraBitWitness`, `GicV3.Cpu0Witness`,
  `GicV3.RestoredIff`. An affinity set between exclude and include is overwritten: `GicV3.AffinityWitness`,
  `GicV3.AffinitySurvivesIff`, `GicV2.AffinityWitness`, `GicV2.AffinitySurvivesIff`.
* A handler lookup can go wrong once a slot is reused: `GicHandlers.ReuseWitness`, `GicHandlers.WrongAnswerIff`.
* The console does not clear all of a screen whose rows are padded: `Console.PaddedClearWitness`,
  `Console.ClearedShowsIff`, `Console.ClearReachesIff`.

## Assumptions

* FAT unlink and rename are atomic, a rename refuses an existing target, and a closed temporary file is durable. A
  read that fails stores nothing.
* The run theorems admit a write only if it stays inside its block (`InsideBlock`), as the LittleFS contract
  demands; `StoreRam.ProgKeepsCoveredIff` says what happens otherwise.
* Images are smaller than 4 GiB, the FAT file size limit and the width of the header field
  (`StoreFormat.DeltaAcceptedIffBelow4GiB`).
* In runs a flush is serialised with writes, and stats and reads succeed while booting. `StoreRace` and `StoreBoot`
  say what happens otherwise.
* The guard of a flush in `StoreRuns.Legal` is a condition of the whole-run theorems: the live journal is in DELTA;
  for a full rewrite, cut before its commit, the old image was not in STORE_BAK alone (or is still there), and after
  its commit the old deltas still there only repeat bytes of the new image. Boots have no guard. `StoreHealth` and
  `StoreRuns.CleanRewriteIsGuarded` say which runs satisfy it by themselves.
* `kernel/drivers/gic.c:798-807` asks callers to pair each exclude with an include before the next exclude of the
  same CPU; the routing theorems hold for every sequence of calls, paired or not.
* The handler table's atomic loads and stores use acquire/release order, so each is one step of the interleaving.
* A GPU thread reads only its kernel's inputs, which are other buffers than its output, so a launch is its threads
  in some order.

## Model

| member | source | states |
|---|---|---|
| `StoreFormat.HeaderRoundTrip` | kernel/drivers/persistent_lfs_store.c:28-35 | decoding the packed header gives back every field, for all 32-bit values |
| `StoreFormat.DeltaRoundTrip` | kernel/drivers/persistent_lfs_store.c:104-145 | every delta file a flush writes is accepted by the loader, which gives back the same block range and the same bytes |
| `StoreFormat.DeltaAcceptedIff` | kernel/drivers/persistent_lfs_store.c:104-126 | exactly which files the loader accepts, byte by byte: at least 32 bytes; the magic 4C 44 46 31; the image size; 4096 as block size; a range of blocks that is not empty and inside the image; and just that many blocks of payload; and the range and payload it takes from them |
| `StoreFormat.ReservedBytesAreZero` | kernel/drivers/persistent_lfs_store.c:28-35 | the last twelve bytes of a written header are zeros |
| `StoreFormat.DeltaAcceptedIffBelow4GiB` | kernel/drivers/persistent_lfs_store.c:284-289 | the 32-bit cast of the image size in the header is harmless if and only if the image is smaller than 4 GiB |
| `StoreFormat.OverlayLocal` | kernel/drivers/persistent_lfs_store.c:113-139 | any header the loader accepts writes inside the image only, and changes no byte outside its own blocks |
| `StoreDisk.BootShows` | kernel/drivers/persistent_lfs_store.c:523-624 | what a boot shows, byte by byte: the primary image, else the backup, each a non-empty number of 4096-byte blocks, under the delta accepted from DELTA, else from DELTA_BAK; or 8 MiB of 0xFF |
| `StoreRam.ProgKeepsCovered` | kernel/drivers/persistent_lfs_store.c:181-196 | a refused write, or an accepted one that stays inside its block (an empty one in an existing block), keeps the ranges in bounds and the coverage invariant: outside the dirty and journal ranges RAM equals the base file |
| `StoreRam.EraseKeepsCovered` | kernel/drivers/persistent_lfs_store.c:198-212 | an erase of any block number, accepted or refused, keeps the coverage invariant |
| `StoreRam.ProgKeepsCoveredIff` | kernel/drivers/persistent_lfs_store.c:184-193 | an accepted write keeps the ranges in bounds and the invariant for every image if and only if it stays inside its block, or is empty and names an existing block; the bounds check is on the whole image but only one block is marked dirty |
| `StoreRam.DeltaCarriesImage` | kernel/drivers/persistent_lfs_store.c:235-255 | the base overlaid with a delta over the hull of dirty and journal range is exactly the RAM image |
| `StoreRam.DirtyRangeIsTight` | kernel/drivers/persistent_lfs_store.c:147-163 | after any marks of a clean store the dirty range starts at the lowest and ends at the highest block marked |
| `StoreRam.FlushRangeIsTight` | kernel/drivers/persistent_lfs_store.c:236-251 | a flush covers the dirty range and a live journal, and each of its ends is an end of one of them |
| `StoreRam.ResetForcesRewrite` | kernel/drivers/persistent_lfs_store.c:655-665 | a reset marks every block and forgets base and journal |
| `StoreRam.FreshRamCovered` | kernel/drivers/persistent_lfs_store.c:597-623 | the fields right after a boot satisfy the coverage invariant |
| `StoreRecovery.RecoveryIsCrashSafe` | kernel/drivers/persistent_lfs_store.c:573-588 | power loss after any step of recovery itself leaves a disk that boots the same contents |
| `StoreRecovery.RecoveryYieldsBoot` | kernel/drivers/persistent_lfs_store.c:529-624 | unless the backup image is stuck under its backup name, recovery yields the committed image, range fields and format flag, and the image ends up under its primary name |
| `StoreRecovery.RecoveryImageIff` | kernel/drivers/persistent_lfs_store.c:573-597 | recovery returns the committed image if and only if the backup is not stuck or the journal only repeats bytes of the base: with the backup used in place the journals are skipped |
| `StoreRecovery.StuckBackupWitness` | kernel/drivers/persistent_lfs_store.c:582-597 | a disk on which that shows the backup without its journal |
| `StoreFlush.RotateCuts` | kernel/drivers/persistent_lfs_store.c:322-337 | every disk state of a tmp/backup rotation holds the old generation, except the last one of a successful rotation, which holds the new one; other files never change; for every combination of failing calls |
| `StoreFlush.RotateOkIff` | kernel/drivers/persistent_lfs_store.c:322-337 | exactly which calls must work for a rotation to succeed |
| `StoreFlush.SyncStatusIff` | kernel/drivers/persistent_lfs_store.c:214-437 | exactly when a sync reports success, no memory or an I/O error, by the calls that fail and the files that are there |
| `StoreFlush.DeltaFlushAtomic` | kernel/drivers/persistent_lfs_store.c:283-343 | unless the journal lives in DELTA_BAK alone the delta branch is crash-atomic, wherever the base image is: cut after any disk step, under any failing calls, recovery finds the old state, or the new one exactly when the flush succeeded and is at its end |
| `StoreFlush.SuccessfulFlushBoots` | kernel/drivers/persistent_lfs_store.c:322-337 | a delta flush that reports success has committed its journal, whatever deltas it found |
| `StoreFlush.BackupOnlyCuts` | kernel/drivers/persistent_lfs_store.c:322-337 | with the journal in DELTA_BAK alone, a flush passes through the bare base on its way from old to new |
| `StoreFlush.DeltaFlushAtomicIff` | kernel/drivers/persistent_lfs_store.c:283-343 | exactly when a delta flush is crash-atomic: the live journal is not in DELTA_BAK alone, or losing it would not show |
| `StoreFlush.LostJournalWitness` | kernel/drivers/persistent_lfs_store.c:322-330 | a disk and a cut point at which committed data is lost: DELTA_BAK holds the only journal and the next flush unlinks it first |
| `StoreFlush.HazardIff` | kernel/drivers/persistent_lfs_store.c:322-337 | under any failing calls, the disk states of a delta flush that have the journal in DELTA_BAK alone are exactly those in which a live DELTA was moved aside: between the two renames, and at the end if the install and the rollback rename failed |
| `StoreFlush.FailedFlushKeepsLive` | kernel/drivers/persistent_lfs_store.c:330-337 | a failed delta flush keeps the committed state, and keeps the journal in DELTA unless both the install rename and its rollback fail; then and only then it is left in DELTA_BAK |
| `StoreFlush.RejectedDeltaFallsBack` | kernel/drivers/persistent_lfs_store.c:600-623 | a DELTA whose header is rejected counts for recovery as no DELTA at all |
| `StoreFlush.FlushKeepsPreviousGeneration` | kernel/drivers/persistent_lfs_store.c:322-343 | after a successful delta flush, a rejected DELTA makes recovery return exactly what was committed before that flush |
| `StoreFlush.FallbackAtCut` | kernel/drivers/persistent_lfs_store.c:322-337 | what a rejected DELTA falls back to, in every disk state of a delta flush and under any failing calls: as before at first; then, as soon as DELTA_BAK is unlinked, the bare base; and what is committed once the old delta is the backup |
| `StoreFlush.FailedFallback` | kernel/drivers/persistent_lfs_store.c:330-343 | what it falls back to after a failed delta flush: what is committed if the live delta was left aside, the bare base if the flush had unlinked DELTA_BAK, and otherwise the generation before |
| `StoreFlush.FallbackKeptIff` | kernel/drivers/persistent_lfs_store.c:338-343 | exactly when a failed delta flush keeps the fallback image: it did not unlink DELTA_BAK or that only repeated bytes of the base, or the live delta it left aside shows the same image |
| `StoreFlush.DroppedBackupWitness` | kernel/drivers/persistent_lfs_store.c:322-337 | only the install rename fails, its rollback works and DELTA is back in place, but the generation before it is gone |
| `StoreFlush.FullRewriteCuts` | kernel/drivers/persistent_lfs_store.c:344-390 | exact crash behaviour of a full rewrite, from every disk and under any failing calls: before the rename that installs STORE the old state, or nothing at all if the only image was in STORE_BAK and has been unlinked; then the new image under whichever old deltas are still there |
| `StoreFlush.FullRewriteAtomic` | kernel/drivers/persistent_lfs_store.c:344-390 | with no acceptable delta on disk a full rewrite is crash-atomic under any failing calls |
| `StoreFlush.FullRewriteAtomicIff` | kernel/drivers/persistent_lfs_store.c:372-390 | exactly when a full rewrite is crash-atomic, for every disk: laying the old DELTA, or DELTA_BAK alone, over the new image gives the new or the old image, and the only image is not in STORE_BAK, unless its loss does not show |
| `StoreFlush.MixedImageWitness` | kernel/drivers/persistent_lfs_store.c:380-390 | a disk, an image and a cut of a fault-free full rewrite at which recovery shows neither the old nor the new image |
| `StoreFlush.FullRewriteCommitsIff` | kernel/drivers/persistent_lfs_store.c:387-390 | a full rewrite that reports success has committed the image if and only if what the last two unlinks left behind only repeats bytes of it; their results are ignored |
| `StoreFlush.RewriteLeaves` | kernel/drivers/persistent_lfs_store.c:380-389 | the files after a successful full rewrite: the new image alone, except where an unlink failed |
| `StoreFlush.StaleDeltaWitness` | kernel/drivers/persistent_lfs_store.c:388-390 | without any power loss: only the unlink of the old DELTA fails, the rewrite reports success, and the next boot is a mixture |
| `StoreFlush.SoleBackupIsDropped` | kernel/drivers/persistent_lfs_store.c:372-380 | if the only image is in STORE_BAK, a full rewrite destroys it first: every disk state from there up to its commit needs a format |
| `StoreFlush.FailedRewriteKeepsPrimary` | kernel/drivers/persistent_lfs_store.c:372-386 | a failed full rewrite keeps the committed state, and leaves the image under STORE unless the install and the rollback rename both fail; then and only then the only image is in STORE_BAK |
| `StoreFlush.RewriteFallback` | kernel/drivers/persistent_lfs_store.c:372-390 | what a rejected DELTA falls back to in every disk state of a full rewrite: as before up to its commit (a format if the only image was in STORE_BAK and is unlinked), then the new image under what is left of DELTA_BAK |
| `StoreRuns.SyncCuts` | kernel/drivers/persistent_lfs_store.c:425-437 | power loss anywhere in a guarded sync leaves the committed image or the RAM image, never a mix |
| `StoreRuns.SyncFailure` | kernel/drivers/persistent_lfs_store.c:408-422 | a failed sync changes neither the committed state nor any field and keeps the invariant, so a later one can still commit; for a full rewrite whatever deltas are around |
| `StoreRuns.SyncSuccess` | kernel/drivers/persistent_lfs_store.c:397-406 | after a guarded sync that flushed and succeeded, delta or full rewrite over old deltas, the disk boots the RAM image and the fields describe that disk |
| `StoreRuns.StepRefines` | kernel/drivers/persistent_lfs_store.c:165-437 | every step (read, prog, erase, sync with any faults, suspend, resume, reset, power loss anywhere, boot from any disk, stuck backups included) keeps the invariant and refines a plain byte array with its committed copy; a boot from a stuck backup shows the bare base instead of the committed copy |
| `StoreRuns.RunRefines` | kernel/drivers/persistent_lfs_store.c:165-695 | over whole runs of any length: the invariant holds in every state and every event does to the plain array what the reference allows, return values included |
| `StoreRuns.AnyDiskStarts` | kernel/drivers/persistent_lfs_store.c:494-624 | every disk contents whatsoever is a legal start of a run |
| `StoreRuns.CommittedIsStable` | kernel/drivers/persistent_lfs_store.c:165-437 | between syncs the image that would survive a crash never changes |
| `StoreRuns.SyncedDataSurvives` | kernel/drivers/persistent_lfs_store.c:425-437 | once an unsuspended sync returned success, the next boot finds that array committed, or if power failed inside the following sync that array or the one being synced; it shows the committed array unless the backup is stuck; the first sync must not follow a boot from a stuck backup without a write |
| `StoreRuns.SyncCommitsIff` | kernel/drivers/persistent_lfs_store.c:425-437 | an unsuspended sync that reports success has committed the RAM image, if and only if the store did not boot from a stuck backup without a write since, or the journals skipped then add nothing |
| `StoreRuns.StaleSyncWitness` | kernel/drivers/persistent_lfs_store.c:582-597 | a sync right after such a boot: it reports success and the next boot shows another image |
| `StoreRuns.CoverageOverRuns` | kernel/drivers/persistent_lfs_store.c:147-163 | in every state of every run with a valid backing image the coverage invariant holds and the delta of a flush would carry the whole RAM image |
| `StoreRuns.ErasedReads` | kernel/drivers/persistent_lfs_store.c:198-212 | after an erase every read in the block, and after a reset every read, returns 0xFF |
| `StoreRuns.DirtyEndsWereWritten` | kernel/drivers/persistent_lfs_store.c:147-212 | in every run both ends of the dirty range have been written to |
| `StoreRuns.BackedStep` | kernel/drivers/persistent_lfs_store.c:397-405 | a store writes deltas after a boot that found an image and after a successful flush, and no longer after a reset |
| `StoreRuns.BackedStays` | kernel/drivers/persistent_lfs_store.c:397-405 | over runs: once it does, it goes on across power losses and boots until a reset |
| `StoreRuns.JournalOnlyGrows` | kernel/drivers/persistent_lfs_store.c:397-405 | the journal range (the recorded one, or that of the delta on disk while the power is off) only grows, across power losses and boots, until a reset or a boot from a stuck backup |
| `StoreRuns.RecoveryKeepsFallback` | kernel/drivers/persistent_lfs_store.c:573-588 | no step of recovery, a rename of STORE_BAK included, changes what a rejected DELTA falls back to |
| `StoreRuns.FallbackStep` | kernel/drivers/persistent_lfs_store.c:322-390 | what a rejected DELTA falls back to after any event: unchanged if the event does not reach DELTA_BAK, and otherwise what was committed, the bare base, or the new image under what is left of DELTA_BAK |
| `StoreRuns.LastReach` | kernel/drivers/persistent_lfs_store.c:322-390 | every stretch of a run has a last event that reaches DELTA_BAK, or none does |
| `StoreRuns.FallbackOverRuns` | kernel/drivers/persistent_lfs_store.c:600-622 | in every state of every run, recovery with a rejected DELTA finds exactly the fallback that the last event to reach DELTA_BAK left |
| `StoreRuns.BackupGenerationHolds` | kernel/drivers/persistent_lfs_store.c:338-343 | after a successful delta flush, and through any later events that do not reach DELTA_BAK (failed and interrupted syncs, power losses and boots among them), a rejected DELTA brings back what was committed before that flush |
| `StoreRuns.CleanRewriteIsGuarded` | kernel/drivers/persistent_lfs_store.c:344-390 | a completed rewrite over old deltas, as after a reset, satisfies the guard of the run theorems as soon as the unlinks of the deltas work |
| `StoreRace.RacingWriteIff` | kernel/drivers/persistent_lfs_store.c:303-315 | a write that lands in a delta flush after any number of copied bytes is in the next boot if and only if every byte it changed is in the flushed blocks and not copied yet; the ranges still account for the image if and only if every changed byte is in the flushed blocks |
| `StoreRace.RacingWriteWitness` | kernel/drivers/persistent_lfs_store.c:303-315 | a write to a second block while the first is being flushed: the flush succeeds, nothing is dirty, and the next boot does not have it |
| `StoreRace.RacingRewriteIff` | kernel/drivers/persistent_lfs_store.c:353-364 | the same for a full rewrite, with the bytes of a delta it left behind |
| `StoreHealth.CalmStep` | kernel/drivers/persistent_lfs_store.c:283-343 | from a disk with its image in STORE and its journal in DELTA every event keeps it so, except a reset, a sync whose install and rollback renames both fail, and a power loss between the two renames |
| `StoreHealth.CalmRunsAreLegal` | kernel/drivers/persistent_lfs_store.c:165-437 | whole runs of such events satisfy the flush guard in every flush |
| `StoreHealth.CalmRunIsRun` | kernel/drivers/persistent_lfs_store.c:165-437 | so the durability theorems hold for them without further conditions |
| `StoreDevice.Device.MarkDirtyBlocks` | kernel/drivers/persistent_lfs_store.c:147-163 | updates the range fields in place to the hull with the marked blocks |
| `StoreDevice.Device.Read` | kernel/drivers/persistent_lfs_store.c:165-179 | returns exactly the requested bytes, or an error if and only if they are outside the image |
| `StoreDevice.Device.ProgBytes` | kernel/drivers/persistent_lfs_store.c:181-196 | stores the bytes into the buffer in place and marks their block, or refuses and changes nothing |
| `StoreDevice.Device.EraseBlock` | kernel/drivers/persistent_lfs_store.c:198-212 | fills one block with 0xFF in place and marks it, or refuses |
| `StoreDevice.Device.WriteChunks` | kernel/drivers/persistent_lfs_store.c:303-315 | the chunked write loop appends exactly the given bytes, and succeeds if and only if enough writes succeed |
| `StoreDevice.Device.WriteTmp` | kernel/drivers/persistent_lfs_store.c:283-320 | builds header and payload in the temporary file without touching a durable file |
| `StoreDevice.Device.RotateIn` | kernel/drivers/persistent_lfs_store.c:322-337 | the unlink, stat and rename calls pass only through the disk states of the rotation and end in its last one |
| `StoreDevice.Device.CleanUp` | kernel/drivers/persistent_lfs_store.c:408-413 | changes no durable file, and leaves neither temporary file unless its unlink fails |
| `StoreDevice.Device.FlushDelta` | kernel/drivers/persistent_lfs_store.c:283-343 | the delta branch passes only through the states that were proved crash-atomic |
| `StoreDevice.Device.FlushAll` | kernel/drivers/persistent_lfs_store.c:344-390 | the full-rewrite branch passes only through the states described by its crash analysis |
| `StoreDevice.Device.FlushImage` | kernel/drivers/persistent_lfs_store.c:214-423 | the whole flush: status, disk states and fields, and no temporary file left behind by a failed flush whose clean-up works |
| `StoreDevice.Device.SyncImage` | kernel/drivers/persistent_lfs_store.c:425-437 | sync is a flush unless clean or suspended |
| `StoreDevice.Device.ResetImage` | kernel/drivers/persistent_lfs_store.c:647-667 | erases the image and forces the next flush to be a full rewrite |
| `StoreDevice.Device.SuspendSync` | kernel/drivers/persistent_lfs_store.c:669-680 | counts up modulo 2^32 |
| `StoreDevice.Device.ResumeSync` | kernel/drivers/persistent_lfs_store.c:682-695 | counts down, stopping at zero |
| `StoreDevice.Device.ReadChunks` | kernel/drivers/persistent_lfs_store.c:67-75 | the chunked read loop copies exactly the bytes asked for; after a failing read or at the end of the file it has copied a prefix |
| `StoreDevice.Device.LoadDelta` | kernel/drivers/persistent_lfs_store.c:104-145 | a file that is not accepted (`StoreFormat.DeltaAcceptedIff`) leaves the device untouched; an accepted one is laid over the image and sets the range; a read error leaves a prefix of the payload behind and no range |
| `StoreDevice.LoadJournal` | kernel/drivers/persistent_lfs_store.c:597-623 | DELTA, then DELTA_BAK if DELTA did not load to its end, for any failing stat, open, header and payload reads |
| `StoreDevice.RestoreBackup` | kernel/drivers/persistent_lfs_store.c:575-584 | puts the backup image under the primary name, removing first a primary whose stat had succeeded |
| `StoreDevice.CreateDevice` | kernel/drivers/persistent_lfs_store.c:494-645 | boot by calls, for any failing stat, open, read, unlink and rename: the device and the disk are those of the boot function, through its disk states only |
| `StoreBoot.JournalLoadedWhole` | kernel/drivers/persistent_lfs_store.c:597-623 | with enough successful reads the journal step yields exactly the boot contents of the disk |
| `StoreBoot.TornReadIff` | kernel/drivers/persistent_lfs_store.c:128-136 | for every pair of deltas and every point where their reads fail: the ranges account for the image if and only if what arrived without being recorded equals the base |
| `StoreBoot.TornReadWitness` | kernel/drivers/persistent_lfs_store.c:128-136 | two good deltas and one read error in the newer one, after which they do not |
| `StoreBoot.StartupParts` | kernel/drivers/persistent_lfs_store.c:529-624 | a boot needs a format if and only if neither image arrives; the journal is laid over the image only if that is under its primary name |
| `StoreBoot.FormatLosesIff` | kernel/drivers/persistent_lfs_store.c:523-596 | exactly when a boot asks for a format although a committed image is there: the stat or a read of every good image file fails, or the backup is smaller than the primary |
| `StoreBoot.FormatLosesWitness` | kernel/drivers/persistent_lfs_store.c:523-531 | one failed stat: the boot asks for a format, and the first successful sync after it replaces the committed image |
| `StoreBoot.CleanBootIsRecovery` | kernel/drivers/persistent_lfs_store.c:529-624 | when stats and reads succeed the boot is the recovery of the run theorems |
| `StoreBoot.BootKeepsCommittedIff` | kernel/drivers/persistent_lfs_store.c:565-588 | at every point of a boot the committed state is as before, if and only if no read error of an intact primary makes it fall back on a different backup, for which the primary is unlinked |
| `StoreBoot.DroppedPrimaryWitness` | kernel/drivers/persistent_lfs_store.c:573-580 | one such read error destroys the newer image |
| `StoreBoot.BootCoveredIff` | kernel/drivers/persistent_lfs_store.c:529-624 | the fields of a booted store account for its image file if and only if the file has the size of the buffer and no torn delta left an unrecorded trace |
| `GicBits.CpusAsNumber` | kernel/drivers/gic.c:904-920 | what a target byte means as a number: CPU k is in it if and only if its binary digit k is 1 |
| `GicBits.WordIsBytes` | kernel/drivers/gic.c:912-927 | a register word is its four bytes, byte k from bit 8k on |
| `GicBitmap.ImplementedIff` | kernel/drivers/gic.c:906-911 | how many interrupts a call reaches: interrupt n if and only if n is below 32 times the line number plus one |
| `GicBitmap.MarkedAsNumber` | kernel/drivers/gic.c:818-824 | where the mark of a CPU and an interrupt is, as a binary digit of a byte |
| `GicBitmap.MarkersAfter` | kernel/drivers/gic.c:818-840 | setting or clearing one bit of a per-CPU bitmap changes the record of exactly that CPU and interrupt |
| `GicBitmap.SetMark` | kernel/drivers/gic.c:826-832 | sets the bit in the byte array in place; out of range it does nothing |
| `GicBitmap.ClearMark` | kernel/drivers/gic.c:834-840 | clears the bit in place; out of range it does nothing |
| `GicBitmap.TestMark` | kernel/drivers/gic.c:818-824 | reads the bit; out of range it is clear |
| `GicV2.RunKeepsRouted` | kernel/drivers/gic.c:898-977 | the routing invariant over every sequence of exclude and include calls, for one interrupt |
| `GicV2.RoutingOverRuns` | kernel/drivers/gic.c:898-977 | for any sequence of exclude/include over any CPUs: an interrupt has a target if and only if it started with one, never targets an excluded CPU, keeps all its other targets, and is exactly as at the start once every CPU is back |
| `GicV2.MaskOfWithMask` | kernel/drivers/gic.c:849-866 | writing one 8-bit lane of the packed target words leaves every other lane alone |
| `GicV2.RegistersRestored` | kernel/drivers/gic.c:943-977 | equal targets for all shared interrupts mean equal register words |
| `GicV2.NeverEmpty` | kernel/drivers/gic.c:849-977 | over every history of calls and assignments: if no empty mask is assigned, no mask is ever empty; CPU 0 is never recorded |
| `GicV2.AssignedOverRuns` | kernel/drivers/gic.c:898-977 | targets and records at every moment after an assignment, made at any time, under any calls |
| `GicV2.AffinityEndsUp` | kernel/drivers/gic.c:898-977 | where an interrupt ends up that was assigned a mask at any point of any history: never on a CPU excluded since; and once these are all back, on the assigned CPUs and on those recorded at the assignment and included since, without CPU 0 if one of these had forced it |
| `GicV2.AffinitySurvivesIff` | kernel/drivers/gic.c:956-974 | exactly when the assignment survives: it names every CPU that was recorded at that time and included since, and not CPU 0 if one of these had forced it |
| `GicV2.AffinityWitness` | kernel/drivers/gic.c:956-974 | CPU 1 excluded, its interrupt given to CPUs 0 and 2, CPU 1 included: the interrupt is on CPUs 1 and 2 |
| `GicV2.StoreIsAssign` | kernel/drivers/gic.c:849-866 | writing the packed mask of one interrupt is an assignment to it and leaves the others alone |
| `GicV2.Controller.SetAffinity` | kernel/drivers/gic.c:849-866 | rewrites the one lane, refuses private interrupts |
| `GicV2.Controller.GetAffinity` | kernel/drivers/gic.c:871-882 | reads the one lane, zero for private interrupts |
| `GicV2.Controller.ExcludeOne` | kernel/drivers/gic.c:911-928 | one iteration of the exclude loop on words and both bitmaps |
| `GicV2.Controller.IncludeOne` | kernel/drivers/gic.c:956-974 | one iteration of the include loop on words and both bitmaps |
| `GicV2.Controller.Call` | kernel/drivers/gic.c:898-977 | a whole call: every implemented shared interrupt takes one step, every other one and the private words are untouched; calls for CPU 0 or absent CPUs do nothing; and as numbers, an exclude takes 2^cpu out of each target byte that has it, or makes it 1 if that leaves 0, and an include adds it back to the recorded ones |
| `GicV2.Controller.Calls` | kernel/drivers/gic.c:898-977 | any sequence of calls puts every interrupt where the reference run says, and restores all register words once every CPU is back |
| `GicV3.AffBytes` | kernel/drivers/gic.c:1011-1014 | the affinity of a value is its bits 0 to 23 and 32 to 39 |
| `GicV3.InMaskIff` | kernel/drivers/gic.c:1067-1071 | which bit of an affinity mask names which CPU |
| `GicV3.SetThenGet` | kernel/drivers/gic.c:1061-1097 | the router value of a CPU maps back to that CPU when affinities are distinct under the mask |
| `GicV3.RoutingOverRuns` | kernel/drivers/gic.c:1112-1175 | after any sequence of exclude and include calls, CPU 0 and absent CPUs included, the router register and the records of an interrupt are exactly given: parked on CPU 0 while its home is isolated, also recorded there while caught, and on CPU 0 for good once stranded |
| `GicV3.RestoredIff` | kernel/drivers/gic.c:1112-1175 | once every CPU is back a router register has its starting value if and only if that value had only affinity bits or its CPU was never excluded, and it was not stranded: CPU 0 included at a moment when the home was not isolated, after CPU 0 was excluded while the home was |
| `GicV3.ExcludedGetsNone` | kernel/drivers/gic.c:1112-1140 | no interrupt is routed to an excluded CPU other than 0, whatever else was called |
| `GicV3.RecordsDisjointIff` | kernel/drivers/gic.c:1112-1175 | an interrupt is on two exclusion records exactly while it is parked and caught on CPU 0 |
| `GicV3.StrandedMeans` | kernel/drivers/gic.c:1150-1175 | being stranded in terms of positions in the sequence of calls |
| `GicV3.SparingCpu0` | kernel/drivers/gic.c:1112-1175 | callers that never exclude CPU 0 strand nothing; including it is harmless |
| `GicV3.ExtraBitWitness` | kernel/drivers/gic.c:1150-1175 | one exclude and include drops a bit outside the affinity fields |
| `GicV3.WhereItIs` | kernel/drivers/gic.c:1112-1175 | from any state, after any calls, an interrupt is where it was assigned, or on the CPU of the last include that found it recorded; or it is on CPU 0 with a record |
| `GicV3.AffinitySurvivesIff` | kernel/drivers/gic.c:1150-1175 | exactly when an assigned routing survives, whatever was recorded when it was assigned: no include found a record since, or the last one that did was that of the assigned CPU |
| `GicV3.RecordsReturn` | kernel/drivers/gic.c:1150-1175 | with records at the assignment and none left in the end, some include did find one |
| `GicV3.AlwaysRouted` | kernel/drivers/gic.c:1112-1175 | an interrupt routed to an existing CPU always is, under any calls |
| `GicV3.AffinityWitness` | kernel/drivers/gic.c:1150-1175 | CPU 1 excluded, its interrupt given to CPU 2, CPU 1 included: the interrupt is on CPU 1 |
| `GicV3.Cpu0Witness` | kernel/drivers/gic.c:1112-1140 | four calls that strand an interrupt on CPU 0 |
| `GicV3.Controller.SetAffinity` | kernel/drivers/gic.c:1061-1082 | routes to the lowest requested CPU, and reading back finds that CPU; refuses private interrupts and absent CPUs |
| `GicV3.Controller.GetAffinity` | kernel/drivers/gic.c:1091-1097 | finds the first CPU whose affinity matches the router register |
| `GicV3.Controller.Call` | kernel/drivers/gic.c:1112-1175 | a whole call moves every implemented shared interrupt one step and no other: an exclude sends the registers with the affinity of the CPU to CPU 0 and marks them, an include sends the marked ones back |
| `GicV3.Controller.Calls` | kernel/drivers/gic.c:1112-1175 | any sequence of calls follows the reference run; once every CPU is back each router register without a record at the start is bit for bit as it was, exactly under the condition of `RestoredIff` |
| `GicHandlers.StepKeepsInv` | kernel/drivers/gic.c:1221-1267 | each atomic step of a registration, an unregistration or any lookup keeps the table invariant |
| `GicHandlers.RunKeepsInv` | kernel/drivers/gic.c:1221-1267 | so does every interleaving of them |
| `GicHandlers.LookupsAreCorrect` | kernel/drivers/gic.c:1255-1267 | in every interleaving, unregistrations included: a lookup returns a handler registered for its interrupt unless a registration renamed the slot while the lookup held its handler; and one that returns nothing had no slot that served its interrupt all the time |
| `GicHandlers.QuietLookupsAreCorrect` | kernel/drivers/gic.c:1255-1267 | if no registration names a slot whose handler a lookup holds, every handler found is right |
| `GicHandlers.RegisteredIsFound` | kernel/drivers/gic.c:1221-1267 | without unregistering, a lookup finds a handler if a registration had finished before it began, and the handler is right |
| `GicHandlers.RegisterFillsFirstFree` | kernel/drivers/gic.c:1221-1239 | a registration on its own, from any table: number and handler go into the first free slot and nowhere else and it is published; with no free slot nothing changes |
| `GicHandlers.UnregisterFreesFirst` | kernel/drivers/gic.c:1241-1253 | an unregistration frees exactly the lowest slot that serves the interrupt |
| `GicHandlers.LookupFindsFirst` | kernel/drivers/gic.c:1255-1267 | a lookup on its own ends with the handler of the lowest slot that serves the interrupt, or with none |
| `GicHandlers.RegisterThenLookup` | kernel/drivers/gic.c:1221-1267 | registering an interrupt that nothing serves and looking it up gives the handler registered |
| `GicHandlers.WrongAnswerIff` | kernel/drivers/gic.c:1221-1267 | exactly which programs of registrations and unregistrations have an interleaving with a wrong answer: those in which a slot holds a handler and, then or later, has a number that handler is never registered for |
| `GicHandlers.ReuseWitness` | kernel/drivers/gic.c:1241-1253 | such a program and interleaving: register, unregister, reuse the slot |
| `QmdBits.SetBitsSameWord` | scripts/gpu-qmd-bits.h:24-59 | a range inside one word: bit b becomes bit b-lo of the value, all other bits stay |
| `QmdBits.ValueMaskIs` | scripts/gpu-qmd-bits.h:33 | the mask is the number 2^nbits - 1, all ones from 64 bits on |
| `QmdBits.SetBitsTwoWords` | scripts/gpu-qmd-bits.h:24-59 | the same for a range that crosses a word boundary |
| `QmdBits.SetBitsIff` | scripts/gpu-qmd-bits.h:24-59 | the writer does its job for all contents if and only if the range touches at most two words |
| `QmdBits.SetBitsFlat` | scripts/gpu-qmd-bits.h:24-59 | on the descriptor as one bit string the writer is a plain substitution |
| `QmdBits.DisjointWritesCommute` | scripts/gpu-qmd-bits.h:24-59 | writes to disjoint ranges commute |
| `QmdBits.SetBitsInPlace` | scripts/gpu-qmd-bits.h:24-59 | the writer on the array of words |
| `QmdPopulate.LaunchLayout` | scripts/gpu-launch-common.h:134-178 | no two of the 28 written fields share a bit and none touches more than two words |
| `QmdPopulate.FieldReadsBack` | scripts/gpu-launch-common.c:570-656 | every field of any such layout reads back the number written, cut to its width |
| `QmdPopulate.EveryFieldReadsBack` | scripts/gpu-launch-common.c:570-656 | after the whole population every field holds its intended value, the register count if it is below 512 |
| `QmdPopulate.DescriptorHolds` | scripts/gpu-launch-common.c:570-656 | every other field of a populated descriptor by its literal bit range and value; the register count cut to nine bits |
| `QmdPopulate.OtherBitsAreZero` | scripts/gpu-launch-common.c:570-656 | every bit outside the literal list of ranges is zero |
| `QmdPopulate.UnlistedBitsAreZero` | scripts/gpu-launch-common.c:570-656 | every bit outside the listed fields is zero |
| `QmdPopulate.AddressesReassemble` | scripts/gpu-launch-common.c:570-656 | both split addresses come back modulo 2^49, so exactly when below that, whatever the register count |
| `QmdPopulate.OverrideIsUpdate` | scripts/gpu-kernel-eviction-qnet.c:447-455 | an override after the population equals having written that value in the first place |
| `QmdPopulate.OverridesAreUpdates` | scripts/gpu-kernel-eviction-qnet.c:447-455 | so do any number of overrides |
| `QmdPopulate.OverridesDisturbNothing` | scripts/gpu-kernel-eviction-qnet.c:447-455 | overriding grid and block dimensions leaves every other field at its intended value |
| `QmdPopulate.PopulateInPlace` | scripts/gpu-launch-common.c:570-656 | clearing and writing the array of words field by field gives that descriptor |
| `PushBuffer.HdrIncIff` | scripts/gpu-launch-common.h:120-128 | each part of an incrementing header decodes to what went in if and only if it fits its field |
| `PushBuffer.HdrImmdIff` | scripts/gpu-launch-common.h:120-128 | the same for an immediate header |
| `PushBuffer.DecodeEncode` | scripts/gpu-launch-common.c:688-733 | decoding the words of any list of in-range packets gives back that list |
| `PushBuffer.LaunchIsEncoded` | scripts/gpu-launch-common.c:688-733 | the fourteen words of the launch stream are the encoding of its eight packets |
| `PushBuffer.LaunchIs` | scripts/gpu-launch-common.c:688-733 | the fourteen words by number, and the eight packets they decode to by subchannel, method offset and data |
| `PushBuffer.LaunchAddressIff` | scripts/gpu-launch-common.c:688-733 | the decoded launch stream carries the descriptor address if and only if that is 256-byte aligned and below 2^40 |
| `PushBuffer.BuildLaunch` | scripts/gpu-launch-common.c:688-733 | the builder writes those fourteen words, no more, and returns their number |
| `PushBuffer.RingEntryIff` | scripts/gpu-launch-common.c:748-782 | a ring entry is refused from 2^22 words on; an accepted one gives back the length always and the address if and only if it is a multiple of 4 below 2^40 |
| `Console.PutCharWellFormed` | kernel/drivers/fb_console.c:348-381 | after any character the cursor is inside the grid and the geometry is unchanged |
| `Console.NewlineMoves` | kernel/drivers/fb_console.c:354-356 | newline: column 0 of the next line, the grid moving up exactly if there is none |
| `Console.ReturnMoves` | kernel/drivers/fb_console.c:357-358 | return: column 0 and nothing else |
| `Console.TabMoves` | kernel/drivers/fb_console.c:359-376 | tab: the least multiple of 8 above the column, or the next line |
| `Console.BackspaceMoves` | kernel/drivers/fb_console.c:361-364 | backspace: one column to the left if there is one |
| `Console.GlyphMoves` | kernel/drivers/fb_console.c:365-380 | any other character: its glyph or a question mark under the cursor, then the next column or the next line |
| `Console.LinesAppear` | kernel/drivers/fb_console.c:348-390 | any number of lines of printable text appear one per row from column 0, scrolling as needed |
| `Console.LitIff` | kernel/drivers/fb_console.c:201-216 | the leftmost pixel of a glyph row is its top bit |
| `Console.PixelIff` | kernel/drivers/fb_console.c:201-216 | the picture of a grid: white where the glyph of the 8 by 16 cell is lit, black everywhere else |
| `Console.PrintableTextAppears` | kernel/drivers/fb_console.c:348-391 | printable text that fits the line appears at the cursor and changes no other cell |
| `Console.DrawnShows` | kernel/drivers/fb_console.c:201-216 | drawing a glyph at the cursor turns the rendering of the grid into that of the grid with the new cell |
| `Console.ScrolledShows` | kernel/drivers/fb_console.c:221-267 | moving pixel rows up and clearing the rest renders the scrolled grid, remainder pixels included |
| `Console.MoveUpStep` | kernel/drivers/fb_console.c:221-252 | one row of the overlapping in-place copy never reads a row it has already overwritten |
| `Console.FbConsole.constructor` | kernel/drivers/fb_console.c:316-327 | the clear covers the first width times height pixels of the memory, so the console starts blank if and only if the visible pixels beyond them were background already |
| `Console.ClearReachesIff` | kernel/drivers/fb_console.c:322-326 | the clear reaches every visible pixel if and only if rows are not padded |
| `Console.ClearedShowsIff` | kernel/drivers/fb_console.c:322-326 | a cleared frame shows the blank grid if and only if the visible pixels the clear does not reach were background already |
| `Console.PaddedClearWitness` | kernel/drivers/fb_console.c:322-326 | one character on rows padded by one pixel, over memory that is not background: the cleared frame does not show a blank |
| `Console.FbConsole.PutPixel` | kernel/drivers/fb_console.c:188-196 | changes exactly one pixel of the memory, or none outside the screen, for any pitch |
| `Console.FbConsole.DrawChar` | kernel/drivers/fb_console.c:201-216 | changes exactly the pixels of the character cell, clipped to the screen; padding is not touched |
| `Console.FbConsole.Scroll` | kernel/drivers/fb_console.c:221-267 | every visible pixel after a scroll, for any pitch |
| `Console.FbConsole.PutC` | kernel/drivers/fb_console.c:348-381 | for every character the framebuffer renders the text grid after that character (wrap, tab, newline, return, backspace, scroll); with no text cell nothing changes |
| `Console.FbConsole.PutS` | kernel/drivers/fb_console.c:386-391 | for every string the framebuffer renders the text grid after all of it |
| `Extents.RunsAreMaximal` | scripts/gpu-channel-helper.c:941-1000 | the runs tile exactly the known pages with consecutive addresses, and neighbours that could be merged have a hole between them |
| `Extents.NoHolesNoMerge` | scripts/gpu-channel-helper.c:941-1000 | with no failed lookup no two neighbouring extents can be merged |
| `Extents.ExpandRuns` | scripts/gpu-channel-helper.c:941-1000 | expanding the extents gives the known page addresses in order |
| `Extents.ExpandAll` | scripts/gpu-channel-helper.c:941-1000 | with no failed lookup it gives back the whole list |
| `Extents.TruncatedIs` | scripts/gpu-channel-helper.c:976-990 | the table holds the runs in order from the first on, all of them if there is room |
| `Extents.FullStaysFull` | scripts/gpu-channel-helper.c:976-990 | once there are more runs than the table holds, more pages never change its contents |
| `Extents.Coalesce` | scripts/gpu-channel-helper.c:941-1000 | the walk returns the first extents of the maximal runs, up to the size of the table |
| `Mlp.PipelineIsFused` | scripts/eviction-extract-weights.py:288-310 | for any number of layers and any dimensions, product on transposed weights, then bias, then ReLU on all but the last layer, then sigmoid, equals the fused bias-first forward pass |
| `Mlp.LayerAgree` | scripts/eviction-extract-weights.py:290-304 | the same for one layer |
| `Mlp.EmptyNet` | scripts/eviction-extract-weights.py:288-310 | on a net with no layer the two agree if and only if the sigmoid fixes every input |
| `Mlp.NeuronIs` | scripts/eviction-extract-weights.py:194-198 | a neuron is its bias plus the product of its row of weights with the input |
| `Mlp.FusedUnrolls` | scripts/eviction-extract-weights.py:199-203 | hidden layers are clipped at zero, the sigmoid is on the last layer only |
| `Kernels.ThreadIsRight` | scripts/cuda/gemm_fp32.cu:47-59 | a thread of any of the three kernels returns early or writes the right value into its own cell, computed on flat indices |
| `Kernels.WrittenOnce` | scripts/gpu-kernel-eviction-qnet.c:410-427 | no two threads of a launch write the same cell |
| `Kernels.LaunchIsRight` | scripts/gpu-kernel-eviction-qnet.c:402-503 | the launched grid, its threads in any order and over any old buffer contents, computes the batched product or bias operation |
| `Kernels.LaunchCoversIff` | scripts/gpu-kernel-eviction-qnet.c:505-520 | every cell is written if and only if the sigmoid launch has at most 256 cells |
| `Kernels.LaunchedRowIsFused` | scripts/gpu-kernel-eviction-qnet.c:402-533 | the whole batched network by launches: row r of the scores is the fused network on row r of the input, whatever the other rows, schedules and old buffers |
| `Kernels.GemmThread` | scripts/cuda/gemm_fp32.cu:47-59 | the kernel body on the output array |
| `Kernels.GemmLaunch` | scripts/gpu-kernel-eviction-qnet.c:408-427 | the product launch on the output array, in any order |
| `Mlp.TransposeWeight` | scripts/eviction-extract-weights.py:139-151 | the index-by-index loop yields the transposed weights, and refuses a list of the wrong length |
| `Mlp.CpuForward` | scripts/eviction-extract-weights.py:184-204 | the reference loop computes the fused network |
| `Mlp.SplitForward` | scripts/eviction-extract-weights.py:288-310 | the loop over separate operations computes the pipeline |
| `Mlp.ScoreLayers` | scripts/gpu-kernel-eviction-qnet.c:151-172 | the two alternating buffers: the live input is never the buffer being written, so each layer sees the activations of the one before |
| `Mlp.CpuReferenceScore` | scripts/gpu-kernel-eviction-qnet.c:151-172 | the score of the self-check is that of the fused network, for any number of layers up to 64 wide |

## Left out

- StoreRecovery.Recover: the boot of the run theorems, in which only the unlink and the rename can fail; `StoreBoot.Startup` models the failing stat, open and read calls too, and `StoreBoot.CleanBootIsRecovery` connects the two.
- StoreDevice.Device.FlushImage: the calls that acquire the boot medium, allocate the work area, mount and create the directory are only switches that fail or not; locks and log output are not modelled, nor are the same calls and the allocation at boot.
- StoreDevice.Device.WriteTmp: a failing write leaves an unspecified temporary file, since recovery never reads one.
- StoreHealth.CalmStep: says nothing about runs with a reset; `StoreRuns.CleanRewriteIsGuarded` covers the flush after it.
- GicHandlers: the table is a value and the machine a state machine over atomic steps, because the point is interleaving; one CPU registers and unregisters, weaker memory orders are not modelled, nor is the refusal of a null handler.
- GicV2.Controller.Call: waiting for register writes to complete and debug output are not modelled.
- GicV3.Controller.Call: the same, and redistributor bring-up.
- QmdBits.SetBits: words are sequences of bits rather than machine integers; `MachineBits` and `QmdBits.ValueMaskIs` connect the two.
- PushBuffer.HdrInc: the masked parts of a header are added instead of combined with or, which is the same because they do not overlap.
- PushBuffer.RingEntry: advancing the ring and ringing the doorbell, whose header is not part of this model, and polling for completion.
- Console.FbConsole: the pitch is a multiple of four bytes and at least four bytes a pixel, the pixel count does not wrap at 32 bits, and the font is an arbitrary table whose space glyph is blank; multiboot parsing and mapping of the framebuffer.
- Extents.Coalesce: addresses do not wrap at 64 bits, the number of failed lookups is not counted, and the page lookup itself is an input.
- Mlp: numbers are reals and the sigmoid is any function, so rounding and accuracy thresholds are not modelled; sentinels and weight files.
- Kernels: the launcher's experiment modes, which change shapes and inputs on purpose.
- UART, timer, mailbox, Ethernet and fan drivers, interrupt-controller bring-up: they write device registers in a fixed order and wait for them.
- The block-device registry, the RAM disk and the CPU frequency driver: they forward calls, copy bytes in bounds, or look a value up in a table.
- Operator and boot-image packing: they concatenate files with headers.
- Driver ioctl sequences, memory mapping and debug file systems: calls into code that cannot be seen.
