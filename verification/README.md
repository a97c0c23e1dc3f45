# RewindOS in Dafny

RewindOS is a small kernel whose purpose is to survive power loss. This project models the parts that carry
that promise and proves what they promise for every input, every run and every crash point:

- the two-slot **task checkpoint** (`Checkpoint*.dfy`, `RestoreLoader.dfy`, `Tasks.dfy`): the binary layout and its
  strict reader, the pending/committed protocol, what is gathered from the tasks, the lifecycle counters and the loader that hands the bytes back;
- the **SRAM snapshot ring** (`Snapshot*.dfy`, `BootSnapshots.dfy`): the running system writes it and a separately
  written bootloader restores it; the ring goes round, and a damaged slot is refused;
- the **RWFS** file store (`Rwfs*.dfy`): append, then switch, with mirrored superblocks; it refines a map;
- the **input journal** (`Journal.dfy`): capture, tail recovery by scanning and ordered replay;
- the **scheduler** (`Scheduling.dfy`, `Scheduler.dfy`) and the **console output path** (`ConsolePath.dfy`,
  `Console.dfy`), the latter shared with the UART interrupt;
- two restorable tasks: **snake** (`SnakeGame.dfy`, `Snake.dfy`) and the **counter** (`CounterEnvelope.dfy`,
  `Counter.dfy`);
- what they stand on: fixed-width numbers (`Words.dfy`), both checksums (`Checksums.dfy`), rings (`Rings.dfy`) and
  the card (`Sd.dfy`).

The card is a sequence of 512-byte blocks. One block write is atomic, a longer write goes block by block in ascending
order, and power may fail between any two block writes; a crash is a prefix of the writes an operation issues. In
general a pure machine states what a component does and carries the theorems, and a class with the
source's loops, buffers and fields is proved to perform that machine's steps. Checksums are opaque in the
protocol proofs and opened only for error detection.

Where the code falls short of a property, the exact condition is proved, with an input on which it fails:

- after the last 32-bit number a new snapshot is not found (`CommitSwitches`, `WrappedSnapshotNotFound`), and neither is
  a new checkpoint (`CommitSelectedExactly`, `WrapSwitchesExactly`, `WrapCrashLosesBest`);
- a saved task whose 16-bit exit counter is about to wrap is dropped by the load (`ItemLetThrough`, `AllKeptExactly`,
  `WrappedCounterDropsTask`);
- two crash points of an RWFS write leave the free pointer behind a live record, the second one only when the superblock
  generation wraps (`CrashConsistentExactly`, `CrashConsistentInStep`, `UnsafeCrashPoints`);
- a journal configured without a snapshot number does not scan, and then writes over a ring that holds records
  (`ConfiguredExactly`, `UnscannedExactly`, `UnscannedAppendExactly`, `UnscannedAppendDiverges`);
- restoring an inactive counter resets it (`ReadersAgreeExactly`, `ReadersDiffer`).

`dafny verify dfyconfig.toml` checks the whole project.

## Model

| member | source | states |
|---|---|---|
| `Fnv.ChecksumUpdate` | src/scheduler/snapshot_task.c:226-233 | updating the checksum over a piece is folding that piece onto the running value |
| `Fnv.FoldAppend` | src/scheduler/snapshot_task.c:226-240 | checksumming a byte string in chunks of any size gives the checksum of the whole |
| `Fnv.StepInjective` | src/common_io/journal.c:65-83 | xor followed by multiplication with the odd prime is injective modulo 2^32, in the state and in the input |
| `Fnv.ChecksumDetects` | src/common_io/journal.c:65-83 | changing exactly one element of any string always changes its checksum |
| `Crc.Crc32Calc` | src/terminal/terminal.c:95-108 | the bit-by-bit loop computes the CRC-32 of section 8 of RFC 1952, given as a fold of 8 rounds per byte |
| `Crc.RoundBijective` | src/terminal/terminal.c:95-108 | one bit round has a two-sided inverse on 32-bit states |
| `Crc.FoldIsRounds` | src/terminal/terminal.c:95-108 | up to four bytes act as one exclusive-or with their little-endian value followed by 8 rounds per byte |
| `Crc.Crc32DetectsBurst` | src/terminal/terminal.c:95-108 | every change confined to four consecutive bytes of any string changes its CRC-32 |
| `Crc.GeneratorIs` | src/terminal/terminal.c:95-108 | the generator behind the polynomial constant is x^32 + x^26 + x^23 + x^22 + x^16 + x^12 + x^11 + x^10 + x^8 + x^7 + x^5 + x^4 + x^2 + x + 1 |
| `Crc.DivisionUnique` | src/terminal/terminal.c:95-108 | division by the generator, lowest bit first, has one quotient and one remainder |
| `Crc.Crc32IsRemainder` | src/terminal/terminal.c:95-108 | for every message and number: the number is the complement of the CRC-32 if and only if it is the remainder of dividing the message, its first 32 bits inverted, by the generator |
| `Sd.ApplyRun` | src/drivers/sd/sd_write_blocks.c:249-261 | a multi-block write leaves its blocks in ascending places and every other block unchanged |
| `Sd.GatherData` | src/drivers/sd/sd_write_blocks.c:249-261 | bytes cut into 512-byte blocks, zero padded, are read back unchanged |
| `Sd.SdCard.WriteBlock` | src/drivers/sd/sd_write_blocks.c:249-261 | one block changes, atomically, and the write is recorded, so that a crash is a prefix of the record |
| `Sd.SealBroken` | src/scheduler/snapshot_task.c:226-240 | one changed byte of a sealed record block, its checksum included, breaks the seal |
| `CheckpointFormat.ReadHeader` | src/terminal/terminal.c:223-235 | the header test: magic, version, committed state, region count, size and the CRC over the header with its own field cleared |
| `CheckpointFormat.ReadRegions` | src/terminal/terminal.c:257-271 | every region lies behind the directory, inside the slot and has its CRC; the end of what is used is their maximum |
| `CheckpointFormat.ReadValid` | src/terminal/terminal.c:195-288 | the reader's verdict on any bytes of either format version is exactly the predicate `Accepts` |
| `CheckpointFormat.HeaderByteChangeRejected` | src/terminal/terminal.c:223-235 | after any change of one header byte an accepted slot is rejected |
| `CheckpointFormat.PayloadBurstRejected` | src/terminal/terminal.c:257-271 | after any change within four consecutive bytes of one region's payload an accepted slot is rejected |
| `CheckpointFormat.AcceptedFields` | src/terminal/terminal.c:223-235 | an accepted slot begins with the mark CPT2, has this version, a header of 64 bytes, the committed state and at most 64 regions |
| `CheckpointImage.BlobInPayload` | src/terminal/terminal.c:466-475 | each saved blob occupies its own stretch of the payload, following the one before it |
| `CheckpointImage.ImageRegion` | src/terminal/terminal.c:852-876 | directory entry k of a saved slot names task k, its version, place, length and CRC, and the bytes there are its blob |
| `CheckpointImage.ImageMeta` | src/terminal/terminal.c:861-874 | the metadata of a saved slot is valid, behind the payload, and holds the running bits and every counter |
| `CheckpointImage.ImageAccepted` | src/terminal/terminal.c:833-905 | the strict reader accepts a saved slot if and only if it has been committed |
| `CheckpointProtocol.BestIsBest` | src/terminal/terminal.c:291-338 | the search over four places yields an accepted one with the largest number, earliest on ties, and nothing only if none is accepted |
| `CheckpointProtocol.BestUnique` | src/terminal/terminal.c:291-338 | that description has one solution, so it determines the search |
| `CheckpointProtocol.OtherPlacesKept` | src/terminal/terminal.c:832-901 | no prefix of a save touches any place but its own slot |
| `CheckpointProtocol.TargetRejectedDuringSave` | src/terminal/terminal.c:888-901 | from the first block write until the commit the slot being written is rejected, whatever lay there before |
| `CheckpointProtocol.CrashKeepsBest` | src/terminal/terminal.c:832-901 | every proper prefix of the block writes of a save leaves the selected checkpoint and its bytes as they were |
| `CheckpointProtocol.CrashKeepsBestExactly` | src/terminal/terminal.c:832-901 | for every card and number: an interrupted save leaves the selected checkpoint selected, with its bytes, if and only if it was not writing over it |
| `CheckpointProtocol.CommitSwitchesBest` | src/terminal/terminal.c:893-901 | the final block-0 write switches selection to the new checkpoint, with the committed bytes |
| `CheckpointProtocol.CommitSelectedExactly` | src/terminal/terminal.c:893-901 | for every card and number: a completed save is selected if and only if its number outranks those of the other places |
| `CheckpointProtocol.WrapSwitchesExactly` | src/terminal/terminal.c:830-836 | with an older checkpoint in the other slot, the next save is selected if and only if the selected number is not 2^32-1, whether the number after it comes from memory (0) or from the card (1) |
| `CheckpointProtocol.WrapCrashLosesBest` | src/terminal/terminal.c:340-352 | slot 0 selected with number 2^32-1: the save numbered from the card writes over it, and any power loss before the commit loses it |
| `CheckpointProtocol.RunSelectsLastCommitted` | src/terminal/terminal.c:743-909 | over every run of saves, power losses at any block boundary, reboots, refused saves and loads, the selected checkpoint is the most recently committed one with unchanged bytes |
| `RestoreLoader.ApplyRegions` | src/kernel/restore_loader.c:16-129 | the loop over the regions makes the callbacks and counts of the walk, and succeeds exactly when none failed |
| `RestoreLoader.WalkCounts` | src/kernel/restore_loader.c:51-129 | for every region list, applied, skipped and failed add up to the number of regions, and only regions offered to their task are applied |
| `RestoreLoader.WalkCountsExactly` | src/kernel/restore_loader.c:51-129 | for every region list: applied counts the regions their task takes, skipped those of registered tasks that take no saved state, and every other region has failed |
| `RestoreLoader.WalkRegisters` | src/kernel/restore_loader.c:51-75 | for every region list, each task that has a descriptor is registered exactly once and no other is |
| `RestoreLoader.WalkCalls` | src/kernel/restore_loader.c:51-113 | a region reaches `restore_fn` exactly when its task is restorable, registered without error at its first region, and version, length and place suit; it then gets exactly the bytes it names |
| `RestoreLoader.WalkAll` | src/kernel/restore_loader.c:51-113 | regions that all suit are handed over one by one in order, and the walk succeeds exactly when every task takes its bytes |
| `CheckpointLifecycle.CollectOk` | src/terminal/terminal.c:418-482 | whatever the callbacks answer, what is gathered comes from running restorable tasks in ascending order within their length bounds, and leaves room for the metadata |
| `CheckpointLifecycle.CollectExactly` | src/terminal/terminal.c:418-482 | a task is gathered if and only if it is restorable, running and able to answer, fewer than eight of smaller id were gathered, its bounds and the room they left allow it, and its answer keeps to both; the bytes and version taken are those `get_state_fn` gave and the descriptor names |
| `CheckpointLifecycle.ActiveExactly` | src/terminal/terminal.c:466-482 | the active word has exactly the bits of the tasks gathered |
| `CheckpointLifecycle.TrackedExactly` | src/terminal/terminal.c:790-798 | a task is tracked if and only if it is restorable and fewer than eight smaller ids are |
| `CheckpointLifecycle.CountersCount` | src/terminal/terminal.c:772-788 | over every sequence of observations the counters are the numbers of appearances and disappearances of the task, modulo 2^16 |
| `CheckpointLifecycle.ObserveBalanced` | src/terminal/terminal.c:772-788 | a save keeps launches minus exits equal to the running bit, modulo 2^16 |
| `CheckpointLifecycle.RunningMeansMoreLaunches` | src/terminal/terminal.c:972-979 | a balanced running task has more launches than exits if and only if its exit counter is not 65535 |
| `CheckpointLifecycle.FilteredIsKept` | src/terminal/terminal.c:951-984 | the regions a load applies describe exactly the saved items that the counters let through, in order |
| `CheckpointLifecycle.ItemLetThrough` | src/terminal/terminal.c:966-984 | a saved item passes the lifecycle filter if and only if its task is untracked or its exit counter is not about to wrap |
| `CheckpointLifecycle.AllKeptExactly` | src/terminal/terminal.c:966-984 | no saved item is dropped if and only if no tracked item's exit counter is about to wrap |
| `CheckpointLifecycle.WrappedCounterDropsTask` | src/terminal/terminal.c:966-984 | a save on which it fails: task 0 running with 65535 exits, dropped by the load |
| `CheckpointLifecycle.LoadRestores` | src/terminal/terminal.c:911-1010 | loading a saved slot calls `restore_fn` once per item let through, in order, with exactly the bytes saved, and succeeds exactly when every such task takes them |
| `CheckpointRuns.SaveOfOk` | src/terminal/terminal.c:743-880 | every save made with balanced counters is one the loader can restore |
| `CheckpointRuns.SeedingRestores` | src/terminal/terminal.c:371-407 | seeding from a saved slot restores the running bits and the counters of every tracked task, so they stay balanced |
| `CheckpointRuns.SeedingWithoutMeta` | src/terminal/terminal.c:371-407 | a slot without metadata seeds the running bits from its header and one launch for exactly the tasks it has a region of |
| `CheckpointRuns.LoadTracks` | src/terminal/terminal.c:911-1010 | a load changes the counters if and only if it finds a checkpoint and every region of it is taken or passed over |
| `CheckpointRuns.NothingExactly` | src/terminal/terminal.c:800-828 | a save is refused if and only if no task can be gathered and no tracked task appeared or went since the last one |
| `CheckpointRuns.LastSaveGathered` | src/terminal/terminal.c:743-909 | over every run the last committed save holds exactly what its kernel's tasks could be asked for when it was made |
| `CheckpointRuns.NextKeepsInv` | src/terminal/terminal.c:743-1010 | each save, interrupted save, load or reboot keeps the machine's invariant; only a save whose last block lands changes what a load finds |
| `CheckpointRuns.RunKeepsInv` | src/terminal/terminal.c:743-1010 | the invariant holds after every run |
| `CheckpointRuns.FreshMachine` | src/terminal/terminal.c:61-67 | power-on with a card on which nothing is accepted satisfies the invariant |
| `CheckpointRuns.RunRestoresLastSave` | src/terminal/terminal.c:743-1010 | over every run from a fresh card, a load finds the last committed save and calls each task let through once, in task order, with exactly the bytes `get_state_fn` gave for the room offered; these are all tasks that could be gathered, unless an exit counter is about to wrap |
| `CheckpointTask.Checkpointer.ReadSlot` | src/terminal/terminal.c:219-221 | reads the blocks of one place into the slot buffer |
| `CheckpointTask.Checkpointer.FindBest` | src/terminal/terminal.c:291-338 | the search loop computes `Best` of the card |
| `CheckpointTask.Checkpointer.SeedSeq` | src/terminal/terminal.c:340-352 | the next number comes from the card once, if the card has a checkpoint |
| `CheckpointTask.Checkpointer.ObserveRunning` | src/terminal/terminal.c:772-788 | the counter loop performs one observation of the running tasks, with 16-bit wrap-around |
| `CheckpointTask.Checkpointer.Entries` | src/terminal/terminal.c:790-798 | the metadata lists the first eight restorable ids with their counters |
| `CheckpointTask.Checkpointer.AskTask` | src/terminal/terminal.c:435-475 | one task is offered the room that is left; a refused answer leaves the payload so far untouched |
| `CheckpointTask.Checkpointer.CollectRegions` | src/terminal/terminal.c:418-482 | the gathering loop fills the payload with exactly the blobs of the items gathered, and lists them |
| `CheckpointTask.Checkpointer.StoreBody` | src/terminal/terminal.c:852-876 | directory and metadata are stored around the payload without overlap |
| `CheckpointTask.Checkpointer.StoreHeader` | src/terminal/terminal.c:887-897 | the header is stored with its own CRC and nothing else changes |
| `CheckpointTask.Checkpointer.WriteSlot` | src/terminal/terminal.c:890-901 | the card receives the sixteen pending blocks and then the committed block 0, in this order |
| `CheckpointTask.Checkpointer.Prepare` | src/terminal/terminal.c:768-888 | the buffer holds the image of the save, unless there is nothing to save |
| `CheckpointTask.Checkpointer.SaveOnce` | src/terminal/terminal.c:743-909 | refused exactly when no task is saved and no tracked task started or ended; otherwise it issues the save's block writes and performs the machine's save |
| `CheckpointTask.Checkpointer.FilterRegions` | src/terminal/terminal.c:951-984 | the filter loop computes the regions let through |
| `CheckpointTask.Checkpointer.SeedTracking` | src/terminal/terminal.c:371-407 | counters come from the metadata, or one launch per region for a slot without it |
| `CheckpointTask.Checkpointer.LoadLatest` | src/terminal/terminal.c:911-1010 | performs the machine's load and reports what the loader did; not found exactly when no place is accepted |
| `SnapshotFormat.RestoreOfCapture` | src/bootmenu/boot_terminal.c:896-1066 | restoring what the writer produced succeeds, copies every captured byte and changes no byte outside the regions |
| `SnapshotFormat.SlotBelongs` | src/bootmenu/boot_terminal.c:766-811 | a snapshot belongs to its slot: the same header block is accepted at one place and size only, the same commit block for one slot only |
| `SnapshotDamage.CopyRegionIs` | src/bootmenu/boot_terminal.c:946-1042 | a region is copied if and only if its start frame is good, its blocks lie in the slot, and the end frame carries the checksum of exactly its bytes |
| `SnapshotDamage.DamagedSlotRefused` | src/bootmenu/boot_terminal.c:896-1066 | a slot that restores is refused after any one byte it relies on has changed: header, payload frames, commit, or data of any region |
| `SnapshotDamage.DamagedCaptureRefused` | src/bootmenu/boot_terminal.c:896-1066 | a completed snapshot in which any one captured byte has changed is not restored |
| `SnapshotFormat.RegionsBlocksCount` | src/scheduler/snapshot_task.c:485-492 | the writer's required-block count is the number of blocks the regions take |
| `SnapshotRing.LatestIsLatest` | src/scheduler/snapshot_task.c:681-714 | the scan yields the accepted slot with the largest number, earliest on ties |
| `SnapshotRing.LatestUnique` | src/scheduler/snapshot_task.c:681-714 | that description determines the scan |
| `SnapshotRing.TargetRejectedDuringWrite` | src/scheduler/snapshot_task.c:856-894 | until the commit block lands the slot being written is not accepted |
| `SnapshotRing.CrashKeepsLatest` | src/scheduler/snapshot_task.c:827-911 | with two slots or more, every interrupted snapshot leaves the latest (slot, seq) unchanged and the commit numbers ordered |
| `SnapshotRing.CommitSwitches` | src/scheduler/snapshot_task.c:827-911 | the commit block makes the new snapshot the latest if and only if the 32-bit number did not wrap |
| `SnapshotRing.WrappedSnapshotNotFound` | src/scheduler/snapshot_task.c:827-911 | a card on which it fails: the only snapshot carries number 2^32-1, and the next one, written and committed, is not found |
| `SnapshotRing.StepKeepsGood` | src/scheduler/snapshot_task.c:827-911 | every prefix of a snapshot write keeps each accepted slot one that the boot restore walk completes on |
| `SnapshotRing.CompleteRestores` | src/scheduler/snapshot_task.c:827-911 | the committed slot restores its capture into any memory and touches nothing else |
| `SnapshotRing.BlankIsGood` | src/scheduler/snapshot_task.c:594-714 | a card without commit blocks is a valid start |
| `SnapshotRing.RunMatchesIdeal` | src/scheduler/snapshot_task.c:827-911 | over every run of complete and interrupted snapshots the scan finds the last completed one, it restores that capture, and every accepted slot is restorable; which slots these are is `RunGoesRound` |
| `SnapshotRounds.NextInRound` | src/scheduler/snapshot_task.c:841-849 | with n snapshots completed the next one goes to slot n modulo the ring size with number n + 1 |
| `SnapshotRounds.AttemptRound` | src/scheduler/snapshot_task.c:827-911 | one attempt, complete or cut short anywhere, takes the ring of the last completed captures to the next such ring |
| `SnapshotRounds.RunGoesRound` | src/scheduler/snapshot_task.c:827-911 | from a blank ring, after every run of complete and interrupted attempts: snapshot k lies in slot k modulo the ring size, with number k + 1 and restoring capture k, for the last `slots` snapshots, the oldest of them only while no later attempt began; no other slot is accepted |
| `SnapshotRounds.RoundOfCompleted` | src/scheduler/snapshot_task.c:827-911 | after n completed snapshots the last min(n, slots) of them are all there, each in its place |
| `SnapshotRounds.OnlyOldestLost` | src/scheduler/snapshot_task.c:827-911 | an attempt takes away no accepted slot but the one with the smallest number, and that one only when every slot is taken |
| `SnapshotTask.MergeWindows` | src/scheduler/snapshot_task.c:373-415 | for every placement, the clipped, sorted and merged windows exclude the same SRAM addresses as the two given ones |
| `SnapshotTask.EmitGaps` | src/scheduler/snapshot_task.c:417-448 | the cursor loop emits the gaps between the windows and their total |
| `SnapshotTask.GapsComplement` | src/scheduler/snapshot_task.c:417-455 | the gaps are ascending, disjoint and exactly SRAM minus the windows; there are none exactly when nothing is left |
| `SnapshotTask.BuildRegions` | src/scheduler/snapshot_task.c:350-461 | capture regions are exactly SRAM minus the union of the windows whenever something is left, all of SRAM otherwise, and total_bytes is their sum |
| `SnapshotTask.AutoFormatFits` | src/common_io/rwos_disk.c:165-229 | on an auto-formatted card the blocks required by any such capture fit the slot's payload |
| `SnapshotTask.WriteData` | src/scheduler/snapshot_task.c:535-553 | a region is written block by block and its checksum is that of the whole region |
| `SnapshotTask.WriteRegion` | src/scheduler/snapshot_task.c:514-572 | a region is framed by a start block and an end block carrying its checksum |
| `SnapshotTask.WritePayload` | src/scheduler/snapshot_task.c:472-590 | the payload is refused, before writing, exactly when it does not fit; otherwise its blocks are written in order |
| `SnapshotTask.WriteSlot` | src/scheduler/snapshot_task.c:856-894 | header, payload and commit are written in this order, the commit only if the payload was |
| `SnapshotTask.SlotValid` | src/scheduler/snapshot_task.c:594-679 | the scanner's check of header, payload and commit blocks at any 32-bit address, a read off the card being a rejection |
| `SnapshotTask.ScanLatest` | src/scheduler/snapshot_task.c:681-714 | the scan loop computes `Latest` for every table |
| `SnapshotTask.Snapshots.ConsumeBootTarget` | src/scheduler/snapshot_task.c:716-758 | the pinned snapshot if it is still valid, else the latest, none for a fresh boot |
| `SnapshotTask.Snapshots.WriteOne` | src/scheduler/snapshot_task.c:827-911 | issues exactly the snapshot's block writes into the slot after the latest, and reports success exactly when the layout is valid and the capture fits |
| `SnapshotTask.Snapshots.WriteCapture` | src/scheduler/snapshot_task.c:472-590 | builds the capture regions and writes the snapshot; on an auto-formatted card this always succeeds |
| `BootSnapshots.SlotIsValid` | src/bootmenu/boot_terminal.c:766-811 | the bootloader's slot check gives the scanner's verdict at every address |
| `BootSnapshots.AcceptedExactly` | src/bootmenu/boot_terminal.c:813-832 | a (slot, seq) is listed exactly when that slot is accepted with that number |
| `BootSnapshots.MenuOrderSorts` | src/bootmenu/boot_terminal.c:747-832 | menu order is the accepted slots, each once, by descending number with the earlier slot first on ties |
| `BootSnapshots.MenuExactly` | src/bootmenu/boot_terminal.c:813-832 | the menu order lists a (slot, seq) exactly when that slot is accepted with that number |
| `BootSnapshots.TakeInsert` | src/bootmenu/boot_terminal.c:747-764 | keeping three entries during the scan equals keeping the three first of the whole order |
| `BootSnapshots.BootStatus.SummaryInsert` | src/bootmenu/boot_terminal.c:747-764 | the in-place shift and store is insertion by rank, truncated to three |
| `BootSnapshots.BootStatus.Scan` | src/bootmenu/boot_terminal.c:718-832 | for every table, with the layout tested in 32-bit arithmetic: the menu holds the first three of the menu order and the count of all accepted slots |
| `BootSnapshots.MenuHeadIsLatest` | src/bootmenu/boot_terminal.c:813-832 | the menu's first entry is the snapshot task's latest snapshot |
| `BootSnapshots.BootStatus.RankToSlot` | src/bootmenu/boot_terminal.c:834-845 | a rank maps to that menu entry, or to nothing past its end |
| `BootSnapshots.BootStatus.SelectCandidate` | src/bootmenu/boot_terminal.c:1068-1105 | the bootloader's choice on any card |
| `BootSnapshots.BootAgreesWithRuntime` | src/bootmenu/boot_terminal.c:1068-1105 | for every card, every layout the bootloader's 32-bit test accepts and every target mode 0..2 bootloader and snapshot task choose the same (slot, seq), or both none |
| `BootSnapshots.RuntimeAsTargeted` | src/scheduler/snapshot_task.c:716-758 | the running system: mode 1 restores nothing, mode 0 the accepted slot with the largest number or nothing if there is none, mode 2 the pinned slot if it is in the ring and accepted with the pinned number or any if that is 0, else as mode 0 |
| `BootSnapshots.BootAsTargeted` | src/bootmenu/boot_terminal.c:1068-1105 | the same for the bootloader on a ready card with a layout it accepts |
| `BootSnapshots.BootUnready` | src/bootmenu/boot_terminal.c:1068-1105 | without a ready card or an acceptable layout only a pin that holds is restored |
| `BootSnapshots.Memory.RestoreData` | src/bootmenu/boot_terminal.c:981-1011 | the copy loop with its checksum performs the walk over one region's blocks |
| `BootSnapshots.Memory.RestoreRegion` | src/bootmenu/boot_terminal.c:948-1041 | one framed region is checked and copied |
| `BootSnapshots.Memory.RestorePayload` | src/bootmenu/boot_terminal.c:896-1066 | the whole restore returns the walk's verdict and memory |
| `JournalFormat.BlockValidate` | src/common_io/journal.c:101-150 | the reader's verdict on any block |
| `JournalFormat.ValidateRecord` | src/common_io/journal.c:228-300 | every record written is accepted and read back unchanged |
| `JournalFormat.SingleByteChangeRejected` | src/common_io/journal.c:101-150 | after any single-byte change in header, payload or tail a valid record is rejected |
| `JournalFormat.ValidMarks` | src/common_io/journal.c:101-150 | only a block that begins with JRNL and has JEND behind its payload is taken for a record |
| `Journal.NewerIsGreater` | src/common_io/journal.c:152-155 | wrap-around comparison orders numbers modulo 2^32 correctly while they are less than half the range apart, as in section 3.2 of RFC 1982 |
| `Journal.AppendHolds` | src/common_io/journal.c:228-300 | one append keeps the ring holding the last records of the history |
| `Journal.BestIsNewest` | src/common_io/journal.c:157-226 | the scan's best-so-far is the newest surviving record among the positions seen |
| `Journal.ScanRecovers` | src/common_io/journal.c:157-226 | after any number of appends to a blank ring, also past the 32-bit wrap, the scan recovers exactly next_lba and next_seq |
| `Journal.ConfiguredExactly` | src/common_io/journal.c:341-354 | configuring takes up the writer's spot if and only if it scans, or the history ends where a blank ring begins |
| `Journal.UnscannedExactly` | src/common_io/journal.c:346-354 | as a caller can see it: for histories below 2^32 records, configuring with snapshot number 0 takes up the writer's spot if and only if no block of the ring validates |
| `Journal.UnscannedAppendExactly` | src/common_io/journal.c:228-355 | after such a take-over and one append the next scan agrees with memory if and only if no block behind the first one validated |
| `Journal.UnscannedAppendDiverges` | src/common_io/journal.c:228-355 | a card on which it fails: two records in a ring of three blocks, taken over with snapshot number 0 and appended to |
| `Journal.BlankHoldsNothing` | src/common_io/journal.c:157-226 | a ring in which no block validates holds the empty history |
| `Journal.StartOfReplay` | src/common_io/journal.c:428-441 | the block at the write position validates exactly when the ring is full, which is where replay must begin there |
| `Journal.ReplayStep` | src/common_io/journal.c:449-478 | step i of the replay meets surviving record i, newer than the one before it, or an unused block after the last |
| `Journal.ReplayLoop` | src/common_io/journal.c:431-503 | on arbitrary media the loop ends and restarts at most once; on a journal ring it visits exactly the surviving records oldest to newest |
| `Journal.Ring.ScanTail` | src/common_io/journal.c:157-226 | sets next_lba and next_seq from the newest record found |
| `Journal.Ring.Configure` | src/common_io/journal.c:317-355 | takes up the scanned spot, or the first block when the snapshot number is 0; for every history the ring holds, it is then in step with it if and only if a snapshot number was given or the history length is a multiple of ring size and 2^32 |
| `Journal.Ring.AppendRecord` | src/common_io/journal.c:228-300 | on any configured ring, in step or not: writes one block at the journal's spot with its number and moves on, scanning first if that is outstanding; a journal in step with a history stays in step; refused while replaying or unconfigured |
| `Journal.Ring.ReplayFromSnapshot` | src/common_io/journal.c:411-507 | from snapshot_seq >= 1 delivers exactly the surviving records whose base is at least that number, oldest first |
| `Journal.CaptureReplays` | src/common_io/journal.c:397-409 | the record of typed bytes replays as one injection of those bytes, that of an acquired input as its acquisition, that of a released one as its release |
| `Journal.HistoryReplays` | src/common_io/journal.c:476-502 | a history of captures based on the snapshot or a later one replays as the captured events, in order |
| `Journal.OlderPassedOver` | src/common_io/journal.c:476-502 | records from before the snapshot replay as nothing |
| `Journal.Ring.FlushPending` | src/common_io/journal.c:302-313 | writes the collected bytes as one record, or keeps them all |
| `Journal.Ring.CaptureByte` | src/common_io/journal.c:365-395 | nothing typed is lost or reordered: the records added and the bytes still collected are those collected before and this one; after the end of a line nothing is left uncollected |
| `Journal.Ring.CaptureOwner` | src/common_io/journal.c:397-409 | adds the record of what was typed before, if anything, and then the record of the change of owner |
| `RwfsFormat.StrEqName` | src/common_io/rwfs.c:164-175 | comparison up to the terminator decides whether a stored name spells the given one |
| `RwfsFormat.PaddedSpells` | src/common_io/rwfs.c:164-187 | a stored name matches itself and no other name |
| `RwfsFormat.ReadOfRecord` | src/common_io/rwfs.c:562-633 | a record written for a file is read back through its entry |
| `RwfsFormat.RecordBelongs` | src/common_io/rwfs.c:562-633 | a record can be read for one name hash, write number, length and checksum only |
| `RwfsFormat.DamagedEntryFreed` | src/common_io/rwfs.c:261-285 | a live index entry with one changed word is not taken for a file |
| `RwfsFormat.DamagedRecordRefused` | src/common_io/rwfs.c:577-632 | a record with one changed byte of data, header or tail is not read |
| `RwfsStore.ReadIsLookup` | src/common_io/rwfs.c:562-633 | reading a name is looking it up in the map the card denotes |
| `RwfsStore.DamagedFileCorrupt` | src/common_io/rwfs.c:562-633 | on a consistent card one changed byte in a file's record makes exactly that file read as corrupt, and every other name reads as before |
| `RwfsStore.FilesCount` | src/common_io/rwfs.c:261-305 | the map has one name per used entry on the card |
| `RwfsStore.CrashReadable` | src/common_io/rwfs.c:440-560 | after every prefix of the block writes the card reads as the old directory or, from the index write on, as the new one |
| `RwfsStore.CrashAtomic` | src/common_io/rwfs.c:440-560 | for every crash point and whichever superblock copy is lost, the written name reads old or new and every other name as before |
| `RwfsStore.BestAfterCrash` | src/common_io/rwfs.c:380-394 | which superblock a mount picks after each crash point, for every generation: between the two superblock writes the old second copy wins if the generation wrapped to 0 |
| `RwfsStore.CrashConsistentExactly` | src/common_io/rwfs.c:542-556 | after a crash the free pointer is past all live records if and only if the crash was neither between the index write and the first superblock write, nor between the two superblock writes with the generation wrapped to 0 and a second copy behind the new record that outranks the first |
| `RwfsStore.CrashConsistentInStep` | src/common_io/rwfs.c:542-556 | when both superblock copies agree, the second of these crash points fails exactly at generation 2^32-1 |
| `RwfsStore.UnsafeCrashPoints` | src/common_io/rwfs.c:542-556 | cards on which it fails: an empty region at any generation cut after the index write, and one at generation 2^32-1 cut between the superblock writes |
| `RwfsStore.WriteRefinesMap` | src/common_io/rwfs.c:440-560 | a completed write updates the map at exactly this name, keeps records disjoint below next_data_lba and advances it by the record's blocks |
| `RwfsStore.FormatIsEmpty` | src/common_io/rwfs.c:307-355 | a formatted region is consistent and denotes the empty map |
| `Rwfs.SlotForTarget` | src/common_io/rwfs.c:411-438 | there is an entry for a name exactly when the file exists or fewer than 32 names do |
| `Rwfs.WriteRefines` | src/common_io/rwfs.c:440-560 | one write is one step of the map, and a refused write leaves the map unchanged |
| `Rwfs.WriteRcExactly` | src/common_io/rwfs.c:440-560 | what a write answers, told from the map: bad name, no space left, or no room for another name, in this order, and success otherwise |
| `RwfsRuns.RunRefines` | src/common_io/rwfs.c:261-661 | over every run of completed and interrupted writes, formats, mounts, reads and lists: each name reads as the bytes of the last write whose index entry landed, the listing is exactly the map, at most 32 names exist although 34 entries are configured, and the store stays consistent |
| `RwfsRuns.StepRefines` | src/common_io/rwfs.c:261-661 | one such event is one step of the map, a refused write none |
| `RwfsRuns.SafeExactly` | src/common_io/rwfs.c:440-560 | the crash points a run may contain are exactly those after which the card is consistent again |
| `RwfsRuns.LandedAll` | src/common_io/rwfs.c:440-560 | a write with all its block writes landed is the write operation's result |
| `RwfsRuns.FormattedIsSound` | src/common_io/rwfs.c:307-355 | a formatted region is a start for such a run, with the empty map |
| `Rwfs.ListIsMap` | src/common_io/rwfs.c:635-661 | the listing has one row per name of the map with its size and write count |
| `Rwfs.RowsAreList` | src/common_io/rwfs.c:635-661 | the rows collected from memory are that listing |
| `Rwfs.Store.ReadIndex` | src/common_io/rwfs.c:261-285 | memory gets the 32 entries of the index the superblock points at, damaged ones freed; fails exactly when a block of it is off the card |
| `Rwfs.Store.FormatRegion` | src/common_io/rwfs.c:307-355 | issues the format writes and leaves an empty table |
| `Rwfs.Store.InitOrMount` | src/common_io/rwfs.c:357-409 | for every card: formats a region that holds no file system; otherwise writes nothing and takes the chosen superblock and the index it points at, failing exactly when that index is off the card |
| `Rwfs.Store.FindEntry` | src/common_io/rwfs.c:411-425 | the first live entry with this name |
| `Rwfs.Store.FindFree` | src/common_io/rwfs.c:427-438 | the first free entry; one of the two unbacked ones if the card's are taken |
| `Rwfs.Store.WriteRecord` | src/common_io/rwfs.c:474-527 | appends header, data blocks and tail in order |
| `Rwfs.Store.WriteAll` | src/common_io/rwfs.c:440-560 | on every card whose valid superblocks are this region's, consistent or not: exactly the block writes that superblock and index determine; on a consistent card one step of the map |
| `Rwfs.WritesForResult` | src/common_io/rwfs.c:440-560 | on a consistent card these block writes are the protocol's, and the attempt is accepted exactly when the map accepts it |
| `Rwfs.PlaceIsSlot` | src/common_io/rwfs.c:411-438 | on a readable card the entry found in memory is the one the directory gives the name |
| `Rwfs.Store.ReadEntry` | src/common_io/rwfs.c:577-632 | reads and checks the record behind an entry |
| `Rwfs.Store.ReadAll` | src/common_io/rwfs.c:562-633 | returns the file's bytes, or the error that fits: bad name or buffer, not found, corrupt |
| `Rwfs.Store.List` | src/common_io/rwfs.c:635-661 | up to cap rows of the listing and the number of live files |
| `Scheduling.PickIsNearestTop` | src/scheduler/scheduler.c:19-53 | the pick has the highest ready priority and is the nearest of its peers after the cursor; there is one exactly when some task is ready |
| `Scheduling.DoKeepsFlags` | src/scheduler/scheduler.c:151-282 | register, unregister, post, pause, resume and flush keep each ready flag exact, also during a dispatch |
| `Scheduling.IterateKeepsFlags` | src/scheduler/scheduler.c:284-315 | an iteration with any dispatch, including one that unregisters its own task, keeps ready flags exact |
| `Scheduling.IterateKeepsOrder` | src/scheduler/scheduler.c:284-315 | an iteration with any dispatch keeps accepted == delivered ++ queued for every task |
| `Scheduling.RunKeepsQueues` | src/scheduler/scheduler.c:138-328 | in every run, between iterations, a ready bit is set exactly for registered ids with a non-empty queue, and until a drain accepted events equal delivered ones followed by the queue, in order |
| `Scheduling.RunKeepsEnrolled` | src/scheduler/scheduler.c:151-282 | in every run an id is registered exactly while its last accepted registration was not undone; it has the priority and capacity asked for then, takes events unless paused since, and never holds more than its capacity |
| `Scheduling.RunAnswers` | src/scheduler/scheduler.c:151-282 | in every run every operation is answered as the history says: a post fails exactly for an id out of range, not registered, paused, or with as many undelivered events as it asked room for |
| `Scheduling.PickHasTopRegistration` | src/scheduler/scheduler.c:284-302 | in every run no iteration picks a task while one registered with a larger priority is ready |
| `Scheduling.DistanceFalls` | src/scheduler/scheduler.c:37-53 | a pick between the cursor and x makes (x - cursor - 1) mod 32 strictly smaller |
| `Scheduling.BoundedBypass` | src/scheduler/scheduler.c:19-53 | while a task waits, however iterations, dispatches and interrupts interleave, at most 31 others of its priority are dispatched, each at most once, and none of lower priority |
| `Scheduler.EventQueue.Push` | src/scheduler/scheduler.c:69-86 | appends to the queue, or refuses when full and counts the drop |
| `Scheduler.EventQueue.Pop` | src/scheduler/scheduler.c:101-118 | removes the oldest event |
| `Scheduler.EventQueue.Drain` | src/scheduler/scheduler.c:126-135 | empties the queue |
| `Scheduler.Core.RegisterTask` | src/scheduler/scheduler.c:151-204 | accepted exactly for a complete specification with id and priority below 32, a capacity above 0 and an id not in use; then the id has that priority and capacity, takes events and has an empty queue, and every other id, the ready flags and the cursors are as before; a refusal changes nothing |
| `Scheduler.Core.UnregisterTask` | src/scheduler/scheduler.c:206-225 | performs the machine's unregister: queue drained, flag cleared |
| `Scheduler.Core.PostEvent` | src/scheduler/scheduler.c:227-258 | performs the machine's post and leaves every other task alone |
| `Scheduler.Core.PauseAccept` | src/scheduler/scheduler.c:260-270 | performs the machine's pause |
| `Scheduler.Core.ResumeAccept` | src/scheduler/scheduler.c:272-282 | performs the machine's resume |
| `Scheduler.Core.FlushQueues` | src/scheduler/scheduler.c:317-328 | performs the machine's flush of all registered queues |
| `Scheduler.Core.HighestReadyPrio` | src/scheduler/scheduler.c:19-35 | the loop finds the highest ready priority, or -1 |
| `Scheduler.Core.FindReady` | src/scheduler/scheduler.c:37-53 | the loop finds the first candidate going round from the cursor |
| `Scheduler.Core.Choose` | src/scheduler/scheduler.c:291-302 | the picked task, with only its priority's cursor moved |
| `Scheduler.Core.RunOnce` | src/scheduler/scheduler.c:284-315 | one pass of the run loop performs the machine's iteration for whatever the dispatch does |
| `ConsolePath.NextWakeful` | src/scheduler/console_task.c:43-116 | every step keeps: pending messages have a queued event or an armed interrupt, a non-empty ring has TXEIE set, a posted wake-up is still queued or being served |
| `ConsolePath.NextConserves` | src/drivers/uart/uart_async.c:96-115 | every step keeps sent ++ ring ++ unsent tails equal to everything accepted |
| `ConsolePath.RunKeepsInv` | src/scheduler/console_task.c:43-116 | both hold under every interleaving of enqueue, dispatch and interrupt steps with any status flags |
| `ConsolePath.WorkFalls` | src/scheduler/console_task.c:43-116 | without new messages every step that changes anything leaves strictly less to do |
| `ConsolePath.NeverStuck` | src/drivers/uart/uart_async.c:96-115 | while bytes are unsent some step is available that changes the state |
| `ConsolePath.SettleSendsAll` | src/drivers/uart/uart_async.c:96-115 | from every reachable state all accepted bytes reach the wire, in order |
| `ConsolePath.RunSendsPromised` | src/scheduler/console_task.c:59-116 | after every interleaving, what reaches the wire in the end is, in order, the first 96 bytes of every text that met fewer than 64 waiting messages |
| `ConsolePath.BoundedWork` | src/scheduler/console_task.c:43-116 | in every order of interrupts and tasks, without new messages only boundedly many steps change anything |
| `Console.Output.Interrupt` | src/drivers/uart/uart_async.c:96-115 | performs the machine's interrupt, both branches on the control bits read at entry |
| `Console.Output.PutByte` | src/drivers/uart/uart_async.c:148-169 | appends one byte to the transmit ring and arms TXEIE |
| `Console.Output.KickTask` | src/scheduler/console_task.c:43-57 | posts a wake-up unless one is on its way; afterwards an event is queued even when the post failed |
| `Console.Output.Enqueue` | src/scheduler/console_task.c:59-90 | refuses empty texts and a full ring, otherwise accepts the text truncated to 96 bytes, also when the kick reports an error |
| `Console.Output.Dispatch` | src/scheduler/console_task.c:92-116 | the nested loops, with interrupts between any two steps, perform the machine's dispatch and leave no wake-up claimed |
| `Console.Output.WriteText` | src/scheduler/console_task.c:176-195 | success means the whole text was accepted in pieces; otherwise a prefix was |
| `SnakeGame.ProbeReaches` | src/scheduler/snake_task.c:294-303 | the probe start + 97 step mod 240 reaches every cell, 97 and 193 being inverse modulo 240 |
| `SnakeGame.SomeCellFree` | src/scheduler/snake_task.c:294-308 | fewer than 240 cells leave one free |
| `SnakeGame.SpawnFinds` | src/scheduler/snake_task.c:280-308 | food is placed on the board off the snake whenever the snake is shorter than 240 |
| `SnakeGame.AdvanceCells` | src/scheduler/snake_task.c:487-496 | the ring after a move is the old snake without its tail, or with it when growing, followed by the new head |
| `SnakeGame.NeverOntoNeck` | src/scheduler/snake_task.c:447-479 | a step in a direction not opposite to the last one never leads to the neck |
| `SnakeGame.StepKeepsInv` | src/scheduler/snake_task.c:435-510 | a step keeps the whole invariant, whether it moves, eats, wins or dies |
| `SnakeGame.StepExactly` | src/scheduler/snake_task.c:435-510 | a tick of a running game moves the head one cell in the direction last chosen: off the board the game ends with reason 1, on the food the snake grows by one and the game is won with reason 3 when 240 cells are covered, on any body cell but the tail it ends with reason 2, else the whole snake moves |
| `SnakeGame.StepIdle` | src/scheduler/snake_task.c:435-446 | a tick without a running game changes nothing |
| `SnakeGame.PressExactly` | src/scheduler/snake_task.c:544-587 | w, d, s and a choose up, right, down and left unless that is opposite to the last move, p pauses and resumes, q stops, r starts again, every other key does nothing |
| `SnakeGame.StartExactly` | src/scheduler/snake_task.c:310-333 | a new game has three cells in row 6 heading right, no score and food on a free cell |
| `SnakeGame.PressKeepsInv` | src/scheduler/snake_task.c:544-587 | every key keeps the invariant |
| `SnakeGame.InvIsValid` | src/scheduler/snake_task.c:150-196 | every state of the invariant passes the restore check |
| `SnakeGame.EncodeDecode` | src/scheduler/snake_task.c:207-240 | encoding succeeds exactly for a valid game with room for 504 bytes, decoding it gives the game back, and an invalid game is refused by both |
| `SnakeGame.EveryRun` | src/scheduler/snake_task.c:267-587 | in every run of starts, ticks, keys, stops and save-restores: cells distinct, on the board and adjacent, head never onto neck, score is length minus 3, food off the body until the board is full, won exactly when it is, and the restore check passes |
| `Snake.CheckState` | src/scheduler/snake_task.c:150-196 | the nested loops decide the restore check |
| `Snake.Task.CellOccupied` | src/scheduler/snake_task.c:267-278 | the loop decides whether a cell is on the snake, with or without the tail |
| `Snake.Task.PlaceFood` | src/scheduler/snake_task.c:280-308 | places food on the first free cell of the probe, or declares a win |
| `Snake.Task.StartGame` | src/scheduler/snake_task.c:310-333 | performs the start of a game |
| `Snake.Task.Step` | src/scheduler/snake_task.c:435-510 | performs the machine's step on the body ring in place |
| `Snake.Task.Press` | src/scheduler/snake_task.c:544-587 | performs the key handling |
| `Snake.Task.RestoreState` | src/scheduler/snake_task.c:589-613 | takes over a valid saved game and refuses any other |
| `Snake.Task.Dispatch` | src/scheduler/snake_task.c:512-587 | every start request, tick and key performs the machine's event and keeps the invariant |
| `CounterEnvelope.InOrderSorts` | src/scheduler/counter_task.c:412-431 | the order of effect is a rearrangement of the entries with ascending numbers |
| `CounterEnvelope.InOrderPermutation` | src/scheduler/counter_task.c:412-431 | entries with distinct numbers take effect in the same order however they are placed |
| `CounterEnvelope.DecodePermutation` | src/scheduler/counter_task.c:380-487 | two envelopes with equal headers whose entries, numbered distinctly, are rearranged decode to the same state, or both fail |
| `CounterEnvelope.EntriesOfEnvelope` | src/scheduler/counter_task.c:100-174 | the reader finds in an encoded envelope exactly the entries written |
| `CounterEnvelope.DecodeEncoded` | src/scheduler/counter_task.c:100-174 | decoding an encoded envelope is folding the operations in order over the saved state, with the clamping of each operation |
| `CounterEnvelope.ResultIs` | src/scheduler/counter_task.c:456-476 | sum and product modulo 2^32, the difference if positive and 1 otherwise, the quotient but at least 1; division by 0 and every other code refused |
| `CounterEnvelope.ApplyOpIs` | src/scheduler/counter_task.c:456-479 | an operation changes the value alone, to its result or to the limit if there is one and it is smaller |
| `CounterEnvelope.DecodedExactly` | src/scheduler/counter_task.c:412-487 | entries have a meaning if and only if every number is usable and the pending ones, in order, begin with a setting of the state and are all settings of 16 bytes or applicable operations of 8; the meaning is the last state set with the operations behind it applied |
| `CounterEnvelope.DecodeExactly` | src/scheduler/counter_task.c:380-487 | a blob has a meaning if and only if it is a bare state of 16 bytes, or at least 376 bytes marked ENV1, version 1, task 4, with one to eight entries that have one |
| `Counter.EncodeEnvelope` | src/scheduler/counter_task.c:100-174 | fills the buffer with the envelope and nothing behind it; refused for more than seven operations or a short buffer |
| `Counter.ChoiceIsMin` | src/scheduler/counter_task.c:416-431 | the entry the selection loop finds is the next one in order |
| `Counter.NextEntry` | src/scheduler/counter_task.c:417-427 | the selection loop finds the unconsumed entry with the smallest number below 0xFFFFFFFF, the first on ties |
| `Counter.Inspect` | src/terminal/terminal.c:484-605 | the inspector computes the blob's meaning for every blob |
| `Counter.Task.Restore` | src/scheduler/counter_task.c:380-522 | the restore function accepts the same blobs, applies the same meaning, and leaves the counter alone when it refuses |
| `Counter.Task.RestoreState` | src/scheduler/counter_task.c:62-85 | an inactive state resets the counter to zero, an active one is kept with its step flag cleared and its next tick one period from now |
| `Counter.ReadersAgreeExactly` | src/scheduler/counter_task.c:488-503 | restored and inspected counter agree in value, limit, mode and active flag if and only if the decoded counter is active or all zero |
| `Counter.ReadersDiffer` | src/terminal/terminal.c:600-604 | an accepted blob on which they differ: an inactive counter that stands at 7 |
| `Counter.SavedCounterRestored` | src/scheduler/counter_task.c:100-174 | saving an active counter and restoring it yields the folded operations' result with limit and mode kept |

## Left out

- SDMMC, UART receive, clocks, interrupt controller, assembly and image jump: hardware is reduced to reading and writing a block, and to the two transmit status flags.
- I/O errors: reads succeed and a failed write counts as a crash; a checkpoint save that continues after a write error skips a number (src/terminal/terminal.c:836) and is not modelled.
- Boot menu screens, shell commands, rendering, statistics and all printing: user interface.
- Runs past the end of the 32-bit checkpoint and snapshot numbers: the step at the end is characterised, the run theorems stop before it.
- Cards that carry a checkpoint in the slot of the wrong parity: the run theorems start from cards written by this protocol, where odd numbers live in slot 0.
- Snapshot rings with one slot, and commit blocks left over from an earlier format: outside the crash-safety hypothesis.
- Isolation between the checkpoint's fixed block addresses and the partition layout: each protocol has its own card here.
- RWFS files after a crash at one of the two unsafe crash points: the next write's block writes are given, what becomes of the record they run into is not.
- RWFS files so long that length or block address overflow 32 bits, and cards with a valid superblock of another region: a mount of those is modelled, reads and writes on them are not.
- Memory that changes during capture, the writer's own block buffer inside a captured region, and a restore buffer inside a restored region.
- The suppression of replayed input bytes when they are captured again, and the record of the last snapshot in the partition table.
- Interrupts that land inside a post or between the scheduler's emptiness test and its flag clear: these pairs are atomic steps.
- Scheduler tasks registered with queue storage shared between tasks: each registration brings its own storage.
- Console output while the sink is the log, and events other than kick and transmit-ready in the console's queue.
- Descriptor callbacks: what they answer is data. A state callback fills the window it is offered and reports any verdict and length; its side effects are not modelled.
- Bitmaps are sequences of flags; where a bitmap is stored on the card it is converted to its word.
- The padding byte of a saved counter state is a parameter, and reserved bytes of a counter operation are zero.
- Snake's tick-pending, redraw and input-focus flags: they do not enter the saved game. The assembly line task, log ring, line editor, number parsing and boot handoff take no part in the storage, scheduling and output paths above.
- SnapshotTask.Snapshots.WriteOne: tests the layout over unbounded integers, so a table whose slots times blocks or end address wraps in 32 bits is refused here and accepted by the source, which then writes at wrapped addresses.
- SnapshotTask.Snapshots.WriteCapture: as WriteOne.
