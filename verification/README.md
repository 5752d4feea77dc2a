# Verified model of the LetRecovery core

This project models the parts of LetRecovery where a mistake costs user data, and proves what they keep:
publishing a backup image so that a crash at any point loses nothing, planning partitions around a volume
that must survive, spreading an install payload over existing volumes, deploying a boot shim on two
firmware entries, and the smaller algorithms around them.

`dafny verify dfyconfig.toml` checks all of it.

| file | models |
|---|---|
| `PublishNames.dfy` | the names a publication accepts |
| `PublishJournal.dfy`, `Text.dfy` | the checksummed journal and the receipt directory name of a publication, down to CRLF framing, decimals and hexadecimal |
| `PublishProtocol.dfy` | publication, rollback and recovery as a transition system over durable state, with a stop possible after every effect and foreign files that appear at an empty target |
| `PublishVolume.dfy` | the imperative publish, rollback and recovery code as a class whose operating system answers from a script; the end of the script is a stop |
| `FullDiskLayout.dfy` | the full-disk planner, with and without a preserved staging extent |
| `ScatterVolumes.dfy`, `ScatteredStaging.dfy`, `ImageChunks.dfy` | the scattered-staging planner, and the cutting of an image into chunks |
| `StagingSelection.dfy` | the choice of one staging volume, or of a shrink |
| `SurfaceMask.dfy`, `CivilDate.dfy` | the flood fill over a theme frame, and the conversion of days to civil dates |
| `EfiSignatureDatabase.dfy`, `UefiSeven.dfy` | the EFI signature database parser, and the two-entry file transaction of the UefiSeven shim |
| `WorkerMessages.dfy` | the coalescing of worker messages per poll, over the real progress state |
| `ApplyCapacity.dfy` | the choice of a compression mode for a target |
| `MachineIntegers.dfy`, `Wrappers.dfy` | machine integers, units of size and division, and option and result types |

What a member depends on and cannot see is a parameter: the text digest of the journal (SHA-256) is any
function, the identity of the file system's objects is data, the answers of the operating system and the
points where the machine stops are a script, and a time slice is a number of messages.

## What the proofs found

- **Recovery is decided exactly, for every disk it can meet.** After a stopped publication without foreign
  files, and with images that can be named and observed, it refuses in two cases only: a torn journal, and an
  old image that a hard-link move left under both of its names. Runs that reach both are given, and in both the
  target is as it was. Of the disks that carry a complete journal, the refused ones have a foreign file at the
  target, the doubly linked old image, or a rollback behind them that stopped between deleting the staged
  image and deleting the journal; a request for another mode is refused, too, and with a receipt only that is.
  Without journal and receipt, with valid names and any staged image on the session's volume, the target
  decides: a create is refused when it is present, the others when it is missing, unobservable or elsewhere.
- **Committed is answered once when no receipt was written.** A publication that stops between its moves and
  the receipt is recovered as Committed, and that recovery deletes the journal without renaming the directory.
  Asked again, a create is refused and a replace or append answers RolledBack (or is refused when the image is
  not on the session's volume), although the new image stays at the target. Runs that reach both are given.
  With a receipt every later call for its mode answers Committed.
- **A failed move is undone, with one exception.** When the moves fail through a single fault that leaves no
  doubt about what it did, live rollback fails exactly when the old image was linked under both names: it
  renames the private name back onto a target that still exists. A failure while the journal is written or
  behind the moves is not undone but left to recovery.
- **Coalescing is not exact.** The overall bar only moves forward, so a percentage that is superseded within
  one poll can be lost from it: 90 then 50 shows 44 instead of 74. Which message sequences are shown exactly
  is stated for every batch, from the messages, the steps and the initial bar; everything else agrees, and
  percentages that do not fall lose nothing.
- **A rollback of the two-entry transaction can delete a file.** Snapshot reads of the saved loader and of
  the configuration take a failed read for a missing file; a rollback that then reports success deletes it.
  An installation that does so is given. The rollback equals the prior state exactly when no snapshot read
  of an existing file failed.
- **The chunk planner's test is weaker than what copying needs.** It asks for total room; copying needs the
  chunk room, which is stated exactly. Split parts, too, can be refused although they fit, which the
  planner's own comment denies.
- **The layout choice is always the closer one.** The planner compares two layouts by the Windows size after
  cleanup; the 4 GiB behind the staging start that the base planner asks for are implied whenever the
  recipient layout is possible.

## Model

| member | source | states |
|---|---|---|
| `PublishProtocol.RunKeepsInvariant` | lr-core/src/backup_atomic_publish.rs:1070-1274 | every state of every run of durable effects (publishing, live rollback, recovery at any point, foreign files at an empty target) keeps one invariant: which object may be under which name, when the journal must be complete, and that nothing is lost |
| `PublishProtocol.StepKeepsInvariant` | lr-core/src/backup_atomic_publish.rs:1182-1272 | each single durable effect keeps that invariant |
| `PublishProtocol.NeverLosesTheOldImage` | lr-core/src/backup_atomic_publish.rs:1182-1231 | in every reachable state of a replace or append, the old image is at the target or at the previous slot, or the new image is at the target and nowhere else |
| `PublishProtocol.NeverClobbersForeignFile` | lr-core/src/backup_atomic_publish.rs:1822-1899 | a foreign file that once appeared at the target is there with the same object and bytes in every later state |
| `PublishProtocol.TargetIsNeverPartial` | lr-core/src/backup_atomic_publish.rs:1190-1231 | apart from foreign files the target holds at all times nothing, the whole old image or the whole new one |
| `PublishProtocol.ReceiptIsFinal` | lr-core/src/backup_atomic_publish.rs:502-541 | once the receipt directory name is durable, the target keeps the new image for the rest of the run |
| `PublishProtocol.ClassifyIsExact` | lr-core/src/backup_atomic_publish.rs:1431-1499 | classifying a slot by file id tells the two images apart from each other and from foreign files, and can fail only on a foreign file |
| `PublishProtocol.RefusesExactly` | lr-core/src/backup_atomic_publish.rs:1344-1371 | recovery refuses a reachable prepared disk if and only if a foreign file is at the target, the old image is under both of its names, or an earlier rollback has already deleted the staged image |
| `PublishProtocol.CommitsExactly` | lr-core/src/backup_atomic_publish.rs:1344-1371 | recovery decides Committed if and only if the new image is at the target and nowhere else |
| `PublishProtocol.StoppedPublicationIsDecided` | lr-core/src/backup_atomic_publish.rs:1344-1371 | for a publication stopped anywhere without foreign files, the exact condition for refusal and for commit |
| `PublishProtocol.OldLinkedTwiceIsReachable` | lr-core/src/backup_atomic_publish.rs:2077-2104 | from every initial disk of a replace or append, a legal run ends with the old image under both of its names, which recovery refuses |
| `PublishProtocol.TornJournalIsReachable` | lr-core/src/backup_atomic_publish.rs:1161-1174 | from every initial disk, a legal run ends with any proper prefix of the journal, which is no journal |
| `PublishProtocol.HalfRecoveredIsReachable` | lr-core/src/backup_atomic_publish.rs:1404-1418 | from every initial disk, a legal run ends between the two deletions of a rollback by recovery, on a disk that every later recovery refuses |
| `PublishVolume.BackupVolume.Rename` | lr-core/src/backup_atomic_publish.rs:1822-2125 | rename without replacing, in one step or by hard link and delete: the target state on success, on failure and on a stop between the two steps |
| `PublishVolume.BackupVolume.LinkThenDelete` | lr-core/src/backup_atomic_publish.rs:2024-2125 | the hard-link fallback: the object is under both names or only the new one, at every stop; it succeeds without faults |
| `PublishVolume.BackupVolume.DeleteSlot` | lr-core/src/backup_atomic_publish.rs:2206-2227 | a delete removes the one name or nothing, and succeeds without faults |
| `PublishVolume.BackupVolume.MarkCommitted` | lr-core/src/backup_atomic_publish.rs:502-541 | the directory rename is all or nothing, and the new name is the receipt of this publication |
| `PublishVolume.BackupVolume.ReadReceipt` | lr-core/src/backup_atomic_publish.rs:463-500 | an uncommitted directory reads as no receipt, a committed one as exactly the mode and identity published |
| `PublishVolume.BackupVolume.MoveImages` | lr-core/src/backup_atomic_publish.rs:1182-1204 | whatever the answers of the system, the state between the two renames is one of the listed ones, and the flags say how far it came; after one fault that leaves no doubt they are accurate |
| `PublishVolume.BackupVolume.RollbackNewPublication` | lr-core/src/backup_atomic_publish.rs:2128-2190 | undoing the second move, by rename or by removing the public link: without further faults it succeeds if and only if the new image is at the target, and then the target is free and the image private again |
| `PublishVolume.BackupVolume.RollbackLive` | lr-core/src/backup_atomic_publish.rs:1275-1304 | without further faults the rollback succeeds if and only if the flags are accurate, the old image is not under both names and nothing foreign is in its way; then every slot is as before anything moved |
| `PublishVolume.BackupVolume.CleanupJournal` | lr-core/src/backup_atomic_publish.rs:1611-1623 | the journal goes exactly when it still is the one written and the delete works; a changed one is left alone |
| `PublishVolume.BackupVolume.Undo` | lr-core/src/backup_atomic_publish.rs:1205-1229 | the end of a failed publication: rolled back with the journal removed, rolled back with the journal left, or rollback not proven, and which of them follows from the state |
| `PublishVolume.BackupVolume.MoveAndCommit` | lr-core/src/backup_atomic_publish.rs:1182-1272 | behind the durable journal: success without faults; with one fault, success, an undone publication, a failure behind the commit point, or the unprovable rollback of an old image linked twice |
| `PublishVolume.BackupVolume.Commit` | lr-core/src/backup_atomic_publish.rs:1232-1272 | behind the renames: receipt, then the previous image, then the journal; every stop leaves a state that recovery commits |
| `PublishVolume.BackupVolume.LockOld` | lr-core/src/backup_atomic_publish.rs:1117-1147 | the image to replace is accepted exactly when it is the expected one, and a create target only when it is absent |
| `PublishVolume.BackupVolume.DescribeJournal` | lr-core/src/backup_atomic_publish.rs:1149-1160 | the journal written describes this publication, and is refused only beyond the byte limit |
| `PublishVolume.BackupVolume.Publish` | lr-core/src/backup_atomic_publish.rs:1070-1274 | every end of publishing and the disk it leaves: succeeded, declined with nothing changed, journal not written, failed and undone with everything as it was, undone but for the journal, rollback not proven, failed behind the moves; declined exactly when the request does not match the images found or a create target exists; without faults it succeeds; with one fault the rollback can fail only for an old image linked twice |
| `PublishVolume.BackupVolume.Diagnose` | lr-core/src/backup_atomic_publish.rs:1314-1371 | recovery refuses and decides exactly as the decision table over the three slots says |
| `PublishVolume.BackupVolume.RestoreTarget` | lr-core/src/backup_atomic_publish.rs:1372-1409 | rolling back puts the target back from the classified slots |
| `PublishVolume.BackupVolume.RollBackSlots` | lr-core/src/backup_atomic_publish.rs:1372-1413 | rolling back leaves no private image and the old image, or nothing, at the target |
| `PublishVolume.BackupVolume.RecoverPrepared` | lr-core/src/backup_atomic_publish.rs:1314-1425 | a refusal changes nothing; a result is the decision of the slots found, and the disk is settled accordingly |
| `PublishVolume.BackupVolume.RollbackUnprepared` | lr-core/src/backup_atomic_publish.rs:792-905 | a session without journal and receipt loses at most its staged image; it is refused exactly when a name is invalid, a create target is present or another one missing, unobservable or on another volume, or the staged image is on another volume |
| `PublishVolume.BackupVolume.ConfirmReceipt` | lr-core/src/backup_atomic_publish.rs:691-790 | a committed session without a journal answers Committed for the mode of its receipt |
| `PublishVolume.BackupVolume.Recover` | lr-core/src/backup_atomic_publish.rs:691-790 | the whole call, for every disk that any run can leave and every requested mode: exactly which disks are refused, with nothing changed; what a finished recovery answers and the disk it leaves; a journal once gone stays gone and the target is then left alone; undisturbed, it finishes; after a stopped publication without foreign files, refused exactly for a torn journal, an old image linked twice or images that cannot be named, and otherwise Committed with the new image or RolledBack with the target as before |
| `PublishVolume.BackupVolume.PublishThenRecover` | lr-core/src/backup_atomic_publish.rs:1070-1425 | publishing any request under any script without foreign files and then recovering undisturbed: what publishing did, the disk it left, and exactly what recovery answers on that disk, Committed or RolledBack with an empty session, or refused with nothing changed |
| `PublishVolume.RequestMatchesExactly` | lr-core/src/backup_atomic_publish.rs:1085-1147 | the requests that publication has no reason to refuse, for target names of at most 500 characters: a valid component, a staged extension "wim" or "esd", a target that ends in a dot and that extension in any case, and images that are not empty, have an id, lie on the volume and have the expected length and digest |
| `PublishVolume.PublishMatching` | lr-core/src/backup_atomic_publish.rs:1070-1274 | every such request of a fresh session succeeds under every script of at least eight answers without faults and foreign files, and leaves the new image alone at the target and the receipt of exactly this publication |
| `PublishVolume.PublishBackupWim` | lr-core/src/backup_atomic_publish.rs:1070-1274 | a session for "backup.wim" with a staged "wim" publishes every observable new image |
| `PublishVolume.BackupVolume.RecoverRepeatedly` | lr-core/src/backup_atomic_publish.rs:691-790 | any number of recovery calls, each with its own request and script and a foreign file that may appear before it, form a chain in which every call is one whole recovery on the disk its predecessor left |
| `PublishVolume.FinishedIsStable` | lr-core/src/backup_atomic_publish.rs:691-790 | behind a finished call of such a chain no later call changes anything, whatever it is asked and however it ends; only a foreign file may appear at an empty target in between |
| `PublishVolume.AnswersBehindFinished` | lr-core/src/backup_atomic_publish.rs:691-790 | what every later call answers: Committed with a receipt; without one, refused exactly by the state of the target, and otherwise RolledBack |
| `PublishVolume.CommittedIsAnsweredOnce` | lr-core/src/backup_atomic_publish.rs:855-905 | without a receipt, behind a Committed answer every later create recovery is refused and every other one answers RolledBack, or is refused when the image is on another volume, with the new image at the target throughout |
| `PublishVolume.CommittedCreateIsRefusedLater` | lr-core/src/backup_atomic_publish.rs:1416-1424 | from every initial disk of a create, a legal run ends behind such an answer, on a disk that a create recovery refuses |
| `PublishVolume.CommittedReplaceIsRolledBackLater` | lr-core/src/backup_atomic_publish.rs:1416-1424 | from every initial disk of a replace or append, a legal run ends behind such an answer, on a disk whose recovery answers RolledBack |
| `PublishNames.MatchingExtensionIs` | lr-core/src/backup_atomic_publish.rs:1549-1558 | a target named by a non-empty text, a dot and an extension without dots matches exactly the staged extensions equal to it in length and, character by character, up to ASCII case |
| `PublishNames.MatchingExtensionExactly` | lr-core/src/backup_atomic_publish.rs:1549-1558 | of all names, exactly those of that form match; a name without a dot, or with only a leading one, matches nothing |
| `PublishNames.ReservedDeviceNameExactly` | lr-core/src/backup_atomic_publish.rs:1526-1534 | a name is reserved if and only if it is one of the 22 DOS device names, in any case, alone or in front of a dot |
| `PublishNames.ValidComponentExactly` | lr-core/src/backup_atomic_publish.rs:1515-1536 | a component is valid if and only if it is not empty, has no control character and none of nine code points, does not end in a dot or space, and names no device |
| `PublishNames.ValidExtensionExactly` | lr-core/src/backup_atomic_publish.rs:1538-1547 | exactly "wim" and "esd" are accepted as staged extensions |
| `PublishJournal.ValidJournalExactly` | lr-core/src/backup_atomic_publish.rs:979-1043 | the journals that can be written and parsed: 32 lowercase hexadecimal digits, names as above, an old image exactly unless the mode is create, lengths and file ids other than zero |
| `PublishJournal.JournalText` | lr-core/src/backup_atomic_publish.rs:930-953 | the fourteen lines of a journal and its checksum line, written out with their keys |
| `PublishJournal.ReceiptText` | lr-core/src/backup_atomic_publish.rs:502-517 | the receipt name, written out: prefix, session, mode, length, digest, and volume and file id padded to eight and sixteen digits |
| `PublishJournal.Utf8LengthIs` | lr-core/src/backup_atomic_publish.rs:955-958 | the counted byte length: one per character, and one more from each of U+0080, U+0800 and U+10000 on |
| `PublishJournal.JournalFits` | lr-core/src/backup_atomic_publish.rs:1149-1160 | the journal of a publication whose target name has at most 500 characters is within the 4096 bytes |
| `PublishJournal.CodecIsBijection` | lr-core/src/backup_atomic_publish.rs:929-1043 | a text parses to a journal if and only if the journal is valid and the text is its encoding within 4096 bytes |
| `PublishJournal.ParseOfEncode` | lr-core/src/backup_atomic_publish.rs:929-1028 | an encoded valid journal parses back to itself, through framing, checksum search, decimals and hexadecimal |
| `PublishJournal.EncodeOfParse` | lr-core/src/backup_atomic_publish.rs:955-1043 | whatever is accepted is the one encoding of a valid journal |
| `PublishJournal.TornJournalIsRefused` | lr-core/src/backup_atomic_publish.rs:955-1000 | no proper prefix of a journal is accepted |
| `PublishJournal.ReceiptRoundTrip` | lr-core/src/backup_atomic_publish.rs:463-541 | a receipt name decodes to the mode and identity it was built from |
| `PublishJournal.ReceiptIsCanonical` | lr-core/src/backup_atomic_publish.rs:463-500 | every accepted receipt name is the name of the receipt it decodes to |
| `PublishJournal.UncommittedNameHasNoReceipt` | lr-core/src/backup_atomic_publish.rs:463-475 | the name a session directory is created with never reads as a receipt |
| `PublishJournal.IdentityRoundTrip` | lr-core/src/backup_atomic_publish.rs:1030-1043 | the four texts of an identity parse back to it |
| `Text.EncodeHexAt` | lr-core/src/backup_atomic_publish.rs:1570-1578 | every byte is written high nibble first, with the digits of "0123456789abcdef" |
| `Text.FixedHexAt` | lr-core/src/backup_atomic_publish.rs:508-516 | every digit of a padded hexadecimal number is the digit of its place value |
| `Text.DecimalAt` | lr-core/src/backup_atomic_publish.rs:932-939 | every digit of a decimal is the digit of its place value |
| `Text.DecimalLength` | lr-core/src/backup_atomic_publish.rs:932-939 | a decimal has as many digits as the number needs |
| `Text.DecimalRoundTrip` | lr-core/src/backup_atomic_publish.rs:1560-1568 | canonical decimals of all u64 values parse back |
| `Text.CanonicalU64IsDecimal` | lr-core/src/backup_atomic_publish.rs:1560-1568 | an accepted decimal is the canonical one |
| `Text.EncodeOfDecodeHex` | lr-core/src/backup_atomic_publish.rs:1570-1601 | lowercase hexadecimal text re-encodes to itself |
| `Text.DecodeOfEncodeHex` | lr-core/src/backup_atomic_publish.rs:1570-1601 | hexadecimal encoding decodes to the bytes |
| `Text.LastOccurrence` | lr-core/src/backup_atomic_publish.rs:955-975 | the checksum key found is the last one in the text |
| `FullDiskLayout.PlanLayoutFrom` | lr-core/src/custom_install.rs:528-652 | a base layout is accepted if and only if fixed partitions and minimum fit; it tiles the range without gap or overlap, every data volume is at least 4 GiB, and Windows has the size of the policy |
| `FullDiskLayout.PlanWindowsFrom` | lr-core/src/custom_install.rs:573-652 | the Windows case: boot partitions in order, exactly one Windows volume, and data behind it only when useful |
| `FullDiskLayout.PlanDataFrom` | lr-core/src/custom_install.rs:541-572 | the data case: the reserved partition of the style and one data volume, accepted exactly when both fit |
| `FullDiskLayout.PlaceInfrastructure` | lr-core/src/custom_install.rs:576-606 | the boot partitions of each style, contiguous, placed exactly when they fit |
| `FullDiskLayout.PlanFullDiskAroundStaging` | lr-core/src/custom_install.rs:333-366 | for every staging extent, in byte numbers: the exact condition for acceptance and each error, nothing on the extent or outside the disk, no data volume below 4 GiB; one Windows volume behind boot partitions of 300 and 128 MiB or of 550 MiB, which takes all the room on disks up to 256 GiB, has 200 GiB below 1536 GiB and 300 GiB from there on (or the minimum, when that is more) whenever 4 GiB are left, followed by all the rest as data, and otherwise the closer of the two other sizes; and which of the layouts is built |
| `FullDiskLayout.PlanWindowsAroundStaging` | lr-core/src/custom_install.rs:368-464 | accepted if and only if boot partitions and minimum fit before the extent or behind its aligned end; in a tight front the final Windows size after cleanup is no farther from the automatic size than either option |
| `FullDiskLayout.PlanFront` | lr-core/src/custom_install.rs:386-440 | the choice in front of the extent: plain, recipient or merged, the closer one after cleanup |
| `FullDiskLayout.PlanMerged` | lr-core/src/custom_install.rs:412-431 | the merged layout: Windows fills the front, the tail is data exactly when useful, and its final size |
| `FullDiskLayout.PlanBack` | lr-core/src/custom_install.rs:442-464 | the layout behind the extent, with the front as data when useful |
| `FullDiskLayout.PlanDataAroundStaging` | lr-core/src/custom_install.rs:466-526 | the data disk: the exact condition for acceptance and the layout, for both styles |
| `FullDiskLayout.PlanFullDisk` | lr-core/src/custom_install.rs:213-230 | the plain planner, in byte numbers: when it accepts, a tiling from the first MiB to the usable end, Windows of exactly the requested size whenever the rest is 4 GiB or more, which then is data, and of all the room otherwise |
| `FullDiskLayout.PlanFullDiskForDisk` | lr-core/src/custom_install.rs:245-285 | the capacity-aware planner, in byte numbers: the same with the automatic size of 200 or 300 GiB, all the room on disks up to 256 GiB, or a recipient volume of 4 GiB and 256 MiB, and exactly when |
| `FullDiskLayout.WindowsDiskInBytes` | lr-core/src/custom_install.rs:232-263 | the size of the Windows volume on every planned Windows disk, in byte numbers, for all capacities, extents and minima |
| `FullDiskLayout.ClosestInBytes` | lr-core/src/custom_install.rs:386-440 | the two options of a tight front in byte numbers: everything, or all but 4 GiB and 256 MiB when that leaves the minimum and 64 GiB |
| `FullDiskLayout.MergeIsClosest` | lr-core/src/custom_install.rs:386-431 | when the merge branch is taken, its final size is the closest possible |
| `FullDiskLayout.RecipientIsClosest` | lr-core/src/custom_install.rs:386-440 | when it is not, the base planner builds the recipient layout and its final size is the closest possible |
| `FullDiskLayout.RecipientHasRoom` | lr-core/src/custom_install.rs:615-631 | a recipient layout in a tight front always has the 4 GiB from staging start to disk end that the base planner asks for |
| `FullDiskLayout.TilingIsOrderedDisjoint` | lr-core/src/custom_install.rs:528-652 | a gapless tiling is ordered, disjoint and in bounds |
| `FullDiskLayout.TwoSides` | lr-core/src/custom_install.rs:442-526 | layouts on the two sides of an extent stay disjoint and clear of it |
| `FullDiskLayout.AlignUpToMib` | lr-core/src/custom_install.rs:306-309 | the next whole MiB when it fits u64, and exactly otherwise the largest u64 |
| `FullDiskLayout.PlannedWindowsDisk` | lr-core/src/custom_install.rs:607-652 | what every planned Windows disk holds behind its boot partitions: Windows of the desired size and all the rest as data, or Windows and a recipient volume of exactly the recipient size at the end, or Windows alone, and exactly when |
| `ScatteredStaging.NeverOvercommits` | lr-core/src/data_staging.rs:784-935 | no accepted plan overcommits, in byte numbers: the primary volume holds the fixed payload, the whole source tree and its part of the image with 2 GiB to spare, every other one its part with 512 MiB to spare, unless there is nothing to hold; reservations are exactly the image bytes, every file can be stored where it lies, and room over all volumes covers image and flexible payload in spite of saturating sums |
| `ScatteredStaging.AcceptsExactly` | lr-core/src/data_staging.rs:784-935 | a plan exists if and only if fixed payload and source tree together fit u64 and, unless they are nothing, leave 2 GiB free on the largest volume, the image has a place of its own kind, and total room covers image and flexible payload; no volume and an overflow are reported as such |
| `ScatteredStaging.PlanGoesWhereItShould` | lr-core/src/data_staging.rs:784-917 | the primary of a plan is the largest volume; a source tree goes there, any other image whole to the smallest volume that can hold it, and only when none can, a single file goes in chunks and split parts one by one |
| `ScatteredStaging.PlanScatteredStaging` | lr-core/src/data_staging.rs:784-935 | the planner with its loops computes the plan function of the sorted volumes |
| `ScatteredStaging.PlanIgnoresScanOrder` | lr-core/src/data_staging.rs:784-792 | permuting volumes with distinct letters changes nothing |
| `ScatteredStaging.PrimaryIsLargest` | lr-core/src/data_staging.rs:787-812 | the primary is a volume of most free space, and is refused only when no volume qualifies |
| `ScatteredStaging.EmptyPrimaryMayMissItsReserve` | lr-core/src/data_staging.rs:799-812 | with nothing to store, a primary below its reserve is accepted |
| `ScatteredStaging.ImageIsPlacedWell` | lr-core/src/data_staging.rs:838-917 | every kind of placement fits the room of each volume and takes exactly its own bytes from it |
| `ScatteredStaging.AssignedFits` | lr-core/src/data_staging.rs:888-915 | parts placed one by one fit each volume, their reservations are exact, and each lies where a file of its size can be stored |
| `ScatteredStaging.AssignParts` | lr-core/src/data_staging.rs:888-915 | the placing loop computes the worst-fit-decreasing assignment |
| `ScatteredStaging.PartsWithSlackArePlaced` | lr-core/src/data_staging.rs:888-915 | all parts are placed whenever room exceeds them by one byte less than the largest part for each volume but one |
| `ScatteredStaging.SlackIsLeast` | lr-core/src/data_staging.rs:888-915 | no smaller slack is enough, for any number of volumes and any part size |
| `ScatteredStaging.EqualPartsExactly` | lr-core/src/data_staging.rs:888-915 | parts of one size are placed if and only if the volumes have as many slots of that size as there are parts |
| `ScatteredStaging.WorstFitCanRefuseWhatFits` | lr-core/src/data_staging.rs:888-915 | without that slack parts that do fit can be refused, contrary to the documented promise |
| `ScatteredStaging.ConsumeLargestFirst` | lr-core/src/data_staging.rs:855-868 | the chunk accounting loop computes the consumption function, its early exit included |
| `ScatteredStaging.ConsumedIsExact` | lr-core/src/data_staging.rs:846-869 | exactly the image bytes are taken from the volumes together |
| `ScatteredStaging.BestFit` | lr-core/src/data_staging.rs:825-831 | the fitting volume with least room, then the earliest letter; none if and only if nothing fits |
| `ScatteredStaging.WorstFit` | lr-core/src/data_staging.rs:894-900 | the fitting volume with most room, then the earliest letter; none if and only if nothing fits |
| `ScatteredStaging.SaturatingTotalIs` | lr-core/src/data_staging.rs:847-850 | the saturating sum is the true sum or the largest u64 |
| `ScatterVolumes.SortIsOrdered` | lr-core/src/data_staging.rs:785-786 | the sort keeps all volumes and orders them |
| `ScatterVolumes.SortedOrderIsUnique` | lr-core/src/data_staging.rs:785-786 | volumes with distinct letters have one sorted order |
| `ScatterVolumes.DescendingOrderIsOrder` | lr-core/src/data_staging.rs:891-892 | the index order lists every part once, larger first, earlier first among equals |
| `ImageChunks.WriteImageChunks` | 正常系统端/src/core/native_install_backend.rs:4320-4475 | copying in chunks stores the whole image if and only if it is within the chunk room of the volumes; the chunks concatenate to the image or to a prefix of it; each respects its file limit, the minimum length and the room of its volume; and it stops short only when no volume could take a piece of 64 MiB |
| `ImageChunks.NextImageChunkLenIs` | lr-core/src/data_staging.rs:738-748 | the length of the next chunk in byte numbers: what image, room and file limit allow, and no piece below 64 MiB unless it is the rest |
| `ImageChunks.CutIsExact` | lr-core/src/data_staging.rs:738-748 | one cut: what it takes, when it is refused, and that a full piece shrinks the chunk room by exactly its length |
| `ImageChunks.SlackSuffices` | lr-core/src/data_staging.rs:738-748 | total room beyond the image by one short remainder for every volume but one is enough |
| `ImageChunks.PlannerTestIsWeaker` | lr-core/src/data_staging.rs:846-869 | the total-room test of the planner accepts an image of which no chunk can be cut |
| `ImageChunks.WidestVolume` | 正常系统端/src/core/native_install_backend.rs:4355-4359 | the volume that can store the longest piece, then the earliest letter |
| `ImageChunks.CutKeepsBalance` | PE端/src/app.rs:3719-3777 | reassembling the chunks in order appends the new piece, and its bytes leave its volume |
| `StagingSelection.PlanIsSound` | lr-core/src/data_staging.rs:118-180 | an existing volume named by a plan has room for payload and 2 GiB, and none with room is of a better kind, or of the same kind and better by disk, free bytes and letter; a shrunk one is the least whole number of MiB; and staging is unavailable only when the size overflows or nothing has room |
| `StagingSelection.TopIsNoWorse` | lr-core/src/data_staging.rs:181-211 | top rank spelled out: the order of the nine kinds of volume, then another disk than the target, then more free bytes, then the earlier letter in either case |
| `StagingSelection.KindsDescend` | lr-core/src/data_staging.rs:186-196 | the order of the nine kinds: internal, unknown and external, each solid-state, unknown and rotational |
| `StagingSelection.ShrinksExactly` | lr-core/src/data_staging.rs:134-149 | the exact condition under which the target is shrunk |
| `StagingSelection.ExternalIsLastResort` | lr-core/src/data_staging.rs:181-220 | an external volume is chosen if and only if every volume with room is external |
| `StagingSelection.BestIsTop` | lr-core/src/data_staging.rs:128-133 | the choice is outranked by no volume with room, and there is one whenever a volume has room |
| `StagingSelection.ScanOrderIsIrrelevantIff` | lr-core/src/data_staging.rs:203-211 | the choice is the same in every scan order if and only if at most one candidate is of top rank |
| `StagingSelection.PlanIgnoresScanOrder` | lr-core/src/data_staging.rs:118-165 | letters that differ by more than case make the plan independent of scan order |
| `StagingSelection.CaseTwinsFollowScanOrder` | lr-core/src/data_staging.rs:203-211 | two spellings of one letter follow the scan order |
| `SurfaceMask.ConnectedHostSurfaceMask` | 正常系统端/build.rs:232-279 | the mask is true at a pixel if and only if a walk of near pixels joins it to a near border pixel |
| `SurfaceMask.ChannelNearExactly` | 正常系统端/build.rs:225-230 | near means each of red, green and blue within two, whatever the alpha |
| `SurfaceMask.SeedBorder` | 正常系统端/build.rs:252-263 | the border loops queue the whole near border, and nothing that is not on the host surface |
| `SurfaceMask.Expand` | 正常系统端/build.rs:264-278 | after one popped pixel all its near neighbours are marked, and still nothing that is not on the host surface |
| `SurfaceMask.Enqueue` | 正常系统端/build.rs:241-251 | a pixel is marked and queued exactly when it is near and unmarked |
| `SurfaceMask.WalkStaysInside` | 正常系统端/build.rs:232-279 | a set that holds the near border and is closed under near neighbours holds every walk |
| `SurfaceMask.DrainedIsClosed` | 正常系统端/build.rs:264-278 | with an empty queue the marked pixels are closed under near neighbours |
| `SurfaceMask.PixelIndexIsUnique` | 正常系统端/build.rs:243-245 | two pixels of the frame never share an index |
| `CivilDate.CivilFromDaysIsExact` | 正常系统端/build.rs:473-484 | for every integer day the result is a valid proleptic Gregorian date whose day number is the input (ISO 8601:2004, section 3.2.1) |
| `CivilDate.CivilFromDaysIsOnto` | 正常系统端/build.rs:473-484 | every valid date is the result for its own day number |
| `CivilDate.CivilFromDaysSteps` | 正常系统端/build.rs:473-484 | the next day is the calendar successor |
| `CivilDate.NextDayIsNextNumber` | 正常系统端/build.rs:473-484 | the calendar successor is valid and one day later |
| `CivilDate.DayNumberIsMonotone` | 正常系统端/build.rs:473-484 | later dates have larger day numbers |
| `CivilDate.EpochIsDayZero` | 正常系统端/build.rs:472-484 | day 0 is 1 January 1970 |
| `CivilDate.YearOfEraIsExact` | 正常系统端/build.rs:477-477 | the year-of-era quotient is the exact year for each of the 146097 days of an era |
| `EfiSignatureDatabase.ParseEfiDatabase` | lr-core/src/boot_pca.rs:2065-2125 | complete if and only if the bytes are a non-empty concatenation of X.509 lists tiled by their entries, and the certificates are the payloads in order (section 32.4.1 of the UEFI Specification 2.10); every read is in bounds |
| `EfiSignatureDatabase.ReadFields` | lr-core/src/boot_pca.rs:2070-2098 | the header fields are accepted exactly when a whole list lies there |
| `EfiSignatureDatabase.ReadEntries` | lr-core/src/boot_pca.rs:2099-2112 | the entry loop collects the payloads, and says whether the entries tile the body |
| `EfiSignatureDatabase.DecompositionIsUnique` | lr-core/src/boot_pca.rs:2065-2125 | bytes decompose into lists in at most one way |
| `EfiSignatureDatabase.EntriesTile` | lr-core/src/boot_pca.rs:2099-2112 | a body made of whole entries has those entries as its payloads |
| `EfiSignatureDatabase.TiledHasEntries` | lr-core/src/boot_pca.rs:2099-2112 | a tiled body is made of whole entries |
| `EfiSignatureDatabase.ConsistentFieldsBeginList` | lr-core/src/boot_pca.rs:2075-2097 | the header checks hold if and only if the bytes begin with a well-formed list |
| `EfiSignatureDatabase.ListBytesAt` | lr-core/src/boot_pca.rs:2070-2098 | the layout of one list, byte by byte: the type, the three sizes least significant byte first, header and body (section 32.4.1 of the UEFI Specification 2.10) |
| `EfiSignatureDatabase.Le32At` | lr-core/src/boot_pca.rs:2127-2133 | the four bytes of a little-endian field |
| `EfiSignatureDatabase.X509GuidIs` | lr-core/src/boot_pca.rs:1614-1617 | the X.509 type identifier is a5c059a1-94e4-4aa7-87b5-ab155c2bf072 in firmware byte order |
| `EfiSignatureDatabase.ReadOfLe32` | lr-core/src/boot_pca.rs:2127-2133 | the little-endian reader inverts the encoding of every u32 |
| `UefiSeven.EspFiles.Install` | lr-core/src/boot_pca.rs:223-359 | success puts the shim on both entries with both loaders saved; a failure is rolled back if and only if every operation the rollback takes succeeds, and then restores exactly what the snapshot saw; that equals the prior files if and only if no snapshot read of an existing file failed; without failures behind the snapshots the outcome is determined, and one failure never leaves a rollback incomplete on installable entries |
| `UefiSeven.EspFiles.Restore` | lr-core/src/boot_pca.rs:410-512 | success makes both entries native; otherwise the snapshots are put back, under the same exact conditions |
| `UefiSeven.EspFiles.Rollback` | lr-core/src/boot_pca.rs:206-221 | a rollback succeeds if and only if each of the operations it takes does, and then all six files are as in the snapshots; in any case each file whose operation succeeds is as in its snapshot and each other one as it was |
| `UefiSeven.EspFiles.RollbackEntry` | lr-core/src/boot_pca.rs:332-343 | the three files of one entry are put back independently, going on after errors |
| `UefiSeven.EspFiles.SaveLoader` | lr-core/src/boot_pca.rs:261-308 | the loader in use is saved before anything else changes, read back and checked, and only an installable entry passes |
| `UefiSeven.EspFiles.DeployEntry` | lr-core/src/boot_pca.rs:260-330 | one entry: the other is untouched, and success saves the loader before the shim is written; it fails on an installable entry only when an operation does |
| `UefiSeven.EspFiles.RestoreEntry` | lr-core/src/boot_pca.rs:423-482 | one entry made native, the other untouched; it fails on a restorable entry only when an operation does |
| `UefiSeven.EspFiles.SnapshotForInstall` | lr-core/src/boot_pca.rs:247-258 | what the six snapshot reads see, and when the installation is refused |
| `UefiSeven.EspFiles.InstallThenRestore` | lr-core/src/boot_pca.rs:223-512 | from two native entries and without failures, install then restore gives both loaders back, leaves each saved beside itself, and removes the configuration |
| `UefiSeven.IsX64Exactly` | lr-core/src/boot_pca.rs:1449-1464 | the x64 test byte by byte: the two signatures, the offset read from bytes 60 to 63, and the machine bytes 0x64 0x86 |
| `UefiSeven.InstallableExactly` | lr-core/src/boot_pca.rs:260-308 | an entry is installable if and only if installing it saves an x64 loader that is not the shim |
| `UefiSeven.RestorableExactly` | lr-core/src/boot_pca.rs:423-482 | an entry is restorable if and only if restoring it starts an x64 loader that is not the shim; the saved loader stays, and only the shim's own configuration goes |
| `UefiSeven.InstallIsIdempotent` | lr-core/src/boot_pca.rs:223-359 | installing twice is installing once |
| `UefiSeven.InstalledKeepsLoader` | lr-core/src/boot_pca.rs:260-330 | the saved loader is the one in use before, and never the shim itself |
| `UefiSeven.RestoreUndoesInstall` | lr-core/src/boot_pca.rs:410-512 | restoring an installed entry gives its loader back and removes the configuration |
| `UefiSeven.SnapshotTruth` | lr-core/src/boot_pca.rs:247-258 | a snapshot shows the files as they are exactly when no read of an existing file failed |
| `UefiSeven.FailedSnapshotReadLosesFile` | lr-core/src/boot_pca.rs:247-258 | an installation whose snapshot read of a saved loader failed, and whose second entry is not x64, reports a successful rollback and has deleted that loader |
| `WorkerMessages.CollapsingLosesExactly` | PE端/src/app.rs:429-544 | one-by-one delivery is the collapsed state with the bar pushed to the furthest superseded sample, and nothing else differs |
| `WorkerMessages.PollIsExactIff` | PE端/src/app.rs:429-544 | a poll equals one-by-one delivery if and only if every superseded percentage whose push nothing later wipes out stays within the reach of the kept messages; a condition on messages, steps and the initial bar; otherwise the bar alone is behind |
| `WorkerMessages.SampleRunIsExactIff` | PE端/src/app.rs:452-465 | a run of samples is shown exactly if and only if none of them would bring the bar beyond where it was and where the last percentage brings it |
| `WorkerMessages.SupersededReachIs` | PE端/src/app.rs:452-465 | the superseded reach is the furthest push of a superseded percentage since the bar was last set |
| `WorkerMessages.KeptReachIs` | PE端/src/app.rs:452-509 | the kept reach is the furthest that kept messages bring the bar, and where it was |
| `WorkerMessages.SupersededReachAllIs` | PE端/src/app.rs:429-544 | over any number of polls, the superseded reach is the furthest push lost for good |
| `WorkerMessages.KeptReachAllIs` | PE端/src/app.rs:429-544 | over any number of polls, the kept reach is the furthest that kept messages bring the bar, and where it was |
| `WorkerMessages.FallingSampleIsLost` | PE端/src/app.rs:585-601 | a percentage that falls within one poll is shown lower than one by one |
| `WorkerMessages.RisingPollIsExact` | PE端/src/app.rs:429-544 | percentages that never fall between transitions lose nothing |
| `WorkerMessages.PollsLoseExactly` | PE端/src/app.rs:429-544 | the same for any sequence of polls |
| `WorkerMessages.CutsAgree` | PE端/src/app.rs:429-544 | two ways of cutting the same messages into polls differ at most in the overall bar |
| `WorkerMessages.WorkflowSession.ProcessMessages` | PE端/src/app.rs:429-544 | a poll of the session computes the poll function: what is taken, flushed, observed, and whether a lost worker is reported; it takes something from a channel that is not empty, and finding a closed empty one without a terminal message it reports the failure and shows its text |
| `WorkerMessages.WorkflowSession.TakeBatch` | PE端/src/app.rs:429-530 | the receiving loop takes up to 256 messages or its time slice, and collapses the samples |
| `WorkerMessages.WorkflowSession.TakeHead` | PE端/src/app.rs:445-515 | a sample is collapsed, a transition is applied behind the flushed samples |
| `WorkerMessages.RunIsFaithful` | PE端/src/app.rs:429-544 | over every interleaving of sends, polls and the end of the worker the session is the polls of what was sent, nothing lost or reordered |
| `WorkerMessages.DrainedSessionShowsEverything` | PE端/src/app.rs:429-544 | a drained session shows every message, and the overall bar too if and only if in every poll each push lost for good stays within the kept reach; a lost worker is reported if and only if some poll reached the end of the closed channel and no terminal message was ever sent |
| `WorkerMessages.PollTakes` | PE端/src/app.rs:437-529 | a poll takes everything, 256 messages or its time slice, whichever is least, and something whenever there is something |
| `WorkerMessages.ReportedExactly` | PE端/src/app.rs:531-543 | over every run, a lost worker is reported if and only if some poll reached the end of the closed channel and no terminal message was ever sent |
| `WorkerMessages.LostWorkerIsReported` | PE端/src/app.rs:531-543 | a worker that ended without a terminal message shows as failed, with its text, after at most one poll more than messages were left |
| `WorkerMessages.DrainedSessionShowsOutcome` | PE端/src/app.rs:429-544 | a drained session shows a failure if and only if one was sent or the worker was lost, and completion if and only if it was sent |
| `WorkerMessages.FailureShown` | PE端/src/ui/progress.rs:311-314 | the last failure decides the error shown, and without one nothing fails |
| `WorkerMessages.CompletionShown` | PE端/src/ui/progress.rs:288-310 | the last completion decides the warning shown, and without one nothing completes |
| `WorkerMessages.StatusShown` | PE端/src/ui/progress.rs:241-257 | the last status text is shown unless a step began behind it |
| `WorkerMessages.PercentageShown` | PE端/src/ui/progress.rs:241-310 | the last percentage is shown, at most 100; a step begins with 0, a completion shows 100 |
| `WorkerMessages.InstallStepShown` | PE端/src/ui/progress.rs:241-310 | the last install step is shown, and completing an installation shows its last step |
| `WorkerMessages.BackupStepShown` | PE端/src/ui/progress.rs:250-310 | the last backup step is shown, and completing a backup shows its last step |
| `WorkerMessages.InstallStepsTileBar` | PE端/src/ui/progress.rs:65-77 | the ten install steps share the overall bar in order, with 3, 4, 75, 6, 4, 4, 2, 1, 1 and 0 percent |
| `WorkerMessages.BackupStepsTileBar` | PE端/src/ui/progress.rs:130-138 | the six backup steps share it with 3, 90, 4, 2, 1 and 0 percent |
| `WorkerMessages.WeightedLies` | PE端/src/ui/progress.rs:142-156 | a percentage lies that far into the step's part of the bar, rounded down, and from 100 on at its end |
| `WorkerMessages.BarMovesForwardIff` | PE端/src/ui/progress.rs:259-287 | no percentage moves the overall bar back if and only if a step is shown outside expand mode, or the bar is at its start |
| `ApplyCapacity.AnswersInBytes` | lr-core/src/apply_capacity.rs:50-80 | what each answer means in bytes: applied as it is, in XPRESS or in LZX form exactly when that is the first to fit with 2 GiB to spare and compact files are supported, and otherwise the bytes reported |
| `ApplyCapacity.LzxSize` | lr-core/src/apply_capacity.rs:31-43 | the LZX size from the image file or the expanded size, between 55 hundredths of the expanded size and all of it |
| `ApplyCapacity.LargerPartitionCompressesLess` | lr-core/src/apply_capacity.rs:50-80 | a larger partition never needs a more compressed plan |
| `ApplyCapacity.LargerImageCompressesMore` | lr-core/src/apply_capacity.rs:50-80 | a larger expanded image never gets a less compressed plan |
| `ApplyCapacity.AdviceIsSufficient` | lr-core/src/apply_capacity.rs:50-80 | a partition whose usable capacity reaches the reported bytes is no longer too small |
| `ApplyCapacity.SaturatedAdviceIsUnreachable` | lr-core/src/apply_capacity.rs:26-80 | a saturated requirement is met by no partition |
| `ApplyCapacity.AdviceIsLeastIff` | lr-core/src/apply_capacity.rs:50-80 | the reported bytes are the least sufficient ones exactly when compact files are not supported or the LZX estimate is no larger than the XPRESS estimate |

## Left out

- Custody of directories, pins and locked handles: checks that an open handle still is the object at its path always succeed, and a failure of such a check is an answer of the script.
- `publish_existing` and the preparation of an existing copy: the guards on kind and retained handle in front of publishing, and `prepare_existing_copy_impl`, `inspect_prepared_staged_impl` and `discard_copied_staged_for_replace_impl`.
- Several publications in one session, a recovery request that names another target, and objects other than the three slots and the journal in the session directory.
- A file system that reorders effects: every effect the model makes is durable in order, and only the journal file can be torn.
- UTF-8 bytes of control files: text is Unicode scalar values with their encoded width counted, and a torn file is a proper prefix or not UTF-8 at all.
- SHA-256 itself: the digest is an arbitrary function, and file identity is compared by id, length and digest value as data.
- Wrap-around of i64 in `civil_from_days` within 719468 of the two ends of its range.
- Metadata and content of one UefiSeven check are one read: a check that sees a different size without reading the content counts as reading it.
- Digest checks of the UefiSeven package: the package is data with a verified flag, and Authenticode is not part of this model.
- Time: the 4 ms slice of a poll is a number of messages, at least one.
- A poisoned progress mutex, and the reaping of worker threads.
- Image sizes whose width times height exceeds 32 bits in the flood fill.
- `validate_full_disk_plan`, `validate_dual_boot_plan`, `select_dual_boot_free_extent`: flat checks over plan records.
- `choose_volume_for_unit`, `select_single_existing_volume`, `target_can_host_in_place` and the staging budget sums: one comparison each.
- ScatteredStaging.AcceptsExactly: for split parts of different sizes that fit no single volume, "has a place" is the success of the worst-fit order itself; EqualPartsExactly gives the condition for parts of one size, and PartsWithSlackArePlaced with SlackIsLeast the least slack that suffices for all.
- ImageChunks.WriteImageChunks: reads and writes always succeed, cancellation and the read-back of each chunk are not modelled, and free space changes only by the chunks written.
- Scatter path prefixes, marker files and chunk file names: string formatting.
- Unattended-setup generation, driver import, registry edits, boot code repair and firmware variables: foreign calls.
