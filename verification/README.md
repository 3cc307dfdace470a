# Verification of the bootloader's update and lifecycle protocol

This project models, in Dafny 4.11, how the bootloader replaces the image in
the slot that is not running, starts it on trial, confirms it or rolls back,
and how it comes through a loss of power at any flash command. It proves the
properties the design is for. Beside the protocol it models the path of an
image file from the packer through the gateway and the transfer requests into
the slot, and the two ISO-TP implementations that carry the requests.

`dafny verify dfyconfig.toml` checks everything.

## How it is built

* **Flash** (`Flash.dfy`, `FlashMap.dfy`) is a class over a byte array with the
  controller's commands, the driver's window and the facade. Any command may
  fail, and power may fail under any command: from then on nothing has an
  effect. What a method promises about flash therefore holds at every point
  where power can be lost. A phrase that is cut short may hold anything. Flash is
  `Consistent` only as long as no phrase was programmed twice, or tried twice,
  between two erases of its sector, so every method that keeps it so shows that.
* **Durable records** (`JournalFormat.dfy`, `MetadataFormat.dfy`,
  `SealedRecord.dfy`, `TwinStore.dfy`, `JournalStore.dfy`, `MetadataStore.dfy`)
  are read and written byte by byte, with their checksums, and shown to be
  atomic and never ambiguous, wrap of the sequence number included.
* **The protocol** (`Protocol.dfy`) is the set of atomic changes of the durable
  state: journal commits, metadata commits, erases and programs of the target
  slot, jumps, resets. `Safety.dfy` holds the invariant of all runs;
  `BootCycle.dfy` and `Trials.dfy` say what one boot and many boots make of a
  state. Four parts of that state are history and never read by the code: what
  each slot held when it was last validated for activation (`certified`), how
  often it was started on trial since then (`trialJumps`), how often the
  transaction activated last was installed (`installs`), and the counted attempt
  that was not yet used for a jump (`armed`). The commit that activates a
  transaction resets the two counts, and nothing else does.
* **The code** (`UpdateManager.dfy`, `Lifecycle.dfy`, `Programming.dfy`,
  `BootImage.dfy`, `BootManager.dfy`, `Uds.dfy`, `Security.dfy`, `Device.dfy`,
  `Commissioning.dfy`) is modelled as classes with the source's variables and order of steps. Each
  method is shown to make only steps of the protocol, wherever it is cut, and to
  do exactly what is specified when it is not. `Device.LiveAndStart` puts it
  together: no life of a commissioned device ends in one that cannot start; and
  `Device.StartsConverge`: cutting starts short does not change where they end.
* **The data path** (`Transfer.dfy`, `Programming.dfy`, `PackedImage.dfy`,
  `Requests.dfy`, `EndToEnd.dfy`) shows that the slot depends on the bytes sent and
  not on how they were cut, and ends with the slot equal to the file. Every request
  of the gateway's conversation goes through its bytes and frames, and every answer
  back through its bytes. `EndToEnd.UpdateDevice` puts the two together, from one
  start of the device to the next.
* **Transport** (`IsoTp.dfy`, `FlowControl.dfy`, `BootIsoTp.dfy`, `CanTp.dfy`) has one
  canonical segmentation that both senders emit prefixes of and both receivers undo. What
  the bootloader's polls find is any sequence of frames and empty polls, fixed
  in advance, so that frames may arrive at any moment of a wait.

`Moves(d, e)` says that from a safe `d` the state `e` is reached by a run of
the protocol; `Continues(d, e, undisturbed)` adds that, unless a flash command
reported an error, boots from `e` end as boots from `d` would. A method that
ends `Uneventful` had power throughout and saw no failing command. Every method
above the flash driver promises `Onward`: power once lost stays lost, and no
byte below slot A or above the metadata sectors has changed. Within the slots and
the record stores `State()` shows what changed; a record sector is erased whole.

## What the proofs found

* **A confirmation after the third start is not honoured.** Exhausted trials
  are resolved before the request is looked at, so an image that confirms in its
  third start is marked INVALID all the same. `Trials.ConfirmHonouredExactly`
  gives the exact condition. docs/bootloader_v2/stage5_boot_lifecycle.md reads
  as if the third start could still be confirmed; the model follows the code.
* **The very first metadata record is not written again after a cut.** The
  lifecycle document says that interrupted steps are redone on the next start.
  The first record of the active slot is the exception: it is written only while
  the metadata is entirely erased, and a cut write leaves it neither erased nor
  valid. `Commissioning.FirstStartIsNotRepeated` gives the exact condition,
  `Commissioning.StrandedLife` what every later power cycle comes to. All other
  results start from a device whose first start is complete (`Commissioned`).
* **The application can make the running image the one that is erased.** The slot
  an update has to leave alone is the one the start would run, unless the
  application named another released slot when it asked for the programming
  session; then the former is the target. `Device.CapturedTarget` shows that this
  is the only case.
* **A refused download request still restarts the transfer timer.** Every other
  request of the programming sequence that is refused before it begins leaves the
  server as it was; `Uds.HandledObeys` makes the one exception.
* **Three validators disagree in two cases.** With fewer than eight bytes of
  payload the bootloader reads its vectors from behind the payload and may
  accept what the gateway refuses and the packer's validator throws on
  (`PackedImage.ShortPayloadDiffers`). Only the gateway looks at the sector
  behind the header and refuses an image in which it is not erased
  (`PackedImage.ProgrammedTailDiffers`). `PackedImage.WhenAllAgree` shows that
  there is no third case.

## Assumptions

* An erase that does not complete leaves the sector as it was or in a state that
  does not pass for an intact journal or metadata record of any slot.
* A flash command that reports success did what it was asked to; memory does not
  change by itself.
* The flash driver was copied into RAM intact, and there is no valid metadata in
  the version 1 format, so that the legacy path of slot A never applies.
* Checksums are computed bit by bit, not assumed to be unforgeable: the crash
  proofs use only that a record with its last phrase missing is unsealed.
* Reset reason, request words, request pin, and what a seed is drawn from are
  inputs that may take any value.

## Model

| member | source | states |
|---|---|---|
| `Bytes.WordsFlatten` | Bootloader/inc/boot_journal.h:25-33 | structs of 32-bit members read back as written: decoding the little-endian bytes of any word sequence gives that sequence |
| `Bytes.FlattenWords` | Bootloader/inc/boot_journal.h:25-33 | the converse: encoding what was read from any bytes gives those bytes |
| `Bytes.LittleEndian` | Bootloader/inc/boot_journal.h:23-24 | the first byte of a word is its least significant, as the disk layout requires |
| `Crc32.MaskIsBranch` | Bootloader/src/boot_journal.c:6-15 | one step of the mask form equals one step of the branch form for every register value |
| `Crc32.BranchIsClock` | Bootloader/src/boot_crc32.c:16-33 | one table-free step is one clock of the serial register that defines the checksum bit by bit |
| `Crc32.CalculateBranch` | Bootloader/src/boot_crc32.c:16-33 | on every byte string the branch-form loops compute the checksum defined by the serial shift register of the generator polynomial; what that is, the next three rows say |
| `Crc32.ChecksumLanes` | Bootloader/src/boot_crc32.c:32 | the four bytes of the checksum are the four lanes of the complemented register: none is lost or exchanged |
| `Crc32.OneByteIsDetected` | Bootloader/src/boot_crc32.c:16-33 | detection: two messages of equal length that differ in a single byte have different checksums |
| `Crc32.CheckValue` | Bootloader/src/boot_crc32.c:16-33 | the checksum of the nine digits is 0xCBF43926, which fixes polynomial, preset and complement |
| `Crc32.CalculateMask` | Bootloader/src/boot_journal.c:6-15 | the mask-form loops compute the same checksum on every byte string |
| `ImageFormat.HeaderRoundTrip` | Bootloader/inc/boot_types.h:58-71 | the 64 header bytes and header values correspond one to one |
| `ImageFormat.HeaderLayout` | Bootloader/inc/boot_types.h:58-71 | each of the sixteen header fields lies at the offset the C structure gives it |
| `ImageFormat.ValidExactly` | Bootloader/src/boot_image.c:141-300 | an image is valid if and only if marker, version, size, both checksums, load address, stack pointer and reset handler meet the numbers of the configuration |
| `ImageFormat.EmptyExactly` | Bootloader/src/boot_image.c:17-45 | a slot counts as empty if and only if the 64 bytes of its header are all erased or all zero |
| `ImageFormat.ValidateReadsPayload` | Bootloader/src/boot_image.c:207-300 | the verdict on a given header depends only on the payload area of the slot |
| `ImageFormat.PublishedLoads` | Bootloader/src/boot_image.c:280-338 | after a header is programmed into its erased sector the slot loads with exactly that header and the verdict it had before |
| `JournalFormat.RoundTrip` | Bootloader/inc/boot_journal.h:25-33 | journal records and their 128 bytes correspond one to one |
| `JournalFormat.JournalLayout` | Bootloader/inc/boot_journal.h:25-33 | each journal field lies at the offset the C structure gives it, the image header at 56, checksum and marker last |
| `JournalFormat.StampValid` | Bootloader/src/boot_journal.c:26-43 | what a commit stamps passes validation exactly when its fields do, whatever they were before |
| `JournalFormat.Validate` | Bootloader/src/boot_journal.c:26-43 | validation with the journal's own checksum loops decides exactly whether a record is valid |
| `JournalFormat.Seal` | Bootloader/src/boot_journal.c:73-79 | the record a commit writes, sealed with the same loops |
| `JournalFormat.TornCopy` | Bootloader/src/boot_journal.c:80-91 | a sector torn during any phrase, that phrase holding anything, reads as damaged or as exactly the new record |
| `JournalFormat.ErasedCopy` | Bootloader/src/boot_journal.c:26-43 | a sector whose last word is erased never reads as a record |
| `MetadataFormat.RoundTrip` | Bootloader/inc/boot_types.h:73-82 | metadata records and their 80 bytes correspond one to one |
| `MetadataFormat.MetadataLayout` | Bootloader/inc/boot_types.h:73-82 | each metadata field lies at the offset the C structure gives it, checksum and marker last |
| `MetadataFormat.StampValid` | Bootloader/src/boot_metadata.c:68-74 | what write_record stamps passes validation exactly when its fields do |
| `MetadataFormat.Validate` | Bootloader/src/boot_metadata.c:19-31 | validation with the shared checksum decides exactly whether a record is valid for its slot |
| `MetadataFormat.Seal` | Bootloader/src/boot_metadata.c:68-74 | the record write_record writes |
| `MetadataFormat.TornCopy` | Bootloader/src/boot_metadata.c:76-83 | a torn metadata sector reads as damaged or as exactly the new record |
| `SealedRecord.TornIsWholeOrUnsealed` | Bootloader/src/boot_journal.c:79-91 | checksum and marker in the last phrase make a commit atomic: a torn record passes the seal only if it is complete |
| `TwinStore.SuccessorIsNewer` | Bootloader/src/boot_journal.c:16-17 | serial comparison (section 3.2 of RFC 1982) puts a successor after its predecessor for all 2^32 values, wrap included |
| `TwinStore.ConsecutivePicksSuccessor` | Bootloader/src/boot_journal.c:57-63 | of two copies one apart, loading is never ambiguous and picks the successor |
| `TwinStore.AmbiguousExactly` | Bootloader/src/boot_journal.c:57-61 | loading two different valid copies is ambiguous if and only if their sequence numbers are equal or half the range apart |
| `FlashMap.SlotChange` | Bootloader/src/boot_slot.c:109-122 | a change inside one slot leaves the journal, all metadata and the other slot as they were |
| `FlashMap.JournalChange` | FlashDriver/src/flash_driver.c:119-141 | a change inside one journal sector leaves the other copy, all metadata and both slots |
| `FlashMap.MetadataChange` | FlashDriver/src/flash_driver.c:142-167 | a change inside one metadata sector leaves the other copy, the other slot's metadata, the journal and both slots |
| `FlashMap.OutsideKept` | Bootloader/inc/boot_config.h:71-73 | what lies below slot A, the bootloader itself, and above the last metadata sector is out of reach of any change within slots and record sectors |
| `FlashModel.Flash.EraseCommand` | FlashDriver/src/flash_driver.c:39-73 | an erase command erases its sector, or leaves it as it was or not validating, and touches nothing else; without power it does nothing |
| `FlashModel.Flash.ProgramCommand` | FlashDriver/src/flash_driver.c:39-73 | a program command writes one phrase or leaves anything in that phrase; programming a phrase that is not erased, or a second time since its sector was erased, is recorded as misuse, whether the first attempt completed or not |
| `FlashModel.Flash.DriverInit` | FlashDriver/src/flash_driver.c:14-31 | the window is exactly the target slot, or empty on refusal, with the refusal condition in both directions |
| `FlashModel.Flash.DriverVerify` | FlashDriver/src/flash_driver.c:74-82 | true exactly when the range is in the window and holds the data |
| `FlashModel.Flash.DriverErase` | FlashDriver/src/flash_driver.c:83-94 | erases one aligned sector inside the window, nothing otherwise; success means every byte reads erased |
| `FlashModel.Flash.DriverProgram` | FlashDriver/src/flash_driver.c:95-118 | success means the data is in flash; only its range changes; erased phrases that were not programmed since are never misused |
| `FlashModel.Flash.DriverProgramPhrase` | FlashDriver/src/flash_driver.c:99-117 | a blank phrase is only read back, any other is programmed once and read back |
| `FlashModel.Flash.JournalErase` | FlashDriver/src/flash_driver.c:119-129 | erases one journal sector and restores the caller's window on every path |
| `FlashModel.Flash.JournalProgram` | FlashDriver/src/flash_driver.c:130-141 | programs phrases of one journal record only and restores the window on every path |
| `FlashModel.Flash.MetadataErase` | FlashDriver/src/flash_driver.c:144-154 | erases one metadata sector and restores the window on every path |
| `FlashModel.Flash.MetadataProgram` | FlashDriver/src/flash_driver.c:155-167 | programs phrases of one metadata record only and restores the window on every path |
| `FlashModel.Flash.ConfigureSlots` | Bootloader/src/boot_flash.c:50-60 | accepts exactly a valid target that is not the active slot, and then only that slot is in the window |
| `FlashModel.Flash.Erase` | Bootloader/src/boot_flash.c:66-71 | erases nothing but an aligned sector of the configured target slot |
| `FlashModel.Flash.Program` | Bootloader/src/boot_flash.c:72-77 | programs nothing but whole phrases of the configured target slot |
| `FlashModel.Flash.PowerOn` | Bootloader/src/boot_flash.c:31-49 | a restart keeps the durable state; only the right to a jump counted before is gone |
| `JournalStore.CommitIsAtomic` | Bootloader/src/boot_journal.c:68-91 | a commit cut anywhere makes loading return exactly the previous or exactly the new record, never an ambiguous pair, and changes nothing else |
| `JournalStore.WritingIsCut` | Bootloader/src/boot_journal.c:82-86 | while any phrase is in flight the spare sector reads as nothing or as the new record |
| `JournalStore.JournalStore.LoadLatest` | Bootloader/src/boot_journal.c:44-67 | the loops compute the latest copy by serial comparison, with the empty, invalid and ambiguous cases |
| `JournalStore.JournalStore.WriteCopy` | Bootloader/src/boot_journal.c:79-90 | erase, phrase loop and read-back leave a cut of the commit at every point where power or a command fails |
| `JournalStore.JournalStore.Commit` | Bootloader/src/boot_journal.c:68-93 | true means durable with the next sequence number; false leaves the old or the new record; refused exactly when the store or the fields forbid it; consecutive copies are kept |
| `JournalStore.JournalStore.Clear` | Bootloader/src/boot_journal.c:94-101 | only an idle journal is cleared, and it stays idle |
| `MetadataStore.CommitIsAtomic` | Bootloader/src/boot_metadata.c:61-83 | a metadata write cut anywhere makes loading return exactly the previous or the new record, never an ambiguous pair |
| `MetadataStore.WritingIsCut` | Bootloader/src/boot_metadata.c:76-79 | while any phrase is in flight the spare sector reads as nothing or as the new record |
| `MetadataStore.TransitionsExactly` | Bootloader/src/boot_metadata.c:51-60 | one installed image goes to PENDING with no attempts, to TRIAL with the first or one more, to CONFIRMED with none, to INVALID with those it had, and nowhere else |
| `MetadataStore.MetadataStore.Load` | Bootloader/src/boot_metadata.c:32-50 | the loops compute the latest copy of one slot's metadata |
| `MetadataStore.MetadataStore.WriteCopy` | Bootloader/src/boot_metadata.c:74-82 | every point of the write is a cut of the commit |
| `MetadataStore.MetadataStore.Write` | Bootloader/src/boot_metadata.c:61-83 | true means durable; refused exactly when status, fields or the transition table forbid it; otherwise old, new or still no record |
| `MetadataStore.MetadataStore.Initialize` | Bootloader/src/boot_metadata.c:84-89 | writes a first record only where there is none, VERIFIED or CONFIRMED only |
| `MetadataStore.MetadataStore.Commit` | Bootloader/src/boot_metadata.c:90-91 | a transition inside one installed image |
| `MetadataStore.MetadataStore.InstallVerified` | Bootloader/src/boot_metadata.c:92-101 | installs a fresh VERIFIED record; repeating it for the same version and transaction changes nothing |
| `MetadataStore.MetadataStore.SetState` | Bootloader/src/boot_metadata.c:102-111 | already there is success without a write; a trial starts at attempt 1, a confirmation resets the attempts and counts a boot |
| `MetadataStore.MetadataStore.IncrementAttempt` | Bootloader/src/boot_metadata.c:112-118 | counts one more attempt durably, below the limit of three only |
| `Safety.JournalStepsFollowTheTable` | Bootloader/src/boot_update.c:21-125 | every durable journal change is valid, in the transition table or a checkpoint, next in sequence, and counts a transaction exactly when it begins one |
| `Safety.TransitionTable` | Bootloader/src/boot_update.c:21-29 | the transitions between the ten states are exactly these twenty pairs |
| `Safety.CommissionedIsSafe` | Bootloader/src/boot_update.c:46-69 | a commissioned device satisfies the safety invariant |
| `Safety.BeginKeepsSafe` | Bootloader/src/boot_update.c:70-84 | beginning an update keeps a confirmed, allowed, untouched slot |
| `Safety.JournalStepKeepsSafe` | Bootloader/src/boot_update.c:21-125 | every journal commit keeps the invariant |
| `Safety.MetadataStepKeepsSafe` | Bootloader/src/boot_metadata.c:51-118 | every metadata commit keeps the invariant, including the trial account of its slot |
| `Safety.SlotStepKeepsSafe` | Bootloader/src/boot_programming.c:60-95 | erasing or programming the target, complete or torn, keeps the invariant |
| `Safety.CertifyStepKeepsSafe` | Bootloader/src/boot_programming.c:209-212 | recording the validated target keeps the invariant |
| `Safety.JumpStepKeepsSafe` | Bootloader/src/boot_manager.c:225-246 | a jump on trial keeps the account of attempts |
| `Safety.ResetKeepsSafe` | Bootloader/src/boot_manager.c:190-197 | losing RAM keeps the invariant |
| `Safety.StepKeepsSafe` | Bootloader/src/boot_recovery_policy.c:15-21 | every atomic step of the protocol keeps the invariant |
| `Safety.ReachableIsSafe` | Bootloader/src/boot_lifecycle.c:97-142 | every state of every run from a safe state is safe |
| `BootCycle.InterruptedTransferIsAborted` | Bootloader/src/boot_update.c:143-146 | an update interrupted before its transfer was complete ends ABORTED with its progress frozen, and never resumes |
| `BootCycle.CompletedTransferIsDecided` | Bootloader/src/boot_update.c:147-158 | after the transfer, the validity of what is in flash alone decides between PENDING_ACTIVATION and ABORTED, each with its result |
| `BootCycle.CompletedTransferIsJudged` | Bootloader/src/boot_image_install.c:7-18 | what decides: recovery ends PENDING_ACTIVATION if and only if the target is the other slot, holds a valid payload for the journal header, and that header is newer than a bootable image in the active slot |
| `BootCycle.OlderImageIsAborted` | Bootloader/src/boot_image_install.c:14-18 | no downgrade through an interruption: a completed transfer of an image no newer than the bootable one in the active slot ends ABORTED with VERIFY_FAILED and the slots as they were |
| `BootCycle.PendingIsNewer` | Bootloader/src/boot_image_install.c:14-18 | in every reachable state that awaits activation the target loads, and its version exceeds that of a bootable active slot |
| `BootCycle.RecoveredIsValid` | Bootloader/src/boot_update.c:134-160 | recovery only produces valid records |
| `BootCycle.BootSettles` | Bootloader/src/boot_update.c:134-160 | from every valid journal an undisturbed recovery and hand-off end IDLE exactly when nothing or an acceptable image was pending, else ABORTED |
| `BootCycle.HandOffInstallsOnce` | Bootloader/src/boot_lifecycle.c:46-67 | the hand-off ends with the journal IDLE and the target PENDING for this transaction, with the version of its header and no attempts, whatever was there before |
| `BootCycle.InterruptionDoesNotMatter` | Bootloader/src/boot_lifecycle.c:41-120 | a reset after any durable change of recovery, hand-off or rollback does not change where boots end, a half-written header and a torn first record of the target included |
| `BootCycle.RecoveryConverges` | Bootloader/src/boot_update.c:134-160 | the same for any number of resets, whatever their reasons |
| `BootCycle.OutcomeIgnoresReason` | Bootloader/src/boot_lifecycle.c:46-67 | the outcome does not depend on the reset reason, which is only noted |
| `BootCycle.PublishInstalls` | Bootloader/src/boot_image_install.c:7-27 | publishing an accepted header leaves the target installed under it and the payload and the other slot alone |
| `BootCycle.SelectionIsArgmax` | Bootloader/src/boot_policy.c:11-23 | selection is the maximum by priority, then version, then slot A; nothing is selected exactly when nothing may run |
| `BootCycle.BootedIsSafe` | Bootloader/src/boot_lifecycle.c:121-131 | an undisturbed boot keeps the invariant and leaves no exhausted trial and no update in progress |
| `BootCycle.SafeChoice` | Bootloader/src/boot_manager.c:169-181 | in such a state a slot is selected, and it holds what was certified for it |
| `BootCycle.NeverBricked` | Bootloader/src/boot_manager.c:169-181 | after any run from a commissioned device, resets between any two flash commands included, the next undisturbed boot selects a slot, never the programming server |
| `BootCycle.DirtySlotNeverStarted` | Bootloader/src/boot_recovery_policy.c:15-21 | a slot that differs from what was certified is never selected, whatever its metadata and checksums say, because the journal forbids it |
| `BootCycle.FailedRecordIs` | Bootloader/src/boot_lifecycle.c:100-117 | a trial that spent its starts names the other slot as the one to fall back to if and only if it is confirmed and loads, and says so in its result |
| `Trials.TrialJumpsAreCounted` | Bootloader/src/boot_lifecycle.c:143-155 | in every reachable state a slot was started on trial at most three times since its transaction was activated, each time with its attempt durable first, and never before the hand-off |
| `Trials.AccountsAreOpenedOnce` | Bootloader/src/boot_update.c:106-117 | the counts behind that are reset by the activation of a transaction and by nothing else |
| `Trials.OneAccountPerTransaction` | Bootloader/src/boot_update.c:21-29 | over any run within one transaction they are never reset after its activation: the bound of three is per transaction |
| `Trials.InstalledAtMostOnce` | Bootloader/src/boot_lifecycle.c:46-67 | however often its hand-off is cut, an activated transaction is installed as VERIFIED at most once |
| `Trials.HandedOverIsNeverReinstalled` | Bootloader/src/boot_lifecycle.c:41-77 | no replay: over any run within a transaction that was handed over, it is not installed again and no slot gets more starts than it had left |
| `Trials.AttemptsAreNeverRestored` | Bootloader/src/boot_metadata.c:51-60 | every metadata commit leaves strictly fewer starts, apart from a first record and the one installation of the transaction awaiting activation, whose image was not started yet |
| `Trials.TrialChoice` | Bootloader/src/boot_policy.c:11-23 | the image on trial is chosen while attempts remain, the confirmed other slot once they are spent |
| `Trials.TrialCycle` | Bootloader/src/boot_lifecycle.c:97-155 | one power cycle starts the image again on a newly counted attempt, or marks it INVALID and starts the confirmed one |
| `Trials.RollbackAfterThreeStarts` | Bootloader/src/boot_lifecycle.c:97-155 | an image that never confirms is started exactly three times; the fourth cycle rolls back |
| `Trials.ActivatedImageStarts` | Bootloader/src/boot_lifecycle.c:46-67 | the boot after an activation selects the activated image, untouched and PENDING |
| `Trials.ConfirmHonouredExactly` | Bootloader/src/boot_manager.c:195-207 | a confirmation is honoured if and only if it comes before the third attempt; after the third the image is INVALID all the same |
| `BootImage.Validate` | Bootloader/src/boot_image.c:141-300 | reading the slot from flash computes the specified verdict |
| `BootImage.LoadInfo` | Bootloader/src/boot_image.c:301-338 | header and verdict of the slot as it is in flash |
| `BootImage.Accepts` | Bootloader/src/boot_image_install.c:7-18 | accepted if and only if the target is a slot other than the active one, its payload is valid for the header, and the version exceeds that of a bootable active slot |
| `BootImage.WriteHeader` | Bootloader/src/boot_image_install.c:24-25 | touches the header sector of the target only; success means the header is there and the rest of the sector erased |
| `BootImage.ValidateAndPublish` | Bootloader/src/boot_image_install.c:7-27 | without acceptance nothing happens; a header already there is not rewritten; success means that the slot loads as valid with the checksums and the version of the header |
| `Version.CompareParts` | Bootloader/src/boot_version.c:3-26 | comparing byte by byte is unsigned comparison |
| `UpdateManager.Update.Save` | Bootloader/src/boot_update.c:10-19 | the mirror in RAM follows flash: a change is claimed only once durable, and a failed commit stops all further work |
| `UpdateManager.Update.SetState` | Bootloader/src/boot_update.c:39-45 | only transitions of the table are committed |
| `UpdateManager.Update.CompleteActivationHandoff` | Bootloader/src/boot_update.c:30-38 | IDLE is committed only over PENDING_ACTIVATION |
| `UpdateManager.Update.Begin` | Bootloader/src/boot_update.c:70-84 | a new transaction is committed exactly under the code's conditions and forgets the revalidation of its target |
| `UpdateManager.Update.SetProgress` | Bootloader/src/boot_update.c:85-95 | a checkpoint is saved only when it moves, a multiple of 32 KiB, below the whole image and at most what was programmed |
| `UpdateManager.Update.MarkTransferComplete` | Bootloader/src/boot_update.c:96-105 | the record of a complete transfer, with the staged header |
| `UpdateManager.Update.MarkVerified` | Bootloader/src/boot_update.c:106-117 | VERIFIED, then PENDING_ACTIVATION, cut anywhere |
| `UpdateManager.Update.Abort` | Bootloader/src/boot_update.c:118-125 | ABORTED with the reason, from every state of the table |
| `UpdateManager.Update.InitializeJournal` | Bootloader/src/boot_update.c:46-69 | commissioning succeeds exactly without a journal and with images that agree with the named active slot |
| `UpdateManager.Update.Revalidate` | Bootloader/src/boot_update.c:147-158 | recovery of a completed transfer: each cut is a step of the protocol with the same outcome; undisturbed it is the specified end |
| `UpdateManager.Update.LoadRecoveryState` | Bootloader/src/boot_update.c:126-160 | the same for every journal found at boot; without a journal nothing is done; a target that is released afterwards, other than by an idle journal, holds the image the journal awaits |
| `UpdateManager.BegunFields` | Bootloader/src/boot_journal.c:26-43 | the record of Begin passes validation |
| `UpdateManager.AdvancedFields` | Bootloader/src/boot_journal.c:26-43 | so do the records of state changes |
| `UpdateManager.CompletedFields` | Bootloader/src/boot_journal.c:26-43 | and that of a completed transfer |
| `UpdateManager.RecoverEnds` | Bootloader/src/boot_update.c:147-158 | the end of recovery in closed form |
| `Lifecycle.Lifecycle.Reload` | Bootloader/src/boot_lifecycle.c:28-33 | the metadata in RAM is the durable metadata |
| `Lifecycle.Lifecycle.PendTarget` | Bootloader/src/boot_lifecycle.c:59-65 | VERIFIED then PENDING for the transaction, every cut a step towards the same end |
| `Lifecycle.Lifecycle.ConfirmActive` | Bootloader/src/boot_lifecycle.c:51-58 | a confirmed bootable active slot is left alone |
| `Lifecycle.Lifecycle.HandOffPending` | Bootloader/src/boot_lifecycle.c:46-67 | from a safe state: a run of the protocol, the same outcome unless a command failed, exactly the hand-off when undisturbed; success leaves the journal IDLE, anything else is a storage fault |
| `Lifecycle.Lifecycle.ReconcileJournal` | Bootloader/src/boot_lifecycle.c:41-77 | the same for every journal state, with the first record of a commissioned device |
| `Lifecycle.Lifecycle.ResolveSlot` | Bootloader/src/boot_lifecycle.c:100-117 | an exhausted trial becomes INVALID with the rollback target that is confirmed and bootable, or none |
| `Lifecycle.Lifecycle.ResolveExhaustedTrials` | Bootloader/src/boot_lifecycle.c:97-120 | both slots in order; a run of the protocol at every cut |
| `Lifecycle.Lifecycle.Init` | Bootloader/src/boot_lifecycle.c:121-131 | from a safe state every cut is a run of the protocol with the same outcome and, undisturbed, exactly hand-off and resolution; without a storage fault no activation still waits; a first start, whole or cut before, is made exactly as far as its metadata allows |
| `Lifecycle.Lifecycle.PrepareBoot` | Bootloader/src/boot_lifecycle.c:143-155 | a slot is released for a jump only confirmed or with its attempt durably counted |
| `Lifecycle.Lifecycle.Confirm` | Bootloader/src/boot_lifecycle.c:156-171 | exactly the slot on trial that the policy would choose is confirmed |
| `Lifecycle.FirstStartCommissions` | Bootloader/src/boot_lifecycle.c:68-76 | the first start after commissioning writes a CONFIRMED first record with the version of the image, and makes the device one the safety theorem starts from |
| `Transfer.PayloadPhrase` | Bootloader/src/boot_programming.c:114-138 | one more phrase of payload in flash is the slot for the longer stream |
| `Transfer.HeaderPhrase` | Bootloader/src/boot_programming.c:121-124 | one more phrase of header changes only the staged header |
| `Transfer.TailPhrase` | Bootloader/src/boot_programming.c:126-131 | a tail phrase is acceptable exactly when it is erased, and changes nothing |
| `Transfer.PartialPhrase` | Bootloader/src/boot_programming.c:149-155 | bytes short of a phrase show nowhere |
| `Transfer.PublishedStream` | Bootloader/src/boot_programming.c:201-209 | publishing the staged header of a complete stream makes the slot equal to the stream, byte for byte |
| `Programming.Session.constructor` | Bootloader/src/boot_programming.c:41-54 | a fresh session is in order; its target is the slot beside the active one, slot A where none is known |
| `Programming.Session.EraseSlot` | Bootloader/src/boot_programming.c:75-88 | header first: every cut is a run of the protocol confined to the target; success leaves it erased but for the invalid marker |
| `Programming.Session.Erase` | Bootloader/src/boot_programming.c:60-95 | each refusal code in order and without effect; success begins a transaction and leaves the target erased; a failed one is ABORTED with ERASE_FAILED; undisturbed and permitted it succeeds |
| `Programming.Session.Download` | Bootloader/src/boot_programming.c:96-113 | each refusal code in order; success makes PROGRAMMING durable and empties the stream |
| `Programming.Session.FlushPhrase` | Bootloader/src/boot_programming.c:114-138 | a full phrase goes to flash, to the staged header, or is checked to be erased; undisturbed it fails exactly on a tail that is not |
| `Programming.Session.Feed` | Bootloader/src/boot_programming.c:149-155 | after any chunk buffer, slot and staged header are those of the concatenated stream, and what is still to be written was not programmed since the erase |
| `Programming.Session.Checkpoint` | Bootloader/src/boot_programming.c:157 | a saved checkpoint is monotone, a multiple of 32 KiB, below the header and at most the programmed bytes |
| `Programming.Session.Transfer` | Bootloader/src/boot_programming.c:139-166 | each refusal code in order and without effect; otherwise the stream grows by the data, or the update is abandoned, undisturbed exactly on a tail that is not erased and then ABORTED with PROGRAM_FAILED |
| `Programming.Session.Exit` | Bootloader/src/boot_programming.c:167-180 | success exactly for a complete stream, with its staged header durable in the journal |
| `Programming.Session.Judge` | Bootloader/src/boot_programming.c:192-200 | the answer is the judgement on the stream: payload validity, then version order |
| `Programming.Session.Publish` | Bootloader/src/boot_programming.c:201-213 | success means the slot is the stream, the target installed and certified, and PENDING_ACTIVATION durable |
| `Programming.Session.Verify` | Bootloader/src/boot_programming.c:181-214 | refusals without effect; success exactly for an acceptable stream when undisturbed; an image that is not acceptable is ABORTED with BAD_IMAGE, one that cannot be made visible with PROGRAM_FAILED or VERIFY_FAILED |
| `Programming.JudgementExactly` | Bootloader/src/boot_programming.c:192-200 | the answer to a verify request is positive if and only if the received bytes, as a slot, load as a valid image whose version exceeds that of the active slot |
| `Programming.Session.AbortDownload` | Bootloader/src/boot_uds.c:31-38 | an update in progress is aborted, one awaiting activation is not, the session forgets everything |
| `Programming.MirrorIsDurable` | Bootloader/src/boot_programming.c:215-219 | while work may continue RAM holds the durable journal; after an erase it is DOWNLOAD_READY over an erased target; a download is durably PROGRAMMING with its committed bytes in the slot; a reset is offered only for a durable activation |
| `Programming.OrderedSession` | Bootloader/src/boot_programming.c:60-219 | between any two requests journal in RAM, journal in flash, flags, counters and target bytes tell the same story |
| `Programming.ReadyExactly` | Bootloader/src/boot_lifecycle.c:174-179 | once nothing is left to do, an update may begin if and only if the journal can be trusted, it keeps the active slot, and the lifecycle permits it |
| `Programming.BeginIsChange` | Bootloader/src/boot_lifecycle.c:174-179 | an erase request behind its checks begins an update the protocol allows |
| `Programming.StreamInstalled` | Bootloader/src/boot_programming.c:192-212 | an accepted stream in the target is an installed image |
| `Programming.DurableSound` | Bootloader/src/boot_update.c:85-95 | the checkpoint computed for any progress is the greatest multiple of 32 KiB that is at most the progress and below the whole image |
| `BootManager.Manager.Init` | Bootloader/src/boot_manager.c:142-167 | recovery and lifecycle start from a safe state, cut anywhere, change nothing about where boots end; undisturbed they are exactly the specified boot; an activation still to be handed over means a storage fault |
| `BootManager.Manager.SelectBootTarget` | Bootloader/src/boot_manager.c:169-181 | only slots released by journal and metadata are scanned; without a fault and with the journal at rest the result is the specified choice |
| `BootManager.Manager.CaptureActiveSlot` | Bootloader/src/boot_manager.c:32-55 | a released slot that the application named is captured; otherwise, once settled, the slot this start would run, and only where there is none the one the journal keeps; wherever an update may start, the captured version is that of its image |
| `BootManager.Manager.Run` | Bootloader/src/boot_manager.c:183-265 | every ending is a run of the protocol; a jump goes only to an entitled slot; undisturbed from a safe state and without a request it ends in a slot, never in the server or the error state; the server is entered settled or with a storage fault, with the right slot captured; undisturbed with a first start to be made it ends in that slot or in the server, exactly as decided by what is durable |
| `BootManager.Manager.JumpApp` | Bootloader/src/boot_manager.c:225-246 | the attempt is durable before the jump, and the jump itself never refuses a slot that was prepared |
| `BootManager.Manager.JumpGate` | Bootloader/src/boot_jump.c:29-71 | the checks before the branch let pass exactly the slots that journal, metadata and image release: the second look at the vectors refuses none of them |
| `BootManager.SettledReleases` | Bootloader/src/boot_update.c:126-133 | what RAM state releases is what the durable state allows |
| `Uds.Server.Handle` | Bootloader/src/boot_uds.c:39-182 | request by request: outside the programming session or locked whatever programs is refused with 0x22 or 0x33 and has no effect; a positive answer to an erase means the target erased, DOWNLOAD_READY durable and the other slot confirmed, to a download PROGRAMMING durable, to a transfer the stream grown by the data and the counter moved on, to an exit a whole stream, to a verify the slot equal to the stream, valid, newer and PENDING_ACTIVATION durable; a reset is granted if and only if an activation is durable; each request at its place, undisturbed, is answered positively; all of it confined to the target |
| `Uds.HandledObeys` | Bootloader/src/boot_uds.c:44-182 | the same promise as a law about what the requests do: refusals without effect, meaning of a positive answer, and answers to requests in sequence |
| `Uds.BarredStays` | Bootloader/src/boot_uds.c:44-182 | where no update is under way and none may begin, no request changes anything durable or makes one possible |
| `Uds.Server.RefuseCommissioning` | Bootloader/src/boot_uds.c:133-140 | where a journal loads, the commissioning request is refused in every session and changes neither flash nor update state |
| `Security.KeysAgree` | linux_gateway/gateway/flasher.py:22-25 | the key the gateway computes on unbounded integers is the one key the bootloader takes for that seed |
| `Security.KeysDiffer` | Bootloader/src/boot_security.c:35-49 | the key to one seed is the key to no other |
| `Requests.RequestUnderstood` | linux_gateway/gateway/uds.py:110-183 | the bootloader reads every message the gateway writes as the request it was written for |
| `Requests.OnlySuchRequests` | Bootloader/src/boot_uds.c:44-182 | and acts on no other: a message that makes the bootloader act is, byte for byte, the one the gateway writes for that request |
| `Requests.ResponseUnderstood` | linux_gateway/gateway/uds.py:228-255 | the gateway takes a response as done if and only if it is positive, learns the seed and the block length from it, and any refusal otherwise |
| `Device.Serve` | Bootloader/src/boot_manager.c:124-140 | every request is handled in order, on the state the one before it left, up to the reset or the last |
| `Device.CapturedTarget` | Bootloader/src/boot_manager.c:32-55 | the slot an erase request may touch is the one this start would have run if and only if the application named the other one |
| `Device.PowerCycle` | Bootloader/src/boot_manager.c:183-265 | one power cycle with any requests, power failing at any command, is a run of the protocol and leaves the bootloader's own flash alone; what the server changes is never the slot this start would have run, unless the application named the other one; without requests it ends as specified; on a device whose first record was cut it changes nothing, whatever is requested |
| `Device.BeginStart` | Bootloader/src/boot_manager.c:142-167 | one start, cut anywhere by a loss of power, changes nothing about where boots end |
| `Device.StartsConverge` | Bootloader/src/boot_manager.c:142-167 | convergence, for the code: however many starts are cut short, the one that is left alone leaves journal and metadata as the first would have |
| `Device.Live` | Bootloader/src/boot_manager.c:183-265 | so is any sequence of them, and the bootloader's own flash is as it was |
| `Device.LiveAndStart` | Bootloader/src/boot_manager.c:183-265 | never bricked, for the code: after any life of a commissioned device an undisturbed start ends in a slot that holds the certified bytes, and the bootloader's own flash is as it was |
| `Commissioning.Commission` | Bootloader/src/boot_uds.c:133-145 | undisturbed, commissioning a blank device with an image gives a commissioned one; cut anywhere, a blank device, one whose first start is still to be made, or a commissioned one |
| `Commissioning.FirstWriteCut` | Bootloader/src/boot_metadata.c:76-79 | cut after its first phrase, a first metadata record leaves a store that is neither empty nor loadable |
| `Commissioning.FirstStartIsNotRepeated` | Bootloader/src/boot_lifecycle.c:68-76 | a start confirms and selects the image if and only if the active slot's metadata is entirely erased, and otherwise changes nothing; no update can begin before |
| `Commissioning.CutStartIsStarting` | Bootloader/src/boot_lifecycle.c:68-76 | a first start cut anywhere is still to be made, or is done |
| `Commissioning.StrandedLife` | Bootloader/src/boot_manager.c:183-265 | for the code: on a device whose first record was cut every power cycle, with any requests and cut anywhere, ends in the programming server and leaves the durable state as it was |
| `Commissioning.PackedImageCommissions` | Bootloader/src/boot_uds.c:133-145 | any packed image for a slot makes a commissioned device: what the safety theorem starts from exists |
| `PackedImage.ChunksJoin` | linux_gateway/gateway/packed_image.py:52-58 | the chunks are the data in order, none empty, none too long, all but the last full |
| `PackedImage.ChunksFit` | linux_gateway/gateway/packed_image.py:52-58 | for every block length from 3 to 4095 and no other, each chunk fits a transfer request of that length and each but the last fills it |
| `PackedImage.ParseAgrees` | linux_gateway/gateway/packed_image.py:26-50 | the gateway accepts exactly the images valid for the bootloader in the slot their vector names, with room for both vectors and an erased tail |
| `PackedImage.ValidatorsCompared` | tools/image_format.js:163-192 | the packer's validator throws exactly on a good header over a payload without room for both vectors; on every other image its verdict is the bootloader's, a blank header apart |
| `PackedImage.WhenAllAgree` | linux_gateway/gateway/packed_image.py:26-50 | bootloader, packer and gateway agree on an image for a slot if and only if one the bootloader accepts has both vectors in its payload and an erased sector behind its header |
| `PackedImage.TailIsUnread` | tools/image_format.js:163-192 | bootloader and packer give the same verdict whatever lies behind the header |
| `PackedImage.ProgrammedTailDiffers` | linux_gateway/gateway/packed_image.py:48-49 | an image of the packer with its last byte programmed stays valid for both and is refused by the gateway |
| `PackedImage.ShortPayloadDiffers` | tools/image_format.js:180-182 | for either slot there is an image with a payload too short for its vectors that the bootloader accepts, the gateway refuses and the packer's validator throws on |
| `PackedImage.PackedIsValid` | tools/image_format.js:127-135 | everything the packer makes is valid for packer, gateway and bootloader, under its version and slot |
| `PackedImage.PayloadFitsExactly` | tools/image_format.js:110-126 | the packer accepts a payload for a slot if and only if the image made of it is valid there for the bootloader |
| `PackedImage.BuildHeader` | tools/image_format.js:88-108 | field by field the buffer becomes the header of the payload with its checksum |
| `PackedImage.PackImage` | tools/image_format.js:110-135 | refused exactly for payloads that do not fit; otherwise payload, gap, header and tail |
| `EndToEnd.SendAll` | Bootloader/src/boot_programming.c:139-166 | however a stream is cut into chunks of 1 to 128 bytes, counters wrapping, slot and staged header depend on the stream alone; undisturbed it is accepted exactly when its tail is erased |
| `EndToEnd.Ask` | linux_gateway/gateway/uds.py:228-255 | one request byte by byte: written by the gateway, cut into frames and put together again, read, handled and answered by the bootloader, and the answer understood |
| `EndToEnd.Unlock` | linux_gateway/gateway/flasher.py:22-25 | session, seed and key unlock the server whatever the seed, and leave a finished or idle update as it was |
| `EndToEnd.Deliver` | linux_gateway/gateway/packed_image.py:52-58 | chunks, exit and verify of an accepted file |
| `EndToEnd.Install` | Bootloader/src/boot_programming.c:60-214 | through the server, byte by byte: a file the gateway accepts for the target is installed exactly when it is newer: the slot is the file, it loads, and PENDING_ACTIVATION is durable under the next transaction |
| `EndToEnd.InstallAndStart` | Bootloader/src/boot_manager.c:183-265 | from the file to the jump: after an installation the next undisturbed start runs the target, which holds the file, on the first of its trial attempts |
| `EndToEnd.UpdateDevice` | linux_gateway/gateway/flasher_v2.py:51-159 | from start to start: on any safe device whose next start runs a confirmed slot, a file that is an image for the other slot and newer is, after a start with the request pin set, the whole conversation and a second start, what runs, on the first of its trial attempts, if power, flash and messages hold |
| `IsoTp.AcceptConsecutive` | Bootloader/src/boot_isotp.c:120-154 | one consecutive frame brings the receiver one step on, through the wrap of the sequence number |
| `IsoTp.SegmentsReassemble` | Bootloader/src/boot_isotp.c:57-156 | for every message of 1 to 256 bytes its frames give that message and nothing else, whatever the receiver was doing |
| `IsoTp.SentIsReceived` | Bootloader/src/boot_isotp.c:57-212 | the same under another identifier |
| `IsoTp.OnTheWire` | src/CanTp.c:425-579 | the frames of a message byte by byte: one behind its length, or a first frame with twelve bits of length and six bytes and then numbered frames of seven |
| `IsoTp.LostFrame` | Bootloader/src/boot_isotp.c:122-128 | a long message with one consecutive frame missing yields nothing |
| `BootIsoTp.Transport.MainFunction` | Bootloader/src/boot_isotp.c:57-156 | one poll is one step of the specified receiver, timeout included; it sends nothing unless a first frame opens a message, and then exactly one frame: identifier 0x7E8, 30 00 00, or its refusal |
| `BootIsoTp.Transport.PollAll` | Bootloader/src/boot_isotp.c:57-156 | polling delivers exactly the messages of the frames that arrive, however many polls find nothing in between, while no wait runs out |
| `BootIsoTp.Transport.WaitCts` | Bootloader/src/boot_isotp.c:160-172 | whatever arrives while it waits, the outcome is that of the first request frame in time: permission from a clear-to-send without separation time, an end from anything else |
| `BootIsoTp.Transport.Transmit` | Bootloader/src/boot_isotp.c:173-212 | what is sent is a prefix of the message's frames; no more frames than its block size follow one clear-to-send; all of them are sent if and only if no frame is refused and permission comes in time for every one |
| `BootIsoTp.CoveredExactly` | Bootloader/src/boot_isotp.c:158-172 | clear-to-sends that have arrived suffice if and only if one without a limit is among them or their block sizes add up to the frames there are |
| `CanTp.StminIsKept` | src/CanTp.c:148-160 | against the coding of the standard: the sender never waits less than the separation time it was given, and less than one tick more |
| `CanTp.TicksPassed` | src/CanTp.c:605-610 | what a wrapped tick difference shows has really passed |
| `FlowControl.GrantAdded` | src/CanTp.c:341-348 | a clear-to-send opens a new block and keeps the discipline so far |
| `FlowControl.FrameAdded` | src/CanTp.c:451-471 | a frame sent when due keeps separation time and block size |
| `FlowControl.BlockSizeKept` | src/CanTp.c:465-471 | no clear-to-send is used for more frames than its block size |
| `CanTp.SendSound` | src/CanTp.c:425-472 | the next frame is the next of the canonical segmentation, under the last grant, no earlier than its separation time |
| `CanTp.CompleteIsReceived` | src/CanTp.c:459-463 | a message sent to its end is reassembled by the bootloader's receiver |
| `CanTp.ReceiversAgree` | src/CanTp.c:166-320 | on full frames the application's receiver is the bootloader's |
| `CanTp.Endpoint.Transmit` | src/CanTp.c:548-579 | a short message goes out whole, of a long one only the first frame, behind what was sent before; accepted if and only if the sender is idle, the message fits and the queue takes the frame |
| `CanTp.Endpoint.HandleFlowControl` | src/CanTp.c:324-364 | only a clear-to-send while waiting permits frames, with its decoded separation time; wait restarts the wait; any other status gives the message up |
| `CanTp.Endpoint.MainFunction` | src/CanTp.c:581-613 | the receiver is reset exactly when its timeout passed, the waiting sender likewise; a frame goes out exactly when it is due and the queue takes it, the next one of the message |
| `CanTp.Endpoint.Drive` | src/CanTp.c:502-613 | over every interleaving of arriving frames and polls the bus holds what was sent before and a prefix of the message's frames, in blocks and separated as granted; a message that ended was sent whole unless the receiver or a timeout gave it up |
| `CanTp.Endpoint.Drain` | src/CanTp.c:581-613 | completion: polled at every tick with no frame refused, a permitted sender comes to the end of its message or block within a poll per frame and millisecond of separation |
| `CanTp.Endpoint.HandleFirst` | src/CanTp.c:199-256 | the specified receiver on first frames; exactly one frame is sent for it, clear-to-send where the message fits and overflow where it does not |
| `CanTp.Endpoint.HandleConsecutive` | src/CanTp.c:258-320 | the specified receiver on consecutive frames |
| `CanTp.Endpoint.RxIndication` | src/CanTp.c:502-541 | every frame that arrives is one step of the specified receiver; what is sent is the flow control that step asks for, and no payload |
| `CanTp.Exchange` | src/CanTp.c:166-613 | both sides connected: a sender whose first frame is answered by the receiver is permitted by that answer, and the message arrives whole |

## Left out

- FlashModel.Flash.EraseCommand: does not model what an interrupted erase leaves in a slot or sector beyond "as it was, or not a valid record", because that is a property of the memory cells.
- BootManager.Manager.Run: does not model LEDs, watchdog and the wait before the jump, because they do not touch durable state.
- Uds.Server.Handle: does not model the reports (identifiers F101 to F105, tester-present), which change nothing and are recognised in Requests.Decode only. The commissioning request is not among its requests: Uds.Server.RefuseCommissioning shows it refused where a journal loads, Commissioning.Commission what it does where none does.
- Requests.ResponseUnderstood: covers the final response; the response-pending messages before it are modelled as calls that may be refused, not as bytes.
- BootManager.Manager.Init: does not model the branch in which the watchdog cannot be enabled and recovery is skipped; the journal then stays unread and no slot is released.
- Lifecycle.Lifecycle.HandOffPending: states nothing for a pending activation whose active slot has no metadata or is not confirmed, because no run from a commissioned device reaches it; the branch is in the model.
- Commissioning.Commission: covers devices with an image in the active slot; commissioning without any image is modelled only up to the journal record.
- CanTp.Endpoint.Drain: ends with the block; what the receiver grants after it, and when, is its choice.
- EndToEnd.Ask: takes the frames of a request in the order they were cut, and the response as its bytes; loss, timing and flow control of frames are in the transport results.
- The version 1 format and its fallback for slot A (boot_check.c, boot_firmware.c, LoadLegacySlotA).
- Register and processor work: controller polling, watchdog refresh, CAN and SPI drivers, clocks, startup code, the branch through stack pointer and vector table.
- The hooks that inject faults; losing power at every command takes their place.
- Capture of diagnostics and the handover words for the application, which are derived from the metadata and read by no decision of the bootloader.
- Task creation, critical sections and queues of the operating system: queuing a frame is a call that may be refused.
- The vehicle application above the transport layer.
- Manifests, command lines, ELF checks and file access of the tools, and their textual version parsing.
- The gateway's session around the transfer: retries, timing and the legacy workflow.
