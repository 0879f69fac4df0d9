# CapyOS core, verified in Dafny

This project models the state machines at the heart of CapyOS and proves what they are relied on for. Each module
follows one source file or one of its layers; where the source updates state in place the model is a class or a method
over an array, proved against a specification, and the laws are lemmas about that specification.

**A/B boot slots.** A slot manager is kept in two 512-byte control sectors. Every transition writes the next generation
over the copy that is not in use, flushes, reads back and decodes; after a reboot one copy is chosen or the disk is
refused. `BootSlots`, `BootCodec`, `BootFormat` and `BootRecordBuffer` are the manager, its validity and its bytes;
`BootPersist` is the choice between the copies and the effect of one interrupted write; `BootLifecycle` the transitions,
and `BootExact` what singles each of them out among all valid managers; `BootRuns` the whole system as a step relation
with crashes, rebinds and the three-write staging of a new image; `BootGuarantees` what every run of it guarantees.
`BootController` is the same machine as the source has it, mutable state and error codes included, with every method
proved to perform one of those steps. `GptIdentity`, `GptFormat`, `GptReader` and `BlockProvider` read the partition
table and confine its writes to the BOOT partition.

**Streaming audio.** Up to four decoded sources are mixed into a cyclic 64 KiB ring that a device drains. `AudioMixer`
and `AudioStream` are the mixing loops, `AudioSamples` what a mixed sample is in numbers, `AudioRing` the arithmetic of
positions and clocks, `AudioEngine` the counters, the source table and the verdict of a poll, `AudioLine` the device's
ring with a log of what each fragment was mixed from, `AudioService` the engine in place, `AudioRuntime` the gates under
which requests, the timer and the worker interleave.

**Users.** `UserRecords`, `UserLines` and `UserDb` are the line and file formats; `UserRewrite` and `UserStore` the
password rewrite of the whole file, `UserFormat` both spelled out in characters and fields; `Lockout`, `LockoutRuns`,
`LockoutLaws` and `AuthPolicy` the table of failed logins; `Login` the whole login.

**Refinements.** `PathStacks`, `PathLaws` and `SessionPath` for path normalisation, `HostnamePolicy` for the TLS hostname
scanner, `StringOps` for the word-at-a-time memory routines. `Words` and `Texts` hold what the others share.

## Where the code does less than it might be taken to promise

- A password change rewrites every line of the user database. The serialiser writes seven fields for a legacy record, so
  costs given on a ten-field `pbkdf2` line are lost and that user's hash is then checked with the default cost. Everyone
  else's record survives exactly when no such line exists (`UserRewrite.OthersSurviveExactly`,
  `UserRewrite.CostSevenIsLost`). Lines that do not parse are dropped from the file.
- The lockout table follows a name exactly when it has 1 to 31 characters (`LockoutRuns.TrackedExactly`). Longer names are
  stored cut off and take a new slot at each failure, so names stay unique exactly while no other slot carries what is
  stored (`LockoutRuns.DistinctExactly`). Failures of the empty name pile up in a free slot that the next user inherits
  (`LockoutRuns.BlankExactly`, `LockoutRuns.EmptyNameLocksOthers`).
- The table holds 32 names. While no more than that fail, each name has its own counter, moved by nobody else
  (`LockoutLaws.OneCounterEach`); the next name after that evicts one, whose failures are forgotten
  (`LockoutLaws.EvictionForgets`).
- A login of a legacy user rewrites the file, so it can shut someone out in two ways. With one of two passwords that verify
  the same legacy hash, it migrates the record to that one. And it drops the costs of another user's ten-field `pbkdf2`
  line, whose password is then checked with the default cost. `Login.LoginKeepsExactly` says exactly when a password keeps
  working, and `Login.LoginShutsOutAnother` is a database on which one does not.
- Resolving the empty path and then `b` is not resolving `"" + "/" + b`, which is absolute; the two agree exactly when `b`
  climbs out of the base (`PathLaws.EmptyStepExactly`). The path writer asks for one byte more than it needs.
- After a fresh start of the ring the first poll measures from position 0. It is right for every device behaviour exactly
  if the device was at most 17,536 bytes ahead when the start read its status (`AudioRing.StartLeadIsTight`); the engine
  model takes that bound as its assumption on the device.
- Staging consumes three generations, so it is refused within three of the last generation, as the source does.

## Assumptions

- The control record's checksum, the GPT checksum and the password derivations are arbitrary functions: every result holds
  for every choice of them. A sector torn by a crash is old, new, or does not decode.
- The audio device advances at most 192,000 bytes per second of its 24 MHz clock, and two polls are less than 2^32 ticks
  apart, as the output contract states.
- The lockout clock does not run backwards and the end of a lockout fits 64 bits; the configuration is fixed during a run.
- Device answers, clock reads, decoded files, salts and whether memory is available are parameters.

## Model

| member | source | states |
|---|---|---|
| `BootSlots.LayoutPlan` | src/boot/boot_slot.c:107-131 | a plan exists exactly for 6 or more sectors, and then tiles the whole partition: header and payload of A, header and payload of B, two control sectors, nothing left over, B at most one sector larger than A |
| `BootCodec.RecordRoundTrip` | src/boot/boot_slot.c:343-406 | decoding the encoded record of any valid manager named A/B at any non-zero generation gives that manager and generation, whatever the checksum function |
| `BootCodec.RecordCanonical` | src/boot/boot_slot.c:366-406 | the decoder accepts nothing but encoded records: re-encoding what it returns gives the same 512 bytes, and what it returns is valid |
| `BootCodec.SlotRoundTrip` | src/boot/boot_slot.c:179-256 | one 128-byte slot section, printed and parsed, is the slot |
| `BootCodec.SlotCanonical` | src/boot/boot_slot.c:221-256 | a slot section that parses is the printed form of the slot it yields |
| `BootCodec.ErasedNeverDecodes` | src/boot/boot_slot.c:82-94 | an all-zero or all-ones sector never decodes, so a blank copy is never taken for a record |
| `BootFormat.HeaderBytes` | src/boot/boot_slot.c:343-365 | the header of a record byte by byte: the magic, the format, the size, the 64-bit generation and each of the cursors at its offset |
| `BootFormat.SlotBytes` | src/boot/boot_slot.c:179-198 | each field of slot A at its offset from byte 64 and of slot B from byte 192, the padding and reserved bytes zero, and at the end the checksum of all before it |
| `BootFormat.LittleEndian` | src/boot/boot_slot.c:48-64 | words and double words are stored lowest byte first |
| `BootRecordBuffer.EncodeSlotInto` | src/boot/boot_slot.c:179-198 | the in-place writer leaves exactly the specified slot bytes in its section and touches nothing else |
| `BootRecordBuffer.EncodeRecordInto` | src/boot/boot_slot.c:343-365 | the in-place writer leaves exactly the specified 512 bytes in the buffer |
| `BootPersist.SameRecordSameBytes` | src/boot/boot_slot.c:508-511 | two decodable copies hold equal records exactly when their bytes are equal, so the byte comparison of equal generations decides what it should |
| `BootPersist.ViewOfEncoded` | src/boot/boot_slot.c:407-427 | a byte-identical read-back always decodes to the record that was written |
| `BootPersist.ViewExactly` | src/boot/boot_slot.c:82-94 | a sector counts as a record exactly when it is that record printed, and as blank exactly when all its bytes are zero or all are ones |
| `BootExact.BindExactly` | src/boot/boot_slot.c:508-536 | binding takes the newest usable copy, the first of two equal ones; it refuses two copies of one generation that differ and a lone copy with an attempt pending; only two erased sectors are an unformatted disk |
| `BootPersist.DegradedNeverPending` | src/boot/boot_slot.c:516-527 | a manager bound from a single copy never carries a pending attempt |
| `BootPersist.CommitCrashAtomic` | src/boot/boot_slot.c:407-453 | for a commit of any valid candidate and any way the written sector ends up: rebinding finds the candidate if the sector is new, exactly the old state if it is old, and otherwise the old manager degraded, or a refusal if an attempt was pending |
| `BootLifecycle.ActivateIsArm` | src/boot/boot_slot_lifecycle.c:47-75 | on valid managers the looser state test of activation admits exactly what arming admits |
| `BootLifecycle.ArmSound` | src/boot/boot_slot_lifecycle.c:31-45 | the armed candidate passes validation, has the slot pending with one attempt, keeps names and geometry, and leaves the confirmed slot, its image and its health as they were |
| `BootLifecycle.AttemptSound` | src/boot/boot_slot_lifecycle.c:160-167 | the same for the candidate that spends the attempt, which leaves none |
| `BootLifecycle.RollbackSound` | src/boot/boot_slot_lifecycle.c:119-143 | the same for a rollback, which also fails the pending slot and makes the confirmed one active |
| `BootLifecycle.ConfirmSound` | src/boot/boot_slot_lifecycle.c:219-231 | the confirmed candidate passes validation, moves the known-good role to the attempted slot with its image unchanged, and keeps the previous image as VALID |
| `BootLifecycle.StageSound` | src/boot/boot_slot_authorization.c:54-89 | the invalidating and the publishing candidate pass validation, leave the confirmed slot alone, and record exactly the offered image in the target, FAILED and then VALID |
| `BootLifecycle.FormatSound` | src/boot/boot_slot.c:586-605 | the first manager written to a blank disk passes validation on the planned layout, with exactly the offered image active in slot A |
| `BootExact.GuardsExactly` | src/boot/boot_slot_lifecycle.c:17-30 | on valid managers a slot may be armed exactly if it is the other one, VALID, with nothing pending; confirmed exactly if it is pending with no attempt left; staged exactly if it is the other one with nothing pending and the image fits |
| `BootExact.ArmExactly` | src/boot/boot_slot_lifecycle.c:31-45 | arming gives the one valid manager with that slot pending, one attempt left, and confirmed slot, images and counts unmoved |
| `BootExact.AttemptExactly` | src/boot/boot_slot_lifecycle.c:160-167 | spending the attempt gives the one valid manager with none left and one more boot counted, modulo 2^32, and nothing else moved |
| `BootExact.RollbackExactly` | src/boot/boot_slot_lifecycle.c:119-143 | a rollback gives the one valid manager with nothing pending, the pending slot FAILED with one more failure counted, and nothing else moved |
| `BootExact.ConfirmExactly` | src/boot/boot_slot_lifecycle.c:219-231 | a confirmation gives the one valid manager with that slot confirmed and next, one more success counted, the old slot VALID and healthy, and nothing else moved |
| `BootExact.StageExactly` | src/boot/boot_slot.c:557-573 | staging gives the one valid manager with exactly the offered image in the target, no history, the other slot untouched: FAILED first, then VALID and next to boot |
| `BootExact.FormatExactly` | src/boot/boot_slot.c:586-605 | a format gives the one valid manager on the layout with exactly the offered image in slot A, booted and confirmed once, and slot B empty |
| `BootExact.ImageFitsExactly` | src/boot/boot_slot.c:95-161 | an image fits a slot exactly if its name is 1 to 39 printable characters, its digest 32 bytes not all zero, and its payload not empty and at its end no further than the next region |
| `BootExact.ValidExactly` | src/boot/boot_slot.c:257-342 | a manager is valid exactly if it lies on the plan of its partition, holds two sound slots, and is settled on one of them or trying one of them with at most one attempt left |
| `BootRuns.CommitStep` | src/boot/boot_slot_lifecycle.c:17-45 | every arm, select, confirm, rollback or repair step is one commit of a candidate that passes validation, and only a confirmation moves the known-good slot |
| `BootRuns.StagingChain` | src/boot/boot_slot_store.c:536-644 | each of the three writes of a staging goes over the copy that a rebind at that moment would not choose |
| `BootRuns.StepKeepsInv` | src/boot/boot_slot.c:428-453 | after any step, interrupted or not, whatever is ready in memory is what a rebind would find |
| `BootRuns.RunKeepsInv` | src/boot/boot_slot.c:428-536 | the same after every run of steps, crashes and rebinds |
| `BootGuarantees.CommitOutcome` | src/boot/boot_slot.c:428-453 | after a lifecycle step a rebind finds the candidate or the previous manager, and refuses exactly when an attempt was pending and the written copy does not decode; a step reported durable is found, one generation later |
| `BootGuarantees.StagingBinding` | src/boot/boot_slot_store.c:536-644 | wherever staging stops a rebind finds the manager as before, invalidated, or published, the last only if the third write landed; a complete staging is found published, three generations later |
| `BootGuarantees.StagingOutcome` | src/boot/boot_slot_authorization.c:41-89 | publish safety: staging never leads to a refusal, never touches the known-good slot, and leaves the target as it was, or with exactly the offered image, FAILED or VALID, the last only if the third write landed and always when staging completes |
| `BootGuarantees.PayloadWindowClosed` | src/boot/boot_slot_store.c:536-644 | from the second invalidating write until the third write, no decodable copy offers the slot whose payload changes |
| `BootGuarantees.FormattingOutcome` | src/boot/boot_slot.c:574-626 | an interrupted format leads to the new manager, with exactly the offered image active in slot A, to an unformatted disk, or to a refusal exactly when the first sector was torn into garbage |
| `BootGuarantees.KnownGoodFallback` | src/boot/boot_slot.c:292-342 | in every run without confirmation or format, whatever is bound keeps the same confirmed slot, image and health, and a refusal is never followed by anything but refusals |
| `BootGuarantees.AttemptsBoundedByArms` | src/boot/boot_slot_lifecycle.c:144-181 | in every run, crashes included, selections of the pending slot plus the attempts left never exceed the arms plus the attempts left at the start |
| `BootGuarantees.AtMostOneAttempt` | src/boot/boot_slot_lifecycle.c:144-181 | between two arms, selection tells the loader to boot the pending slot at most once |
| `BootGuarantees.UnconfirmedFallsBack` | src/boot/boot_slot_lifecycle.c:144-181 | after an attempt and until a confirmation, every later successful selection returns the confirmed slot and leaves the attempted one FAILED, whatever crashes intervene |
| `BootGuarantees.ConfirmationIsEarned` | src/boot/boot_slot_lifecycle.c:209-232 | in every run the confirmed slot changes only after the other slot was armed, then that slot selected for boot (or a selection with unknown outcome), then that slot confirmed, in that order |
| `BootGuarantees.PayloadIntegrity` | src/boot/boot_slot_store.c:594-742 | in every run, crashes included, each copy that offers a slot names the digest of what is really in its payload region |
| `BootController.Controller.WriteVerified` | src/boot/boot_slot.c:407-427 | success means the copy holds exactly this record; a refusal writes nothing; otherwise the sector is old, new or undecodable; with a working device it succeeds |
| `BootController.Controller.CommitLocked` | src/boot/boot_slot.c:428-453 | performs exactly the specified commit step and keeps memory and disk consistent, with each error code for its own condition |
| `BootController.Controller.BindControl` | src/boot/boot_slot.c:463-536 | binding reaches exactly the state the two copies determine as the device shows them, and with an honest device as they are; OK and EMPTY are returned exactly for those states, and a refused call changes nothing |
| `BootController.Controller.ReadCopies` | src/boot/boot_slot.c:497-507 | classifies both copies as the device shows them, and fails exactly when a read does |
| `BootController.Controller.Choose` | src/boot/boot_slot.c:508-536 | picks a copy or refuses exactly as the binding rule says |
| `BootController.Controller.GuardsMean` | src/boot/boot_slot.c:574-648 | what the guards come to in a valid state: the ready flag alone decides readiness; binding is open in every phase but before initialisation and after close; a format needs an unwritten disk, its own layout and an image that fits |
| `BootController.Controller.Initialize` | src/boot/boot_slot.c:574-626 | refused exactly unless bound to a blank disk on this very layout with an image that fits; otherwise the two-write format step, complete on a working device, after which slot A is active with exactly the offered image |
| `BootController.Controller.ArmProvider` | src/boot/boot_slot_lifecycle.c:17-45 | refused exactly unless the manager is ready, the slot may be armed, the generation is the expected one and a commit may write; otherwise an arm step, durable on a working device, after which that slot is pending with one attempt at the next generation |
| `BootController.Controller.Activate` | src/boot/boot_slot_lifecycle.c:47-75 | each code exactly for its condition: an arm step that is durable, after which that slot is pending with one attempt, or unknown, or a refusal that leaves memory and disk as they were; durable on a working device |
| `BootController.Controller.SelectForBoot` | src/boot/boot_slot_lifecycle.c:144-181 | a settled manager always selects its confirmed slot and changes nothing; 1 selects the pending slot and spends its last attempt, 2 selects the confirmed slot and ends the attempt; each code exactly for its condition, and a refusal leaves memory and disk as they were; on a working device it selects |
| `BootController.Controller.ConfirmVerified` | src/boot/boot_slot_lifecycle.c:209-232 | confirms exactly the current generation, authority and lease after the attempt is spent; each code exactly for its condition, and a refusal leaves memory and disk as they were; durable on a working device |
| `BootController.Controller.RollbackNow` | src/boot/boot_slot_lifecycle.c:233-245 | each code exactly for its condition: a rollback step that is durable, or unknown, or a refusal that leaves memory and disk as they were; durable on a working device |
| `BootController.Controller.RepairMirror` | src/boot/boot_slot_operations.c:57-81 | refused exactly unless degraded and able to write; otherwise the missing mirror is rewritten with the same manager, which ends the degraded state on a working device |
| `BootController.Controller.SnapshotGet` | src/boot/boot_slot_authorization.c:13-38 | a snapshot is current when it is given, and is given only for a ready, undegraded, owned manager with no staging claimed |
| `BootController.Controller.StageAuthorize` | src/boot/boot_slot_store.c:536-592 | stale exactly unless the snapshot is current and the slot may be staged; otherwise both invalidating writes or the exact intermediate state in which they stopped, with the stage claimed only on success |
| `BootController.Controller.StagePublish` | src/boot/boot_slot_store.c:594-644 | the publishing write from an authorised state, complete or lost |
| `BootController.Controller.StageInactive` | src/boot/boot_slot_store.c:791-827 | every code exactly for its condition, in the order of the source: stale binding, unfit payload, wrong digest, stale snapshot, busy; otherwise a whole staging is one staging step with the progress it reports, the payload failures with their codes, complete on a working device; complete means the slot is VALID with exactly the offered image over a payload of its digest, three generations later; a refusal changes nothing |
| `BootController.Controller.StageRest` | src/boot/boot_slot_store.c:646-742 | a failed payload or header write is unknown, a read-back that differs is a verify error, and only a verified payload with its header is published; complete means the slot is VALID with exactly this image over a payload of its digest |
| `GptIdentity.ScanMeaning` | src/boot/gpt_identity.c:87-137 | a scan that succeeds accepted every entry and found, of each kind, exactly the one entry there is |
| `GptIdentity.ScanComplete` | src/boot/gpt_identity.c:87-137 | a table of acceptable entries with no kind twice is never refused |
| `GptIdentity.IdentityUnique` | src/boot/gpt_identity.c:193-288 | a disk has at most one identity, and the strict and the legacy reading never both accept it |
| `GptIdentity.AcceptedIdentity` | src/boot/gpt_identity.c:87-148 | an accepted table has exactly one ESP, BOOT and DATA entry, whose first and last sector and identifier are those of the partition returned, each between the two copies of the table and pairwise disjoint (section 5.3 of the UEFI Specification) |
| `GptFormat.DescribesExactly` | src/boot/gpt_identity.c:69-137 | an entry is acceptable and stands for a partition exactly if its type, UTF-16 name, identifier, first and last sector and attributes say so, in the usable range |
| `GptFormat.HeaderExactly` | src/boot/gpt_identity.c:193-235 | a header passes exactly if its signature, revision, size, both addresses, usable range, entry array, counts and checksum stand at their offsets |
| `GptFormat.BackExactly` | src/boot/gpt_identity.c:150-191 | the backup passes exactly if its header and its 32 sectors mirror the primary; the second checksum over the table never decides |
| `GptFormat.AcceptsExactly` | src/boot/gpt_identity.c:193-276 | a disk has an identity exactly if its bytes say so: both headers, the three partitions each listed once and nothing else, the mirrored table, no sector in two partitions, and identifiers that are all different, or not, as the reading asks |
| `GptReader.ScanPrimary` | src/boot/gpt_identity.c:236-247 | the sector loop computes the scan of all 128 entries and their running checksum, or fails exactly when a read or an entry does |
| `GptReader.CheckBackup` | src/boot/gpt_identity.c:150-191 | accepts exactly a backup header and entry array that mirror the primary |
| `GptReader.ReadIdentity` | src/boot/gpt_identity.c:193-276 | returns an identity exactly when the disk has one, and then that one: the disk identifier of the header, and the three partitions the table lists, where it lists them |
| `BlockProvider.SameTablesSameIdentity` | src/boot/boot_slot_block_provider.c:223-238 | disks that agree on both table areas have the same identity |
| `BlockProvider.IdentityExactly` | src/boot/boot_slot_block_provider.c:98-142 | the identity a registration is compared with is the strict one of the whole disk in sectors of 512 bytes, byte by byte |
| `BlockProvider.BootWriteConfined` | src/boot/boot_slot_block_provider.c:81-90 | a sector of BOOT belongs to no other partition and to neither table, so writing it changes no identity |
| `BlockProvider.DeadForever` | src/boot/boot_slot_block_provider.c:61-71 | a lease number that is over is never in force again, in any run of lease steps |
| `BlockProvider.Provider.HoldersExactly` | src/boot/boot_slot_block_provider.c:61-71 | the opaque numbers never decide on their own: a registration is held exactly by its owner under its number, a lease exactly by its holder under its number, and a context word is active exactly if it is the number of the lease in force |
| `BlockProvider.Provider.Register` | src/boot/boot_slot_block_provider.c:98-142 | succeeds exactly when nothing is registered or leased and the disk has the identity the binding claims, with at least six BOOT sectors; the provider then holds the registration |
| `BlockProvider.Provider.Unregister` | src/boot/boot_slot_block_provider.c:191-208 | drops the registration exactly for its holder and never under a lease |
| `BlockProvider.Provider.OpenStore` | src/boot/boot_slot_block_provider.c:240-293 | succeeds exactly for the holder of the registration when nothing is leased or bound and the store opens; the store then holds the lease, which has the next number and covers exactly BOOT |
| `BlockProvider.Provider.CloseStore` | src/boot/boot_slot_block_provider.c:315-350 | succeeds exactly for the holder of the lease when no staging is claimed and the store lets go; the number is dead as soon as the holder asks, even if the store does not let go; otherwise nothing changes |
| `BlockProvider.Provider.StoreWrite` | src/boot/boot_slot_block_provider.c:61-90 | succeeds exactly for the lease in force and an address inside it, changes one sector inside BOOT, and never succeeds for a dead lease |
| `AudioMixer.MixSplits` | src/audio/audio_mixer.c:119-156 | mixing n frames and then m gives the samples, cursors and underrun count of mixing n + m |
| `AudioMixer.UnderrunCount` | src/audio/audio_mixer.c:124-153 | underrun growth is the requested frames minus the longest pending stream, never negative |
| `AudioMixer.SumBound` | src/audio/audio_mixer.c:125-151 | the sum over all streams stays within 32768 per stream before clamping |
| `AudioMixer.Mixer.Open` | src/audio/audio_mixer.c:31-52 | opens the first free slot at full volume, or reports which check failed |
| `AudioMixer.Mixer.Submit` | src/audio/audio_mixer.c:65-79 | accepts samples only for an open stream that has run dry |
| `AudioMixer.Mixer.MixFrame` | src/audio/audio_mixer.c:125-147 | the stream loop computes both channel sums and advances every pending stream by one frame |
| `AudioMixer.Mixer.Mix` | src/audio/audio_mixer.c:119-156 | the output, the cursors and both counters are those of the closed form, whose samples `AudioSamples.MixMeans` gives in numbers; nothing else in the buffer changes |
| `AudioSamples.MixMeans` | src/audio/audio_mixer.c:119-156 | every sample of every mix: the own sample of each pending stream on that side at its volume, in thousandths cut toward zero, the sum of those at the global gain likewise, clipped to 16 bits |
| `AudioSamples.StereoAlone` | src/audio/audio_mixer.c:139-148 | a stereo stream alone puts its even sample on the left and its odd one on the right, each at the volume of the stream and the global gain |
| `AudioSamples.MonoAlone` | src/audio/audio_mixer.c:135-148 | a mono stream alone puts its one sample of the frame on both sides |
| `AudioSamples.FullVolume` | src/audio/audio_mixer.c:144-151 | full volume and full gain change no sample |
| `AudioStream.OpenedMixes` | src/audio/audio_service.c:294-324 | the streams opened for a fragment mix to the scaled sum of the sources from their cursors on |
| `AudioStream.FillFragment` | src/audio/audio_service.c:294-324 | one fragment holds exactly the next 1024 frames of every feeding source, and each cursor moves by what was taken |
| `AudioRing.ClockDeltaExact` | src/audio/audio_service.c:640-642 | the 32-bit clock difference is the true number of ticks between polls less than 2^32 ticks apart |
| `AudioRing.RingAdvanceExact` | src/drivers/audio/hda_core.c:137-142 | positions less than a ring apart determine the true advance, the end-of-ring reading included |
| `AudioRing.AcceptedAdvance` | src/audio/audio_service.c:636-646 | a poll that passes the 250 ms guard sees fewer than 48,000 new bytes |
| `AudioRing.StartLeadIsTight` | src/audio/audio_service.c:444-455 | the first accepted poll after a start reads the true progress for every behaviour of the device exactly if the device was at most 17,536 bytes ahead when the start read its status |
| `AudioRing.RefillAvoidsDma` | src/audio/audio_service.c:674-690 | the fragment being refilled is not one the device can be in, wherever it is between the polled position and the end of the queue; applied to every slot the refill loop writes |
| `AudioRing.QueueAhead` | src/audio/audio_service.c:674-690 | with every retired fragment refilled the queue is more than 61,440 bytes ahead |
| `AudioEngine.FillKeepsExact` | src/audio/audio_service.c:294-324 | filling a fragment keeps every cursor equal to min(frames, (queued - start) / 4) |
| `AudioLine.FragmentIsWindow` | src/audio/audio_service.c:294-324 | the fragment mixed at stream byte 4096 f is exactly that window of the one continuous mix |
| `AudioLine.DeliverNext` | src/audio/audio_service.c:680-690 | putting the next fragment where the retired one was keeps every fragment still to be played, and the trace of every source |
| `AudioLine.ExactlyOnce` | src/audio/audio_service.c:294-324 | of each source in the table, frame k is queued exactly if it is below the cursor, and what every queued stream frame from its start on got from it is, in numbers, its own frame at that distance at its volume of that moment, or nothing past its end, and from no other slot |
| `AudioLine.SumOfSlots` | src/audio/audio_mixer.c:129-147 | the mix is the sum over the four slots, so the frame of each source is in it once |
| `AudioLine.DeviceHears` | src/audio/audio_service.c:674-690 | what lies in the device ring at any stream frame still to be played is that frame of the mix |
| `AudioLine.HeardMeans` | src/audio/audio_service.c:674-690 | and in numbers: what the four slots put into that frame, each its own samples at the volume of its application, summed, at the gain of that moment, clipped |
| `AudioLine.RingFromBuffer` | src/audio/audio_service.c:432-455 | a ring cut from the prefilled buffer holds the first sixteen fragments of the mix |
| `AudioEngine.HealthyPollGoesOn` | src/audio/audio_service.c:624-690 | a device that runs, is polled in time, makes progress and takes its refills keeps the stream going while one source has frames left to play |
| `AudioEngine.PollExactly` | src/audio/audio_service.c:624-690 | the verdict of a poll in numbers: refused for another buffer than 64 KiB, after 250 ms, outside the ring or after a second without progress; complete once every source and the drain behind it are played; failed if a played fragment is not taken back |
| `AudioEngine.MarkedExactly` | src/audio/audio_service.c:657-666 | a source is marked complete exactly once the device has played its last frame and the drain behind it, and nothing else of it changes |
| `AudioEngine.PlayedExactly` | src/audio/audio_service.c:138-143 | frame k of a source counts as played exactly once its last byte is |
| `AudioEngine.PollRecoversProgress` | src/audio/audio_service.c:636-656 | an accepted poll recovers the true progress of the device, which has not caught up with the queue |
| `AudioEngine.MarkKeepsExact` | src/audio/audio_service.c:657-666 | a source is marked complete only after all its frames were mixed |
| `AudioEngine.PlayedNeverExceedsMixed` | src/audio/audio_service.c:138-143 | progress computed for a source never exceeds what was mixed of it; every accepted poll reports within it |
| `AudioEngine.ReleaseFreesOne` | src/audio/audio_service.c:115-119 | releasing a source frees its own buffer and no other |
| `AudioEngine.InstallKeepsTable` | src/audio/audio_service.c:395-405 | a new source keeps applications, buffers and playback ids of the sources in use distinct |
| `AudioService.Engine.Stop` | src/audio/audio_service.c:538-549 | every source is released, every buffer of the table freed, none of a request |
| `AudioService.Engine.StopApp` | src/audio/audio_service.c:550-588 | exactly the source of that application goes and its buffer is freed; the others and the ring are as before; a completed primary is reported complete, and a live one is succeeded by the latest live source, which the status then shows |
| `AudioService.Engine.Refill` | src/audio/audio_service.c:680-690 | fails exactly if the backend refuses a fragment; otherwise every retired fragment is mixed once, in order, from this table at the volumes in force and nothing else, and lies in the slot of the retired one as the window of the stream, with the log only extended |
| `AudioService.Engine.PollIrq` | src/audio/audio_service.c:624-693 | the verdict is exactly that of the reading, the 250 ms gap, the stall clock, completion and the refills; after an accepted poll refilled = played / 4096 and 61440 < queued - played <= 65536 at the true position, what was queued is the mix of this table at the volumes in force, no fragment the device may be in was touched, and reported progress is within what was mixed; no buffer is freed; the clock of the last progress moves exactly when the device did |
| `AudioService.Engine.Reap` | src/audio/audio_service.c:699-707 | exactly the completed sources go; every other is as it was |
| `AudioService.Engine.Poll` | src/audio/audio_service.c:695-721 | the stream goes on exactly on a verdict of 0, and then exactly the sources that are not at their end stay; no buffer of a request is freed |
| `AudioService.Engine.Conclude` | src/audio/audio_service.c:708-721 | a verdict other than 0 stops everything and is recorded as completion or as the error |
| `AudioService.Engine.Prefill` | src/audio/audio_service.c:432-443 | the buffer holds the startup silence and then the continuous mix of this table at the volumes in force, every fragment logged, with every cursor exact at 65,536 queued bytes |
| `AudioService.Engine.StartPrepared` | src/audio/audio_service.c:367-460 | the result is exact; on success the request itself plays as the primary source, all its samples, frames and channels, from the end of the queue of a ring it joined, or after the padding of a fresh one with the drain of the backend; a rejected request keeps its buffer, a failed start frees it; a request that is not exclusive, on a healthy ring that goes on, leaves every other live source playing, and otherwise nobody else plays |
| `AudioService.Engine.Settle` | src/audio/audio_service.c:380-387 | on a healthy ring that goes on, a request that is not exclusive leaves exactly the live sources of other applications; otherwise everything stops |
| `AudioService.StaysExactly` | src/audio/audio_service.c:380-387 | who stays: a live source of another application with a frame or part of the drain still to play |
| `AudioService.StartupExactly` | src/audio/audio_service.c:406-431 | the backend may start exactly with a latency and a drain of up to sixteen whole fragments and a stream that plays |
| `AudioService.Engine.FramesGoOutOnce` | src/audio/audio_service.c:294-324 | exactly-once delivery in every state the engine can be in, the samples in numbers |
| `AudioService.Engine.DevicePlaysTheMix` | src/audio/audio_service.c:674-690 | in every such state the device ring holds the mix from where the device was last seen to the end of the queue: for each frame and side the samples of the four slots at their volumes, summed, at the gain, clipped |
| `AudioRuntime.Runtime.BeginPlay` | src/audio/audio_runtime.c:171-174 | one preparation at a time: refused without an application, while unavailable or while another is in flight, changing nothing |
| `AudioRuntime.Runtime.Decode` | src/audio/audio_runtime.c:175-178 | a decoded buffer is fresh and owned by the request alone |
| `AudioRuntime.Runtime.Enter` | src/audio/audio_runtime.c:28-30 | the gate is taken, or the request goes on to release what it owns |
| `AudioRuntime.Runtime.Leave` | src/audio/audio_runtime.c:31-31 | the gate is free again and no buffer changes hands |
| `AudioRuntime.Runtime.WorkerEnter` | src/audio/audio_runtime.c:42-44 | the worker takes the gate exactly when nobody holds it |
| `AudioRuntime.Runtime.WorkerLeave` | src/audio/audio_runtime.c:51-51 | the worker gives the gate back |
| `AudioRuntime.Runtime.Commit` | src/audio/audio_runtime.c:171-188 | the gated start, with the exact result, the surviving sources and the sound that plays, as the engine states them; on success the buffer is owned by the table and no longer by the request |
| `AudioRuntime.Runtime.Release` | src/audio/audio_runtime.c:185-187 | the request frees exactly the buffer it still owns |
| `AudioRuntime.Runtime.TimerInterrupt` | src/audio/audio_runtime.c:35-40 | the timer frees nothing in any state and does nothing while the gate is taken |
| `AudioRuntime.Runtime.WorkerPoll` | src/audio/audio_runtime.c:42-54 | frees nothing while a preparation is in flight and then only polls; otherwise the stream goes on exactly on a verdict of 0, with exactly the sources that are not at their end |
| `AudioRuntime.Runtime.StopApplication` | src/audio/audio_runtime.c:217-221 | succeeds exactly on a free gate for an application that plays; then it no longer plays, otherwise nothing changes |
| `AudioRuntime.Runtime.StopAll` | src/audio/audio_runtime.c:212-216 | skipped while the gate is taken; otherwise every source goes, and a buffer still with a request in flight stays with it |
| `UserRecords.HexInverse` | src/auth/user_helpers.c:83-116 | parsing the hexadecimal text of any bytes gives the bytes |
| `UserRecords.BytesToHex` | src/auth/user_helpers.c:83-91 | the loop writes exactly the hexadecimal text and its terminator |
| `UserRecords.HexToBytes` | src/auth/user_helpers.c:93-116 | the loop accepts exactly texts of the right length made of hexadecimal digits, with their bytes |
| `UserRecords.ParseDecimal` | src/auth/user_helpers.c:118-154 | parsing the decimal text of any 32-bit value gives the value |
| `UserRecords.U32ToString` | src/auth/user_helpers.c:130-154 | the divide-and-reverse loops write the decimal text, cut to what the buffer holds; ten digits are always enough |
| `UserRecords.ParseU32` | src/auth/user_helpers.c:118-128 | the wrapping accumulator computes the leading digits modulo 2^32 |
| `UserRecords.ParseLine` | src/auth/userdb_io.c:80-210 | the one-pass parser computes the record of the colon-separated fields, or refuses, field rule by field rule |
| `UserFormat.ParseExactly` | src/auth/userdb_io.c:80-210 | a line parses exactly if its fields have the sizes and forms of the format, seven for a legacy record or ten and more with algorithm and costs in range, and each field of the record is then its own field of the line |
| `UserLines.LineRoundTrip` | src/auth/userdb_io.c:324-379 | parsing the serialised line of any storable record gives the record; a legacy line keeps no costs |
| `UserLines.ParsedIsStorable` | src/auth/userdb_io.c:80-210 | whatever parses from a line without NUL can be stored again |
| `UserLines.AppendPiece` | src/auth/user_helpers.c:160-172 | appends exactly the piece, or leaves the buffer alone when it does not fit |
| `UserLines.SerializeLine` | src/auth/userdb_io.c:324-379 | succeeds exactly when the algorithm is known and the line fits, and then the buffer holds the line |
| `UserFormat.TextExactly` | src/auth/userdb_io.c:324-379 | the line of a record in characters: its fields in the order of the format, a colon between any two, and for Argon2id the algorithm and both costs |
| `UserFormat.HexExactly` | src/auth/user_helpers.c:83-91 | two lower-case digits a byte, the high one first |
| `UserFormat.PairExactly` | src/auth/user_helpers.c:93-116 | the parser takes hexadecimal digits of either case for what they denote |
| `UserFormat.DecimalExactly` | src/auth/user_helpers.c:130-154 | a decimal text is the text of the tens and the digit of ones |
| `UserDb.FileRoundTrip` | src/auth/userdb_io.c:212-237 | reading back the file of a list of storable records gives the list |
| `UserRewrite.RewriteReadsBack` | src/auth/userdb_auth.c:208-339 | the rewritten file of any NUL-free source reads back as the same records in the same order, only the target rehashed and legacy costs zeroed |
| `UserFormat.RewriteExactly` | src/auth/userdb_auth.c:254-317 | record by record and field by field: the target has Argon2id, costs 3 and 8192, the salt drawn for it and the hash of the new password; everyone else is as before but for the costs of a legacy record |
| `UserFormat.AcceptsExactly` | src/auth/userdb_auth.c:208-339 | a rewrite goes through exactly if name and password are given, the name occurs, every derivation it needs finds memory, and the new text stays under 512 characters more than the old |
| `UserRewrite.OthersSurviveExactly` | src/auth/userdb_auth.c:208-339 | every other record survives a rewrite unchanged if and only if no other legacy record carries costs |
| `UserRewrite.CostSevenIsLost` | src/auth/userdb_io.c:341-356 | a concrete file on which changing one password alters another user record |
| `UserRewrite.LegacyCostsAreLost` | src/auth/userdb_io.c:341-356 | the family of such files: the rewrite is accepted and the other record reads back without its costs |
| `UserRewrite.LookupAfterRewrite` | src/auth/userdb_auth.c:208-339 | after a rewrite the target verifies the new password under Argon2id, and every other lookup gives the record it gave, but for the costs of a legacy one |
| `UserRewrite.LegacyNeverGrows` | src/auth/userdb_auth.c:254-288 | no rewrite adds a legacy record, and the target is no longer one |
| `UserRewrite.LineFits` | src/auth/userdb_auth.c:289-294 | no parsed or rehashed record overflows the line buffer |
| `UserRewrite.RewriteFits` | src/auth/userdb_auth.c:234-310 | on a file of canonical lines with distinct names a rewrite goes through exactly when name and password are given, the user exists and the derivation has memory: the output buffer never overflows |
| `UserStore.RewriteLine` | src/auth/userdb_auth.c:250-317 | one line is parsed, replaced, serialised and copied, or fails exactly when its derivation or the room for it does |
| `UserStore.ReplacePasswordHash` | src/auth/userdb_auth.c:208-339 | the scan computes exactly the specified new file, or refuses exactly when the specification does |
| `Login.LoginKeepsPassword` | src/auth/userdb_auth.c:53-143 | one login, of anyone, leaves a password that verified verifying, if the own record of that user carries no legacy costs and no other password logs that user in on it; whatever other lines hold |
| `Login.LoginKeepsExactly` | src/auth/userdb_auth.c:53-143 | on every database without NUL, a login leaves a password accepted that was if and only if it does not migrate, or the password survives that: rehashed alike for the user migrated, verified without legacy costs for anyone else |
| `Login.AuthenticExactly` | src/auth/userdb_auth.c:53-143 | what every law here means by an accepted login: the first record of the name, its salt, algorithm and costs, and a hash equal to the stored one |
| `Login.MigrationKeepsExactly` | src/auth/userdb_auth.c:113-139 | which passwords a migration leaves accepted, of all passwords: exactly those that rehash alike for the user migrated, and for anyone else those that verify without legacy costs; so none comes in that should not |
| `Login.MigrationShutsOut` | src/auth/userdb_auth.c:113-139 | the family of databases on which a login of one legacy user leaves the password of another no longer accepted |
| `Login.LoginShutsOutAnother` | src/auth/user_password_hash.c:81-86 | one such database with one such derivation |
| `Login.LoginsKeepPasswords` | src/auth/userdb_auth.c:53-143 | the same over every sequence of logins, migrations included |
| `Login.LoginsRetireLegacy` | src/auth/userdb_auth.c:110-139 | over every sequence of logins the number of legacy records never grows |
| `Login.AddedIsAppended` | src/auth/userdb_io.c:404-436 | an added user is read back after everyone else, whose records are as before, and names stay distinct |
| `Login.Database.FindUser` | src/auth/userdb_io.c:245-270 | finds the first record of that name |
| `Login.Database.Add` | src/auth/userdb_io.c:404-436 | refuses a present name or a line that does not fit, otherwise appends exactly the record line |
| `Login.Database.Authenticate` | src/auth/userdb_auth.c:53-143 | succeeds exactly when the first record of that name exists, a memory-hard derivation has its memory, and the hash of the password with the stored salt, algorithm and costs is the stored hash; a failed login, or one on an Argon2id record, leaves the file as it was, and a legacy record is rewritten exactly if the rewrite goes through |
| `Login.AuthenticateWithPolicy` | src/auth/userdb_auth.c:145-206 | succeeds exactly when the account is not locked and the first record of that name verifies the password; a locked account gets LOCKED and a cleared record whatever the password; success resets and failure counts, each exactly once, and a failure leaves the file as it was |
| `LockoutRuns.AllocKeepsInv` | src/auth/auth_policy.c:81-119 | allocation with eviction keeps names unique and hands out the slot of that name |
| `LockoutRuns.StepKeepsInv` | src/auth/auth_policy.c:81-189 | every failure, check or reset keeps names unique, free slots blank, unlocked entries below the threshold and lockouts within their duration |
| `LockoutRuns.RunKeepsInv` | src/auth/auth_policy.c:81-189 | the same over every run with names of 1 to 31 characters and a monotone clock |
| `LockoutRuns.StickyLockout` | src/auth/auth_policy.c:94-136 | in every run that does not reset the name itself, a locked name is still refused at every moment before its lockout ends |
| `LockoutRuns.NoEarlyLock` | src/auth/auth_policy.c:138-167 | in every run from an empty table an entry is locked only after the configured number of failures of its name since it was last reset |
| `LockoutRuns.FailuresCount` | src/auth/auth_policy.c:151-167 | a run of failures of one tracked name counts every one of them, modulo 2^32, locked or not, locks at the threshold, and changes no other slot |
| `LockoutRuns.LockoutLasts` | src/auth/auth_policy.c:161-165 | a failure that reaches the threshold has the name refused at exactly the ticks before the end of the configured duration, and allowed again from then on |
| `LockoutRuns.ThresholdLocks` | src/auth/auth_policy.c:151-167 | enough failures in a row lock the account, and it is refused at exactly the ticks before the last of them plus the configured duration, as long as the count has not wrapped |
| `LockoutRuns.TrackedExactly` | src/auth/auth_policy.c:81-92 | given a slot, a failure leaves its name tracked if and only if the name has 1 to 31 characters |
| `LockoutRuns.DistinctExactly` | src/auth/auth_policy.c:81-119 | given a slot, names stay unique through a failure if and only if the name is empty or no other slot carries what is stored of it |
| `LockoutRuns.LongNameDuplicates` | src/auth/auth_policy.c:19-23 | on the table of 32 slots as it starts out, every name of 32 or more characters takes two slots in two failures |
| `LockoutRuns.BlankExactly` | src/auth/auth_policy.c:87-92 | free slots stay blank through a failure if and only if the name is not empty or no slot is handed out |
| `LockoutRuns.EmptyNameLocksOthers` | src/auth/auth_policy.c:87-92 | on the table of 32 slots, whatever the threshold, one failure fewer of the empty name makes a fresh user locked by a single failure |
| `LockoutLaws.RefusedExactly` | src/auth/auth_policy.c:121-136 | a name is refused exactly while the slot that counts for it is locked and its end not reached |
| `LockoutLaws.CheckExactly` | src/auth/auth_policy.c:121-136 | a check changes a slot exactly when it counts for the name and its lockout is over, and then it starts from zero |
| `LockoutLaws.ResetExactly` | src/auth/auth_policy.c:138-149 | a success or an unlock clears the slot that counts for the name and no other, and after it the name is not refused at any tick |
| `LockoutLaws.FailTrackedExactly` | src/auth/auth_policy.c:151-167 | a failure of a tracked name counts in its slot, dates it and locks it from the threshold on, and changes no other |
| `LockoutLaws.FailFreshExactly` | src/auth/auth_policy.c:87-92 | a name not tracked takes the first free slot, with the first 31 characters of its name |
| `LockoutLaws.FailEvictsExactly` | src/auth/auth_policy.c:94-119 | in a full table lockouts that are over are lifted, and the entry that failed longest ago among the unlocked ones, the first of equals, gives way |
| `LockoutLaws.OneCounterEach` | src/auth/auth_policy.c:72-189 | isolation: in every timely run in which no more names fail than there are slots, the table holds for each name exactly the counter its own failures, checks and resets give, whatever others do in between |
| `LockoutLaws.RefusedByOwn` | src/auth/auth_policy.c:121-136 | so in every such run a name is refused exactly while its own counter is locked |
| `LockoutLaws.EvictionForgets` | src/auth/auth_policy.c:94-119 | with one name more than slots a counter is lost: the evicted name is as if it had never failed |
| `AuthPolicy.Policy.SetConfig` | src/auth/auth_policy.c:48-63 | zero fields take their defaults, five attempts and 600,000,000,000 ticks, so the threshold is never zero |
| `AuthPolicy.Policy.FindExisting` | src/auth/auth_policy.c:72-79 | finds the first slot in use with that name |
| `AuthPolicy.Policy.ScanFull` | src/auth/auth_policy.c:99-112 | lifts exactly the expired lockouts and finds the least recently failed unlocked slot |
| `AuthPolicy.Policy.FindOrAlloc` | src/auth/auth_policy.c:81-119 | finds, takes a free slot, evicts, or gives up, exactly as specified |
| `AuthPolicy.Policy.CheckAllowed` | src/auth/auth_policy.c:121-136 | refuses exactly an unexpired lockout, and lifts exactly an expired one |
| `AuthPolicy.Policy.IsLocked` | src/auth/auth_policy.c:169-183 | the same test and the same effect, seen from the other side |
| `AuthPolicy.Policy.RecordSuccess` | src/auth/auth_policy.c:138-149 | clears exactly the entry of that name |
| `AuthPolicy.Policy.RecordFailure` | src/auth/auth_policy.c:151-167 | counts one failure exactly as specified, and one that reaches the threshold has the name refused at exactly the ticks before now plus the configured duration |
| `AuthPolicy.Policy.Unlock` | src/auth/auth_policy.c:185-189 | clears exactly the entry of that name |
| `PathLaws.ResultCanonical` | src/auth/session.c:112-194 | from a canonical base, or for an absolute input, every result is rooted and has no empty, "." or ".." component, so it never leaves the root |
| `PathLaws.Idempotent` | src/auth/session.c:112-194 | resolving a result again, from anywhere, changes nothing |
| `PathLaws.TwoStepsAreOne` | src/auth/session.c:112-228 | for every non-empty a, resolving a and then a relative b is resolving a/b |
| `PathLaws.EmptyStepExactly` | src/auth/session.c:116-118 | for an empty a the two agree if and only if b climbs all the way out of the base |
| `PathLaws.EmptyStepDiffers` | src/auth/session.c:116-118 | from /x, the empty path then y leads to /x/y, while their joined text leads to /y |
| `PathLaws.WalkFromRoot` | src/auth/session.c:150-171 | what a walk keeps of its starting stack and what it adds, by how far it climbs |
| `PathLaws.AcceptedExactly` | src/auth/session.c:94-194 | a path is accepted exactly if the directory it starts from has at most 32 components of at most 31 characters, no name of its own is longer or goes deeper, and the text leaves the room the writer asks for |
| `SessionPath.PushComponent` | src/auth/session.c:94-110 | ignores the empty component, and pushes any other exactly when name and depth are in bounds |
| `SessionPath.LoadBase` | src/auth/session.c:120-141 | the scanning loop pushes the components of the base, or fails exactly when they do not fit |
| `SessionPath.WalkInput` | src/auth/session.c:143-171 | the scanning loop applies the components of the input one by one, or fails exactly when the specification does |
| `SessionPath.WriteStack` | src/auth/session.c:173-193 | the buffer holds the rendered stack exactly when it fits; a path other than the root needs one byte more than its text and terminator |
| `SessionPath.NormalizePath` | src/auth/session.c:112-194 | the buffer holds the resolved path exactly when the component-stack specification gives one |
| `SessionPath.Session.SetCwd` | src/auth/session.c:196-217 | moves exactly to directories, and the working directory stays canonical |
| `SessionPath.Session.ResolvePath` | src/auth/session.c:219-228 | the resolved path is canonical and exactly the specified one |
| `HostnamePolicy.Valid` | include/security/tls_hostname_policy.h:6-38 | the one-pass scan accepts exactly the strings of at most 253 characters whose dot-separated labels are 1 to 63 letters, digits or hyphens without a hyphen at either end (section 2.3.4 of RFC 1035, section 2.1 of RFC 1123) |
| `HostnamePolicy.HostnameExactly` | include/security/tls_hostname_policy.h:6-38 | the grammar position by position: letters, digits, hyphens and dots, neither end a hyphen or a dot, none of them beside a dot, and never 64 characters in a row without a dot |
| `StringOps.FilledByte` | include/util/string_ops.h:35-38 | every byte of the fill word is the fill byte |
| `StringOps.PackedByte` | include/util/string_ops.h:66-66 | a word loaded from eight bytes stores the same eight bytes |
| `StringOps.WordMemset` | include/util/string_ops.h:31-53 | for every address, length and alignment exactly the n bytes take the low byte of the value; every word store is aligned and the remaining length never underflows |
| `StringOps.AlignByBytes` | include/util/string_ops.h:60-64 | the prologue takes at most seven of at least eight bytes and ends aligned |
| `StringOps.CopyWords` | include/util/string_ops.h:65-70 | the bulk moves whole words between aligned addresses only |
| `StringOps.WordMemcpy` | include/util/string_ops.h:55-76 | for every address, length and alignment exactly the n bytes at the destination take the old bytes of the source |

## Left out

- The RAM-only branches of the slot manager, its health confirmation without verification, and the busy flag around its
  public entry points: they keep no durable state.
- The slot store's header sector and its decoder: a second codec of the same kind, which decides nothing about which slot boots.
- The internals of CRC-32, SHA-256, PBKDF2 and Argon2id, and the strength of any checksum against torn sectors.
- BlockProvider.Provider.Register: the checks on the raw device callbacks being present are not modelled.
- AudioService.Engine.StartPrepared: playback ids and stream offsets are unbounded numbers, so their 64-bit wrap-around is not modelled.
- AudioService.Engine.StartFresh: assumes the start-up bound on the device described above.
- Volume setters, level meters and status getters of the audio service, and the test tone: single assignments and reads.
- Decoding of WAV files: a decoded source is any buffer that covers its frames.
- AudioRuntime.Runtime.Commit: the gated call is one step, since the gate keeps every other actor out while it runs.
- Login.Database.Authenticate: the write of the rewritten file is atomic and succeeds; the unlink before it and a failing file system are not modelled.
- BlockProvider.Provider.OpenStore: the disk changes only through the provider and its reads succeed, so re-reading the identity finds the registered one.
- Equal timing of the failing paths and the wiping of buffers: not functional behaviour.
- The next free user and group ids, user preferences, home directories and the password policy: plain arithmetic or plumbing.
- SessionPath.Session.SetCwd: the file system is a predicate that says which paths are directories.
- Boot menu, installer, login window, drivers and everything above them.
