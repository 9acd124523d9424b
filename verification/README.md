# Register engine of the controller firmware

A Dafny model of the registers of the firmware and of the protocols around them, with proofs.

- **Lookups and write path.** Up to 32 tables map byte addresses, Modbus words and GUIDs to
  registers (`Registers`, `Lookup`). Writes arrive byte by byte, are collected in one pending
  buffer, clamped, checked, stored, copied to a mirror and acted on (`PendingBuffer` for any
  engine, `WordWrites` for single words, `WritePath`, `WriteLaws`, `WriteTheorems` for a device,
  `Kinds` and `ElementWrites` for its element types in numbers, `Device` for the code that updates
  memory in place).
- **Mirrors, flash and restarts.** `Boot` is the start of a table and `StartUp` what it leaves in
  memory; `SaveProtocol`, `SaveLaws`, `SaveTheorems` and `SaveRounds` treat saving as steps of
  writers, duty task and power failures in any order, `SaveBounds` the bounds of registers over such
  runs, `SaveVersions` tables that cannot persist; `Persistence` is the code itself.
- **Layout.** `Layout`, `ModbusAreas` and `Generator` are the generator's address, slot and GUID
  counters and its check of Modbus areas, and prove what the other parts assume of the tables;
  `Declarations` sets the tables against what was declared.
  `Inject` writes the result into source files.
- **Codecs and buffers.** `Crc16`, `CrcDivision`, `Modbus`, `ModbusPackets`, `FrameChecks`,
  `EndToEnd` and `Traffic` for Modbus, `Slip`, `SlipReceiver`, `SlipLaws`, `SlipQueue`, `SlipChain`
  and `Rfc1055` for SLIP, `Pool` for the block pool.
- `Example` is a small device that meets the assumptions of the results all at once.
- `Bits` and `Memory` hold the word operators, `memcpy` and little-endian values.

Code that works step by step is modelled by classes and methods, each proved equal to a
specification function; the results are proved about the specification. Machine words are
integers below a power of two.

Parameters stand for what cannot be seen from here: the CRC-32 of the chip's ROM
(`Config.crc32`), the decision of `rx_filter` (`Chunk.claimed`), which lines are markers
(`mark`), and coils (`Port.getCoils`, `Port.setCoils`). An NVS blob is written in one step; the
store of a register is one step, and so is its copy into the mirror.

Where things are not as one would expect:

- Stale pending bytes can complete an element early, with a mixed value; `ElementWriteExact`
  says exactly when.
- `flash_write_number` is saved but no save copies it into its mirror (`CountIsNotSaved`). Nor does
  anybody copy the saved registers `sta_ip` and `wifi_setting`, which main/wireless_control.c:93 and
  216-218 store plainly; after a power cycle they hold older values (`PlainStoreIsLost`).
- A save that fails is forgotten (`FailedSaveIsForgotten`).
- The version register that add_user_task.py:148 writes has no default. A table made with it is
  never restored once a start fell back to defaults, whatever is saved in between
  (`RestoresOnlyWhatItDid`); other tables are not affected by it (`NoLostSave`).
- The checksum of a mirror covers whole words only. regs_description.h:91-92 asks for buffers of
  whole words, but the generator adds up the saved bytes and four more.
- Values that a start loads from flash are not clamped; `StartFitsExactly` says which blobs give
  values in bounds, and `BoundsSurvive` starts from such a state.
- The comment at regs.c:421 promises 0 for an unchanged value; the code returns 1 after every
  accepted byte, and the model follows the code.
- Frames of 664 bytes or more, and all frames while no buffer is free, vanish on the way to the
  SLIP queue while ESP_OK is returned (`OfferTakenExactly`).
- Function 6 reports success when only half of its word is stored, as in registers of bytes, and
  when nothing is stored yet, as in registers of four and eight bytes. `WordsComeBackExactly` says
  when all words are stored.
- Over TCP nothing but the length of a request is checked (`TcpAcceptsAnyContent`): the station adds
  the checksum that it then compares.
- Over TCP the master does not send reads of 124 or 125 registers, which the slave would answer
  (`ReadIsSentExactly`).
- The pool can refuse while blocks are free (`RoomButRefused`).
- Behind a nested structure the generator's check masks ends instead of adding to them, because
  `+` binds tighter than `&`. In holding registers nothing may follow the first entry of a nested
  structure (`HoldingRegistersExactly`); in input registers little is accepted
  (`InputRegistersNested`), and registers that collide may be (`CollisionAccepted`).

## Model

| member | source | states |
|---|---|---|
| `Lookup.BinSearchAddress` | main/regs_description.c:342-362 | on registers sorted by address the binary search returns exactly the register a linear scan finds, or -1 exactly when the scan finds none |
| `Lookup.BinSearchGuid` | main/regs_description.c:299-318 | on registers sorted by GUID the binary search equals the linear scan |
| `Lookup.BinSearchWord` | main/regs_description.c:515-543 | on sorted word ranges the binary search equals the linear scan for a register that answers to the Modbus word |
| `Lookup.DescriptionList.AddNew` | main/regs_description.c:126-140 | a table is refused exactly when it is empty or 32 tables are there; otherwise it is appended, and the count of user variables grows in 16 bits for every table but the first |
| `Lookup.GetByAddress` | main/regs_description.c:320-340 | the search over all tables equals the scan over all tables |
| `Lookup.DescriptionList.GetByGuid` | main/regs_description.c:276-297 | the same for GUIDs |
| `Lookup.DescriptionList.GetPointerByModbus` | main/regs_description.c:545-555 | the pointer of a Modbus word is the one the scan finds |
| `Lookup.DescriptionList.GetIndexByAddress` | main/regs_description.c:387-405 | the linear search returns the global index of the register that the address search finds, and -1 exactly when there is none |
| `Lookup.DescriptionList.GetByIndex` | main/regs_description.c:186-199 | the register with a given global index, for any number of tables |
| `Lookup.ScanAddressUnique` | main/regs_description.c:387-405 | the scan result is the only index whose register holds the address while none before it does |
| `Lookup.IndexRoundTrip` | main/regs_description.c:186-199 | from a described address to its global index and back gives the register that the address search finds |
| `Lookup.AppendKeepsPlaces` | main/regs_description.c:126-140 | appending tables changes neither the place nor the global index of a described address |
| `Lookup.FindAddressUnique` | main/regs_description.c:320-340 | in a device with disjoint registers every address of a register leads to that register |
| `Lookup.FindAddressLeads` | main/regs_description.c:320-340 | an address that several descriptions hold leads to the first of them, in the first table that has one |
| `Lookup.FindGuidLeads` | main/regs_description.c:276-297 | the same for a GUID |
| `Lookup.FindWordLeads` | main/regs_description.c:545-555 | a Modbus word that several registers answer to leads into the first of them, two bytes further for every word behind its start |
| `Declarations.WordsAnswered` | main/regs_description.c:515-543 | a register answers to the word that it begins in and to every further word that it fills, and to no other |
| `PendingBuffer.BytewiseIsElementwise` | main/regs.c:424-437 | unless stale pending bytes complete its first element early, a buffer written byte by byte gives the same state, pending bytes and result as one write per element, for partial, rejected and forbidden elements too |
| `PendingBuffer.ExactlyWhenCalm` | main/regs_description.c:585-595 | inside one element bytes go together exactly when no stale pending bytes, the last new one among them, complete the element early |
| `PendingBuffer.StaleByteIsCommitted` | main/regs_description.c:585-595 | when stale bytes complete an element early, the stale byte is committed in place of the last new one, and new bytes stay pending or the write fails |
| `PendingBuffer.EarlyHappens` | main/regs_description.c:585-595 | how this comes about: in an element of two bytes the second byte is written, and then both bytes one by one |
| `PendingBuffer.NoTornElement` | main/regs.c:109-137 | unless stale pending bytes complete the first element early, the state after a buffer write is the one after the elements that it completes, whatever part of its first and last element is pending |
| `PendingBuffer.NeverTorn` | main/regs.c:424-437 | the same after any number of bytes of such a write: no part of an element is ever visible in between |
| `PendingBuffer.StopsAtBarred` | main/regs.c:424-437 | a buffer write that reaches a forbidden address keeps exactly what was complete before it and reports the address error |
| `PendingBuffer.ElementsStored` | main/regs.c:109-137 | whole elements take their checked bytes, nothing else in memory changes, nothing stays pending |
| `PendingBuffer.RunKeeps` | main/regs.c:109-137 | whatever every commit keeps, every run of accesses and buffer writes keeps |
| `WriteLaws.ClampIsNearest` | main/regs.c:160-353 | maximum first and then minimum gives the value in bounds that is nearest to the written one |
| `WriteLaws.ClampBytesInBounds` | main/regs.c:160-353 | what is stored decodes to a value in bounds, and a value in bounds is stored unchanged |
| `WriteLaws.MirrorWriteAgreesAt` | main/mirror_storage.c:95-118 | copying a register makes its slot agree with memory and leaves every other slot in agreement |
| `WriteLaws.MirrorWriteSeals` | main/mirror_storage.c:148-151 | after a copy the checksums of all mirrors are valid |
| `WriteLaws.CommitAgrees` | main/regs.c:446-467 | a commit keeps all saved registers equal to their slots and all checksums valid |
| `WriteLaws.CommitInBounds` | main/regs.c:160-353 | a commit keeps every element of every register inside its bounds |
| `WriteLaws.CommitKeepsProtected` | main/regs.c:147-158 | a commit touches no read-only byte that is not a credential, and no byte outside registers; the registers `permission`, `async_flags` and `table_to_save`, which commits themselves change, are kept beside memory |
| `WriteLaws.CredentialNeedsCommand` | main/regs.c:524-558 | the credential permission changes only by a commit to the command register, to what the command in memory says |
| `WritePath.EngineCoherent` | main/regs_description.c:578-602 | the elements of a device with disjoint registers do not overlap: all their addresses lead to the same element |
| `WriteTheorems.RunsAreSafe` | main/regs.c:109-137 | over every run of register and buffer writes: saved registers equal their mirror slots, checksums are valid, bounded elements stay in bounds, protected bytes never change; the registers `permission`, `async_flags` and `table_to_save`, which commits themselves change, are kept beside memory |
| `WriteTheorems.BufferStored` | main/regs.c:424-437 | a buffer over whole elements that take their bytes, text and permitted credentials among them, leaves each element at its clamped value and every other byte unchanged |
| `WriteTheorems.ClampAtValue` | main/regs.c:160-353 | the stored bytes decode to the clamp of the little-endian value of the written bytes |
| `WriteTheorems.UnboundedBufferStored` | main/regs.c:424-437 | without bounds the bytes are stored as they are |
| `WriteTheorems.BufferStopsAtBarred` | main/regs.c:147-158 | a buffer that runs into a forbidden address stores exactly the complete elements before it |
| `WriteTheorems.BufferStopsAtNoText` | main/regs.c:119-130 | a buffer that comes to bytes which are no text, for a text register, stores exactly what is before them and reports the value error |
| `WriteTheorems.ProtectedIsBarred` | main/regs_description.c:408-426 | a read-only byte that is no credential is forbidden whatever the permission says |
| `WriteTheorems.ElementWriteExact` | main/regs_description.c:578-630 | for a device: byte-wise and at-once writing of an element agree if and only if no stale pending bytes complete it early |
| `Kinds.WidthIsSize` | main/regs.c:386-416 | one, two, four or eight bytes for every kind, and n times as many for n elements |
| `Kinds.RangeInNumbers` | main/regs.c:160-353 | the least and the largest value of every integer kind |
| `Kinds.DecodedInNumbers` | main/regs.c:160-353 | the value of the bytes of an element, the lowest byte first: a pattern of a signed kind whose top digit is set stands for a negative number |
| `ElementWrites.TooFewBytesWait` | main/regs_description.c:578-618 | fewer bytes than an element has (2 for U16 and S16, 4 for Float, U32, S32, Int32 and Time, 8 for Double, U64 and S64), in whatever place of it, leave memory, mirrors and requests as they are if nothing of it was pending |
| `ElementWrites.AllBytesAreStored` | main/regs.c:109-137 | all 1, 2, 4 or 8 bytes of an element without bounds are stored with the last of them, and nothing else in memory changes |
| `ElementWrites.BoundedValueIsStored` | main/regs.c:160-353 | a whole element is stored as written between the minimum and the maximum of that element, as its minimum below and as its maximum above (as its minimum if that is the larger one), read out of the arrays of bounds at that element's own place |
| `ElementWrites.RefusedExactly` | main/regs.c:147-158 | a byte is refused with -2, and nothing changes, if and only if its register is read-only and not a credential that may be written now |
| `ElementWrites.NowhereIsRefused` | main/regs.c:147-158 | so is a byte at an address that no register holds |
| `ElementWrites.CommandSwitches` | main/regs.c:524-558 | 0x53ff written to the command register permits writing credentials, 0x5400 forbids it, every other value leaves it as it was |
| `ElementWrites.SaveRequestedExactly` | main/mirror_storage.c:95-118 | a written element asks for a save of its table if and only if its register is saved and memory has changed; otherwise mirrors and requests stay as they are |
| `Device.RegisterBank.FillTempBuffer` | main/regs_description.c:578-602 | the buffer is restarted for another element, bytes beyond the element are cut off, bytes and flags are set together |
| `Device.RegisterBank.CheckTempBuffer` | main/regs_description.c:603-618 | true exactly when every byte of the element was written |
| `Device.RegisterBank.ClearTempBuffer` | main/regs_description.c:620-630 | afterwards nothing is pending |
| `Device.RegisterBank.WriteValueCheck` | main/regs.c:160-353 | the clamped bytes, and rejection exactly of non-text in a text register |
| `Device.RegisterBank.RequestFlashSave` | main/mirror_storage.c:164-169 | the bit of the table is added to the requests and the flag is set |
| `Device.RegisterBank.MirrorAccessWrite` | main/mirror_storage.c:95-118 | the new state is the specified one; 1 exactly when the slot differed from memory |
| `Device.RegisterBank.RegsHandleSets` | main/regs.c:446-467 | copy to the mirror and, for the command register, its effect on the credential permission |
| `Device.RegisterBank.RegsSet` | main/regs.c:109-137 | state, pending bytes and result are exactly those of one access of the engine; what that stores, by kinds and numbers, is said by `ElementWrites` |
| `Device.RegisterBank.RegsSetBuffer` | main/regs.c:424-437 | the byte loop with its break equals the byte-wise write for which `TooFewBytesWait`, `AllBytesAreStored` and `BytewiseIsElementwise` hold |
| `Boot.BootConsistent` | main/mirror_storage.c:285-325 | after start-up saved registers hold one valid blob of the current version or all registers hold defaults; each saved register equals its slot and the checksum is valid; `StartExactly` says what the defaults are |
| `StartUp.RestoresExactly` | main/mirror_storage.c:243-325 | a blob is used if and only if it is as long as the buffer, its last four bytes are the checksum of the whole words before them, and the last version register finds the current version in its slot, or in its default when it is not saved |
| `StartUp.StartExactly` | main/mirror_storage.c:285-325 | after a start, with any flash contents, a saved register of a table whose blob is used has the bytes of its slot in the blob; every other register has the bytes that its `p_default` points to, or zeros where that is NULL |
| `StartUp.RejectedBlobRemains` | main/mirror_storage.c:243-325 | a blob that is not used stays in the mirror between the slots, unless it is longer than the buffer; otherwise there are zeros |
| `Boot.SavedMirrorRestores` | main/mirror_storage.c:243-283 | a sound mirror that was saved comes back unchanged at the next start |
| `Boot.NoVersionDefaultNoRestore` | main/mirror_storage.c:306-318 | the mirror that a fall-back makes carries a version that a start accepts if and only if the default of the version register is the current version |
| `Boot.UncoveredByteUnnoticed` | main/mirror_storage.c:148-151 | damage behind the last whole word before the checksum never changes the result of the check |
| `Boot.CoverageExact` | main/mirror_storage.c:148-151 | the checksum covers all saved bytes if and only if the buffer is a whole number of words, and misses at most three |
| `Persistence.MirrorStorage.SetRegsDefValues` | main/regs_description.c:557-576 | every register of the table has all bytes of its default, of every element, or zeros where there is none; nothing else changes |
| `Persistence.MirrorStorage.MirrorAccessInitBuffer` | main/mirror_storage.c:73-94 | all slots take the values in memory and the mirror is sealed |
| `Persistence.MirrorStorage.RestoreMirrorFromFlash` | main/mirror_storage.c:243-283 | success exactly for a blob of the right size with a valid checksum; the buffer holds what was loaded |
| `Persistence.MirrorStorage.PreinitTableVars` | main/mirror_storage.c:285-325 | memory and mirror are exactly the specified start-up values, though a version mismatch overwrites what was loaded first; what is not taken from the blob is a default, or zeros |
| `Persistence.MirrorStorage.StartAll` | main/mirror_storage.c:285-325 | starting all tables one after the other from cleared RAM gives exactly the memory and the mirrors of a restart in the protocol |
| `Persistence.DutyTask.RequestAllTables` | main/sleep_control.c:98-101 | requesting all tables before a deep sleep is the protocol step for it |
| `Persistence.DutyTask.TakeOver` | main/common.c:167-174 | grabbing and clearing the requests is the protocol step for it |
| `Persistence.DutyTask.SaveMirrorToFlash` | main/mirror_storage.c:207-241 | when the commit succeeds the blob becomes the mirror; the write count goes up, up to its largest value, also when it fails |
| `Persistence.DutyTask.SaveRequested` | main/common.c:176-186 | the loop over set bits saves the requested tables, lowest first, whichever of the saves fail |
| `Persistence.DrainedIsRun` | main/common.c:176-186 | that loop is a run of the protocol, with its failed saves, that leaves nothing in the duty task's hands |
| `Bits.SetBitsClear` | main/common.c:181-184 | the trailing-zero count is the lowest set bit, and x & (x - 1) removes exactly that bit |
| `SaveLaws.RestartEstablishes` | main/mirror_storage.c:285-325 | a start establishes the invariant, with nothing exempt, for every set of tables each of which has the current version as its version default or a blob that restores; nothing is asked of other tables |
| `SaveLaws.StepKeepsInvariant` | main/mirror_storage.c:95-118 | every step of a writer, of code that stores without copying, of the duty and sleep tasks or of the power supply keeps the invariant of the tables that persist; exempt are registers from a plain store to their next store by a writer, copy or start, and tables from a failed save until they are due or saved again |
| `SaveLaws.NoLostSave` | main/common.c:167-186 | in every interleaving, for each table that persists, a mirror that a restart would not bring back is requested, in the duty task's hands, or about to be requested, unless its save has failed and nobody has asked for it or saved it since; and a saved register that differs from its slot has a writer about to copy it, unless it was stored into without a copy, as `sta_ip`, `wifi_setting` and the write counter are |
| `SaveTheorems.SurvivesExactly` | main/mirror_storage.c:285-325 | of a table that persists and is settled (not due for saving, no save of it forgotten), whatever goes on elsewhere, a power cycle brings every saved register back as its slot holds it, so that a value survives exactly when the slot holds it |
| `SaveTheorems.RunsAreDurable` | main/mirror_storage.c:207-325 | wherever a run is cut, with other writers and saves under way and failed saves among them, a saved register keeps its value over preinit_table_vars if its table is settled, no writer is about to copy it, and it was not last stored into without a copy |
| `SaveTheorems.PlainStoreIsLost` | main/wireless_control.c:93 | a saved register that is stored into without a copy gets its slot back at a power cycle, not the value |
| `SaveTheorems.PersistentIsDurable` | main/mirror_storage.c:207-325 | RunsAreDurable from any flash contents on, for each table by itself: it needs the current version as its version default or a blob that restores |
| `SaveTheorems.BlobIsLastSave` | main/mirror_storage.c:207-241 | over every run a blob is what the mirror was at the last save of its table, or unchanged when there was none |
| `SaveTheorems.DrainSaves` | main/common.c:176-186 | a table that the duty task took over is saved when it is done, whatever writers do in between: the blob is the mirror at the moment of its last save |
| `SaveTheorems.CountIsNotSaved` | main/mirror_storage.c:212-214 | no save copies the count of flash writes to its mirror, so a restart brings back an older count |
| `SaveTheorems.FailedSaveIsForgotten` | main/common.c:181-184 | over every run, what a start would not bring back is left without anybody to save it exactly when a save of the table failed and nobody has asked for the table or saved it since |
| `SaveRounds.UnchangedIsNotSaved` | main/mirror_storage.c:95-118 | a copy goes on to ask for a save if and only if its register is saved and the slot differed; otherwise only the writer has moved on |
| `SaveRounds.EveryTableIsAsked` | main/sleep_control.c:98-101 | before a deep sleep each of the first 32 tables is asked for |
| `SaveRounds.PowerCycleForgets` | main/mirror_storage.c:285-325 | after a power failure nothing is due, nobody is writing, and the flash is as it was |
| `SaveRounds.TakenAtOnce` | main/common.c:167-174 | the duty task takes all requests and leaves none when the flag is set, and does nothing otherwise |
| `SaveRounds.RoundLeavesNothingDue` | main/common.c:167-186 | when a round of the duty task is over and nobody asked in between, whatever else was stored and copied, only tables that a writer is about to ask for are due |
| `SaveRounds.SavesAreCounted` | main/mirror_storage.c:207-241 | over every run in which nobody else writes it, the count of saves grows by the number of saves of existing tables, failed ones among them, and stops at 4294967295 |
| `SaveTheorems.FlashIsAccountable` | main/mirror_storage.c:220-232 | wherever a run is cut, failed saves included, the blob of a table that persists is the first one or one the next start accepts |
| `SaveTheorems.StartFinds` | main/mirror_storage.c:285-325 | a start makes all saved registers of a table equal to their slots, loads them from one blob or from defaults, and leaves a valid checksum |
| `SaveTheorems.StartAfterCrash` | main/mirror_storage.c:285-325 | the start after any run loads all saved registers of a table from one blob, or all from defaults, and the others from defaults; for a table that persists the blob is the first one or one that is accepted |
| `SaveVersions.RestoresOnlyWhatItDid` | main/mirror_storage.c:306-318 | a table whose version register has another default than the current version is restored by the start after a run if and only if it was restored by the start before it |
| `SaveVersions.StepLoses` | main/mirror_storage.c:95-118 | once such a table has fallen back, no store, copy, request, save, failed save or power cycle brings its version back |
| `SaveBounds.BoundsSurvive` | main/regs.c:160-353 | when all stores into a bounded register go through the write path, each from the memory it finds, or carry values in bounds themselves, the register stays in bounds in memory, mirror and flash over every run with saves, failed saves and power cycles |
| `SaveBounds.CheckedStepFits` | main/regs.c:160-353 | what the write path stores from memory in bounds is in bounds, whatever the bytes, the element and the permission |
| `SaveBounds.StartFitsExactly` | main/mirror_storage.c:285-325 | after a start a register with a default in bounds is in bounds if and only if no blob is restored, it is not saved, or its slot in the blob is in bounds |
| `SaveBounds.CommitIsSteps` | main/regs.c:109-137 | a commit of the write path is exactly store, copy and request of one writer |
| `SaveBounds.CommitFits` | main/regs.c:160-353 | a commit leaves its register in bounds if it found it in bounds |
| `Layout.GuidInjective` | generator/regs_handl.py:474-485 | spaces 0-99, functions 1-4 and indices below 8192 give different GUIDs for different arguments |
| `Layout.GuidIncreases` | generator/regs_handl.py:474-485 | inside a structure GUIDs increase strictly with the index |
| `Layout.GuidInNumbers` | generator/regs_handl.py:474-485 | the GUID of every space, function and index, as a number |
| `Layout.SoundGuids` | generator/regs_handl.py:474-485 | the GUIDs of a laid out structure of up to 8192 entries are strictly sorted, as the search by GUID needs |
| `Layout.GuidFindsItsRegister` | main/regs_description.c:276-297 | in laid out tables of different structures the search by GUID finds exactly the register with it |
| `Layout.LaidSound` | generator/regs_handl.py:117-181 | for every list of declarations the entries lie one behind the other, with their own GUID, word and slot; what each entry says of its values is `LaidExactly` |
| `Declarations.LaidExactly` | generator/regs_handl.py:157-180 | declarations are accepted if and only if none of them is a time; then there is one entry for each of them that has a size, and one of 28 values for each element of a nested structure, in their order and no other; each agrees with its declaration in kind, size, default, minimum, maximum, read-only, saving, credential and version, and lies behind exactly the bytes, and the saved bytes, of those before it |
| `Declarations.NextPieceIsBehind` | generator/regs_handl.py:157-180 | the next register begins 1, 2, 4 or 8 bytes further for each value of the kind |
| `Layout.SoundIsSorted` | generator/regs_handl.py:157-180 | addresses are sorted and ranges disjoint |
| `Layout.SlotsExactly` | generator/regs_handl.py:494-518 | slots are disjoint and clear of the checksum if and only if nothing is saved or the buffer holds all slots and four bytes more |
| `Layout.WordsExactly` | generator/regs_handl.py:493 | Modbus words are strictly sorted and disjoint if and only if no register but the last is one byte in the lower half of a word |
| `Layout.WordFindsItsByte` | main/regs_description.c:515-555 | a word leads to byte 2w of its structure, one further in a register at an odd offset |
| `Layout.UserTaskTable` | generator/regs_generator.py:128-151 | the table of a user task is in order, and one byte less of buffer would put a slot into the checksum |
| `Layout.MainTable` | main/regs.c:63-73 | the main table is in order if and only if its saved registers take at most 492 bytes |
| `Layout.LaidOutDevice` | generator/regs_generator.py:119-152 | laid out tables in different storage satisfy what lookups, write path and start-up ask of a device |
| `Example.ExampleIsInOrder` | generator/regs_handl.py:117-181 | the layout of a structure with a bounded word, a version and a byte meets what lookups, write path and start-up assume |
| `Generator.RegsHand.AddUserTaskVariable` | generator/regs_handl.py:487-520 | one entry at the current counters that agrees with its declaration in all properties, one index more, and the saved size of the structure |
| `Generator.RegsHand.HandleUserTaskField` | generator/regs_handl.py:157-180 | a declaration gives the specified entries, one for each nested structure; a time is an error |
| `Generator.RegsHand.HandleUserTask` | generator/regs_handl.py:117-181 | the loop over a user task's declarations gives the specified layout, and the buffer size its slots need |
| `Generator.RegsHand.UpdateModbusArea` | generator/regs_handl.py:532-566 | accepted exactly when the area agrees, its end grows and the start lies behind the last end of its side, server or client; the other side is left alone |
| `Generator.RegsHand.HandleMain` | generator/regs_handl.py:217-247 | a main structure, nested structures included, is accepted if and only if its layout exists and every entry passes the check with the ends that nested structures mask |
| `Generator.HoldingRegistersExactly` | generator/regs_handl.py:532-566 | functions 1 and 3: accepted if and only if starts increase and no entry follows the first one of a nested structure, not even its second element |
| `Generator.InputRegistersNested` | generator/regs_handl.py:532-566 | functions 2 and 4: in a structure that starts at the mask of its nested structure or later, that one must come first, and at most 112 entries are accepted |
| `ModbusAreas.CheckMeansWordsSorted` | generator/regs_handl.py:551-565 | without nested structures, what the check accepts is what the search by Modbus word needs, and nothing less |
| `ModbusAreas.OddNestedIsLast` | generator/regs_handl.py:536-537 | the same for any list of entries of functions 1 and 3, as an if-and-only-if |
| `ModbusAreas.EvenNestedEnds` | generator/regs_handl.py:536-537 | for functions 2 and 4 every end behind a nested structure is at most the mask of its kind, grows with every entry, and the entry before the structure starts below the mask |
| `ModbusAreas.CollisionAccepted` | generator/regs_handl.py:532-566 | input registers in which two registers share a word behind a nested structure, and which are accepted |
| `Inject.InjectBlock` | generator/regs_generator.py:155-189 | one pass gives the specified file, and success exactly when both markers occur |
| `Inject.InjectIdempotent` | generator/regs_generator.py:155-189 | injecting a marker-free block twice is injecting it once |
| `Inject.InjectKeepsOutside` | generator/regs_generator.py:175-184 | all markers and all lines outside regions keep content and order |
| `Inject.RegionsHoldBlock` | generator/regs_generator.py:175-184 | afterwards every closed region holds exactly the block, and there are as many as before |
| `Inject.UnclosedRegionIsLost` | generator/regs_generator.py:172-184 | a region without an end marker loses all its lines |
| `Crc16.ModbusCrc16` | main/modbus.c:79-94 | the byte and bit loops compute the run over at most 254 bytes, which `ModbusCrcIsRest` shows to be the standard's division |
| `CrcDivision.ModbusCrcIsRest` | main/modbus.c:79-94 | the checksum of every frame is the remainder of a long division: of its first 254 bytes, the lowest digit of each first, and sixteen zeros, with the first sixteen digits inverted, by x^16 + x^15 + x^2 + 1 |
| `Crc16.ModbusCrc16Check` | main/modbus.c:103-111 | true exactly for three bytes or more whose stored checksum, low byte first, is that of the rest |
| `Crc16.CheckIsZeroRun` | main/modbus.c:103-111 | within the cap a frame passes exactly when the run over data and stored checksum leaves zero |
| `Crc16.ModbusDetectsAdjacentChange` | main/modbus.c:79-111 | any change of a valid frame confined to two adjacent bytes is detected |
| `Crc16.ModbusIgnoresBytesPastCap` | main/modbus.c:82 | beyond 254 bytes data is not checked at all |
| `Crc16.CalcCrc16` | main/crc.c:108-120 | the loops compute the unreflected run |
| `CrcDivision.PacketCrcIsRest` | main/crc.c:108-120 | the checksum of every settings packet is the remainder that x^16 + x^12 + x^5 + 1 leaves of its digits, highest first, and sixteen zeros |
| `Crc16.CheckCrc16` | main/crc.c:60-73 | true exactly when the stored checksum is that of the bytes before it |
| `Crc16.Crc16SeparatesPairs` | main/crc.c:108-120 | payloads of one length that differ only in two adjacent bytes have different checksums |
| `Modbus.RequestPasses` | main/modbus.c:461-526 | every built request (what else passes is `RequestAcceptedExactly`) of functions 1-6, 15 and 16 passes the slave's check, function 16 if and only if it carries at most 123 words |
| `FrameChecks.RequestAcceptedExactly` | main/modbus.c:446-526 | a request that came in at most 256 bytes is accepted if and only if the run over the bytes that it announces (8 for functions 0 to 6, 9 and the count for 15 and 16, all for 0x41) leaves zero, beyond 256 bytes if the run over 254 of them is the stored checksum; -1 is the answer exactly to other functions |
| `FrameChecks.DamagedRequestIsRejected` | main/modbus.c:446-526 | an accepted request of up to 256 bytes that is damaged in two adjacent bytes, without another length, is not accepted |
| `FrameChecks.RefusedExactly` | main/modbus.c:216-411 | words are refused with 3 exactly for a number that is not between 1 and 125, with 2 exactly for an address without a register, else by what the registers report; other functions are refused with 1 |
| `FrameChecks.CoilsRefusedExactly` | main/modbus.c:175-379 | the same for coils: the first and the last one must exist, 1 to 2000 are read, 1 to 1968 written, one is set to 0xff00 or 0 |
| `FrameChecks.RequestInBytes` | main/modbus.c:627-717 | every byte of the requests that the master builds, and when it builds none |
| `Modbus.ReplyAgrees` | main/modbus.c:531-599 | every reply has a valid checksum; without error exactly the predicted length and acceptance by the response check, with error five bytes |
| `FrameChecks.ReplyAcceptedExactly` | main/modbus.c:531-597 | a reply is accepted if and only if its function is 0x41, or the run over its 8 bytes, or over its count and five more, leaves zero and a single coil answers with one of its two values |
| `FrameChecks.DamagedReplyIsRejected` | main/modbus.c:531-597 | an accepted reply damaged in two adjacent bytes, without another length, is not accepted |
| `FrameChecks.DamagedReplyHasNoWords` | main/modbus.c:1043-1056 | from a reply damaged in two adjacent bytes, wherever they are, the master takes no words |
| `Modbus.TcpRequestPasses` | main/modbus.c:606-614 | the same for requests over TCP |
| `FrameChecks.TcpAcceptedExactly` | main/modbus.c:606-614 | over TCP a request is accepted if and only if, with the checksum that is added behind it, RTU would accept it |
| `FrameChecks.TcpAcceptsAnyContent` | main/modbus.c:606-614 | so every request with a known function and the length that it announces is accepted, whatever its bytes are |
| `FrameChecks.TcpRequestInBytes` | main/modbus.c:718-737 | the header of a request over TCP, byte by byte |
| `Modbus.TcpReplyAgrees` | main/modbus.c:819-827 | over TCP a reply has exactly the predicted length, nine bytes with an error, and its header announces what follows |
| `Modbus.ReadIsSentExactly` | main/modbus.c:1010-1022 | the master sends reads of up to 125 registers over RTU, and of no more than 123 over TCP |
| `ModbusPackets.HtonsBuff` | main/modbus.c:65-71 | every word of the range is swapped, nothing else |
| `ModbusPackets.MakePacket` | main/modbus.c:627-717 | the buffer holds exactly the request and its checksum, or -1 for what cannot be built |
| `ModbusPackets.RtuPacket` | main/modbus.c:165-419 | the request in the buffer becomes exactly the specified reply, and the registers change exactly as specified |
| `ModbusPackets.TcpPacket` | main/modbus.c:136-150 | the same behind a header of six bytes, whose length is updated |
| `ModbusPackets.ErrPacketType` | main/modbus.c:420-439 | an error packet has five bytes with checksum, or nine without over TCP |
| `Modbus.TcpReplyUnwraps` | main/modbus.c:1036-1041 | what the master checks of a reply over TCP is, with the added checksum, the reply that RTU would carry |
| `ModbusPackets.TakeWords` | main/modbus.c:1031-1057 | over RTU and TCP: words are copied, as many as the destination holds, only after address, byte count and checksum were checked, and the three result codes say which check failed |
| `EndToEnd.RequestsAreBuilt` | main/modbus.c:627-717 | the requests of the round trip are those the master builds |
| `EndToEnd.ReadServed` | main/modbus.c:216-275 | functions 3 and 4 answer with the bytes at the word's address, the two of each word exchanged |
| `EndToEnd.ReadsAreMemory` | main/modbus.c:216-275 | what a master reads of a device with function 3 or 4 is what lies in memory, the low byte before the high byte, and nothing changes |
| `EndToEnd.WordsRoundTrip` | main/modbus.c:380-407 | words written with function 16 into whole unbounded elements that take them and read with function 3 come back as they were, and memory changes only there |
| `EndToEnd.TcpRoundTrip` | main/modbus.c:136-150 | the same over TCP, from the two requests behind their headers to the words that the master takes out of the reply |
| `EndToEnd.WordsOverTcp` | main/modbus.c:1031-1057 | a reply that carries words over TCP is decoded to these words |
| `EndToEnd.WordReadsAs` | main/modbus.c:309-338 | what function 3 reads after function 6 wrote a word into an unbounded register, for elements of any size and anything pending: the word, only its low byte, or what was there |
| `EndToEnd.WordsComeBackExactly` | main/modbus.c:309-338 | every word written with function 6 comes back with function 3 if and only if the word ends inside its element and completes it |
| `WordWrites.WordWritten` | main/regs_description.c:578-602 | the same for the bytes in memory, for every engine |
| `WordWrites.WordsLandExactly` | main/regs_description.c:578-602 | both bytes of every word reach memory if and only if the word ends inside its element and completes it |
| `EndToEnd.LongerNeedPending` | main/regs_description.c:603-618 | a word completes its element if and only if all other bytes of the element are pending |
| `EndToEnd.TwoBytesComplete` | main/modbus.c:309-338 | elements of two bytes are always completed, whatever is pending |
| `Traffic.PacketIsCall` | main/modbus.c:165-419 | a packet makes at most one call of the write path, or writes coils that are described |
| `Traffic.TrafficIsSafe` | main/modbus.c:165-419 | after any sequence of packets, well-formed or not, mirrors agree, bounded elements are in bounds and protected bytes are unchanged, if writes of coils, where any are described, reach no byte of a saved, bounded or protected register; the registers `permission`, `async_flags` and `table_to_save`, which commits themselves change, are kept beside memory |
| `Slip.Transmit` | main/slip_handle.c:131-168 | the buffer holds exactly the frame of what was taken of the chained payload, and is never overrun |
| `Rfc1055.TransmittedIsRfc` | main/slip_handle.c:131-168 | what is sent is a frame of RFC 1055: 192 at both ends and nowhere else, and a decoder of its own reads the payload out of it, all of it if and only if the bytes before its last one take less than 1324 bytes escaped, and else a prefix that takes 1324 or 1325 |
| `Rfc1055.ReceiverReadsRfc` | main/slip_handle.c:351-389 | of every frame of RFC 1055, whoever sent it, the receiver delivers the payload, unless that is empty |
| `Rfc1055.BrokenEscapeDrops` | main/slip_handle.c:351-389 | 219 before anything but 220 and 221 drops what was collected |
| `Rfc1055.ChunkReadExactly` | main/slip_handle.c:336-396 | a chunk is read if and only if it is not claimed and fits with what is collected into 1327 bytes; otherwise both are dropped |
| `Rfc1055.TwentyBuffers` | main/slip_handle.c:52-71 | there are twenty buffers, the last free one is used first, and a frame of 664 bytes is dropped |
| `SlipReceiver.UartReceiver.Receive` | main/slip_handle.c:336-396 | one read changes the receiver and delivers frames exactly as specified, and the length guard keeps every byte in the buffer |
| `SlipLaws.FrameComesThrough` | main/slip_handle.c:351-389 | from any state, after any noise, a frame is delivered and leaves the receiver idle |
| `SlipLaws.SlipRoundTrip` | main/slip_handle.c:336-396 | a stream of frames delivers exactly its payloads in order, for every cut into accepted chunks |
| `SlipLaws.ShortChunksRoundTrip` | main/slip_handle.c:348 | unclaimed chunks that leave room for the longest payload are always accepted, so the stream comes through |
| `SlipLaws.TransmittedArrives` | main/slip_handle.c:140-161 | an over-long payload arrives as a prefix, inside a well-formed frame that fits the buffer |
| `SlipLaws.KeptWholeExactly` | main/slip_handle.c:141 | a payload is taken whole if and only if all but its last byte leave room for one more |
| `SlipLaws.TruncatedIsNeverQueued` | main/slip_handle.c:54 | a frame short enough for the send queue is never a truncated one |
| `SlipQueue.GetBuffer` | main/slip_handle.c:411-421 | the last free buffer, if there is one |
| `SlipQueue.QueueHasRoom` | main/slip_handle.c:61-65 | when a free buffer was found the queue is not full |
| `SlipQueue.SentInOrder` | main/slip_handle.c:297-317 | in every interleaving the UART got a prefix of the accepted frames, the rest is on its way, and used buffers are exactly those on their way |
| `SlipQueue.OfferTakenExactly` | main/slip_handle.c:52-71 | an offered frame is taken if and only if it has less than 664 bytes and a buffer is free |
| `SlipChain.ChainDelivers` | main/slip_handle.c:297-396 | the link as a whole: what the UART got, cut into any accepted chunks, delivers exactly the payloads of the frames sent, in order, each of them the encoding of an offered payload |
| `SlipQueue.EmptyFrameBreaks` | main/slip_handle.c:414-417 | an empty frame leaves its buffer free while it is queued |
| `Pool.AllocateFailsExactly` | main/memory_handle.c:110-127 | allocation fails if and only if all blocks from the current index on are taken and, beyond index 0, block 0 too |
| `Pool.AllocateTakesFree` | main/memory_handle.c:110-127 | a block was free before it is handed out and no other block is touched |
| `Pool.AllocateTakesFirst` | main/memory_handle.c:110-127 | the block is the first free one from the current index on, or else block 0 |
| `Pool.ReleaseExactly` | main/memory_handle.c:189-210 | freeing succeeds exactly for block addresses and clears just that block; errors change nothing |
| `Pool.ReleaseCodes` | main/memory_handle.c:189-210 | -2 exactly for NULL, -3 before the pool, -4 inside a block, -5 behind the pool |
| `Pool.HeldIsLive` | main/memory_handle.c:110-210 | over all runs in which clients free only what they hold, the marked blocks are exactly the held ones |
| `Pool.AllocateIsFresh` | main/memory_handle.c:110-127 | no held block is handed out again |
| `Pool.LiveBlocksApart` | main/memory_handle.c:110-127 | blocks in use are disjoint and inside the pool |
| `Pool.HandedInOrder` | main/memory_handle.c:110-127 | without frees a new pool hands out all its blocks in order and then none |
| `Pool.IndexRoundTrip` | main/memory_handle.c:135-166 | a pointer into a block leads to its index and the index back to the block |
| `Pool.RoomButRefused` | main/memory_handle.c:114-118 | after three allocations and a free in the middle the pool refuses although it has room |
| `Pool.PoolControl.Alloc` | main/memory_handle.c:110-127 | the probing loop is the specified allocation |
| `Pool.PoolControl.Free` | main/memory_handle.c:189-210 | the chain of checks is the specified release, with its codes |

## Left out

- Device.RegisterBank.WriteValueCheck: minimum and maximum of float and double registers, where NaN passes every comparison. Registers of these kinds are modelled without bounds.
- ModbusPackets.MakePacket: the coils of function 15 come packed. No generated table has coils; only their lookups, lengths and errors are modelled.
- ModbusPackets.RtuPacket: the bits of coils (functions 1, 2, 5 and 15) come from the `Port` and go to it packed. Register state is passed through the `Port` and returned; the packet is rewritten in place.
- `table_to_save`, the save bit of `async_flags` and the credential bit of `permission` are registers themselves; the model keeps them beside memory, as a write path that may not write them sees them.
- Device.RegisterBank.RegsHandleSets: effects of `execute_main_command` other than the credential permission, and the reset of table 0 at run time, which clears all save requests.
- SaveTheorems.RunsAreDurable: `regs_init` (main/regs.c:86-98), which after every start of table 0 increments the saved `reset_num` and resets the table when the Wi-Fi texts are unusable. The same holds of `SurvivesExactly` and `PersistentIsDurable`.
- Stores into version registers: these are read-only and no task writes them, so the save protocol has no such step.
- The interleaving of a writer's store and a concurrent copy of the same register inside one `memcpy`, and two callers of the one pending buffer.
- Persistence.DutyTask.SaveMirrorToFlash: where the namespace holds no blob, the code compares the mirror with an uninitialised buffer (main/mirror_storage.c:222-225), and by chance may skip the save. The method takes this case as different; in the protocol such a save is a `SaveFails`.
- Persistence.MirrorStorage.StartAll: the tasks start their tables while others run already; the model starts all of them before any task stores.
- SaveTheorems.PlainStoreIsLost: which registers are stored plainly is not part of the model; any register but the version may be.
- Mirrors are values that the methods replace, not byte arrays updated in place; the slot positions written are the same.
- Modbus.ReplyAgrees: register contents come from the `Port`; memory beyond the end of the modelled memory reads as zeros.
- ModbusPackets.TakeWords: the transaction before it, with its timeouts and sockets, and a destination that is NULL.
- `modbus_packet_for_me`, whose broadcast address is 255, and the dynamic address spaces.
- Slip.Transmit: the settings packets `!I` and `!S`, and what lwIP does with a delivered frame.
- SlipQueue.SentInOrder: one producer; two of them could take the same free buffer.
- Pool.PoolControl.Alloc: addresses are not wrapped at 32 bits; `os_pool_delete` and `os_pool_calloc` are not modelled.
- Generator.InputRegistersNested: says nothing of structures that start below the mask; `CollisionAccepted` is one of them. What is accepted there is what `HandleMain` says.
- Parsing of C headers and JSON by the generator, and duplicate names.
- Lookups by name and conversion of values to text.
- Wi-Fi, HTTP, displays, sensors and the other user tasks: device input and output.
