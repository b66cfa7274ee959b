# Boot-image provisioning: a verified model

This project models the provisioning stack that puts boot images, firmware and
partition tables on an Intel Android device, and proves what that stack is for.
Everything is Dafny; `dafny verify dfyconfig.toml` checks it.

**The OSIP store** (`Osip*.dfy`). Sector 0 of the disk holds a 224-byte header
that indexes up to eight images, each in one of nine OS slots or two firmware
slots. An update goes to a free slot and the header is replaced last. The model
has the byte format (`OsipFormat`), the slot allocator (`OsipSlots`,
`OsipLayout`), naming (`OsipView`), the decision what a write will do
(`OsipStore`), the commit protocol (`OsipCommit`), whole runs (`OsipRuns`,
`OsipInvariants`, `OsipStarvation`), the header on the disk byte by byte
(`OsipHeaderBytes`), reading back (`OsipReadback`) and the imperative code
itself, a block device written piece by piece with transfers of any length and
errors anywhere (`OsipDevice`). Results: the disk refines a map from names to
images over every run; a power cut at any point of a flash shows the whole old
or the whole new map; the slot discipline, the checksum, the fixed header bytes
and the index of every name survive every run; invalidation survives
reflashing; and a free slot is always left while images leave two sectors of
theirs unused. The device records every content the disk has had, so that the
atomicity statement is about the code and not only about the specification.

**Packing and unpacking** (`BootImage`, `EndToEnd`). Packing, flashing, reading
back and unpacking return the kernel and the ramdisk, after any run.

**The boot partitions** (`Umip`, `UmipStore`). Three overlapping checksums hold
together after every write; the token area survives firmware updates.

**The parallel diff scheduler** (`DiffScheduler`), a lock and a shared iterator
over any number of workers, as a state machine over its steps; **the
multi-display composer** (`ComposerModel`, `ComposerProperties`,
`ListenerVector`, `Composer`); and four loops against simple specifications: the firmware scan
(`FirmwareScan`), the bootloader container walk (`Bootloader`), script wrapping
(`WordWrap`) and the rewriting of the partition table (`GptMigration`).

Bytes are integers below 256 and exclusive or is defined bit by bit (`Bytes`).
Widths and wrap-around are written out where the code depends on them (32-bit
sector sums, 32-bit sizes, 8-bit checksums). Input/output results are
nondeterministic choices inside the device; other answers from outside (results
of flash calls, driver status, number syntax, leftover memory) are parameters.

Where the code does not do what its comments or its shape suggest, the model
follows the code:

- `pack.c` leaves its padding variable unset for an aligned image. The length
  property holds exactly when the size is unaligned or the leftover value is 0
  (`BootImage.PackedLength`).
- The worker of `ComputeDifferences` divides by the target size while it holds
  the lock. Deadlock freedom holds exactly when no difference has both a patch
  and an empty target (`DiffScheduler.DeadlockFreeExactly`).
- The comment over the OS slots promises a slot that is always available. The
  search also counts a slot as used when the image before it fills all but at
  most one sector of its own, so the promise holds for images that leave two
  sectors unused. The bound is tight: five images that leave only one fill the
  store for good (`OsipStarvation.FiveFlashesStarve`).
- The branch that moves a descriptor to the end makes a leftover descriptor
  live if it lies beyond the live ones (`OsipCommit.InstallIsSimpleExactly`).
  Named writes never take that branch when unused descriptors are blank or of
  an OS class, which every run preserves.
- The file-system case of `fixup_osip` is compared with 3 after bit 0 has been
  cleared, so it is never taken; file systems are unknown to the model as well.
- Registering a display callback changes the mode without telling listeners
  (`ComposerProperties.CallbackChangesSilently`); listeners stay informed
  exactly through the other steps (`ComposerProperties.StepSync`).
- The listener counter can get stuck for good, exactly by a wrap that finds all
  identifiers live (`ComposerProperties.CounterSticksExactly`), as after 64
  registrations (`ComposerProperties.SixtyFourRegistrationsStick`).

## Model

| member | source | states |
|---|---|---|
| `OsipFormat.OsiiRoundTrip` | libintelprov/update_osip.h:42-55 | decoding the 24 bytes of an image descriptor gives the descriptor back |
| `OsipFormat.HeaderRoundTrip` | libintelprov/update_osip.h:57-69 | decoding the 224 bytes of a header gives the header back |
| `OsipFormat.BytesRoundTrip` | libintelprov/update_osip.h:57-69 | encoding what 224 bytes decode to gives the same 224 bytes: no bit of the header is left out of the model |
| `OsipFormat.GetOsipCrc` | libintelprov/update_osip.c:73-84 | the checksum loop computes the exclusive or of all 224 bytes |
| `OsipFormat.CrcOfBytes` | libintelprov/update_osip.c:73-84 | the checksum of the decoded header is the exclusive or of the bytes it was decoded from |
| `OsipFormat.SealedPasses` | libintelprov/update_osip.c:311-312 | a header whose checksum byte is renewed as the writer does it passes the check of the reader |
| `OsipFormat.PassingIsSealed` | libintelprov/update_osip.c:294-297 | conversely, a header that passes the check is unchanged by renewing its checksum: the checksum byte is determined by the rest |
| `OsipHeaderBytes.FixedFieldsAt` | libintelprov/update_osip.h:57-67 | the byte offset of every fixed field of the header on the disk |
| `OsipHeaderBytes.RecordFieldsAt` | libintelprov/update_osip.h:42-55 | the byte offset of every field of a descriptor |
| `OsipHeaderBytes.DescriptorAt` | libintelprov/update_osip.h:68 | descriptor i lies at byte 32 + 24 i of the disk |
| `OsipHeaderBytes.WellFormedBytes` | libintelprov/update_osip.c:504-511 | on the bytes of a file below 4 GB: the format checks hold and the size fits an OS slot exactly when byte 8 is 1, the size field is at most 32000 and the file has one sector more than it says |
| `OsipSlots.SlottedIsPlaced` | libintelprov/update_osip.c:40-69 | images in pairwise distinct slots of their class are disjoint, inside the slot area, and cover no slot but their own |
| `OsipSlots.GetFreeLba` | libintelprov/update_osip.c:181-210 | the nested search loops return the first slot that no live image uses, or 0 |
| `OsipSlots.FirstFreeMeaning` | libintelprov/update_osip.c:181-210 | 0 is returned exactly when every slot is used; any other result is the lowest-numbered free slot |
| `OsipSlots.FreeSlotIsOutside` | libintelprov/update_osip.c:184-202 | a slot reported free shares no sector with any live image, slot-aligned or not, if and only if no image swallows the slot whole |
| `OsipSlots.SmallImageCoversNothing` | libintelprov/update_osip.c:195-202 | an image smaller than the slot never swallows it, wherever it lies |
| `OsipSlots.UsedExactly` | libintelprov/update_osip.c:195-202 | under the slot discipline a slot counts as used exactly by the image that starts in it and by a neighbour that fills all but at most one sector of the slot before |
| `OsipSlots.OsSlotAlwaysFree` | libintelprov/update_osip.c:54-69 | with eight descriptors, nine OS slots and images that leave two sectors unused, the search for an OS slot never fails (pigeonhole) |
| `OsipSlots.FwSlotAlwaysFree` | libintelprov/update_osip.c:212-215 | with a single firmware image that leaves two sectors unused, one of the two firmware slots is always free |
| `OsipSlots.SearchFailsExactly` | libintelprov/update_osip.c:181-210 | under the slot discipline the search fails if and only if every slot of the class holds an image or follows one that fills all but at most one sector of its own slot |
| `OsipSlots.FiveImagesStarve` | libintelprov/update_osip.c:195-202 | the bound of two unused sectors is tight: five images one sector larger, in every other slot, exhaust all nine OS slots |
| `OsipLayout.FixupOsip` | libintelprov/update_osip.c:132-179 | succeeds exactly on nonempty headers of known classes that leave the last slot of each class unused; then every live image has the next slot of its class, nothing else changes and the checksum holds. On failure the images before the offending one are moved and nothing else; a header without images is sealed and refused |
| `OsipLayout.AssignSlots` | libintelprov/update_osip.c:86-95 | the loop gives descriptor after descriptor the next slot of its class and fails exactly when it must |
| `OsipLayout.VerifyOsipSizes` | libintelprov/update_osip.c:97-130 | accepts exactly the headers whose known images fit the slot size of their class |
| `OsipLayout.AssignedSlotsDiffer` | libintelprov/update_osip.c:138-156 | no two descriptors get the same slot |
| `OsipLayout.AssignedInOrder` | libintelprov/update_osip.c:86-95 | OS images get their slots in the order of their descriptors, without gaps |
| `OsipLayout.LaidOutIsSlotted` | libintelprov/update_osip.c:97-179 | a header that both routines accept obeys the slot discipline |
| `OsipView.KeysDiffer` | libintelprov/update_osip.c:700-706 | two positions never stand for the same attribute and instance |
| `OsipView.LookupMeaning` | libintelprov/update_osip.c:700-706 | the index search inverts the naming of positions: it finds a name exactly at the position that carries it |
| `OsipView.WriteKeepsKeys` | libintelprov/update_osip.c:708-709 | writing at the index chosen for a name keeps the name of every other position |
| `OsipView.LookupAfterWrite` | libintelprov/update_osip.c:689-711 | after such a write every other name is found where it was, and the written name at the written position |
| `OsipView.AsMapMeaning` | libintelprov/update_osip.c:689-711 | the map that stands for a list of images holds every image under its own name |
| `OsipView.PutIsMapUpdate` | libintelprov/update_osip.c:689-711 | storing an image at the index chosen for its name is the update of the map at that name and nowhere else |
| `OsipView.NamesShareExactly` | libintelprov/update_osip.c:629-665 | two names stand for the same image only if they are equal or are fastboot and droidboot |
| `OsipStore.RetaggedRecord` | libintelprov/flash_osip/bootimage.c:68-75 | overwriting the attribute in the image file changes the class of its record to the wanted one, keeps the low bit and every other field, and does not affect the format checks |
| `OsipStore.NamedWriteOverwrites` | libintelprov/update_osip.c:574-594 | a named write always lands on a descriptor it may overwrite, so that no descriptor is ever moved |
| `OsipCommit.InstallIsSimpleExactly` | libintelprov/update_osip.c:563-595 | storing a record replaces or appends one descriptor and nothing else if and only if the descriptor it lands on may be overwritten; otherwise a leftover becomes live |
| `OsipCommit.InstallKeepsFixed` | libintelprov/update_osip.c:563-595 | storing a record at any index, moved descriptors included, keeps signature, revision, image count and reserved fields; the header size is 32 + 24 n when the number n of pointers grows and unchanged otherwise |
| `OsipCommit.InstallReplaces` | libintelprov/update_osip.c:563-595 | when the descriptor may be overwritten, the sealed header has a zero checksum, keeps those fields and differs in that one descriptor |
| `OsipCommit.PlanIsRoomy` | libintelprov/update_osip.c:518-562 | the place chosen for a new image is a slot of its class that overlaps no live image |
| `OsipCommit.PlanShape` | libintelprov/update_osip.c:492-627 | what an accepted write will do: its slot is free, one descriptor is replaced, the new checksum is zero |
| `OsipCommit.UnfinishedShowsOld` | libintelprov/update_osip.c:516-619 | whatever subset of the bytes of the backup mark and of the chosen slot has reached the disk, the disk still shows every old image unchanged |
| `OsipCommit.FinishedShowsNew` | libintelprov/update_osip.c:624-626 | once the header is replaced, the disk shows the new image at its index and all others unchanged |
| `OsipCommit.ReplacesKeepsPlaced` | libintelprov/update_osip.c:563-595 | the new header again places all images apart |
| `OsipCommit.ReplacesKeepsSlotted` | libintelprov/update_osip.c:563-595 | the new header again obeys the slot discipline |
| `OsipRuns.ErasedStore` | libintelprov/update_osip.c:770-777 | erasing the header makes an empty store that meets every invariant, so runs can start from any disk that is large enough |
| `OsipRuns.FlashRefines` | libintelprov/flash_osip/bootimage.c:53-80 | a committed flash is the update of the map at its name, with the invalidation kept; an uncommitted one changes nothing that can be seen |
| `OsipRuns.AddressRefines` | libintelprov/update_osip.c:713-733 | a committed address update changes the two addresses of its name and nothing else |
| `OsipRuns.StepRefines` | libintelprov/update_osip.c:492-746 | every attempt, committed or not, is the corresponding step of the map |
| `OsipRuns.PowerCutShowsOldOrNew` | libintelprov/update_osip.c:516-626 | power-cut atomicity: at any point of a flash the disk is usable and shows either the whole old map or the whole new map |
| `OsipRuns.RunRefinesMap` | libintelprov/update_osip.c:492-746 | after any run, with interruptions anywhere, the disk is the map that the committed attempts build |
| `OsipRuns.ReplayKeepsLast` | libintelprov/flash_osip/bootimage.c:53-80 | on the map, a name holds the payload last flashed under it, or what it held at the start |
| `OsipRuns.NamesHoldLastFlashed` | libintelprov/flash_osip/bootimage.c:36-80 | on the disk, after any run a name holds exactly the payload last flashed under it with success, or what it held at the start |
| `OsipRuns.InvalidationPersists` | libintelprov/update_osip.c:566-572 | an invalidated name keeps load address and entry point 0 through any run without a restore, reflashes included |
| `OsipHeaderBytes.StepKeepsHeader` | libintelprov/update_osip.c:492-746 | every attempt, committed or not, keeps bytes 0 to 6, 9 and 12 to 31 of the disk; the header size at byte 10 follows the number of pointers |
| `OsipHeaderBytes.RunKeepsHeader` | libintelprov/update_osip.c:492-746 | between any two points of a run those bytes are the same, the signature among them |
| `OsipHeaderBytes.AddressStepBytes` | libintelprov/update_osip.c:713-733 | a committed address update writes the eight address bytes of its name and the checksum, and no other byte of the disk |
| `OsipInvariants.RunKeepsSlots` | libintelprov/update_osip.c:518-595 | through any run, at every point, live images stay in pairwise distinct slots of their class, at most eight, unused descriptors stay overwritable and the checksum is zero |
| `OsipInvariants.RunKeepsPositions` | libintelprov/update_osip.c:689-711 | between any two points of a run every assigned name keeps its index, and different names have different ones |
| `OsipInvariants.FlashNeverStarves` | libintelprov/update_osip.c:518-562 | while images leave two sectors unused and at most one is firmware, a flash is accepted if and only if the file is well formed, fits, and its name has or may get an index |
| `OsipInvariants.RunNeverStarves` | libintelprov/update_osip.c:48-69 | that remains so after any run whose committed images are such, whatever was refused or interrupted: there is always an empty slot for the next update |
| `OsipStarvation.FiveFlashesStarve` | libintelprov/update_osip.c:48-69 | a concrete run from an erased disk: five flashes of images one sector smaller than a slot succeed, and after them every flash of an OS image is refused |
| `OsipStarvation.AlternateSlot` | libintelprov/update_osip.c:181-210 | why: the search skips the slot behind each such image, so that they land in every other slot |
| `OsipReadback.FileChecksums` | libintelprov/update_osip.c:388-425 | the file read back has exclusive or 0 over its first 56 and over its first 224 bytes, despite the 0xFF fill over bytes 56 to 223 |
| `OsipReadback.FileIsFlashable` | libintelprov/update_osip.c:388-425 | the file read back passes the format checks of the writer |
| `OsipReadback.FileBytes` | libintelprov/update_osip.c:388-408 | the header of the file read back, byte by byte: signature, counts, sizes, start sector 1; the standard addresses, whatever is stored, unless the attribute is 8 or 9, and then the stored ones |
| `OsipReadback.FileShowsEntry` | libintelprov/update_osip.c:359-450 | the file read back shows the stored entry: payload, revision, attribute, and the addresses of a file |
| `EndToEnd.CopyIsValid` | libintelprov/update_osip.c:399-404 | the file read back from an OS image, even an invalidated one, makes a valid entry when flashed under a name that was not stored |
| `OsipDevice.BlockDevice.SafeRead` | libintelprov/util.c:37-51 | short reads are repeated until all bytes are there; failure only after an error |
| `OsipDevice.BlockDevice.ReadOsip` | libintelprov/update_osip.c:278-302 | returns the header on the disk, exactly when its checksum is zero and no error occurred |
| `OsipDevice.BlockDevice.WriteOsip` | libintelprov/update_osip.c:304-335 | puts the header with a renewed checksum in front of the disk, in one piece or not at all |
| `OsipDevice.BlockDevice.DestroyBackup` | libintelprov/update_osip.c:454-475 | touches at most the four bytes behind the header and, without errors, leaves no backup signature there |
| `OsipDevice.SpoiltSignature` | libintelprov/update_osip.c:468-472 | one overwritten byte is enough to spoil the signature, so a short write suffices |
| `OsipDevice.BlockDevice.WriteBlob` | libintelprov/update_osip.c:608-619 | whatever the transfer sizes, only the slot is written; on success it holds the image data |
| `OsipDevice.BlockDevice.ChooseSlot` | libintelprov/update_osip.c:523-548 | the slot search by class, stored in the record of the image file at once |
| `OsipDevice.BlockDevice.PrepareRecord` | libintelprov/update_osip.c:566-572 | an existing invalidation is kept in the new record and zeroes the two addresses in the buffer; otherwise the buffer is unchanged |
| `OsipDevice.BlockDevice.DecideWrite` | libintelprov/update_osip.c:523-595 | accepts exactly the planned writes and computes their slot and header, which keeps all fixed fields |
| `OsipDevice.BlockDevice.CommitImage` | libintelprov/update_osip.c:597-626 | the data are written in full before the header; every intermediate content of the disk is the old or the committed state |
| `OsipDevice.BlockDevice.WriteStitchImage` | libintelprov/update_osip.c:492-627 | for every index at which the table has room: refuses, fails or commits the planned write, and keeps the fixed header bytes; without errors it commits exactly when there is a plan, and then no backup remains |
| `OsipDevice.BlockDevice.GetAttributeIndex` | libintelprov/update_osip.c:689-711 | reads the header and answers the index for reading or for writing |
| `OsipDevice.BlockDevice.SearchIndex` | libintelprov/update_osip.c:700-710 | the counting loop computes the lookup, and the end of the list for the next instance |
| `OsipDevice.BlockDevice.GetNamedIndex` | libintelprov/update_osip.c:667-687 | the same for a name; -1 for an unknown one |
| `OsipDevice.BlockDevice.FlashImage` | libintelprov/flash_osip/bootimage.c:53-80 | one attempt of the run model; every disk content on the way is that attempt uncommitted or committed, under the same fixed header bytes; without errors it succeeds exactly on acceptable inputs; the attribute in the buffer becomes that of the name |
| `OsipDevice.BlockDevice.UpdateOsii` | libintelprov/update_osip.c:713-733 | one attempt of the run model on the addresses of a name, in a single header write that changes those eight bytes and the checksum only; without errors it succeeds exactly for stored names |
| `OsipDevice.BlockDevice.InvalidateOsii` | libintelprov/update_osip.c:735-739 | the attempt to set both addresses to 0; without errors it succeeds exactly for stored names |
| `OsipDevice.BlockDevice.RestoreOsii` | libintelprov/update_osip.c:741-746 | the attempt to set both addresses to their standard values; without errors it succeeds exactly for stored names |
| `OsipDevice.BlockDevice.EraseOsipHeader` | libintelprov/update_osip.c:770-777 | 224 zero bytes that leave an empty, usable store, or the disk as it was |
| `OsipDevice.BlockDevice.ReadOsimageData` | libintelprov/update_osip.c:359-450 | builds the file of a stored image, with the header bytes above, unless an error occurs |
| `OsipDevice.BlockDevice.FillSectorZero` | libintelprov/update_osip.c:408-425 | the made-up first sector: header prefix, fill, boot signature |
| `OsipDevice.BlockDevice.ReadImage` | libintelprov/flash_osip/bootimage.c:36-51 | without errors it succeeds exactly for names in the map, and the file shows the entry of the map, with signature and addresses as above |
| `OsipDevice.HistorySteps` | libintelprov/update_osip.c:516-626 | every recorded content of the disk during a write is an attempt of the run model |
| `Bytes.LittleEndian` | intel-boot-tools/pack.c:107-129 | 32-bit fields have their least significant byte first |
| `BootImage.CalculateChecksum` | intel-boot-tools/pack.c:56-66 | the result is the exclusive or of the 56 header bytes with the checksum byte taken as 0 |
| `BootImage.Pack` | intel-boot-tools/pack.c:99-150 | the output is header, kernel, ramdisk and padding; fails exactly on a short origin |
| `BootImage.FillHeader` | intel-boot-tools/pack.c:107-130 | the patched header, and the padding it leaves |
| `BootImage.PackedLength` | intel-boot-tools/pack.c:115-129 | the file has one sector more than its header says if and only if the size was unaligned or the unset padding variable holds 0 |
| `BootImage.UnsetPaddingSpoilsLength` | intel-boot-tools/pack.c:79-150 | a concrete aligned image for which a leftover padding value makes the file too long |
| `BootImage.PackedChecksum` | intel-boot-tools/pack.c:130 | the first 56 bytes of the file exclusive-or to 0 |
| `BootImage.PackedKeepsOrigin` | intel-boot-tools/pack.c:104-130 | header bytes outside the checksum, the sector count and the two sizes are those of the origin |
| `BootImage.PackedParts` | intel-boot-tools/pack.c:132-150 | the kernel starts at byte 13280, the ramdisk follows, and every byte behind it is 0xFF |
| `BootImage.HeaderFields` | intel-boot-tools/pack.c:107-129 | the three size fields read back as the sizes that were stored |
| `BootImage.Extract` | intel-boot-tools/unpack.c:104-111 | the countdown loop copies exactly the wanted range, whatever the chunk sizes |
| `BootImage.Unpack` | intel-boot-tools/unpack.c:82-124 | the two parts the lengths in the header describe |
| `BootImage.UnpackInvertsPack` | intel-boot-tools/unpack.c:82-124 | unpacking a packed file returns the kernel and the ramdisk |
| `EndToEnd.PackedIsFlashable` | libintelprov/update_osip.c:504-511 | a packed file passes the format checks of the store and fits a slot |
| `EndToEnd.UnpackIgnoresSectorZero` | intel-boot-tools/unpack.c:82-124 | the unpacker does not depend on the first sector, which the store replaces |
| `EndToEnd.PackFlashReadUnpack` | libintelprov/flash_osip/bootimage.c:36-80 | after any run, reading the name whose last successful flash was a packed image and unpacking the file gives the kernel and the ramdisk |
| `EndToEnd.PackedIsAccepted` | libintelprov/flash_osip/bootimage.c:53-80 | whatever kernel and ramdisk fit a slot, a store whose images leave two sectors unused accepts the packed file under an OS name if and only if the name is stored or the table has room for it |
| `EndToEnd.RunKeepsHealthy` | libintelprov/update_osip.c:48-69 | any run of such images keeps the store in that state |
| `EndToEnd.Provision` | libintelprov/flash_osip/bootimage.c:36-80 | on a device, pack, flash, read and unpack in sequence return kernel and ramdisk; without errors, on such a store and for an OS name, the chain succeeds if and only if the name is stored or the table has room for it |
| `Umip.FactorizeFold` | libintelprov/flash_scu_emmc/ifwi.c:123-126 | collapsing the word checksum to a byte gives the byte checksum of the region |
| `Umip.XorCompute` | libintelprov/flash_scu_emmc/ifwi.c:112-121 | the loop computes the exclusive or of the words of the region |
| `Umip.UpdateSectorSums` | libintelprov/flash_scu_emmc/ifwi.c:133-137 | afterwards the words 2 to 127 of sector 0 are the checksums of the sectors 2 to 127 |
| `Umip.UpdateUmipSum` | libintelprov/flash_scu_emmc/ifwi.c:139-142 | afterwards the bytes of the UMIP exclusive-or to 0 |
| `Umip.UpdateIfwiSum` | libintelprov/flash_scu_emmc/ifwi.c:144-147 | afterwards the words of the whole image exclusive-or to 0 |
| `Umip.XorUpdate` | libintelprov/flash_scu_emmc/ifwi.c:128-148 | afterwards all three overlapping checksums hold at once, only checksum fields have changed, and if they held before nothing has changed |
| `Umip.ValidDetermined` | libintelprov/flash_scu_emmc/ifwi.c:128-148 | two images with valid checksums and the same data are equal |
| `UmipStore.WrittenData` | libintelprov/flash_scu_emmc/ifwi.c:198-210 | a written partition holds the given bytes in order, the old token area after a firmware update and the old bytes elsewhere, apart from checksums |
| `UmipStore.BootPartitions.WritePartition` | libintelprov/flash_scu_emmc/ifwi.c:195-213 | one partition: each byte of the range is the byte given (or 0 when erased), with the old token area kept on a firmware update, all else unchanged, under valid checksums; refused exactly when out of range |
| `UmipStore.BootPartitions.WriteUmip` | libintelprov/flash_scu_emmc/ifwi.c:150-231 | both partitions hold the given bytes in order, or a failure leaves each one either untouched or completely written |
| `UmipStore.TimeoutReadsBack` | libintelprov/flash_scu_emmc/ifwi.c:233-304 | the timeout read is the one last flashed with success, through any token and custom-boot operations in between, and no checksum lies over it |
| `UmipStore.BootPartitions.UpdateIfwi` | libintelprov/flash_scu_emmc/ifwi.c:276-279 | one firmware update of the run model: byte i is data[i] outside the token area and the checksums, and the token area is as before; succeeds whenever the partitions can be opened |
| `UmipStore.BootPartitions.FlashToken` | libintelprov/flash_scu_emmc/ifwi.c:281-284 | one token flash of the run model: both token areas are the given bytes |
| `UmipStore.BootPartitions.FlashCustomBoot` | libintelprov/flash_scu_emmc/ifwi.c:286-289 | one custom-boot write of the run model: both partitions hold the given byte |
| `UmipStore.BootPartitions.EraseToken` | libintelprov/flash_scu_emmc/ifwi.c:291-294 | one token erasure of the run model: both token areas are zeros |
| `UmipStore.BootPartitions.FlashDnxTimeout` | libintelprov/flash_scu_emmc/ifwi.c:296-299 | one timeout write of the run model, after which both partitions hold the new timeout |
| `UmipStore.WrittenIsUnique` | libintelprov/flash_scu_emmc/ifwi.c:195-213 | the description of a written partition leaves exactly one result |
| `UmipStore.RewriteChangesNothing` | libintelprov/flash_scu_emmc/ifwi.c:195-213 | writing the same data again changes nothing |
| `UmipStore.ReadErrorIsAmbiguous` | libintelprov/flash_scu_emmc/ifwi.c:257-273 | the value read is the signed number with the same bits, and the error value is also that of exactly one stored byte, 0xFF |
| `UmipStore.RunKeepsChecksums` | libintelprov/flash_scu_emmc/ifwi.c:150-299 | through any run, failures included, valid checksums stay valid |
| `UmipStore.RunFrame` | libintelprov/flash_scu_emmc/ifwi.c:150-299 | outside the checksum fields a byte changes only through an operation that writes it |
| `UmipStore.RunKeepsToken` | libintelprov/flash_scu_emmc/ifwi.c:195-210 | the token area changes only by flashing or erasing the token, never by a firmware update |
| `UmipStore.TokenReadsBack` | libintelprov/flash_scu_emmc/ifwi.c:195-210 | the token area reads as the token last flashed with success, through any firmware updates behind it |
| `DiffScheduler.StepInv` | releasetools/common.py:938-961 | every step of any worker keeps the lock and work invariants |
| `DiffScheduler.RunInv` | releasetools/common.py:938-961 | they hold at every point of every interleaving of any number of workers |
| `DiffScheduler.LockGuardsIterator` | releasetools/common.py:936-946 | the iterator is advanced only by the lock holder, and at most one worker is in the guarded code |
| `DiffScheduler.HandedOutBySize` | releasetools/common.py:930-941 | differences are handed out in non-increasing target size |
| `DiffScheduler.RunsAreBounded` | releasetools/common.py:938-961 | every interleaving ends after at most five steps per difference and three per worker |
| `DiffScheduler.RunsComplete` | releasetools/common.py:926-969 | without exceptions no state deadlocks, and a final state has every difference computed exactly once, all workers finished and the lock free |
| `DiffScheduler.RaisingDeadlocks` | releasetools/common.py:956-961 | a concrete interleaving that waits for ever after a report divides by the size of an empty target while holding the lock |
| `DiffScheduler.DeadlockFreeExactly` | releasetools/common.py:938-961 | with two workers or more, all interleavings are free of deadlock if and only if no difference has both a patch and an empty target |
| `ComposerModel.VideoBitExact` | libmultidisplay/native/MultiDisplayComposer.cpp:181-278 | in every run the video bit is set exactly when some session is prepared, and the transient bit is never kept |
| `ComposerProperties.SessionsHoldLastState` | libmultidisplay/native/MultiDisplayComposer.cpp:253-262 | in every run each session holds the state last set for it since the last reset, or is unprepared |
| `ComposerProperties.WidiBitExact` | libmultidisplay/native/MultiDisplayComposer.cpp:188-195 | in every run the wireless bit says what was reported last |
| `ComposerProperties.CableBitsExact` | libmultidisplay/native/MultiDisplayComposer.cpp:135-149 | in every run the two cable bits collect the statuses reported since the last disconnection; one does not clear the other |
| `ComposerProperties.ListenersChangeExactly` | libmultidisplay/native/MultiDisplayComposer.cpp:435-499 | a listener appears exactly by a successful registration, with the given name and mask, and disappears exactly by the removal of its identifier |
| `ComposerProperties.VideoDriverSparedExactly` | libmultidisplay/native/MultiDisplayComposer.cpp:258-275 | when a video state changes the mode, a mode listener misses the message exactly if it is the video driver and the session was closed |
| `ComposerProperties.StepSync` | libmultidisplay/native/MultiDisplayComposer.cpp:151-163 | a step keeps a listener informed of the mode if and only if it is not a callback registration that finds the connection changed |
| `ComposerProperties.ListenerStaysInSync` | libmultidisplay/native/MultiDisplayComposer.cpp:501-523 | through any run without such a change, each mode listener other than the video driver was last told the current mode, or the mode is still that of its registration |
| `ComposerProperties.IdsCountUp` | libmultidisplay/native/MultiDisplayComposer.cpp:449-460 | until 64 registrations have succeeded, the next identifier is their number |
| `ComposerProperties.EarlyRegistrationsSucceed` | libmultidisplay/native/MultiDisplayComposer.cpp:435-477 | until then every valid registration succeeds with identifiers 0, 1, 2, ..., whatever is unregistered in between |
| `ComposerProperties.ReturnedIdIsFresh` | libmultidisplay/native/MultiDisplayComposer.cpp:449-459 | in every run a returned identifier is in range and was not in use |
| `ComposerProperties.CounterSticksExactly` | libmultidisplay/native/MultiDisplayComposer.cpp:460-475 | the counter reaches its maximum exactly by a wrap that finds all 64 identifiers live |
| `ComposerProperties.StuckCounterIsFinal` | libmultidisplay/native/MultiDisplayComposer.cpp:444-448 | from then on no registration ever succeeds, even after listeners have gone |
| `ComposerProperties.SixtyFourRegistrationsStick` | libmultidisplay/native/MultiDisplayComposer.cpp:460-475 | a concrete run that gets there: sixty-four registrations, after which no registration in any continuation succeeds |
| `Composer.MultiDisplayComposer.HasVideoPlaying` | libmultidisplay/native/MultiDisplayComposer.cpp:595-603 | the counting loop tells whether some session is prepared |
| `Composer.MultiDisplayComposer.SessionSize` | libmultidisplay/native/MultiDisplayComposer.cpp:547-555 | the count is 0 exactly when all sessions are unprepared |
| `Composer.MultiDisplayComposer.AllocateSession` | libmultidisplay/native/MultiDisplayComposer.cpp:557-568 | the first unprepared session, or -1 when there is none |
| `Composer.MultiDisplayComposer.BroadcastMode` | libmultidisplay/native/MultiDisplayComposer.cpp:501-523 | the loop over the vector tells the mode to exactly the listeners that want it, and keeps the vector as it is otherwise |
| `Composer.MultiDisplayComposer.RegisterListener` | libmultidisplay/native/MultiDisplayComposer.cpp:435-477 | the checks, the scan and the sorted insertion make one registration of the state machine, with the identifier it answers |
| `Composer.MultiDisplayComposer.FindUnused` | libmultidisplay/native/MultiDisplayComposer.cpp:461-475 | the nested scans after a wrap find the lowest identifier that no listener uses |
| `ListenerVector.Find` | libmultidisplay/native/MultiDisplayComposer.cpp:450-455 | the scan finds the identifier, and the end exactly when it is absent |
| `ListenerVector.Insert` | libmultidisplay/native/MultiDisplayComposer.cpp:459 | adding keeps the vector sorted and is an update of the map it stands for |
| `ListenerVector.AsMapMeaning` | libmultidisplay/native/MultiDisplayComposer.cpp:449-459 | a vector sorted by identifier stands for a map with the same items and the same size |
| `ListenerVector.RemoveMeaning` | libmultidisplay/native/MultiDisplayComposer.cpp:493 | removing one position of the vector removes exactly its identifier from the map |
| `Composer.MultiDisplayComposer.UnregisterListener` | libmultidisplay/native/MultiDisplayComposer.cpp:479-499 | the scan of the sorted vector removes exactly the listener with the identifier, and nothing when there is none or it is negative |
| `Composer.MultiDisplayComposer.UpdateWidiConnection` | libmultidisplay/native/MultiDisplayComposer.cpp:188-195 | one wireless hotplug of the state machine: the wireless bit is the report, the other bits stay |
| `Composer.MultiDisplayComposer.UpdateHdmiConnection` | libmultidisplay/native/MultiDisplayComposer.cpp:196-208 | one cable hotplug of the state machine |
| `Composer.MultiDisplayComposer.UpdateVideoState` | libmultidisplay/native/MultiDisplayComposer.cpp:235-278 | one video state change of the state machine: the session takes a state in range, every other session stays, and nothing changes otherwise |
| `Composer.MultiDisplayComposer.ResetVideoPlayback` | libmultidisplay/native/MultiDisplayComposer.cpp:576-593 | one playback reset of the state machine, after which every session is unprepared |
| `Composer.MultiDisplayComposer.SetVppState` | libmultidisplay/native/MultiDisplayComposer.cpp:664-690 | one post-processing change of the state machine: the transient bit is told and not kept, and only status -1 for the wireless display sets its activity |
| `ComposerProperties.CallbackChangesSilently` | libmultidisplay/native/MultiDisplayComposer.cpp:151-163 | a concrete run of two events in which a callback registration changes the mode and leaves a mode listener with an outdated one |
| `FirmwareScan.LastValueMeaning` | libintelprov/fw_version_check.c:346-382 | the fold over all 4-byte steps gives the last non-null value among the headers, and 0 exactly when all are null |
| `FirmwareScan.PositionsMeaning` | libintelprov/fw_version_check.c:323-334 | the steps are exactly the multiples of 4 at which a whole header fits |
| `FirmwareScan.SeekMagic` | libintelprov/fw_version_check.c:325-334 | the inner loop stops at the next step with the magic word, or at the end |
| `FirmwareScan.Scan` | libintelprov/fw_version_check.c:323-388 | the nested loops compute the fold for every field, and fail exactly when a header would fit but no magic occurs |
| `FirmwareScan.GetImageFwRev` | libintelprov/fw_version_check.c:310-389 | the same for the 44-byte header and its 18 numbers |
| `FirmwareScan.GetImageFwRevLong` | libintelprov/fw_version_check.c:391-462 | the same for the 352-byte header and its 12 numbers |
| `FirmwareScan.ShortHeaderRead` | libintelprov/fw_version_check.c:40-69 | a header laid out field by field as the structure reads back as exactly its 18 numbers |
| `FirmwareScan.LongHeaderRead` | libintelprov/fw_version_check.c:71-127 | the same for the long structure and its 12 numbers |
| `Bootloader.PartsParse` | libintelprov/bootloader.c:37-57 | parsing inverts packing: a file that lays out components (magic, size, flags with bit 0 for the flash flag, body) parses to exactly these components |
| `Bootloader.NextComponent` | libintelprov/bootloader.c:37-47 | the walk moves to the next component of the container, and ends with it |
| `Bootloader.NextFlagged` | libintelprov/bootloader.c:49-59 | the filter finds the next flagged component of the group, and none exactly when none is left |
| `Bootloader.FlashGroup` | libintelprov/bootloader.c:86-97 | one group: its calls in file order, cut at a hard error |
| `Bootloader.FlashBootloader` | libintelprov/bootloader.c:61-112 | the calls made are the flagged components grouped in the fixed order, cut behind the first hard error or after a wholly refused first group, and the returned value says which; on a file packed from components these are the calls for those components |
| `Bootloader.OutcomesDecide` | libintelprov/bootloader.c:92-111 | where the calls stop: at the first outcome other than 0 and -1; behind the droidboot images if all were refused with -1; nowhere when all outcomes are 0 |
| `Bootloader.EachFlaggedOnce` | libintelprov/bootloader.c:82-97 | as a multiset, the calls of all groups are those that the flagged components of known kinds deserve in file order, each under the name of its kind: none lost, none twice |
| `WordWrap.LongestBreakMeaning` | releasetools/edify_generator.py:47-52 | the pattern finds the longest breakable prefix within the limit, and none exactly when there is none |
| `WordWrap.NextLineShape` | releasetools/edify_generator.py:52-62 | the next line is a prefix that ends at a NUL or at the end, within the limit if it holds more than one piece; the last line holds no NUL |
| `WordWrap.Wrap` | releasetools/edify_generator.py:38-64 | the loop ends; the result is the lines of the specification indented and stripped, and cut at its newlines it gives exactly these lines, each with more than one piece at most the line length long |
| `WordWrap.SplitJoined` | releasetools/edify_generator.py:64 | cutting at newlines undoes joining newline-free lines by a newline and the indentation |
| `WordWrap.LinesRejoin` | releasetools/edify_generator.py:48-62 | the lines joined by NUL give the command: every piece is there, in order |
| `WordWrap.LinesFit` | releasetools/edify_generator.py:47-62 | a line with more than one piece fits the limit |
| `WordWrap.BreaksAreForced` | releasetools/edify_generator.py:47-62 | a line ends early only if the next piece would not fit |
| `WordWrap.WrappedText` | releasetools/edify_generator.py:64 | for a command not ending in a newline the result is the lines joined by a newline and the indentation, with blanks for NULs |
| `WordWrap.WrappingPreserves` | releasetools/edify_generator.py:38-64 | with one blank for every line break the result is the command with blanks for NULs |
| `GptMigration.DecRoundTrip` | libintelprov/updater.c:840-850 | a number that was printed reads back as itself |
| `GptMigration.FindDeciding` | libintelprov/updater.c:808-827 | the loop finds the first token that names the reserved or an updated partition |
| `GptMigration.ReplaceTokens` | libintelprov/updater.c:830-853 | the loop rewrites size and start block, or abandons the migration at a malformed number |
| `GptMigration.MigrateLine` | libintelprov/updater.c:798-864 | one line is kept, dropped, rewritten or abandons the migration as specified |
| `GptMigration.MigrateTable` | libintelprov/updater.c:791-867 | the rewritten table is that of the specification, and fails exactly when some line does |
| `GptMigration.ExactLine` | libintelprov/updater.c:806-864 | for spelled-out names: reserved add lines are dropped, updated ones change only the numbers behind -s and -b, every other line keeps its tokens in order |
| `GptMigration.ExactTableMigrates` | libintelprov/updater.c:791-867 | a spelled-out table whose updated names are all stored is never abandoned: the reserved add lines are dropped and the others stay in order, each rewritten |
| `GptMigration.PartitionsAreDisjoint` | libintelprov/update_osip.c:779-796 | under the slot discipline the blocks of different updated names do not overlap and each contains its live image |
| `GptMigration.LineDescribes` | libintelprov/updater.c:829-853 | wherever -b and -s occur in a rewritten line, the numbers behind them are the start of the image of its name and the slot size |
| `GptMigration.TablePartitionsAreDisjoint` | libintelprov/updater.c:791-867 | in the new table, the lines of any two updated partitions describe disjoint partitions, each around the live image of its name |

## Left out

- Device nodes, sysfs, mmap, ioctl, mount and sync: the disk and the boot partitions are byte sequences and arrays, opened or not.
- Interrupted system calls: a call that returns -1 with EINTR moves the cursor backwards in the code; in the model a call transfers 1 to n bytes or is an error.
- A torn header sector: the 224 bytes of a header reach the disk together or not at all.
- `large_image` and the test image of `flash_image_osip`, `oem_write_osip_header`: they reset the store and place one image over several slots.
- OsipDevice.BlockDevice.WriteStitchImage: an index at which the table has no room for a moved descriptor, for which the code writes behind its table. What a moved descriptor means for later reads is described by OsipCommit.InstallIsSimpleExactly only; runs consist of named writes, which move none.
- OsipDevice.BlockDevice.FlashImage: image files of at least 224 bytes and below 4 GB; the code reads past the end of a shorter buffer.
- Headers with more than eight pointers, for which the code reads behind its table; disks too small for all slots; images beyond the first 2 GB, whose byte offset overflows a 32-bit `off_t`.
- Headers and descriptors that the C code changes through pointers are values in the model, except for the image file and the read-back buffer, which are arrays.
- Printing, dumping and the signature readers of the store.
- BootImage.Pack: failing `fopen` and `stat`, a file that changes size meanwhile, and leftover padding values larger than the copy buffer, which overflow it.
- BootImage.Unpack: only files that contain the lengths they announce; the code never ends on others.
- UmipStore.BootPartitions.WriteUmip: the copies to the mapped memory are complete or do not happen; a crash in the middle of one is not modelled.
- The rest of `releasetools/common.py`; exceptions inside `ComputePatch`, which occur outside the lock; the sort is described by its result.
- Scaling, overscan, source information, decoder resolution, status codes and callback results of the composer; binder calls; runs in which the DRM initialisation failed.
- A null result pointer for the firmware scan, and the version comparison.
- Bootloader.FlashBootloader: containers that consist of whole components, at least one; the code reads past the end of others.
- WordWrap.Wrap: commands with an opening parenthesis not beyond the line length; Python raises an exception or treats the pattern differently for others.
- GptMigration.MigrateTable: empty lines, and add lines of a stored updated partition that end in an option, for which the code reads behind the token list. Reading and splitting lines, the first line and the call of the partition tool are not modelled.
- TEE, Chaabi, PMDB and token code, capsules, `update_recovery.c`, recovery user interface, healthd, JNI and binder proxies: wrappers around code that is not part of this repository.
