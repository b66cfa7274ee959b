/**
 From the packer through the store to the unpacker: the kernel and the ramdisk
 come back unchanged.
 */
module EndToEnd {
  import opened Bytes
  import OsipFormat
  import OsipSlots
  import opened OsipView
  import opened OsipStore
  import opened OsipRuns
  import opened OsipInvariants
  import opened OsipReadback
  import opened OsipHeaderBytes
  import opened OsipDevice
  import opened BootImage

  /** What a packer run needs for its output to be flashed: an origin header
      with one image record, sizes that fit an OS slot, and a padding variable
      that is set or 0. */
  predicate Packable(origin: seq<byte>, kernel: seq<byte>, ramdisk: seq<byte>, stale: nat) {
    && |origin| >= BOOT_HEADER_BYTES && origin[8] == 1
    && |kernel| + BOOT_HEADER_BYTES + |ramdisk| <= (OsipSlots.OS_MAX_LBA + 1) * SECTOR
    && ((|kernel| + BOOT_HEADER_BYTES + |ramdisk|) % SECTOR != 0 || stale == 0)
  }

  lemma SizeFieldOfRecord(p: seq<byte>)
    requires |p| >= OsipFormat.HEADER_BYTES
    ensures ImageRecord(p).size == Get32(p, SECTORS_OFFSET)
  {
    var record := p[32..56];
    assert record[16] == p[48] && record[17] == p[49] && record[18] == p[50] && record[19] == p[51];
  }

  /** A packed file passes the format checks of the store and fits a slot. */
  lemma PackedIsFlashable(origin: seq<byte>, kernel: seq<byte>, ramdisk: seq<byte>, stale: nat)
    requires Packable(origin, kernel, ramdisk, stale)
    ensures var p := Packed(origin, kernel, ramdisk, stale);
            WellFormedImage(p) && ImageRecord(p).size <= OsipSlots.OS_MAX_LBA && |p| < 0x1_0000_0000
  {
    var p := Packed(origin, kernel, ramdisk, stale);
    var h := PackedHeader(origin, |kernel|, |ramdisk|);
    PackedLength(origin, kernel, ramdisk, stale);
    PackedKeepsOrigin(origin, kernel, ramdisk, stale, 8);
    HeaderFields(origin, |kernel|, |ramdisk|);
    SizeFieldOfRecord(p);
    assert Get32(p, SECTORS_OFFSET) == Get32(h, SECTORS_OFFSET);
    PackedSectors(|kernel|, |ramdisk|);
  }

  lemma PackedSectors(kernel: nat, ramdisk: nat)
    requires kernel + BOOT_HEADER_BYTES + ramdisk <= (OsipSlots.OS_MAX_LBA + 1) * SECTOR
    ensures SectorCount(kernel, ramdisk) <= OsipSlots.OS_MAX_LBA
  {
    SectorCountExact(kernel, ramdisk);
    var raw := kernel + BOOT_HEADER_BYTES + ramdisk;
    assert raw == raw / SECTOR * SECTOR + raw % SECTOR;
  }

  /** The unpacker looks only behind the first sector. */
  lemma UnpackIgnoresSectorZero(p: seq<byte>, q: seq<byte>)
    requires Unpackable(p) && |q| >= SECTOR && |p| >= SECTOR && q[SECTOR..] == p[SECTOR..]
    ensures Unpackable(q) && UnpackedKernel(q) == UnpackedKernel(p) && UnpackedRamdisk(q) == UnpackedRamdisk(p)
  {
    assert forall i :: SECTOR <= i < |p| ==> q[i] == q[SECTOR..][i - SECTOR] == p[SECTOR..][i - SECTOR] == p[i];
  }

  /** After any run, whatever file is read back under a name whose last
      successful flash was a packed image unpacks to the kernel and the ramdisk
      that were packed. */
  lemma PackFlashReadUnpack(origin: seq<byte>, kernel: seq<byte>, ramdisk: seq<byte>, stale: nat,
                            ds: seq<seq<byte>>, es: seq<Event>, key: Key, bytes: seq<byte>)
    requires Packable(origin, kernel, ramdisk, stale) && IsRun(ds, es)
    requires LastFlash(es, key) >= 0
    requires es[LastFlash(es, key)].op.data == Packed(origin, kernel, ramdisk, stale)
    requires Consistent(ds[|es|]) && key in AsMap(View(ds[|es|]))
    requires ShowsEntry(AsMap(View(ds[|es|]))[key], bytes)
    ensures Unpackable(bytes) && UnpackedKernel(bytes) == kernel && UnpackedRamdisk(bytes) == ramdisk
  {
    var p := Packed(origin, kernel, ramdisk, stale);
    NamesHoldLastFlashed(ds, es, key);
    UnpackInvertsPack(origin, kernel, ramdisk, stale);
    UnpackIgnoresSectorZero(p, bytes);
  }

  // ---------------------------------------------------------------- copies

  /** The file read back from an OS image, even from an invalidated one, makes a
      valid entry when it is flashed under a name that was not stored: payload
      and revision as before, and the standard addresses. */
  lemma CopyIsValid(d: seq<byte>, e: Entry, file: seq<byte>, name: string, d': seq<byte>)
    requires Consistent(d) && ShowsEntry(e, file) && e.attribute != 8 && e.attribute != 9
    requires NamedKey(name).Some? && NamedKey(name).value !in AsMap(View(d))
    requires Step(d, Event(Flash(name, file), true), d')
    ensures Consistent(d') && NamedKey(name).value in AsMap(View(d'))
    ensures ValidCopy(e, AsMap(View(d'))[NamedKey(name).value])
  {
    NamedKeyClass(name);
    CopyEntry(AsMap(View(d)), NamedKey(name).value, e, file);
    PowerCutShowsOldOrNew(d, name, file, true, d');
  }

  predicate ValidCopy(e: Entry, f: Entry) {
    && f.payload == e.payload && f.revMinor == e.revMinor && f.revMajor == e.revMajor
    && f.ddr == 0x0110_0000 && f.entry == 0x0110_1000
  }

  lemma CopyEntry(m: map<Key, Entry>, key: Key, e: Entry, file: seq<byte>)
    requires key !in m && key.cls % 2 == 0 && ShowsEntry(e, file) && e.attribute != 8 && e.attribute != 9
    ensures ValidCopy(e, Stored(m, key, file))
  {
    RecordFieldsAt(file, 32);
  }

  // ---------------------------------------------------------------- acceptance

  /** The name is stored, or the table has room for it as the next instance of its class. */
  ghost predicate HasPosition(d: seq<byte>, key: Key)
    requires Consistent(d)
  {
    || key in AsMap(View(d))
    || (|View(d)| < OsipFormat.MAX_DESC && key.instance == Count(Attrs(View(d)), key.cls) + 1)
  }

  lemma PositionMeaning(d: seq<byte>, key: Key)
    requires Consistent(d)
    ensures 0 <= IndexFor(HeaderOf(d), key) < OsipFormat.MAX_DESC <==> HasPosition(d, key)
  {
    ViewAttrs(d);
    MapLookup(View(d), key);
  }

  /** A store in which no flash starves: its images are in slots of their own,
      leave two sectors unused, and at most one is firmware. */
  ghost predicate Healthy(d: seq<byte>) {
    && Consistent(d) && OsipSlots.Slotted(HeaderOf(d))
    && OsipSlots.Spare(HeaderOf(d)) && OsipSlots.SingleFw(HeaderOf(d))
  }

  /** A name whose images go to OS slots. */
  predicate OsName(name: string) {
    NamedKey(name).Some? && OsipSlots.GoesToOsSlot(NamedKey(name).value.cls)
  }

  /** Whatever kernel and ramdisk fit a slot, the packed file is accepted by a
      healthy store exactly when its name has or may get a position. */
  lemma PackedIsAccepted(d: seq<byte>, name: string, origin: seq<byte>, kernel: seq<byte>, ramdisk: seq<byte>,
                         stale: nat, file: seq<byte>)
    requires Healthy(d) && OsName(name)
    requires Packable(origin, kernel, ramdisk, stale) && file == Packed(origin, kernel, ramdisk, stale)
    ensures Accepted(d, name, file) <==> HasPosition(d, NamedKey(name).value)
  {
    var key := NamedKey(name).value;
    NamedKeyClass(name);
    PackedIsFlashable(origin, kernel, ramdisk, stale);
    PackedFile(origin, kernel, ramdisk, stale, file);
    FlashNeverStarves(HeaderOf(d), file, key);
    PositionMeaning(d, key);
  }

  /** After any run whose committed images leave two sectors unused, the store
      is healthy: the chain below can be repeated for ever. */
  lemma RunKeepsHealthy(ds: seq<seq<byte>>, es: seq<Event>)
    requires IsRun(ds, es) && OsipSlots.Slotted(HeaderOf(ds[0])) && OsipSlots.Spare(HeaderOf(ds[0]))
    requires FirstFwOnly(AsMap(View(ds[0]))) && forall i :: 0 <= i < |es| ==> LeavesSpare(es[i])
    ensures Healthy(ds[|es|])
  {
    RunKeepsSlots(ds, es, |es|);
    RunKeepsSpare(ds, es, |es|);
    FirstFwIsSingle(ds[|es|]);
  }

  // ---------------------------------------------------------------- the chain on a device

  /** Packing, flashing, reading back and unpacking on a device: the kernel and
      the ramdisk come back, and without input/output errors the whole chain
      succeeds exactly when the store accepts the packed file; on a healthy
      store and for an OS name that is when the name has or may get a position. */
  method Provision(dev: BlockDevice, origin: seq<byte>, kernel: seq<byte>, ramdisk: seq<byte>, stale: nat,
                   name: string)
    returns (ok: bool, k: seq<byte>, r: seq<byte>)
    requires Consistent(dev.disk) && Packable(origin, kernel, ramdisk, stale) && name != "testos"
    modifies dev
    ensures ok ==> k == kernel && r == ramdisk
    ensures dev.faults == old(dev.faults) ==>
              (ok <==> Accepted(old(dev.disk), name, Packed(origin, kernel, ramdisk, stale)))
    ensures dev.faults == old(dev.faults) && Healthy(old(dev.disk)) && OsName(name) ==>
              (ok <==> HasPosition(old(dev.disk), NamedKey(name).value))
    ensures Consistent(dev.disk)
  {
    var packed, file := Pack(origin, kernel, ramdisk, stale);
    PackedFile(origin, kernel, ramdisk, stale, file);
    if Healthy(dev.disk) && OsName(name) {
      PackedIsAccepted(dev.disk, name, origin, kernel, ramdisk, stale, file);
    }
    ok, k, r := StoreAndRetrieve(dev, file, name);
  }

  lemma PackedFile(origin: seq<byte>, kernel: seq<byte>, ramdisk: seq<byte>, stale: nat, file: seq<byte>)
    requires Packable(origin, kernel, ramdisk, stale) && file == Packed(origin, kernel, ramdisk, stale)
    ensures OsipFormat.HEADER_BYTES <= |file| < 0x1_0000_0000
    ensures Unpackable(file) && UnpackedKernel(file) == kernel && UnpackedRamdisk(file) == ramdisk
  {
    PackedIsFlashable(origin, kernel, ramdisk, stale);
    UnpackInvertsPack(origin, kernel, ramdisk, stale);
  }

  method StoreAndRetrieve(dev: BlockDevice, file: seq<byte>, name: string)
    returns (ok: bool, k: seq<byte>, r: seq<byte>)
    requires Consistent(dev.disk) && OsipFormat.HEADER_BYTES <= |file| < 0x1_0000_0000 && name != "testos"
    requires Unpackable(file)
    modifies dev
    ensures ok ==> k == UnpackedKernel(file) && r == UnpackedRamdisk(file)
    ensures dev.faults == old(dev.faults) ==> (ok <==> Accepted(old(dev.disk), name, file))
    ensures Consistent(dev.disk)
  {
    k, r := [], [];
    ok := FlashFile(dev, file, name);
    if ok {
      ok, k, r := Retrieve(dev, name, file);
    }
  }

  method FlashFile(dev: BlockDevice, file: seq<byte>, name: string) returns (ok: bool)
    requires Consistent(dev.disk) && OsipFormat.HEADER_BYTES <= |file| < 0x1_0000_0000 && name != "testos"
    modifies dev
    ensures Consistent(dev.disk)
    ensures ok ==> Holds(dev.disk, name, file)
    ensures dev.faults >= old(dev.faults)
    ensures dev.faults == old(dev.faults) ==> (ok <==> Accepted(old(dev.disk), name, file))
  {
    ghost var d := dev.disk;
    var data := ToArray(file);
    ok := dev.FlashImage(data, name);
    StepRefines(d, Event(Flash(name, file), ok), dev.disk);
    if ok {
      ReadBack(d, name, file, dev.disk);
    }
  }

  /** Reading back and unpacking what was flashed as `file`. */
  method Retrieve(dev: BlockDevice, name: string, ghost file: seq<byte>)
    returns (ok: bool, k: seq<byte>, r: seq<byte>)
    requires Consistent(dev.disk) && Unpackable(file) && Holds(dev.disk, name, file)
    modifies dev`faults
    ensures ok ==> k == UnpackedKernel(file) && r == UnpackedRamdisk(file)
    ensures dev.faults >= old(dev.faults)
    ensures dev.faults == old(dev.faults) ==> ok
  {
    k, r := [], [];
    var blob;
    ok, blob := dev.ReadImage(name);
    if !ok {
      return;
    }
    UnpackIgnoresSectorZero(file, blob[..]);
    ok, k, r := Unpack(blob[..]);
  }

  /** The name holds what is behind the first sector of the file. */
  ghost predicate Holds(d: seq<byte>, name: string, file: seq<byte>)
    requires Consistent(d)
  {
    && NamedKey(name).Some? && NamedKey(name).value in AsMap(View(d)) && |file| >= SECTOR
    && AsMap(View(d))[NamedKey(name).value].payload == file[SECTOR..]
  }

  ghost predicate Accepted(d: seq<byte>, name: string, data: seq<byte>)
    requires Consistent(d)
  {
    |data| >= OsipFormat.HEADER_BYTES && Flashable(d, name, data)
  }

  method ToArray(s: seq<byte>) returns (a: array<byte>)
    ensures fresh(a) && a[..] == s
  {
    a := new byte[|s|](i requires 0 <= i < |s| => s[i]);
  }

  lemma ReadBack(d: seq<byte>, name: string, data: seq<byte>, d': seq<byte>)
    requires Consistent(d) && Step(d, Event(Flash(name, data), true), d')
    ensures Consistent(d') && Holds(d', name, data)
  {
    PowerCutShowsOldOrNew(d, name, data, true, d');
  }
}
