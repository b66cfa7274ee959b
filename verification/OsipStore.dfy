/**
 The image store on a block device: which images a disk shows, and what a write
 decides before it touches any image data.
 */
module OsipStore {
  import opened Options
  import opened Bytes
  import opened OsipFormat
  import opened OsipSlots
  import opened OsipView

  const BACKUP_OFFSET := 0xE0
  const IMAGE_RECORD := 32

  // ---------------------------------------------------------------- reading a disk

  function HeaderOf(d: seq<byte>): Header
    requires |d| >= HEADER_BYTES
  {
    Decode(d[..HEADER_BYTES])
  }

  /** Sectors of the device that a 32-bit file offset reaches. */
  function Sectors(d: seq<byte>): nat {
    if |d| / LBA_SIZE < MAX_SECTORS then |d| / LBA_SIZE else MAX_SECTORS
  }

  /** A disk the store can work with: large enough for all slots, with a valid
      checksum and well-placed images. */
  ghost predicate Consistent(d: seq<byte>) {
    |d| >= SLOTS_END * LBA_SIZE && Crc(HeaderOf(d)) == 0 && Placed(HeaderOf(d), Sectors(d))
  }

  function Payload(d: seq<byte>, o: Osii): seq<byte>
    requires (o.lba + o.size) * LBA_SIZE <= |d|
  {
    d[o.lba * LBA_SIZE..(o.lba + o.size) * LBA_SIZE]
  }

  function EntryOf(d: seq<byte>, o: Osii): Entry
    requires (o.lba + o.size) * LBA_SIZE <= |d|
  {
    Entry(o.revMinor, o.revMajor, o.ddr, o.entry, o.attribute, o.reserved, Payload(d, o))
  }

  /** The live images in descriptor order: all that a reader of the disk can learn. */
  ghost function View(d: seq<byte>): (v: seq<Entry>)
    requires Consistent(d)
    ensures |v| == HeaderOf(d).numPointers
  {
    var h := HeaderOf(d);
    seq(h.numPointers, i requires 0 <= i < h.numPointers => EntryOf(d, h.desc[i]))
  }

  function LiveAttrs(h: Header): (a: seq<byte>)
    requires h.numPointers <= MAX_DESC
    ensures |a| == h.numPointers
  {
    seq(h.numPointers, i requires 0 <= i < h.numPointers => h.desc[i].attribute)
  }

  lemma ViewAttrs(d: seq<byte>)
    requires Consistent(d)
    ensures Attrs(View(d)) == LiveAttrs(HeaderOf(d))
  {
  }

  // ---------------------------------------------------------------- planning a write

  /** The single descriptor inside an image file. */
  function ImageRecord(data: seq<byte>): Osii
    requires |data| >= HEADER_BYTES
  {
    DecodeOsii(data[IMAGE_RECORD..IMAGE_RECORD + 24])
  }

  /** The format checks: one record, and a size in sectors that agrees, in
      32-bit arithmetic, with the length of the file. */
  predicate WellFormedImage(data: seq<byte>)
    requires |data| >= HEADER_BYTES
  {
    data[8] == 1
    && (ImageRecord(data).size * LBA_SIZE) % 0x1_0000_0000 == (|data| - LBA_SIZE) % 0x1_0000_0000
  }

  /** Descriptor `index` is live and invalidated. */
  predicate Disabled(h: Header, index: nat)
    requires index < MAX_DESC
  {
    index < h.numPointers && h.desc[index].ddr == 0 && h.desc[index].entry == 0
  }

  /** The record as it will be stored: moved to the slot, and still invalidated
      if the descriptor it replaces was. */
  function PreparedRecord(h: Header, index: nat, o: Osii, lba: u32): Osii
    requires index < MAX_DESC
  {
    if Disabled(h, index) then o.(lba := lba, ddr := 0, entry := 0) else o.(lba := lba)
  }

  /** Whether a record of class `c` simply replaces descriptor `index`. */
  predicate Overwrites(h: Header, index: nat, c: byte)
    requires index < MAX_DESC
  {
    Reusable(Class(h.desc[index].attribute)) || Class(h.desc[index].attribute) == c
  }

  /** The table has room for what storing a record does: nothing is moved, or
      there is a descriptor left behind the live ones to move it to. */
  predicate Installable(h: Header, index: nat, c: byte)
    requires index < MAX_DESC
  {
    Overwrites(h, index, c) || (h.numPointers < MAX_DESC && index < MAX_DESC - 1)
  }

  function Counted(h: Header, n: byte): Header
    requires n <= MAX_DESC
  {
    h.(numPointers := n, headerSize := n * 0x18 + 0x20)
  }

  /** The header after storing a record: appended, replaced, or replaced with
      the old descriptor moved to the end. */
  function Install(h: Header, index: nat, o: Osii): Header
    requires h.numPointers <= MAX_DESC && index < MAX_DESC
    requires Installable(h, index, Class(o.attribute))
  {
    var g := if index >= h.numPointers then Counted(h, index + 1) else h;
    if Overwrites(h, index, Class(o.attribute)) then g.(desc := g.desc[index := o])
    else Counted(g, g.numPointers + 1).(desc := g.desc[g.numPointers := h.desc[index]][index := o])
  }

  datatype Plan = Plan(index: nat, record: Osii, header: Header)

  /** What `write_stitch_image` decides before it touches any image data. */
  function PlanWrite(h: Header, data: seq<byte>, index: int): Option<Plan>
    requires h.numPointers <= MAX_DESC && |data| >= HEADER_BYTES
    requires 0 <= index < MAX_DESC ==> Installable(h, index, Class(ImageRecord(data).attribute))
  {
    var o := ImageRecord(data);
    var c := Class(o.attribute);
    if !(0 <= index < MAX_DESC) then None
    else if !WellFormedImage(data) then None
    else if !(GoesToOsSlot(c) || IsFw(c)) then None
    else if FreeLba(c, h) == 0 || o.size > MaxLba(c) then None
    else
      FreeLbaInRange(c, h);
      var p := PreparedRecord(h, index, o, FreeLba(c, h));
      Some(Plan(index, p, Sealed(Install(h, index, p))))
  }

  lemma FreeLbaInRange(c: byte, h: Header)
    requires h.numPointers <= MAX_DESC
    ensures FreeLba(c, h) < SLOTS_END
    ensures FreeLba(c, h) != 0 ==> FreeLba(c, h) in SlotsOf(c) && Free(h, FreeLba(c, h), MaxLba(c))
  {
    FirstFreeMeaning(SlotsOf(c), MaxLba(c), h);
  }

  /** The image file with the attribute that belongs to the wanted class, its
      "unsigned" bit kept. */
  function Retagged(data: seq<byte>, cls: byte): seq<byte>
    requires |data| >= HEADER_BYTES && cls % 2 == 0
  {
    data[IMAGE_RECORD + 20 := cls + data[IMAGE_RECORD + 20] % 2]
  }

  lemma RetaggedRecord(data: seq<byte>, cls: byte)
    requires |data| >= HEADER_BYTES && cls % 2 == 0
    ensures ImageRecord(Retagged(data, cls)) == ImageRecord(data).(attribute := cls + ImageRecord(data).attribute % 2)
    ensures WellFormedImage(Retagged(data, cls)) == WellFormedImage(data)
    ensures Class(ImageRecord(Retagged(data, cls)).attribute) == cls
  {
    var a, b := data[32..56], Retagged(data, cls)[32..56];
    assert forall i :: 0 <= i < 24 && i != 20 ==> a[i] == b[i];
    ClassOfTagged(cls, a[20]);
  }

  lemma ClassOfTagged(cls: byte, b: byte)
    requires cls % 2 == 0
    ensures cls + b % 2 < 0x100 && Class(cls + b % 2) == cls
  {
  }

  function IndexFor(h: Header, key: Key): int
    requires h.numPointers <= MAX_DESC
  {
    WriteIndex(LiveAttrs(h), key)
  }

  /** A named write always lands on a descriptor it may simply overwrite. */
  lemma NamedWriteOverwrites(h: Header, key: Key)
    requires h.numPointers <= MAX_DESC && TailReusable(h)
    requires 0 <= IndexFor(h, key) < MAX_DESC
    ensures Overwrites(h, IndexFor(h, key), key.cls)
    ensures IndexFor(h, key) <= h.numPointers
  {
    var attrs, i := LiveAttrs(h), IndexFor(h, key);
    if i < h.numPointers {
      LookupMeaning(attrs, key);
      assert attrs[i] == h.desc[i].attribute;
    }
  }

  function PlanFlash(h: Header, data: seq<byte>, key: Key): Option<Plan>
    requires h.numPointers <= MAX_DESC && TailReusable(h)
    requires |data| >= HEADER_BYTES && key.cls % 2 == 0
  {
    RetaggedRecord(data, key.cls);
    if 0 <= IndexFor(h, key) < MAX_DESC then
      NamedWriteOverwrites(h, key);
      PlanWrite(h, Retagged(data, key.cls), IndexFor(h, key))
    else None
  }
}
