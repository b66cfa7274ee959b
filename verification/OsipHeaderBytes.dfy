/**
 The header as bytes on the disk: where every field lies, and which bytes of
 sector 0 an operation of the store may change.
 */
module OsipHeaderBytes {
  import opened Options
  import opened Bytes
  import opened OsipFormat
  import opened OsipSlots
  import opened OsipView
  import opened OsipStore
  import opened OsipCommit
  import opened OsipRuns

  // ---------------------------------------------------------------- where the fields lie

  /** The offsets of the fixed fields. */
  lemma FixedFieldsAt(d: seq<byte>)
    requires |d| >= HEADER_BYTES
    ensures var h := HeaderOf(d);
            && h.sig == Get32(d, 0) && h.intelReserved == d[4] && h.revMinor == d[5] && h.revMajor == d[6]
            && h.checksum == d[7] && h.numPointers == d[8] && h.numImages == d[9] && h.headerSize == Get16(d, 10)
            && h.reserved == d[12..32]
  {
    var s := d[..HEADER_BYTES];
    assert s[0..4] == d[0..4] && s[10..12] == d[10..12] && s[12..32] == d[12..32];
    GetAt(s, 0, 4);
    GetAt(d, 0, 4);
    GetAt(s, 10, 12);
    GetAt(d, 10, 12);
  }

  /** The offsets of the fields of a descriptor that starts at byte `at`. */
  lemma RecordFieldsAt(d: seq<byte>, at: nat)
    requires at + 24 <= |d|
    ensures var o := DecodeOsii(d[at..at + 24]);
            && o.revMinor == Get16(d, at) && o.revMajor == Get16(d, at + 2) && o.lba == Get32(d, at + 4)
            && o.ddr == Get32(d, at + 8) && o.entry == Get32(d, at + 12) && o.size == Get32(d, at + 16)
            && o.attribute == d[at + 20] && o.reserved == Get24(d, at + 21)
  {
    var s := d[at..at + 24];
    FieldMoves(d, at, s, 4);
    FieldMoves(d, at, s, 8);
    FieldMoves(d, at, s, 12);
    FieldMoves(d, at, s, 16);
  }

  lemma FieldMoves(d: seq<byte>, at: nat, s: seq<byte>, k: nat)
    requires at + 24 <= |d| && s == d[at..at + 24] && k + 4 <= 24
    ensures Get32(s, k) == Get32(d, at + k)
  {
    assert s[k] == d[at + k] && s[k + 1] == d[at + k + 1] && s[k + 2] == d[at + k + 2] && s[k + 3] == d[at + k + 3];
  }

  /** Descriptor `i` lies at byte 32 + 24 * i. */
  lemma DescriptorAt(d: seq<byte>, i: nat)
    requires |d| >= HEADER_BYTES && i < MAX_DESC
    ensures HeaderOf(d).desc[i] == DecodeOsii(d[32 + 24 * i..32 + 24 * i + 24])
  {
    assert DescBytes(d[..HEADER_BYTES], i) == d[32 + 24 * i..32 + 24 * i + 24];
  }

  // ---------------------------------------------------------------- what stays

  /** Sector 0 keeps its signature, revision, image count and reserved bytes. The
      number of pointers never shrinks; the header size follows it when it grows. */
  predicate HeaderKept(d: seq<byte>, d': seq<byte>) {
    && |d| == |d'| >= HEADER_BYTES
    && (forall i :: 0 <= i < 32 && i !in {7, 8, 10, 11} ==> d'[i] == d[i])
    && d'[8] >= d[8]
    && Get16(d', 10) == if d'[8] == d[8] then Get16(d, 10) else 32 + 24 * (d'[8] as int)
  }

  lemma FixedKeptOnDisk(d: seq<byte>, d': seq<byte>)
    requires |d| == |d'| >= HEADER_BYTES && FixedKept(HeaderOf(d), HeaderOf(d'))
    ensures HeaderKept(d, d')
  {
    FixedFieldsAt(d);
    FixedFieldsAt(d');
    SameSignature(d, d');
    assert forall i :: 12 <= i < 32 ==> d'[i] == d'[12..32][i - 12] && d[i] == d[12..32][i - 12];
  }

  lemma SameSignature(d: seq<byte>, d': seq<byte>)
    requires |d| >= 4 && |d'| >= 4 && Get32(d, 0) == Get32(d', 0)
    ensures d[0] == d'[0] && d[1] == d'[1] && d[2] == d'[2] && d[3] == d'[3]
  {
    GetAt(d, 0, 4);
    GetAt(d', 0, 4);
    Le32Get32(d[0..4]);
    Le32Get32(d'[0..4]);
    assert d[0..4] == d'[0..4];
    assert d[0] == d[0..4][0] && d[1] == d[0..4][1] && d[2] == d[0..4][2] && d[3] == d[0..4][3];
  }

  lemma PlanKeepsFixed(h: Header, data: seq<byte>, index: int)
    requires h.numPointers <= MAX_DESC && |data| >= HEADER_BYTES
    requires 0 <= index < MAX_DESC ==> Installable(h, index, Class(ImageRecord(data).attribute))
    requires PlanWrite(h, data, index).Some?
    ensures FixedKept(h, PlanWrite(h, data, index).value.header)
  {
    FreeLbaInRange(Class(ImageRecord(data).attribute), h);
    InstallKeepsFixed(h, index, PlanWrite(h, data, index).value.record);
  }

  lemma FinishedKeepsHeader(d: seq<byte>, plan: Plan, payload: seq<byte>, d': seq<byte>)
    requires Finished(d, plan, payload, d') && FixedKept(HeaderOf(d), plan.header)
    ensures HeaderKept(d, d')
  {
    FinishedHeader(d, plan, payload, d');
    FixedKeptOnDisk(d, d');
  }

  lemma UnfinishedKeepsHeader(d: seq<byte>, plan: Option<Plan>, d': seq<byte>)
    requires |d| >= HEADER_BYTES && Unfinished(d, plan, d')
    requires plan.Some? ==> plan.value.record.lba >= 1
    ensures HeaderKept(d, d')
  {
    UnfinishedHeader(d, plan, d');
    FixedKeptOnDisk(d, d');
  }

  lemma FlashKeepsHeader(d: seq<byte>, data: seq<byte>, key: Key, committed: bool, d': seq<byte>)
    requires Consistent(d) && key.cls % 2 == 0 && HEADER_BYTES <= |data| < 0x1_0000_0000
    requires FlashStep(d, data, key, committed, d')
    ensures HeaderKept(d, d')
  {
    var h := HeaderOf(d);
    var plan := PlanFlash(h, data, key);
    if plan.Some? {
      FlashPlanFixed(h, Sectors(d), data, key);
    }
    if committed {
      FinishedKeepsHeader(d, plan.value, data[LBA_SIZE..], d');
    } else {
      UnfinishedKeepsHeader(d, plan, d');
    }
  }

  lemma FlashPlanFixed(h: Header, sectors: nat, data: seq<byte>, key: Key)
    requires Placed(h, sectors) && sectors <= MAX_SECTORS && |data| >= HEADER_BYTES && key.cls % 2 == 0
    requires PlanFlash(h, data, key).Some?
    ensures var plan := PlanFlash(h, data, key).value;
            FixedKept(h, plan.header) && plan.record.lba >= 1
  {
    RetaggedRecord(data, key.cls);
    NamedWriteOverwrites(h, key);
    PlanKeepsFixed(h, Retagged(data, key.cls), IndexFor(h, key));
    PlanShape(h, sectors, Retagged(data, key.cls), IndexFor(h, key));
  }

  /** An address update keeps even more: the number of pointers and every
      descriptor byte but the eight of the two addresses. */
  predicate OnlyAddresses(d: seq<byte>, index: nat, d': seq<byte>) {
    && |d| == |d'| >= HEADER_BYTES && index < MAX_DESC
    && forall i :: 0 <= i < |d| && i != 7 && !(32 + 24 * index + 8 <= i < 32 + 24 * index + 16) ==> d'[i] == d[i]
  }

  /** The name is stored, its two addresses are these, and nothing else changed. */
  ghost predicate AddressesWritten(d: seq<byte>, key: Key, ddr: u32, entry: u32, d': seq<byte>)
    requires Consistent(d)
  {
    var i := Lookup(LiveAttrs(HeaderOf(d)), key);
    && i >= 0 && OnlyAddresses(d, i, d')
    && Get32(d', 40 + 24 * i) == ddr && Get32(d', 44 + 24 * i) == entry
  }

  lemma AddressBytes(h: Header, index: nat, ddr: u32, entry: u32, g: Header)
    requires index < MAX_DESC && g == Sealed(WithAddresses(h, index, ddr, entry))
    ensures forall i :: 0 <= i < HEADER_BYTES && i != 7 && !(32 + 24 * index + 8 <= i < 32 + 24 * index + 16) ==>
              Encode(g)[i] == Encode(h)[i]
    ensures Get32(Encode(g), 32 + 24 * index + 8) == ddr && Get32(Encode(g), 32 + 24 * index + 12) == entry
  {
    var at := 32 + 24 * index;
    forall i | 0 <= i < HEADER_BYTES && i != 7 && !(at + 8 <= i < at + 16) ensures Encode(g)[i] == Encode(h)[i] {
      AddressByte(h, index, ddr, entry, g.checksum, g, i);
    }
    AddressFields(g, index);
  }

  lemma AddressFields(g: Header, index: nat)
    requires index < MAX_DESC
    ensures Get32(Encode(g), 32 + 24 * index + 8) == g.desc[index].ddr
    ensures Get32(Encode(g), 32 + 24 * index + 12) == g.desc[index].entry
  {
    var t := Encode(g);
    DescReadsBack(g, index);
    RecordFieldsAt(t, 32 + 24 * index);
  }

  lemma AddressByte(h: Header, index: nat, ddr: u32, entry: u32, c: byte, g: Header, i: nat)
    requires index < MAX_DESC && g == WithAddresses(h, index, ddr, entry).(checksum := c)
    requires i < HEADER_BYTES && i != 7 && !(32 + 24 * index + 8 <= i < 32 + 24 * index + 16)
    ensures Encode(g)[i] == Encode(h)[i]
  {
    if i < 32 {
      assert Encode(g)[i] == EncodeFixed(g)[i] && Encode(h)[i] == EncodeFixed(h)[i];
    } else {
      var j, k := (i - 32) / 24, (i - 32) % 24;
      DescByteAt(h, i, j, k);
      DescByteAt(g, i, j, k);
      if j == index {
        AddressOsii(h.desc[j], ddr, entry);
      }
    }
  }

  lemma DescByteAt(h: Header, i: nat, j: nat, k: nat)
    requires j < MAX_DESC && k < 24 && i == 32 + 24 * j + k
    ensures Encode(h)[i] == EncodeOsii(h.desc[j])[k]
  {
    EncodeAllAt(h.desc, j);
    assert Encode(h)[i] == EncodeAll(h.desc)[24 * j + k] == EncodeAll(h.desc)[24 * j..24 * j + 24][k];
  }

  lemma AddressOsii(o: Osii, ddr: u32, entry: u32)
    ensures forall k :: 0 <= k < 24 && !(8 <= k < 16) ==>
              EncodeOsii(o.(ddr := ddr, entry := entry))[k] == EncodeOsii(o)[k]
  {
  }

  /** A committed address update writes the two addresses and the checksum, and
      no other byte of the disk. */
  lemma AddressStepBytes(d: seq<byte>, key: Key, ddr: u32, entry: u32, committed: bool, d': seq<byte>)
    requires Consistent(d) && AddressStep(d, key, ddr, entry, committed, d')
    ensures committed ==> AddressesWritten(d, key, ddr, entry, d')
    ensures HeaderKept(d, d')
  {
    if committed {
      var h := HeaderOf(d);
      var i := Lookup(LiveAttrs(h), key);
      var g := Sealed(WithAddresses(h, i, ddr, entry));
      AddressBytes(h, i, ddr, entry, g);
      BytesRoundTrip(d[..HEADER_BYTES]);
      SplicedAddresses(d, i, ddr, entry, Encode(h), Encode(g), d');
    }
  }

  lemma SplicedAddresses(d: seq<byte>, index: nat, ddr: u32, entry: u32, s: seq<byte>, t: seq<byte>, d': seq<byte>)
    requires |d| >= HEADER_BYTES && index < MAX_DESC && s == d[..HEADER_BYTES] && |t| == HEADER_BYTES
    requires d' == Splice(d, 0, t)
    requires forall i :: 0 <= i < HEADER_BYTES && i != 7 && !(32 + 24 * index + 8 <= i < 32 + 24 * index + 16) ==>
               t[i] == s[i]
    requires Get32(t, 32 + 24 * index + 8) == ddr && Get32(t, 32 + 24 * index + 12) == entry
    ensures OnlyAddresses(d, index, d') && HeaderKept(d, d')
    ensures Get32(d', 32 + 24 * index + 8) == ddr && Get32(d', 32 + 24 * index + 12) == entry
  {
    assert forall i :: 0 <= i < HEADER_BYTES ==> d'[i] == t[i];
    assert forall i :: 0 <= i < HEADER_BYTES ==> s[i] == d[i];
  }

  lemma StepKeepsHeader(d: seq<byte>, e: Event, d': seq<byte>)
    requires Consistent(d) && Step(d, e, d')
    ensures HeaderKept(d, d')
  {
    var key := NamedKey(e.op.name);
    if key.Some? {
      NamedKeyClass(e.op.name);
      match e.op
      case Flash(_, data) => FlashKeepsHeader(d, data, key.value, e.committed, d');
      case Invalidate(_) => AddressStepBytes(d, key.value, 0, 0, e.committed, d');
      case Restore(_) => AddressStepBytes(d, key.value, DDR_LOAD_ADDX, ENTRY_POINT, e.committed, d');
    }
  }

  lemma HeaderKeptComposes(d: seq<byte>, d': seq<byte>, d'': seq<byte>)
    requires HeaderKept(d, d') && HeaderKept(d', d'')
    ensures HeaderKept(d, d'')
  {
  }

  lemma HeaderKeptItself(ds: seq<seq<byte>>, es: seq<Event>, i: nat)
    requires IsRun(ds, es) && i <= |es|
    ensures HeaderKept(ds[i], ds[i])
  {
    RunConsistent(ds, es, i);
  }

  /** Between any two points of a run the signature, the revision, the image count
      and the reserved bytes of sector 0 are the same, byte by byte, and the
      header size is 32 + 24 bytes for each pointer as soon as one was added. */
  lemma {:induction false} RunKeepsHeader(ds: seq<seq<byte>>, es: seq<Event>, i: nat, j: nat)
    requires IsRun(ds, es) && i <= j <= |es|
    ensures HeaderKept(ds[i], ds[j])
  {
    if i == j {
      HeaderKeptItself(ds, es, i);
    } else {
      RunKeepsHeader(ds, es, i, j - 1);
      RunStepKeepsHeader(ds, es, j - 1);
      HeaderKeptComposes(ds[i], ds[j - 1], ds[j]);
    }
  }

  lemma RunStepKeepsHeader(ds: seq<seq<byte>>, es: seq<Event>, k: nat)
    requires IsRun(ds, es) && k < |es|
    ensures HeaderKept(ds[k], ds[k + 1])
  {
    RunConsistent(ds, es, k);
    StepKeepsHeader(ds[k], es[k], ds[k + 1]);
  }

  // ---------------------------------------------------------------- an erased header

  lemma ZeroOsiiBytes(k: nat)
    requires k < 24
    ensures EncodeOsii(ZERO_OSII)[k] == 0
  {
  }

  lemma ZeroHeaderBytes(h: Header)
    requires h == ZERO_HEADER
    ensures forall i :: 0 <= i < HEADER_BYTES ==> Encode(h)[i] == 0
  {
    forall i | 0 <= i < HEADER_BYTES ensures Encode(h)[i] == 0 {
      if i < 32 {
        assert Encode(h)[i] == EncodeFixed(h)[i];
      } else {
        DescByteAt(h, i, (i - 32) / 24, (i - 32) % 24);
        ZeroOsiiBytes((i - 32) % 24);
      }
    }
  }

  /** The sealed zero header is 224 zero bytes. */
  lemma ErasedBytes(g: Header)
    requires g == Sealed(ZERO_HEADER)
    ensures forall i :: 0 <= i < HEADER_BYTES ==> Encode(g)[i] == 0
  {
    ZeroHeaderBytes(ZERO_HEADER);
    FoldRepeated(Encode(ZERO_HEADER), 0);
    ZeroSeal(ZERO_HEADER, g);
    ZeroHeaderBytes(g);
  }

  /** 224 zero bytes in front of what was there. */
  predicate ZeroedHeader(d: seq<byte>, d': seq<byte>) {
    |d'| == |d| && forall i :: 0 <= i < |d| ==> d'[i] == if i < 224 then 0 else d[i]
  }

  lemma ErasedDisk(d: seq<byte>, d': seq<byte>)
    requires |d| >= SLOTS_END * LBA_SIZE && d' == Splice(d, 0, Encode(Sealed(ZERO_HEADER)))
    ensures Consistent(d') && View(d') == [] && Slotted(HeaderOf(d')) && ZeroedHeader(d, d')
  {
    var g := Sealed(ZERO_HEADER);
    ErasedStore(d, g);
    ErasedBytes(g);
  }

  lemma ZeroSeal(h: Header, g: Header)
    requires h.checksum == 0 && g == Sealed(h) && XorFold(Encode(h)) == 0
    ensures g == h
  {
    assert h.(checksum := 0) == h;
  }

  // ---------------------------------------------------------------- which files are accepted

  /** The format checks on the bytes of the file: one record, and one sector more
      than its size field says. */
  lemma WellFormedBytes(data: seq<byte>)
    requires HEADER_BYTES <= |data| < 0x1_0000_0000
    ensures WellFormedImage(data) && ImageRecord(data).size <= OS_MAX_LBA
            <==> data[8] == 1 && Get32(data, 48) <= 32000 && |data| == 512 * (1 + Get32(data, 48))
  {
    RecordFieldsAt(data, 32);
    if WellFormedImage(data) && ImageRecord(data).size <= OS_MAX_LBA {
      SectorLength(ImageRecord(data).size, |data|);
    }
  }
}
