/**
 Reading an image back into a file of its own: a made-up sector 0 in front of
 the payload.
 */
module OsipReadback {
  import opened Bytes
  import opened OsipFormat
  import opened OsipView
  import opened OsipStore
  import opened OsipHeaderBytes

  const FILE_PREFIX := 56  // the fixed fields and one descriptor

  /** The descriptor of the file: stored right behind sector 0, and with the
      standard addresses unless it is firmware. */
  function FileOsii(o: Osii): Osii {
    if o.attribute != SIGNED_FW && o.attribute != UNSIGNED_FW
    then o.(lba := 1, ddr := DDR_LOAD_ADDX, entry := ENTRY_POINT)
    else o.(lba := 1)
  }

  function UnsealedFileHeader(o: Osii): Header {
    RawHeader.Header(OSIP_SIG, 0, 0, 1, 0, 1, 1, 1 * 0x18 + 0x20, seq(20, _ => 0),
                     seq(MAX_DESC, i => if i == 0 then FileOsii(o) else ZERO_OSII))
  }

  function FileHeader(o: Osii): Header {
    Sealed(UnsealedFileHeader(o))
  }

  /** `bytes` is the file for descriptor `o`: header prefix, 384 bytes of 0xFF,
      70 bytes left as they were in memory, the boot signature and the payload. */
  predicate IsFileOf(o: Osii, payload: seq<byte>, bytes: seq<byte>) {
    && |bytes| == LBA_SIZE + |payload|
    && bytes[..FILE_PREFIX] == Encode(FileHeader(o))[..FILE_PREFIX]
    && (forall i :: FILE_PREFIX <= i < FILE_PREFIX + 384 ==> bytes[i] == 0xFF)
    && bytes[510] == 0x55 && bytes[511] == 0xAA
    && bytes[LBA_SIZE..] == payload
  }

  lemma FileHeaderTail(o: Osii)
    ensures forall k :: FILE_PREFIX <= k < HEADER_BYTES ==> Encode(FileHeader(o))[k] == 0
  {
    var h := FileHeader(o);
    assert forall m :: 0 <= m < 24 ==> EncodeOsii(ZERO_OSII)[m] == 0;
    forall k | FILE_PREFIX <= k < HEADER_BYTES ensures Encode(h)[k] == 0 {
      var j := k - 32;
      assert 1 <= j / 24 < MAX_DESC && h.desc[j / 24] == ZERO_OSII;
      assert Encode(h)[k] == EncodeAll(h.desc)[j] == EncodeOsii(ZERO_OSII)[j % 24];
    }
  }

  /** The 56-byte prefix of the made-up header already checks out on its own. */
  lemma FilePrefixFold(o: Osii)
    ensures XorFold(Encode(FileHeader(o))[..FILE_PREFIX]) == 0
  {
    var s := Encode(FileHeader(o));
    SealedPasses(UnsealedFileHeader(o));
    FileHeaderTail(o);
    assert s == s[..FILE_PREFIX] + s[FILE_PREFIX..];
    FoldConcat(s[..FILE_PREFIX], s[FILE_PREFIX..]);
    FoldRepeated(s[FILE_PREFIX..], 0);
    XorZero(XorFold(s[..FILE_PREFIX]));
  }

  lemma FilledChecksum(bytes: seq<byte>)
    requires |bytes| >= LBA_SIZE && XorFold(bytes[..FILE_PREFIX]) == 0
    requires forall i :: FILE_PREFIX <= i < HEADER_BYTES ==> bytes[i] == 0xFF
    ensures XorFold(bytes[..HEADER_BYTES]) == 0
  {
    var filler := bytes[FILE_PREFIX..HEADER_BYTES];
    assert bytes[..HEADER_BYTES] == bytes[..FILE_PREFIX] + filler;
    FoldConcat(bytes[..FILE_PREFIX], filler);
    FoldRepeated(filler, 0xFF);
    XorZero(0);
  }

  /** The file checks out over its first 56 bytes and, although 168 bytes of the
      header area are overwritten with 0xFF, over its first 224 as well. */
  lemma FileChecksums(o: Osii, payload: seq<byte>, bytes: seq<byte>)
    requires IsFileOf(o, payload, bytes)
    ensures XorFold(bytes[..FILE_PREFIX]) == 0
    ensures XorFold(bytes[..HEADER_BYTES]) == 0
  {
    FilePrefixFold(o);
    FilledChecksum(bytes);
  }

  /** The first 56 bytes of a header determine its count and first descriptor. */
  lemma PrefixRecord(h: Header, bytes: seq<byte>)
    requires |bytes| >= HEADER_BYTES && bytes[..FILE_PREFIX] == Encode(h)[..FILE_PREFIX]
    ensures bytes[8] == h.numPointers && ImageRecord(bytes) == h.desc[0]
  {
    FixedReadsBack(h);
    DescReadsBack(h, 0);
    SamePrefix(bytes, Encode(h));
  }

  lemma SamePrefix(s: seq<byte>, t: seq<byte>)
    requires |s| >= FILE_PREFIX && |t| >= FILE_PREFIX && s[..FILE_PREFIX] == t[..FILE_PREFIX]
    ensures s[8] == t[8] && s[32..56] == t[32..56]
  {
    assert s[8] == s[..FILE_PREFIX][8];
    assert s[32..56] == s[..FILE_PREFIX][32..56];
  }

  lemma FileRecord(o: Osii, payload: seq<byte>, bytes: seq<byte>)
    requires IsFileOf(o, payload, bytes)
    ensures bytes[8] == 1 && ImageRecord(bytes) == FileOsii(o)
  {
    PrefixRecord(FileHeader(o), bytes);
  }

  /** The header of the file, byte by byte: a single image right behind the first
      sector, with the size, revision and attribute of the stored one. The
      addresses are the standard ones, whatever is stored, unless the image is
      firmware (attribute 8 or 9): then they are the stored ones. */
  predicate FileHeaderBytes(o: Osii, bytes: seq<byte>)
    requires |bytes| >= LBA_SIZE
  {
    && Get32(bytes, 0) == 0x24534f24
    && bytes[4] == 0 && bytes[5] == 0 && bytes[6] == 1 && bytes[8] == 1 && bytes[9] == 1
    && Get16(bytes, 10) == 56 && (forall i :: 12 <= i < 32 ==> bytes[i] == 0)
    && Get16(bytes, 32) == o.revMinor && Get16(bytes, 34) == o.revMajor && Get32(bytes, 36) == 1
    && (o.attribute != 8 && o.attribute != 9 ==>
          Get32(bytes, 40) == 0x0110_0000 && Get32(bytes, 44) == 0x0110_1000)
    && (o.attribute == 8 || o.attribute == 9 ==> Get32(bytes, 40) == o.ddr && Get32(bytes, 44) == o.entry)
    && Get32(bytes, 48) == o.size && bytes[52] == o.attribute && Get24(bytes, 53) == o.reserved
  }

  lemma FileBytes(o: Osii, payload: seq<byte>, bytes: seq<byte>)
    requires IsFileOf(o, payload, bytes)
    ensures FileHeaderBytes(o, bytes)
  {
    FileRecord(o, payload, bytes);
    RecordFieldsAt(bytes, 32);
    FileFixedBytes(FileHeader(o), bytes);
  }

  lemma FileFixedBytes(h: Header, bytes: seq<byte>)
    requires |bytes| >= HEADER_BYTES && bytes[..FILE_PREFIX] == Encode(h)[..FILE_PREFIX]
    ensures Get32(bytes, 0) == h.sig && bytes[4] == h.intelReserved && bytes[5] == h.revMinor
    ensures bytes[6] == h.revMajor && bytes[8] == h.numPointers && bytes[9] == h.numImages
    ensures Get16(bytes, 10) == h.headerSize && bytes[12..32] == h.reserved
    ensures forall i :: 12 <= i < 32 ==> bytes[i] == h.reserved[i - 12]
  {
    var s := Encode(h);
    FixedReadsBack(h);
    assert forall i :: 0 <= i < FILE_PREFIX ==> bytes[i] == bytes[..FILE_PREFIX][i] == s[i];
    assert bytes[12..32] == s[12..32];
  }

  /** Whatever is read back can be flashed again: it passes the format checks
      of the writer. */
  lemma FileIsFlashable(o: Osii, payload: seq<byte>, bytes: seq<byte>)
    requires IsFileOf(o, payload, bytes) && |payload| == o.size * LBA_SIZE
    ensures WellFormedImage(bytes)
    ensures ImageRecord(bytes).attribute == o.attribute
    ensures bytes[LBA_SIZE..] == payload
  {
    FileRecord(o, payload, bytes);
  }

  /** The file shows the entry: its payload, revision and attribute, in a form
      that can be flashed again, with the standard addresses unless the entry is
      firmware. */
  predicate ShowsEntry(e: Entry, bytes: seq<byte>) {
    && |bytes| >= LBA_SIZE && bytes[LBA_SIZE..] == e.payload
    && Get32(bytes, 0) == 0x24534f24
    && (e.attribute != 8 && e.attribute != 9 ==>
          Get32(bytes, 40) == 0x0110_0000 && Get32(bytes, 44) == 0x0110_1000)
    && (e.attribute == 8 || e.attribute == 9 ==> Get32(bytes, 40) == e.ddr && Get32(bytes, 44) == e.entry)
    && WellFormedImage(bytes)
    && XorFold(bytes[..FILE_PREFIX]) == 0 && XorFold(bytes[..HEADER_BYTES]) == 0
    && var o := ImageRecord(bytes);
       o.revMinor == e.revMinor && o.revMajor == e.revMajor && o.attribute == e.attribute
       && o.reserved == e.reserved && o.lba == 1
  }

  lemma FileShowsEntry(d: seq<byte>, index: nat, bytes: seq<byte>)
    requires Consistent(d) && index < HeaderOf(d).numPointers
    requires var o := HeaderOf(d).desc[index]; IsFileOf(o, Payload(d, o), bytes)
    ensures ShowsEntry(View(d)[index], bytes)
  {
    var o := HeaderOf(d).desc[index];
    FileShows(o, EntryOf(d, o), Payload(d, o), bytes);
  }

  lemma FileShows(o: Osii, e: Entry, payload: seq<byte>, bytes: seq<byte>)
    requires IsFileOf(o, payload, bytes) && |payload| == o.size * LBA_SIZE
    requires e == Entry(o.revMinor, o.revMajor, o.ddr, o.entry, o.attribute, o.reserved, payload)
    ensures ShowsEntry(e, bytes)
  {
    FileBytes(o, payload, bytes);
    FileRecord(o, payload, bytes);
    FileIsFlashable(o, payload, bytes);
    FileChecksums(o, payload, bytes);
  }
}
