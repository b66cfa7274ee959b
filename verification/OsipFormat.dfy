/**
 The OSIP header: 32 bytes of fixed fields followed by eight 24-byte image
 descriptors, all little-endian, protected by one exclusive-or byte.
 */
module OsipFormat {
  import opened Bytes

  const OSIP_SIG: u32 := 0x24534f24
  const MAX_DESC := 8
  const HEADER_BYTES := 224
  const LBA_SIZE := 512
  const DDR_LOAD_ADDX: u32 := 0x0110_0000
  const ENTRY_POINT: u32 := 0x0110_1000

  const SIGNED_KERNEL: byte := 0
  const SIGNED_SPLASHSCREEN: byte := 0x04
  const SIGNED_FW: byte := 8
  const UNSIGNED_FW: byte := 9
  const SIGNED_COS: byte := 0x0A
  const SIGNED_ROS: byte := 0x0C
  const SIGNED_POS: byte := 0x0E
  const SIGNED_COMB: byte := 0x10
  const SIGNED_RAMDUMPOS: byte := 0x16
  const NOT_USED: byte := 0xFF

  /** One image descriptor. */
  datatype Osii = Osii(
    revMinor: u16, revMajor: u16, lba: u32, ddr: u32, entry: u32, size: u32,
    attribute: byte, reserved: u24)

  datatype RawHeader = Header(
    sig: u32, intelReserved: byte, revMinor: byte, revMajor: byte, checksum: byte,
    numPointers: byte, numImages: byte, headerSize: u16, reserved: seq<byte>, desc: seq<Osii>)

  const ZERO_OSII := Osii(0, 0, 0, 0, 0, 0, 0, 0)

  /** The header a `memset` to zero leaves. */
  const ZERO_HEADER: RawHeader :=
    RawHeader.Header(0, 0, 0, 0, 0, 0, 0, 0, seq(20, _ => 0), seq(MAX_DESC, _ => ZERO_OSII))

  type Header = h: RawHeader | |h.reserved| == 20 && |h.desc| == MAX_DESC
    witness ZERO_HEADER

  /** The attribute with its "unsigned" bit cleared. */
  function Class(attribute: byte): byte {
    attribute - attribute % 2
  }

  // ---------------------------------------------------------------- descriptors

  function EncodeOsii(o: Osii): (s: seq<byte>)
    ensures |s| == 24
  {
    Le16(o.revMinor) + Le16(o.revMajor) + Le32(o.lba) + Le32(o.ddr) + Le32(o.entry) + Le32(o.size)
    + [o.attribute] + Le24(o.reserved)
  }

  function DecodeOsii(s: seq<byte>): Osii
    requires |s| == 24
  {
    Osii(Get16(s, 0), Get16(s, 2), Get32(s, 4), Get32(s, 8), Get32(s, 12), Get32(s, 16), s[20], Get24(s, 21))
  }

  lemma OsiiRoundTrip(o: Osii)
    ensures DecodeOsii(EncodeOsii(o)) == o
  {
    var s := EncodeOsii(o);
    assert s[0..2] == Le16(o.revMinor) && s[2..4] == Le16(o.revMajor);
    assert s[4..8] == Le32(o.lba) && s[8..12] == Le32(o.ddr);
    assert s[12..16] == Le32(o.entry) && s[16..20] == Le32(o.size);
    assert s[20] == o.attribute && s[21..24] == Le24(o.reserved);
    Get16Le16(o.revMinor);
    Get16Le16(o.revMajor);
    Get32Le32(o.lba);
    Get32Le32(o.ddr);
    Get32Le32(o.entry);
    Get32Le32(o.size);
    Get24Le24(o.reserved);
    GetAt(s, 0, 2);
    GetAt(s, 2, 4);
    GetAt(s, 4, 8);
    GetAt(s, 8, 12);
    GetAt(s, 12, 16);
    GetAt(s, 16, 20);
    GetAt(s, 21, 24);
  }

  lemma GetAt(s: seq<byte>, lo: nat, hi: nat)
    requires lo <= hi <= |s|
    ensures hi == lo + 2 ==> Get16(s, lo) == Get16(s[lo..hi], 0)
    ensures hi == lo + 3 ==> Get24(s, lo) == Get24(s[lo..hi], 0)
    ensures hi == lo + 4 ==> Get32(s, lo) == Get32(s[lo..hi], 0)
  {
  }

  lemma BytesRoundTripOsii(s: seq<byte>)
    requires |s| == 24
    ensures EncodeOsii(DecodeOsii(s)) == s
  {
    GetAt(s, 0, 2);
    GetAt(s, 2, 4);
    GetAt(s, 4, 8);
    GetAt(s, 8, 12);
    GetAt(s, 12, 16);
    GetAt(s, 16, 20);
    GetAt(s, 21, 24);
    Le16Get16(s[0..2]);
    Le16Get16(s[2..4]);
    Le32Get32(s[4..8]);
    Le32Get32(s[8..12]);
    Le32Get32(s[12..16]);
    Le32Get32(s[16..20]);
    Le24Get24(s[21..24]);
    assert s == s[0..2] + s[2..4] + s[4..8] + s[8..12] + s[12..16] + s[16..20] + [s[20]] + s[21..24];
  }

  /** The descriptors one after the other: byte `k` belongs to descriptor `k / 24`. */
  function EncodeAll(ds: seq<Osii>): (s: seq<byte>)
    ensures |s| == 24 * |ds|
  {
    seq(24 * |ds|, k requires 0 <= k < 24 * |ds| => EncodeOsii(ds[k / 24])[k % 24])
  }

  lemma EncodeAllAt(ds: seq<Osii>, i: nat)
    requires i < |ds|
    ensures EncodeAll(ds)[24 * i..24 * i + 24] == EncodeOsii(ds[i])
  {
    var t, e := EncodeAll(ds)[24 * i..24 * i + 24], EncodeOsii(ds[i]);
    forall k | 0 <= k < 24 ensures t[k] == e[k] {
      assert (24 * i + k) / 24 == i && (24 * i + k) % 24 == k;
    }
  }

  // ---------------------------------------------------------------- headers

  function EncodeFixed(h: Header): (s: seq<byte>)
    ensures |s| == 32
  {
    Le32(h.sig) + [h.intelReserved, h.revMinor, h.revMajor, h.checksum, h.numPointers, h.numImages]
    + Le16(h.headerSize) + h.reserved
  }

  function Encode(h: Header): (s: seq<byte>)
    ensures |s| == HEADER_BYTES
  {
    EncodeFixed(h) + EncodeAll(h.desc)
  }

  function DescBytes(s: seq<byte>, i: nat): (r: seq<byte>)
    requires |s| == HEADER_BYTES && i < MAX_DESC
    ensures |r| == 24
  {
    s[32 + 24 * i..32 + 24 * i + 24]
  }

  function Decode(s: seq<byte>): Header
    requires |s| == HEADER_BYTES
  {
    RawHeader.Header(Get32(s, 0), s[4], s[5], s[6], s[7], s[8], s[9], Get16(s, 10), s[12..32],
                     seq(MAX_DESC, i requires 0 <= i < MAX_DESC => DecodeOsii(DescBytes(s, i))))
  }

  lemma FixedReadsBack(h: Header)
    ensures var s := Encode(h);
            && Get32(s, 0) == h.sig && s[4] == h.intelReserved && s[5] == h.revMinor && s[6] == h.revMajor
            && s[7] == h.checksum && s[8] == h.numPointers && s[9] == h.numImages
            && Get16(s, 10) == h.headerSize && s[12..32] == h.reserved
  {
    var s := Encode(h);
    assert s[0..4] == Le32(h.sig);
    GetAt(s, 0, 4);
    Get32Le32(h.sig);
    assert s[10..12] == Le16(h.headerSize);
    GetAt(s, 10, 12);
    Get16Le16(h.headerSize);
  }

  lemma DescReadsBack(h: Header, i: nat)
    requires i < MAX_DESC
    ensures DecodeOsii(DescBytes(Encode(h), i)) == h.desc[i]
  {
    assert DescBytes(Encode(h), i) == EncodeOsii(h.desc[i]) by {
      EncodeAllAt(h.desc, i);
      var e := EncodeAll(h.desc);
      assert DescBytes(EncodeFixed(h) + e, i) == e[24 * i..24 * i + 24];
    }
    OsiiRoundTrip(h.desc[i]);
  }

  /** Reading back a written header yields the same header. */
  lemma HeaderRoundTrip(h: Header)
    ensures Decode(Encode(h)) == h
  {
    FixedReadsBack(h);
    var d := Decode(Encode(h)).desc;
    forall i | 0 <= i < MAX_DESC ensures d[i] == h.desc[i] {
      DescReadsBack(h, i);
    }
    assert d == h.desc;
  }

  lemma FixedBytesBack(s: seq<byte>)
    requires |s| == HEADER_BYTES
    ensures EncodeFixed(Decode(s)) == s[..32]
  {
    GetAt(s, 0, 4);
    Le32Get32(s[0..4]);
    GetAt(s, 10, 12);
    Le16Get16(s[10..12]);
    assert s[..32] == s[0..4] + s[4..10] + s[10..12] + s[12..32];
  }

  lemma DescBytesBack(s: seq<byte>)
    requires |s| == HEADER_BYTES
    ensures EncodeAll(Decode(s).desc) == s[32..]
  {
    var ds, t := Decode(s).desc, s[32..];
    forall i | 0 <= i < MAX_DESC ensures EncodeOsii(ds[i]) == t[24 * i..24 * i + 24] {
      BytesRoundTripOsii(DescBytes(s, i));
      assert DescBytes(s, i) == t[24 * i..24 * i + 24];
    }
    EncodeAllBytes(ds, t);
  }

  /** Any 224 bytes are the encoding of the header they decode to. */
  lemma BytesRoundTrip(s: seq<byte>)
    requires |s| == HEADER_BYTES
    ensures Encode(Decode(s)) == s
  {
    FixedBytesBack(s);
    DescBytesBack(s);
    assert s == s[..32] + s[32..];
  }

  lemma EncodeAllBytes(ds: seq<Osii>, s: seq<byte>)
    requires |s| == 24 * |ds|
    requires forall i :: 0 <= i < |ds| ==> EncodeOsii(ds[i]) == s[24 * i..24 * i + 24]
    ensures EncodeAll(ds) == s
  {
    forall k | 0 <= k < |s| ensures EncodeAll(ds)[k] == s[k] {
      var i, m := k / 24, k % 24;
      assert EncodeOsii(ds[i])[m] == s[24 * i..24 * i + 24][m];
    }
  }

  // ---------------------------------------------------------------- checksum

  /** Exclusive or of all 224 header bytes. */
  function Crc(h: Header): byte {
    FoldByte(Encode(h));
    XorFold(Encode(h))
  }

  /** The header with its checksum byte recomputed the way `write_OSIP` does. */
  function Sealed(h: Header): (r: Header) {
    h.(checksum := Crc(h.(checksum := 0)))
  }

  lemma ChecksumByte(h: Header, c: byte)
    ensures Encode(h.(checksum := c)) == Encode(h)[7 := c]
  {
    var g := h.(checksum := c);
    assert EncodeFixed(g) == EncodeFixed(h)[7 := c];
    assert Encode(h)[7 := c] == EncodeFixed(h)[7 := c] + EncodeAll(h.desc);
  }

  lemma SealedBy(h: Header, crc: byte)
    requires crc == XorFold(Encode(h.(checksum := 0)))
    ensures h.(checksum := crc) == Sealed(h)
  {
  }

  /** A sealed header passes the check of `read_OSIP`. */
  lemma SealedPasses(h: Header)
    ensures Crc(Sealed(h)) == 0
  {
    var z := h.(checksum := 0);
    ChecksumByte(z, Crc(z));
    ChecksumByte(h, 0);
    FoldSeal(Encode(z), 7);
  }

  /** A header that passes the check is already sealed: writing it back changes nothing. */
  lemma PassingIsSealed(h: Header)
    requires Crc(h) == 0
    ensures Sealed(h) == h
  {
    ChecksumByte(h, 0);
    FoldSealUnique(Encode(h), 7);
    assert Encode(h)[7] == h.checksum;
  }

  /** The checksum of a header is the exclusive or of its bytes. */
  lemma CrcOfBytes(dat: seq<byte>)
    requires |dat| == HEADER_BYTES
    ensures XorFold(dat) < 0x100 && XorFold(dat) == Crc(Decode(dat))
  {
    FoldByte(dat);
    BytesRoundTrip(dat);
  }

  /** `get_osip_crc`: the loop over the bytes of the structure. */
  method GetOsipCrc(dat: seq<byte>) returns (crc: byte)
    requires |dat| == HEADER_BYTES
    ensures crc == XorFold(dat)
  {
    assert dat[..1] == [dat[0]] && dat[..2][..1] == dat[..1];
    FoldSingle(dat[0]);
    var acc: nat := Xor(dat[0], dat[1]);
    var i := 2;
    while i < HEADER_BYTES
      invariant 2 <= i <= HEADER_BYTES
      invariant acc == XorFold(dat[..i])
    {
      assert dat[..i + 1][..i] == dat[..i];
      acc := Xor(acc, dat[i]);
      i := i + 1;
    }
    assert dat[..HEADER_BYTES] == dat;
    FoldByte(dat);
    crc := acc;
  }
}
