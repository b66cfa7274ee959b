/**
 Reading firmware versions out of an image: a scan for headers that start with
 a magic word, in which every non-null version field overrides the one before.
 */
module FirmwareScan {
  import opened Bytes

  const FIP_PATTERN := 0x50494624

  /** A version number inside the header: one or two bytes at an offset. */
  datatype Field = Field(offset: nat, wide: bool)

  function Width(f: Field): nat { if f.wide then 2 else 1 }

  /** The layout of a header: its size and the fields that are looked at. */
  datatype Layout = Layout(size: nat, fields: seq<Field>)

  predicate WellFormed(l: Layout) {
    l.size >= 4 && forall j :: 0 <= j < |l.fields| ==> l.fields[j].offset + Width(l.fields[j]) <= l.size
  }

  function Narrow(offset: nat): Field { Field(offset, false) }

  function Wide(offset: nat): Field { Field(offset, true) }

  /** Major and minor numbers of ifwi, scu, oem, punit, ia32, supp_ia32 and the
      three chaabi parts, in this order. */
  const SHORT_LAYOUT := Layout(44,
    [Narrow(41), Narrow(40), Narrow(26), Narrow(25), Narrow(18), Narrow(17), Narrow(14), Narrow(13),
     Narrow(10), Narrow(9), Narrow(22), Narrow(21), Narrow(30), Narrow(29), Narrow(34), Narrow(33),
     Narrow(38), Narrow(37)])

  /** Minor and major numbers of scu, ia32, valhooks, ifwi, chaabi and mia. */
  const LONG_LAYOUT := Layout(352,
    [Wide(60), Wide(62), Wide(84), Wide(86), Wide(92), Wide(94), Wide(344), Wide(346), Wide(36), Wide(38),
     Wide(76), Wide(78)])

  // ---------------------------------------------------------------- the fold

  /** Number of 4-byte steps at which a whole header fits into the data. */
  function Positions(size: nat, length: nat): nat {
    if length < size then 0 else (length - size) / 4 + 1
  }

  /** The steps are the multiples of 4 at which a header fits. */
  lemma PositionsMeaning(size: nat, length: nat, i: nat)
    ensures i < Positions(size, length) <==> 4 * i + size <= length
  {
  }

  predicate HasMagic(data: seq<byte>, i: nat) {
    4 * i + 4 <= |data| && Get32(data, 4 * i) == FIP_PATTERN
  }

  /** A header starts at one of the first `n` steps. */
  ghost predicate SomeMagic(data: seq<byte>, n: nat) {
    exists i: nat :: i < n && HasMagic(data, i)
  }

  /** Value of a field in the header at step `i`. */
  function ValueAt(data: seq<byte>, f: Field, i: nat): nat
    requires 4 * i + f.offset + Width(f) <= |data|
  {
    if f.wide then Get16(data, 4 * i + f.offset) else data[4 * i + f.offset]
  }

  /** The last non-null value of the field among the headers at the first `n` steps. */
  function LastValue(data: seq<byte>, f: Field, n: nat): nat
    requires n > 0 ==> 4 * (n - 1) + f.offset + Width(f) <= |data|
  {
    if n == 0 then 0
    else if HasMagic(data, n - 1) && ValueAt(data, f, n - 1) != 0 then ValueAt(data, f, n - 1)
    else LastValue(data, f, n - 1)
  }

  /** A non-null result comes from some header, and every later header has a
      null there; a null result means that all headers do. */
  lemma {:induction false} LastValueMeaning(data: seq<byte>, f: Field, n: nat)
    requires n > 0 ==> 4 * (n - 1) + f.offset + Width(f) <= |data|
    ensures LastValue(data, f, n) == 0
            <==> forall i: nat :: i < n && HasMagic(data, i) ==> ValueAt(data, f, i) == 0
    ensures LastValue(data, f, n) != 0 ==>
              exists i: nat :: i < n && HasMagic(data, i) && ValueAt(data, f, i) == LastValue(data, f, n)
                               && forall k: nat :: i < k < n && HasMagic(data, k) ==> ValueAt(data, f, k) == 0
  {
    if n > 0 {
      LastValueMeaning(data, f, n - 1);
      if !(HasMagic(data, n - 1) && ValueAt(data, f, n - 1) != 0) && LastValue(data, f, n - 1) != 0 {
        var i: nat :| i < n - 1 && HasMagic(data, i) && ValueAt(data, f, i) == LastValue(data, f, n - 1)
                      && forall k: nat :: i < k < n - 1 && HasMagic(data, k) ==> ValueAt(data, f, k) == 0;
        assert forall k: nat :: i < k < n && HasMagic(data, k) ==> ValueAt(data, f, k) == 0;
      }
    }
  }

  // ---------------------------------------------------------------- the scan

  /** The versions after the header at step `i`: non-null fields take over. */
  function Override(data: seq<byte>, l: Layout, i: nat, v: seq<nat>): seq<nat>
    requires WellFormed(l) && 4 * i + l.size <= |data| && |v| == |l.fields|
  {
    seq(|v|, j requires 0 <= j < |v| =>
      if ValueAt(data, l.fields[j], i) != 0 then ValueAt(data, l.fields[j], i) else v[j])
  }

  ghost predicate Collected(data: seq<byte>, l: Layout, n: nat, v: seq<nat>)
    requires WellFormed(l) && (n > 0 ==> 4 * (n - 1) + l.size <= |data|)
  {
    |v| == |l.fields| && forall j :: 0 <= j < |v| ==> v[j] == LastValue(data, l.fields[j], n)
  }

  lemma {:induction false} CollectedSkip(data: seq<byte>, l: Layout, n: nat, m: nat, v: seq<nat>)
    requires WellFormed(l) && n <= m && (m > 0 ==> 4 * (m - 1) + l.size <= |data|)
    requires Collected(data, l, n, v) && forall i: nat :: n <= i < m ==> !HasMagic(data, i)
    ensures Collected(data, l, m, v)
  {
    if n < m {
      CollectedSkip(data, l, n, m - 1, v);
      assert !HasMagic(data, m - 1);
    }
  }

  lemma CollectedStep(data: seq<byte>, l: Layout, n: nat, v: seq<nat>)
    requires WellFormed(l) && 4 * n + l.size <= |data| && HasMagic(data, n) && Collected(data, l, n, v)
    ensures Collected(data, l, n + 1, Override(data, l, n, v))
  {
  }

  /** The inner loop: the next step with a magic word, or the end. */
  method SeekMagic(data: seq<byte>, size: nat, n: nat) returns (m: nat)
    requires size >= 4 && n <= Positions(size, |data|)
    ensures n <= m <= Positions(size, |data|)
    ensures forall i: nat :: n <= i < m ==> !HasMagic(data, i)
    ensures m < Positions(size, |data|) ==> HasMagic(data, m)
  {
    m := n;
    while 4 * m + size <= |data|
      invariant n <= m <= Positions(size, |data|)
      invariant forall i: nat :: n <= i < m ==> !HasMagic(data, i)
    {
      if Get32(data, 4 * m) == FIP_PATTERN {
        return;
      }
      m := m + 1;
    }
  }

  /** The nested loops of `get_image_fw_rev` and `get_image_fw_rev_long`: they
      collect, over all steps, the last non-null value of every field, and fail
      exactly when a header would fit but none is there. */
  method Scan(data: seq<byte>, l: Layout) returns (ok: bool, v: seq<nat>)
    requires WellFormed(l)
    ensures ok <==> Positions(l.size, |data|) == 0 || SomeMagic(data, Positions(l.size, |data|))
    ensures Collected(data, l, Positions(l.size, |data|), v)
  {
    ghost var last := Positions(l.size, |data|);
    v := seq(|l.fields|, _ => 0);
    var found := false;
    var n := 0;
    while 4 * n + l.size <= |data|
      invariant 0 <= n <= last && Collected(data, l, n, v)
      invariant found <==> SomeMagic(data, n)
      invariant n > 0 ==> found
      decreases last - n
    {
      var m := SeekMagic(data, l.size, n);
      CollectedSkip(data, l, n, m, v);
      n := m;
      if 4 * n + l.size <= |data| {
        found := true;
      }
      if !found {
        return false, v;
      }
      if 4 * n + l.size > |data| {
        break;
      }
      CollectedStep(data, l, n, v);
      v, n := Override(data, l, n, v), n + 1;
    }
    ok := true;
  }

  /** `get_image_fw_rev`. */
  method GetImageFwRev(data: seq<byte>) returns (ok: bool, v: seq<nat>)
    ensures ok <==> |data| < 44 || SomeMagic(data, Positions(44, |data|))
    ensures |v| == 18
    ensures forall j :: 0 <= j < 18 ==> v[j] == LastValue(data, SHORT_LAYOUT.fields[j], Positions(44, |data|))
  {
    ok, v := Scan(data, SHORT_LAYOUT);
  }

  /** `get_image_fw_rev_long`. */
  method GetImageFwRevLong(data: seq<byte>) returns (ok: bool, v: seq<nat>)
    ensures ok <==> |data| < 352 || SomeMagic(data, Positions(352, |data|))
    ensures |v| == 12
    ensures forall j :: 0 <= j < 12 ==> v[j] == LastValue(data, LONG_LAYOUT.fields[j], Positions(352, |data|))
  {
    ok, v := Scan(data, LONG_LAYOUT);
  }

  // ---------------------------------------------------------------- the layouts

  /** A version block of the short header: a reserved byte, minor, major, a checksum. */
  datatype Block = Block(reserved: byte, minor: byte, major: byte, checksum: byte)

  function BlockBytes(b: Block): (s: seq<byte>)
    ensures |s| == 4
  {
    [b.reserved, b.minor, b.major, b.checksum]
  }

  /** The short header field by field: magic, info, the blocks of ia32, punit, oem,
      supplementary ia32, scu and three chaabi parts, and the ifwi version. */
  function ShortHeader(info: u32, blocks: seq<Block>, ifwiMinor: byte, ifwiMajor: byte, rest: u16): (s: seq<byte>)
    requires |blocks| == 8
    ensures |s| == 44
  {
    Le32(FIP_PATTERN) + Le32(info) + BlockBytes(blocks[0]) + BlockBytes(blocks[1]) + BlockBytes(blocks[2])
    + BlockBytes(blocks[3]) + BlockBytes(blocks[4]) + BlockBytes(blocks[5]) + BlockBytes(blocks[6])
    + BlockBytes(blocks[7]) + [ifwiMinor, ifwiMajor] + Le16(rest)
  }

  /** The scan of a single short header gives its versions: ifwi, scu, oem, punit,
      ia32, supplementary ia32 and the chaabi parts, each major before minor. */
  lemma ShortHeaderRead(info: u32, blocks: seq<Block>, ifwiMinor: byte, ifwiMajor: byte, rest: u16, v: seq<nat>)
    requires |blocks| == 8
    requires var data := ShortHeader(info, blocks, ifwiMinor, ifwiMajor, rest); Collected(data, SHORT_LAYOUT, 1, v)
    ensures v == [ifwiMajor, ifwiMinor, blocks[4].major, blocks[4].minor, blocks[2].major, blocks[2].minor,
                  blocks[1].major, blocks[1].minor, blocks[0].major, blocks[0].minor, blocks[3].major,
                  blocks[3].minor, blocks[5].major, blocks[5].minor, blocks[6].major, blocks[6].minor,
                  blocks[7].major, blocks[7].minor]
  {
    var data := ShortHeader(info, blocks, ifwiMinor, ifwiMajor, rest);
    Get32Le32(FIP_PATTERN);
    assert HasMagic(data, 0);
    forall j | 0 <= j < 18 ensures v[j] == data[SHORT_LAYOUT.fields[j].offset] {
      SingleValue(data, SHORT_LAYOUT.fields[j]);
    }
    ShortOffsets(data, info, blocks, ifwiMinor, ifwiMajor, rest);
  }

  lemma SingleValue(data: seq<byte>, f: Field)
    requires f.offset + Width(f) <= |data| && HasMagic(data, 0)
    ensures LastValue(data, f, 1) == ValueAt(data, f, 0)
  {
    assert LastValue(data, f, 0) == 0;
  }

  lemma ShortOffsets(data: seq<byte>, info: u32, blocks: seq<Block>, ifwiMinor: byte, ifwiMajor: byte, rest: u16)
    requires |blocks| == 8 && data == ShortHeader(info, blocks, ifwiMinor, ifwiMajor, rest)
    ensures forall k :: 0 <= k < 8 ==> data[9 + 4 * k] == blocks[k].minor && data[10 + 4 * k] == blocks[k].major
    ensures data[40] == ifwiMinor && data[41] == ifwiMajor
  {
  }

  /** A version block of the long header: minor, major, a checksum and reserved bytes. */
  datatype LongBlock = LongBlock(minor: u16, major: u16, checksum: byte, reserved8: byte, reserved16: u16)

  function LongBlockBytes(b: LongBlock): (s: seq<byte>)
    ensures |s| == 8
  {
    Le16(b.minor) + Le16(b.major) + [b.checksum, b.reserved8] + Le16(b.reserved16)
  }

  function LongBlocksBytes(bs: seq<LongBlock>): (s: seq<byte>)
    ensures |s| == 8 * |bs|
  {
    if |bs| == 0 then [] else LongBlocksBytes(bs[..|bs| - 1]) + LongBlockBytes(bs[|bs| - 1])
  }

  /** The long header: the magic, 17 blocks (umip, spat, spct, rpch, ch00, mipd, mipn,
      scuc, hvm, mia, ia32, oem, ved, vec, mos, pos, cos), the 180 bytes of the
      chaabi parts 1 to 15, and 4 blocks (dnx, two reserved ones, ifwi). */
  function LongHeader(first: seq<LongBlock>, middle: seq<byte>, last: seq<LongBlock>): (s: seq<byte>)
    requires |first| == 17 && |middle| == 180 && |last| == 4
    ensures |s| == 352
  {
    Le32(FIP_PATTERN) + LongBlocksBytes(first) + middle + LongBlocksBytes(last)
  }

  lemma {:induction false} LongBlockAt(bs: seq<LongBlock>, k: nat)
    requires k < |bs|
    ensures LongBlocksBytes(bs)[8 * k..8 * k + 8] == LongBlockBytes(bs[k])
  {
    var n := |bs| - 1;
    var front := LongBlocksBytes(bs[..n]);
    if k < n {
      LongBlockAt(bs[..n], k);
      assert LongBlocksBytes(bs)[8 * k..8 * k + 8] == front[8 * k..8 * k + 8];
    }
  }

  lemma BlockRead(data: seq<byte>, at: nat, b: LongBlock)
    requires at + 8 <= |data| && data[at..at + 8] == LongBlockBytes(b)
    ensures Get16(data, at) == b.minor && Get16(data, at + 2) == b.major
  {
    var s := data[at..at + 8];
    assert data[at] == s[0] && data[at + 1] == s[1] && data[at + 2] == s[2] && data[at + 3] == s[3];
    Get16Le16(b.minor);
    Get16Le16(b.major);
  }

  lemma FirstBlockRead(first: seq<LongBlock>, middle: seq<byte>, last: seq<LongBlock>, data: seq<byte>, k: nat)
    requires |first| == 17 && |middle| == 180 && |last| == 4 && data == LongHeader(first, middle, last) && k < 17
    ensures Get16(data, 4 + 8 * k) == first[k].minor && Get16(data, 6 + 8 * k) == first[k].major
  {
    LongBlockAt(first, k);
    assert data[4 + 8 * k..4 + 8 * k + 8] == LongBlocksBytes(first)[8 * k..8 * k + 8];
    BlockRead(data, 4 + 8 * k, first[k]);
  }

  lemma LastBlockRead(first: seq<LongBlock>, middle: seq<byte>, last: seq<LongBlock>, data: seq<byte>)
    requires |first| == 17 && |middle| == 180 && |last| == 4 && data == LongHeader(first, middle, last)
    ensures Get16(data, 344) == last[3].minor && Get16(data, 346) == last[3].major
  {
    LongBlockAt(last, 3);
    assert data[344..352] == LongBlocksBytes(last)[24..32];
    BlockRead(data, 344, last[3]);
  }

  /** The scan of a single long header gives its versions: scu, ia32, oem, ifwi, the
      first chaabi part and mia, each minor before major. */
  lemma LongHeaderRead(first: seq<LongBlock>, middle: seq<byte>, last: seq<LongBlock>, data: seq<byte>, v: seq<nat>)
    requires |first| == 17 && |middle| == 180 && |last| == 4 && data == LongHeader(first, middle, last)
    requires Collected(data, LONG_LAYOUT, 1, v)
    ensures v == [first[7].minor, first[7].major, first[10].minor, first[10].major, first[11].minor,
                  first[11].major, last[3].minor, last[3].major, first[4].minor, first[4].major,
                  first[9].minor, first[9].major]
  {
    Get32Le32(FIP_PATTERN);
    assert data[..4] == Le32(FIP_PATTERN);
    assert HasMagic(data, 0);
    forall j | 0 <= j < 12 ensures v[j] == Get16(data, LONG_LAYOUT.fields[j].offset) {
      SingleValue(data, LONG_LAYOUT.fields[j]);
    }
    FirstBlockRead(first, middle, last, data, 4);
    FirstBlockRead(first, middle, last, data, 7);
    FirstBlockRead(first, middle, last, data, 9);
    FirstBlockRead(first, middle, last, data, 10);
    FirstBlockRead(first, middle, last, data, 11);
    LastBlockRead(first, middle, last, data);
  }
}
