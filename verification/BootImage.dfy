/**
 The boot-image packer and unpacker: a 13280-byte boot header in front of the
 kernel and the ramdisk, padded to whole sectors.
 */
module BootImage {
  import opened Bytes

  const CHECKED_BYTES := 56
  const XOR_OFFSET := 7
  const SECTORS_OFFSET := 48
  const KERNEL_SIZE_OFFSET := 2016
  const RAMDISK_SIZE_OFFSET := 2020
  const BOOT_HEADER_BYTES := 13280
  const SECTOR := 512
  const BUFSIZ := 8192
  const WORD := 0x1_0000_0000

  // ---------------------------------------------------------------- sizes

  /** Header, kernel and ramdisk together, in 32-bit arithmetic. */
  function RawSize(kernel: nat, ramdisk: nat): u32 {
    ((kernel % WORD + BOOT_HEADER_BYTES) % WORD + ramdisk % WORD) % WORD
  }

  /** The padding that is written. When the size is already a multiple of a
      sector, the variable holds whatever was in memory before. */
  function Padding(kernel: nat, ramdisk: nat, stale: nat): nat {
    var rest := RawSize(kernel, ramdisk) % SECTOR;
    if rest > 0 then SECTOR - rest else stale
  }

  /** The sector count put into the header: the image without its first sector. */
  function SectorCount(kernel: nat, ramdisk: nat): u32 {
    var raw := RawSize(kernel, ramdisk);
    var rest := raw % SECTOR;
    var total := (if rest > 0 then raw + (SECTOR - rest) else raw) % WORD;
    (total / SECTOR - 1) % WORD
  }

  // ---------------------------------------------------------------- packing

  /** The header with the sizes filled in, before the checksum. */
  function SizedHeader(origin: seq<byte>, kernel: nat, ramdisk: nat): (h: seq<byte>)
    requires |origin| >= BOOT_HEADER_BYTES
    ensures |h| == BOOT_HEADER_BYTES
  {
    var h := Splice(origin[..BOOT_HEADER_BYTES], KERNEL_SIZE_OFFSET, Le32(kernel % WORD));
    var h := Splice(h, RAMDISK_SIZE_OFFSET, Le32(ramdisk % WORD));
    Splice(h, SECTORS_OFFSET, Le32(SectorCount(kernel, ramdisk)))
  }

  function PackedHeader(origin: seq<byte>, kernel: nat, ramdisk: nat): (h: seq<byte>)
    requires |origin| >= BOOT_HEADER_BYTES
    ensures |h| == BOOT_HEADER_BYTES
  {
    var h := SizedHeader(origin, kernel, ramdisk);
    FoldByte(h[..CHECKED_BYTES][XOR_OFFSET := 0]);
    h[XOR_OFFSET := XorFold(h[..CHECKED_BYTES][XOR_OFFSET := 0])]
  }

  function Filler(n: nat): (s: seq<byte>)
    ensures |s| == n
  {
    seq(n, _ => 0xFF)
  }

  /** The packed file. */
  function Packed(origin: seq<byte>, kernel: seq<byte>, ramdisk: seq<byte>, stale: nat): seq<byte>
    requires |origin| >= BOOT_HEADER_BYTES
  {
    PackedHeader(origin, |kernel|, |ramdisk|) + kernel + ramdisk
    + Filler(Padding(|kernel|, |ramdisk|, stale))
  }

  /** `calculate_checksum`: starts from the stored checksum, so that it drops
      out of the exclusive or over all 56 bytes. */
  method CalculateChecksum(hdr: seq<byte>) returns (sum: byte)
    requires |hdr| >= CHECKED_BYTES
    ensures sum == XorFold(hdr[..CHECKED_BYTES][XOR_OFFSET := 0])
  {
    var x := hdr[XOR_OFFSET];
    var acc: nat := x;
    XorZero(x);
    for i := 0 to CHECKED_BYTES
      invariant acc == Xor(x, XorFold(hdr[..i]))
    {
      assert hdr[..i + 1][..i] == hdr[..i];
      XorAssoc(x, XorFold(hdr[..i]), hdr[i]);
      acc := Xor(acc, hdr[i]);
    }
    var c := hdr[..CHECKED_BYTES];
    FoldUpdate(c, XOR_OFFSET, 0);
    XorComm(x, XorFold(c));
    XorZero(Xor(XorFold(c), x));
    FoldByte(c[XOR_OFFSET := 0]);
    sum := acc;
  }

  /** A copy loop: pieces of at most a buffer until the input is exhausted. */
  method CopyAll(out: seq<byte>, input: seq<byte>) returns (r: seq<byte>)
    ensures r == out + input
  {
    r := out;
    var done := 0;
    while done < |input|
      invariant 0 <= done <= |input|
      invariant r == out + input[..done]
    {
      var size: nat :| 1 <= size <= BUFSIZ && done + size <= |input|;
      r := r + input[done..done + size];
      assert input[..done + size] == input[..done] + input[done..done + size];
      done := done + size;
    }
  }

  /** The packer. `stale` is what the padding variable holds when it is not set. */
  method Pack(origin: seq<byte>, kernel: seq<byte>, ramdisk: seq<byte>, stale: nat)
    returns (ok: bool, output: seq<byte>)
    ensures ok <==> |origin| >= BOOT_HEADER_BYTES
    ensures ok ==> output == Packed(origin, kernel, ramdisk, stale)
  {
    if |origin| < BOOT_HEADER_BYTES {
      return false, [];
    }
    var file := new byte[BOOT_HEADER_BYTES](i requires 0 <= i < BOOT_HEADER_BYTES => origin[i]);
    assert file[..] == origin[..BOOT_HEADER_BYTES];
    var paddings := FillHeader(file, |kernel|, |ramdisk|, stale, origin);
    output := file[..];
    output := CopyAll(output, kernel);
    output := CopyAll(output, ramdisk);
    if paddings != 0 {
      output := output + Filler(paddings);
    }
    ok := true;
  }

  /** The header fields, in the order in which they are computed. */
  method FillHeader(file: array<byte>, kernelSize: nat, ramdiskSize: nat, stale: nat, ghost origin: seq<byte>)
    returns (paddings: nat)
    requires file.Length == BOOT_HEADER_BYTES && |origin| >= BOOT_HEADER_BYTES
    requires file[..] == origin[..BOOT_HEADER_BYTES]
    modifies file
    ensures file[..] == PackedHeader(origin, kernelSize, ramdiskSize)
    ensures paddings == Padding(kernelSize, ramdiskSize, stale)
  {
    PutLe32(file, KERNEL_SIZE_OFFSET, kernelSize % WORD);
    var sectors;
    sectors, paddings := CountSectors(kernelSize, ramdiskSize, stale);
    PutLe32(file, RAMDISK_SIZE_OFFSET, ramdiskSize % WORD);
    PutLe32(file, SECTORS_OFFSET, sectors);
    var sum := CalculateChecksum(file[..]);
    file[XOR_OFFSET] := sum;
  }

  /** The running 32-bit total. */
  method CountSectors(kernelSize: nat, ramdiskSize: nat, stale: nat) returns (sectors: u32, paddings: nat)
    ensures sectors == SectorCount(kernelSize, ramdiskSize)
    ensures paddings == Padding(kernelSize, ramdiskSize, stale)
  {
    var total := kernelSize % WORD;
    total := (total + BOOT_HEADER_BYTES) % WORD;
    total := (total + ramdiskSize % WORD) % WORD;
    paddings := stale;
    if total % SECTOR > 0 {
      paddings := SECTOR - total % SECTOR;
      total := (total + paddings) % WORD;
    }
    sectors := (total / SECTOR - 1) % WORD;
  }

  // ---------------------------------------------------------------- what packing guarantees

  /** Sizes whose sum, padded, fits 32 bits. */
  predicate Fits(kernel: nat, ramdisk: nat) {
    kernel + BOOT_HEADER_BYTES + ramdisk + SECTOR <= WORD
  }

  /** The file is a whole number of sectors, one more than its header says,
      exactly when the padding variable is set or happens to be 0. */
  lemma PackedLength(origin: seq<byte>, kernel: seq<byte>, ramdisk: seq<byte>, stale: nat)
    requires |origin| >= BOOT_HEADER_BYTES && Fits(|kernel|, |ramdisk|)
    ensures |Packed(origin, kernel, ramdisk, stale)| == (SectorCount(|kernel|, |ramdisk|) + 1) * SECTOR
            <==> (|kernel| + BOOT_HEADER_BYTES + |ramdisk|) % SECTOR != 0 || stale == 0
  {
    SectorSum(|kernel|, |ramdisk|, stale);
  }

  lemma RawSizeIsSum(kernel: nat, ramdisk: nat)
    requires Fits(kernel, ramdisk)
    ensures RawSize(kernel, ramdisk) == kernel + BOOT_HEADER_BYTES + ramdisk
  {
  }

  lemma SectorSum(kernel: nat, ramdisk: nat, stale: nat)
    requires Fits(kernel, ramdisk)
    ensures var raw := kernel + BOOT_HEADER_BYTES + ramdisk;
            raw + Padding(kernel, ramdisk, stale) == (SectorCount(kernel, ramdisk) + 1) * SECTOR
            <==> raw % SECTOR != 0 || stale == 0
  {
    RawSizeIsSum(kernel, ramdisk);
    SectorCountExact(kernel, ramdisk);
  }

  lemma SectorCountExact(kernel: nat, ramdisk: nat)
    requires Fits(kernel, ramdisk)
    ensures var raw := kernel + BOOT_HEADER_BYTES + ramdisk;
            SectorCount(kernel, ramdisk) == if raw % SECTOR > 0 then raw / SECTOR else raw / SECTOR - 1
  {
    RawSizeIsSum(kernel, ramdisk);
    var raw := kernel + BOOT_HEADER_BYTES + ramdisk;
    var q, m := raw / SECTOR, raw % SECTOR;
    var total := if m > 0 then raw + (SECTOR - m) else raw;
    var n := if m > 0 then q + 1 else q;
    assert total == n * SECTOR && 1 <= n <= total < WORD;
    WholeSectors(total, n);
    assert SectorCount(kernel, ramdisk) == (total % WORD / SECTOR - 1) % WORD;
  }

  lemma WholeSectors(total: nat, n: nat)
    requires total == n * SECTOR && 1 <= n && total < WORD
    ensures (total % WORD / SECTOR - 1) % WORD == n - 1
  {
  }

  /** An aligned image with a leftover in the padding variable is too long. */
  lemma UnsetPaddingSpoilsLength(origin: seq<byte>)
    requires |origin| >= BOOT_HEADER_BYTES
    ensures var kernel := seq(32, _ => 0);
            |Packed(origin, kernel, [], 1)| != (SectorCount(32, 0) + 1) * SECTOR
  {
    PackedLength(origin, seq(32, _ => 0), [], 1);
  }

  /** The checked part of the header exclusive-ors to 0. */
  lemma PackedChecksum(origin: seq<byte>, kernel: seq<byte>, ramdisk: seq<byte>, stale: nat)
    requires |origin| >= BOOT_HEADER_BYTES
    ensures XorFold(Packed(origin, kernel, ramdisk, stale)[..CHECKED_BYTES]) == 0
  {
    var h := SizedHeader(origin, |kernel|, |ramdisk|);
    var c := h[..CHECKED_BYTES][XOR_OFFSET := 0];
    FoldSeal(c, XOR_OFFSET);
    assert Packed(origin, kernel, ramdisk, stale)[..CHECKED_BYTES] == c[XOR_OFFSET := XorFold(c)];
  }

  /** Only the checksum, the sector count and the two sizes differ from the origin. */
  lemma PackedKeepsOrigin(origin: seq<byte>, kernel: seq<byte>, ramdisk: seq<byte>, stale: nat, i: nat)
    requires |origin| >= BOOT_HEADER_BYTES && i < BOOT_HEADER_BYTES
    requires i != XOR_OFFSET && !(SECTORS_OFFSET <= i < SECTORS_OFFSET + 4)
    requires !(KERNEL_SIZE_OFFSET <= i < RAMDISK_SIZE_OFFSET + 4)
    ensures Packed(origin, kernel, ramdisk, stale)[i] == origin[i]
  {
  }

  /** Behind the 13280 bytes of header come the kernel and the ramdisk, and
      nothing but 0xFF behind them. */
  lemma PackedParts(origin: seq<byte>, kernel: seq<byte>, ramdisk: seq<byte>, stale: nat)
    requires |origin| >= BOOT_HEADER_BYTES
    ensures var p, n := Packed(origin, kernel, ramdisk, stale), 13280 + |kernel|;
            && |p| >= n + |ramdisk| && p[13280..n] == kernel && p[n..n + |ramdisk|] == ramdisk
            && forall i :: n + |ramdisk| <= i < |p| ==> p[i] == 0xFF
  {
    var h := PackedHeader(origin, |kernel|, |ramdisk|);
    ConcatParts(h, kernel, ramdisk, Filler(Padding(|kernel|, |ramdisk|, stale)));
  }

  lemma ConcatParts(h: seq<byte>, k: seq<byte>, r: seq<byte>, pad: seq<byte>)
    requires |h| == BOOT_HEADER_BYTES && forall i :: 0 <= i < |pad| ==> pad[i] == 0xFF
    ensures var p, n := h + k + r + pad, 13280 + |k|;
            && p[13280..n] == k && p[n..n + |r|] == r && forall i :: n + |r| <= i < |p| ==> p[i] == 0xFF
  {
  }

  lemma HeaderFields(origin: seq<byte>, kernel: nat, ramdisk: nat)
    requires |origin| >= BOOT_HEADER_BYTES
    ensures var h := PackedHeader(origin, kernel, ramdisk);
            && Get32(h, SECTORS_OFFSET) == SectorCount(kernel, ramdisk)
            && Get32(h, KERNEL_SIZE_OFFSET) == kernel % WORD
            && Get32(h, RAMDISK_SIZE_OFFSET) == ramdisk % WORD
  {
    var h := PackedHeader(origin, kernel, ramdisk);
    FieldAt(h, SECTORS_OFFSET, SectorCount(kernel, ramdisk));
    FieldAt(h, KERNEL_SIZE_OFFSET, kernel % WORD);
    FieldAt(h, RAMDISK_SIZE_OFFSET, ramdisk % WORD);
  }

  lemma FieldAt(p: seq<byte>, at: nat, v: u32)
    requires at + 4 <= |p|
    requires forall i :: 0 <= i < 4 ==> p[at + i] == Le32(v)[i]
    ensures Get32(p, at) == v
  {
    Get32Le32(v);
    assert p[at + 0] == Le32(v)[0] && p[at + 1] == Le32(v)[1] && p[at + 2] == Le32(v)[2] && p[at + 3] == Le32(v)[3];
  }

  // ---------------------------------------------------------------- unpacking

  /** The lengths in the header stay inside the file. Otherwise the unpacker
      asks for more data for ever. */
  predicate Unpackable(image: seq<byte>) {
    && |image| >= RAMDISK_SIZE_OFFSET + 4
    && BOOT_HEADER_BYTES + Get32(image, KERNEL_SIZE_OFFSET) + Get32(image, RAMDISK_SIZE_OFFSET) <= |image|
  }

  function UnpackedKernel(image: seq<byte>): seq<byte>
    requires Unpackable(image)
  {
    image[BOOT_HEADER_BYTES..BOOT_HEADER_BYTES + Get32(image, KERNEL_SIZE_OFFSET)]
  }

  function UnpackedRamdisk(image: seq<byte>): seq<byte>
    requires Unpackable(image)
  {
    var at := BOOT_HEADER_BYTES + Get32(image, KERNEL_SIZE_OFFSET);
    image[at..at + Get32(image, RAMDISK_SIZE_OFFSET)]
  }

  /** The loops of the unpacker: read up to a buffer, count down what is missing. */
  method Extract(image: seq<byte>, at: nat, length: nat) returns (r: seq<byte>)
    requires at + length <= |image|
    ensures r == image[at..at + length]
  {
    r := [];
    var missing, pos := length, at;
    while missing > 0
      invariant 0 <= missing && pos + missing == at + length && at <= pos
      invariant r == image[at..pos]
    {
      var want := if missing > BUFSIZ then BUFSIZ else missing;
      var size: nat :| 1 <= size <= want;
      r := r + image[pos..pos + size];
      pos, missing := pos + size, missing - size;
    }
  }

  method Unpack(image: seq<byte>) returns (ok: bool, kernel: seq<byte>, ramdisk: seq<byte>)
    requires |image| >= RAMDISK_SIZE_OFFSET + 4 ==> Unpackable(image)
    ensures ok <==> |image| >= RAMDISK_SIZE_OFFSET + 4
    ensures ok ==> kernel == UnpackedKernel(image) && ramdisk == UnpackedRamdisk(image)
  {
    if |image| < RAMDISK_SIZE_OFFSET + 4 {
      return false, [], [];
    }
    var kernelLen := Get32(image, KERNEL_SIZE_OFFSET);
    var ramdiskLen := Get32(image, RAMDISK_SIZE_OFFSET);
    kernel := Extract(image, BOOT_HEADER_BYTES, kernelLen);
    ramdisk := Extract(image, BOOT_HEADER_BYTES + kernelLen, ramdiskLen);
    ok := true;
  }

  /** Unpacking inverts packing, whatever the padding. */
  lemma UnpackInvertsPack(origin: seq<byte>, kernel: seq<byte>, ramdisk: seq<byte>, stale: nat)
    requires |origin| >= BOOT_HEADER_BYTES && |kernel| < WORD && |ramdisk| < WORD
    ensures var p := Packed(origin, kernel, ramdisk, stale);
            Unpackable(p) && UnpackedKernel(p) == kernel && UnpackedRamdisk(p) == ramdisk
  {
    var h := PackedHeader(origin, |kernel|, |ramdisk|);
    var pad := Filler(Padding(|kernel|, |ramdisk|, stale));
    HeaderFields(origin, |kernel|, |ramdisk|);
    UnpackParts(h, kernel, ramdisk, pad);
    assert Packed(origin, kernel, ramdisk, stale) == h + kernel + ramdisk + pad;
  }

  lemma UnpackParts(h: seq<byte>, k: seq<byte>, r: seq<byte>, pad: seq<byte>)
    requires |h| == BOOT_HEADER_BYTES && |k| < WORD && |r| < WORD
    requires Get32(h, KERNEL_SIZE_OFFSET) == |k| % WORD && Get32(h, RAMDISK_SIZE_OFFSET) == |r| % WORD
    ensures var p := h + k + r + pad;
            Unpackable(p) && UnpackedKernel(p) == k && UnpackedRamdisk(p) == r
  {
    var p := h + k + r + pad;
    assert |k| % WORD == |k| && |r| % WORD == |r|;
    SameField(h, p, KERNEL_SIZE_OFFSET);
    SameField(h, p, RAMDISK_SIZE_OFFSET);
    SlicesOf(h, k, r, pad);
  }

  lemma SameField(h: seq<byte>, p: seq<byte>, at: nat)
    requires at + 4 <= |h| <= |p| && forall i :: 0 <= i < |h| ==> p[i] == h[i]
    ensures Get32(p, at) == Get32(h, at)
  {
  }

  lemma SlicesOf(h: seq<byte>, k: seq<byte>, r: seq<byte>, pad: seq<byte>)
    ensures var p, n := h + k + r + pad, |h| + |k|;
            p[|h|..n] == k && p[n..n + |r|] == r
  {
  }
}
