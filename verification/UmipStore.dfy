/**
 The two boot partitions and the operations that write them. A firmware update
 keeps the token area; every write renews the checksums.
 */
module UmipStore {
  import opened Options
  import opened Bytes
  import opened Umip

  predicate InToken(i: int) { TOKEN_OFFSET <= i < TOKEN_OFFSET + TOKEN_SIZE }

  /** Byte `i` of the image before the checksums are renewed: new data inside
      the written range, except that a firmware update (at offset 0) puts the
      old token area back. */
  function NewByte(p: seq<byte>, at: nat, bytes: seq<byte>, i: nat): byte
    requires i < |p|
  {
    if at <= i < at + |bytes| && !(at == 0 && InToken(i)) then bytes[i - at] else p[i]
  }

  /** One partition written: the data are as above and all checksums hold. By
      `ValidDetermined` this leaves exactly one possible result. */
  ghost predicate Written(p: seq<byte>, at: nat, bytes: seq<byte>, q: seq<byte>) {
    && |p| == IFWI_SIZE && Valid(q)
    && forall i :: 0 <= i < IFWI_SIZE && !ChecksumField(i) ==> q[i] == NewByte(p, at, bytes, i)
  }

  lemma WrittenIsUnique(p: seq<byte>, at: nat, bytes: seq<byte>, q: seq<byte>, q': seq<byte>)
    requires Written(p, at, bytes, q) && Written(p, at, bytes, q')
    ensures q == q'
  {
    ValidDetermined(q, q');
  }

  /** Writing the same data twice changes nothing more. */
  lemma RewriteChangesNothing(p: seq<byte>, at: nat, bytes: seq<byte>, q: seq<byte>, r: seq<byte>)
    requires Written(p, at, bytes, q) && Written(q, at, bytes, r)
    ensures r == q
  {
    ValidDetermined(r, q);
  }

  /** What a written partition holds: the new bytes, the old token area after a
      firmware update, and the old bytes elsewhere, apart from checksums. */
  lemma WrittenData(p: seq<byte>, at: nat, bytes: seq<byte>, q: seq<byte>)
    requires Written(p, at, bytes, q) && at + |bytes| <= IFWI_SIZE
    ensures forall i :: 0 <= i < |bytes| && !ChecksumField(at + i) && !(at == 0 && InToken(i)) ==>
              q[at + i] == bytes[i]
    ensures at == 0 ==> forall i :: 0x4000 <= i < 0x6C00 ==> q[i] == p[i]
    ensures forall i :: 0 <= i < IFWI_SIZE && !ChecksumField(i) && !(at <= i < at + |bytes|) ==> q[i] == p[i]
  {
  }

  lemma WrittenRange(p: seq<byte>, at: nat, bytes: seq<byte>, q: seq<byte>)
    requires Written(p, at, bytes, q) && SECTOR_SIZE <= at && at + |bytes| <= IFWI_XOR_OFFSET
    ensures q[at..at + |bytes|] == bytes
  {
    WrittenData(p, at, bytes, q);
    forall i | 0 <= i < |bytes| ensures q[at + i] == bytes[i] {
      assert !ChecksumField(at + i);
    }
  }

  // ---------------------------------------------------------------- the writer

  class BootPartitions {
    const boot0: array<byte>
    const boot1: array<byte>

    ghost predicate Shape() {
      boot0.Length == IFWI_SIZE && boot1.Length == IFWI_SIZE && boot0 != boot1
    }

    constructor (a: array<byte>, b: array<byte>)
      requires a.Length == IFWI_SIZE && b.Length == IFWI_SIZE && a != b
      ensures Shape() && boot0 == a && boot1 == b
    {
      boot0, boot1 := a, b;
    }

    /** One round of the partition loop of `write_umip_emmc`, on an opened and
        mapped partition. `data` is absent for an erasure. */
    method WritePartition(p: array<byte>, at: nat, data: Option<seq<byte>>, size: nat) returns (ok: bool)
      requires p.Length == IFWI_SIZE
      requires data.Some? ==> |data.value| >= size
      modifies p
      ensures ok <==> at + size <= IFWI_SIZE
      ensures ok ==> Written(old(p[..]), at, Source(data, size), p[..])
      ensures ok ==> forall i :: 0 <= i < size && !ChecksumField(at + i) && !(at == 0 && InToken(i)) ==>
                p[at + i] == if data.Some? then data.value[i] else 0
      ensures ok && at == 0 ==> forall i :: 0x4000 <= i < 0x6C00 ==> p[i] == old(p[i])
      ensures ok ==> forall i :: 0 <= i < IFWI_SIZE && !ChecksumField(i) && !(at <= i < at + size) ==>
                p[i] == old(p[i])
      ensures !ok ==> p[..] == old(p[..])
    {
      ghost var before := p[..];
      var token := p[TOKEN_OFFSET..TOKEN_OFFSET + TOKEN_SIZE];
      if at + size > IFWI_SIZE {
        return false;
      }
      var bytes := Source(data, size);
      forall i | 0 <= i < size {
        p[at + i] := bytes[i];
      }
      if at == 0 {
        forall i | 0 <= i < TOKEN_SIZE {
          p[TOKEN_OFFSET + i] := token[i];
        }
      }
      assert forall i :: 0 <= i < IFWI_SIZE ==> p[i] == NewByte(before, at, bytes, i);
      XorUpdate(p);
      WrittenData(before, at, bytes, p[..]);
      ok := true;
    }

    /** `write_umip_emmc`: the partitions one after the other. A failure to open
        or map one (`mapped` is then false) leaves it and the following one alone. */
    method WriteUmip(at: nat, data: Option<seq<byte>>, size: nat) returns (ok: bool, ghost mapped: bool)
      requires Shape()
      requires data.Some? ==> |data.value| >= Clipped(at, size)
      modifies boot0, boot1
      ensures ok ==> var bytes := Source(data, Clipped(at, size));
                     Written(old(boot0[..]), at, bytes, boot0[..]) && Written(old(boot1[..]), at, bytes, boot1[..])
      ensures ok ==> at + Clipped(at, size) <= IFWI_SIZE
      ensures ok ==> forall i :: 0 <= i < Clipped(at, size) && !ChecksumField(at + i) && !(at == 0 && InToken(i)) ==>
                boot0[at + i] == boot1[at + i] == if data.Some? then data.value[i] else 0
      ensures !ok ==> boot1[..] == old(boot1[..])
      ensures !ok ==> var bytes := Source(data, Clipped(at, size));
                      boot0[..] == old(boot0[..]) || Written(old(boot0[..]), at, bytes, boot0[..])
      ensures mapped ==> (ok <==> at + Clipped(at, size) <= IFWI_SIZE)
      ensures at + Clipped(at, size) > IFWI_SIZE ==> !ok && boot0[..] == old(boot0[..])
    {
      var count := Clipped(at, size);
      var usable: bool := *;
      mapped := usable;
      if !usable {
        return false, mapped;
      }
      ok := WritePartition(boot0, at, data, count);
      if !ok {
        return;
      }
      usable := *;
      mapped := usable;
      if !usable {
        return false, mapped;
      }
      ok := WritePartition(boot1, at, data, count);
    }

    /** `readbyte_umip_emmc`: a signed byte of the first partition, or -1;
        `usable` tells whether the partition can be opened and mapped. */
    method ReadByte(at: nat, usable: bool) returns (value: int)
      requires Shape()
      ensures value == if usable && at < UMIP_SIZE then Signed(boot0[at]) else -1
    {
      if !usable || at >= UMIP_SIZE {
        return -1;
      }
      value := Signed(boot0[at]);
    }

    /** `read_dnx_timeout_scu_emmc`. */
    method ReadDnxTimeout(usable: bool) returns (value: int)
      requires Shape()
      ensures usable ==> value == Timeout(boot0[..])
      ensures !usable ==> value == -1
    {
      value := ReadByte(DNX_TIMEOUT_OFFSET, usable);
    }

    method UpdateIfwi(data: seq<byte>) returns (ok: bool, ghost mapped: bool)
      requires Shape()
      modifies boot0, boot1
      ensures PartitionsStep(old(boot0[..]), old(boot1[..]), UpdateIfwiOp(data), ok, boot0[..], boot1[..])
      ensures ok ==> forall i :: 0 <= i < |data| && i < 0x40_0000 && !(0x4000 <= i < 0x6C00) && !ChecksumField(i) ==>
                boot0[i] == data[i] && boot1[i] == data[i]
      ensures ok ==> boot0[0x4000..0x6C00] == old(boot0[0x4000..0x6C00])
                     && boot1[0x4000..0x6C00] == old(boot1[0x4000..0x6C00])
      ensures mapped ==> ok
    {
      ghost var p0, p1 := boot0[..], boot1[..];
      ok, mapped := WriteUmip(0, Some(data), |data|);
      assert Source(Some(data), Clipped(0, |data|)) == OpBytes(UpdateIfwiOp(data));
      if ok {
        UpdatedFirmware(p0, data, boot0[..]);
        UpdatedFirmware(p1, data, boot1[..]);
      }
    }

    method FlashToken(data: seq<byte>) returns (ok: bool, ghost mapped: bool)
      requires Shape() && |data| >= TOKEN_SIZE
      modifies boot0, boot1
      ensures PartitionsStep(old(boot0[..]), old(boot1[..]), FlashTokenOp(data), ok, boot0[..], boot1[..])
      ensures ok ==> boot0[0x4000..0x6C00] == data[..0x2C00] && boot1[0x4000..0x6C00] == data[..0x2C00]
      ensures mapped ==> ok
    {
      ghost var p0, p1 := boot0[..], boot1[..];
      ok, mapped := WriteUmip(TOKEN_OFFSET, Some(data), TOKEN_SIZE);
      if ok {
        WrittenRange(p0, TOKEN_OFFSET, data[..TOKEN_SIZE], boot0[..]);
        WrittenRange(p1, TOKEN_OFFSET, data[..TOKEN_SIZE], boot1[..]);
      }
    }

    method EraseToken() returns (ok: bool, ghost mapped: bool)
      requires Shape()
      modifies boot0, boot1
      ensures PartitionsStep(old(boot0[..]), old(boot1[..]), EraseTokenOp, ok, boot0[..], boot1[..])
      ensures ok ==> forall i :: 0x4000 <= i < 0x6C00 ==> boot0[i] == 0 && boot1[i] == 0
      ensures mapped ==> ok
    {
      ghost var p0, p1 := boot0[..], boot1[..];
      ok, mapped := WriteUmip(TOKEN_OFFSET, None, TOKEN_SIZE);
      if ok {
        WrittenZeros(p0, boot0[..]);
        WrittenZeros(p1, boot1[..]);
      }
    }

    method FlashCustomBoot(data: seq<byte>) returns (ok: bool, ghost mapped: bool)
      requires Shape() && |data| >= 1
      modifies boot0, boot1
      ensures PartitionsStep(old(boot0[..]), old(boot1[..]), FlashCustomBootOp(data), ok, boot0[..], boot1[..])
      ensures ok ==> boot0[0x76F] == data[0] && boot1[0x76F] == data[0]
      ensures mapped ==> ok
    {
      ok, mapped := WriteUmip(CUSTOM_BOOT_OFFSET, Some(data), 1);
    }

    method FlashDnxTimeout(data: seq<byte>) returns (ok: bool, ghost mapped: bool)
      requires Shape() && |data| >= 1
      modifies boot0, boot1
      ensures PartitionsStep(old(boot0[..]), old(boot1[..]), FlashDnxTimeoutOp(data), ok, boot0[..], boot1[..])
      ensures ok ==> Timeout(boot0[..]) == Timeout(boot1[..]) == Signed(data[0])
      ensures mapped ==> ok
    {
      ok, mapped := WriteUmip(DNX_TIMEOUT_OFFSET, Some(data), 1);
    }
  }

  /** The bytes that are copied: the given data, or zeros for an erasure. */
  function Source(data: Option<seq<byte>>, size: nat): (s: seq<byte>)
    requires data.Some? ==> |data.value| >= size
    ensures |s| == size
  {
    if data.Some? then data.value[..size] else seq(size, _ => 0)
  }

  lemma UpdatedFirmware(p: seq<byte>, data: seq<byte>, q: seq<byte>)
    requires Written(p, 0, OpBytes(UpdateIfwiOp(data)), q)
    ensures forall i :: 0 <= i < |data| && i < 0x40_0000 && !(0x4000 <= i < 0x6C00) && !ChecksumField(i) ==>
              q[i] == data[i]
    ensures q[0x4000..0x6C00] == p[0x4000..0x6C00]
  {
    WrittenData(p, 0, OpBytes(UpdateIfwiOp(data)), q);
  }

  lemma WrittenZeros(p: seq<byte>, q: seq<byte>)
    requires Written(p, TOKEN_OFFSET, Source(None, TOKEN_SIZE), q)
    ensures forall i :: 0x4000 <= i < 0x6C00 ==> q[i] == 0
  {
  }

  /** A firmware update drops what exceeds the partition. */
  function Clipped(at: nat, size: nat): nat {
    if at == 0 && size > IFWI_SIZE then IFWI_SIZE else size
  }

  /** A `char` converted to `int`. */
  function Signed(b: byte): int {
    if b < 0x80 then b else b - 0x100
  }

  /** The value read is the signed 8-bit number with the same bits; the error value
      of the reader is also the value of one stored byte. */
  lemma ReadErrorIsAmbiguous(b: byte)
    ensures -0x80 <= Signed(b) < 0x80 && Signed(b) % 0x100 == b
    ensures Signed(b) == -1 <==> b == 0xFF
  {
  }

  // ---------------------------------------------------------------- operations and runs

  datatype Op =
    | UpdateIfwiOp(data: seq<byte>)
    | FlashTokenOp(data: seq<byte>)
    | EraseTokenOp
    | FlashCustomBootOp(data: seq<byte>)
    | FlashDnxTimeoutOp(data: seq<byte>)
  {
    predicate Ok() {
      match this
      case FlashTokenOp(data) => |data| >= TOKEN_SIZE
      case FlashCustomBootOp(data) => |data| >= 1
      case FlashDnxTimeoutOp(data) => |data| >= 1
      case _ => true
    }
  }

  function OpOffset(op: Op): nat {
    match op
    case UpdateIfwiOp(_) => 0
    case FlashTokenOp(_) => TOKEN_OFFSET
    case EraseTokenOp => TOKEN_OFFSET
    case FlashCustomBootOp(_) => CUSTOM_BOOT_OFFSET
    case FlashDnxTimeoutOp(_) => DNX_TIMEOUT_OFFSET
  }

  function OpBytes(op: Op): seq<byte>
    requires op.Ok()
  {
    match op
    case UpdateIfwiOp(data) => if |data| > IFWI_SIZE then data[..IFWI_SIZE] else data
    case FlashTokenOp(data) => data[..TOKEN_SIZE]
    case EraseTokenOp => seq(TOKEN_SIZE, _ => 0)
    case FlashCustomBootOp(data) => data[..1]
    case FlashDnxTimeoutOp(data) => data[..1]
  }

  predicate TokenOp(op: Op) { op.FlashTokenOp? || op.EraseTokenOp? }

  /** What one operation may do to one partition: nothing, or the whole write. */
  ghost predicate PartitionStep(p: seq<byte>, op: Op, q: seq<byte>) {
    q == p || (op.Ok() && Written(p, OpOffset(op), OpBytes(op), q))
  }

  ghost predicate PartitionsStep(p0: seq<byte>, p1: seq<byte>, op: Op, ok: bool, q0: seq<byte>, q1: seq<byte>) {
    && PartitionStep(p0, op, q0) && PartitionStep(p1, op, q1)
    && (ok ==> op.Ok() && Written(p0, OpOffset(op), OpBytes(op), q0) && Written(p1, OpOffset(op), OpBytes(op), q1))
  }

  ghost predicate IsRun(ps: seq<seq<byte>>, ops: seq<Op>) {
    |ps| == |ops| + 1 && |ps[0]| == IFWI_SIZE
    && forall i :: 0 <= i < |ops| ==> PartitionStep(ps[i], ops[i], ps[i + 1])
  }

  /** Through any run of operations, failed ones included, a partition with
      valid checksums keeps them. */
  lemma {:induction false} RunKeepsChecksums(ps: seq<seq<byte>>, ops: seq<Op>)
    requires IsRun(ps, ops) && Valid(ps[0])
    ensures Valid(ps[|ops|])
  {
    if |ops| > 0 {
      var n := |ops| - 1;
      RunKeepsChecksums(ps[..|ops|], ops[..n]);
      assert PartitionStep(ps[n], ops[n], ps[n + 1]);
    }
  }

  /** Operation `op` writes byte `i`, apart from checksums. */
  predicate Touches(op: Op, i: int)
    requires op.Ok()
  {
    OpOffset(op) <= i < OpOffset(op) + |OpBytes(op)| && !(op.UpdateIfwiOp? && InToken(i))
  }

  lemma StepFrame(p: seq<byte>, op: Op, q: seq<byte>, i: nat)
    requires |p| == IFWI_SIZE && PartitionStep(p, op, q)
    requires i < IFWI_SIZE && !ChecksumField(i) && (op.Ok() ==> !Touches(op, i))
    ensures |q| == IFWI_SIZE && q[i] == p[i]
  {
  }

  /** Outside the checksum fields a byte changes only through an operation that
      writes it. */
  lemma {:induction false} RunFrame(ps: seq<seq<byte>>, ops: seq<Op>, i: nat)
    requires IsRun(ps, ops) && i < IFWI_SIZE && !ChecksumField(i)
    requires forall k :: 0 <= k < |ops| && ops[k].Ok() ==> !Touches(ops[k], i)
    ensures |ps[|ops|]| == IFWI_SIZE && ps[|ops|][i] == ps[0][i]
  {
    if |ops| > 0 {
      var n := |ops| - 1;
      RunFrame(ps[..|ops|], ops[..n], i);
      StepFrame(ps[n], ops[n], ps[n + 1], i);
    }
  }

  /** The timeout a partition holds. */
  function Timeout(p: seq<byte>): int
    requires |p| == IFWI_SIZE
  {
    Signed(p[DNX_TIMEOUT_OFFSET])
  }

  /** The timeout last flashed with success is the one that is read, through any
      token and custom-boot operations in between; no checksum lies over it. */
  lemma TimeoutReadsBack(ps: seq<seq<byte>>, ops: seq<Op>, data: seq<byte>, p: seq<byte>)
    requires IsRun(ps, ops) && |data| >= 1
    requires Written(p, DNX_TIMEOUT_OFFSET, OpBytes(FlashDnxTimeoutOp(data)), ps[0])
    requires forall k :: 0 <= k < |ops| ==> !ops[k].UpdateIfwiOp? && !ops[k].FlashDnxTimeoutOp?
    ensures |ps[|ops|]| == IFWI_SIZE && Timeout(ps[|ops|]) == Signed(data[0])
  {
    RunFrame(ps, ops, DNX_TIMEOUT_OFFSET);
  }

  /** The token area changes only by flashing or erasing the token: no firmware
      update and no other write ever alters it. */
  lemma RunKeepsToken(ps: seq<seq<byte>>, ops: seq<Op>)
    requires IsRun(ps, ops) && forall k :: 0 <= k < |ops| ==> !TokenOp(ops[k])
    ensures |ps[|ops|]| == IFWI_SIZE
    ensures ps[|ops|][TOKEN_OFFSET..TOKEN_OFFSET + TOKEN_SIZE] == ps[0][TOKEN_OFFSET..TOKEN_OFFSET + TOKEN_SIZE]
  {
    RunFrame(ps, ops, TOKEN_OFFSET);
    forall i | TOKEN_OFFSET <= i < TOKEN_OFFSET + TOKEN_SIZE ensures ps[|ops|][i] == ps[0][i] {
      RunFrame(ps, ops, i);
    }
  }

  /** The token area reads as the token last flashed with success, through any
      firmware updates and other writes behind it. */
  lemma TokenReadsBack(ps: seq<seq<byte>>, ops: seq<Op>, j: nat, data: seq<byte>)
    requires IsRun(ps, ops) && j < |ops| && ops[j] == FlashTokenOp(data) && |data| >= 0x2C00
    requires Written(ps[j], TOKEN_OFFSET, data[..TOKEN_SIZE], ps[j + 1])
    requires forall k :: j < k < |ops| ==> !TokenOp(ops[k])
    ensures |ps[|ops|]| == IFWI_SIZE && ps[|ops|][0x4000..0x6C00] == data[..0x2C00]
  {
    WrittenRange(ps[j], TOKEN_OFFSET, data[..TOKEN_SIZE], ps[j + 1]);
    RunKeepsToken(ps[j + 1..], ops[j + 1..]);
  }
}
