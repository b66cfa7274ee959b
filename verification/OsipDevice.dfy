/**
 The store as it runs: a block device written piece by piece, with transfers
 of any length, input/output errors and a record of every content the disk has
 had, so that a power cut can be placed between any two writes.
 */
module OsipDevice {
  import opened Options
  import opened Bytes
  import opened OsipFormat
  import opened OsipSlots
  import opened OsipView
  import opened OsipStore
  import opened OsipCommit
  import opened OsipRuns
  import opened OsipReadback
  import opened OsipHeaderBytes

  // ---------------------------------------------------------------- image files in memory

  function PayloadOf(data: seq<byte>): seq<byte> {
    if |data| >= LBA_SIZE then data[LBA_SIZE..] else []
  }

  /** A flash that no input/output error disturbs succeeds exactly on these inputs. */
  ghost predicate Flashable(d: seq<byte>, name: string, data: seq<byte>)
    requires Consistent(d) && |data| >= HEADER_BYTES
  {
    NamedKey(name).Some? && (NamedKeyClass(name); PlanFlash(HeaderOf(d), data, NamedKey(name).value).Some?)
  }

  // ---------------------------------------------------------------- the header backup

  /** No header backup that the boot ROM could fall back to. */
  predicate NoBackup(d: seq<byte>) {
    |d| >= BACKUP_OFFSET + 4 && Get32(d, BACKUP_OFFSET) != OSIP_SIG
  }

  lemma SpoiltSignature(d: seq<byte>)
    requires |d| >= BACKUP_OFFSET + 4 && d[BACKUP_OFFSET] == 0xFF
    ensures NoBackup(d)
  {
  }

  lemma SameWord(s: seq<byte>, i: nat, t: seq<byte>, j: nat)
    requires i + 4 <= |s| && j + 4 <= |t| && s[i..i + 4] == t[j..j + 4]
    ensures Get32(s, i) == Get32(t, j)
  {
    var a, b := s[i..i + 4], t[j..j + 4];
    assert a[0] == b[0] && a[1] == b[1] && a[2] == b[2] && a[3] == b[3];
  }

  lemma SpliceKeepsBackup(d: seq<byte>, at: nat, t: seq<byte>)
    requires at + |t| <= |d| && (at + |t| <= BACKUP_OFFSET || BACKUP_OFFSET + 4 <= at)
    ensures NoBackup(d) ==> NoBackup(Splice(d, at, t))
  {
    if |d| >= BACKUP_OFFSET + 4 {
      var d' := Splice(d, at, t);
      assert d'[BACKUP_OFFSET..BACKUP_OFFSET + 4] == d[BACKUP_OFFSET..BACKUP_OFFSET + 4];
      SameWord(d', BACKUP_OFFSET, d, BACKUP_OFFSET);
    }
  }

  /** One piece of image data more has reached the slot. */
  lemma BlobStep(d: seq<byte>, plan: Plan, at: nat, blob: seq<byte>, done: nat, d1: seq<byte>, n: nat)
    requires Unfinished(d, Some(plan), d1) && at >= LBA_SIZE
    requires at == plan.record.lba * LBA_SIZE && |blob| == plan.record.size * LBA_SIZE
    requires at + |blob| <= |d1| && 0 < n && done + n <= |blob| && d1[at..at + done] == blob[..done]
    ensures var d2 := Splice(d1, at + done, blob[done..][..n]);
            && Unfinished(d, Some(plan), d2) && d2[at..at + (done + n)] == blob[..done + n]
            && (NoBackup(d1) ==> NoBackup(d2))
  {
    var d2 := Splice(d1, at + done, blob[done..][..n]);
    SpliceKeepsBackup(d1, at + done, blob[done..][..n]);
    assert blob[..done + n] == blob[..done] + blob[done..][..n];
    assert d2[at..at + (done + n)] == d1[at..at + done] + d2[at + done..at + done + n];
  }

  // ---------------------------------------------------------------- histories of the disk

  /** No content from position `n` of the history on shows the write committed. */
  ghost predicate Untouched(history: seq<seq<byte>>, n: nat, d: seq<byte>, plan: Option<Plan>) {
    forall k :: n <= k < |history| ==> Unfinished(d, plan, history[k])
  }

  /** Every content from position `n` of the history on shows the write either
      not yet committed or committed. */
  ghost predicate AllOrNothing(history: seq<seq<byte>>, n: nat, d: seq<byte>, plan: Option<Plan>,
                               payload: seq<byte>)
  {
    forall k :: n <= k < |history| ==>
      || Unfinished(d, plan, history[k])
      || (plan.Some? && Finished(d, plan.value, payload, history[k]))
  }

  lemma NothingYet(history: seq<seq<byte>>, n: nat, d: seq<byte>, plan: Option<Plan>, payload: seq<byte>)
    requires Untouched(history, n, d, None)
    ensures AllOrNothing(history, n, d, plan, payload)
  {
  }

  lemma JoinHistories(before: seq<seq<byte>>, after: seq<seq<byte>>, n: nat, d: seq<byte>,
                      plan: Option<Plan>, payload: seq<byte>)
    requires n <= |before| <= |after| && after[..|before|] == before
    requires Untouched(before, n, d, None) && AllOrNothing(after, |before|, d, plan, payload)
    ensures AllOrNothing(after, n, d, plan, payload)
  {
    forall k | n <= k < |before| ensures Unfinished(d, plan, after[k]) {
      assert after[k] == before[k];
    }
  }

  /** A named flash is the planned write of the retagged file. */
  lemma TaggedPlan(h: Header, s: seq<byte>, key: Key)
    requires h.numPointers <= MAX_DESC && TailReusable(h)
    requires HEADER_BYTES <= |s| < 0x1_0000_0000 && key.cls % 2 == 0 && 0 <= IndexFor(h, key) < MAX_DESC
    ensures IndexFor(h, key) <= h.numPointers
    ensures Overwrites(h, IndexFor(h, key), Class(ImageRecord(Retagged(s, key.cls)).attribute))
    ensures PlanFlash(h, s, key) == PlanWrite(h, Retagged(s, key.cls), IndexFor(h, key))
    ensures PayloadOf(Retagged(s, key.cls)) == PayloadOf(s)
  {
    RetaggedRecord(s, key.cls);
    NamedWriteOverwrites(h, key);
  }

  lemma WriteKeepsHeader(d: seq<byte>, data: seq<byte>, index: int, plan: Option<Plan>, ok: bool, d': seq<byte>)
    requires Consistent(d) && |data| >= HEADER_BYTES
    requires 0 <= index < MAX_DESC ==> Installable(HeaderOf(d), index, Class(ImageRecord(data).attribute))
    requires plan == PlanWrite(HeaderOf(d), data, index)
    requires if ok then plan.Some? && |data| >= LBA_SIZE && Finished(d, plan.value, data[LBA_SIZE..], d')
             else Unfinished(d, plan, d')
    ensures HeaderKept(d, d')
  {
    if plan.Some? {
      PlanKeepsFixed(HeaderOf(d), data, index);
    }
    if ok {
      FinishedKeepsHeader(d, plan.value, data[LBA_SIZE..], d');
    } else {
      UnfinishedKeepsHeader(d, plan, d');
    }
  }

  lemma AttemptKeepsHeader(d: seq<byte>, op: Op, d': seq<byte>)
    requires Consistent(d) && (Step(d, Event(op, false), d') || Step(d, Event(op, true), d'))
    ensures HeaderKept(d, d')
  {
    if Step(d, Event(op, false), d') {
      StepKeepsHeader(d, Event(op, false), d');
    } else {
      StepKeepsHeader(d, Event(op, true), d');
    }
  }

  lemma HistorySteps(history: seq<seq<byte>>, n: nat, d: seq<byte>, s: seq<byte>, key: Key)
    requires Consistent(d) && HEADER_BYTES <= |s| < 0x1_0000_0000 && key.cls % 2 == 0
    requires AllOrNothing(history, n, d, PlanFlash(HeaderOf(d), s, key), PayloadOf(s))
    ensures forall k :: n <= k < |history| ==>
              FlashStep(d, s, key, false, history[k]) || FlashStep(d, s, key, true, history[k])
  {
    if PlanFlash(HeaderOf(d), s, key).Some? { PlannedLength(HeaderOf(d), s, key); }
  }

  /** The place of a planned write: inside the slots, as long as its record says. */
  lemma PlanPlace(h: Header, sectors: nat, data: seq<byte>, index: nat)
    requires Placed(h, sectors) && sectors <= MAX_SECTORS && HEADER_BYTES <= |data| < 0x1_0000_0000
    requires index < MAX_DESC && Installable(h, index, Class(ImageRecord(data).attribute))
    requires PlanWrite(h, data, index).Some?
    ensures var r := PlanWrite(h, data, index).value.record;
            1 <= r.lba && r.lba + r.size <= SLOTS_END && |data| == (1 + r.size) * LBA_SIZE
  {
    var r := PlanWrite(h, data, index).value.record;
    PlanIsRoomy(h, sectors, data, index);
    InSlotInRange(r);
    SectorLength(r.size, |data|);
  }

  lemma CommitFinishes(d: seq<byte>, plan: Plan, payload: seq<byte>, d1: seq<byte>, d2: seq<byte>)
    requires |d| >= HEADER_BYTES && Unfinished(d, Some(plan), d1) && plan.record.lba >= 1
    requires (plan.record.lba + plan.record.size) * LBA_SIZE <= |d| && Payload(d1, plan.record) == payload
    requires d2 == Splice(d1, 0, Encode(plan.header))
    ensures Finished(d, plan, payload, d2)
  {
    assert d2[..HEADER_BYTES] == Encode(plan.header);
    assert Payload(d2, plan.record) == Payload(d1, plan.record);
  }

  class BlockDevice {
    var disk: seq<byte>
    ghost var history: seq<seq<byte>>  // every content of the disk, oldest first
    ghost var faults: nat              // input/output errors so far

    constructor (content: seq<byte>)
      ensures disk == content && history == [] && faults == 0
    {
      disk, history, faults := content, [], 0;
    }

    // -------------------------------------------------------------- transfers

    /** One `write` call: an error, or some bytes of the buffer reach the disk. */
    method Write(at: nat, data: seq<byte>) returns (n: int)
      requires |data| > 0 && at + |data| <= |disk|
      modifies this
      ensures -1 <= n <= |data|
      ensures n > 0 ==> disk == Splice(old(disk), at, data[..n])
                        && history == old(history) + [disk] && faults == old(faults)
      ensures n <= 0 ==> disk == old(disk) && history == old(history) && faults == old(faults) + 1
    {
      n :| -1 <= n <= |data|;
      if n > 0 {
        disk := Splice(disk, at, data[..n]);
        history := history + [disk];
      } else {
        faults := faults + 1;
      }
    }

    /** One `read` call: an error (nothing returned), or some of the bytes asked for. */
    method Read(at: nat, size: nat) returns (chunk: seq<byte>)
      requires size > 0 && at + size <= |disk|
      modifies this`faults
      ensures |chunk| <= size && chunk == disk[at..at + |chunk|]
      ensures faults == old(faults) + if |chunk| == 0 then 1 else 0
    {
      var n: nat :| n <= size;
      chunk := disk[at..at + n];
      if n == 0 {
        faults := faults + 1;
      }
    }

    /** `safe_read`: repeats short reads until everything is there. */
    method SafeRead(at: nat, size: nat) returns (ok: bool, bytes: seq<byte>)
      requires at + size <= |disk|
      modifies this`faults
      ensures ok ==> bytes == disk[at..at + size] && faults == old(faults)
      ensures !ok ==> faults > old(faults)
    {
      bytes := [];
      while |bytes| < size
        invariant |bytes| <= size && bytes == disk[at..at + |bytes|]
        invariant faults == old(faults)
      {
        var chunk := Read(at + |bytes|, size - |bytes|);
        if |chunk| == 0 {
          return false, [];
        }
        bytes := bytes + chunk;
      }
      ok := true;
    }

    /** `read_OSIP`. */
    method ReadOsip() returns (ok: bool, h: Header)
      requires |disk| >= HEADER_BYTES
      modifies this`faults
      ensures ok ==> h == HeaderOf(disk) && Crc(h) == 0 && faults == old(faults)
      ensures !ok && faults == old(faults) ==> Crc(HeaderOf(disk)) != 0
      ensures faults >= old(faults)
    {
      h := ZERO_HEADER;
      var got, bytes := SafeRead(0, HEADER_BYTES);
      if !got {
        return false, h;
      }
      var crc := GetOsipCrc(bytes);
      CrcOfBytes(bytes);
      h := Decode(bytes);
      ok := crc == 0;
    }

    /** `write_OSIP`: the checksum is renewed and the 224 bytes reach the disk
        in one piece or not at all. */
    method WriteOsip(h: Header) returns (ok: bool)
      requires |disk| >= HEADER_BYTES
      modifies this
      ensures ok ==> disk == Splice(old(disk), 0, Encode(Sealed(h)))
                     && history == old(history) + [disk] && faults == old(faults)
      ensures !ok ==> disk == old(disk) && history == old(history) && faults == old(faults) + 1
    {
      var blank := h.(checksum := 0);
      var crc := GetOsipCrc(Encode(blank));
      SealedBy(h, crc);
      var landed: bool := *;
      if landed {
        disk := Splice(disk, 0, Encode(h.(checksum := crc)));
        history := history + [disk];
      } else {
        faults := faults + 1;
      }
      ok := landed;
    }

    /** `destroy_the_osip_backup`: the four bytes behind the header, and only
        those, may be overwritten. */
    method DestroyBackup()
      requires |disk| >= LBA_SIZE
      modifies this
      ensures Unfinished(old(disk), None, disk)
      ensures |history| >= |old(history)| && history[..|old(history)|] == old(history)
      ensures Untouched(history, |old(history)|, old(disk), None)
      ensures faults >= old(faults)
      ensures faults == old(faults) ==> NoBackup(disk)
    {
      var got, sig := SafeRead(BACKUP_OFFSET, 4);
      if !got {
        return;
      }
      if Get32(sig, 0) == OSIP_SIG {
        var n := Write(BACKUP_OFFSET, [0xFF, 0xFF, 0xFF, 0xFF]);
        if n > 0 {
          SpoiltSignature(disk);
        }
      } else {
        SameWord(sig, 0, disk, BACKUP_OFFSET);
      }
    }

    /** The loop that stores the image data in the chosen slot. */
    method WriteBlob(at: nat, blob: seq<byte>, ghost d: seq<byte>, ghost plan: Plan) returns (ok: bool)
      requires Unfinished(d, Some(plan), disk)
      requires at == plan.record.lba * LBA_SIZE && |blob| == plan.record.size * LBA_SIZE
      requires LBA_SIZE <= at && at + |blob| <= |disk|
      modifies this
      ensures Unfinished(d, Some(plan), disk)
      ensures |history| >= |old(history)| && history[..|old(history)|] == old(history)
      ensures Untouched(history, |old(history)|, d, Some(plan))
      ensures ok ==> disk[at..at + |blob|] == blob && faults == old(faults)
      ensures !ok ==> faults > old(faults)
      ensures NoBackup(old(disk)) ==> NoBackup(disk)
    {
      var done := 0;
      while done < |blob|
        invariant 0 <= done <= |blob|
        invariant Unfinished(d, Some(plan), disk)
        invariant disk[at..at + done] == blob[..done]
        invariant |history| >= |old(history)| && history[..|old(history)|] == old(history)
        invariant Untouched(history, |old(history)|, d, Some(plan))
        invariant faults == old(faults)
        invariant NoBackup(old(disk)) ==> NoBackup(disk)
      {
        ghost var d1 := disk;
        var n := Write(at + done, blob[done..]);
        if n <= 0 {
          return false;
        }
        BlobStep(d, plan, at, blob, done, d1, n);
        done := done + n;
      }
      ok := true;
    }

    // -------------------------------------------------------------- writing an image

    /** The slot for an image of class `c`, by the search over its class; it goes
        into the record of the image file at once, even if it is 0. */
    method ChooseSlot(data: array<byte>, h: Header, c: byte) returns (lba: nat, maxSize: nat)
      requires data.Length >= HEADER_BYTES
      requires h.numPointers <= MAX_DESC && (GoesToOsSlot(c) || IsFw(c))
      modifies data
      ensures lba == FreeLba(c, h) && maxSize == MaxLba(c)
      ensures lba < 0x1_0000_0000 && data[36..40] == Le32(lba)
      ensures forall i :: 0 <= i < data.Length && !(36 <= i < 40) ==> data[i] == old(data[i])
      ensures data.Length >= LBA_SIZE ==> data[LBA_SIZE..] == old(data[LBA_SIZE..])
    {
      lba := GetFreeLba(SlotsOf(c), MaxLba(c), h);
      FreeLbaInRange(c, h);
      PutLe32(data, 36, lba);
      SpliceReadsBack(old(data[..]), 36, Le32(lba));
      maxSize := MaxLba(c);
    }

    /** The record of the image file for its slot. An existing invalidation is
        kept, and reaches the caller's buffer too. */
    method PrepareRecord(data: array<byte>, o: Osii, h: Header, index: nat, lba: u32) returns (p: Osii)
      requires data.Length >= HEADER_BYTES && index < MAX_DESC
      modifies data
      ensures p == PreparedRecord(h, index, o, lba)
      ensures data[..] == if Disabled(h, index) then Splice(Splice(old(data[..]), 40, Le32(0)), 44, Le32(0))
                          else old(data[..])
      ensures forall i :: 0 <= i < data.Length && !(40 <= i < 48) ==> data[i] == old(data[i])
      ensures data.Length >= LBA_SIZE ==> data[LBA_SIZE..] == old(data[LBA_SIZE..])
    {
      p := o.(lba := lba);
      if index < h.numPointers && h.desc[index].ddr == 0 && h.desc[index].entry == 0 {
        PutLe32(data, 40, 0);
        PutLe32(data, 44, 0);
        p := p.(ddr := 0, entry := 0);
      }
    }

    /** `write_stitch_image`: refuses, fails or commits the planned write, and
        at no point in between is anything but the old or the new content visible.
        Of the header only the descriptors, their number, the header size and the
        checksum ever change. */
    method WriteStitchImage(data: array<byte>, index: int, ghost plan: Option<Plan>) returns (ok: bool)
      requires Consistent(disk) && HEADER_BYTES <= data.Length < 0x1_0000_0000
      requires 0 <= index < MAX_DESC ==>
                 Installable(HeaderOf(disk), index, Class(ImageRecord(data[..]).attribute))
      requires plan == PlanWrite(HeaderOf(disk), data[..], index)
      modifies this, data
      ensures ok ==> plan.Some? && data.Length >= LBA_SIZE
                     && Finished(old(disk), plan.value, old(data[..])[LBA_SIZE..], disk)
      ensures !ok ==> Unfinished(old(disk), plan, disk)
      ensures HeaderKept(old(disk), disk)
      ensures faults >= old(faults)
      ensures faults == old(faults) ==> (ok <==> plan.Some?) && (ok ==> NoBackup(disk))
      ensures |history| >= |old(history)| && history[..|old(history)|] == old(history)
      ensures AllOrNothing(history, |old(history)|, old(disk), plan, PayloadOf(old(data[..])))
      ensures forall i :: 0 <= i < data.Length && !(36 <= i < 48) ==> data[i] == old(data[i])
    {
      ghost var d, s := disk, data[..];
      ok := AttemptWrite(data, index, plan);
      WriteKeepsHeader(d, s, index, plan, ok, disk);
    }

    method AttemptWrite(data: array<byte>, index: int, ghost plan: Option<Plan>) returns (ok: bool)
      requires Consistent(disk) && HEADER_BYTES <= data.Length < 0x1_0000_0000
      requires 0 <= index < MAX_DESC ==>
                 Installable(HeaderOf(disk), index, Class(ImageRecord(data[..]).attribute))
      requires plan == PlanWrite(HeaderOf(disk), data[..], index)
      modifies this, data
      ensures ok ==> plan.Some? && data.Length >= LBA_SIZE
                     && Finished(old(disk), plan.value, old(data[..])[LBA_SIZE..], disk)
      ensures !ok ==> Unfinished(old(disk), plan, disk)
      ensures faults >= old(faults)
      ensures faults == old(faults) ==> (ok <==> plan.Some?) && (ok ==> NoBackup(disk))
      ensures |history| >= |old(history)| && history[..|old(history)|] == old(history)
      ensures AllOrNothing(history, |old(history)|, old(disk), plan, PayloadOf(old(data[..])))
      ensures forall i :: 0 <= i < data.Length && !(36 <= i < 48) ==> data[i] == old(data[i])
    {
      if !(0 <= index < MAX_DESC) {
        return false;
      }
      // one record, and a size that agrees with the length of the file
      if !WellFormedImage(data[..]) {
        return false;
      }
      var o := ImageRecord(data[..]);
      var got, h := ReadOsip();
      if !got {
        return false;
      }
      ok := StoreRecord(data, o, index, h, plan, PayloadOf(data[..]));
    }

    /** The rest of `write_stitch_image`, once the file and the header are accepted. */
    method StoreRecord(data: array<byte>, o: Osii, index: nat, h: Header, ghost plan: Option<Plan>,
                       ghost payload: seq<byte>)
      returns (ok: bool)
      requires |disk| >= SLOTS_END * LBA_SIZE && Placed(h, Sectors(disk))
      requires HEADER_BYTES <= data.Length < 0x1_0000_0000
      requires WellFormedImage(data[..]) && o == ImageRecord(data[..])
      requires index < MAX_DESC && Installable(h, index, Class(o.attribute))
      requires plan == PlanWrite(h, data[..], index) && payload == PayloadOf(data[..])
      modifies this, data
      ensures ok ==> plan.Some? && data.Length >= LBA_SIZE && Finished(old(disk), plan.value, payload, disk)
      ensures !ok ==> Unfinished(old(disk), plan, disk)
      ensures faults >= old(faults)
      ensures faults == old(faults) ==> (ok <==> plan.Some?) && (ok ==> NoBackup(disk))
      ensures |history| >= |old(history)| && history[..|old(history)|] == old(history)
      ensures AllOrNothing(history, |old(history)|, old(disk), plan, payload)
      ensures forall i :: 0 <= i < data.Length && !(36 <= i < 48) ==> data[i] == old(data[i])
    {
      ghost var d := disk;
      DestroyBackup();
      ghost var before := history;
      var go, lba, osip := DecideWrite(data, o, index, h, Sectors(d), plan);
      if !go {
        NothingYet(history, |old(history)|, d, plan, payload);
        return false;
      }
      var blob := data[LBA_SIZE..];
      ok := CommitImage(lba, blob, osip, d, plan.value);
      JoinHistories(before, history, |old(history)|, d, plan, payload);
    }

    /** Where the image will go and under which header. */
    method DecideWrite(data: array<byte>, o: Osii, index: nat, h: Header, ghost sectors: nat,
                       ghost plan: Option<Plan>)
      returns (go: bool, lba: nat, osip: Header)
      requires Placed(h, sectors) && sectors <= MAX_SECTORS && HEADER_BYTES <= data.Length < 0x1_0000_0000
      requires WellFormedImage(data[..]) && o == ImageRecord(data[..])
      requires index < MAX_DESC && Installable(h, index, Class(o.attribute))
      requires plan == PlanWrite(h, data[..], index)
      modifies data
      ensures go <==> plan.Some?
      ensures go ==>
                && plan.value.header == Sealed(osip) && plan.value.record.lba == lba >= 1
                && FixedKept(h, plan.value.header)
                && data.Length == (1 + plan.value.record.size) * LBA_SIZE
                && lba + plan.value.record.size <= SLOTS_END
      ensures go ==> data[LBA_SIZE..] == old(data[LBA_SIZE..])
      ensures forall i :: 0 <= i < data.Length && !(36 <= i < 48) ==> data[i] == old(data[i])
    {
      lba, osip := 0, h;
      ghost var s := data[..];
      var c := Class(o.attribute);
      if !(GoesToOsSlot(c) || IsFw(c)) {
        return false, lba, osip;
      }
      var maxSize;
      lba, maxSize := ChooseSlot(data, h, c);
      if lba == 0 || o.size > maxSize {
        return false, lba, osip;
      }
      PlanPlace(h, sectors, s, index);
      var p := PrepareRecord(data, o, h, index, lba);
      osip := Install(h, index, p);
      InstallKeepsFixed(h, index, p);
      go := true;
    }

    /** Stores the image data in the slot and then replaces the header. */
    method CommitImage(lba: nat, blob: seq<byte>, osip: Header, ghost d: seq<byte>, ghost plan: Plan)
      returns (ok: bool)
      requires |d| >= HEADER_BYTES && Unfinished(d, None, disk)
      requires plan.header == Sealed(osip) && plan.record.lba == lba >= 1
      requires |blob| == plan.record.size * LBA_SIZE && lba * LBA_SIZE + |blob| <= |d|
      modifies this
      ensures ok ==> Finished(d, plan, blob, disk) && faults == old(faults)
      ensures !ok ==> Unfinished(d, Some(plan), disk) && faults > old(faults)
      ensures |history| >= |old(history)| && history[..|old(history)|] == old(history)
      ensures AllOrNothing(history, |old(history)|, d, Some(plan), blob)
      ensures NoBackup(old(disk)) ==> NoBackup(disk)
    {
      ok := WriteBlob(lba * LBA_SIZE, blob, d, plan);
      if !ok {
        return;
      }
      ghost var d1 := disk;
      ok := WriteOsip(osip);
      if ok {
        CommitFinishes(d, plan, blob, d1, disk);
        SpliceKeepsBackup(d1, 0, Encode(Sealed(osip)));
      }
    }

    // -------------------------------------------------------------- names

    /** `get_attribute_osii_index`. */
    method GetAttributeIndex(key: Key, writing: bool) returns (r: int)
      requires Consistent(disk) && key.instance >= 1
      modifies this`faults
      ensures faults >= old(faults)
      ensures faults > old(faults) ==> r == -1
      ensures faults == old(faults) ==>
                var attrs := LiveAttrs(HeaderOf(disk));
                r == if writing then WriteIndex(attrs, key) else Lookup(attrs, key)
    {
      var got, h := ReadOsip();
      if !got {
        return -1;
      }
      r := SearchIndex(h, key, writing);
    }

    /** The search loop of `get_attribute_osii_index`. */
    method SearchIndex(h: Header, key: Key, writing: bool) returns (r: int)
      requires h.numPointers <= MAX_DESC && key.instance >= 1
      ensures r == if writing then WriteIndex(LiveAttrs(h), key) else Lookup(LiveAttrs(h), key)
    {
      ghost var attrs := LiveAttrs(h);
      var i, current := 0, 1;
      while i < h.numPointers
        invariant 0 <= i <= h.numPointers
        invariant current == Count(attrs[..i], key.cls) + 1
        invariant Lookup(attrs, key) == LookupFrom(attrs, key, i)
      {
        CountNext(attrs, i, key.cls);
        if Class(h.desc[i].attribute) == key.cls {
          if current == key.instance {
            return i;
          }
          current := current + 1;
        }
        i := i + 1;
      }
      assert attrs[..i] == attrs;
      if current == key.instance && writing {
        return h.numPointers;
      }
      return -1;
    }

    /** `get_named_osii_index`. */
    method GetNamedIndex(name: string, writing: bool) returns (r: int)
      requires Consistent(disk)
      modifies this`faults
      ensures faults >= old(faults)
      ensures NamedKey(name).None? || faults > old(faults) ==> r == -1
      ensures NamedKey(name).Some? && faults == old(faults) ==>
                var attrs, key := LiveAttrs(HeaderOf(disk)), NamedKey(name).value;
                r == if writing then WriteIndex(attrs, key) else Lookup(attrs, key)
    {
      var key := NamedKey(name);
      if key.None? {
        return -1;
      }
      NamedKeyClass(name);
      r := GetAttributeIndex(key.value, writing);
    }

    // -------------------------------------------------------------- public operations

    /** `flash_image_osip`, except for the test image that replaces the whole
        store: one attempt of the run model, and every disk content on the way
        shows it either not yet committed or committed, under a header that keeps
        its signature and all other fixed bytes. The attribute in the caller's
        buffer becomes that of the name, with its low bit kept. */
    method FlashImage(data: array<byte>, name: string) returns (ok: bool)
      requires Consistent(disk) && HEADER_BYTES <= data.Length < 0x1_0000_0000
      requires name != "testos"
      modifies this, data
      ensures Step(old(disk), Event(Flash(name, old(data[..])), ok), disk)
      ensures forall k :: |old(history)| <= k < |history| ==>
                || Step(old(disk), Event(Flash(name, old(data[..])), false), history[k])
                || Step(old(disk), Event(Flash(name, old(data[..])), true), history[k])
      ensures HeaderKept(old(disk), disk)
      ensures forall k :: |old(history)| <= k < |history| ==> HeaderKept(old(disk), history[k])
      ensures faults >= old(faults)
      ensures faults == old(faults) ==>
                (ok <==> Flashable(old(disk), name, old(data[..]))) && (ok ==> NoBackup(disk))
      ensures |history| >= |old(history)| && history[..|old(history)|] == old(history)
      ensures forall i :: 0 <= i < data.Length && !(36 <= i < 48) && i != 52 ==> data[i] == old(data[i])
      ensures NamedKey(name).Some? ==> data[52] == NamedKey(name).value.cls + old(data[52]) % 2
    {
      ghost var d, s := disk, data[..];
      ok := AttemptFlash(data, name);
      StepKeepsHeader(d, Event(Flash(name, s), ok), disk);
      forall k | |old(history)| <= k < |history| ensures HeaderKept(d, history[k]) {
        AttemptKeepsHeader(d, Flash(name, s), history[k]);
      }
    }

    method AttemptFlash(data: array<byte>, name: string) returns (ok: bool)
      requires Consistent(disk) && HEADER_BYTES <= data.Length < 0x1_0000_0000
      requires name != "testos"
      modifies this, data
      ensures Step(old(disk), Event(Flash(name, old(data[..])), ok), disk)
      ensures forall k :: |old(history)| <= k < |history| ==>
                || Step(old(disk), Event(Flash(name, old(data[..])), false), history[k])
                || Step(old(disk), Event(Flash(name, old(data[..])), true), history[k])
      ensures faults >= old(faults)
      ensures faults == old(faults) ==>
                (ok <==> Flashable(old(disk), name, old(data[..]))) && (ok ==> NoBackup(disk))
      ensures |history| >= |old(history)| && history[..|old(history)|] == old(history)
      ensures forall i :: 0 <= i < data.Length && !(36 <= i < 48) && i != 52 ==> data[i] == old(data[i])
      ensures NamedKey(name).Some? ==> data[52] == NamedKey(name).value.cls + old(data[52]) % 2
    {
      ghost var d, s := disk, data[..];
      var index := GetNamedIndex(name, true);
      var key := NamedKey(name);
      var signBit: int := data[52] % 2;
      if key.None? {
        data[52] := (0xFF + signBit) % 0x100;
        return false;
      }
      NamedKeyClass(name);
      ClassOfTagged(key.value.cls, data[52]);
      data[52] := key.value.cls + signBit;
      assert data[..] == Retagged(s, key.value.cls);
      if !(0 <= index < MAX_DESC) {
        return false;
      }
      ok := WriteTagged(data, key.value, index, d, s);
    }

    /** The call of `write_stitch_image` with the attribute already in place. */
    method WriteTagged(data: array<byte>, key: Key, index: nat, ghost d: seq<byte>, ghost s: seq<byte>)
      returns (ok: bool)
      requires Consistent(disk) && disk == d && HEADER_BYTES <= data.Length < 0x1_0000_0000
      requires |s| == data.Length && key.cls % 2 == 0 && data[..] == Retagged(s, key.cls)
      requires index < MAX_DESC && index == IndexFor(HeaderOf(disk), key)
      modifies this, data
      ensures FlashStep(d, s, key, ok, disk)
      ensures forall k :: |old(history)| <= k < |history| ==>
                FlashStep(d, s, key, false, history[k]) || FlashStep(d, s, key, true, history[k])
      ensures faults >= old(faults)
      ensures faults == old(faults) ==> (ok <==> PlanFlash(HeaderOf(d), s, key).Some?) && (ok ==> NoBackup(disk))
      ensures |history| >= |old(history)| && history[..|old(history)|] == old(history)
      ensures forall i :: 0 <= i < data.Length && !(36 <= i < 48) ==> data[i] == old(data[i])
    {
      ghost var plan := PlanFlash(HeaderOf(d), s, key);
      TaggedPlan(HeaderOf(d), s, key);
      ok := WriteStitchImage(data, index, plan);
      HistorySteps(history, |old(history)|, d, s, key);
    }

    /** `update_osii`: one attempt of the run model on the two addresses of a name.
        No byte of the disk changes but those eight and the checksum. */
    method UpdateOsii(name: string, ddr: u32, entry: u32) returns (ok: bool)
      requires Consistent(disk)
      modifies this
      ensures NamedKey(name).Some? ==> AddressStep(old(disk), NamedKey(name).value, ddr, entry, ok, disk)
      ensures !ok ==> disk == old(disk)
      ensures ok ==> NamedKey(name).Some? && AddressesWritten(old(disk), NamedKey(name).value, ddr, entry, disk)
      ensures HeaderKept(old(disk), disk)
      ensures faults >= old(faults)
      ensures faults == old(faults) ==>
                (ok <==> NamedKey(name).Some? && NamedKey(name).value in AsMap(View(old(disk))))
      ensures history == if ok then old(history) + [disk] else old(history)
    {
      ghost var d := disk;
      ok := AttemptUpdate(name, ddr, entry);
      if ok {
        AddressStepBytes(d, NamedKey(name).value, ddr, entry, true, disk);
      }
    }

    method AttemptUpdate(name: string, ddr: u32, entry: u32) returns (ok: bool)
      requires Consistent(disk)
      modifies this
      ensures NamedKey(name).Some? ==> AddressStep(old(disk), NamedKey(name).value, ddr, entry, ok, disk)
      ensures NamedKey(name).None? ==> !ok && disk == old(disk)
      ensures faults >= old(faults)
      ensures faults == old(faults) ==>
                (ok <==> NamedKey(name).Some? && NamedKey(name).value in AsMap(View(old(disk))))
      ensures history == if ok then old(history) + [disk] else old(history)
    {
      if NamedKey(name).Some? {
        ViewAttrs(disk);
        MapLookup(View(disk), NamedKey(name).value);
      }
      var index := GetNamedIndex(name, false);
      if !(0 <= index < MAX_DESC) {
        return false;
      }
      var got, osip := ReadOsip();
      if !got {
        return false;
      }
      ok := WriteOsip(WithAddresses(osip, index, ddr, entry));
    }

    /** `invalidate_osii`. */
    method InvalidateOsii(name: string) returns (ok: bool)
      requires Consistent(disk)
      modifies this
      ensures Step(old(disk), Event(Invalidate(name), ok), disk)
      ensures faults >= old(faults)
      ensures faults == old(faults) ==>
                (ok <==> NamedKey(name).Some? && NamedKey(name).value in AsMap(View(old(disk))))
      ensures history == if ok then old(history) + [disk] else old(history)
    {
      ok := UpdateOsii(name, 0, 0);
    }

    /** `restore_osii`. */
    method RestoreOsii(name: string) returns (ok: bool)
      requires Consistent(disk)
      modifies this
      ensures Step(old(disk), Event(Restore(name), ok), disk)
      ensures faults >= old(faults)
      ensures faults == old(faults) ==>
                (ok <==> NamedKey(name).Some? && NamedKey(name).value in AsMap(View(old(disk))))
      ensures history == if ok then old(history) + [disk] else old(history)
    {
      ok := UpdateOsii(name, DDR_LOAD_ADDX, ENTRY_POINT);
    }

    /** `oem_erase_osip_header`: 224 zero bytes make an empty store. */
    method EraseOsipHeader() returns (ok: bool)
      requires |disk| >= SLOTS_END * LBA_SIZE
      modifies this
      ensures ok ==> Consistent(disk) && View(disk) == [] && Slotted(HeaderOf(disk))
      ensures ok ==> ZeroedHeader(old(disk), disk)
      ensures !ok ==> disk == old(disk) && faults > old(faults)
    {
      ErasedDisk(disk, Splice(disk, 0, Encode(Sealed(ZERO_HEADER))));
      ok := WriteOsip(ZERO_HEADER);
    }

    /** `read_osimage_data`: the stored image as a file of its own. */
    method ReadOsimageData(index: nat) returns (ok: bool, blob: array<byte>)
      requires Consistent(disk) && index < HeaderOf(disk).numPointers
      modifies this`faults
      ensures fresh(blob)
      ensures ok ==> var o := HeaderOf(disk).desc[index];
                     IsFileOf(o, Payload(disk, o), blob[..]) && FileHeaderBytes(o, blob[..])
      ensures ok <==> faults == old(faults)
      ensures faults >= old(faults)
    {
      var got, h := ReadOsip();
      if !got {
        blob := new byte[0];
        return false, blob;
      }
      ok, blob := ReadFile(h.desc[index]);
      if ok {
        FileBytes(h.desc[index], Payload(disk, h.desc[index]), blob[..]);
      }
    }

    /** The file for one descriptor: sector 0 is made up, the rest comes from the slot. */
    method ReadFile(osii: Osii) returns (ok: bool, blob: array<byte>)
      requires (osii.lba + osii.size) * LBA_SIZE <= |disk|
      modifies this`faults
      ensures fresh(blob)
      ensures ok ==> IsFileOf(osii, Payload(disk, osii), blob[..])
      ensures ok <==> faults == old(faults)
      ensures faults >= old(faults)
    {
      blob := new byte[(osii.size + 1) * LBA_SIZE];
      var header := Encode(FileHeader(osii));
      FillSectorZero(blob, header);
      var got, payload := SafeRead(osii.lba * LBA_SIZE, osii.size * LBA_SIZE);
      if !got {
        return false, blob;
      }
      CopyInto(blob, payload);
      ok := true;
    }

    method CopyInto(blob: array<byte>, payload: seq<byte>)
      requires blob.Length == LBA_SIZE + |payload|
      modifies blob
      ensures blob[..LBA_SIZE] == old(blob[..LBA_SIZE]) && blob[..][LBA_SIZE..] == payload
      ensures forall i :: 0 <= i < LBA_SIZE ==> blob[i] == old(blob[i])
    {
      forall i | 0 <= i < |payload| {
        blob[LBA_SIZE + i] := payload[i];
      }
    }

    /** The made-up first sector: a one-image header, a run of 0xFF over its
        tail, 70 bytes that nobody writes and the boot signature. */
    method FillSectorZero(blob: array<byte>, header: seq<byte>)
      requires blob.Length >= LBA_SIZE && |header| == HEADER_BYTES
      modifies blob
      ensures blob[..FILE_PREFIX] == header[..FILE_PREFIX]
      ensures forall i :: FILE_PREFIX <= i < FILE_PREFIX + 384 ==> blob[i] == 0xFF
      ensures blob[510] == 0x55 && blob[511] == 0xAA
    {
      forall i | 0 <= i < HEADER_BYTES {
        blob[i] := header[i];
      }
      var i := 0;
      while i < 384
        invariant 0 <= i <= 384
        invariant blob[..FILE_PREFIX] == header[..FILE_PREFIX]
        invariant forall k :: FILE_PREFIX <= k < FILE_PREFIX + i ==> blob[k] == 0xFF
      {
        blob[FILE_PREFIX + i] := 0xFF;
        i := i + 1;
      }
      blob[510], blob[511] := 0x55, 0xAA;
    }

    /** `read_image_osip`: a name reads as exactly the entry the map holds for it. */
    method ReadImage(name: string) returns (ok: bool, blob: array<byte>)
      requires Consistent(disk)
      modifies this`faults
      ensures fresh(blob)
      ensures ok ==> NamedKey(name).Some? && NamedKey(name).value in AsMap(View(disk))
                     && ShowsEntry(AsMap(View(disk))[NamedKey(name).value], blob[..])
      ensures faults >= old(faults)
      ensures faults == old(faults) ==>
                (ok <==> NamedKey(name).Some? && NamedKey(name).value in AsMap(View(disk)))
    {
      var index := GetNamedIndex(name, false);
      if NamedKey(name).Some? {
        ViewAttrs(disk);
        MapLookup(View(disk), NamedKey(name).value);
      }
      if !(0 <= index < MAX_DESC) {
        blob := new byte[0];
        return false, blob;
      }
      ok, blob := ReadOsimageData(index);
      if ok {
        FileShowsEntry(disk, index, blob[..]);
      }
    }
  }
}
