/**
 The commit protocol of the store. A write first fills a free slot and only
 then replaces the 224-byte header; the header write is one atomic step.
 */
module OsipCommit {
  import opened Options
  import opened Bytes
  import opened OsipFormat
  import opened OsipSlots
  import opened OsipView
  import opened OsipStore

  /** Byte `i` may be overwritten while the image of the plan is being stored:
      the four bytes of the header backup and the chosen slot, nothing else. */
  predicate Scratch(plan: Option<Plan>, i: int) {
    || BACKUP_OFFSET <= i < BACKUP_OFFSET + 4
    || (plan.Some? && plan.value.record.lba * LBA_SIZE <= i
                   < (plan.value.record.lba + plan.value.record.size) * LBA_SIZE)
  }

  /** A disk on which a write has started but not committed, in whatever order
      and to whatever extent its bytes have reached the medium. */
  ghost predicate Unfinished(d: seq<byte>, plan: Option<Plan>, d': seq<byte>) {
    |d'| == |d| && forall i :: 0 <= i < |d| && !Scratch(plan, i) ==> d'[i] == d[i]
  }

  /** A disk on which the write has committed. */
  ghost predicate Finished(d: seq<byte>, plan: Plan, payload: seq<byte>, d': seq<byte>) {
    && |d'| == |d| >= HEADER_BYTES
    && d'[..HEADER_BYTES] == Encode(plan.header)
    && (plan.record.lba + plan.record.size) * LBA_SIZE <= |d'|
    && Payload(d', plan.record) == payload
    && (forall i :: HEADER_BYTES <= i < |d| && !Scratch(Some(plan), i) ==> d'[i] == d[i])
  }

  /** The record of a plan has its slot to itself. */
  ghost predicate Roomy(h: Header, plan: Plan)
    requires h.numPointers <= MAX_DESC
  {
    InSlot(plan.record) && forall i :: 0 <= i < h.numPointers ==> Apart(h.desc[i], plan.record)
  }

  lemma PlanIsRoomy(h: Header, sectors: nat, data: seq<byte>, index: int)
    requires Placed(h, sectors) && sectors <= MAX_SECTORS && |data| >= HEADER_BYTES
    requires 0 <= index < MAX_DESC ==> Installable(h, index, Class(ImageRecord(data).attribute))
    requires PlanWrite(h, data, index).Some?
    ensures Roomy(h, PlanWrite(h, data, index).value)
  {
    var plan := PlanWrite(h, data, index).value;
    var c := Class(ImageRecord(data).attribute);
    var lba := FreeLba(c, h);
    FreeLbaInRange(c, h);
    assert plan.record.lba == lba && plan.record.attribute == ImageRecord(data).attribute;
    forall i | 0 <= i < h.numPointers ensures Apart(h.desc[i], plan.record) {
      FreeIsApart(h.desc[i], c, lba, plan.record);
    }
  }

  lemma FreeIsApart(o: Osii, c: byte, slot: nat, r: Osii)
    requires slot in SlotsOf(c) && !UsedBy(o, slot, MaxLba(c)) && CoversNoSlot(o)
    requires o.lba + 1 + o.size < 0x1_0000_0000
    requires r.lba == slot && r.size <= MaxLba(c)
    ensures Apart(o, r)
  {
    var j :| 0 <= j < |SlotsOf(c)| && SlotsOf(c)[j] == slot;
    assert !Covers(o, SlotsOf(c)[j], MaxLba(c));
  }

  // ---------------------------------------------------------------- before the commit

  lemma UnfinishedHeader(d: seq<byte>, plan: Option<Plan>, d': seq<byte>)
    requires |d| >= HEADER_BYTES && Unfinished(d, plan, d')
    requires plan.Some? ==> plan.value.record.lba >= 1
    ensures HeaderOf(d') == HeaderOf(d)
  {
    assert d'[..HEADER_BYTES] == d[..HEADER_BYTES];
  }

  lemma UnfinishedPayload(d: seq<byte>, plan: Option<Plan>, d': seq<byte>, o: Osii)
    requires Unfinished(d, plan, d')
    requires 1 <= o.lba && (o.lba + o.size) * LBA_SIZE <= |d|
    requires plan.Some? ==> Apart(o, plan.value.record)
    ensures EntryOf(d', o) == EntryOf(d, o)
  {
    var lo, hi := o.lba * LBA_SIZE, (o.lba + o.size) * LBA_SIZE;
    forall i | lo <= i < hi ensures d'[i] == d[i] {
      assert !Scratch(plan, i);
    }
    assert d'[lo..hi] == d[lo..hi];
  }

  /** Disks with the same header and the same images show the same view. */
  lemma ViewsAgree(d: seq<byte>, d': seq<byte>)
    requires Consistent(d) && Consistent(d') && |d'| == |d| && HeaderOf(d') == HeaderOf(d)
    requires forall i :: 0 <= i < |View(d)| ==> EntryOf(d', HeaderOf(d).desc[i]) == View(d)[i]
    ensures View(d') == View(d)
  {
  }

  /** Until the header is replaced, the disk shows the old images in full. */
  lemma UnfinishedShowsOld(d: seq<byte>, plan: Option<Plan>, d': seq<byte>)
    requires Consistent(d) && Unfinished(d, plan, d')
    requires plan.Some? ==> Roomy(HeaderOf(d), plan.value)
    ensures Consistent(d') && View(d') == View(d)
  {
    var h := HeaderOf(d);
    UnfinishedHeader(d, plan, d');
    forall i | 0 <= i < |View(d)| ensures EntryOf(d', h.desc[i]) == View(d)[i] {
      UnfinishedPayload(d, plan, d', h.desc[i]);
    }
    ViewsAgree(d, d');
  }

  // ---------------------------------------------------------------- after the commit

  lemma FinishedHeader(d: seq<byte>, plan: Plan, payload: seq<byte>, d': seq<byte>)
    requires Finished(d, plan, payload, d')
    ensures HeaderOf(d') == plan.header
  {
    HeaderRoundTrip(plan.header);
  }

  lemma FinishedPayload(d: seq<byte>, plan: Plan, payload: seq<byte>, d': seq<byte>, o: Osii)
    requires Finished(d, plan, payload, d')
    requires 1 <= o.lba && (o.lba + o.size) * LBA_SIZE <= |d| && Apart(o, plan.record)
    ensures EntryOf(d', o) == EntryOf(d, o)
  {
    var lo, hi := o.lba * LBA_SIZE, (o.lba + o.size) * LBA_SIZE;
    forall i | lo <= i < hi ensures d'[i] == d[i] {
      assert !Scratch(Some(plan), i);
    }
    assert d'[lo..hi] == d[lo..hi];
  }

  /** What replacing or appending one descriptor does to a header. */
  ghost predicate Replaces(h: Header, index: nat, o: Osii, g: Header)
    requires h.numPointers <= MAX_DESC
  {
    && index < MAX_DESC && index <= h.numPointers
    && g.numPointers == (if index < h.numPointers then h.numPointers else index + 1)
    && g.desc == h.desc[index := o]
  }

  /** The fields outside the descriptors stay, except that the number of pointers
      may grow, and the header size with it. */
  predicate FixedKept(h: Header, g: Header) {
    && g.sig == h.sig && g.intelReserved == h.intelReserved && g.revMinor == h.revMinor && g.revMajor == h.revMajor
    && g.numImages == h.numImages && g.reserved == h.reserved && g.numPointers >= h.numPointers
    && g.headerSize == if g.numPointers == h.numPointers then h.headerSize else 32 + 24 * (g.numPointers as int)
  }

  /** Storing a record, at whatever index, keeps the fixed fields. */
  lemma InstallKeepsFixed(h: Header, index: nat, o: Osii)
    requires h.numPointers <= MAX_DESC && index < MAX_DESC && Installable(h, index, Class(o.attribute))
    ensures FixedKept(h, Sealed(Install(h, index, o)))
  {
  }

  lemma InstallReplaces(h: Header, index: nat, o: Osii)
    requires h.numPointers <= MAX_DESC && index < MAX_DESC && index <= h.numPointers
    requires Overwrites(h, index, Class(o.attribute))
    ensures Replaces(h, index, o, Sealed(Install(h, index, o)))
    ensures Crc(Sealed(Install(h, index, o))) == 0 && FixedKept(h, Sealed(Install(h, index, o)))
  {
    SealedPasses(Install(h, index, o));
    InstallKeepsFixed(h, index, o);
  }

  /** Storing a record has this simple effect exactly when the descriptor it
      lands on may be overwritten. Otherwise an extra descriptor becomes live:
      behind the live ones, whatever was left over there. */
  lemma InstallIsSimpleExactly(h: Header, index: nat, o: Osii)
    requires h.numPointers < MAX_DESC && index < MAX_DESC - 1 && index <= h.numPointers
    ensures Replaces(h, index, o, Install(h, index, o)) <==> Overwrites(h, index, Class(o.attribute))
    ensures !Overwrites(h, index, Class(o.attribute)) ==>
              var g := Install(h, index, o); g.desc[g.numPointers - 1] == h.desc[index]
  {
  }

  /** Everything the commit needs to know about a plan. */
  lemma PlanShape(h: Header, sectors: nat, data: seq<byte>, index: nat)
    requires Placed(h, sectors) && sectors <= MAX_SECTORS && |data| >= HEADER_BYTES
    requires index < MAX_DESC && index <= h.numPointers
    requires Overwrites(h, index, Class(ImageRecord(data).attribute))
    requires PlanWrite(h, data, index).Some?
    ensures var plan := PlanWrite(h, data, index).value;
            && Roomy(h, plan) && plan.index == index
            && Replaces(h, index, plan.record, plan.header) && Crc(plan.header) == 0
            && plan.record.attribute == ImageRecord(data).attribute
  {
    PlanIsRoomy(h, sectors, data, index);
    InstallReplaces(h, index, PlanWrite(h, data, index).value.record);
  }

  lemma ReplacesKeepsPlaced(h: Header, index: nat, o: Osii, g: Header, sectors: nat)
    requires Placed(h, sectors) && sectors >= SLOTS_END && Replaces(h, index, o, g)
    requires InSlot(o) && forall i :: 0 <= i < h.numPointers ==> Apart(h.desc[i], o)
    ensures Placed(g, sectors)
  {
    InSlotCoversNone(o);
    InSlotInRange(o);
    forall i, j | 0 <= i < j < g.numPointers ensures Apart(g.desc[i], g.desc[j]) {
      if i == index {
        assert g.desc[j] == h.desc[j];
      } else if j == index {
        assert g.desc[i] == h.desc[i];
      } else {
        assert g.desc[i] == h.desc[i] && g.desc[j] == h.desc[j];
      }
    }
  }

  lemma InSlotInRange(o: Osii)
    requires InSlot(o)
    ensures 50 <= o.lba && o.lba + o.size <= SLOTS_END
  {
  }

  lemma ReplacesKeepsSlotted(h: Header, index: nat, o: Osii, g: Header)
    requires Slotted(h) && Replaces(h, index, o, g) && InSlot(o)
    requires forall i :: 0 <= i < h.numPointers ==> h.desc[i].lba != o.lba
    ensures Slotted(g)
  {
    forall i, j | 0 <= i < j < g.numPointers ensures g.desc[i].lba != g.desc[j].lba {
      if i == index {
        assert g.desc[j] == h.desc[j];
      } else if j == index {
        assert g.desc[i] == h.desc[i];
      } else {
        assert g.desc[i] == h.desc[i] && g.desc[j] == h.desc[j];
      }
    }
  }

  lemma FinishedConsistent(d: seq<byte>, plan: Plan, payload: seq<byte>, d': seq<byte>)
    requires Consistent(d) && Roomy(HeaderOf(d), plan) && Finished(d, plan, payload, d')
    requires Replaces(HeaderOf(d), plan.index, plan.record, plan.header) && Crc(plan.header) == 0
    ensures Consistent(d') && HeaderOf(d') == plan.header
  {
    FinishedHeader(d, plan, payload, d');
    ReplacesKeepsPlaced(HeaderOf(d), plan.index, plan.record, plan.header, Sectors(d));
  }

  /** Two disks that agree on all images but one show views that differ in one entry. */
  lemma ViewsDifferAt(d: seq<byte>, d': seq<byte>, index: nat, o: Osii)
    requires Consistent(d) && Consistent(d') && |d'| == |d|
    requires Replaces(HeaderOf(d), index, o, HeaderOf(d'))
    requires (o.lba + o.size) * LBA_SIZE <= |d'|
    requires forall i :: 0 <= i < |View(d)| ==> EntryOf(d', HeaderOf(d).desc[i]) == View(d)[i]
    ensures View(d') == Put(View(d), index, EntryOf(d', o))
  {
    var v, v' := View(d), View(d');
    var p := Put(v, index, EntryOf(d', o));
    forall i | 0 <= i < |v'| ensures v'[i] == p[i] {
      if i != index {
        assert HeaderOf(d').desc[i] == HeaderOf(d).desc[i];
      }
    }
  }

  /** Once the header is replaced, the disk shows the new image in place of the
      old one and all other images unchanged. */
  lemma FinishedShowsNew(d: seq<byte>, plan: Plan, payload: seq<byte>, d': seq<byte>)
    requires Consistent(d) && Roomy(HeaderOf(d), plan) && Finished(d, plan, payload, d')
    requires Replaces(HeaderOf(d), plan.index, plan.record, plan.header) && Crc(plan.header) == 0
    ensures Consistent(d')
    ensures plan.index <= |View(d)|
    ensures View(d') == Put(View(d), plan.index, EntryOf(d', plan.record))
  {
    var h := HeaderOf(d);
    FinishedConsistent(d, plan, payload, d');
    forall i | 0 <= i < |View(d)| ensures EntryOf(d', h.desc[i]) == View(d)[i] {
      FinishedPayload(d, plan, payload, d', h.desc[i]);
    }
    ViewsDifferAt(d, d', plan.index, plan.record);
  }
}
