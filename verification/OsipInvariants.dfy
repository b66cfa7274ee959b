/**
 What stays true of the store through every run: the slot discipline, the
 position of each name, and the chance to flash again.
 */
module OsipInvariants {
  import opened Bytes
  import opened OsipFormat
  import opened OsipSlots
  import opened OsipView
  import opened OsipStore
  import opened OsipCommit
  import opened OsipRuns

  // ---------------------------------------------------------------- slots

  lemma PlannedSlotUnclaimed(h: Header, data: seq<byte>, key: Key)
    requires h.numPointers <= MAX_DESC && TailReusable(h)
    requires |data| >= HEADER_BYTES && key.cls % 2 == 0 && PlanFlash(h, data, key).Some?
    ensures forall i :: 0 <= i < h.numPointers ==> h.desc[i].lba != PlanFlash(h, data, key).value.record.lba
  {
    RetaggedRecord(data, key.cls);
    FreeLbaInRange(key.cls, h);
    var lba := FreeLba(key.cls, h);
    forall i | 0 <= i < h.numPointers ensures h.desc[i].lba != lba {
      assert !UsedBy(h.desc[i], lba, MaxLba(key.cls));
    }
  }

  /** The header after an attempt to flash. */
  lemma FlashHeader(d: seq<byte>, data: seq<byte>, key: Key, committed: bool, d': seq<byte>)
    requires Consistent(d) && key.cls % 2 == 0 && HEADER_BYTES <= |data| < 0x1_0000_0000
    requires FlashStep(d, data, key, committed, d')
    ensures |d'| >= HEADER_BYTES
    ensures var plan := PlanFlash(HeaderOf(d), data, key);
            && (committed ==> plan.Some?)
            && HeaderOf(d') == if committed then plan.value.header else HeaderOf(d)
  {
    var plan := PlanFlash(HeaderOf(d), data, key);
    if committed {
      FinishedHeader(d, plan.value, data[LBA_SIZE..], d');
    } else {
      if plan.Some? {
        FlashPlanShape(HeaderOf(d), Sectors(d), data, key);
      }
      UnfinishedHeader(d, plan, d');
    }
  }

  lemma FlashKeepsSlots(d: seq<byte>, data: seq<byte>, key: Key, committed: bool, d': seq<byte>)
    requires Consistent(d) && key.cls % 2 == 0 && HEADER_BYTES <= |data| < 0x1_0000_0000
    requires FlashStep(d, data, key, committed, d') && Slotted(HeaderOf(d))
    ensures |d'| >= HEADER_BYTES && Slotted(HeaderOf(d'))
  {
    FlashHeader(d, data, key, committed, d');
    if committed {
      PlannedIsSlotted(HeaderOf(d), Sectors(d), data, key);
    }
  }

  lemma PlannedIsSlotted(h: Header, sectors: nat, data: seq<byte>, key: Key)
    requires Placed(h, sectors) && sectors <= MAX_SECTORS && Slotted(h)
    requires |data| >= HEADER_BYTES && key.cls % 2 == 0 && PlanFlash(h, data, key).Some?
    ensures Slotted(PlanFlash(h, data, key).value.header)
  {
    var plan := PlanFlash(h, data, key).value;
    FlashPlanShape(h, sectors, data, key);
    PlannedSlotUnclaimed(h, data, key);
    ReplacesKeepsSlotted(h, plan.index, plan.record, plan.header);
  }

  lemma AddressKeepsSlots(d: seq<byte>, key: Key, ddr: u32, entry: u32, committed: bool, d': seq<byte>)
    requires Consistent(d) && AddressStep(d, key, ddr, entry, committed, d') && Slotted(HeaderOf(d))
    ensures Consistent(d') && Slotted(HeaderOf(d'))
  {
    AddressRefines(d, key, ddr, entry, committed, d');
    SamePlacementKeeps(HeaderOf(d), HeaderOf(d'), 0);
  }

  lemma StepKeepsSlots(d: seq<byte>, e: Event, d': seq<byte>)
    requires Consistent(d) && Step(d, e, d') && Slotted(HeaderOf(d))
    ensures |d'| >= HEADER_BYTES && Slotted(HeaderOf(d'))
  {
    var key := NamedKey(e.op.name);
    if key.Some? {
      NamedKeyClass(e.op.name);
      match e.op
      case Flash(_, data) => FlashKeepsSlots(d, data, key.value, e.committed, d');
      case Invalidate(_) => AddressKeepsSlots(d, key.value, 0, 0, e.committed, d');
      case Restore(_) => AddressKeepsSlots(d, key.value, DDR_LOAD_ADDX, ENTRY_POINT, e.committed, d');
    }
  }

  /** Through every run the live images stay in pairwise distinct slots of
      their class, at most eight of them, under a valid header checksum. */
  lemma {:induction false} RunKeepsSlots(ds: seq<seq<byte>>, es: seq<Event>, k: nat)
    requires IsRun(ds, es) && Slotted(HeaderOf(ds[0])) && k <= |es|
    ensures Consistent(ds[k]) && Slotted(HeaderOf(ds[k]))
  {
    if k > 0 {
      RunKeepsSlots(ds, es, k - 1);
      StepKeepsSlots(ds[k - 1], es[k - 1], ds[k]);
      StepRefines(ds[k - 1], es[k - 1], ds[k]);
    }
  }

  // ---------------------------------------------------------------- positions of names

  /** Every name of `v` has the same position in `w`. */
  ghost predicate SamePositions(v: seq<Entry>, w: seq<Entry>) {
    forall key :: Lookup(Attrs(v), key) >= 0 ==> Lookup(Attrs(w), key) == Lookup(Attrs(v), key)
  }

  /** No position belongs to two names. */
  ghost predicate Distinct(a: seq<byte>) {
    forall k, k' :: k != k' && Lookup(a, k) >= 0 ==> Lookup(a, k) != Lookup(a, k')
  }

  lemma PutKeepsPositions(v: seq<Entry>, key: Key, e: Entry)
    requires WriteIndex(Attrs(v), key) >= 0 && Class(e.attribute) == key.cls
    ensures SamePositions(v, Put(v, WriteIndex(Attrs(v), key), e))
  {
    var i := WriteIndex(Attrs(v), key);
    var w := Put(v, i, e);
    assert Attrs(w) == if i < |v| then Attrs(v)[i := e.attribute] else Attrs(v) + [e.attribute];
    forall k | Lookup(Attrs(v), k) >= 0 ensures Lookup(Attrs(w), k) == Lookup(Attrs(v), k) {
      LookupAfterWrite(Attrs(v), key, e.attribute, k);
    }
  }

  lemma FlashKeepsPositions(d: seq<byte>, data: seq<byte>, key: Key, committed: bool, d': seq<byte>)
    requires Consistent(d) && key.cls % 2 == 0 && HEADER_BYTES <= |data| < 0x1_0000_0000
    requires FlashStep(d, data, key, committed, d')
    ensures Consistent(d') && SamePositions(View(d), View(d'))
  {
    FlashRefines(d, data, key, committed, d');
    if committed {
      StoredClass(AsMap(View(d)), key, data);
      PutKeepsPositions(View(d), key, Stored(AsMap(View(d)), key, data));
    }
  }

  lemma SameAttrs(h: Header, g: Header)
    requires h.numPointers <= MAX_DESC && SamePlacement(h, g)
    ensures LiveAttrs(g) == LiveAttrs(h)
  {
  }

  lemma AddressKeepsPositions(d: seq<byte>, key: Key, ddr: u32, entry: u32, committed: bool, d': seq<byte>)
    requires Consistent(d) && AddressStep(d, key, ddr, entry, committed, d')
    ensures Consistent(d') && SamePositions(View(d), View(d'))
  {
    AddressRefines(d, key, ddr, entry, committed, d');
    ViewAttrs(d);
    ViewAttrs(d');
    SameAttrs(HeaderOf(d), HeaderOf(d'));
  }

  lemma StepKeepsPositions(d: seq<byte>, e: Event, d': seq<byte>)
    requires Consistent(d) && Step(d, e, d')
    ensures Consistent(d') && SamePositions(View(d), View(d'))
  {
    var key := NamedKey(e.op.name);
    if key.Some? {
      NamedKeyClass(e.op.name);
      match e.op
      case Flash(_, data) => FlashKeepsPositions(d, data, key.value, e.committed, d');
      case Invalidate(_) => AddressKeepsPositions(d, key.value, 0, 0, e.committed, d');
      case Restore(_) => AddressKeepsPositions(d, key.value, DDR_LOAD_ADDX, ENTRY_POINT, e.committed, d');
    }
  }

  /** The second disk keeps the names of the first one where they were. */
  ghost predicate Follows(d: seq<byte>, d': seq<byte>) {
    Consistent(d) && Consistent(d') && SamePositions(View(d), View(d'))
  }

  lemma FollowsCompose(d: seq<byte>, d': seq<byte>, d'': seq<byte>)
    requires Follows(d, d') && Follows(d', d'')
    ensures Follows(d, d'')
  {
  }

  lemma RunStepFollows(ds: seq<seq<byte>>, es: seq<Event>, k: nat)
    requires IsRun(ds, es) && k < |es| && Consistent(ds[k])
    ensures Follows(ds[k], ds[k + 1])
  {
    StepKeepsPositions(ds[k], es[k], ds[k + 1]);
  }

  lemma {:induction false} RunFollows(ds: seq<seq<byte>>, es: seq<Event>, i: nat, j: nat)
    requires IsRun(ds, es) && i <= j <= |es| && Consistent(ds[i])
    ensures Follows(ds[i], ds[j])
  {
    if i < j {
      RunFollows(ds, es, i, j - 1);
      RunStepFollows(ds, es, j - 1);
      FollowsCompose(ds[i], ds[j - 1], ds[j]);
    }
  }

  /** Once a name has a position it keeps it through every run, and different
      names never share one. */
  lemma RunKeepsPositions(ds: seq<seq<byte>>, es: seq<Event>, i: nat, j: nat)
    requires IsRun(ds, es) && i <= j <= |es|
    ensures Consistent(ds[i]) && Consistent(ds[j]) && SamePositions(View(ds[i]), View(ds[j]))
    ensures Distinct(Attrs(View(ds[j])))
  {
    RunConsistent(ds, es, i);
    RunFollows(ds, es, i, j);
    PositionsDiffer(Attrs(View(ds[j])));
  }

  lemma PositionsDiffer(a: seq<byte>)
    ensures Distinct(a)
  {
    forall k, k' | k != k' && Lookup(a, k) >= 0 ensures Lookup(a, k) != Lookup(a, k') {
      LookupMeaning(a, k);
      LookupMeaning(a, k');
    }
  }

  // ---------------------------------------------------------------- progress

  /** While every live image leaves two sectors of its slot unused and at most
      one of them is firmware, an image can be flashed exactly when it is well
      formed, fits a slot and its name has or may get one of the eight
      positions: no flash starves. */
  lemma FlashNeverStarves(h: Header, data: seq<byte>, key: Key)
    requires Slotted(h) && Spare(h) && SingleFw(h)
    requires |data| >= HEADER_BYTES && key.cls % 2 == 0 && (GoesToOsSlot(key.cls) || IsFw(key.cls))
    ensures PlanFlash(h, data, key).Some?
            <==> && WellFormedImage(data) && ImageRecord(data).size <= MaxLba(key.cls)
                 && 0 <= IndexFor(h, key) < MAX_DESC
  {
    RetaggedRecord(data, key.cls);
    if IsFw(key.cls) {
      FwSlotAlwaysFree(h, key.cls);
    } else {
      OsSlotAlwaysFree(h, key.cls);
    }
    if 0 <= IndexFor(h, key) < MAX_DESC {
      NamedWriteOverwrites(h, key);
    }
  }

  /** Only instance 1 of the firmware class occurs. */
  predicate FirstFwOnly(m: map<Key, Entry>) {
    forall k :: k in m && IsFw(k.cls) ==> k.instance == 1
  }

  /** No two firmware images, said of the map and of the header. */
  lemma FirstFwIsSingle(d: seq<byte>)
    requires Consistent(d) && FirstFwOnly(AsMap(View(d)))
    ensures SingleFw(HeaderOf(d))
  {
    var h, v := HeaderOf(d), View(d);
    forall i, j | 0 <= i < j < h.numPointers
      ensures !(IsFw(Class(h.desc[i].attribute)) && IsFw(Class(h.desc[j].attribute)))
    {
      KeysDiffer(Attrs(v), i, j);
      AsMapMeaning(v, i);
      AsMapMeaning(v, j);
      assert EntryKey(v, i).cls == Class(h.desc[i].attribute);
      assert EntryKey(v, j).cls == Class(h.desc[j].attribute);
    }
  }

  /** The attempt, if it is a committed flash, stores an image that leaves two
      sectors unused. */
  predicate LeavesSpare(e: Event) {
    e.committed && e.op.Flash? && NamedKey(e.op.name).Some? && |e.op.data| >= HEADER_BYTES ==>
      ImageRecord(e.op.data).size <= MaxLba(NamedKey(e.op.name).value.cls) - 2
  }

  lemma FlashKeepsSpare(d: seq<byte>, data: seq<byte>, key: Key, committed: bool, d': seq<byte>)
    requires Consistent(d) && key.cls % 2 == 0 && HEADER_BYTES <= |data| < 0x1_0000_0000
    requires FlashStep(d, data, key, committed, d') && Spare(HeaderOf(d))
    requires committed ==> ImageRecord(data).size <= MaxLba(key.cls) - 2
    requires Consistent(d')
    ensures Spare(HeaderOf(d'))
  {
    FlashHeader(d, data, key, committed, d');
    if committed {
      PlannedIsSpare(HeaderOf(d), Sectors(d), data, key);
    }
  }

  lemma PlannedIsSpare(h: Header, sectors: nat, data: seq<byte>, key: Key)
    requires Placed(h, sectors) && sectors <= MAX_SECTORS && Spare(h)
    requires HEADER_BYTES <= |data| < 0x1_0000_0000 && key.cls % 2 == 0 && PlanFlash(h, data, key).Some?
    requires ImageRecord(data).size <= MaxLba(key.cls) - 2
    ensures PlanFlash(h, data, key).value.header.numPointers <= MAX_DESC
    ensures Spare(PlanFlash(h, data, key).value.header)
  {
    var plan := PlanFlash(h, data, key).value;
    FlashPlanShape(h, sectors, data, key);
    PlannedLength(h, data, key);
    ReplacesKeepsSpare(h, plan.index, plan.record, plan.header);
  }

  lemma ReplacesKeepsSpare(h: Header, index: nat, o: Osii, g: Header)
    requires h.numPointers <= MAX_DESC && Spare(h) && Replaces(h, index, o, g)
    requires o.size <= MaxLba(Class(o.attribute)) - 2
    ensures Spare(g)
  {
  }

  lemma AddressKeepsSpare(d: seq<byte>, key: Key, ddr: u32, entry: u32, committed: bool, d': seq<byte>)
    requires Consistent(d) && AddressStep(d, key, ddr, entry, committed, d') && Spare(HeaderOf(d))
    ensures Consistent(d') && Spare(HeaderOf(d'))
  {
    AddressRefines(d, key, ddr, entry, committed, d');
  }

  lemma StepKeepsSpare(d: seq<byte>, e: Event, d': seq<byte>)
    requires Consistent(d) && Step(d, e, d') && Spare(HeaderOf(d)) && LeavesSpare(e)
    ensures Consistent(d') && Spare(HeaderOf(d'))
  {
    var key := NamedKey(e.op.name);
    if key.Some? {
      NamedKeyClass(e.op.name);
      StepRefines(d, e, d');
      match e.op
      case Flash(_, data) => FlashKeepsSpare(d, data, key.value, e.committed, d');
      case Invalidate(_) => AddressKeepsSpare(d, key.value, 0, 0, e.committed, d');
      case Restore(_) => AddressKeepsSpare(d, key.value, DDR_LOAD_ADDX, ENTRY_POINT, e.committed, d');
    }
  }

  lemma StepKeepsFirstFw(m: map<Key, Entry>, e: Event)
    requires FirstFwOnly(m)
    ensures FirstFwOnly(MapStep(m, e))
  {
    if NamedKey(e.op.name).Some? { NamedKeyClass(e.op.name); }
  }

  lemma {:induction false} RunKeepsSpare(ds: seq<seq<byte>>, es: seq<Event>, k: nat)
    requires IsRun(ds, es) && k <= |es| && Spare(HeaderOf(ds[0])) && FirstFwOnly(AsMap(View(ds[0])))
    requires forall i :: 0 <= i < |es| ==> LeavesSpare(es[i])
    ensures Consistent(ds[k]) && Spare(HeaderOf(ds[k])) && FirstFwOnly(AsMap(View(ds[k])))
  {
    if k > 0 {
      RunKeepsSpare(ds, es, k - 1);
      StepKeepsSpare(ds[k - 1], es[k - 1], ds[k]);
      StepRefines(ds[k - 1], es[k - 1], ds[k]);
      StepKeepsFirstFw(AsMap(View(ds[k - 1])), es[k - 1]);
    }
  }

  /** After any run whose committed images leave two sectors of their slots
      unused, whatever was refused or interrupted, every name that has or may
      get a position can be flashed again with any image that fits. */
  lemma RunNeverStarves(ds: seq<seq<byte>>, es: seq<Event>, name: string, data: seq<byte>)
    requires IsRun(ds, es) && Slotted(HeaderOf(ds[0])) && Spare(HeaderOf(ds[0]))
    requires FirstFwOnly(AsMap(View(ds[0]))) && forall i :: 0 <= i < |es| ==> LeavesSpare(es[i])
    requires NamedKey(name).Some? && |data| >= HEADER_BYTES
    ensures Consistent(ds[|es|]) && NamedKey(name).value.cls % 2 == 0
    ensures var h, key := HeaderOf(ds[|es|]), NamedKey(name).value;
            PlanFlash(h, data, key).Some?
            <==> && WellFormedImage(data) && ImageRecord(data).size <= MaxLba(key.cls)
                 && 0 <= IndexFor(h, key) < MAX_DESC
  {
    NamedKeyClass(name);
    RunKeepsSlots(ds, es, |es|);
    RunKeepsSpare(ds, es, |es|);
    FirstFwIsSingle(ds[|es|]);
    FlashNeverStarves(HeaderOf(ds[|es|]), data, NamedKey(name).value);
  }
}
