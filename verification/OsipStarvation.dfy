/**
 A run that uses up all nine OS slots with five images: why the promise of an
 always available slot needs images that leave two sectors of theirs unused.
 */
module OsipStarvation {
  import opened Options
  import opened Bytes
  import opened OsipFormat
  import opened OsipSlots
  import opened OsipView
  import opened OsipStore
  import opened OsipCommit
  import opened OsipRuns
  import opened OsipInvariants
  import opened OsipDevice

  /** One sector less than a slot. */
  const BIG := OS_MAX_LBA - 1

  predicate BigImage(data: seq<byte>) {
    |data| == (BIG + 1) * LBA_SIZE && data[8] == 1 && ImageRecord(data).size == BIG
  }

  /** A file of that size, zero except for its count and its size. */
  function SomeImage(): seq<byte> {
    seq((BIG + 1) * LBA_SIZE, i => if i == 8 then 1 else if i == 48 then 0xFF else if i == 49 then 0x7C else 0)
  }

  lemma SomeImageIsBig()
    ensures BigImage(SomeImage())
  {
    var data := SomeImage();
    var record := data[32..56];
    assert record[16] == 0xFF && record[17] == 0x7C && record[18] == 0 && record[19] == 0;
  }

  lemma BigIsWellFormed(data: seq<byte>)
    requires BigImage(data)
    ensures |data| >= HEADER_BYTES && WellFormedImage(data) && ImageRecord(data).size <= OS_MAX_LBA
  {
  }

  function Name(k: nat): string
    requires k < 5
  {
    if k == 0 then "boot" else if k == 1 then "recovery" else if k == 2 then "fastboot"
    else if k == 3 then "splashscreen" else "ramdump"
  }

  function ClassAt(k: nat): byte
    requires k < 5
  {
    if k == 0 then SIGNED_KERNEL else if k == 1 then SIGNED_ROS else if k == 2 then SIGNED_POS
    else if k == 3 then SIGNED_SPLASHSCREEN else SIGNED_RAMDUMPOS
  }

  lemma NamedAt(k: nat)
    requires k < 5
    ensures NamedKey(Name(k)) == Some(Key(ClassAt(k), 1))
  {
  }

  lemma ClassesDiffer(i: nat, k: nat)
    requires i < k < 5
    ensures ClassAt(i) != ClassAt(k) && GoesToOsSlot(ClassAt(k)) && ClassAt(k) % 2 == 0
  {
  }

  /** `k` big images in every other slot, in the order of the names. */
  ghost predicate Alternate(h: Header, k: nat) {
    && k <= 5 && Slotted(h) && h.numPointers == k
    && forall i :: 0 <= i < k ==>
         h.desc[i].lba == 4050 + 64000 * i && h.desc[i].size == BIG && Class(h.desc[i].attribute) == ClassAt(i)
  }

  // ---------------------------------------------------------------- the next slot and the next index

  lemma AlternateBlocks(h: Header, k: nat, j: nat)
    requires Alternate(h, k) && k < 5 && j <= 2 * k
    ensures Blocked(h, OS_SLOTS[j]) <==> j < 2 * k
  {
    SlotValues(j);
    if j < 2 * k {
      var i := j / 2;
      AlternateAt(h, k, i);
      assert Blocks(h.desc[i], OS_SLOTS[j]);
    } else {
      forall i | 0 <= i < k ensures !Blocks(h.desc[i], OS_SLOTS[j]) {
        AlternateAt(h, k, i);
      }
    }
  }

  lemma AlternateAt(h: Header, k: nat, i: nat)
    requires Alternate(h, k) && i < k
    ensures h.desc[i].lba == 4050 + 64000 * i && h.desc[i].size == BIG
    ensures MaxLba(Class(h.desc[i].attribute)) == OS_MAX_LBA
  {
    assert h.desc[i].lba == 4050 + 64000 * i;
  }

  /** The search skips the slot behind each image. */
  lemma AlternateSlot(h: Header, k: nat, c: byte, slots: seq<nat>)
    requires Alternate(h, k) && k < 5 && GoesToOsSlot(c) && slots == SlotsOf(c)
    ensures FreeLba(c, h) == slots[2 * k]
  {
    FreeSlotsUnblocked(h, c, slots);
    forall j | 0 <= j <= 2 * k ensures Free(h, slots[j], MaxLba(c)) <==> j == 2 * k {
      AlternateBlocks(h, k, j);
    }
    SlotsAreNonzero(c, slots);
    LowestFree(slots, MaxLba(c), h, 2 * k);
  }

  lemma AlternateFree(h: Header, k: nat)
    requires Alternate(h, k) && k < 5
    ensures ClassAt(k) % 2 == 0 && GoesToOsSlot(ClassAt(k)) && FreeLba(ClassAt(k), h) == 4050 + 64000 * k
  {
    AlternateSlot(h, k, ClassAt(k), SlotsOf(ClassAt(k)));
    SlotValues(2 * k);
  }

  lemma LowestFree(slots: seq<nat>, slotSize: nat, h: Header, n: nat)
    requires h.numPointers <= MAX_DESC && n < |slots| && forall j :: 0 <= j < |slots| ==> slots[j] != 0
    requires forall j :: 0 <= j <= n ==> (Free(h, slots[j], slotSize) <==> j == n)
    ensures FirstFree(slots, slotSize, h) == slots[n]
  {
    FirstFreeMeaning(slots, slotSize, h);
    assert Free(h, slots[n], slotSize);
    var j :| 0 <= j < |slots| && slots[j] == FirstFree(slots, slotSize, h)
             && Free(h, slots[j], slotSize) && forall k :: 0 <= k < j ==> !Free(h, slots[k], slotSize);
    assert j <= n;
  }

  lemma {:induction false} CountNone(attrs: seq<byte>, c: byte)
    requires forall i :: 0 <= i < |attrs| ==> Class(attrs[i]) != c
    ensures Count(attrs, c) == 0
  {
    if |attrs| > 0 { CountNone(attrs[..|attrs| - 1], c); }
  }

  lemma AlternateIndex(h: Header, k: nat)
    requires Alternate(h, k) && k < 5
    ensures IndexFor(h, Key(ClassAt(k), 1)) == k
  {
    var attrs := LiveAttrs(h);
    forall i | 0 <= i < |attrs| ensures Class(attrs[i]) != ClassAt(k) {
      ClassesDiffer(i, k);
    }
    CountNone(attrs, ClassAt(k));
    LookupMeaning(attrs, Key(ClassAt(k), 1));
  }

  // ---------------------------------------------------------------- the run

  /** Any planned flash can go through. */
  lemma FlashCanCommit(d: seq<byte>, data: seq<byte>, key: Key) returns (d': seq<byte>)
    requires Consistent(d) && key.cls % 2 == 0 && LBA_SIZE <= |data| < 0x1_0000_0000
    requires PlanFlash(HeaderOf(d), data, key).Some?
    ensures FlashStep(d, data, key, true, d')
  {
    var h := HeaderOf(d);
    var plan, payload := PlanFlash(h, data, key).value, data[LBA_SIZE..];
    FlashPlanShape(h, Sectors(d), data, key);
    PlannedLength(h, data, key);
    d' := Committed(d, plan, payload);
  }

  lemma Committed(d: seq<byte>, plan: Plan, payload: seq<byte>) returns (d': seq<byte>)
    requires |d| >= SLOTS_END * LBA_SIZE && InSlot(plan.record) && |payload| == plan.record.size * LBA_SIZE
    ensures Finished(d, plan, payload, d')
  {
    InSlotInRange(plan.record);
    var at := plan.record.lba * LBA_SIZE;
    var d1 := Splice(d, at, payload);
    SpliceReadsBack(d, at, payload);
    d' := Splice(d1, 0, Encode(plan.header));
    CommitFinishes(d, plan, payload, d1, d');
  }

  lemma PlanFound(h: Header, data: seq<byte>, key: Key)
    requires h.numPointers <= MAX_DESC && TailReusable(h) && |data| >= HEADER_BYTES && key.cls % 2 == 0
    requires GoesToOsSlot(key.cls) && 0 <= IndexFor(h, key) < MAX_DESC && FreeLba(key.cls, h) != 0
    requires WellFormedImage(data) && ImageRecord(data).size <= OS_MAX_LBA
    ensures PlanFlash(h, data, key).Some?
    ensures var r := PlanFlash(h, data, key).value.record;
            r.lba == FreeLba(key.cls, h) && r.size == ImageRecord(data).size && Class(r.attribute) == key.cls
  {
    RetaggedRecord(data, key.cls);
    NamedWriteOverwrites(h, key);
  }

  /** The next big image is accepted, for the slot after next. */
  lemma AlternatePlan(h: Header, k: nat, data: seq<byte>, key: Key)
    requires Alternate(h, k) && k < 5 && BigImage(data) && key == Key(ClassAt(k), 1)
    ensures key.cls % 2 == 0 && PlanFlash(h, data, key).Some?
    ensures var r := PlanFlash(h, data, key).value.record;
            r.lba == 4050 + 64000 * k && r.size == BIG && Class(r.attribute) == ClassAt(k)
  {
    AlternateIndex(h, k);
    AlternateFree(h, k);
    BigIsWellFormed(data);
    PlanFound(h, data, key);
  }

  lemma AlternateNext(h: Header, sectors: nat, k: nat, data: seq<byte>, key: Key)
    requires Placed(h, sectors) && sectors <= MAX_SECTORS
    requires Alternate(h, k) && k < 5 && BigImage(data) && key == Key(ClassAt(k), 1)
    ensures key.cls % 2 == 0 && PlanFlash(h, data, key).Some?
    ensures Alternate(PlanFlash(h, data, key).value.header, k + 1)
  {
    AlternatePlan(h, k, data, key);
    AlternateIndex(h, k);
    FlashPlanShape(h, sectors, data, key);
    PlannedIsSlotted(h, sectors, data, key);
    var plan := PlanFlash(h, data, key).value;
    AlternateReplaced(h, k, plan.record, plan.header);
  }

  lemma AlternateReplaced(h: Header, k: nat, o: Osii, g: Header)
    requires Alternate(h, k) && k < 5 && Replaces(h, k, o, g) && Slotted(g)
    requires o.lba == 4050 + 64000 * k && o.size == BIG && Class(o.attribute) == ClassAt(k)
    ensures Alternate(g, k + 1)
  {
  }

  lemma AlternateFlash(d: seq<byte>, k: nat, data: seq<byte>) returns (d': seq<byte>)
    requires Consistent(d) && Alternate(HeaderOf(d), k) && k < 5 && BigImage(data)
    ensures Step(d, FlashOf(k, data), d')
    ensures Consistent(d') && Alternate(HeaderOf(d'), k + 1)
  {
    var key := Key(ClassAt(k), 1);
    NamedAt(k);
    AlternateNext(HeaderOf(d), Sectors(d), k, data, key);
    d' := FlashCanCommit(d, data, key);
    FlashRefines(d, data, key, true, d');
    FlashHeader(d, data, key, true, d');
  }

  function FlashOf(k: nat, data: seq<byte>): Event
    requires k < 5
  {
    Event(Flash(Name(k), data), true)
  }

  ghost predicate FlashesInOrder(es: seq<Event>, data: seq<byte>) {
    |es| <= 5 && forall i :: 0 <= i < |es| ==> es[i] == FlashOf(i, data)
  }

  /** A run of `k` flashes from `d` that has filled every other slot so far. */
  ghost predicate Starving(d: seq<byte>, data: seq<byte>, k: nat, ds: seq<seq<byte>>, es: seq<Event>) {
    && IsRun(ds, es) && ds[0] == d && |es| == k && FlashesInOrder(es, data)
    && Consistent(ds[k]) && Alternate(HeaderOf(ds[k]), k)
  }

  lemma StarvingNext(d: seq<byte>, data: seq<byte>, k: nat, ds: seq<seq<byte>>, es: seq<Event>)
    returns (ds': seq<seq<byte>>, es': seq<Event>)
    requires Starving(d, data, k, ds, es) && k < 5 && BigImage(data)
    ensures Starving(d, data, k + 1, ds', es')
  {
    var e := FlashOf(k, data);
    var d' := AlternateFlash(ds[k], k, data);
    ds', es' := Appended(ds, es, e, d');
    assert ds'[k + 1] == d' && ds'[0] == ds[0];
    InOrderNext(es, data, es', e);
  }

  lemma InOrderNext(es: seq<Event>, data: seq<byte>, es': seq<Event>, e: Event)
    requires FlashesInOrder(es, data) && |es| < 5 && e == FlashOf(|es|, data) && es' == es + [e]
    ensures FlashesInOrder(es', data)
  {
  }

  lemma {:induction false} AlternateRun(d: seq<byte>, k: nat, data: seq<byte>)
    returns (ds: seq<seq<byte>>, es: seq<Event>)
    requires Consistent(d) && Alternate(HeaderOf(d), 0) && k <= 5 && BigImage(data)
    ensures Starving(d, data, k, ds, es)
  {
    if k == 0 {
      ds, es := [d], [];
    } else {
      ds, es := AlternateRun(d, k - 1, data);
      ds, es := StarvingNext(d, data, k - 1, ds, es);
    }
  }

  lemma Appended(ds: seq<seq<byte>>, es: seq<Event>, e: Event, d': seq<byte>)
    returns (ds': seq<seq<byte>>, es': seq<Event>)
    requires IsRun(ds, es) && Consistent(ds[|es|]) && Step(ds[|es|], e, d')
    ensures IsRun(ds', es') && ds' == ds + [d'] && es' == es + [e]
  {
    ds', es' := ds + [d'], es + [e];
    forall i | 0 <= i < |es'| ensures Consistent(ds'[i]) ==> Step(ds'[i], es'[i], ds'[i + 1]) {
      AppendedAt(ds, es, e, d', i, ds'[i], es'[i], ds'[i + 1]);
    }
  }

  lemma AppendedAt(ds: seq<seq<byte>>, es: seq<Event>, e: Event, d': seq<byte>, i: nat,
                   a: seq<byte>, f: Event, b: seq<byte>)
    requires IsRun(ds, es) && Consistent(ds[|es|]) && Step(ds[|es|], e, d') && i <= |es|
    requires a == ds[i] && f == (es + [e])[i] && b == (ds + [d'])[i + 1]
    ensures Consistent(a) ==> Step(a, f, b)
  {
    if i < |es| && Consistent(a) {
      OldStep(ds, es, i, a, f, b);
    }
  }

  lemma OldStep(ds: seq<seq<byte>>, es: seq<Event>, i: nat, a: seq<byte>, e: Event, b: seq<byte>)
    requires IsRun(ds, es) && i < |es| && a == ds[i] && e == es[i] && b == ds[i + 1] && Consistent(a)
    ensures Step(a, e, b)
  {
  }

  /** From an erased disk, five flashes of images one sector smaller than a slot
      all succeed, and after them no OS image can be flashed any more, not even
      to replace one of the five. */
  lemma FiveFlashesStarve(d: seq<byte>) returns (ds: seq<seq<byte>>, es: seq<Event>)
    requires |d| >= SLOTS_END * LBA_SIZE
    ensures IsRun(ds, es) && |es| == 5 && View(ds[0]) == [] && Consistent(ds[5])
    ensures FlashesInOrder(es, SomeImage())
    ensures forall data: seq<byte>, key: Key | |data| >= HEADER_BYTES && key.cls % 2 == 0 && GoesToOsSlot(key.cls) ::
              PlanFlash(HeaderOf(ds[5]), data, key).None?
  {
    var g := Sealed(ZERO_HEADER);
    ErasedStore(d, g);
    var e := Splice(d, 0, Encode(g));
    SomeImageIsBig();
    ds, es := AlternateRun(e, 5, SomeImage());
    forall data: seq<byte>, key: Key | |data| >= HEADER_BYTES && key.cls % 2 == 0 && GoesToOsSlot(key.cls)
      ensures PlanFlash(HeaderOf(ds[5]), data, key).None?
    {
      StarvedRefuses(HeaderOf(ds[5]), data, key);
    }
  }

  lemma StarvedRefuses(h: Header, data: seq<byte>, key: Key)
    requires Alternate(h, 5) && |data| >= HEADER_BYTES && key.cls % 2 == 0 && GoesToOsSlot(key.cls)
    ensures PlanFlash(h, data, key).None?
  {
    forall i | 0 <= i < 5 ensures h.desc[i].lba == OS_SLOTS[2 * i] {
      SlotValues(2 * i);
    }
    FiveImagesStarve(h, key.cls);
    RetaggedRecord(data, key.cls);
  }
}
