/**
 Whole runs of the store, with power cuts and input/output errors anywhere.
 The disk refines a map from names to images.
 */
module OsipRuns {
  import opened Options
  import opened Bytes
  import opened OsipFormat
  import opened OsipSlots
  import opened OsipView
  import opened OsipStore
  import opened OsipCommit

  /** The operations of the store, named as their callers name them. */
  datatype Op =
    | Flash(name: string, data: seq<byte>)
    | Invalidate(name: string)
    | Restore(name: string)

  /** One attempt: it commits when its header reaches the disk, and it does not
      when it is refused, fails or loses power before that. */
  datatype Event = Event(op: Op, committed: bool)

  lemma NamedKeyClass(name: string)
    requires NamedKey(name).Some?
    ensures var c := NamedKey(name).value.cls; c % 2 == 0 && (GoesToOsSlot(c) || IsFw(c))
    ensures NamedKey(name).value.instance >= 1
  {
  }

  // ---------------------------------------------------------------- one attempt on the disk

  function WithAddresses(h: Header, index: nat, ddr: u32, entry: u32): Header
    requires index < MAX_DESC
  {
    h.(desc := h.desc[index := h.desc[index].(ddr := ddr, entry := entry)])
  }

  /** `update_osii` as a change of the disk. */
  ghost predicate AddressStep(d: seq<byte>, key: Key, ddr: u32, entry: u32, committed: bool, d': seq<byte>)
    requires Consistent(d)
  {
    var h := HeaderOf(d);
    var index := Lookup(LiveAttrs(h), key);
    if committed
    then index >= 0 && d' == Splice(d, 0, Encode(Sealed(WithAddresses(h, index, ddr, entry))))
    else d' == d
  }

  ghost predicate FlashStep(d: seq<byte>, data: seq<byte>, key: Key, committed: bool, d': seq<byte>)
    requires Consistent(d) && key.cls % 2 == 0 && |data| >= HEADER_BYTES
  {
    var plan := PlanFlash(HeaderOf(d), data, key);
    if committed
    then plan.Some? && |data| >= LBA_SIZE && Finished(d, plan.value, data[LBA_SIZE..], d')
    else Unfinished(d, plan, d')
  }

  ghost predicate KeyStep(d: seq<byte>, op: Op, key: Key, committed: bool, d': seq<byte>)
    requires Consistent(d) && key.cls % 2 == 0
  {
    match op
    case Flash(_, data) => HEADER_BYTES <= |data| < 0x1_0000_0000 && FlashStep(d, data, key, committed, d')
    case Invalidate(_) => AddressStep(d, key, 0, 0, committed, d')
    case Restore(_) => AddressStep(d, key, DDR_LOAD_ADDX, ENTRY_POINT, committed, d')
  }

  ghost predicate Step(d: seq<byte>, e: Event, d': seq<byte>)
    requires Consistent(d)
  {
    var key := NamedKey(e.op.name);
    if key.None? then d' == d && !e.committed
    else
      NamedKeyClass(e.op.name);
      KeyStep(d, e.op, key.value, e.committed, d')
  }

  // ---------------------------------------------------------------- one attempt on the map

  predicate Invalidated(m: map<Key, Entry>, key: Key) {
    key in m && m[key].ddr == 0 && m[key].entry == 0
  }

  /** The entry a committed flash stores: the image, with the class of its name,
      and still invalidated if the name was. */
  function Stored(m: map<Key, Entry>, key: Key, data: seq<byte>): Entry
    requires |data| >= LBA_SIZE && key.cls % 2 == 0
  {
    var o := ImageRecord(data);
    var e := Entry(o.revMinor, o.revMajor, o.ddr, o.entry, key.cls + o.attribute % 2, o.reserved,
                   data[LBA_SIZE..]);
    if Invalidated(m, key) then e.(ddr := 0, entry := 0) else e
  }

  lemma StoredClass(m: map<Key, Entry>, key: Key, data: seq<byte>)
    requires |data| >= LBA_SIZE && key.cls % 2 == 0
    ensures Class(Stored(m, key, data).attribute) == key.cls
  {
    ClassOfTagged(key.cls, ImageRecord(data).attribute);
  }

  function MapCommit(m: map<Key, Entry>, op: Op, key: Key): map<Key, Entry>
    requires key.cls % 2 == 0
  {
    match op
    case Flash(_, data) => if |data| < LBA_SIZE then m else m[key := Stored(m, key, data)]
    case Invalidate(_) => if key !in m then m else m[key := m[key].(ddr := 0, entry := 0)]
    case Restore(_) =>
      if key !in m then m else m[key := m[key].(ddr := DDR_LOAD_ADDX, entry := ENTRY_POINT)]
  }

  function MapStep(m: map<Key, Entry>, e: Event): map<Key, Entry> {
    var key := NamedKey(e.op.name);
    if key.None? || !e.committed then m
    else
      NamedKeyClass(e.op.name);
      MapCommit(m, e.op, key.value)
  }

  // ---------------------------------------------------------------- refinement of one attempt

  /** An accepted image is as long as its record says. */
  lemma PlannedLength(h: Header, data: seq<byte>, key: Key)
    requires h.numPointers <= MAX_DESC && TailReusable(h)
    requires |data| >= HEADER_BYTES && |data| < 0x1_0000_0000 && key.cls % 2 == 0
    requires PlanFlash(h, data, key).Some?
    ensures |data| == (1 + ImageRecord(data).size) * LBA_SIZE
    ensures PlanFlash(h, data, key).value.record.size == ImageRecord(data).size
  {
    RetaggedRecord(data, key.cls);
    SectorLength(ImageRecord(data).size, |data|);
  }

  lemma SectorLength(size: nat, length: nat)
    requires size <= OS_MAX_LBA && HEADER_BYTES <= length < 0x1_0000_0000
    requires (size * LBA_SIZE) % 0x1_0000_0000 == (length - LBA_SIZE) % 0x1_0000_0000
    ensures length == (1 + size) * LBA_SIZE
  {
  }

  lemma FlashPlanShape(h: Header, sectors: nat, data: seq<byte>, key: Key)
    requires Placed(h, sectors) && sectors <= MAX_SECTORS && |data| >= HEADER_BYTES && key.cls % 2 == 0
    requires PlanFlash(h, data, key).Some?
    ensures var plan := PlanFlash(h, data, key).value;
            && Roomy(h, plan) && plan.index == IndexFor(h, key)
            && Replaces(h, plan.index, plan.record, plan.header) && Crc(plan.header) == 0
            && Class(plan.record.attribute) == key.cls
  {
    RetaggedRecord(data, key.cls);
    NamedWriteOverwrites(h, key);
    PlanShape(h, sectors, Retagged(data, key.cls), IndexFor(h, key));
  }

  lemma FlashRecord(h: Header, data: seq<byte>, key: Key)
    requires h.numPointers <= MAX_DESC && TailReusable(h)
    requires |data| >= HEADER_BYTES && key.cls % 2 == 0
    requires PlanFlash(h, data, key).Some?
    ensures var plan, o := PlanFlash(h, data, key).value, ImageRecord(data);
            plan.record == PreparedRecord(h, IndexFor(h, key), o.(attribute := key.cls + o.attribute % 2),
                                          plan.record.lba)
  {
    RetaggedRecord(data, key.cls);
  }

  /** The descriptor a named flash replaces is invalidated exactly when the name is. */
  lemma InvalidatedAt(d: seq<byte>, key: Key)
    requires Consistent(d) && 0 <= IndexFor(HeaderOf(d), key) < MAX_DESC
    ensures var h := HeaderOf(d);
            var i := IndexFor(h, key);
            Invalidated(AsMap(View(d)), key)
            <==> i < h.numPointers && h.desc[i].ddr == 0 && h.desc[i].entry == 0
  {
    var h, v := HeaderOf(d), View(d);
    ViewAttrs(d);
    MapLookup(v, key);
    LookupMeaning(LiveAttrs(h), key);
  }

  lemma StoredEntry(d: seq<byte>, data: seq<byte>, key: Key, d': seq<byte>)
    requires Consistent(d) && key.cls % 2 == 0 && HEADER_BYTES <= |data| < 0x1_0000_0000
    requires FlashStep(d, data, key, true, d')
    ensures EntryOf(d', PlanFlash(HeaderOf(d), data, key).value.record) == Stored(AsMap(View(d)), key, data)
  {
    var h := HeaderOf(d);
    FlashRecord(h, data, key);
    InvalidatedAt(d, key);
  }

  lemma CommitRefines(d: seq<byte>, data: seq<byte>, key: Key, d': seq<byte>)
    requires Consistent(d) && key.cls % 2 == 0 && HEADER_BYTES <= |data| < 0x1_0000_0000
    requires FlashStep(d, data, key, true, d')
    ensures Consistent(d') && WriteIndex(Attrs(View(d)), key) >= 0
    ensures View(d') == Put(View(d), WriteIndex(Attrs(View(d)), key), Stored(AsMap(View(d)), key, data))
  {
    var h := HeaderOf(d);
    var plan := PlanFlash(h, data, key).value;
    FlashPlanShape(h, Sectors(d), data, key);
    FinishedShowsNew(d, plan, data[LBA_SIZE..], d');
    StoredEntry(d, data, key, d');
    ViewAttrs(d);
  }

  /** The disk shows the image under its name, at its position, and all else as before. */
  ghost predicate Updated(d: seq<byte>, data: seq<byte>, key: Key, d': seq<byte>)
    requires Consistent(d) && Consistent(d') && key.cls % 2 == 0
  {
    && |data| >= LBA_SIZE && WriteIndex(Attrs(View(d)), key) >= 0
    && View(d') == Put(View(d), WriteIndex(Attrs(View(d)), key), Stored(AsMap(View(d)), key, data))
    && AsMap(View(d')) == AsMap(View(d))[key := Stored(AsMap(View(d)), key, data)]
  }

  lemma CommitUpdatesMap(d: seq<byte>, data: seq<byte>, key: Key, d': seq<byte>)
    requires Consistent(d) && key.cls % 2 == 0 && HEADER_BYTES <= |data| < 0x1_0000_0000
    requires FlashStep(d, data, key, true, d')
    ensures Consistent(d') && Updated(d, data, key, d')
  {
    CommitRefines(d, data, key, d');
    StoredClass(AsMap(View(d)), key, data);
    PutIsMapUpdate(View(d), key, Stored(AsMap(View(d)), key, data));
  }

  /** A committed flash updates the map at its name; an uncommitted one changes nothing. */
  lemma FlashRefines(d: seq<byte>, data: seq<byte>, key: Key, committed: bool, d': seq<byte>)
    requires Consistent(d) && key.cls % 2 == 0 && HEADER_BYTES <= |data| < 0x1_0000_0000
    requires FlashStep(d, data, key, committed, d')
    ensures Consistent(d')
    ensures !committed ==> View(d') == View(d)
    ensures committed ==> Updated(d, data, key, d')
  {
    if committed {
      CommitUpdatesMap(d, data, key, d');
    } else {
      NoCommitRefines(d, data, key, d');
    }
  }

  lemma NoCommitRefines(d: seq<byte>, data: seq<byte>, key: Key, d': seq<byte>)
    requires Consistent(d) && key.cls % 2 == 0 && HEADER_BYTES <= |data| < 0x1_0000_0000
    requires FlashStep(d, data, key, false, d')
    ensures Consistent(d') && View(d') == View(d)
  {
    var plan := PlanFlash(HeaderOf(d), data, key);
    if plan.Some? {
      FlashPlanShape(HeaderOf(d), Sectors(d), data, key);
    }
    UnfinishedShowsOld(d, plan, d');
  }

  lemma SealedAddresses(h: Header, index: nat, ddr: u32, entry: u32)
    requires index < MAX_DESC
    ensures var g := Sealed(WithAddresses(h, index, ddr, entry));
            && Crc(g) == 0 && g.numPointers == h.numPointers
            && g.desc == h.desc[index := h.desc[index].(ddr := ddr, entry := entry)]
  {
    SealedPasses(WithAddresses(h, index, ddr, entry));
  }

  lemma HeaderReplaced(d: seq<byte>, g: Header)
    requires |d| >= HEADER_BYTES
    ensures HeaderOf(Splice(d, 0, Encode(g))) == g
  {
    SpliceReadsBack(d, 0, Encode(g));
    assert Splice(d, 0, Encode(g))[..HEADER_BYTES] == Encode(g);
    HeaderRoundTrip(g);
  }

  /** An erased header makes an empty store, from which any run may start. */
  lemma ErasedStore(d: seq<byte>, g: Header)
    requires |d| >= SLOTS_END * LBA_SIZE && g == Sealed(ZERO_HEADER)
    ensures var e := Splice(d, 0, Encode(g));
            Consistent(e) && View(e) == [] && Slotted(HeaderOf(e)) && Spare(HeaderOf(e))
  {
    SealedPasses(ZERO_HEADER);
    assert forall i :: 0 <= i < MAX_DESC ==> g.desc[i] == ZERO_OSII;
    EmptyHeader(d, g, Splice(d, 0, Encode(g)));
  }

  lemma EmptyHeader(d: seq<byte>, g: Header, e: seq<byte>)
    requires |d| >= SLOTS_END * LBA_SIZE && e == Splice(d, 0, Encode(g)) && Crc(g) == 0
    requires g.numPointers == 0 && forall i :: 0 <= i < MAX_DESC ==> g.desc[i] == ZERO_OSII
    ensures Consistent(e) && View(e) == [] && Slotted(HeaderOf(e)) && Spare(HeaderOf(e))
  {
    HeaderReplaced(d, g);
    EmptyIsSlotted(g);
    SlottedIsPlaced(g, Sectors(e));
  }

  lemma EmptyIsSlotted(h: Header)
    requires h.numPointers == 0 && forall i :: 0 <= i < MAX_DESC ==> h.desc[i] == ZERO_OSII
    ensures Slotted(h) && Spare(h)
  {
  }

  lemma HeaderReplacedPayload(d: seq<byte>, g: Header, o: Osii)
    requires |d| >= HEADER_BYTES && 1 <= o.lba && (o.lba + o.size) * LBA_SIZE <= |d|
    ensures Payload(Splice(d, 0, Encode(g)), o) == Payload(d, o)
  {
  }

  lemma EntryReplaced(d: seq<byte>, g: Header, o: Osii, p: Osii)
    requires |d| >= HEADER_BYTES && 1 <= o.lba && (o.lba + o.size) * LBA_SIZE <= |d|
    requires p == o.(ddr := p.ddr, entry := p.entry)
    ensures EntryOf(Splice(d, 0, Encode(g)), p) == EntryOf(d, o).(ddr := p.ddr, entry := p.entry)
  {
    HeaderReplacedPayload(d, g, o);
  }

  ghost predicate SamePlacement(h: Header, g: Header) {
    && g.numPointers == h.numPointers
    && forall i :: 0 <= i < MAX_DESC ==> g.desc[i].lba == h.desc[i].lba && g.desc[i].size == h.desc[i].size
                                         && g.desc[i].attribute == h.desc[i].attribute
  }

  lemma SamePlacementKeeps(h: Header, g: Header, sectors: nat)
    requires SamePlacement(h, g)
    ensures Placed(h, sectors) ==> Placed(g, sectors)
    ensures Slotted(h) ==> Slotted(g)
  {
  }

  /** A committed address change touches the two addresses of its name and nothing else. */
  lemma AddressRefines(d: seq<byte>, key: Key, ddr: u32, entry: u32, committed: bool, d': seq<byte>)
    requires Consistent(d) && AddressStep(d, key, ddr, entry, committed, d')
    ensures Consistent(d')
    ensures committed ==> key in AsMap(View(d))
    ensures var m := AsMap(View(d));
            AsMap(View(d')) == if committed then m[key := m[key].(ddr := ddr, entry := entry)] else m
    ensures SamePlacement(HeaderOf(d), HeaderOf(d'))
  {
    if committed {
      var h, v := HeaderOf(d), View(d);
      var i := Lookup(LiveAttrs(h), key);
      var g := Sealed(WithAddresses(h, i, ddr, entry));
      SealedAddresses(h, i, ddr, entry);
      ReaddressedPlacement(h, i, ddr, entry, g);
      HeaderSwapped(d, g, d');
      AddressView(d, i, ddr, entry, g, d');
      ViewAttrs(d);
      MapLookup(v, key);
      LookupMeaning(Attrs(v), key);
      assert WriteIndex(Attrs(v), key) == i;
      PutIsMapUpdate(v, key, v[i].(ddr := ddr, entry := entry));
    }
  }

  ghost predicate Readdressed(h: Header, i: nat, ddr: u32, entry: u32, g: Header) {
    && i < h.numPointers <= MAX_DESC && Crc(g) == 0 && g.numPointers == h.numPointers
    && g.desc == h.desc[i := h.desc[i].(ddr := ddr, entry := entry)]
  }

  lemma ReaddressedPlacement(h: Header, i: nat, ddr: u32, entry: u32, g: Header)
    requires Readdressed(h, i, ddr, entry, g)
    ensures SamePlacement(h, g)
  {
  }

  lemma HeaderSwapped(d: seq<byte>, g: Header, d': seq<byte>)
    requires Consistent(d) && SamePlacement(HeaderOf(d), g) && Crc(g) == 0 && d' == Splice(d, 0, Encode(g))
    ensures HeaderOf(d') == g && Consistent(d')
  {
    HeaderReplaced(d, g);
    SamePlacementKeeps(HeaderOf(d), g, Sectors(d));
  }

  lemma AddressEntry(d: seq<byte>, i: nat, ddr: u32, entry: u32, g: Header, d': seq<byte>, k: nat)
    requires Consistent(d) && Readdressed(HeaderOf(d), i, ddr, entry, g) && d' == Splice(d, 0, Encode(g))
    requires k < g.numPointers && HeaderOf(d') == g && Consistent(d')
    ensures View(d')[k] == if k == i then View(d)[k].(ddr := ddr, entry := entry) else View(d)[k]
  {
    EntryReplaced(d, g, HeaderOf(d).desc[k], g.desc[k]);
  }

  lemma AddressView(d: seq<byte>, i: nat, ddr: u32, entry: u32, g: Header, d': seq<byte>)
    requires Consistent(d) && Readdressed(HeaderOf(d), i, ddr, entry, g) && d' == Splice(d, 0, Encode(g))
    requires HeaderOf(d') == g && Consistent(d')
    ensures View(d') == View(d)[i := View(d)[i].(ddr := ddr, entry := entry)]
  {
    var v, v' := View(d), View(d');
    forall k | 0 <= k < |v| ensures v'[k] == if k == i then v[k].(ddr := ddr, entry := entry) else v[k] {
      AddressEntry(d, i, ddr, entry, g, d', k);
    }
  }

  lemma KeyStepRefines(d: seq<byte>, op: Op, key: Key, committed: bool, d': seq<byte>)
    requires Consistent(d) && key.cls % 2 == 0 && KeyStep(d, op, key, committed, d')
    ensures Consistent(d')
    ensures AsMap(View(d')) == if committed then MapCommit(AsMap(View(d)), op, key) else AsMap(View(d))
  {
    match op
    case Flash(_, data) => FlashRefines(d, data, key, committed, d');
    case Invalidate(_) => AddressRefines(d, key, 0, 0, committed, d');
    case Restore(_) => AddressRefines(d, key, DDR_LOAD_ADDX, ENTRY_POINT, committed, d');
  }

  /** Every attempt on the disk is the corresponding attempt on the map. */
  lemma StepRefines(d: seq<byte>, e: Event, d': seq<byte>)
    requires Consistent(d) && Step(d, e, d')
    ensures Consistent(d') && AsMap(View(d')) == MapStep(AsMap(View(d)), e)
  {
    var key := NamedKey(e.op.name);
    if key.Some? {
      NamedKeyClass(e.op.name);
      KeyStepRefines(d, e.op, key.value, e.committed, d');
    }
  }

  /** Power cuts: whatever part of a flash has reached the disk, in whatever
      order, the disk is usable and shows either all old images or, once the
      header has been replaced, the map with just the new image put in. */
  lemma PowerCutShowsOldOrNew(d: seq<byte>, name: string, data: seq<byte>, committed: bool, d': seq<byte>)
    requires Consistent(d) && Step(d, Event(Flash(name, data), committed), d')
    ensures Consistent(d')
    ensures !committed ==> View(d') == View(d)
    ensures committed ==> NamedKey(name).Some? && |data| >= LBA_SIZE && NamedKey(name).value.cls % 2 == 0
                          && AsMap(View(d')) == AsMap(View(d))[NamedKey(name).value
                                                               := Stored(AsMap(View(d)), NamedKey(name).value, data)]
  {
    if NamedKey(name).Some? {
      NamedKeyClass(name);
      FlashRefines(d, data, NamedKey(name).value, committed, d');
    }
  }

  // ---------------------------------------------------------------- runs

  /** `ds` lists the disk before, between and after the attempts `es`. */
  ghost predicate IsRun(ds: seq<seq<byte>>, es: seq<Event>) {
    && |ds| == |es| + 1
    && Consistent(ds[0])
    && forall i :: 0 <= i < |es| ==> Consistent(ds[i]) ==> Step(ds[i], es[i], ds[i + 1])
  }

  function Replay(m: map<Key, Entry>, es: seq<Event>): map<Key, Entry> {
    if |es| == 0 then m else MapStep(Replay(m, es[..|es| - 1]), es[|es| - 1])
  }

  lemma {:induction false} PrefixRefinesMap(ds: seq<seq<byte>>, es: seq<Event>, k: nat)
    requires IsRun(ds, es) && k <= |es|
    ensures Consistent(ds[k])
    ensures AsMap(View(ds[k])) == Replay(AsMap(View(ds[0])), es[..k])
  {
    if k > 0 {
      PrefixRefinesMap(ds, es, k - 1);
      assert es[..k][..k - 1] == es[..k - 1];
      StepRefines(ds[k - 1], es[k - 1], ds[k]);
    }
  }

  lemma RunConsistent(ds: seq<seq<byte>>, es: seq<Event>, k: nat)
    requires IsRun(ds, es) && k <= |es|
    ensures Consistent(ds[k])
  {
    PrefixRefinesMap(ds, es, k);
  }

  /** After any run the disk is usable and shows the map that the committed
      attempts build, whatever was interrupted in between. */
  lemma RunRefinesMap(ds: seq<seq<byte>>, es: seq<Event>)
    requires IsRun(ds, es)
    ensures Consistent(ds[|es|])
    ensures AsMap(View(ds[|es|])) == Replay(AsMap(View(ds[0])), es)
  {
    PrefixRefinesMap(ds, es, |es|);
    assert es[..|es|] == es;
  }

  predicate CommitsFlash(e: Event, key: Key) {
    e.committed && e.op.Flash? && |e.op.data| >= LBA_SIZE && NamedKey(e.op.name) == Some(key)
  }

  /** Position of the last committed flash of the name, or -1. */
  function LastFlash(es: seq<Event>, key: Key): (r: int)
    ensures -1 <= r < |es|
    ensures r >= 0 ==> CommitsFlash(es[r], key)
  {
    if |es| == 0 then -1
    else if CommitsFlash(es[|es| - 1], key) then |es| - 1
    else LastFlash(es[..|es| - 1], key)
  }

  /** Replaying attempts leaves under each name the payload flashed last, or the
      one that was there at the start. */
  lemma {:induction false} ReplayKeepsLast(m: map<Key, Entry>, es: seq<Event>, key: Key)
    ensures var j, r := LastFlash(es, key), Replay(m, es);
            && (j >= 0 ==> key in r && r[key].payload == es[j].op.data[LBA_SIZE..])
            && (j < 0 ==> (key in r <==> key in m) && (key in m ==> r[key].payload == m[key].payload))
  {
    if |es| > 0 {
      ReplayKeepsLast(m, es[..|es| - 1], key);
      var e := es[|es| - 1];
      if NamedKey(e.op.name).Some? { NamedKeyClass(e.op.name); }
    }
  }

  /** The store is a map: after any run, a name holds exactly the payload last
      flashed under it with success, or what it held at the start. */
  lemma NamesHoldLastFlashed(ds: seq<seq<byte>>, es: seq<Event>, key: Key)
    requires IsRun(ds, es)
    ensures Consistent(ds[|es|])
    ensures var m, m0, j := AsMap(View(ds[|es|])), AsMap(View(ds[0])), LastFlash(es, key);
            && (j >= 0 ==> key in m && m[key].payload == es[j].op.data[LBA_SIZE..])
            && (j < 0 ==> (key in m <==> key in m0) && (key in m0 ==> m[key].payload == m0[key].payload))
  {
    RunRefinesMap(ds, es);
    ReplayKeepsLast(AsMap(View(ds[0])), es, key);
  }

  predicate CommitsRestore(e: Event, key: Key) {
    e.committed && e.op.Restore? && NamedKey(e.op.name) == Some(key)
  }

  lemma InvalidationStep(m: map<Key, Entry>, e: Event, key: Key)
    requires Invalidated(m, key) && !CommitsRestore(e, key)
    ensures Invalidated(MapStep(m, e), key)
  {
  }

  lemma {:induction false} ReplayInvalidation(m: map<Key, Entry>, es: seq<Event>, key: Key)
    requires Invalidated(m, key) && forall i :: 0 <= i < |es| ==> !CommitsRestore(es[i], key)
    ensures Invalidated(Replay(m, es), key)
  {
    if |es| > 0 {
      ReplayInvalidation(m, es[..|es| - 1], key);
      InvalidationStep(Replay(m, es[..|es| - 1]), es[|es| - 1], key);
    }
  }

  /** An invalidated name stays invalidated through any number of flashes until
      it is restored. */
  lemma InvalidationPersists(ds: seq<seq<byte>>, es: seq<Event>, key: Key)
    requires IsRun(ds, es) && Invalidated(AsMap(View(ds[0])), key)
    requires forall i :: 0 <= i < |es| ==> !CommitsRestore(es[i], key)
    ensures Consistent(ds[|es|]) && Invalidated(AsMap(View(ds[|es|])), key)
  {
    RunRefinesMap(ds, es);
    ReplayInvalidation(AsMap(View(ds[0])), es, key);
  }
}
