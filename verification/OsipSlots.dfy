/**
 The fixed slots in which boot images live, what it means for images to be well
 placed in them, and the search for a free one.
 */
module OsipSlots {
  import opened Bytes
  import opened OsipFormat

  const FW_MAX_LBA := 2000
  const OS_MAX_LBA := 32000
  const FW_SLOTS: seq<nat> := [50, 2050]
  const OS_SLOTS: seq<nat> := [4050, 36050, 68050, 100050, 132050, 164050, 196050, 228050, 260050]

  /** First sector after the last slot. */
  const SLOTS_END := 292050

  /** Sectors below this bound have byte offsets that fit a signed 32-bit offset. */
  const MAX_SECTORS := 0x40_0000

  predicate IsFw(c: byte) { c == SIGNED_FW }

  predicate IsOs(c: byte) {
    || c == SIGNED_KERNEL || c == SIGNED_POS || c == SIGNED_COS
    || c == SIGNED_ROS || c == SIGNED_COMB || c == SIGNED_RAMDUMPOS
  }

  /** Classes the image writer places in an OS slot: splash screens too. */
  predicate GoesToOsSlot(c: byte) { IsOs(c) || c == SIGNED_SPLASHSCREEN }

  /** Classes of an old descriptor that the writer overwrites without looking further. */
  predicate Reusable(c: byte) { IsOs(c) || c == Class(NOT_USED) }

  function SlotsOf(c: byte): seq<nat> { if IsFw(c) then FW_SLOTS else OS_SLOTS }

  function MaxLba(c: byte): nat { if IsFw(c) then FW_MAX_LBA else OS_MAX_LBA }

  // ---------------------------------------------------------------- placement of images

  /** No sector belongs to both images. */
  predicate Apart(o: Osii, p: Osii) {
    o.lba + o.size <= p.lba || p.lba + p.size <= o.lba
  }

  /** No sector of the image lies in the slot. */
  predicate OutsideSlot(o: Osii, slot: nat, slotSize: nat) {
    o.lba + o.size <= slot || slot + slotSize <= o.lba
  }

  /** The image starts before the slot and reaches its last sector. */
  predicate Covers(o: Osii, slot: nat, slotSize: nat) {
    o.lba < slot && slot + slotSize <= o.lba + 1 + o.size
  }

  predicate CoversNoSlot(o: Osii) {
    && (forall j :: 0 <= j < |OS_SLOTS| ==> !Covers(o, OS_SLOTS[j], OS_MAX_LBA))
    && (forall j :: 0 <= j < |FW_SLOTS| ==> !Covers(o, FW_SLOTS[j], FW_MAX_LBA))
  }

  predicate TailReusable(h: Header) {
    forall i :: h.numPointers <= i < MAX_DESC ==> Reusable(Class(h.desc[i].attribute))
  }

  /** What the image store needs of a header, slot-aligned or not: images lie
      behind sector 0, inside the device and apart from each other, none
      swallows a slot, and unused descriptors can be overwritten. */
  ghost predicate Placed(h: Header, sectors: nat) {
    && h.numPointers <= MAX_DESC
    && (forall i :: 0 <= i < h.numPointers ==>
          1 <= h.desc[i].lba && h.desc[i].lba + h.desc[i].size <= sectors && CoversNoSlot(h.desc[i]))
    && (forall i, j :: 0 <= i < j < h.numPointers ==> Apart(h.desc[i], h.desc[j]))
    && TailReusable(h)
  }

  /** The image starts at a slot of its class and fits in it. */
  predicate InSlot(o: Osii) {
    var c := Class(o.attribute);
    (IsFw(c) || GoesToOsSlot(c)) && o.lba in SlotsOf(c) && o.size <= MaxLba(c)
  }

  /** The slot discipline: every live image in its own slot. */
  ghost predicate Slotted(h: Header) {
    && h.numPointers <= MAX_DESC
    && (forall i :: 0 <= i < h.numPointers ==> InSlot(h.desc[i]))
    && (forall i, j :: 0 <= i < j < h.numPointers ==> h.desc[i].lba != h.desc[j].lba)
    && TailReusable(h)
  }

  lemma SlottedIsPlaced(h: Header, sectors: nat)
    requires Slotted(h) && sectors >= SLOTS_END
    ensures Placed(h, sectors)
  {
    forall i | 0 <= i < h.numPointers ensures CoversNoSlot(h.desc[i]) {
      InSlotCoversNone(h.desc[i]);
    }
    forall i, j | 0 <= i < j < h.numPointers ensures Apart(h.desc[i], h.desc[j]) {
      DistinctSlotsApart(h.desc[i], h.desc[j]);
    }
  }

  lemma InSlotCoversNone(o: Osii)
    requires InSlot(o)
    ensures CoversNoSlot(o)
  {
  }

  lemma DistinctSlotsApart(o: Osii, p: Osii)
    requires InSlot(o) && InSlot(p) && o.lba != p.lba
    ensures Apart(o, p)
  {
  }

  // ---------------------------------------------------------------- free-slot search

  /** The test of the search loop, with its 32-bit sum. */
  predicate UsedBy(o: Osii, slot: nat, slotSize: nat) {
    var endLba := (o.lba + 1 + o.size) % 0x1_0000_0000;
    (slot <= o.lba < slot + slotSize) || (slot <= endLba < slot + slotSize)
  }

  predicate Free(h: Header, slot: nat, slotSize: nat)
    requires h.numPointers <= MAX_DESC
  {
    forall i :: 0 <= i < h.numPointers ==> !UsedBy(h.desc[i], slot, slotSize)
  }

  /** `get_free_lba`: the first slot that no live image uses, or 0. */
  method GetFreeLba(slots: seq<nat>, slotSize: nat, h: Header) returns (r: nat)
    requires h.numPointers <= MAX_DESC
    ensures r == FirstFree(slots, slotSize, h)
  {
    var freeslot := false;
    var j := 0;
    while j < |slots|
      invariant 0 <= j <= |slots|
      invariant !freeslot
      invariant FirstFree(slots, slotSize, h) == FirstFree(slots[j..], slotSize, h)
    {
      freeslot := true;
      var i := 0;
      while i < h.numPointers
        invariant 0 <= i <= h.numPointers
        invariant freeslot
        invariant forall k :: 0 <= k < i ==> !UsedBy(h.desc[k], slots[j], slotSize)
      {
        if UsedBy(h.desc[i], slots[j], slotSize) {
          freeslot := false;
          break;
        }
        i := i + 1;
      }
      if freeslot {
        break;
      }
      j := j + 1;
    }
    if !freeslot {
      return 0;
    }
    return slots[j];
  }

  function FirstFree(slots: seq<nat>, slotSize: nat, h: Header): nat
    requires h.numPointers <= MAX_DESC
  {
    if |slots| == 0 then 0
    else if Free(h, slots[0], slotSize) then slots[0]
    else FirstFree(slots[1..], slotSize, h)
  }

  /** Where an image of class `c` would go. */
  function FreeLba(c: byte, h: Header): nat
    requires h.numPointers <= MAX_DESC
  {
    FirstFree(SlotsOf(c), MaxLba(c), h)
  }

  /** The search answers 0 exactly when every slot is used, and otherwise the
      lowest-numbered free slot. */
  lemma {:induction false} FirstFreeMeaning(slots: seq<nat>, slotSize: nat, h: Header)
    requires h.numPointers <= MAX_DESC
    requires forall j :: 0 <= j < |slots| ==> slots[j] != 0
    ensures FirstFree(slots, slotSize, h) == 0
            <==> (forall j :: 0 <= j < |slots| ==> !Free(h, slots[j], slotSize))
    ensures FirstFree(slots, slotSize, h) != 0 ==>
              exists j :: 0 <= j < |slots| && slots[j] == FirstFree(slots, slotSize, h)
                          && Free(h, slots[j], slotSize)
                          && forall k :: 0 <= k < j ==> !Free(h, slots[k], slotSize)
  {
    if |slots| > 0 && !Free(h, slots[0], slotSize) {
      var rest := slots[1..];
      FirstFreeMeaning(rest, slotSize, h);
      if FirstFree(rest, slotSize, h) != 0 {
        var j :| 0 <= j < |rest| && rest[j] == FirstFree(rest, slotSize, h)
                 && Free(h, rest[j], slotSize)
                 && forall k :: 0 <= k < j ==> !Free(h, rest[k], slotSize);
        assert slots[j + 1] == rest[j];
        assert forall k :: 0 <= k < j + 1 ==> !Free(h, slots[k], slotSize) by {
          forall k | 0 <= k < j + 1 ensures !Free(h, slots[k], slotSize) {
            if k > 0 { assert slots[k] == rest[k - 1]; }
          }
        }
      } else {
        forall j | 0 <= j < |slots| ensures !Free(h, slots[j], slotSize) {
          if j > 0 { assert slots[j] == rest[j - 1]; }
        }
      }
    }
  }

  /** A slot reported free shares no sector with any live image, wherever the
      images lie, exactly when no image swallows the slot whole. */
  lemma FreeSlotIsOutside(h: Header, slot: nat, slotSize: nat)
    requires h.numPointers <= MAX_DESC && slotSize >= 2
    requires forall i :: 0 <= i < h.numPointers ==> h.desc[i].lba + 1 + h.desc[i].size < 0x1_0000_0000
    requires Free(h, slot, slotSize)
    ensures (forall i :: 0 <= i < h.numPointers ==> OutsideSlot(h.desc[i], slot, slotSize))
            <==> (forall i :: 0 <= i < h.numPointers ==> !Covers(h.desc[i], slot, slotSize))
  {
    forall i | 0 <= i < h.numPointers
      ensures OutsideSlot(h.desc[i], slot, slotSize) <==> !Covers(h.desc[i], slot, slotSize)
    {
      assert !UsedBy(h.desc[i], slot, slotSize);
    }
  }

  /** Images smaller than the slot never swallow it. */
  lemma SmallImageCoversNothing(o: Osii, slot: nat, slotSize: nat)
    requires o.size < slotSize
    ensures !Covers(o, slot, slotSize)
  {
  }

  /** Under the slot discipline a slot is used exactly by the image starting in
      it and by an image in the slot just before that fills all but at most one
      of its sectors. */
  lemma UsedExactly(o: Osii, c: byte, j: nat)
    requires InSlot(o) && j < |SlotsOf(c)|
    ensures var slot, m := SlotsOf(c)[j], MaxLba(Class(o.attribute));
            UsedBy(o, slot, MaxLba(c)) <==> o.lba == slot || (o.lba + m == slot && o.size >= m - 1)
  {
  }

  lemma {:induction false} Pigeonhole(slots: set<nat>, xs: seq<nat>)
    requires |slots| > |xs|
    ensures exists s :: s in slots && s !in xs
  {
    if |xs| == 0 {
      assert slots != {};
    } else {
      var x, rest := xs[|xs| - 1], xs[..|xs| - 1];
      Pigeonhole(slots - {x}, rest);
      var s :| s in slots - {x} && s !in rest;
      assert s !in xs;
    }
  }

  /** Every live image leaves two sectors of its slot unused. */
  ghost predicate Spare(h: Header)
    requires h.numPointers <= MAX_DESC
  {
    forall i :: 0 <= i < h.numPointers ==> h.desc[i].size <= MaxLba(Class(h.desc[i].attribute)) - 2
  }

  /** At most one live image is firmware. */
  ghost predicate SingleFw(h: Header)
    requires h.numPointers <= MAX_DESC
  {
    forall i, j :: 0 <= i < j < h.numPointers ==>
      !(IsFw(Class(h.desc[i].attribute)) && IsFw(Class(h.desc[j].attribute)))
  }

  /** With the slot discipline and every image leaving two sectors of its slot
      unused, an OS image always finds a slot: there is one more slot than
      descriptors. */
  lemma OsSlotAlwaysFree(h: Header, c: byte)
    requires Slotted(h) && GoesToOsSlot(c) && Spare(h)
    ensures FreeLba(c, h) in SlotsOf(c) && FreeLba(c, h) != 0
  {
    var lbas := seq(h.numPointers, i requires 0 <= i < h.numPointers => h.desc[i].lba as nat);
    var slots := OsSlotSet();
    Pigeonhole(slots, lbas);
    var s :| s in slots && s !in lbas;
    var j :| 0 <= j < |OS_SLOTS| && OS_SLOTS[j] == s;
    UnclaimedSlotIsFree(h, lbas, j);
    assert Free(h, SlotsOf(c)[j], MaxLba(c));
    FirstFreeMeaning(SlotsOf(c), MaxLba(c), h);
  }

  lemma OsSlotSet() returns (slots: set<nat>)
    ensures |slots| == 9 && forall s :: s in slots ==> s in OS_SLOTS
  {
    slots := {4050, 36050, 68050, 100050, 132050, 164050, 196050, 228050, 260050};
  }

  lemma UnclaimedSlotIsFree(h: Header, lbas: seq<nat>, j: nat)
    requires Slotted(h) && j < |OS_SLOTS|
    requires |lbas| == h.numPointers && forall i :: 0 <= i < |lbas| ==> lbas[i] == h.desc[i].lba
    requires Spare(h)
    requires OS_SLOTS[j] !in lbas
    ensures Free(h, OS_SLOTS[j], OS_MAX_LBA)
  {
    forall i | 0 <= i < h.numPointers ensures !UsedBy(h.desc[i], OS_SLOTS[j], OS_MAX_LBA) {
      assert lbas[i] == h.desc[i].lba;
      UsedExactly(h.desc[i], SIGNED_KERNEL, j);
    }
  }

  /** A second firmware slot is kept for the replacement of a single firmware image. */
  lemma FwSlotAlwaysFree(h: Header, c: byte)
    requires Slotted(h) && IsFw(c) && Spare(h) && SingleFw(h)
    ensures FreeLba(c, h) in SlotsOf(c) && FreeLba(c, h) != 0
  {
    if i :| 0 <= i < h.numPointers && IsFw(Class(h.desc[i].attribute)) {
      OtherFwSlotIsFree(h, i);
    } else {
      forall k | 0 <= k < h.numPointers ensures !UsedBy(h.desc[k], FW_SLOTS[0], FW_MAX_LBA) {
        UsedExactly(h.desc[k], c, 0);
      }
      assert Free(h, SlotsOf(c)[0], MaxLba(c));
    }
    FirstFreeMeaning(SlotsOf(c), MaxLba(c), h);
  }

  lemma OtherFwSlotIsFree(h: Header, i: nat)
    requires Slotted(h) && Spare(h) && SingleFw(h) && i < h.numPointers && IsFw(Class(h.desc[i].attribute))
    ensures exists j :: 0 <= j < |FW_SLOTS| && Free(h, FW_SLOTS[j], FW_MAX_LBA)
  {
    var j := if h.desc[i].lba == FW_SLOTS[0] then 1 else 0;
    forall k | 0 <= k < h.numPointers ensures !UsedBy(h.desc[k], FW_SLOTS[j], FW_MAX_LBA) {
      UsedExactly(h.desc[k], SIGNED_FW, j);
      assert k != i ==> !IsFw(Class(h.desc[k].attribute));
    }
    assert Free(h, FW_SLOTS[j], FW_MAX_LBA);
  }

  lemma SlotValues(j: nat)
    requires j < |OS_SLOTS|
    ensures OS_SLOTS[j] == 4050 + 32000 * j
  {
  }

  /** Under the slot discipline the image keeps this slot from being free: it
      starts there, or it fills all but at most one sector of the slot before. */
  predicate Blocks(o: Osii, slot: nat) {
    var m := MaxLba(Class(o.attribute));
    o.lba == slot || (o.lba + m == slot && o.size >= m - 1)
  }

  ghost predicate Blocked(h: Header, slot: nat)
    requires h.numPointers <= MAX_DESC
  {
    exists i :: 0 <= i < h.numPointers && Blocks(h.desc[i], slot)
  }

  lemma FreeMeansUnblocked(h: Header, c: byte, j: nat)
    requires Slotted(h) && j < |SlotsOf(c)|
    ensures Free(h, SlotsOf(c)[j], MaxLba(c)) <==> !Blocked(h, SlotsOf(c)[j])
  {
    forall i | 0 <= i < h.numPointers
      ensures UsedBy(h.desc[i], SlotsOf(c)[j], MaxLba(c)) <==> Blocks(h.desc[i], SlotsOf(c)[j])
    {
      UsedExactly(h.desc[i], c, j);
    }
  }

  /** The search fails exactly when every slot of the class is blocked. */
  lemma SearchFailsExactly(h: Header, c: byte, slots: seq<nat>)
    requires Slotted(h) && slots == SlotsOf(c)
    ensures FreeLba(c, h) == 0 <==> forall j :: 0 <= j < |slots| ==> Blocked(h, slots[j])
  {
    FreeSlotsUnblocked(h, c, slots);
    SlotsAreNonzero(c, slots);
    AllBlocked(slots, MaxLba(c), h);
  }

  lemma SlotsAreNonzero(c: byte, slots: seq<nat>)
    requires slots == SlotsOf(c)
    ensures forall j :: 0 <= j < |slots| ==> slots[j] != 0
  {
  }

  lemma FreeSlotsUnblocked(h: Header, c: byte, slots: seq<nat>)
    requires Slotted(h) && slots == SlotsOf(c)
    ensures forall j :: 0 <= j < |slots| ==> (Free(h, slots[j], MaxLba(c)) <==> !Blocked(h, slots[j]))
  {
    forall j | 0 <= j < |slots| ensures Free(h, slots[j], MaxLba(c)) <==> !Blocked(h, slots[j]) {
      FreeMeansUnblocked(h, c, j);
    }
  }

  lemma AllBlocked(slots: seq<nat>, slotSize: nat, h: Header)
    requires h.numPointers <= MAX_DESC && forall j :: 0 <= j < |slots| ==> slots[j] != 0
    requires forall j :: 0 <= j < |slots| ==> (Free(h, slots[j], slotSize) <==> !Blocked(h, slots[j]))
    ensures FirstFree(slots, slotSize, h) == 0 <==> forall j :: 0 <= j < |slots| ==> Blocked(h, slots[j])
  {
    FirstFreeMeaning(slots, slotSize, h);
  }

  /** The bound is tight: five images one sector larger, in every other slot,
      exhaust the nine slots. */
  lemma FiveImagesStarve(h: Header, c: byte)
    requires Slotted(h) && GoesToOsSlot(c) && h.numPointers == 5
    requires forall i :: 0 <= i < 5 ==>
               h.desc[i].lba == OS_SLOTS[2 * i] && h.desc[i].size == OS_MAX_LBA - 1
               && GoesToOsSlot(Class(h.desc[i].attribute))
    ensures FreeLba(c, h) == 0
  {
    var slots := SlotsOf(c);
    forall j | 0 <= j < |slots| ensures Blocked(h, slots[j]) {
      SlotValues(j);
      SlotValues(j - j % 2);
      assert 2 * (j / 2) == j - j % 2;
      assert Blocks(h.desc[j / 2], slots[j]);
    }
    SearchFailsExactly(h, c, slots);
  }
}
