/**
 Laying out a complete header: `fixup_osip` hands out slots in order and
 `verify_osip_sizes` checks that the images fit them.
 */
module OsipLayout {
  import opened Bytes
  import opened OsipFormat
  import opened OsipSlots

  /** Attribute classes both routines know. File systems (attribute 3) are
      not among them: the low bit is cleared before the comparison with 3. */
  predicate Handled(c: byte) { IsFw(c) || IsOs(c) }

  /** Firmware images among the first `n` descriptors. */
  function FwBefore(h: Header, n: nat): (r: nat)
    requires n <= MAX_DESC
    ensures r <= n
  {
    if n == 0 then 0 else FwBefore(h, n - 1) + if IsFw(Class(h.desc[n - 1].attribute)) then 1 else 0
  }

  /** The slot that `fixup_osip` gives to descriptor `i`: the next unused one of its class. */
  function AssignedSlot(h: Header, i: nat): u32
    requires i < MAX_DESC && FwBefore(h, i) <= 1
  {
    if IsFw(Class(h.desc[i].attribute)) then 50 + 2000 * FwBefore(h, i)
    else 4050 + 32000 * (i - FwBefore(h, i))
  }

  /** `o` is descriptor `i` of `h` moved to its slot. */
  predicate Assigned(h: Header, i: nat, o: Osii) {
    i < MAX_DESC && FwBefore(h, i) <= 1 && o == h.desc[i].(lba := AssignedSlot(h, i))
  }

  /** The headers `fixup_osip` can lay out: at least one image, only known
      classes, and never the last slot of a class. */
  predicate Fixable(h: Header) {
    && 0 < h.numPointers <= MAX_DESC
    && (forall i :: 0 <= i < h.numPointers ==> Handled(Class(h.desc[i].attribute)))
    && FwBefore(h, h.numPointers) <= 1
  }

  /** `r` is `h` up to the start sectors of live images and the checksum. */
  ghost predicate OnlyMoved(h: Header, r: Header) {
    && r.(checksum := 0, desc := []) == h.(checksum := 0, desc := [])
    && (forall i :: 0 <= i < MAX_DESC ==> r.desc[i].(lba := 0) == h.desc[i].(lba := 0))
    && (forall i :: h.numPointers <= i < MAX_DESC ==> r.desc[i] == h.desc[i])
  }

  lemma {:induction false} FwBeforeMonotone(h: Header, i: nat, j: nat)
    requires i <= j <= MAX_DESC
    ensures FwBefore(h, i) <= FwBefore(h, j)
    ensures i - FwBefore(h, i) <= j - FwBefore(h, j)
  {
    if i < j { FwBeforeMonotone(h, i, j - 1); }
  }

  /** The first `n` descriptors are known and in their slots, the others untouched. */
  ghost predicate LaidOut(h: Header, n: nat, desc: seq<Osii>) {
    && n <= MAX_DESC == |desc|
    && (forall k :: 0 <= k < n ==> Handled(Class(h.desc[k].attribute)) && Assigned(h, k, desc[k]))
    && (forall k :: n <= k < MAX_DESC ==> desc[k] == h.desc[k])
  }

  lemma LaidOutStep(h: Header, n: nat, desc: seq<Osii>, slot: u32)
    requires LaidOut(h, n, desc) && n < MAX_DESC && FwBefore(h, n) <= 1
    requires Handled(Class(h.desc[n].attribute)) && slot == AssignedSlot(h, n)
    ensures LaidOut(h, n + 1, desc[n := desc[n].(lba := slot)])
  {
  }

  /** Descriptor `n` stops the layout: an unknown class, or a second firmware image. */
  predicate Unplaceable(h: Header, n: nat)
    requires n < MAX_DESC
  {
    var c := Class(h.desc[n].attribute);
    !Handled(c) || (IsFw(c) && FwBefore(h, n) >= 1)
  }

  /** What a failed layout leaves behind: the images before the one that stops
      it are moved, the checksum is that of before. */
  ghost predicate Abandoned(h: Header, desc: seq<Osii>) {
    exists n :: 0 <= n < h.numPointers && n < MAX_DESC && Unplaceable(h, n) && LaidOut(h, n, desc)
  }

  /** `fixup_osip` (with `fixup_osii`): succeeds exactly on fixable headers, and
      then every live image sits at the next slot of its class and the header
      checks out. A header without images fails but is sealed; any other failure
      leaves the images before the offending one moved. */
  method FixupOsip(h: Header) returns (ok: bool, r: Header)
    requires h.numPointers <= MAX_DESC
    ensures ok <==> Fixable(h)
    ensures ok ==> OnlyMoved(h, r)
    ensures ok ==> forall i :: 0 <= i < h.numPointers ==> Assigned(h, i, r.desc[i])
    ensures ok ==> Crc(r) == 0
    ensures h.numPointers == 0 ==> r == Sealed(h)
    ensures !ok && h.numPointers > 0 ==> r == h.(desc := r.desc) && Abandoned(h, r.desc)
  {
    var placed, desc := AssignSlots(h);
    if !placed {
      return false, h.(desc := desc);
    }
    r := Sealed(h.(desc := desc));
    SealedPasses(h.(desc := desc));
    ok := h.numPointers > 0;
  }

  // The loop of `fixup_osip` over the descriptors.
  method AssignSlots(h: Header) returns (ok: bool, desc: seq<Osii>)
    requires h.numPointers <= MAX_DESC
    ensures |desc| == MAX_DESC
    ensures ok && h.numPointers > 0 <==> Fixable(h)
    ensures ok ==> LaidOut(h, h.numPointers, desc)
    ensures !ok ==> Abandoned(h, desc)
    ensures h.numPointers == 0 ==> ok && desc == h.desc
  {
    desc := h.desc;
    var fwCtr, osCtr, i := 0, 0, 0;
    while i < h.numPointers
      invariant 0 <= i <= h.numPointers && |desc| == MAX_DESC
      invariant fwCtr == FwBefore(h, i) && osCtr == i - fwCtr && fwCtr <= 1
      invariant LaidOut(h, i, desc)
    {
      var c := Class(desc[i].attribute);
      if !Handled(c) {
        UnplaceableStops(h, i);
        return false, desc;
      }
      var slot: u32;
      if IsFw(c) {
        if fwCtr >= |FW_SLOTS| - 1 {
          UnplaceableStops(h, i);
          return false, desc;
        }
        slot := FW_SLOTS[fwCtr];
        fwCtr := fwCtr + 1;
      } else {
        SlotValues(osCtr);
        slot := OS_SLOTS[osCtr];
        osCtr := osCtr + 1;
      }
      LaidOutStep(h, i, desc, slot);
      desc := desc[i := desc[i].(lba := slot)];
      i := i + 1;
    }
    LaidOutIsFixable(h, desc);
    ok := true;
  }

  lemma UnplaceableStops(h: Header, n: nat)
    requires n < h.numPointers <= MAX_DESC && Unplaceable(h, n)
    ensures !Fixable(h)
  {
    FwBeforeMonotone(h, n + 1, h.numPointers);
  }

  lemma LaidOutIsFixable(h: Header, desc: seq<Osii>)
    requires h.numPointers <= MAX_DESC && LaidOut(h, h.numPointers, desc) && FwBefore(h, h.numPointers) <= 1
    ensures Fixable(h) <==> h.numPointers > 0
  {
  }

  /** `verify_osip_sizes`: no known image exceeds the slot size of its class. */
  method VerifyOsipSizes(h: Header) returns (ok: bool)
    requires h.numPointers <= MAX_DESC
    ensures ok <==> forall i :: 0 <= i < h.numPointers && Handled(Class(h.desc[i].attribute)) ==>
                                  h.desc[i].size <= MaxLba(Class(h.desc[i].attribute))
  {
    var i := 0;
    while i < h.numPointers
      invariant 0 <= i <= h.numPointers
      invariant forall k :: 0 <= k < i && Handled(Class(h.desc[k].attribute)) ==>
                              h.desc[k].size <= MaxLba(Class(h.desc[k].attribute))
    {
      var c := Class(h.desc[i].attribute);
      if Handled(c) && h.desc[i].size > MaxLba(c) {
        return false;
      }
      i := i + 1;
    }
    ok := true;
  }

  lemma AssignedSlotsDiffer(h: Header, i: nat, j: nat)
    requires i < j < h.numPointers && Fixable(h)
    ensures FwBefore(h, i) <= 1 && FwBefore(h, j) <= 1
    ensures AssignedSlot(h, i) != AssignedSlot(h, j)
  {
    FwBeforeMonotone(h, i, j);
    FwBeforeMonotone(h, i + 1, j);
    FwBeforeMonotone(h, j, h.numPointers);
    FwBeforeMonotone(h, j + 1, h.numPointers);
  }

  /** OS images get their slots in the order of their descriptors, without gaps. */
  lemma AssignedInOrder(h: Header, i: nat, j: nat)
    requires i < j < h.numPointers && Fixable(h)
    requires !IsFw(Class(h.desc[i].attribute)) && !IsFw(Class(h.desc[j].attribute))
    ensures FwBefore(h, i) <= 1 && FwBefore(h, j) <= 1
    ensures AssignedSlot(h, j) == AssignedSlot(h, i) + 32000 * (j - i - (FwBefore(h, j) - FwBefore(h, i)))
    ensures AssignedSlot(h, i) < AssignedSlot(h, j)
  {
    FwBeforeMonotone(h, i, j);
    FwBeforeMonotone(h, i + 1, j);
    FwBeforeMonotone(h, j, h.numPointers);
  }

  lemma AssignedIsInSlot(h: Header, i: nat, o: Osii)
    requires i < h.numPointers && Fixable(h) && Assigned(h, i, o)
    requires o.size <= MaxLba(Class(o.attribute))
    ensures InSlot(o)
  {
    FwBeforeMonotone(h, i + 1, h.numPointers);
    SlotValues(i - FwBefore(h, i));
  }

  /** A header that both routines accept obeys the slot discipline. */
  lemma LaidOutIsSlotted(h: Header, r: Header)
    requires Fixable(h) && OnlyMoved(h, r) && TailReusable(h)
    requires forall i :: 0 <= i < h.numPointers ==> Assigned(h, i, r.desc[i])
    requires forall i :: 0 <= i < r.numPointers && Handled(Class(r.desc[i].attribute)) ==>
                           r.desc[i].size <= MaxLba(Class(r.desc[i].attribute))
    ensures Slotted(r)
  {
    assert r.numPointers == h.numPointers;
    forall i | 0 <= i < h.numPointers ensures InSlot(r.desc[i]) {
      assert r.desc[i].(lba := 0).attribute == h.desc[i].(lba := 0).attribute;
      AssignedIsInSlot(h, i, r.desc[i]);
    }
    forall i, j | 0 <= i < j < h.numPointers ensures r.desc[i].lba != r.desc[j].lba {
      AssignedSlotsDiffer(h, i, j);
    }
    forall i | r.numPointers <= i < MAX_DESC ensures Reusable(Class(r.desc[i].attribute)) {
      assert r.desc[i] == h.desc[i];
    }
  }
}
