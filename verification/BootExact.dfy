/** Each lifecycle step is the only valid manager with its effect: pending slot, confirmed slot, images and counts
    leave no freedom for anything else (src/boot/boot_slot_lifecycle.c). */
module BootExact {
  import opened Words
  import opened BootSlots
  import opened BootPersist
  import opened BootLifecycle

  /** The three counters of a slot: boots, confirmations, failures. */
  datatype Counts = Counts(boot: u32, success: u32, fail: u32)

  function CountsOf(s: Slot): Counts { Counts(s.bootCount, s.successCount, s.failCount) }

  /** A slot still records the same image. */
  predicate SameImage(s: Slot, s': Slot) { s'.Identity() == s.Identity() && s'.checksum == s.checksum }

  predicate SameImages(m: Manager, m': Manager) { SameImage(m.slot0, m'.slot0) && SameImage(m.slot1, m'.slot1) }

  predicate SameCounts(m: Manager, m': Manager) {
    CountsOf(m'.slot0) == CountsOf(m.slot0) && CountsOf(m'.slot1) == CountsOf(m.slot1)
  }

  /** The counter of one slot moved and no other. */
  predicate CountsMoved(m: Manager, m': Manager, i: u32, c: Counts)
    requires i < 2
  {
    CountsOf(m'.At(i)) == c && CountsOf(m'.At(1 - i)) == CountsOf(m.At(1 - i))
  }

  /** The sum of one and a 32-bit counter, which wraps. */
  lemma CounterStep(x: u32)
    ensures Inc32(x) == (x + 1) % 0x1_0000_0000
  {
  }

  /** On a valid manager the guards say: the other slot, nothing pending, and for a confirmation, the attempt spent. */
  lemma GuardsExactly(m: Manager, slot: u32, image: Image)
    requires ManagerValid(m)
    ensures MayArm(m, slot) <==>
            slot < 2 && slot + m.confirmedSlot == 1 && m.pendingSlot == 0xFFFF_FFFF && m.At(slot).state == Valid
    ensures MayConfirm(m, slot) <==> slot < 2 && m.pendingSlot == slot && m.tries == 0
    ensures MayStage(m, slot, image) <==>
            slot < 2 && slot + m.confirmedSlot == 1 && m.pendingSlot == 0xFFFF_FFFF &&
            ImageValid(image, m.At(slot).capacity)
  {
    hide LayoutPlan, ImageValid;
  }

  /** Arming: the one valid manager in which `slot` is pending with one attempt left and nothing else moved. */
  lemma ArmExactly(m: Manager, slot: u32, m': Manager)
    requires ManagerValid(m) && NamesCanonical(m) && MayArm(m, slot)
    ensures m' == Armed(m, slot) <==>
            && Sound(m, m') && m'.confirmedSlot == m.confirmedSlot && SameImages(m, m') && SameCounts(m, m')
            && m'.pendingSlot == slot && m'.tries == 1
  {
    ArmSound(m, slot);
    hide LayoutPlan, ImageValid;
  }

  /** Spending the attempt: still pending with none left, and one more boot counted. */
  lemma AttemptExactly(m: Manager, m': Manager)
    requires ManagerValid(m) && NamesCanonical(m) && m.pendingSlot < 2 && m.tries > 0
    ensures m' == Attempted(m) <==>
            var p, k := m.pendingSlot, CountsOf(m.At(m.pendingSlot));
            && Sound(m, m') && m'.confirmedSlot == m.confirmedSlot && SameImages(m, m')
            && CountsMoved(m, m', p, k.(boot := (k.boot + 1) % 0x1_0000_0000))
            && m'.pendingSlot == p && m'.tries == 0
  {
    AttemptSound(m);
    CounterStep(m.At(m.pendingSlot).bootCount);
    hide LayoutPlan, ImageValid;
  }

  /** Rolling back: nothing pending, the pending slot FAILED and one more failure counted. */
  lemma RollbackExactly(m: Manager, m': Manager)
    requires ManagerValid(m) && NamesCanonical(m) && m.pendingSlot < 2
    ensures m' == RolledBack(m) <==>
            var p, k := m.pendingSlot, CountsOf(m.At(m.pendingSlot));
            && Sound(m, m') && m'.confirmedSlot == m.confirmedSlot && SameImages(m, m')
            && CountsMoved(m, m', p, k.(fail := (k.fail + 1) % 0x1_0000_0000))
            && m'.pendingSlot == 0xFFFF_FFFF && m'.At(p).state == Failed
  {
    RollbackSound(m);
    CounterStep(m.At(m.pendingSlot).failCount);
    hide LayoutPlan, ImageValid;
  }

  /** Confirming: the slot is the confirmed one and next to boot with one more success, the old one stays VALID. */
  lemma ConfirmExactly(m: Manager, slot: u32, m': Manager)
    requires ManagerValid(m) && NamesCanonical(m) && MayConfirm(m, slot)
    ensures m' == Confirmed(m, slot) <==>
            var k := CountsOf(m.At(slot));
            && Sound(m, m') && m'.confirmedSlot == slot && SameImages(m, m')
            && CountsMoved(m, m', slot, k.(success := (k.success + 1) % 0x1_0000_0000))
            && m'.pendingSlot == 0xFFFF_FFFF && m'.nextSlot == slot
            && m'.At(1 - slot).state == Valid && m'.At(1 - slot).health
  {
    ConfirmSound(m, slot);
    CounterStep(m.At(slot).successCount);
    hide LayoutPlan, ImageValid;
  }

  /** Staging: the other slot as it was, and the target with exactly the offered image and no history. */
  lemma StageExactly(m: Manager, slot: u32, image: Image, m': Manager)
    requires ManagerValid(m) && NamesCanonical(m) && MayStage(m, slot, image)
    ensures m' == Invalidated(m, slot, image) <==>
            && Sound(m, m') && StagedWith(m, m', slot, image) && m'.At(slot).state == Failed
    ensures m' == Published(Invalidated(m, slot, image), slot, image) <==>
            && Sound(m, m') && StagedWith(m, m', slot, image) && m'.At(slot).state == Valid
            && m'.nextSlot == slot && !m'.At(slot).health
  {
    StageSound(m, slot, image);
    hide LayoutPlan, ImageValid;
  }

  predicate StagedWith(m: Manager, m': Manager, slot: u32, image: Image) {
    && slot < 2 && m'.confirmedSlot == m.confirmedSlot && m'.pendingSlot == 0xFFFF_FFFF
    && m'.At(slot).Identity() == image && CountsOf(m'.At(slot)) == Counts(0, 0, 0) && m'.At(slot).checksum == 0
    && m'.At(1 - slot) == m.At(1 - slot)
  }

  /** Formatting: slot A confirmed with exactly the offered image and booted once, slot B empty. */
  lemma FormatExactly(l: Layout, image: Image, m: Manager)
    requires LayoutPlan(l.bootSectors) == Some(l) && ImageValid(image, l.slot0.capacity)
    ensures m == Formatted(l, image) <==>
            && ManagerValid(m) && NamesCanonical(m) && m.Geometry() == l && m.confirmedSlot == 0
            && m.pendingSlot == 0xFFFF_FFFF && m.slot0.Identity() == image && m.slot0.checksum == 0
            && CountsOf(m.slot0) == Counts(1, 1, 0) && m.slot1.state == Empty
  {
    FormatSound(l, image);
    AllZeroIsZeros(m.slot1.sha);
    hide LayoutPlan, ImageValid;
  }

  /** A printable name of 1 to 39 characters and a digest of 32 bytes that are not all zero. */
  predicate Named(image: Image) {
    && 1 <= |image.version| <= 39 && (forall i :: 0 <= i < |image.version| ==> 32 <= image.version[i] <= 126)
    && |image.sha| == 32 && (exists i :: 0 <= i < 32 && image.sha[i] != 0)
  }

  /** An image fits a slot exactly when it is named and its payload ends where the next region begins, or earlier. */
  lemma ImageFitsExactly(l: Layout, image: Image)
    requires LayoutPlan(l.bootSectors) == Some(l)
    ensures ImageValid(image, l.slot0.capacity) <==>
            && Named(image) && 0 < image.payloadSize
            && l.slot0.payloadLba * 512 + image.payloadSize <= l.slot1.headerLba * 512
    ensures ImageValid(image, l.slot1.capacity) <==>
            && Named(image) && 0 < image.payloadSize
            && l.slot1.payloadLba * 512 + image.payloadSize <= l.control0 * 512
  {
  }

  /** A slot holds nothing at all, or an image that fits it, and a FAILED one is not healthy. */
  predicate SlotShape(s: Slot) {
    && |s.sha| == 32
    && if s.state == Empty then
         && s.Identity() == Image([], 0, s.sha) && (forall i :: 0 <= i < 32 ==> s.sha[i] == 0)
         && CountsOf(s) == Counts(0, 0, 0) && s.checksum == 0 && !s.health
       else
         ImageValid(s.Identity(), s.capacity) && !(s.state == Failed && s.health)
  }

  /** Settled on slot `c`: it is active and healthy, and the other may be next only if it is VALID. */
  predicate SettledOn(m: Manager, c: u32)
    requires c < 2
  {
    && m.confirmedSlot == c && m.activeSlot == c && m.pendingSlot == 0xFFFF_FFFF && m.tries == 0 && !m.rollbackPending
    && m.At(c).state == Active && m.At(c).health && m.At(1 - c).state in {Empty, Valid, Failed}
    && (m.nextSlot == c || (m.nextSlot == 1 - c && m.At(1 - c).state == Valid))
  }

  /** Trying slot `p` with the other to fall back to: at most one attempt left. */
  predicate TryingOn(m: Manager, p: u32)
    requires p < 2
  {
    && m.pendingSlot == p && m.activeSlot == p && m.nextSlot == p && m.confirmedSlot == 1 - p && m.rollbackPending
    && m.tries <= 1 && m.At(p).state == Active && !m.At(p).health
    && m.At(1 - p).state == Rollback && m.At(1 - p).health
  }

  /** A valid manager lies on the plan of its partition, holds two sound slots, and is settled on one of them or trying
      one of them: nothing in between. */
  lemma ValidExactly(m: Manager)
    ensures ManagerValid(m) <==>
            && LayoutPlan(m.bootSectors) == Some(m.Geometry()) && SlotShape(m.slot0) && SlotShape(m.slot1)
            && (SettledOn(m, 0) || SettledOn(m, 1) || TryingOn(m, 0) || TryingOn(m, 1))
  {
    PlanPlaces(m.bootSectors);
    hide LayoutPlan, ImageValid;
  }

  lemma PlanPlaces(n: u32)
    ensures
      var r := LayoutPlan(n);
      r.Some? ==>
        && r.value.slot0.capacity != 0 && r.value.slot1.capacity != 0
        && r.value.slot0.payloadLba == Inc32(r.value.slot0.headerLba)
        && r.value.slot1.payloadLba == Inc32(r.value.slot1.headerLba)
  {
  }

  /** Binding takes the newest usable copy. It refuses two copies of one generation that differ, and a lone copy with
      an attempt pending; only two erased sectors are an unformatted disk. */
  lemma BindExactly(d: Disk, l: Layout)
    ensures
      var b, u0, u1 := Bind(d, l), Usable(d.copy0, l), Usable(d.copy1, l);
      && (b.Unformatted? <==> d.copy0 == Blank && d.copy1 == Blank)
      && (b.Bound? <==>
          || (u0 && u1 && (d.copy0.g == d.copy1.g ==> d.copy0.m == d.copy1.m))
          || (u0 && !u1 && d.copy0.m.pendingSlot == 0xFFFF_FFFF)
          || (u1 && !u0 && d.copy1.m.pendingSlot == 0xFFFF_FFFF))
      && (b.Bound? ==> b.active == (if u1 && (u0 ==> d.copy0.g < d.copy1.g) then 1 else 0))
      && (b.Bound? ==> d.At(b.active) == Record(b.m, b.g) && (b.degraded <==> !u0 || !u1))
      && (b.Bound? && u0 ==> d.copy0.g <= b.g) && (b.Bound? && u1 ==> d.copy1.g <= b.g)
  {
  }
}
