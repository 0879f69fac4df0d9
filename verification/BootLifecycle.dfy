/** The configured branch of the lifecycle transitions (src/boot/boot_slot_lifecycle.c) on manager values. */
module BootLifecycle {
  import opened Words
  import opened BootSlots

  /** boot_slot_internal_arm_provider_locked: what the manager must show. */
  predicate MayArm(m: Manager, slot: u32) {
    && slot < 2 && m.pendingSlot == SLOT_NONE && slot != m.confirmedSlot
    && m.At(slot).state.Valid?
    && m.At(m.confirmedSlot).state.Active? && m.At(m.confirmedSlot).health
  }

  /** boot_slot_internal_activate_locked, configured branch. */
  predicate MayActivate(m: Manager, slot: u32) {
    && slot < 2 && (m.At(slot).state.Valid? || m.At(slot).state.Active?)
    && m.pendingSlot == SLOT_NONE && slot != m.confirmedSlot
    && m.At(m.confirmedSlot).state.Active? && m.At(m.confirmedSlot).health
  }

  function Armed(m: Manager, slot: u32): Manager
    requires slot < 2 && m.confirmedSlot < 2
  {
    var m1 := m.With(m.confirmedSlot, m.At(m.confirmedSlot).(state := Rollback));
    var m2 := m1.With(slot, m1.At(slot).(state := Active, health := false));
    m2.(activeSlot := slot, nextSlot := slot, rollbackPending := true, pendingSlot := slot, tries := 1)
  }

  /** The candidate of a select that spends the attempt. */
  function Attempted(m: Manager): Manager
    requires m.pendingSlot < 2 && m.tries > 0
  {
    var p := m.pendingSlot;
    m.With(p, m.At(p).(bootCount := Inc32(m.At(p).bootCount))).(tries := m.tries - 1)
  }

  /** bs_apply_rollback. */
  function RolledBack(m: Manager): Manager
    requires m.pendingSlot < 2 && m.confirmedSlot < 2
  {
    var p, c := m.pendingSlot, m.confirmedSlot;
    var m1 := m.With(p, m.At(p).(state := Failed, health := false, failCount := Inc32(m.At(p).failCount)));
    var m2 := m1.With(c, m1.At(c).(state := Active, health := true));
    m2.(activeSlot := c, nextSlot := c, rollbackPending := false, pendingSlot := SLOT_NONE, tries := 0)
  }

  /** boot_slot_internal_confirm_verified_locked: what the manager must show. */
  predicate MayConfirm(m: Manager, slot: u32) {
    slot < 2 && m.pendingSlot == slot && m.activeSlot == slot && m.tries == 0
  }

  function Confirmed(m: Manager, slot: u32): Manager
    requires slot < 2 && m.confirmedSlot < 2
  {
    var m1 := m.With(slot, m.At(slot).(health := true, successCount := Inc32(m.At(slot).successCount)));
    var prev := m1.At(m.confirmedSlot);
    var m2 := if prev.state.Rollback? then m1.With(m.confirmedSlot, prev.(state := Valid)) else m1;
    m2.(confirmedSlot := slot, pendingSlot := SLOT_NONE, tries := 0, activeSlot := slot, nextSlot := slot,
        rollbackPending := false)
  }

  /** The staging guard of store_stage_authorize and of the metadata publisher. */
  predicate MayStage(m: Manager, slot: u32, image: Image) {
    && slot < 2 && slot != m.activeSlot && slot != m.confirmedSlot
    && m.pendingSlot == SLOT_NONE && !m.rollbackPending
    && !m.At(slot).state.Active? && !m.At(slot).state.Rollback?
    && ImageValid(image, m.At(slot).capacity)
  }

  function Invalidated(m: Manager, slot: u32, image: Image): Manager
    requires slot < 2
  {
    m.With(slot, WithImage(m.At(slot), slot, image, Failed)).(nextSlot := m.confirmedSlot)
  }

  function Published(m: Manager, slot: u32, image: Image): Manager
    requires slot < 2
  {
    m.With(slot, WithImage(m.At(slot), slot, image, Valid)).(nextSlot := slot)
  }

  /** The first manager boot_slot_internal_initialize_persistent_locked writes. */
  function Formatted(l: Layout, image: Image): Manager {
    var a := WithImage(EmptySlot(0, l.slot0), 0, image, Active).(bootCount := 1, successCount := 1, health := true);
    Manager(a, EmptySlot(1, l.slot1), 0, 0, false, 0, SLOT_NONE, 0, l.bootSectors, l.control0, l.control1)
  }

  /** What a transition keeps: it passes validation and the slots keep their names and places. */
  predicate Sound(m: Manager, m': Manager) {
    ManagerValid(m') && NamesCanonical(m') && m'.Geometry() == m.Geometry()
  }

  /** The known-good slot is untouched: same slot, same image, bootable and health-confirmed. */
  predicate KeepsKnownGood(m: Manager, m': Manager) {
    && m'.confirmedSlot == m.confirmedSlot
    && KnownGood(m') && m'.At(m.confirmedSlot).Identity() == m.At(m.confirmedSlot).Identity()
  }

  predicate KnownGood(m: Manager) {
    && m.confirmedSlot < 2
    && var s := m.At(m.confirmedSlot);
       s.health && (s.state.Active? || s.state.Rollback?) && ImageValid(s.Identity(), s.capacity)
  }

  lemma ValidIsKnownGood(m: Manager)
    requires ManagerValid(m)
    ensures KnownGood(m)
  {
  }

  /** The looser state test of activation admits no more than arming does. */
  lemma ActivateIsArm(m: Manager, slot: u32)
    requires ManagerValid(m)
    ensures MayActivate(m, slot) <==> MayArm(m, slot)
  {
  }

  lemma ArmSound(m: Manager, slot: u32)
    requires ManagerValid(m) && NamesCanonical(m) && MayArm(m, slot)
    ensures Sound(m, Armed(m, slot)) && KeepsKnownGood(m, Armed(m, slot))
    ensures Armed(m, slot).pendingSlot == slot && Armed(m, slot).tries == 1
  {
  }

  lemma AttemptSound(m: Manager)
    requires ManagerValid(m) && NamesCanonical(m) && m.pendingSlot != SLOT_NONE && m.tries > 0
    ensures Sound(m, Attempted(m)) && KeepsKnownGood(m, Attempted(m))
    ensures Attempted(m).pendingSlot == m.pendingSlot && Attempted(m).tries == 0
  {
  }

  /** Rolling back restores the confirmed slot as the one to boot and fails the pending one. */
  lemma RollbackSound(m: Manager)
    requires ManagerValid(m) && NamesCanonical(m) && m.pendingSlot != SLOT_NONE
    ensures Sound(m, RolledBack(m)) && KeepsKnownGood(m, RolledBack(m))
    ensures RolledBack(m).pendingSlot == SLOT_NONE && RolledBack(m).activeSlot == m.confirmedSlot
    ensures RolledBack(m).At(m.pendingSlot).state.Failed? && RolledBack(m).At(m.confirmedSlot).state.Active?
  {
  }

  /** Confirming moves the known-good role to the slot that was attempted and keeps the old one bootable. */
  lemma ConfirmSound(m: Manager, slot: u32)
    requires ManagerValid(m) && NamesCanonical(m) && MayConfirm(m, slot)
    ensures Sound(m, Confirmed(m, slot))
    ensures Confirmed(m, slot).confirmedSlot == slot != m.confirmedSlot && Confirmed(m, slot).pendingSlot == SLOT_NONE
    ensures Confirmed(m, slot).At(slot).Identity() == m.At(slot).Identity()
    ensures Confirmed(m, slot).At(m.confirmedSlot).state.Valid?
    ensures Confirmed(m, slot).At(m.confirmedSlot).Identity() == m.At(m.confirmedSlot).Identity()
  {
  }

  /** Staging records the offered image in the target slot, first FAILED and then VALID. */
  lemma StageSound(m: Manager, slot: u32, image: Image)
    requires ManagerValid(m) && NamesCanonical(m) && MayStage(m, slot, image)
    ensures Sound(m, Invalidated(m, slot, image)) && KeepsKnownGood(m, Invalidated(m, slot, image))
    ensures Sound(m, Published(Invalidated(m, slot, image), slot, image))
    ensures KeepsKnownGood(m, Published(Invalidated(m, slot, image), slot, image))
    ensures Invalidated(m, slot, image).At(slot).Identity() == image
    ensures Published(Invalidated(m, slot, image), slot, image).At(slot).Identity() == image
    ensures Invalidated(m, slot, image).At(slot).state == Failed
    ensures Published(Invalidated(m, slot, image), slot, image).At(slot).state == Valid
  {
  }

  lemma FormatSound(l: Layout, image: Image)
    requires LayoutPlan(l.bootSectors) == Some(l) && ImageValid(image, l.slot0.capacity)
    ensures ManagerValid(Formatted(l, image)) && NamesCanonical(Formatted(l, image))
    ensures Formatted(l, image).Geometry() == l
    ensures Formatted(l, image).slot0.Identity() == image && Formatted(l, image).slot0.state == Active
  {
    AllZeroIsZeros(Zeros(SHA_SIZE));
  }
}
