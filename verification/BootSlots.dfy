/** The A/B slot manager record, its layout plan and its validity (src/boot/boot_slot.c). */
module BootSlots {
  import opened Words

  const SLOT_NONE: u32 := U32_MAX
  const MAX_TRIES: u32 := 1
  const VERSION_MAX := 40
  const SHA_SIZE := 32

  datatype SlotState = Empty | Valid | Active | Rollback | Failed

  datatype Region = Region(headerLba: u32, payloadLba: u32, capacity: u32)

  datatype Layout = Layout(bootSectors: u32, slot0: Region, slot1: Region, control0: u32, control1: u32)

  /** An image offered for a slot; `version` is the text before its terminating NUL. */
  datatype Image = Image(version: seq<byte>, payloadSize: u32, sha: seq<byte>)

  datatype Slot = Slot(
    name: string,
    version: seq<byte>,
    state: SlotState,
    bootCount: u32,
    successCount: u32,
    failCount: u32,
    headerLba: u32,
    payloadLba: u32,
    capacity: u32,
    payloadSize: u32,
    checksum: u32,
    sha: seq<byte>,
    health: bool)
  {
    function Place(): Region { Region(headerLba, payloadLba, capacity) }

    /** What a boot of this slot would load. */
    function Identity(): Image { Image(version, payloadSize, sha) }
  }

  datatype Manager = Manager(
    slot0: Slot,
    slot1: Slot,
    activeSlot: u32,
    nextSlot: u32,
    rollbackPending: bool,
    confirmedSlot: u32,
    pendingSlot: u32,
    tries: u32,
    bootSectors: u32,
    control0: u32,
    control1: u32)
  {
    function At(i: u32): Slot { if i == 0 then slot0 else slot1 }

    function With(i: u32, s: Slot): (m: Manager)
      ensures i < 2 ==> m.At(i) == s && m.At(Other(i)) == At(Other(i))
    {
      if i == 0 then this.(slot0 := s) else this.(slot1 := s)
    }

    function Geometry(): Layout {
      Layout(bootSectors, slot0.Place(), slot1.Place(), control0, control1)
    }
  }

  function Other(i: u32): u32 { if i == 0 then 1 else 0 }

  predicate Printable(s: seq<byte>) {
    forall i :: 0 <= i < |s| ==> 0x20 <= s[i] <= 0x7E
  }

  /** bs_string_fits on a version: 1 to 39 printable characters. */
  predicate VersionFits(v: seq<byte>) {
    0 < |v| < VERSION_MAX && Printable(v)
  }

  /** bs_image_valid and the identity half of bs_slot_identity_valid. */
  predicate ImageValid(image: Image, capacity: u32) {
    && VersionFits(image.version)
    && 0 < image.payloadSize <= capacity * 512
    && |image.sha| == SHA_SIZE && !AllZero(image.sha)
  }

  /** boot_slot_layout_plan: two slot regions, then the two control sectors. */
  function LayoutPlan(bootSectors: u32): (r: Option<Layout>)
    ensures r.Some? <==> bootSectors >= 6
    ensures r.Some? ==> LayoutPartition(r.value) && r.value.bootSectors == bootSectors
    ensures r.Some? ==> r.value.slot0.capacity <= r.value.slot1.capacity <= r.value.slot0.capacity + 1
  {
    if bootSectors < 6 then None
    else
      var usable := bootSectors - 2;
      var first := usable / 2;
      var second := usable - first;
      if first < 2 || second < 2 then None
      else
        Some(Layout(bootSectors, Region(0, 1, first - 1), Region(first, first + 1, second - 1),
                    bootSectors - 2, bootSectors - 1))
  }

  /** The plan tiles the partition: header and payload of A, header and payload of B, two control sectors. */
  predicate LayoutPartition(l: Layout) {
    && l.slot0.headerLba == 0
    && l.slot0.payloadLba == l.slot0.headerLba + 1 && l.slot0.capacity > 0
    && l.slot1.headerLba == l.slot0.payloadLba + l.slot0.capacity
    && l.slot1.payloadLba == l.slot1.headerLba + 1 && l.slot1.capacity > 0
    && l.control0 == l.slot1.payloadLba + l.slot1.capacity
    && l.control1 == l.control0 + 1
    && l.bootSectors == l.control1 + 1
  }

  /** bs_slot_identity_valid. */
  predicate SlotIdentityValid(s: Slot) {
    && s.capacity != 0
    && s.payloadLba == Inc32(s.headerLba)
    && |s.sha| == SHA_SIZE
    && if s.state.Empty? then
         && s.version == [] && s.payloadSize == 0
         && s.bootCount == 0 && s.successCount == 0 && s.failCount == 0 && s.checksum == 0
         && !s.health && AllZero(s.sha)
       else
         ImageValid(s.Identity(), s.capacity)
  }

  predicate SlotValid(s: Slot) {
    SlotIdentityValid(s) && !(s.state.Failed? && s.health)
  }

  /** boot_slot_manager_validate. */
  predicate ManagerValid(m: Manager) {
    && m.activeSlot < 2 && m.nextSlot < 2 && m.confirmedSlot < 2
    && (m.pendingSlot == SLOT_NONE || m.pendingSlot < 2)
    && m.tries <= MAX_TRIES
    && SlotValid(m.slot0) && SlotValid(m.slot1)
    && LayoutPlan(m.bootSectors) == Some(m.Geometry())
    && if m.pendingSlot == SLOT_NONE then SettledValid(m) else PendingValid(m)
  }

  predicate SettledValid(m: Manager) {
    var c := m.confirmedSlot;
    var other := m.At(Other(c)).state;
    && !m.rollbackPending && m.tries == 0 && m.activeSlot == c
    && m.At(c).state.Active? && m.At(c).health
    && !other.Active? && !other.Rollback?
    && (m.nextSlot == c || (m.nextSlot == Other(c) && other.Valid?))
  }

  predicate PendingValid(m: Manager) {
    var p := m.pendingSlot;
    && p != m.confirmedSlot && m.rollbackPending
    && m.activeSlot == p && m.nextSlot == p
    && m.At(p).state.Active? && !m.At(p).health
    && m.At(m.confirmedSlot).state.Rollback? && m.At(m.confirmedSlot).health
  }

  /** The slot names every durable manager carries; the record does not store them. */
  predicate NamesCanonical(m: Manager) {
    m.slot0.name == "A" && m.slot1.name == "B"
  }

  function SlotName(i: u32): string { if i == 0 then "A" else "B" }

  /** bs_manager_defaults with the geometry of a layout. */
  function EmptySlot(i: u32, r: Region): Slot {
    Slot(SlotName(i), [], Empty, 0, 0, 0, r.headerLba, r.payloadLba, r.capacity, 0, 0, Zeros(SHA_SIZE), false)
  }

  /** bs_slot_apply_image: the slot keeps its place on disk and loses everything else. */
  function WithImage(s: Slot, i: u32, image: Image, state: SlotState): Slot {
    Slot(SlotName(i), image.version, state, 0, 0, 0, s.headerLba, s.payloadLba, s.capacity,
         image.payloadSize, 0, image.sha, false)
  }
}
