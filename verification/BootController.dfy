/** The slot manager as the source keeps it: global state updated in place over two control sectors. */
module BootController {
  import opened Words
  import opened BootSlots
  import opened BootCodec
  import opened BootPersist
  import opened BootLifecycle
  import opened BootRuns
  import opened BootRecordBuffer

  const OK := 0
  const PERSIST_EMPTY := 1
  const ERR_IO := -1
  const ERR_COMMIT_UNKNOWN := -2
  const ERR_BUSY := -4
  const STORE_VERIFY := -3
  const STORE_STALE := -4
  const STORE_BUSY := -5

  datatype Phase = Uninitialized | RamTest | LeasedUnbound | BoundEmpty | BoundReady | BoundUnknown | Closed

  /** What a sector write leaves behind. */
  datatype Landing = Kept | Written | Torn(bytes: seq<byte>)

  /** The device's part in one verified write: where the sector ends up and what the three calls return. */
  datatype Io = Io(landing: Landing, writeRc: int, flushRc: int, readRc: int)

  /** A device that does what it is asked. */
  const WORKS := Io(Written, 0, 0, 0)

  /** Torn sectors do not decode. */
  predicate IoOk(crc: Checksum, io: Io) {
    io.landing.Torn? ==> |io.landing.bytes| == RECORD_SIZE && !View(crc, io.landing.bytes).Record?
  }

  lemma ViewCases(crc: Checksum, sector: seq<byte>)
    requires |sector| == RECORD_SIZE
    ensures View(crc, sector).Blank? <==> Erased(sector)
    ensures DecodeRecord(crc, sector).Some? ==>
              View(crc, sector) == Record(DecodeRecord(crc, sector).value.0, DecodeRecord(crc, sector).value.1)
    ensures DecodeRecord(crc, sector).None? ==> !View(crc, sector).Record?
  {
    if Erased(sector) { ErasedNeverDecodes(crc, sector); }
  }

  lemma RefuseIsNext(l: Layout, s: System)
    ensures Next(l, s, Refuse, s)
  {
  }

  lemma SettledSelectIsNext(l: Layout, s: System)
    requires s.ram.Ready? && s.ram.m.pendingSlot == SLOT_NONE
    ensures Next(l, s, Select(0, s.ram.m.confirmedSlot, Blank), s)
  {
  }

  lemma InRangeIfStageable(m: Manager, slot: u32, image: Image)
    ensures MayStage(m, slot, image) ==> slot < 2
  {
  }

  lemma MayStageFacts(s: System, slot: u32, image: Image)
    requires MayStageNow(s, slot, image)
    ensures s.ram.Ready? && MayStage(s.ram.m, slot, image) && s.ram.g <= U64_MAX - 3 && slot < 2
  {
  }

  /** What the invariant says of a ready manager. */
  lemma ReadyRecord(l: Layout, s: System)
    requires Inv(l, s) && s.ram.Ready?
    ensures ManagerValid(s.ram.m) && NamesCanonical(s.ram.m) && s.ram.m.Geometry() == l && s.ram.active < 2
    ensures Bind(s.disk, l) == Bound(s.ram.m, s.ram.g, s.ram.active, s.ram.degraded)
    ensures s.ram.m.confirmedSlot < 2 && (s.ram.m.pendingSlot == SLOT_NONE || s.ram.m.pendingSlot < 2)
  {
    BoundIsRecord(s.disk, l);
  }

  /** A valid manager that waits for a rollback has a pending slot, so bs_apply_rollback never refuses it. */
  lemma PendingIfRollback(m: Manager)
    requires ManagerValid(m) && m.rollbackPending
    ensures m.pendingSlot != SLOT_NONE && m.pendingSlot < 2 && m.confirmedSlot < 2
  {
  }

  lemma RebootIsNext(l: Layout, s: System, ram: Ram)
    requires ram == RamOf(Bind(s.disk, l)) || ram == Down
    ensures Next(l, s, Reboot, System(s.disk, ram))
  {
  }

  lemma StageIsNext(l: Layout, s: System, slot: u32, image: Image, progress: Staging)
    requires Inv(l, s) && MayStageNow(s, slot, image) && StagingLands(s, slot, image, progress)
    ensures Next(l, s, Stage(slot, image, progress), Staged(s, slot, image, progress))
    ensures Inv(l, Staged(s, slot, image, progress))
  {
    StageKeepsInv(l, s, slot, image, progress);
  }

  lemma RamKeepsInv(l: Layout, s: System)
    requires DiskOk(s.disk) && (s.ram == RamOf(Bind(s.disk, l)) || s.ram == Down)
    ensures Inv(l, s)
  {
  }

  predicate MayFormat(l: Layout, s: System, image: Image) {
    Inv(l, s) && s.ram.Unwritten? && LayoutPlan(l.bootSectors) == Some(l) && ImageValid(image, l.slot0.capacity)
  }

  lemma FormatFirstLost(l: Layout, s: System, image: Image, after: Copy, s': System)
    requires MayFormat(l, s, image) && Lands(s.disk.At(0), Record(Formatted(l, image), 1), after)
    requires s' == System(s.disk.With(0, after), Down)
    ensures Next(l, s, Format(image, FirstCopyLost(after)), s') && Inv(l, s')
  {
    StepKeepsInv(l, s, Format(image, FirstCopyLost(after)), s');
  }

  lemma FormatSecondLost(l: Layout, s: System, image: Image, after: Copy, s': System)
    requires MayFormat(l, s, image) && Lands(s.disk.At(1), Record(Formatted(l, image), 2), after)
    requires s' == System(s.disk.With(0, Record(Formatted(l, image), 1)).With(1, after), Down)
    ensures Next(l, s, Format(image, SecondCopyLost(after)), s') && Inv(l, s')
  {
    StepKeepsInv(l, s, Format(image, SecondCopyLost(after)), s');
  }

  lemma FormatDone(l: Layout, s: System, image: Image, s': System)
    requires MayFormat(l, s, image)
    requires var m := Formatted(l, image);
             s' == System(s.disk.With(0, Record(m, 1)).With(1, Record(m, 2)), Ready(m, 2, 1, false))
    ensures Next(l, s, Format(image, BothWritten), s') && Inv(l, s')
  {
    StepKeepsInv(l, s, Format(image, BothWritten), s');
  }

  /** The staging states, spelled out write by write. */
  lemma StagingWrites(s: System, slot: u32, image: Image, after: Copy)
    requires MayStageNow(s, slot, image) && s.ram.active < 2
    ensures
      var c, a, t, g := Invalidated(s.ram.m, slot, image), s.ram.active, Other(s.ram.active), s.ram.g;
      var d1 := s.disk.With(t, Record(c, g + 1));
      && Staged(s, slot, image, FirstLost(after)) == System(s.disk.With(t, after), Down)
      && Staged(s, slot, image, SecondLost(after)) == System(d1.With(a, after), Down)
      && Staged(s, slot, image, PayloadLost(s.disk.Payload(slot))) ==
           System(d1.With(a, Record(c, g + 2)), Ready(c, g + 2, a, false))
      && (Lands(s.disk.At(t), Record(c, g + 1), after) ==> StagingLands(s, slot, image, FirstLost(after)))
      && (Lands(d1.At(a), Record(c, g + 2), after) ==> StagingLands(s, slot, image, SecondLost(after)))
      && StagingLands(s, slot, image, PayloadLost(s.disk.Payload(slot)))
  {
  }

  /** The publishing write, from the state an authorization and a good payload left. */
  lemma PublishWrites(s: System, slot: u32, image: Image, after: Copy)
    requires MayStageNow(s, slot, image) && s.ram.active < 2
    ensures
      var c, a, t, g := Invalidated(s.ram.m, slot, image), s.ram.active, Other(s.ram.active), s.ram.g;
      var d, p := Staged(s, slot, image, PayloadLost(Some(image.sha))).disk, Published(c, slot, image);
      && slot < 2 && d.Payload(slot) == Some(image.sha)
      && Staged(s, slot, image, PayloadLost(Some(image.sha))).ram == Ready(c, g + 2, a, false)
      && Staged(s, slot, image, ThirdLost(after)) == System(d.With(t, after), Down)
      && Staged(s, slot, image, Complete) == System(d.With(t, Record(p, g + 3)), Ready(p, g + 3, t, false))
      && (Lands(d.At(t), Record(p, g + 3), after) ==> StagingLands(s, slot, image, ThirdLost(after)))
      && StagingLands(s, slot, image, Complete)
  {
    hide Invalidated, Published, ImageValid;
  }

  lemma InvalidatedValid(l: Layout, s: System, slot: u32, image: Image)
    requires Inv(l, s) && MayStageNow(s, slot, image)
    ensures
      var c := Invalidated(s.ram.m, slot, image);
      s.ram.active < 2 && slot < 2 && s.ram.g != 0 && ManagerValid(c) && NamesCanonical(c)
  {
    BoundIsRecord(s.disk, l);
    hide MayStageNow, Published, Invalidated, Inv, MayStage, ManagerValid, NamesCanonical, KeepsKnownGood;
    MayStageFacts(s, slot, image);
    StageSound(s.ram.m, slot, image);
  }

  lemma PublishedValid(l: Layout, s: System, slot: u32, image: Image)
    requires Inv(l, s) && MayStageNow(s, slot, image)
    ensures
      var p := Published(Invalidated(s.ram.m, slot, image), slot, image);
      s.ram.active < 2 && slot < 2 && ManagerValid(p) && NamesCanonical(p)
  {
    hide MayStageNow, Published, Invalidated, Inv, MayStage, ManagerValid, NamesCanonical, KeepsKnownGood;
    MayStageFacts(s, slot, image);
    ReadyRecord(l, s);
    StageSound(s.ram.m, slot, image);
  }

  /** A complete staging offers exactly the image, over a payload of its digest. */
  lemma CompleteOffers(l: Layout, s: System, slot: u32, image: Image)
    requires Inv(l, s) && MayStageNow(s, slot, image)
    ensures
      var done := Staged(s, slot, image, Complete);
      && slot < 2 && done.ram.Ready? && done.ram.g == s.ram.g + 3 && done.disk.Payload(slot) == Some(image.sha)
      && done.ram.m.At(slot).state.Valid? && done.ram.m.At(slot).Identity() == image
  {
    hide Staged, StagingLands, MayStageNow, Published, Invalidated, Inv, MayStage;
    MayStageFacts(s, slot, image);
    ReadyRecord(l, s);
    PublishWrites(s, slot, image, Blank);
    StageSound(s.ram.m, slot, image);
  }

  /** struct boot_slot_persistence_state, without the device callbacks. */
  datatype Persistence = Persistence(
    generation: u64,
    authorityEpoch: u64,
    leaseEpoch: u64,
    activeCopy: u32,
    configured: bool,
    ready: bool,
    blank: bool,
    degraded: bool,
    stageClaimed: bool,
    layout: Layout)

  /** The device's part in store_stage_payload: the digest of what the payload region then holds, whether the writes and
      the flush were reported good, whether every sector could be read back, and whether the slot's header sector was
      written and read back as the image's. */
  datatype PayloadIo = PayloadIo(digest: Option<seq<byte>>, writes: bool, readBack: bool, header: bool) {
    predicate Verifies(image: Image) { readBack && digest == Some(image.sha) }
  }

  /** struct boot_slot_snapshot: what a caller saw when it decided to stage. */
  datatype Snapshot = Snapshot(generation: u64, authorityEpoch: u64, leaseEpoch: u64, manager: Manager)

  /** bs_manager_defaults. */
  const DEFAULTS :=
    Manager(EmptySlot(0, Region(0, 0, 0)), EmptySlot(1, Region(0, 0, 0)), 0, 0, false, 0, SLOT_NONE, 0, 0, 0, 0)

  class Controller {
    const crc: Checksum
    var bsm: Manager
    var initialized: bool
    var bsp: Persistence
    var phase: Phase
    var sectors: seq<seq<byte>>
    var payloads: seq<Option<seq<byte>>>

    ghost predicate Shape()
      reads this`sectors, this`payloads
    {
      |sectors| == 2 && |sectors[0]| == RECORD_SIZE && |sectors[1]| == RECORD_SIZE && |payloads| == 2
    }

    /** The durable half of the state. */
    ghost function Durable(): (d: Disk)
      requires Shape()
      ensures DiskOk(d) && d.payload0 == payloads[0] && d.payload1 == payloads[1]
      reads this`sectors, this`payloads
    {
      Disk(View(crc, sectors[0]), View(crc, sectors[1]), payloads[0], payloads[1])
    }

    ghost function Abs(): System
      requires Shape()
      reads this
    {
      System(Durable(),
             if ReadyNow() then Ready(bsm, bsp.generation, bsp.activeCopy, bsp.degraded)
             else if bsp.configured && bsp.blank then Unwritten else Down)
    }

    /** boot_slot_internal_persistence_ready_locked. */
    predicate ReadyNow()
      reads this
    {
      phase.BoundReady? && initialized && bsp.configured && bsp.ready
    }

    /** bs_commit_locked may write: no staging is claimed, and there is a next generation. */
    predicate MayWrite()
      reads this
    {
      !bsp.stageClaimed && bsp.generation < U64_MAX
    }

    predicate BindAllowed()
      reads this
    {
      phase.RamTest? || phase.LeasedUnbound? || phase.BoundEmpty? || phase.BoundReady? || phase.BoundUnknown?
    }

    ghost predicate Valid()
      reads this
    {
      && Shape() && Inv(bsp.layout, Abs())
      && (bsp.ready ==> phase.BoundReady? && initialized && bsp.configured)
      && (bsp.blank ==> !bsp.ready && initialized)
    }

    /** A machine that has just come up over an arbitrary pair of control sectors. */
    constructor (crc: Checksum, sector0: seq<byte>, sector1: seq<byte>, digests: seq<Option<seq<byte>>>, l: Layout)
      requires |sector0| == RECORD_SIZE && |sector1| == RECORD_SIZE && |digests| == 2
      ensures Valid() && Abs() == System(Disk(View(crc, sector0), View(crc, sector1), digests[0], digests[1]), Down)
      ensures this.crc == crc && phase.RamTest? && !bsp.stageClaimed
    {
      this.crc := crc;
      bsm := DEFAULTS;
      initialized, phase := true, RamTest;
      bsp := Persistence(0, 0, 0, 0, false, false, false, false, false, l);
      sectors, payloads := [sector0, sector1], digests;
    }

    /** bs_write_verified: success means exactly that the copy now holds the record of `m` at generation `g`. */
    method WriteVerified(m: Manager, copy: u32, g: u64, io: Io) returns (rc: int)
      requires Shape() && IoOk(crc, io)
      requires ManagerValid(m) ==> NamesCanonical(m) && g != 0
      modifies this`sectors
      ensures Shape()
      ensures rc == ERR_IO <==> !bsp.configured || copy >= 2 || !ManagerValid(m)
      ensures rc == ERR_IO ==> sectors == old(sectors)
      ensures rc != ERR_IO ==>
                && (rc == OK || rc == ERR_COMMIT_UNKNOWN)
                && copy < 2 && Durable() == old(Durable()).With(copy, Durable().At(copy))
                && Lands(old(Durable()).At(copy), Record(m, g), Durable().At(copy))
      ensures rc == OK ==> Durable().At(copy) == Record(m, g)
      ensures rc == OK <== bsp.configured && copy < 2 && ManagerValid(m) && io == WORKS
    {
      hide View, DecodeRecord, ManagerValid;
      if !bsp.configured || copy >= 2 { return ERR_IO; }
      if !ManagerValid(m) { return ERR_IO; }
      ViewOfEncoded(crc, m, g);
      var buffer := new byte[RECORD_SIZE](_ => 0);
      EncodeRecordInto(buffer, crc, m, g);
      var record := buffer[..];
      match io.landing {
        case Kept =>
        case Written => sectors := sectors[copy := record];
        case Torn(bytes) => sectors := sectors[copy := bytes];
      }
      if io.writeRc != 0 { return ERR_COMMIT_UNKNOWN; }
      RecordRoundTrip(crc, m, g);
      if io.flushRc != 0 || io.readRc != 0 || record != sectors[copy] ||
         DecodeRecord(crc, sectors[copy]).None? || DecodeRecord(crc, sectors[copy]).value.1 != g
      {
        return ERR_COMMIT_UNKNOWN;
      }
      return OK;
    }

    /** bs_commit_locked in the configured mode. */
    method CommitLocked(candidate: Manager, io: Io) returns (rc: int, ghost after: Copy)
      requires Valid() && ReadyNow() && IoOk(crc, io) && Sound(bsm, candidate)
      modifies this`sectors, this`bsm, this`bsp, this`phase
      ensures Valid() && bsp.layout == old(bsp.layout)
      ensures rc == OK ==> Commit(old(Abs()), candidate, after, true, Abs()) && ReadyNow()
      ensures rc == ERR_COMMIT_UNKNOWN ==> Commit(old(Abs()), candidate, after, false, Abs()) && !bsp.ready
      ensures rc != OK && rc != ERR_COMMIT_UNKNOWN ==>
                Abs() == old(Abs()) && bsp == old(bsp) && bsm == old(bsm) && sectors == old(sectors)
      ensures rc == OK || rc == ERR_COMMIT_UNKNOWN || rc == ERR_BUSY || rc == ERR_IO
      ensures rc == ERR_BUSY <==> bsp.stageClaimed
      ensures rc == ERR_IO <==> !bsp.stageClaimed && old(bsp.generation) == U64_MAX
      ensures bsp.stageClaimed == old(bsp.stageClaimed)
      ensures rc == OK <== old(MayWrite()) && io == WORKS
    {
      hide View, DecodeRecord, ManagerValid, Bind, IoOk, DiskOk, NamesCanonical, Inv;
      after := Blank;
      if bsp.stageClaimed { return ERR_BUSY, after; }
      if !bsp.ready || bsp.generation == U64_MAX { return ERR_IO, after; }
      var target := Other(bsp.activeCopy);
      var g := bsp.generation + 1;
      ReadyRecord(bsp.layout, Abs());
      ghost var before := Abs();
      rc := WriteVerified(candidate, target, g, io);
      after := Durable().At(target);
      if rc == OK {
        bsm := candidate;
        bsp := bsp.(activeCopy := target, generation := g, degraded := false);
      } else if rc == ERR_COMMIT_UNKNOWN {
        bsp := bsp.(ready := false);
        phase := BoundUnknown;
      }
      CommitKeepsInv(bsp.layout, before, candidate, after, rc == OK, Abs());
    }

    /** The guard of set_persistence. */
    predicate MayBind(l: Layout)
      reads this
    {
      !bsp.stageClaimed && BindAllowed() && initialized && LayoutPlan(l.bootSectors) == Some(l)
    }

    /** What the reader shows of a copy: a sector reported empty is blank, whatever it holds. */
    ghost function Seen(i: nat, readRc: int): Copy
      requires Shape() && i < 2
      reads this`sectors, this`payloads
    {
      if readRc == PERSIST_EMPTY then Blank else View(crc, sectors[i])
    }

    ghost function SeenDisk(readRcs: seq<int>): Disk
      requires Shape() && |readRcs| == 2
      reads this`sectors, this`payloads
    {
      Disk(Seen(0, readRcs[0]), Seen(1, readRcs[1]), payloads[0], payloads[1])
    }

    /** Only blank sectors are reported empty. */
    ghost predicate Honest(readRcs: seq<int>)
      requires Shape() && |readRcs| == 2
      reads this`sectors, this`payloads
    {
      SeenDisk(readRcs) == Durable()
    }

    /** boot_slot_internal_set_persistence_locked; `readRcs` are the device's answers to the two reads. The state
        reached is the one the copies determine as they were shown; with an honest device, as they are. */
    method BindControl(l: Layout, readRcs: seq<int>) returns (rc: int)
      requires Valid() && |readRcs| == 2
      modifies this
      ensures Shape() && sectors == old(sectors) && payloads == old(payloads)
      ensures Honest(readRcs) ==> Valid()
      ensures rc == ERR_BUSY <==> old(bsp.stageClaimed)
      ensures old(MayBind(l)) ==>
                && bsp.layout == l && (Honest(readRcs) ==> Next(l, old(Abs()), Reboot, Abs()))
                && (rc == OK <==> Abs().ram.Ready?)
                && (rc == PERSIST_EMPTY <==> Abs().ram.Unwritten?)
                && Abs().ram == if ReadsOk(readRcs) then RamOf(Bind(SeenDisk(readRcs), l)) else Down
      ensures !old(MayBind(l)) ==>
                Valid() && Abs() == old(Abs()) && (rc == ERR_BUSY || rc == ERR_IO)
    {
      hide View, DecodeRecord, ManagerValid, Bind, IoOk, DiskOk, NamesCanonical, Inv, LayoutPlan, Next;
      ghost var before := Abs();
      if bsp.stageClaimed { return ERR_BUSY; }
      if !BindAllowed() || !initialized || LayoutPlan(l.bootSectors) != Some(l) { return ERR_IO; }
      bsm := DEFAULTS;
      bsp := bsp.(generation := 0, activeCopy := 0, authorityEpoch := 0, configured := true, ready := false,
                  blank := false, degraded := false, layout := l);
      phase := BoundUnknown;
      var managers, generations, usable, empty;
      rc, managers, generations, usable, empty := ReadCopies(l, readRcs);
      if rc == OK {
        rc := Choose(l, managers, generations, usable, empty, readRcs);
      }
      if SeenDisk(readRcs) == Durable() {
        RebootIsNext(l, before, Abs().ram);
        RamKeepsInv(l, Abs());
      }
    }

    predicate ReadsOk(readRcs: seq<int>)
      requires |readRcs| == 2
    {
      (readRcs[0] == 0 || readRcs[0] == PERSIST_EMPTY) && (readRcs[1] == 0 || readRcs[1] == PERSIST_EMPTY)
    }

    /** The reading loop of set_persistence: classify both copies, stopping at the first failed read. */
    method ReadCopies(l: Layout, readRcs: seq<int>)
      returns (rc: int, managers: seq<Manager>, generations: seq<u64>, usable: seq<bool>, empty: seq<bool>)
      requires Shape() && |readRcs| == 2
      ensures |managers| == 2 && |generations| == 2 && |usable| == 2 && |empty| == 2
      ensures rc == if ReadsOk(readRcs) then OK else ERR_IO
      ensures rc == OK ==> forall k :: 0 <= k < 2 ==>
                && empty[k] == Seen(k, readRcs[k]).Blank? && usable[k] == Usable(Seen(k, readRcs[k]), l)
                && (usable[k] ==> Seen(k, readRcs[k]) == Record(managers[k], generations[k]))
    {
      hide View, DecodeRecord, ManagerValid, Erased;
      managers, generations := [DEFAULTS, DEFAULTS], [0, 0];
      usable, empty := [false, false], [false, false];
      for i := 0 to 2
        invariant |managers| == 2 && |generations| == 2 && |usable| == 2 && |empty| == 2
        invariant forall k :: i <= k < 2 ==> !usable[k]
        invariant forall k :: 0 <= k < i ==> readRcs[k] == 0 || readRcs[k] == PERSIST_EMPTY
        invariant forall k :: 0 <= k < i ==>
                    && empty[k] == Seen(k, readRcs[k]).Blank? && usable[k] == Usable(Seen(k, readRcs[k]), l)
                    && (usable[k] ==> Seen(k, readRcs[k]) == Record(managers[k], generations[k]))
      {
        if readRcs[i] != 0 && readRcs[i] != PERSIST_EMPTY {
          rc := ERR_IO;
          return;
        }
        assert |sectors[i]| == RECORD_SIZE;
        ViewCases(crc, sectors[i]);
        empty := empty[i := readRcs[i] == PERSIST_EMPTY || Erased(sectors[i])];
        if !empty[i] {
          var decoded := DecodeRecord(crc, sectors[i]);
          if decoded.Some? {
            managers := managers[i := decoded.value.0];
            generations := generations[i := decoded.value.1];
            usable := usable[i := managers[i].Geometry() == l];
          }
        }
      }
      rc := OK;
    }

    /** The second half of set_persistence: pick a copy, accept it, or refuse. */
    method Choose(l: Layout, managers: seq<Manager>, generations: seq<u64>, usable: seq<bool>, empty: seq<bool>,
                  ghost readRcs: seq<int>)
      returns (rc: int)
      requires Shape() && initialized && bsp.configured && !bsp.ready && !bsp.blank && bsp.layout == l
      requires phase.BoundUnknown? && |readRcs| == 2
      requires |managers| == 2 && |generations| == 2 && |usable| == 2 && |empty| == 2
      requires forall k :: 0 <= k < 2 ==> empty[k] == Seen(k, readRcs[k]).Blank?
      requires forall k :: 0 <= k < 2 ==> usable[k] == Usable(Seen(k, readRcs[k]), l)
      requires forall k :: 0 <= k < 2 && usable[k] ==> Seen(k, readRcs[k]) == Record(managers[k], generations[k])
      modifies this`bsm, this`bsp, this`phase
      ensures Shape() && Abs().ram == RamOf(Bind(SeenDisk(readRcs), l)) && Durable() == old(Durable())
      ensures (bsp.ready ==> phase.BoundReady? && initialized && bsp.configured) && (bsp.blank ==> !bsp.ready)
      ensures bsp.layout == l && (rc == OK || rc == PERSIST_EMPTY || rc == ERR_IO)
      ensures rc == OK <==> Abs().ram.Ready?
      ensures rc == PERSIST_EMPTY <==> Abs().ram.Unwritten?
    {
      hide View, DecodeRecord, ManagerValid;
      var selected: u32 := 0;
      if usable[0] && usable[1] && generations[0] == generations[1] {
        SameRecordSameBytes(crc, sectors[0], sectors[1]);
        if sectors[0] != sectors[1] { return ERR_IO; }
      } else if usable[1] && (!usable[0] || generations[1] > generations[0]) {
        selected := 1;
      }
      if usable[0] || usable[1] {
        if managers[selected].pendingSlot != SLOT_NONE && (!usable[0] || !usable[1]) { return ERR_IO; }
        bsm := managers[selected];
        bsp := bsp.(generation := generations[selected], activeCopy := selected,
                    degraded := !(usable[0] && usable[1]), ready := true);
        phase := BoundReady;
        return OK;
      }
      if empty[0] && empty[1] {
        bsp := bsp.(blank := true);
        phase := BoundEmpty;
        return PERSIST_EMPTY;
      }
      return ERR_IO;
    }

    /** One manager written to copy `first` at generation `g` and then to the other at `g + 1`, stopping at the first
        write that is not verified; `second` tells which write that was. */
    method WriteTwice(m: Manager, first: u32, g: u64, io1: Io, io2: Io) returns (rc: int, ghost second: bool)
      requires Shape() && bsp.configured && IoOk(crc, io1) && IoOk(crc, io2)
      requires ManagerValid(m) && NamesCanonical(m) && 0 < g < U64_MAX && first < 2
      modifies this`sectors
      ensures Shape() && (rc == OK || rc == ERR_COMMIT_UNKNOWN)
      ensures rc == OK ==> Durable() == old(Durable()).With(first, Record(m, g)).With(Other(first), Record(m, g + 1))
      ensures rc != OK && !second ==>
                && Durable() == old(Durable()).With(first, Durable().At(first))
                && Lands(old(Durable()).At(first), Record(m, g), Durable().At(first))
      ensures rc != OK && second ==>
                var d1 := old(Durable()).With(first, Record(m, g));
                && Durable() == d1.With(Other(first), Durable().At(Other(first)))
                && Lands(d1.At(Other(first)), Record(m, g + 1), Durable().At(Other(first)))
      ensures rc == OK <== io1 == WORKS && io2 == WORKS
    {
      hide View, DecodeRecord, ManagerValid, IoOk, DiskOk, NamesCanonical;
      second := false;
      rc := WriteVerified(m, first, g, io1);
      if rc == OK {
        second := true;
        rc := WriteVerified(m, Other(first), g + 1, io2);
      }
    }

    /** The guard of initialize: bound to a blank disk with this very layout, and an image that fits its first slot. */
    predicate MayInitialize(layout: Layout, image: Image)
      reads this
    {
      && BindAllowed() && initialized && bsp.configured && !bsp.ready && bsp.blank
      && LayoutPlan(layout.bootSectors) == Some(layout) && layout == bsp.layout
      && ImageValid(image, layout.slot0.capacity)
    }

    /** What the guards come to in a valid state: the ready flag alone decides whether the manager is ready; binding is
        open in every phase between initialisation and close; and a format needs an unwritten disk. */
    lemma GuardsMean(l: Layout, image: Image)
      requires Valid()
      ensures ReadyNow() <==> bsp.ready
      ensures MayBind(l) <==>
              !bsp.stageClaimed && initialized && phase != Uninitialized && phase != Closed &&
              LayoutPlan(l.bootSectors) == Some(l)
      ensures MayInitialize(l, image) <==>
              Abs().ram == Unwritten && phase != Uninitialized && phase != Closed && l == bsp.layout &&
              LayoutPlan(l.bootSectors) == Some(l) && ImageValid(image, l.slot0.capacity)
    {
      hide Inv, LayoutPlan, ImageValid;
    }

    /** boot_slot_internal_initialize_persistent_locked. */
    method Initialize(layout: Layout, image: Image, io0: Io, io1: Io) returns (rc: int, ghost e: Event)
      requires Valid() && IoOk(crc, io0) && IoOk(crc, io1)
      modifies this
      ensures Valid() && bsp.layout == old(bsp.layout) && Next(bsp.layout, old(Abs()), e, Abs())
      ensures rc == OK <==> e.Format? && e.steps.BothWritten?
      ensures !e.Format? ==> e.Refuse?
      ensures e.Format? ==> e.image == image && layout == bsp.layout
      ensures rc == OK || rc == ERR_COMMIT_UNKNOWN || rc == ERR_IO
      ensures rc == ERR_IO <==> !old(MayInitialize(layout, image))
      ensures rc == ERR_IO ==> e.Refuse? && Abs() == old(Abs()) && bsp == old(bsp) && sectors == old(sectors)
      ensures old(MayInitialize(layout, image)) && io0 == WORKS && io1 == WORKS ==> rc == OK
      ensures rc == OK ==> ReadyNow() && bsp.generation == 2 && bsm.slot0.Identity() == image && bsm.slot0.state.Active?
    {
      hide View, DecodeRecord, ManagerValid, Bind, IoOk, DiskOk, NamesCanonical, Inv, LayoutPlan, ImageValid,
           Formatted, Next;
      e := Refuse;
      RefuseIsNext(bsp.layout, Abs());
      if !MayInitialize(layout, image) { return ERR_IO, e; }
      var candidate := Formatted(bsp.layout, image);
      FormatSound(bsp.layout, image);
      ghost var before := Abs();
      ghost var second;
      rc, second := WriteTwice(candidate, 0, 1, io0, io1);
      bsp := bsp.(blank := false);
      if rc != OK {
        phase := BoundUnknown;
        if second {
          e := Format(image, SecondCopyLost(Durable().At(1)));
          FormatSecondLost(bsp.layout, before, image, e.steps.after, Abs());
        } else {
          e := Format(image, FirstCopyLost(Durable().At(0)));
          FormatFirstLost(bsp.layout, before, image, e.steps.after, Abs());
        }
        return;
      }
      bsm := candidate;
      bsp := bsp.(generation := 2, activeCopy := 1, degraded := false, ready := true);
      phase := BoundReady;
      e := Format(image, BothWritten);
      FormatDone(bsp.layout, before, image, Abs());
    }

    /** boot_slot_internal_arm_provider_locked. */
    method ArmProvider(slot: u32, expectedGeneration: u64, io: Io)
      returns (rc: int, outGeneration: u64, ghost e: Event)
      requires Valid() && IoOk(crc, io)
      modifies this
      ensures Valid() && bsp.layout == old(bsp.layout) && Next(bsp.layout, old(Abs()), e, Abs())
      ensures rc == OK <==> e.Arm? && e.done
      ensures rc == ERR_COMMIT_UNKNOWN <==> e.Arm? && !e.done
      ensures e.Arm? ==> e.slot == slot && expectedGeneration == old(bsp.generation)
      ensures !e.Arm? ==> e.Refuse?
      ensures outGeneration == if rc == OK then bsp.generation else 0
      ensures rc == ERR_IO <==> !old(ReadyNow()) || !MayArm(old(bsm), slot) ||
                                expectedGeneration != old(bsp.generation) || !old(MayWrite())
      ensures rc != ERR_IO && io == WORKS ==> rc == OK
      ensures rc == OK || rc == ERR_COMMIT_UNKNOWN || rc == ERR_IO
      ensures rc == ERR_IO ==> e.Refuse? && Abs() == old(Abs()) && bsp == old(bsp) && sectors == old(sectors)
      ensures rc == OK ==> ReadyNow() && bsm.pendingSlot == slot && bsm.tries == 1
      ensures rc == OK ==> outGeneration == expectedGeneration + 1
    {
      hide View, DecodeRecord, ManagerValid, Bind, IoOk, DiskOk, NamesCanonical, Inv, Next;
      RefuseIsNext(bsp.layout, Abs());
      ghost var before := Abs();
      outGeneration, e := 0, Refuse;
      if !ReadyNow() || slot >= 2 || expectedGeneration != bsp.generation || !MayArm(bsm, slot) {
        return ERR_IO, 0, e;
      }
      ReadyRecord(bsp.layout, Abs());
      var candidate := Armed(bsm, slot);
      ArmSound(bsm, slot);
      var commit, after := CommitLocked(candidate, io);
      if commit != OK {
        if bsp.ready { return ERR_IO, 0, e; }
        e := Arm(slot, after, false);
        CommitIsNext(bsp.layout, before, e, Abs());
        return ERR_COMMIT_UNKNOWN, 0, e;
      }
      e := Arm(slot, after, true);
      CommitIsNext(bsp.layout, before, e, Abs());
      return OK, bsp.generation, e;
    }

    /** boot_slot_internal_activate_locked, configured branch. */
    method Activate(slot: u32, io: Io) returns (rc: int, ghost e: Event)
      requires Valid() && IoOk(crc, io)
      modifies this
      ensures Valid() && bsp.layout == old(bsp.layout) && Next(bsp.layout, old(Abs()), e, Abs())
      ensures rc == OK <==> e.Arm? && e.done
      ensures e.Arm? ==> e.slot == slot
      ensures !e.Arm? ==> e.Refuse?
      ensures rc == ERR_IO <==>
              !old(ReadyNow()) || !MayActivate(old(bsm), slot) ||
              (!old(bsp.stageClaimed) && old(bsp.generation) == U64_MAX)
      ensures rc == ERR_BUSY <==> old(ReadyNow()) && MayActivate(old(bsm), slot) && old(bsp.stageClaimed)
      ensures rc != ERR_IO && rc != ERR_BUSY && io == WORKS ==> rc == OK
      ensures rc == ERR_COMMIT_UNKNOWN <==> e.Arm? && !e.done
      ensures rc == OK ==> ReadyNow() && bsm.pendingSlot == slot && bsm.tries == 1
      ensures rc != OK && rc != ERR_COMMIT_UNKNOWN ==>
                e.Refuse? && Abs() == old(Abs()) && bsp == old(bsp) && sectors == old(sectors)
    {
      hide View, DecodeRecord, ManagerValid, Bind, IoOk, DiskOk, NamesCanonical, Inv, Next;
      RefuseIsNext(bsp.layout, Abs());
      ghost var before := Abs();
      e := Refuse;
      if !ReadyNow() || slot >= 2 { return ERR_IO, e; }
      ReadyRecord(bsp.layout, Abs());
      if !MayActivate(bsm, slot) { return ERR_IO, e; }
      ActivateIsArm(bsm, slot);
      var candidate := Armed(bsm, slot);
      ArmSound(bsm, slot);
      ghost var after;
      rc, after := CommitLocked(candidate, io);
      if rc == OK || rc == ERR_COMMIT_UNKNOWN {
        e := Arm(slot, after, rc == OK);
        CommitIsNext(bsp.layout, before, e, Abs());
      }
    }

    /** boot_slot_internal_select_locked: 0 boots the confirmed slot, 1 spends the attempt, 2 rolls back. */
    method SelectForBoot(io: Io) returns (rc: int, outSlot: u32, outGeneration: u64, ghost e: Event)
      requires Valid() && IoOk(crc, io)
      modifies this
      ensures Valid() && bsp.layout == old(bsp.layout) && Next(bsp.layout, old(Abs()), e, Abs())
      ensures rc >= 0 <==> e.Select?
      ensures e.Select? ==> rc == e.code && outSlot == e.slot && outGeneration == bsp.generation
      ensures !e.Select? ==> outSlot == SLOT_NONE && outGeneration == 0 && (e.SelectUnknown? || e.Refuse?)
      ensures old(ReadyNow()) && old(bsm).pendingSlot == SLOT_NONE ==> rc == 0
      ensures rc == 0 ==> outSlot == bsm.confirmedSlot && bsm == old(bsm) && bsp == old(bsp)
      ensures rc == 1 ==> outSlot == bsm.pendingSlot == old(bsm).pendingSlot && bsm.tries == 0 < old(bsm).tries
      ensures rc == 2 ==> outSlot == bsm.activeSlot == old(bsm).confirmedSlot && bsm.pendingSlot == SLOT_NONE
      ensures rc == ERR_IO <==>
              !old(ReadyNow()) ||
              (old(bsm).pendingSlot != SLOT_NONE && !old(bsp.stageClaimed) && old(bsp.generation) == U64_MAX)
      ensures rc == ERR_BUSY <==> old(ReadyNow()) && old(bsm).pendingSlot != SLOT_NONE && old(bsp.stageClaimed)
      ensures rc != ERR_IO && rc != ERR_BUSY && io == WORKS ==> rc >= 0
      ensures rc == ERR_COMMIT_UNKNOWN <==> e.SelectUnknown?
      ensures rc < 0 && rc != ERR_COMMIT_UNKNOWN ==>
                e.Refuse? && Abs() == old(Abs()) && bsp == old(bsp) && sectors == old(sectors)
    {
      hide View, DecodeRecord, ManagerValid, Bind, IoOk, DiskOk, NamesCanonical, Inv, Next;
      RefuseIsNext(bsp.layout, Abs());
      ghost var before := Abs();
      outSlot, outGeneration, e := SLOT_NONE, 0, Refuse;
      if !ReadyNow() { return ERR_IO, outSlot, outGeneration, e; }
      if bsm.pendingSlot == SLOT_NONE {
        e := Select(0, bsm.confirmedSlot, Blank);
        SettledSelectIsNext(bsp.layout, before);
        return 0, bsm.confirmedSlot, bsp.generation, e;
      }
      ReadyRecord(bsp.layout, Abs());
      ghost var after;
      if bsm.tries > 0 {
        var selected := bsm.pendingSlot;
        AttemptSound(bsm);
        rc, after := CommitLocked(Attempted(bsm), io);
        if rc != OK {
          if rc == ERR_COMMIT_UNKNOWN {
            e := SelectUnknown(after);
            CommitIsNext(bsp.layout, before, e, Abs());
          }
          return;
        }
        e := Select(1, selected, after);
        CommitIsNext(bsp.layout, before, e, Abs());
        return 1, selected, bsp.generation, e;
      }
      var fallback := bsm.confirmedSlot;
      RollbackSound(bsm);
      rc, after := CommitLocked(RolledBack(bsm), io);
      if rc != OK {
        if rc == ERR_COMMIT_UNKNOWN {
          e := SelectUnknown(after);
          CommitIsNext(bsp.layout, before, e, Abs());
        }
        return;
      }
      e := Select(2, fallback, after);
      CommitIsNext(bsp.layout, before, e, Abs());
      return 2, fallback, bsp.generation, e;
    }

    /** The guard of a verified confirmation. */
    predicate MayConfirmNow(slot: u32, expected: u64, authority: u64, lease: u64)
      reads this
    {
      && ReadyNow() && MayConfirm(bsm, slot) && expected == bsp.generation
      && authority == bsp.authorityEpoch && lease == bsp.leaseEpoch
    }

    /** boot_slot_internal_confirm_verified_locked. */
    method ConfirmVerified(slot: u32, expected: u64, authority: u64, lease: u64, io: Io)
      returns (rc: int, ghost e: Event)
      requires Valid() && IoOk(crc, io)
      modifies this
      ensures Valid() && bsp.layout == old(bsp.layout) && Next(bsp.layout, old(Abs()), e, Abs())
      ensures rc == OK <==> e.Confirm? && e.done
      ensures e.Confirm? ==> e.slot == slot && expected == old(bsp.generation) && old(bsm).tries == 0 &&
                             authority == old(bsp.authorityEpoch) && lease == old(bsp.leaseEpoch)
      ensures !e.Confirm? ==> e.Refuse?
      ensures rc == ERR_IO <==>
              !old(MayConfirmNow(slot, expected, authority, lease)) ||
              (!old(bsp.stageClaimed) && old(bsp.generation) == U64_MAX)
      ensures rc == ERR_BUSY <==> old(MayConfirmNow(slot, expected, authority, lease)) && old(bsp.stageClaimed)
      ensures rc != ERR_IO && rc != ERR_BUSY && io == WORKS ==> rc == OK
      ensures rc == ERR_COMMIT_UNKNOWN <==> e.Confirm? && !e.done
      ensures rc == OK ==> ReadyNow() && bsm.confirmedSlot == slot && bsm.pendingSlot == SLOT_NONE
      ensures rc != OK && rc != ERR_COMMIT_UNKNOWN ==>
                e.Refuse? && Abs() == old(Abs()) && bsp == old(bsp) && sectors == old(sectors)
    {
      hide View, DecodeRecord, ManagerValid, Bind, IoOk, DiskOk, NamesCanonical, Inv, Next;
      RefuseIsNext(bsp.layout, Abs());
      ghost var before := Abs();
      e := Refuse;
      if !MayConfirmNow(slot, expected, authority, lease) { return ERR_IO, e; }
      ReadyRecord(bsp.layout, Abs());
      ConfirmSound(bsm, slot);
      ghost var after;
      rc, after := CommitLocked(Confirmed(bsm, slot), io);
      if rc == OK || rc == ERR_COMMIT_UNKNOWN {
        e := Confirm(slot, expected, after, rc == OK);
        CommitIsNext(bsp.layout, before, e, Abs());
      }
    }

    /** boot_slot_internal_rollback_locked, configured branch. */
    method RollbackNow(io: Io) returns (rc: int, ghost e: Event)
      requires Valid() && IoOk(crc, io)
      modifies this
      ensures Valid() && bsp.layout == old(bsp.layout) && Next(bsp.layout, old(Abs()), e, Abs())
      ensures rc == OK <==> e.Revert? && e.done
      ensures !e.Revert? ==> e.Refuse?
      ensures rc == ERR_IO <==>
              !old(ReadyNow()) || !old(bsm).rollbackPending ||
              (!old(bsp.stageClaimed) && old(bsp.generation) == U64_MAX)
      ensures rc == ERR_BUSY <==> old(ReadyNow()) && old(bsm).rollbackPending && old(bsp.stageClaimed)
      ensures rc != ERR_IO && rc != ERR_BUSY && io == WORKS ==> rc == OK
      ensures rc == ERR_COMMIT_UNKNOWN <==> e.Revert? && !e.done
      ensures rc == OK ==> ReadyNow() && bsm.activeSlot == old(bsm).confirmedSlot && bsm.pendingSlot == SLOT_NONE
      ensures rc != OK && rc != ERR_COMMIT_UNKNOWN ==>
                e.Refuse? && Abs() == old(Abs()) && bsp == old(bsp) && sectors == old(sectors)
    {
      hide View, DecodeRecord, ManagerValid, Bind, IoOk, DiskOk, NamesCanonical, Inv, Next;
      RefuseIsNext(bsp.layout, Abs());
      ghost var before := Abs();
      e := Refuse;
      if !ReadyNow() || !bsm.rollbackPending { return ERR_IO, e; }
      ReadyRecord(bsp.layout, Abs());
      PendingIfRollback(bsm);
      RollbackSound(bsm);
      ghost var after;
      rc, after := CommitLocked(RolledBack(bsm), io);
      if rc == OK || rc == ERR_COMMIT_UNKNOWN {
        e := Revert(after, rc == OK);
        CommitIsNext(bsp.layout, before, e, Abs());
      }
    }

    /** boot_slot_repair_mirror. */
    method RepairMirror(io: Io) returns (rc: int, ghost e: Event)
      requires Valid() && IoOk(crc, io)
      modifies this
      ensures Valid() && bsp.layout == old(bsp.layout) && Next(bsp.layout, old(Abs()), e, Abs())
      ensures rc == OK <==> e.Repair? && e.done
      ensures !e.Repair? ==> e.Refuse?
      ensures rc == OK ==> !bsp.degraded && bsm == old(bsm)
      ensures rc == OK || rc == ERR_COMMIT_UNKNOWN || rc == ERR_IO
      ensures rc == ERR_IO <==> !old(ReadyNow()) || !old(bsp.degraded) || !old(MayWrite())
      ensures rc == ERR_COMMIT_UNKNOWN <==> e.Repair? && !e.done
      ensures rc == ERR_IO ==> e.Refuse? && Abs() == old(Abs()) && bsp == old(bsp) && sectors == old(sectors)
      ensures rc != ERR_IO && io == WORKS ==> rc == OK
    {
      hide View, DecodeRecord, ManagerValid, Bind, IoOk, DiskOk, NamesCanonical, Inv, Next;
      RefuseIsNext(bsp.layout, Abs());
      ghost var before := Abs();
      e := Refuse;
      if !ReadyNow() || !bsp.degraded || bsp.stageClaimed || bsp.generation == U64_MAX { return ERR_IO, e; }
      ReadyRecord(bsp.layout, Abs());
      var target := Other(bsp.activeCopy);
      rc := WriteVerified(bsm, target, bsp.generation + 1, io);
      e := Repair(Durable().At(target), rc == OK);
      if rc == OK {
        bsp := bsp.(activeCopy := target, generation := bsp.generation + 1, degraded := false);
      } else if rc == ERR_COMMIT_UNKNOWN {
        bsp := bsp.(ready := false);
        phase := BoundUnknown;
      }
      CommitIsNext(bsp.layout, before, e, Abs());
      StepKeepsInv(bsp.layout, before, e, Abs());
    }

    /** The snapshot shows the state as it is now. */
    predicate Current(expected: Snapshot)
      reads this
    {
      expected == Snapshot(bsp.generation, bsp.authorityEpoch, bsp.leaseEpoch, bsm)
    }

    /** What store_stage_authorize checks before it claims the staging. */
    ghost predicate MayStageFrom(expected: Snapshot, slot: u32, image: Image)
      requires Shape()
      reads this
    {
      Current(expected) && MayStageNow(Abs(), slot, image)
    }

    /** boot_slot_snapshot_get: a snapshot is current when it is taken, and none is given while staging is claimed. */
    method SnapshotGet() returns (rc: int, out: Option<Snapshot>)
      ensures rc == OK <==> out.Some?
      ensures rc == OK ==>
                Current(out.value) && ReadyNow() && !bsp.degraded && !bsp.stageClaimed && bsp.authorityEpoch != 0
      ensures rc == ERR_BUSY ==> bsp.stageClaimed
      ensures rc == ERR_IO <==> !ReadyNow() || bsp.degraded || bsp.authorityEpoch == 0
      ensures rc == OK || rc == ERR_BUSY || rc == ERR_IO
    {
      if !ReadyNow() || bsp.degraded || bsp.authorityEpoch == 0 { return ERR_IO, None; }
      if bsp.stageClaimed { return ERR_BUSY, None; }
      return OK, Some(Snapshot(bsp.generation, bsp.authorityEpoch, bsp.leaseEpoch, bsm));
    }

    /** store_stage_authorize: invalidate the slot in both copies before its payload may change. */
    method StageAuthorize(expected: Snapshot, slot: u32, image: Image, io1: Io, io2: Io)
      returns (rc: int, ghost progress: Staging)
      requires Valid() && IoOk(crc, io1) && IoOk(crc, io2)
      modifies this`sectors, this`bsm, this`bsp, this`phase
      ensures Shape() && bsp.layout == old(bsp.layout)
      ensures rc == OK || rc == ERR_COMMIT_UNKNOWN || rc == STORE_STALE || rc == STORE_BUSY
      ensures rc == STORE_STALE <==> !old(MayStageFrom(expected, slot, image))
      ensures rc == STORE_BUSY <==> old(bsp.stageClaimed) && old(MayStageFrom(expected, slot, image))
      ensures rc == STORE_STALE || rc == STORE_BUSY ==>
                Abs() == old(Abs()) && Valid() && bsp == old(bsp) && sectors == old(sectors)
      ensures rc != STORE_STALE && rc != STORE_BUSY ==>
                && slot < 2 && MayStageNow(old(Abs()), slot, image) && StagingLands(old(Abs()), slot, image, progress)
                && Abs() == Staged(old(Abs()), slot, image, progress)
                && (rc == OK <==> progress == PayloadLost(payloads[slot])) && bsp.stageClaimed == (rc == OK)
                && (rc != OK ==> progress.FirstLost? || progress.SecondLost?)
                && (rc == OK ==> ReadyNow() && !bsp.blank) && (rc != OK ==> !bsp.ready && !bsp.blank)
                && (io1 == WORKS && io2 == WORKS ==> rc == OK)
    {
      hide View, DecodeRecord, ManagerValid, Bind, IoOk, DiskOk, NamesCanonical, Inv, MayStage, Invalidated, Published,
           KeepsKnownGood, Staged, StagingLands;
      ghost var before := Abs();
      progress := Complete;
      if !ReadyNow() || bsp.degraded || !Current(expected) || slot >= 2 || bsp.generation > U64_MAX - 3 ||
         !MayStage(bsm, slot, image)
      {
        InRangeIfStageable(bsm, slot, image);
        return STORE_STALE, progress;
      }
      if bsp.stageClaimed { return STORE_BUSY, progress; }
      InvalidatedValid(bsp.layout, Abs(), slot, image);
      bsp := bsp.(stageClaimed := true);
      var baseGeneration, baseCopy := bsp.generation, bsp.activeCopy;
      var candidate := Invalidated(bsm, slot, image);
      ghost var second;
      rc, second := WriteTwice(candidate, Other(baseCopy), baseGeneration + 1, io1, io2);
      if rc != OK {
        progress := if second then SecondLost(Durable().At(baseCopy)) else FirstLost(Durable().At(Other(baseCopy)));
        StagingWrites(before, slot, image, progress.after);
        bsp := bsp.(ready := false, stageClaimed := false);
        phase := BoundUnknown;
        return;
      }
      StagingWrites(before, slot, image, Blank);
      bsm := candidate;
      bsp := bsp.(activeCopy := baseCopy, generation := baseGeneration + 2);
      progress := PayloadLost(payloads[slot]);
    }

    /** The slot is VALID with exactly this image, and its payload region holds the image's digest. */
    ghost predicate Offers(slot: u32, image: Image)
      requires Shape()
      reads this
    {
      && ReadyNow() && slot < 2 && payloads[slot] == Some(image.sha)
      && bsm.At(slot).state.Valid? && bsm.At(slot).Identity() == image
    }

    /** store_stage_publish: the third write, from the state an authorization left. */
    method StagePublish(slot: u32, image: Image, io3: Io, ghost before: System)
      returns (rc: int, ghost progress: Staging)
      requires Shape() && ReadyNow() && !bsp.blank && IoOk(crc, io3) && Inv(bsp.layout, before)
      requires MayStageNow(before, slot, image)
      requires Abs() == Staged(before, slot, image, PayloadLost(Some(image.sha)))
      modifies this`sectors, this`bsm, this`bsp, this`phase
      ensures Shape() && !bsp.stageClaimed && bsp.layout == old(bsp.layout) && (bsp.blank ==> !bsp.ready)
      ensures StagingLands(before, slot, image, progress) && Abs() == Staged(before, slot, image, progress)
      ensures rc == OK <==> progress.Complete?
      ensures rc == OK ==> ReadyNow()
      ensures rc != OK ==> rc == ERR_COMMIT_UNKNOWN && progress.ThirdLost? && !bsp.ready
      ensures io3 == WORKS ==> rc == OK
    {
      hide View, DecodeRecord, ManagerValid, Bind, IoOk, DiskOk, NamesCanonical, Inv, MayStage, Invalidated, Published,
           KeepsKnownGood;
      PublishedValid(bsp.layout, before, slot, image);
      assert bsm == Invalidated(before.ram.m, slot, image);
      var candidate := Published(bsm, slot, image);
      var target := Other(bsp.activeCopy);
      rc := WriteVerified(candidate, target, bsp.generation + 1, io3);
      bsp := bsp.(stageClaimed := false);
      if rc != OK {
        progress := ThirdLost(Durable().At(target));
        bsp := bsp.(ready := false);
        phase := BoundUnknown;
        return;
      }
      bsm := candidate;
      bsp := bsp.(activeCopy := target, generation := bsp.generation + 1);
      progress := Complete;
    }

    /** store_stage_preflight, but for the digest: a slot of the layout, and an image and payload that fit it. */
    predicate MayOffer(slot: u32, image: Image, length: nat)
      reads this
    {
      slot < 2 && length == image.payloadSize &&
      ImageValid(image, if slot == 0 then bsp.layout.slot0.capacity else bsp.layout.slot1.capacity)
    }

    /** boot_slot_store_stage_inactive_authorized: preflight, authorize, write and verify the payload, publish. `bound`
        is whether the store's binding is the one in force, `length` and `offered` are the payload in hand. */
    method StageInactive(
      expected: Snapshot, bound: bool, slot: u32, image: Image, length: nat, offered: seq<byte>, io1: Io, io2: Io,
      written: PayloadIo, io3: Io)
      returns (rc: int, ghost e: Event)
      requires Valid() && IoOk(crc, io1) && IoOk(crc, io2) && IoOk(crc, io3)
      modifies this
      ensures Valid() && bsp.layout == old(bsp.layout) && Next(bsp.layout, old(Abs()), e, Abs())
      ensures !bsp.stageClaimed && (e.Stage? || e.Refuse?)
      ensures rc == OK <==> e.Stage? && e.progress.Complete?
      ensures rc == OK ==> Offers(slot, image) && bsp.generation == old(bsp.generation) + 3
      ensures e.Stage? <==> bound && old(MayOffer(slot, image, length)) && offered == image.sha &&
                            old(MayStageFrom(expected, slot, image)) && !old(bsp.stageClaimed)
      ensures e.Stage? ==> e.slot == slot && e.image == image
      ensures rc == ERR_IO <==> bound && !old(MayOffer(slot, image, length))
      ensures e.Refuse? && rc == STORE_VERIFY <==> bound && old(MayOffer(slot, image, length)) && offered != image.sha
      ensures rc == STORE_BUSY <==> bound && old(MayOffer(slot, image, length)) && offered == image.sha &&
                                    old(MayStageFrom(expected, slot, image)) && old(bsp.stageClaimed)
      ensures rc == STORE_STALE <==>
              !bound || (old(MayOffer(slot, image, length)) && offered == image.sha &&
                         !old(MayStageFrom(expected, slot, image)))
      ensures e.Stage? && rc == STORE_VERIFY ==> written.writes && !written.Verifies(image) && e.progress.PayloadLost?
      ensures e.Stage? && io1 == WORKS && io2 == WORKS && io3 == WORKS ==>
                rc == if !written.writes then ERR_COMMIT_UNKNOWN
                      else if !written.Verifies(image) then STORE_VERIFY
                      else if !written.header then ERR_COMMIT_UNKNOWN
                      else OK
      ensures e.Refuse? ==> Abs() == old(Abs()) && sectors == old(sectors) && payloads == old(payloads)
    {
      hide View, DecodeRecord, ManagerValid, Bind, IoOk, DiskOk, NamesCanonical, Inv, MayStage, Invalidated, Published,
           Next, ImageValid, Staged, StagingLands, MayOffer, Offers;
      e := Refuse;
      ghost var before := Abs();
      RefuseIsNext(bsp.layout, before);
      ghost var progress;
      if !bound {
        rc := STORE_STALE;
      } else if !MayOffer(slot, image, length) {
        rc := ERR_IO;
      } else if offered != image.sha {
        rc := STORE_VERIFY;
      } else {
        rc, progress := StageAuthorize(expected, slot, image, io1, io2);
      }
      if !bound || rc == ERR_IO || rc == STORE_VERIFY || rc == STORE_STALE || rc == STORE_BUSY {
        bsp := bsp.(stageClaimed := false);
        return;
      }
      if rc == OK {
        rc, progress := StageRest(slot, image, written, io3, before);
      }
      e := Stage(slot, image, progress);
      StageIsNext(bsp.layout, before, slot, image, progress);
    }

    /** store_stage_payload and then store_stage_publish, from the state an authorization left. */
    method StageRest(slot: u32, image: Image, written: PayloadIo, io3: Io, ghost before: System)
      returns (rc: int, ghost progress: Staging)
      requires Shape() && ReadyNow() && !bsp.blank && IoOk(crc, io3) && Inv(bsp.layout, before) && slot < 2
      requires MayStageNow(before, slot, image)
      requires Abs() == Staged(before, slot, image, PayloadLost(payloads[slot]))
      modifies this`sectors, this`bsm, this`bsp, this`phase, this`payloads
      ensures Shape() && !bsp.stageClaimed && bsp.layout == old(bsp.layout) && (bsp.blank ==> !bsp.ready)
      ensures StagingLands(before, slot, image, progress) && Abs() == Staged(before, slot, image, progress)
      ensures rc == OK <==> progress.Complete?
      ensures bsp.ready ==> ReadyNow()
      ensures rc == OK ==> Offers(slot, image) && bsp.generation == before.ram.g + 3
      ensures rc == OK || rc == ERR_COMMIT_UNKNOWN || rc == STORE_VERIFY
      ensures rc == STORE_VERIFY ==> written.writes && !written.Verifies(image) && progress.PayloadLost?
      ensures io3 == WORKS ==>
                rc == if !written.writes then ERR_COMMIT_UNKNOWN
                      else if !written.Verifies(image) then STORE_VERIFY
                      else if !written.header then ERR_COMMIT_UNKNOWN
                      else OK
    {
      hide View, DecodeRecord, ManagerValid, Bind, IoOk, DiskOk, NamesCanonical, Inv, MayStage, Invalidated, Published,
           Next, ImageValid;
      payloads := payloads[slot := written.digest];
      progress := PayloadLost(written.digest);
      if !written.writes || !written.Verifies(image) || !written.header {
        bsp := bsp.(stageClaimed := false);
        rc := if written.writes && !written.Verifies(image) then STORE_VERIFY else ERR_COMMIT_UNKNOWN;
        return;
      }
      rc, progress := StagePublish(slot, image, io3, before);
      if rc == OK { CompleteOffers(bsp.layout, before, slot, image); }
    }
  }
}
