/** Every run of the slot manager: lifecycle steps, interrupted writes, crashes and rebinds. */
module BootRuns {
  import opened Words
  import opened BootSlots
  import opened BootCodec
  import opened BootPersist
  import opened BootLifecycle

  /** The manager in memory: bound and ready, bound to an unformatted disk, or unable to act. */
  datatype Ram = Ready(m: Manager, g: u64, active: u32, degraded: bool) | Unwritten | Down

  datatype System = System(disk: Disk, ram: Ram)

  /** How far a staging got: each loss names what the interrupted write left behind. */
  datatype Staging =
    | FirstLost(after: Copy)
    | SecondLost(after: Copy)
    | PayloadLost(digest: Option<seq<byte>>)
    | ThirdLost(after: Copy)
    | Complete

  datatype Formatting = FirstCopyLost(after: Copy) | SecondCopyLost(after: Copy) | BothWritten

  /** One step. `done` is whether the caller was told that the commit is durable; `after` is the written sector. */
  datatype Event =
    | Arm(slot: u32, after: Copy, done: bool)
    | Select(code: int, slot: u32, after: Copy)
    | SelectUnknown(after: Copy)
    | Confirm(slot: u32, generation: u64, after: Copy, done: bool)
    | Revert(after: Copy, done: bool)
    | Repair(after: Copy, done: bool)
    | Stage(slot: u32, image: Image, progress: Staging)
    | Format(image: Image, steps: Formatting)
    | Reboot
    | Refuse

  /** bs_commit_locked with a passing guard. */
  predicate Commit(s: System, candidate: Manager, after: Copy, done: bool, s': System) {
    && s.ram.Ready? && s.ram.g < U64_MAX
    && var t := Other(s.ram.active);
       var intended := Record(candidate, s.ram.g + 1);
       && Lands(s.disk.At(t), intended, after)
       && (done ==> after == intended)
       && s' == System(s.disk.With(t, after), if done then Ready(candidate, s.ram.g + 1, t, false) else Down)
  }

  /** What a rebind leaves in memory. */
  function RamOf(b: Binding): Ram {
    match b
    case Bound(m, g, active, degraded) => Ready(m, g, active, degraded)
    case Unformatted => Unwritten
    case Refused => Down
  }

  predicate MayStageNow(s: System, slot: u32, image: Image) {
    s.ram.Ready? && !s.ram.degraded && s.ram.g <= U64_MAX - 3 && MayStage(s.ram.m, slot, image)
  }

  /** The disk after both invalidating writes. */
  function InvalidatedDisk(s: System, slot: u32, image: Image): Disk
    requires MayStageNow(s, slot, image)
  {
    var c := Invalidated(s.ram.m, slot, image);
    s.disk.With(Other(s.ram.active), Record(c, s.ram.g + 1)).With(s.ram.active, Record(c, s.ram.g + 2))
  }

  /** The record the third write publishes. */
  function PublishedCopy(s: System, slot: u32, image: Image): Copy
    requires MayStageNow(s, slot, image)
  {
    Record(Published(Invalidated(s.ram.m, slot, image), slot, image), s.ram.g + 3)
  }

  /** Invalidate the slot in both copies, write the payload, publish: the state at each possible end. */
  function Staged(s: System, slot: u32, image: Image, progress: Staging): System
    requires MayStageNow(s, slot, image)
  {
    var a, t, g := s.ram.active, Other(s.ram.active), s.ram.g;
    var c := Invalidated(s.ram.m, slot, image);
    var d2 := InvalidatedDisk(s, slot, image);
    var d3 := d2.WithPayload(slot, Some(image.sha));
    match progress
    case FirstLost(after) => System(s.disk.With(t, after), Down)
    case SecondLost(after) => System(s.disk.With(t, Record(c, g + 1)).With(a, after), Down)
    case PayloadLost(digest) => System(d2.WithPayload(slot, digest), Ready(c, g + 2, a, false))
    case ThirdLost(after) => System(d3.With(t, after), Down)
    case Complete =>
      var copy := PublishedCopy(s, slot, image);
      System(d3.With(t, copy), Ready(copy.m, g + 3, t, false))
  }

  predicate StagingLands(s: System, slot: u32, image: Image, progress: Staging)
    requires MayStageNow(s, slot, image)
  {
    var c := Invalidated(s.ram.m, slot, image);
    match progress
    case FirstLost(after) => Lands(s.disk.At(Other(s.ram.active)), Record(c, s.ram.g + 1), after)
    case SecondLost(after) => Lands(s.disk.At(s.ram.active), Record(c, s.ram.g + 2), after)
    case PayloadLost(_) => true
    case ThirdLost(after) => Lands(Record(c, s.ram.g + 1), PublishedCopy(s, slot, image), after)
    case Complete => true
  }

  /** boot_slot_internal_initialize_persistent_locked: generation 1 to the first copy, 2 to the second. */
  function FormattedSystem(l: Layout, s: System, image: Image, steps: Formatting): System {
    var m := Formatted(l, image);
    match steps
    case FirstCopyLost(after) => System(s.disk.With(0, after), Down)
    case SecondCopyLost(after) => System(s.disk.With(0, Record(m, 1)).With(1, after), Down)
    case BothWritten => System(s.disk.With(0, Record(m, 1)).With(1, Record(m, 2)), Ready(m, 2, 1, false))
  }

  predicate FormattingLands(l: Layout, s: System, image: Image, steps: Formatting) {
    match steps
    case FirstCopyLost(after) => Lands(s.disk.copy0, Record(Formatted(l, image), 1), after)
    case SecondCopyLost(after) => Lands(s.disk.copy1, Record(Formatted(l, image), 2), after)
    case BothWritten => true
  }

  predicate Next(l: Layout, s: System, e: Event, s': System) {
    match e
    case Arm(slot, after, done) =>
      s.ram.Ready? && MayArm(s.ram.m, slot) && s.ram.m.confirmedSlot < 2 &&
      Commit(s, Armed(s.ram.m, slot), after, done, s')
    case Select(code, slot, after) =>
      s.ram.Ready? &&
      var m := s.ram.m;
      if m.pendingSlot == SLOT_NONE then code == 0 && slot == m.confirmedSlot && s' == s
      else if m.pendingSlot >= 2 || m.confirmedSlot >= 2 then false
      else if m.tries > 0 then
        code == 1 && slot == m.pendingSlot && Commit(s, Attempted(m), after, true, s')
      else
        code == 2 && slot == m.confirmedSlot && Commit(s, RolledBack(m), after, true, s')
    case SelectUnknown(after) =>
      s.ram.Ready? && s.ram.m.pendingSlot < 2 && s.ram.m.confirmedSlot < 2 &&
      Commit(s, if s.ram.m.tries > 0 then Attempted(s.ram.m) else RolledBack(s.ram.m), after, false, s')
    case Confirm(slot, generation, after, done) =>
      s.ram.Ready? && generation == s.ram.g && MayConfirm(s.ram.m, slot) && s.ram.m.confirmedSlot < 2 &&
      Commit(s, Confirmed(s.ram.m, slot), after, done, s')
    case Revert(after, done) =>
      s.ram.Ready? && s.ram.m.rollbackPending && s.ram.m.pendingSlot < 2 && s.ram.m.confirmedSlot < 2 &&
      Commit(s, RolledBack(s.ram.m), after, done, s')
    case Repair(after, done) =>
      s.ram.Ready? && s.ram.degraded && Commit(s, s.ram.m, after, done, s')
    case Stage(slot, image, progress) =>
      MayStageNow(s, slot, image) && StagingLands(s, slot, image, progress) && s' == Staged(s, slot, image, progress)
    case Format(image, steps) =>
      s.ram.Unwritten? && LayoutPlan(l.bootSectors) == Some(l) && ImageValid(image, l.slot0.capacity) &&
      FormattingLands(l, s, image, steps) && s' == FormattedSystem(l, s, image, steps)
    case Reboot =>
      s'.disk == s.disk && (s'.ram == RamOf(Bind(s.disk, l)) || s'.ram == Down)
    case Refuse =>
      s' == s
  }

  predicate Run(l: Layout, states: seq<System>, events: seq<Event>) {
    && |states| == |events| + 1
    && forall i :: 0 <= i < |events| ==> Next(l, states[i], events[i], states[i + 1])
  }

  /** Memory is a cache of the disk: whatever is in memory is what a rebind would find. */
  predicate Inv(l: Layout, s: System) {
    DiskOk(s.disk) && (!s.ram.Down? ==> s.ram == RamOf(Bind(s.disk, l)))
  }

  // ----- one step -----

  lemma CommitKeepsInv(l: Layout, s: System, candidate: Manager, after: Copy, done: bool, s': System)
    requires Inv(l, s) && Commit(s, candidate, after, done, s') && Sound(s.ram.m, candidate)
    ensures Inv(l, s')
    ensures MayCommit(s.disk, l, candidate)
    ensures s'.disk == s.disk.With(Target(s.disk, l), after)
    ensures Lands(s.disk.At(Target(s.disk, l)), Intended(s.disk, l, candidate), after)
  {
    BoundIsRecord(s.disk, l);
    CommitCrashAtomic(s.disk, l, candidate, after);
  }

  /** The manager a step commits, when the step is a single commit. */
  function Candidate(m: Manager, e: Event): Manager
    requires IsCommit(e) && m.confirmedSlot < 2
    requires e.Arm? ==> e.slot < 2
    requires e.Confirm? ==> e.slot < 2
    requires e.Select? || e.SelectUnknown? || e.Revert? ==> m.pendingSlot < 2
  {
    match e
    case Arm(slot, _, _) => Armed(m, slot)
    case Confirm(slot, _, _, _) => Confirmed(m, slot)
    case Revert(_, _) => RolledBack(m)
    case Repair(_, _) => m
    case _ => if m.tries > 0 then Attempted(m) else RolledBack(m)
  }

  predicate IsCommit(e: Event) {
    e.Arm? || (e.Select? && e.code != 0) || e.SelectUnknown? || e.Confirm? || e.Revert? || e.Repair?
  }

  function AfterOf(e: Event): Copy
    requires IsCommit(e)
  {
    e.after
  }

  predicate DoneOf(e: Event)
    requires IsCommit(e)
  {
    e.Select? || (!e.SelectUnknown? && e.done)
  }

  /** The guard of a lifecycle step, apart from the commit itself. */
  predicate MayFire(m: Manager, g: u64, degraded: bool, e: Event)
    requires IsCommit(e)
  {
    && m.confirmedSlot < 2
    && match e
       case Arm(slot, _, _) => MayArm(m, slot)
       case Confirm(slot, generation, _, _) => generation == g && MayConfirm(m, slot)
       case Revert(_, _) => m.rollbackPending && m.pendingSlot < 2
       case Repair(_, _) => degraded
       case Select(code, slot, _) =>
         m.pendingSlot < 2 &&
         if m.tries > 0 then code == 1 && slot == m.pendingSlot else code == 2 && slot == m.confirmedSlot
       case SelectUnknown(_) => m.pendingSlot < 2
  }

  lemma CommitIsNext(l: Layout, s: System, e: Event, s': System)
    requires s.ram.Ready? && IsCommit(e) && MayFire(s.ram.m, s.ram.g, s.ram.degraded, e)
    requires Commit(s, Candidate(s.ram.m, e), AfterOf(e), DoneOf(e), s')
    ensures Next(l, s, e, s')
  {
  }

  /** And back: a lifecycle step is a commit whose guard holds. */
  lemma NextIsCommit(l: Layout, s: System, e: Event, s': System)
    requires Inv(l, s) && Next(l, s, e, s') && IsCommit(e)
    ensures s.ram.Ready? && ManagerValid(s.ram.m) && MayFire(s.ram.m, s.ram.g, s.ram.degraded, e)
    ensures Commit(s, Candidate(s.ram.m, e), AfterOf(e), DoneOf(e), s')
  {
    hide Commit, Armed, Attempted, RolledBack, Confirmed, SlotValid, LayoutPlan;
    BoundIsRecord(s.disk, l);
  }

  /** Whatever a guard lets through passes validation, and only a confirmation moves the known-good slot. */
  lemma CandidateSound(m: Manager, g: u64, degraded: bool, e: Event)
    requires ManagerValid(m) && NamesCanonical(m) && IsCommit(e) && MayFire(m, g, degraded, e)
    ensures Sound(m, Candidate(m, e)) && (!e.Confirm? ==> KeepsKnownGood(m, Candidate(m, e)))
  {
    ValidIsKnownGood(m);
    if e.Select? || e.SelectUnknown? || e.Revert? { PendingIsSet(m); }
    hide Sound, KeepsKnownGood, ManagerValid, Armed, Attempted, RolledBack, Confirmed;
    match e {
      case Arm(slot, _, _) => ArmSound(m, slot);
      case Confirm(slot, _, _, _) => ConfirmSound(m, slot);
      case Revert(_, _) => RollbackSound(m);
      case Repair(_, _) => RepairSound(m);
      case Select(_, _, _) => if m.tries > 0 { AttemptSound(m); } else { RollbackSound(m); }
      case SelectUnknown(_) => if m.tries > 0 { AttemptSound(m); } else { RollbackSound(m); }
    }
  }

  lemma PendingIsSet(m: Manager)
    requires m.pendingSlot < 2
    ensures m.pendingSlot != SLOT_NONE
  {
  }

  lemma RepairSound(m: Manager)
    requires ManagerValid(m) && NamesCanonical(m)
    ensures Sound(m, m) && KeepsKnownGood(m, m)
  {
    ValidIsKnownGood(m);
  }

  /** Every lifecycle step is one commit of a sound candidate; only a confirmation moves the known-good slot. */
  lemma CommitStep(l: Layout, s: System, e: Event, s': System) returns (candidate: Manager)
    requires Inv(l, s) && Next(l, s, e, s') && IsCommit(e)
    ensures s.ram.Ready? && s.ram == RamOf(Bind(s.disk, l))
    ensures s.ram.m.confirmedSlot < 2 && (e.Arm? || e.Confirm? ==> e.slot < 2)
    ensures e.Select? || e.SelectUnknown? || e.Revert? ==> s.ram.m.pendingSlot < 2
    ensures candidate == Candidate(s.ram.m, e)
    ensures Commit(s, candidate, AfterOf(e), DoneOf(e), s') && Sound(s.ram.m, candidate)
    ensures !e.Confirm? ==> KeepsKnownGood(s.ram.m, candidate)
    ensures Inv(l, s')
  {
    NextIsCommit(l, s, e, s');
    BoundIsRecord(s.disk, l);
    hide Next, ManagerValid, Bind, Sound, KeepsKnownGood, Armed, Attempted, RolledBack, Confirmed;
    candidate := Candidate(s.ram.m, e);
    CandidateSound(s.ram.m, s.ram.g, s.ram.degraded, e);
    CommitKeepsInv(l, s, candidate, AfterOf(e), DoneOf(e), s');
  }

  lemma BindIgnoresPayload(d: Disk, l: Layout, slot: u32, digest: Option<seq<byte>>)
    ensures Bind(d.WithPayload(slot, digest), l) == Bind(d, l)
    ensures DiskOk(d.WithPayload(slot, digest)) == DiskOk(d)
  {
  }

  /** The first invalidating write as a commit of its own. */
  function HalfInvalidatedDisk(s: System, slot: u32, image: Image): Disk
    requires MayStageNow(s, slot, image)
  {
    s.disk.With(Other(s.ram.active), Record(Invalidated(s.ram.m, slot, image), s.ram.g + 1))
  }

  /** A durable commit, and the commit that may follow it. */
  lemma CommitThenMay(d: Disk, l: Layout, candidate: Manager, next: Manager)
    requires MayCommit(d, l, candidate) && Bind(d, l).Bound? && Bind(d, l).g + 1 < U64_MAX
    requires ManagerValid(next) && NamesCanonical(next) && next.Geometry() == l
    ensures
      var d' := d.With(Target(d, l), Intended(d, l, candidate));
      && Bind(d', l) == Bound(candidate, Bind(d, l).g + 1, Target(d, l), false)
      && MayCommit(d', l, next)
  {
    CommitCrashAtomic(d, l, candidate, Intended(d, l, candidate));
    hide Bind, ManagerValid;
  }

  /** Staging is a chain of commits: each write goes over the copy a rebind would not choose. */
  lemma StagingChain(l: Layout, s: System, slot: u32, image: Image)
    requires Inv(l, s) && MayStageNow(s, slot, image)
    ensures
      var a, t, g, c := s.ram.active, Other(s.ram.active), s.ram.g, Invalidated(s.ram.m, slot, image);
      var d1, d2 := HalfInvalidatedDisk(s, slot, image), InvalidatedDisk(s, slot, image);
      && MayCommit(s.disk, l, c) && Target(s.disk, l) == t && Bind(s.disk, l) == Bound(s.ram.m, g, a, false)
      && MayCommit(d1, l, c) && Bind(d1, l) == Bound(c, g + 1, t, false) && Target(d1, l) == a
      && MayCommit(d2, l, PublishedCopy(s, slot, image).m) && Bind(d2, l) == Bound(c, g + 2, a, false)
  {
    var c, p := Invalidated(s.ram.m, slot, image), PublishedCopy(s, slot, image).m;
    StagingMay(l, s, slot, image);
    hide Bind, ManagerValid, NamesCanonical, MayStage, Invalidated, Published, MayCommit, Inv;
    CommitThenMay(s.disk, l, c, c);
    CommitThenMay(HalfInvalidatedDisk(s, slot, image), l, c, p);
  }

  lemma StagingMay(l: Layout, s: System, slot: u32, image: Image)
    requires Inv(l, s) && MayStageNow(s, slot, image)
    ensures Bind(s.disk, l) == Bound(s.ram.m, s.ram.g, s.ram.active, false) && s.ram.active < 2
    ensures MayCommit(s.disk, l, Invalidated(s.ram.m, slot, image))
    ensures
      var p := PublishedCopy(s, slot, image).m;
      ManagerValid(p) && NamesCanonical(p) && p.Geometry() == l
  {
    BoundIsRecord(s.disk, l);
    StageSound(s.ram.m, slot, image);
    hide Bind, ManagerValid, NamesCanonical, MayStage, KeepsKnownGood, Invalidated, Published;
  }

  lemma StageKeepsInv(l: Layout, s: System, slot: u32, image: Image, progress: Staging)
    requires Inv(l, s) && MayStageNow(s, slot, image) && StagingLands(s, slot, image, progress)
    ensures Inv(l, Staged(s, slot, image, progress))
  {
    hide Bind, ManagerValid, NamesCanonical, MayStage, Invalidated, Published;
    StagingChain(l, s, slot, image);
    match progress {
      case FirstLost(_) =>
      case SecondLost(_) =>
      case PayloadLost(digest) => BindIgnoresPayload(InvalidatedDisk(s, slot, image), l, slot, digest);
      case ThirdLost(_) =>
      case Complete => PublishedKeepsInv(l, s, slot, image);
    }
  }

  lemma PublishedKeepsInv(l: Layout, s: System, slot: u32, image: Image)
    requires Inv(l, s) && MayStageNow(s, slot, image)
    ensures Inv(l, Staged(s, slot, image, Complete))
  {
    hide Bind, ManagerValid, NamesCanonical, MayStage, Invalidated, Published;
    StagingChain(l, s, slot, image);
    var d2, p := InvalidatedDisk(s, slot, image), PublishedCopy(s, slot, image);
    BindIgnoresPayload(d2, l, slot, Some(image.sha));
    CommitCrashAtomic(d2.WithPayload(slot, Some(image.sha)), l, p.m, p);
  }

  lemma StepKeepsInv(l: Layout, s: System, e: Event, s': System)
    requires Inv(l, s) && Next(l, s, e, s')
    ensures Inv(l, s')
  {
    if IsCommit(e) {
      var _ := CommitStep(l, s, e, s');
    } else if e.Stage? {
      StageKeepsInv(l, s, e.slot, e.image, e.progress);
    } else if e.Format? {
      FormatSound(l, e.image);
    }
  }

  /** In every run from an arbitrary disk, memory never disagrees with what a rebind would find. */
  lemma {:induction false} RunKeepsInv(l: Layout, states: seq<System>, events: seq<Event>, n: nat)
    requires Run(l, states, events) && n <= |events| && Inv(l, states[0])
    ensures Inv(l, states[n])
  {
    if n > 0 {
      RunKeepsInv(l, states, events, n - 1);
      StepKeepsInv(l, states[n - 1], events[n - 1], states[n]);
    }
  }
}
