/** What every run of the slot manager guarantees about the durable state. */
module BootGuarantees {
  import opened Words
  import opened BootSlots
  import opened BootPersist
  import opened BootLifecycle
  import opened BootRuns

  // ----- how one step moves the durable state -----

  /** After a single-commit step a rebind finds the candidate, the previous manager, or refuses; it refuses
      exactly when an attempt was pending and the written copy does not decode. */
  lemma CommitOutcome(l: Layout, s: System, e: Event, s': System)
    requires Inv(l, s) && Next(l, s, e, s') && IsCommit(e)
    ensures s.ram.Ready? && Bind(s.disk, l).Bound? && Bind(s.disk, l).m == s.ram.m
    ensures s.ram.m.confirmedSlot < 2 && (e.Arm? || e.Confirm? ==> e.slot < 2)
    ensures e.Select? || e.SelectUnknown? || e.Revert? ==> s.ram.m.pendingSlot < 2
    ensures
      var b' := Bind(s'.disk, l);
      && (b'.Refused? <==> s.ram.m.pendingSlot != SLOT_NONE && !AfterOf(e).Record?)
      && (!b'.Refused? ==> b'.Bound? && (b'.m == s.ram.m || b'.m == Candidate(s.ram.m, e)))
      && (DoneOf(e) ==> b'.Bound? && b'.m == Candidate(s.ram.m, e) && b'.g == s.ram.g + 1)
  {
    var candidate := CommitStep(l, s, e, s');
    BoundIsRecord(s.disk, l);
    CommitKeepsInv(l, s, candidate, AfterOf(e), DoneOf(e), s');
    CommitCrashAtomic(s.disk, l, candidate, AfterOf(e));
  }

  /** The manager a rebind finds after staging stopped: as before, invalidated, or published; published only
      if the third write landed. Staging never leads to a refusal. */
  lemma StagingBinding(l: Layout, s: System, slot: u32, image: Image, progress: Staging)
    requires Inv(l, s) && MayStageNow(s, slot, image) && StagingLands(s, slot, image, progress)
    ensures
      var m, b' := s.ram.m, Bind(Staged(s, slot, image, progress).disk, l);
      && b'.Bound?
      && (progress.Complete? ==> b'.m == PublishedCopy(s, slot, image).m && b'.g == s.ram.g + 3)
      && (|| b'.m == m
          || b'.m == Invalidated(m, slot, image)
          || (b'.m == PublishedCopy(s, slot, image).m &&
              (progress.Complete? || progress == ThirdLost(PublishedCopy(s, slot, image)))))
  {
    StagingChain(l, s, slot, image);
    hide Bind, ManagerValid, NamesCanonical, MayStage, Invalidated, Published;
    var c, p := Invalidated(s.ram.m, slot, image), PublishedCopy(s, slot, image);
    var d2 := InvalidatedDisk(s, slot, image);
    BindIgnoresPayload(d2, l, slot, Some(image.sha));
    match progress {
      case FirstLost(after) => CommitCrashAtomic(s.disk, l, c, after);
      case SecondLost(after) => CommitCrashAtomic(HalfInvalidatedDisk(s, slot, image), l, c, after);
      case PayloadLost(digest) => BindIgnoresPayload(d2, l, slot, digest);
      case ThirdLost(after) => CommitCrashAtomic(d2.WithPayload(slot, Some(image.sha)), l, p.m, after);
      case Complete => CommitCrashAtomic(d2.WithPayload(slot, Some(image.sha)), l, p.m, p);
    }
  }

  /** Publish safety: wherever staging stops, a rebind succeeds, the known-good slot is untouched, and the
      target slot is as it was, FAILED with the new image, or VALID with the new image; the last only if the
      third write landed. */
  lemma StagingOutcome(l: Layout, s: System, slot: u32, image: Image, progress: Staging)
    requires Inv(l, s) && MayStageNow(s, slot, image) && StagingLands(s, slot, image, progress)
    ensures
      var m, b' := s.ram.m, Bind(Staged(s, slot, image, progress).disk, l);
      && b'.Bound? && b'.m.pendingSlot == SLOT_NONE && KeepsKnownGood(m, b'.m)
      && (progress.Complete? ==> b'.m.At(slot).state == Valid)
      && (|| b'.m.At(slot) == m.At(slot)
          || (b'.m.At(slot).Identity() == image && b'.m.At(slot).state == Failed)
          || (b'.m.At(slot).Identity() == image && b'.m.At(slot).state == Valid &&
              (progress.Complete? || progress == ThirdLost(PublishedCopy(s, slot, image)))))
  {
    StagingBinding(l, s, slot, image, progress);
    BoundIsRecord(s.disk, l);
    ValidIsKnownGood(s.ram.m);
    StageSound(s.ram.m, slot, image);
  }

  predicate Bootable(state: SlotState) { state.Valid? || state.Active? || state.Rollback? }

  /** No decodable copy lists the slot as one that may be booted or armed. */
  predicate NowhereBootable(d: Disk, slot: u32) {
    && (d.copy0.Record? ==> !Bootable(d.copy0.m.At(slot).state))
    && (d.copy1.Record? ==> !Bootable(d.copy1.m.At(slot).state))
  }

  /** From the second invalidating write until the third write, no copy offers the slot whose payload changes. */
  lemma PayloadWindowClosed(s: System, slot: u32, image: Image, progress: Staging)
    requires MayStageNow(s, slot, image) && StagingLands(s, slot, image, progress)
    requires s.ram.active < 2
    ensures NowhereBootable(InvalidatedDisk(s, slot, image), slot)
    ensures progress.PayloadLost? ==> NowhereBootable(Staged(s, slot, image, progress).disk, slot)
    ensures progress.ThirdLost? && progress.after != PublishedCopy(s, slot, image) ==>
              NowhereBootable(Staged(s, slot, image, progress).disk, slot)
  {
  }

  /** Interrupted formatting: a rebind finds the new manager, an unformatted disk, or refuses only garbage. */
  lemma FormattingOutcome(l: Layout, s: System, image: Image, steps: Formatting)
    requires Inv(l, s) && s.ram.Unwritten? && LayoutPlan(l.bootSectors) == Some(l)
    requires ImageValid(image, l.slot0.capacity) && FormattingLands(l, s, image, steps)
    ensures
      var b' := Bind(FormattedSystem(l, s, image, steps).disk, l);
      && (b'.Bound? ==> b'.m == Formatted(l, image))
      && (b'.Bound? ==> b'.m.slot0.Identity() == image && b'.m.slot0.state == Active && b'.m.confirmedSlot == 0)
      && (b'.Refused? <==> steps == FirstCopyLost(Garbage))
      && (b'.Unformatted? <==> steps == FirstCopyLost(Blank))
  {
    FormatSound(l, image);
    FormatSettled(l, image);
    UnwrittenIsBlank(l, s);
    hide ManagerValid, LayoutPlan, ImageValid, Formatted, NamesCanonical, Bind, Inv;
    var m := Formatted(l, image);
    match steps {
      case FirstCopyLost(after) =>
        BindFresh(s.disk.With(0, after), l, m);
      case SecondCopyLost(after) =>
        BindFresh(s.disk.With(0, Record(m, 1)).With(1, after), l, m);
      case BothWritten =>
        BindFresh(s.disk.With(0, Record(m, 1)).With(1, Record(m, 2)), l, m);
    }
  }

  lemma FormatSettled(l: Layout, image: Image)
    ensures Formatted(l, image).pendingSlot == SLOT_NONE && Formatted(l, image).confirmedSlot == 0
  {
  }

  /** What a bind finds on a disk that was blank, once a format wrote some of its copies. */
  lemma BindFresh(d: Disk, l: Layout, m: Manager)
    requires m.Geometry() == l && m.pendingSlot == SLOT_NONE
    ensures !d.copy0.Record? && d.copy1 == Blank ==> Bind(d, l) == if d.copy0 == Blank then Unformatted else Refused
    ensures d.copy0 == Record(m, 1) && !d.copy1.Record? ==> Bind(d, l) == Bound(m, 1, 0, true)
    ensures d.copy0 == Record(m, 1) && d.copy1 == Record(m, 2) ==> Bind(d, l) == Bound(m, 2, 1, false)
  {
  }

  lemma UnwrittenIsBlank(l: Layout, s: System)
    requires Inv(l, s) && s.ram.Unwritten?
    ensures s.disk.copy0.Blank? && s.disk.copy1.Blank?
  {
    hide DiskOk, Usable;
  }

  /** How any step other than a format moves what a rebind would find. */
  lemma StepMovesBinding(l: Layout, s: System, e: Event, s': System)
    requires Inv(l, s) && Next(l, s, e, s') && !e.Format?
    ensures
      var b, b' := Bind(s.disk, l), Bind(s'.disk, l);
      && (!b.Bound? ==> b' == b)
      && (b.Bound? && !IsCommit(e) && !e.Stage? ==> b' == b)
      && (b.Bound? ==> !b'.Unformatted?)
      && (b.Bound? && b'.Bound? && !e.Confirm? ==> KeepsKnownGood(b.m, b'.m))
  {
    if IsCommit(e) {
      var candidate := CommitStep(l, s, e, s');
      CommitOutcome(l, s, e, s');
    } else if e.Stage? {
      StagingOutcome(l, s, e.slot, e.image, e.progress);
    }
    if Bind(s.disk, l).Bound? {
      BoundIsRecord(s.disk, l);
      ValidIsKnownGood(Bind(s.disk, l).m);
    }
  }

  // ----- known-good fallback -----

  /** In every run without a confirmation, whatever a rebind finds at the end keeps the known-good slot and its
      image, health-confirmed and bootable; and a refusal is never followed by anything but refusals. */
  lemma {:induction false} KnownGoodFallback(l: Layout, states: seq<System>, events: seq<Event>, n: nat)
    requires Run(l, states, events) && n <= |events| && Inv(l, states[0])
    requires forall i :: 0 <= i < n ==> !events[i].Confirm? && !events[i].Format?
    requires !Bind(states[0].disk, l).Unformatted?
    ensures
      var b, b' := Bind(states[0].disk, l), Bind(states[n].disk, l);
      && (b.Refused? ==> b'.Refused?)
      && (b.Bound? ==> b'.Refused? || (b'.Bound? && KeepsKnownGood(b.m, b'.m)))
  {
    if n == 0 {
      if Bind(states[0].disk, l).Bound? {
        BoundIsRecord(states[0].disk, l);
        ValidIsKnownGood(Bind(states[0].disk, l).m);
      }
    } else {
      KnownGoodFallback(l, states, events, n - 1);
      RunKeepsInv(l, states, events, n - 1);
      StepMovesBinding(l, states[n - 1], events[n - 1], states[n]);
    }
  }

  // ----- at most one attempt -----

  /** Attempts still to be spent, as a rebind would find them. */
  function TriesLeft(l: Layout, d: Disk): nat {
    match Bind(d, l)
    case Bound(m, _, _, _) => m.tries
    case _ => 0
  }

  predicate BootsPending(e: Event) { e.Select? && e.code == 1 }

  function Attempts(events: seq<Event>): nat {
    if events == [] then 0
    else Attempts(events[..|events| - 1]) + if BootsPending(events[|events| - 1]) then 1 else 0
  }

  function Arms(events: seq<Event>): nat {
    if events == [] then 0
    else Arms(events[..|events| - 1]) + if events[|events| - 1].Arm? then 1 else 0
  }

  lemma StepSpendsTries(l: Layout, s: System, e: Event, s': System)
    requires Inv(l, s) && Next(l, s, e, s')
    ensures TriesLeft(l, s'.disk) + (if BootsPending(e) then 1 else 0) <=
            TriesLeft(l, s.disk) + (if e.Arm? then 1 else 0)
  {
    if Bind(s.disk, l).Bound? { BoundIsRecord(s.disk, l); }
    if IsCommit(e) {
      CommitOutcome(l, s, e, s');
    } else if e.Stage? {
      StepKeepsInv(l, s, e, s');
      StagingOutcome(l, s, e.slot, e.image, e.progress);
      BoundIsRecord(s'.disk, l);
    } else if e.Format? {
      FormattingOutcome(l, s, e.image, e.steps);
    }
  }

  /** In every run, crashes included, the pending slot is booted no more often than a slot was armed, counting
      an attempt already outstanding at the start. */
  lemma {:induction false} AttemptsBoundedByArms(l: Layout, states: seq<System>, events: seq<Event>)
    requires Run(l, states, events) && Inv(l, states[0])
    ensures Attempts(events) + TriesLeft(l, states[|events|].disk) <= TriesLeft(l, states[0].disk) + Arms(events)
  {
    var n := |events|;
    if n > 0 {
      assert Run(l, states[..n], events[..n - 1]);
      AttemptsBoundedByArms(l, states[..n], events[..n - 1]);
      RunKeepsInv(l, states, events, n - 1);
      StepSpendsTries(l, states[n - 1], events[n - 1], states[n]);
    }
  }

  lemma {:induction false} NoArmsCountsZero(events: seq<Event>)
    requires forall i :: 0 <= i < |events| ==> !events[i].Arm?
    ensures Arms(events) == 0
  {
    if events != [] { NoArmsCountsZero(events[..|events| - 1]); }
  }

  /** Between two arms, select tells the loader to boot the pending slot at most once. */
  lemma AtMostOneAttempt(l: Layout, states: seq<System>, events: seq<Event>)
    requires Run(l, states, events) && Inv(l, states[0])
    requires forall i :: 0 <= i < |events| ==> !events[i].Arm?
    ensures Attempts(events) <= 1
  {
    AttemptsBoundedByArms(l, states, events);
    NoArmsCountsZero(events);
    if Bind(states[0].disk, l).Bound? { BoundIsRecord(states[0].disk, l); }
  }

  // ----- after an unconfirmed attempt -----

  /** The attempt on `p` is spent or already failed; `c` is the slot to fall back to. */
  predicate AttemptSpent(b: Binding, p: u32, c: u32) {
    b.Bound? ==>
      && p < 2 && c < 2 && b.m.confirmedSlot == c
      && ((b.m.pendingSlot == p && b.m.tries == 0) || (b.m.pendingSlot == SLOT_NONE && b.m.At(p).state.Failed?))
  }

  predicate Unconfirmed(e: Event) { !e.Arm? && !e.Confirm? && !e.Stage? && !e.Format? }

  lemma SpentStep(l: Layout, s: System, e: Event, s': System, p: u32, c: u32)
    requires Inv(l, s) && Next(l, s, e, s') && Unconfirmed(e) && AttemptSpent(Bind(s.disk, l), p, c)
    ensures AttemptSpent(Bind(s'.disk, l), p, c)
    ensures e.Select? ==> e.slot == c && e.code != 1 && Bind(s'.disk, l).Bound? &&
                          Bind(s'.disk, l).m.At(p).state.Failed? && Bind(s'.disk, l).m.activeSlot == c
  {
    if Bind(s.disk, l).Bound? { BoundIsRecord(s.disk, l); }
    if IsCommit(e) {
      CommitOutcome(l, s, e, s');
    }
  }

  lemma {:induction false} SpentRun(l: Layout, states: seq<System>, events: seq<Event>, n: nat, p: u32, c: u32)
    requires Run(l, states, events) && n <= |events| && Inv(l, states[0])
    requires forall i :: 0 <= i < n ==> Unconfirmed(events[i])
    requires AttemptSpent(Bind(states[0].disk, l), p, c)
    ensures AttemptSpent(Bind(states[n].disk, l), p, c) && Inv(l, states[n])
  {
    if n > 0 {
      SpentRun(l, states, events, n - 1, p, c);
      SpentStep(l, states[n - 1], events[n - 1], states[n], p, c);
      StepKeepsInv(l, states[n - 1], events[n - 1], states[n]);
    }
  }

  lemma RunTail(l: Layout, states: seq<System>, events: seq<Event>)
    requires Run(l, states, events) && events != []
    ensures Run(l, states[1..], events[1..])
  {
    hide Next;
  }

  /** Once select has booted the pending slot, and until it is confirmed, every later successful select returns
      the confirmed slot of that moment and leaves the attempted slot FAILED, whatever crashes intervene. */
  lemma UnconfirmedFallsBack(l: Layout, states: seq<System>, events: seq<Event>)
    requires Run(l, states, events) && Inv(l, states[0]) && |events| >= 2
    requires BootsPending(events[0])
    requires forall i :: 1 <= i < |events| ==> Unconfirmed(events[i])
    requires events[|events| - 1].Select?
    ensures states[0].ram.Ready?
    ensures
      var last, b' := events[|events| - 1], Bind(states[|events|].disk, l);
      && last.slot == states[0].ram.m.confirmedSlot && last.code != 1
      && b'.Bound? && b'.m.At(events[0].slot).state.Failed? && b'.m.activeSlot == last.slot
  {
    hide Next, Bind, Inv, ManagerValid, AttemptSpent;
    BootSpends(l, states[0], events[0], states[1]);
    var p, c, n := events[0].slot, states[0].ram.m.confirmedSlot, |events|;
    RunTail(l, states, events);
    SpentRun(l, states[1..], events[1..], n - 2, p, c);
    SpentStep(l, states[n - 1], events[n - 1], states[n], p, c);
  }

  /** Booting the pending slot spends its attempt. */
  lemma BootSpends(l: Layout, s: System, e: Event, s': System)
    requires Inv(l, s) && Next(l, s, e, s') && BootsPending(e)
    ensures s.ram.Ready? && Inv(l, s') && AttemptSpent(Bind(s'.disk, l), e.slot, s.ram.m.confirmedSlot)
  {
    StepKeepsInv(l, s, e, s');
    CommitOutcome(l, s, e, s');
    NextIsCommit(l, s, e, s');
    hide Next, Bind, Inv, Commit;
  }

  // ----- a confirmation is earned -----

  /** The attempt on slot `p` is spent: selected for boot, or selected with an unknown outcome. */
  predicate Spends(e: Event, p: u32) { (BootsPending(e) && e.slot == p) || e.SelectUnknown? }

  predicate ArmedBy(events: seq<Event>, p: u32) {
    exists i :: 0 <= i < |events| && events[i].Arm? && events[i].slot == p
  }

  predicate SpentBy(events: seq<Event>, p: u32) {
    exists i, j :: 0 <= i < j < |events| && events[i].Arm? && events[i].slot == p && Spends(events[j], p)
  }

  predicate EarnedBy(events: seq<Event>, p: u32) {
    exists i, j, k :: 0 <= i < j < k < |events| && events[i].Arm? && events[i].slot == p && Spends(events[j], p) &&
                      events[k].Confirm? && events[k].slot == p
  }

  lemma ArmedByExtends(events: seq<Event>, e: Event, p: u32)
    requires ArmedBy(events, p) || (e.Arm? && e.slot == p)
    ensures ArmedBy(events + [e], p)
  {
    var all := events + [e];
    if ArmedBy(events, p) {
      var i :| 0 <= i < |events| && events[i].Arm? && events[i].slot == p;
      assert all[i] == events[i];
    } else {
      assert all[|events|] == e;
    }
  }

  lemma SpentByExtends(events: seq<Event>, e: Event, p: u32)
    requires SpentBy(events, p) || (ArmedBy(events, p) && Spends(e, p))
    ensures SpentBy(events + [e], p)
  {
    var all := events + [e];
    if SpentBy(events, p) {
      var i, j :| 0 <= i < j < |events| && events[i].Arm? && events[i].slot == p && Spends(events[j], p);
      assert all[i] == events[i] && all[j] == events[j];
    } else {
      var i :| 0 <= i < |events| && events[i].Arm? && events[i].slot == p;
      assert all[i] == events[i] && all[|events|] == e;
    }
  }

  lemma EarnedByExtends(events: seq<Event>, e: Event, p: u32)
    requires EarnedBy(events, p) || (SpentBy(events, p) && e.Confirm? && e.slot == p)
    ensures EarnedBy(events + [e], p)
  {
    var all := events + [e];
    if EarnedBy(events, p) {
      var i, j, k :| 0 <= i < j < k < |events| && events[i].Arm? && events[i].slot == p && Spends(events[j], p) &&
                     events[k].Confirm? && events[k].slot == p;
      assert all[i] == events[i] && all[j] == events[j] && all[k] == events[k];
    } else {
      var i, j :| 0 <= i < j < |events| && events[i].Arm? && events[i].slot == p && Spends(events[j], p);
      assert all[i] == events[i] && all[j] == events[j] && all[|events|] == e;
    }
  }

  /** While slot `c` is still the confirmed one, a pending slot was armed, and a spent attempt was selected. */
  predicate Justified(b: Binding, events: seq<Event>, c: u32) {
    b.Bound? ==>
      && b.m.confirmedSlot == c
      && (b.m.pendingSlot != SLOT_NONE ==> ArmedBy(events, b.m.pendingSlot))
      && (b.m.pendingSlot != SLOT_NONE && b.m.tries == 0 ==> SpentBy(events, b.m.pendingSlot))
  }

  lemma JustifiedExtends(b: Binding, events: seq<Event>, e: Event, c: u32)
    requires Justified(b, events, c)
    ensures Justified(b, events + [e], c)
  {
    if b.Bound? && b.m.pendingSlot != SLOT_NONE {
      ArmedByExtends(events, e, b.m.pendingSlot);
      if b.m.tries == 0 { SpentByExtends(events, e, b.m.pendingSlot); }
    }
  }

  lemma JustifiedCommit(l: Layout, s: System, e: Event, s': System, events: seq<Event>, c: u32)
    requires Inv(l, s) && Next(l, s, e, s') && IsCommit(e) && c < 2 && Justified(Bind(s.disk, l), events, c)
    ensures Justified(Bind(s'.disk, l), events + [e], c) || EarnedBy(events + [e], Other(c))
  {
    NextIsCommit(l, s, e, s');
    BoundIsRecord(s.disk, l);
    CommitOutcome(l, s, e, s');
    var m, p := s.ram.m, s.ram.m.pendingSlot;
    PendingIsOther(m);
    hide Bind, ManagerValid, ArmedBy, SpentBy, EarnedBy, Next, Commit, Inv;
    JustifiedExtends(Bind(s.disk, l), events, e, c);
    if e.Arm? {
      ArmedByExtends(events, e, e.slot);
    } else if e.Confirm? {
      EarnedByExtends(events, e, e.slot);
    } else if (e.Select? || e.SelectUnknown?) && m.tries > 0 {
      SpentByExtends(events, e, p);
    }
  }

  lemma PendingIsOther(m: Manager)
    requires ManagerValid(m)
    ensures m.confirmedSlot < 2 && m.tries <= 1
    ensures m.pendingSlot != SLOT_NONE ==> m.pendingSlot == Other(m.confirmedSlot)
  {
  }

  lemma JustifiedStep(l: Layout, s: System, e: Event, s': System, events: seq<Event>, c: u32)
    requires Inv(l, s) && Next(l, s, e, s') && !e.Format? && !Bind(s.disk, l).Unformatted?
    requires c < 2 && Justified(Bind(s.disk, l), events, c)
    ensures Justified(Bind(s'.disk, l), events + [e], c) || EarnedBy(events + [e], Other(c))
  {
    hide Bind, ManagerValid, ArmedBy, SpentBy, EarnedBy;
    StepMovesBinding(l, s, e, s');
    if IsCommit(e) {
      JustifiedCommit(l, s, e, s', events, c);
    } else if e.Stage? {
      StagingOutcome(l, s, e.slot, e.image, e.progress);
    } else {
      JustifiedExtends(Bind(s.disk, l), events, e, c);
    }
  }

  /** The confirmed slot of a settled disk changes only after that other slot was armed, then selected for boot,
      then confirmed, in this order. */
  lemma {:induction false} ConfirmationIsEarned(l: Layout, states: seq<System>, events: seq<Event>, c: u32)
    requires Run(l, states, events) && Inv(l, states[0])
    requires forall i :: 0 <= i < |events| ==> !events[i].Format?
    requires Bind(states[0].disk, l).Bound? && Bind(states[0].disk, l).m.pendingSlot == SLOT_NONE
    requires Bind(states[0].disk, l).m.confirmedSlot == c
    ensures c < 2 && (Justified(Bind(states[|events|].disk, l), events, c) || EarnedBy(events, Other(c)))
    ensures !Bind(states[|events|].disk, l).Unformatted?
  {
    BoundIsRecord(states[0].disk, l);
    var n := |events|;
    if n > 0 {
      var before, e := events[..n - 1], events[n - 1];
      assert before + [e] == events;
      assert Run(l, states[..n], before);
      ConfirmationIsEarned(l, states[..n], before, c);
      RunKeepsInv(l, states, events, n - 1);
      StepMovesBinding(l, states[n - 1], e, states[n]);
      if EarnedBy(before, Other(c)) {
        EarnedByExtends(before, e, Other(c));
      } else {
        JustifiedStep(l, states[n - 1], e, states[n], before, c);
      }
    }
  }

  // ----- payload integrity -----

  /** Every copy that offers a slot for booting names the digest of what is really in the slot's payload region. */
  predicate Intact(d: Disk) { IntactCopy(d, d.copy0) && IntactCopy(d, d.copy1) }

  predicate IntactCopy(d: Disk, c: Copy) {
    c.Record? ==>
      && (Bootable(c.m.slot0.state) ==> d.payload0 == Some(c.m.slot0.sha))
      && (Bootable(c.m.slot1.state) ==> d.payload1 == Some(c.m.slot1.sha))
  }

  lemma IntactAfter(d: Disk, i: u32, intended: Copy, after: Copy)
    requires Intact(d) && IntactCopy(d, intended) && Lands(d.At(i), intended, after)
    ensures Intact(d.With(i, after))
  {
  }

  /** The payload of a slot that no copy offers may be anything. */
  lemma PayloadFree(d: Disk, slot: u32, digest: Option<seq<byte>>)
    requires Intact(d) && NowhereBootable(d, slot) && slot < 2
    ensures Intact(d.WithPayload(slot, digest))
  {
  }

  lemma InvalidatedIntact(d: Disk, m: Manager, g: u64, slot: u32, image: Image, g': u64)
    requires IntactCopy(d, Record(m, g)) && slot < 2
    ensures IntactCopy(d, Record(Invalidated(m, slot, image), g'))
  {
  }

  lemma PublishedIntact(d: Disk, m: Manager, g: u64, slot: u32, image: Image, g': u64)
    requires IntactCopy(d, Record(m, g)) && slot < 2 && d.Payload(slot) == Some(image.sha)
    ensures IntactCopy(d, Record(Published(m, slot, image), g'))
  {
  }

  lemma StageKeepsIntact(l: Layout, s: System, slot: u32, image: Image, progress: Staging)
    requires Inv(l, s) && MayStageNow(s, slot, image) && StagingLands(s, slot, image, progress) && Intact(s.disk)
    ensures Intact(Staged(s, slot, image, progress).disk)
  {
    BoundIsRecord(s.disk, l);
    var a, t, g, c := s.ram.active, Other(s.ram.active), s.ram.g, Invalidated(s.ram.m, slot, image);
    assert IntactCopy(s.disk, Record(s.ram.m, g));
    InvalidatedIntact(s.disk, s.ram.m, g, slot, image, g + 1);
    PayloadWindowClosed(s, slot, image, PayloadLost(None));
    hide Bind, ManagerValid, ImageValid, Inv, Intact, IntactCopy, Invalidated, Published, NowhereBootable, MayStage;
    var d1, d2 := HalfInvalidatedDisk(s, slot, image), InvalidatedDisk(s, slot, image);
    IntactAfter(s.disk, t, Record(c, g + 1), if progress.FirstLost? then progress.after else Record(c, g + 1));
    if progress.FirstLost? { return; }
    InvalidatedIntact(d1, c, g + 1, slot, image, g + 2) by { IntactHolds(d1, t); }
    SameInvalidated(s.ram.m, slot, image);
    IntactAfter(d1, a, Record(c, g + 2), if progress.SecondLost? then progress.after else Record(c, g + 2));
    if progress.SecondLost? { return; }
    PayloadFree(d2, slot, if progress.PayloadLost? then progress.digest else Some(image.sha));
    if progress.PayloadLost? { return; }
    var d3, p := d2.WithPayload(slot, Some(image.sha)), PublishedCopy(s, slot, image);
    IntactHolds(d3, t);
    PublishedIntact(d3, c, g + 1, slot, image, g + 3);
    IntactAfter(d3, t, p, if progress.ThirdLost? then progress.after else p);
  }

  lemma IntactHolds(d: Disk, i: u32)
    requires Intact(d)
    ensures IntactCopy(d, d.At(i))
  {
  }

  /** Invalidating twice is invalidating once. */
  lemma SameInvalidated(m: Manager, slot: u32, image: Image)
    requires slot < 2
    ensures Invalidated(Invalidated(m, slot, image), slot, image) == Invalidated(m, slot, image)
  {
  }

  /** A committed candidate offers only slots the current manager offers, with the same digests. */
  predicate OffersNoMore(m: Manager, m': Manager) {
    && (Bootable(m'.slot0.state) ==> Bootable(m.slot0.state) && m'.slot0.sha == m.slot0.sha)
    && (Bootable(m'.slot1.state) ==> Bootable(m.slot1.state) && m'.slot1.sha == m.slot1.sha)
  }

  lemma CandidateOffersNoMore(m: Manager, g: u64, degraded: bool, e: Event)
    requires ManagerValid(m) && IsCommit(e) && MayFire(m, g, degraded, e)
    ensures OffersNoMore(m, Candidate(m, e))
  {
    hide SlotValid, LayoutPlan;
  }

  lemma StepKeepsIntact(l: Layout, s: System, e: Event, s': System)
    requires Inv(l, s) && Next(l, s, e, s') && Intact(s.disk)
    requires e.Format? ==> s.disk.payload0 == Some(e.image.sha)
    ensures Intact(s'.disk)
  {
    if IsCommit(e) {
      var candidate := CommitStep(l, s, e, s');
      NextIsCommit(l, s, e, s');
      BoundIsRecord(s.disk, l);
      CandidateOffersNoMore(s.ram.m, s.ram.g, s.ram.degraded, e);
      CommitKeepsIntact(l, s, candidate, AfterOf(e), DoneOf(e), s');
    } else if e.Stage? {
      StageKeepsIntact(l, s, e.slot, e.image, e.progress);
    }
  }

  lemma CommitKeepsIntact(l: Layout, s: System, candidate: Manager, after: Copy, done: bool, s': System)
    requires Inv(l, s) && Intact(s.disk) && Commit(s, candidate, after, done, s') && OffersNoMore(s.ram.m, candidate)
    ensures Intact(s'.disk)
  {
    BoundIsRecord(s.disk, l);
    assert IntactCopy(s.disk, s.disk.At(s.ram.active)) && IntactCopy(s.disk, s.disk.At(Other(s.ram.active)));
  }

  /** In every run whose formats name the payload already written, no copy ever offers a slot whose payload is
      not the one it names, crashes included. */
  lemma {:induction false} PayloadIntegrity(l: Layout, states: seq<System>, events: seq<Event>, n: nat)
    requires Run(l, states, events) && n <= |events| && Inv(l, states[0]) && Intact(states[0].disk)
    requires forall i :: 0 <= i < n && events[i].Format? ==> states[i].disk.payload0 == Some(events[i].image.sha)
    ensures Intact(states[n].disk)
  {
    if n > 0 {
      PayloadIntegrity(l, states, events, n - 1);
      RunKeepsInv(l, states, events, n - 1);
      StepKeepsIntact(l, states[n - 1], events[n - 1], states[n]);
    }
  }
}
