/** What every run of the lockout table keeps: unique names, sticky lockouts, no lockout before its time. */
module LockoutRuns {
  import opened Words
  import opened Lockout

  // ----- the invariant is kept -----

  lemma FindNamed(t: Table, name: string, i: nat)
    requires DistinctNames(t) && i < |t| && t[i].name == name != ""
    ensures Find(t, name) == Some(i)
  {
  }

  lemma UpdateKeepsInv(t: Table, cfg: Config, clock: u64, i: nat, a: Attempt)
    requires Inv(t, cfg, clock) && i < |t| && SlotOk(a, cfg, clock)
    requires a.name == t[i].name || (a.name != "" && Find(t, a.name).None?)
    ensures Inv(t[i := a], cfg, clock)
  {
    hide SlotOk;
  }

  lemma LaterKeepsInv(t: Table, cfg: Config, clock: u64, later: u64)
    requires Inv(t, cfg, clock) && clock <= later
    ensures Inv(t, cfg, later)
  {
  }

  lemma ExpireKeepsInv(t: Table, cfg: Config, clock: u64, now: u64)
    requires Inv(t, cfg, clock)
    ensures Inv(ExpireAll(t, now), cfg, clock)
  {
  }

  /** Allocation keeps the invariant, and hands out the slot of that name. */
  lemma AllocKeepsInv(t: Table, cfg: Config, clock: u64, name: string, now: u64)
    requires Inv(t, cfg, clock) && ValidName(name)
    ensures Inv(Alloc(t, name, now).0, cfg, clock)
    ensures Alloc(t, name, now).1.Some? ==> Alloc(t, name, now).0[Alloc(t, name, now).1.value].name == name
  {
    var found, free := Find(t, name), FirstFree(t, 0);
    if found.None? {
      if free.Some? {
        assert SlotOk(t[free.value], cfg, clock);
        UpdateKeepsInv(t, cfg, clock, free.value, FREE.(name := name));
      } else {
        ExpireKeepsInv(t, cfg, clock, now);
        var e := ExpireAll(t, now);
        var victim := Lru(e, |e|);
        hide ExpireAll, Inv;
        if victim.Some? {
          UpdateKeepsInv(e, cfg, clock, victim.value, FREE.(name := name)) by { BlankOk(name, cfg, clock, e); }
        }
      }
    }
  }

  lemma BlankOk(name: string, cfg: Config, clock: u64, t: Table)
    requires Inv(t, cfg, clock) && ValidName(name)
    ensures SlotOk(FREE.(name := name), cfg, clock)
  {
  }

  lemma FailureOk(a: Attempt, cfg: Config, clock: u64, now: u64)
    requires cfg.maxAttempts > 0 && SlotOk(a, cfg, clock) && a.name != ""
    requires clock <= now && now as int + cfg.duration <= TICK_MAX
    ensures SlotOk(Failure(a, cfg, now), cfg, now) && Failure(a, cfg, now).name == a.name
  {
  }

  /** One event keeps the invariant. */
  lemma StepKeepsInv(t: Table, cfg: Config, clock: u64, e: Event)
    requires Inv(t, cfg, clock) && ValidName(e.name) && TimelyEvent(e, clock, cfg)
    ensures Inv(Step(t, cfg, e), cfg, ClockAfter(e, clock))
  {
    var i := Find(t, e.name);
    match e
    case Failing(name, scan, now) =>
      AllocKeepsInv(t, cfg, clock, name, scan);
      var a := Alloc(t, name, scan);
      LaterKeepsInv(a.0, cfg, clock, now);
      if a.1.Some? {
        FailureOk(a.0[a.1.value], cfg, clock, now);
        hide Alloc, Failure;
        UpdateKeepsInv(a.0, cfg, now, a.1.value, Failure(a.0[a.1.value], cfg, now));
      }
    case Checking(name, now) =>
      LaterKeepsInv(t, cfg, clock, now);
      if i.Some? { UpdateKeepsInv(t, cfg, now, i.value, Expire(t[i.value], now)); }
    case Resetting(name) =>
      if i.Some? { UpdateKeepsInv(t, cfg, clock, i.value, Cleared(t[i.value])); }
  }

  lemma TimelyPrefix(es: seq<Event>, start: u64, cfg: Config)
    requires es != [] && Timely(es, start, cfg)
    ensures Timely(es[..|es| - 1], start, cfg)
    ensures TimelyEvent(es[|es| - 1], Clock(es[..|es| - 1], start), cfg) && ValidName(es[|es| - 1].name)
  {
    var before := es[..|es| - 1];
    forall k | 0 <= k < |before|
      ensures TimelyEvent(before[k], Clock(before[..k], start), cfg)
    {
      assert before[..k] == es[..k];
    }
  }

  /** In every run with names of 1 to 31 characters and a monotone clock: names stay unique, free slots blank, unlocked
      entries below the threshold. */
  lemma {:induction false} RunKeepsInv(t: Table, cfg: Config, start: u64, es: seq<Event>)
    requires Inv(t, cfg, start) && Timely(es, start, cfg)
    ensures Inv(Run(t, cfg, es), cfg, Clock(es, start))
  {
    if es != [] {
      var n := |es| - 1;
      TimelyPrefix(es, start, cfg);
      RunKeepsInv(t, cfg, start, es[..n]);
      hide Inv, Step, Timely;
      StepKeepsInv(Run(t, cfg, es[..n]), cfg, Clock(es[..n], start), es[n]);
    }
  }

  lemma EmptyTableInv(cfg: Config, n: nat, start: u64)
    requires cfg.maxAttempts > 0
    ensures Inv(Empty(n), cfg, start)
  {
  }

  // ----- sticky lockouts -----

  /** The name is locked, at least until that tick. */
  predicate LockedTo(t: Table, name: string, tick: u64) {
    var i := Find(t, name);
    i.Some? && t[i.value].locked && t[i.value].until >= tick
  }

  predicate Before(e: Event, tick: u64) {
    match e
    case Failing(_, scan, now) => scan < tick && now < tick
    case Checking(_, now) => now < tick
    case Resetting(_) => true
  }

  /** A failure of another name does not touch a locked slot. */
  lemma FailElsewhere(t: Table, cfg: Config, name: string, scan: u64, now: u64, i: nat)
    requires i < |t| && t[i].name != "" && t[i].name != name && t[i].locked && scan < t[i].until
    ensures Fail(t, cfg, name, scan, now)[i] == t[i]
  {
    hide Failure;
  }

  /** A failure of the locked name itself can only move its end further off. */
  lemma LongerLock(t: Table, cfg: Config, clock: u64, scan: u64, now: u64, name: string, i: nat)
    requires Find(t, name) == Some(i) && t[i].locked && SlotOk(t[i], cfg, clock)
    requires clock <= now && now as int + cfg.duration <= TICK_MAX
    ensures
      var b := Fail(t, cfg, name, scan, now)[i];
      b.name == name && b.locked && b.until >= t[i].until
  {
  }

  lemma LockedStep(t: Table, cfg: Config, clock: u64, e: Event, name: string, tick: u64)
    requires Inv(t, cfg, clock) && ValidName(e.name) && TimelyEvent(e, clock, cfg)
    requires LockedTo(t, name, tick) && Before(e, tick) && e != Resetting(name)
    ensures LockedTo(Step(t, cfg, e), name, tick)
  {
    var i := Find(t, name).value;
    var after := Step(t, cfg, e);
    StepKeepsInv(t, cfg, clock, e);
    assert SlotOk(t[i], cfg, clock);
    assert DistinctNames(after);
    hide Inv, SlotOk, DistinctNames, Alloc, Failure;
    assert after[i].name == name && after[i].locked && after[i].until >= tick by {
      if e.name == name {
        match e {
          case Failing(_, scan, now) =>
            LongerLock(t, cfg, clock, scan, now, name, i);
          case _ =>
        }
      } else {
        match e {
          case Failing(other, scan, now) => FailElsewhere(t, cfg, other, scan, now, i);
          case _ =>
        }
      }
    }
    FindNamed(after, name, i);
  }

  /** Sticky lockout: in every run on a monotone clock that does not reset the name itself, whatever failures and checks
      it holds, a locked name is still refused at every moment before its lockout ends. */
  lemma {:induction false} StickyLockout(
    t: Table, cfg: Config, start: u64, es: seq<Event>, name: string, tick: u64, now: u64)
    requires Inv(t, cfg, start) && Timely(es, start, cfg) && LockedTo(t, name, tick)
    requires (forall e :: e in es ==> Before(e, tick)) && Resetting(name) !in es && now < tick
    ensures LockedTo(Run(t, cfg, es), name, tick) && Refused(Run(t, cfg, es), name, now)
  {
    if es != [] {
      var n := |es| - 1;
      TimelyPrefix(es, start, cfg);
      StickyLockout(t, cfg, start, es[..n], name, tick, now);
      RunKeepsInv(t, cfg, start, es[..n]);
      hide Inv, Step, Timely;
      assert es[n] in es;
      LockedStep(Run(t, cfg, es[..n]), cfg, Clock(es[..n], start), es[n], name, tick);
    }
  }

  // ----- no lockout before its time -----

  /** The failures recorded for a name since it was last reset. */
  function Tally(es: seq<Event>, name: string): nat {
    if es == [] then 0
    else
      var before := Tally(es[..|es| - 1], name);
      match es[|es| - 1]
      case Failing(n, _, _) => if n == name then before + 1 else before
      case Resetting(n) => if n == name then 0 else before
      case Checking(_, _) => before
  }

  /** A slot counts no failure that was not recorded, and is locked only after the configured number of them. */
  predicate Accounted(a: Attempt, cfg: Config, es: seq<Event>) {
    a.name != "" ==> a.failed <= Tally(es, a.name) && (a.locked ==> cfg.maxAttempts <= Tally(es, a.name))
  }

  lemma FailureKeepsName(a: Attempt, cfg: Config, now: u64)
    ensures Failure(a, cfg, now).name == a.name
  {
  }

  lemma FailAccounted(t: Table, cfg: Config, clock: u64, es: seq<Event>, e: Event, i: nat)
    requires Inv(t, cfg, clock) && e.Failing? && ValidName(e.name) && i < |t| && Accounted(t[i], cfg, es)
    ensures Accounted(Step(t, cfg, e)[i], cfg, es + [e])
  {
  }

  lemma StepAccounted(t: Table, cfg: Config, clock: u64, es: seq<Event>, e: Event, i: nat)
    requires Inv(t, cfg, clock) && ValidName(e.name) && i < |t| && Accounted(t[i], cfg, es)
    ensures Accounted(Step(t, cfg, e)[i], cfg, es + [e])
  {
    if e.Failing? {
      FailAccounted(t, cfg, clock, es, e, i);
    } else {
      assert (es + [e])[..|es|] == es;
      if t[i].name == e.name { FindNamed(t, e.name, i); }
    }
  }

  /** In every run from an empty table, an entry is locked only if its name failed at least the configured number of
      times since it was last reset. */
  lemma {:induction false} NoEarlyLock(cfg: Config, slots: nat, start: u64, es: seq<Event>, i: nat)
    requires cfg.maxAttempts > 0 && Timely(es, start, cfg) && i < slots
    ensures Accounted(Run(Empty(slots), cfg, es)[i], cfg, es)
  {
    hide Empty;
    if es != [] {
      var n := |es| - 1;
      var empty := Empty(slots);
      TimelyPrefix(es, start, cfg);
      NoEarlyLock(cfg, slots, start, es[..n], i);
      EmptyTableInv(cfg, slots, start);
      RunKeepsInv(empty, cfg, start, es[..n]);
      hide Inv, Step, Timely, Accounted, Empty, Tally;
      StepAccounted(Run(empty, cfg, es[..n]), cfg, Clock(es[..n], start), es[..n], es[n], i);
      assert es[..n] + [es[n]] == es;
    }
  }

  // ----- the lockout does come -----

  /** One more failure of a tracked name. */
  lemma FailTracked(t: Table, cfg: Config, name: string, scan: u64, now: u64, i: nat)
    requires Find(t, name) == Some(i)
    ensures Fail(t, cfg, name, scan, now) == t[i := Failure(t[i], cfg, now)]
  {
  }

  /** How long a lockout lasts: a failure that reaches the threshold at tick `now` has the name refused at exactly the
      ticks before the end of the configured duration, and allowed again from then on. */
  lemma LockoutLasts(t: Table, cfg: Config, name: string, scan: u64, now: u64, i: nat, x: u64)
    requires Find(t, name) == Some(i) && cfg.maxAttempts <= t[i].failed as int + 1 < 0x1_0000_0000
    requires now as int + cfg.duration <= TICK_MAX
    ensures Refused(Fail(t, cfg, name, scan, now), name, x) <==> x as int < now as int + cfg.duration
  {
    FailTracked(t, cfg, name, scan, now, i);
    var after := t[i := Failure(t[i], cfg, now)];
    FindAgain(t, name, i, after[i]);
  }

  /** A slot that keeps its name is still the one found. */
  lemma FindAgain(t: Table, name: string, i: nat, a: Attempt)
    requires Find(t, name) == Some(i) && a.name == name
    ensures Find(t[i := a], name) == Some(i)
  {
    var after := t[i := a];
    var r := Find(after, name);
    assert after[i].name == name && forall j :: 0 <= j < i ==> after[j].name == t[j].name != name;
  }

  lemma FailureCounts(a: Attempt, cfg: Config, now: u64)
    ensures
      var b := Failure(a, cfg, now);
      && b.failed == (a.failed as int + 1) % 0x1_0000_0000 && b.lastFail == now && b.name == a.name
      && b.locked == (a.locked || b.failed >= cfg.maxAttempts)
  {
  }

  /** An entry after `total` failures, counted modulo 2^32, is locked from the threshold on. */
  predicate Counted(a: Attempt, cfg: Config, total: nat) {
    a.failed == total % 0x1_0000_0000 && (total >= cfg.maxAttempts ==> a.locked)
  }

  lemma CountOn(a: Attempt, cfg: Config, total: nat, now: u64)
    requires Counted(a, cfg, total)
    ensures Counted(Failure(a, cfg, now), cfg, total + 1)
  {
    FailureCounts(a, cfg, now);
    hide Failure;
    var q := total / 0x1_0000_0000;
    assert total == 0x1_0000_0000 * q + a.failed;
    if a.failed == 0xffff_ffff { assert total + 1 == 0x1_0000_0000 * (q + 1); }
  }

  /** An entry after a run of failures. */
  function Failures(a: Attempt, cfg: Config, es: seq<Event>): Attempt
    requires forall k :: 0 <= k < |es| ==> es[k].Failing?
  {
    if es == [] then a else Failure(Failures(a, cfg, es[..|es| - 1]), cfg, es[|es| - 1].now)
  }

  lemma {:induction false} FailuresName(a: Attempt, cfg: Config, es: seq<Event>)
    requires forall k :: 0 <= k < |es| ==> es[k].Failing?
    ensures Failures(a, cfg, es).name == a.name
  {
    if es != [] {
      FailuresName(a, cfg, es[..|es| - 1]);
      FailureKeepsName(Failures(a, cfg, es[..|es| - 1]), cfg, es[|es| - 1].now);
    }
  }

  lemma {:induction false} FailuresCounted(a: Attempt, cfg: Config, es: seq<Event>, first: nat)
    requires Counted(a, cfg, first) && forall k :: 0 <= k < |es| ==> es[k].Failing?
    ensures Counted(Failures(a, cfg, es), cfg, first + |es|)
  {
    if es != [] {
      var n := |es| - 1;
      FailuresCounted(a, cfg, es[..n], first);
      hide Counted, Failure;
      CountOn(Failures(a, cfg, es[..n]), cfg, first + n, es[n].now);
    }
  }

  /** Failures of one tracked name touch its slot only. */
  lemma {:induction false} FailuresInPlace(t: Table, cfg: Config, es: seq<Event>, name: string, i: nat)
    requires Find(t, name) == Some(i) && forall k :: 0 <= k < |es| ==> es[k].Failing? && es[k].name == name
    ensures Run(t, cfg, es) == t[i := Failures(t[i], cfg, es)] && Find(Run(t, cfg, es), name) == Some(i)
  {
    FailuresName(t[i], cfg, es);
    FindAgain(t, name, i, Failures(t[i], cfg, es));
    if es != [] {
      var n := |es| - 1;
      FailuresInPlace(t, cfg, es[..n], name, i);
      hide Find, Fail, Failure;
      FailTracked(Run(t, cfg, es[..n]), cfg, name, es[n].scan, es[n].now, i);
    }
  }

  /** A run of failures of one tracked name counts every one of them, locked or not, locks at the threshold, and changes
      no other slot. */
  lemma FailuresCount(t: Table, cfg: Config, start: u64, es: seq<Event>, name: string, i: nat)
    requires Inv(t, cfg, start) && Find(t, name) == Some(i)
    requires forall k :: 0 <= k < |es| ==> es[k].Failing? && es[k].name == name
    ensures
      var after, total := Run(t, cfg, es), t[i].failed as int + |es|;
      && Find(after, name) == Some(i) && after == t[i := after[i]]
      && after[i].failed == total % 0x1_0000_0000 && (total >= cfg.maxAttempts ==> after[i].locked)
      && (total < 0x1_0000_0000 ==> after[i].failed == total)
  {
    hide Inv, Find, Run, Failures, Counted;
    CountedStart(t, cfg, start, i);
    FailuresInPlace(t, cfg, es, name, i);
    FailuresCounted(t[i], cfg, es, t[i].failed);
    CountedMeans(Failures(t[i], cfg, es), cfg, t[i].failed as int + |es|);
  }

  lemma CountedStart(t: Table, cfg: Config, clock: u64, i: nat)
    requires Inv(t, cfg, clock) && i < |t|
    ensures Counted(t[i], cfg, t[i].failed)
  {
    assert SlotOk(t[i], cfg, clock);
  }

  lemma CountedMeans(a: Attempt, cfg: Config, total: nat)
    requires Counted(a, cfg, total)
    ensures a.failed == total % 0x1_0000_0000 && (total >= cfg.maxAttempts ==> a.locked)
    ensures total < 0x1_0000_0000 ==> a.failed == total
  {
  }

  /** Enough failures in a row lock the account, for exactly the configured duration from the last of them (as long as
      the count of failures has not wrapped). */
  lemma ThresholdLocks(t: Table, cfg: Config, start: u64, es: seq<Event>, name: string, i: nat, x: u64)
    requires Inv(t, cfg, start) && Timely(es, start, cfg) && Find(t, name) == Some(i)
    requires es != [] && forall k :: 0 <= k < |es| ==> es[k].Failing? && es[k].name == name
    requires t[i].failed as int + |es| >= cfg.maxAttempts
    ensures Find(Run(t, cfg, es), name) == Some(i) && Run(t, cfg, es)[i].locked
    ensures t[i].failed as int + |es| < 0x1_0000_0000 ==>
              (Refused(Run(t, cfg, es), name, x) <==> x as int < es[|es| - 1].now as int + cfg.duration)
  {
    hide Inv, Find, Run, Refused, Timely;
    FailuresCount(t, cfg, start, es, name, i);
    if t[i].failed as int + |es| < 0x1_0000_0000 {
      var n := |es| - 1;
      FailuresCount(t, cfg, start, es[..n], name, i);
      LastInTime(es, start, cfg);
      RunLast(t, cfg, es);
      LockoutLasts(Run(t, cfg, es[..n]), cfg, name, es[n].scan, es[n].now, i, x);
    }
  }

  lemma LastInTime(es: seq<Event>, start: u64, cfg: Config)
    requires es != [] && Timely(es, start, cfg) && es[|es| - 1].Failing?
    ensures es[|es| - 1].now as int + cfg.duration <= TICK_MAX
  {
    TimelyPrefix(es, start, cfg);
  }

  lemma RunLast(t: Table, cfg: Config, es: seq<Event>)
    requires es != [] && es[|es| - 1].Failing?
    ensures
      var n := |es| - 1;
      Run(t, cfg, es) == Fail(Run(t, cfg, es[..n]), cfg, es[n].name, es[n].scan, es[n].now)
  {
  }

  // ----- names the table cannot follow -----

  /** Given a slot, a failure leaves its name tracked exactly when the name has 1 to 31 characters: a longer name is
      stored cut off and never found again, and the empty name leaves its slot free. */
  lemma TrackedExactly(t: Table, cfg: Config, name: string, scan: u64, now: u64)
    requires forall i :: 0 <= i < |t| ==> |t[i].name| < NAME_CAP
    requires Alloc(t, name, scan).1.Some?
    ensures Find(Fail(t, cfg, name, scan, now), name).Some? <==> ValidName(name)
  {
    var a := Alloc(t, name, scan);
    var i := a.1.value;
    FailureKeepsName(a.0[i], cfg, now);
    var after := Fail(t, cfg, name, scan, now);
    hide Failure;
    assert a.0[i].name == Stored(name);
    assert after[i].name == Stored(name);
    forall j | 0 <= j < |t| ensures |after[j].name| < NAME_CAP {
      assert |a.0[j].name| < NAME_CAP;
    }
    hide Fail, Alloc;
  }

  /** Given a slot, names stay unique through a failure exactly when the name is empty, or no other slot carries what
      is stored of it. For a name of 1 to 31 characters that always holds; a longer one is stored cut off, and
      collides with the slot an earlier failure of it took. */
  lemma DistinctExactly(t: Table, cfg: Config, clock: u64, name: string, scan: u64, now: u64, slot: nat)
    requires Inv(t, cfg, clock) && Alloc(t, name, scan).1 == Some(slot)
    ensures DistinctNames(Fail(t, cfg, name, scan, now)) <==>
            name == "" || forall j :: 0 <= j < |t| && j != slot ==> t[j].name != Stored(name)
  {
    var a, after := Alloc(t, name, scan).0, Fail(t, cfg, name, scan, now);
    FailureKeepsName(a[slot], cfg, now);
    hide Failure, SlotOk;
    assert after[slot].name == Stored(name);
    assert forall j :: 0 <= j < |t| && j != slot ==> after[j].name == t[j].name;
    hide Fail, Alloc;
    if name != "" && DistinctNames(after) {
      forall j | 0 <= j < |t| && j != slot ensures after[j].name != after[slot].name {
      }
    }
  }

  /** The first failures on an empty table: a name that is not found takes the first free slot. */
  lemma TakesFree(t: Table, cfg: Config, name: string, x: u64, slot: nat)
    requires slot < |t| && t[slot].name == "" && forall j :: 0 <= j < slot ==> t[j].name != ""
    requires Find(t, name).None?
    ensures Fail(t, cfg, name, x, x) == t[slot := Failure(t[slot].(name := Stored(name)), cfg, x)]
  {
  }

  lemma RunOne(t: Table, cfg: Config, es: seq<Event>, e: Event)
    ensures Run(t, cfg, es + [e]) == Step(Run(t, cfg, es), cfg, e)
  {
    assert (es + [e])[..|es|] == es;
  }

  /** A name of 32 or more characters takes a new slot at each failure, so on the table as it starts out two failures
      already make names no longer unique. */
  lemma LongNameDuplicates(cfg: Config, name: string, x: u64, y: u64)
    requires |name| >= NAME_CAP
    ensures !DistinctNames(Run(Empty(SLOTS), cfg, [Failing(name, x, x), Failing(name, y, y)]))
  {
    var t, e, e' := Empty(SLOTS), Failing(name, x, x), Failing(name, y, y);
    var taken := FREE.(name := Stored(name));
    FailureKeepsName(taken, cfg, x);
    FailureKeepsName(taken, cfg, y);
    hide Failure, Fail;
    TakesFree(t, cfg, name, x, 0);
    var one := Fail(t, cfg, name, x, x);
    TakesFree(one, cfg, name, y, 1);
    RunOne(t, cfg, [], e);
    RunOne(t, cfg, [e], e');
    assert [] + [e] == [e] && [e] + [e'] == [e, e'];
    var two := Run(t, cfg, [e, e']);
    assert two[0].name == two[1].name == Stored(name) != "";
  }

  predicate BlankWhenFree(t: Table) { forall i :: 0 <= i < |t| && t[i].name == "" ==> t[i] == FREE }

  /** Free slots stay blank through a failure exactly when the name is not empty or no slot was handed out: failures
      recorded for the empty name pile up in a free slot, and the next user to get that slot inherits them. */
  lemma BlankExactly(t: Table, cfg: Config, clock: u64, name: string, scan: u64, now: u64)
    requires Inv(t, cfg, clock)
    ensures BlankWhenFree(Fail(t, cfg, name, scan, now)) <==> name != "" || Alloc(t, name, scan).1.None?
  {
    var a := Alloc(t, name, scan);
    var after := Fail(t, cfg, name, scan, now);
    forall j | 0 <= j < |t| ensures a.0[j].name == "" && a.1 != Some(j) ==> a.0[j] == FREE {
      assert SlotOk(t[j], cfg, clock);
    }
    if a.1.Some? {
      var i := a.1.value;
      assert SlotOk(t[i], cfg, clock);
      assert a.0[i].name == Stored(name);
      FailureKeepsName(a.0[i], cfg, now);
      if name == "" { FailureNotBlank(a.0[i], cfg, now); }
      hide Failure, Alloc;
      assert after[i].name == Stored(name);
    }
  }

  lemma FailureNotBlank(a: Attempt, cfg: Config, now: u64)
    requires a.failed < 0xffff_ffff
    ensures Failure(a, cfg, now).failed > 0
  {
  }

  /** Failures of the empty name pile up in the first slot of an empty table, which stays free. */
  lemma {:induction false} EmptyNamePilesUp(cfg: Config, es: seq<Event>)
    requires |es| < cfg.maxAttempts
    requires forall i :: 0 <= i < |es| ==> es[i].Failing? && es[i].name == "" && es[i].scan == es[i].now
    ensures
      var after := Run(Empty(SLOTS), cfg, es);
      after[0].name == "" && after[0].failed == |es| && forall i :: 1 <= i < SLOTS ==> after[i] == FREE
  {
    if es != [] {
      var n := |es| - 1;
      var before := Run(Empty(SLOTS), cfg, es[..n]);
      EmptyNamePilesUp(cfg, es[..n]);
      TakesFree(before, cfg, "", es[n].now, 0);
    }
  }

  /** Whatever the threshold: one failure fewer of the empty name, and a fresh user is locked by a single failure. */
  lemma EmptyNameLocksOthers(cfg: Config, es: seq<Event>, name: string, x: u64)
    requires cfg.maxAttempts > 0 && |es| == cfg.maxAttempts as int - 1 && ValidName(name)
    requires forall i :: 0 <= i < |es| ==> es[i].Failing? && es[i].name == "" && es[i].scan == es[i].now
    ensures
      var after := Run(Empty(SLOTS), cfg, es + [Failing(name, x, x)]);
      Find(after, name) == Some(0) && after[0].locked
  {
    var before := Run(Empty(SLOTS), cfg, es);
    EmptyNamePilesUp(cfg, es);
    assert forall i :: 0 <= i < SLOTS ==> before[i].name == "";
    TakesFree(before, cfg, name, x, 0);
    RunOne(Empty(SLOTS), cfg, es, Failing(name, x, x));
  }
}
