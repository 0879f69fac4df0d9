/** The lockout table against one counter a name (src/auth/auth_policy.c): what each entry point does slot by slot, and
    that users do not influence each other while the table has room for all of them. */
module LockoutLaws {
  import opened Words
  import opened Lockout
  import opened LockoutRuns

  // ----- one call, slot by slot -----

  /** Slot `i` is the one that counts for the name. */
  predicate FirstSlot(t: Table, name: string, i: int) {
    0 <= i < |t| && name != "" && t[i].name == name && forall j :: 0 <= j < i ==> t[j].name != name
  }

  lemma FindExactly(t: Table, name: string, i: nat)
    ensures Find(t, name) == Some(i) <==> FirstSlot(t, name, i)
  {
  }

  /** A name is refused exactly while the slot that counts for it is locked and its end not reached. */
  lemma RefusedExactly(t: Table, name: string, now: u64)
    ensures Refused(t, name, now) <==> exists i :: FirstSlot(t, name, i) && t[i].locked && now < t[i].until
  {
    if Find(t, name).Some? { FindExactly(t, name, Find(t, name).value); }
  }

  /** A check changes a slot exactly when it counts for the name and its lockout is over; the slot starts from zero. */
  lemma CheckExactly(t: Table, name: string, now: u64, i: nat)
    requires i < |t|
    ensures
      var a := t[i];
      Check(t, name, now)[i] ==
        if FirstSlot(t, name, i) && a.locked && a.until <= now then a.(failed := 0, locked := false) else a
  {
    FindExactly(t, name, i);
  }

  /** A success or an unlock clears the slot that counts for the name, and after it the name is never refused. */
  lemma ResetExactly(t: Table, name: string, i: nat, now: u64)
    requires i < |t|
    ensures
      var a := t[i];
      Reset(t, name)[i] == if FirstSlot(t, name, i) then a.(failed := 0, locked := false) else a
    ensures !Refused(Reset(t, name), name, now)
  {
    FindExactly(t, name, i);
    if Find(t, name).Some? {
      var k := Find(t, name).value;
      FindAgain(t, name, k, Cleared(t[k]));
    }
  }

  /** The entry one failure leaves: counted modulo 2^32, dated now, locked from the threshold on. */
  function Failed(a: Attempt, cfg: Config, now: u64): Attempt {
    var count := (a.failed as int + 1) % 0x1_0000_0000;
    if count < cfg.maxAttempts then Attempt(a.name, count, now, a.until, a.locked)
    else Attempt(a.name, count, now, (now as int + cfg.duration as int) % 0x1_0000_0000_0000_0000, true)
  }

  /** A failure of a tracked name counts in its slot and changes no other. */
  lemma FailTrackedExactly(t: Table, cfg: Config, name: string, scan: u64, now: u64, i: nat)
    requires FirstSlot(t, name, i)
    ensures Fail(t, cfg, name, scan, now) == t[i := Failed(t[i], cfg, now)]
  {
    FindExactly(t, name, i);
    FailTracked(t, cfg, name, scan, now, i);
    FailureIsFailed(t[i], cfg, now);
  }

  /** A name not tracked takes the first free slot, with the first 31 characters of its name. */
  lemma FailFreshExactly(t: Table, cfg: Config, name: string, scan: u64, now: u64, i: nat)
    requires Find(t, name).None? && i < |t| && t[i].name == "" && forall j :: 0 <= j < i ==> t[j].name != ""
    ensures Fail(t, cfg, name, scan, now) ==
            t[i := Failed(t[i].(name := if |name| < 32 then name else name[..31]), cfg, now)]
  {
    FailureIsFailed(t[i].(name := Stored(name)), cfg, now);
  }

  lemma {:induction false} LruFirst(t: Table, n: nat)
    requires n <= |t| && Lru(t, n).Some?
    ensures forall j :: 0 <= j < Lru(t, n).value && !t[j].locked ==> t[Lru(t, n).value].lastFail < t[j].lastFail
  {
    if Lru(t, n - 1).Some? && Lru(t, n) == Lru(t, n - 1) { LruFirst(t, n - 1); }
  }

  /** In a full table lockouts that are over are lifted, and the entry that failed longest ago among the unlocked ones,
      the first of equals, gives way to the new name. */
  lemma FailEvictsExactly(t: Table, cfg: Config, name: string, scan: u64, now: u64, victim: nat)
    requires Find(t, name).None? && (forall i :: 0 <= i < |t| ==> t[i].name != "") && victim < |t|
    requires var v := Lifted(t[victim], scan);
             && !v.locked && v.lastFail < TICK_MAX
             && forall i :: 0 <= i < |t| && !Lifted(t[i], scan).locked ==>
                              if i < victim then v.lastFail < Lifted(t[i], scan).lastFail
                              else v.lastFail <= Lifted(t[i], scan).lastFail
    ensures
      var r := Fail(t, cfg, name, scan, now);
      && (forall i :: 0 <= i < |t| && i != victim ==> r[i] == Lifted(t[i], scan))
      && r[victim] == Failed(Attempt(if |name| < 32 then name else name[..31], 0, 0, 0, false), cfg, now)
  {
    var e := ExpireAll(t, scan);
    assert forall i :: 0 <= i < |t| ==> e[i] == Lifted(t[i], scan);
    assert Lru(e, |e|) == Some(victim) by {
      LruFirst(e, |e|);
      assert !e[victim].locked && e[victim].lastFail < TICK_MAX;
    }
    FailureIsFailed(FREE.(name := Stored(name)), cfg, now);
    hide ExpireAll, Lru, Failure;
  }

  /** A lockout that is over is forgotten, with the failures that led to it. */
  function Lifted(a: Attempt, now: u64): Attempt {
    if a.locked && a.until <= now then a.(failed := 0, locked := false) else a
  }

  lemma FailureIsFailed(a: Attempt, cfg: Config, now: u64)
    ensures Failure(a, cfg, now) == Failed(a, cfg, now)
  {
    CountOnce(a.failed);
  }

  lemma CountOnce(x: u32)
    ensures Inc32(x) == (x as int + 1) % 0x1_0000_0000
  {
  }

  // ----- one counter a name -----

  /** One event of a name on its counter. */
  function OwnStep(was: Option<Attempt>, cfg: Config, e: Event): Option<Attempt> {
    if e.Failing? then
      Some(Failed(if was.Some? then was.value else Attempt(e.name, 0, 0, 0, false), cfg, e.now))
    else if was.None? then None
    else if e.Checking? then Some(Lifted(was.value, e.now))
    else Some(was.value.(failed := 0, locked := false))
  }

  /** The reference: one counter for this name alone, moved by its own events and by nobody else's. */
  function Own(cfg: Config, es: seq<Event>, name: string): Option<Attempt> {
    if es == [] then None
    else
      var was, e := Own(cfg, es[..|es| - 1], name), es[|es| - 1];
      if e.name == name then OwnStep(was, cfg, e) else was
  }

  /** What the table holds for the name. */
  function Entry(t: Table, name: string): Option<Attempt> {
    var i := Find(t, name);
    if i.None? then None else Some(t[i.value])
  }

  /** The names that ever failed. */
  function FailedNames(es: seq<Event>): set<string> {
    set k | 0 <= k < |es| && es[k].Failing? :: es[k].name
  }

  lemma FailedNamesLast(es: seq<Event>)
    requires es != []
    ensures
      var n := |es| - 1;
      FailedNames(es) == FailedNames(es[..n]) + if es[n].Failing? then {es[n].name} else {}
  {
    var n := |es| - 1;
    forall s ensures s in FailedNames(es) <==> s in FailedNames(es[..n]) + if es[n].Failing? then {es[n].name} else {} {
      if s in FailedNames(es) {
        var k :| 0 <= k < |es| && es[k].Failing? && es[k].name == s;
        if k < n { assert es[..n][k].name == s; }
      }
      if s in FailedNames(es[..n]) {
        var k :| 0 <= k < n && es[..n][k].Failing? && es[..n][k].name == s;
        assert es[k].name == s;
      }
    }
  }

  /** Every slot in use carries a name that failed. */
  predicate Named(t: Table, names: set<string>) {
    forall i :: 0 <= i < |t| && t[i].name != "" ==> t[i].name in names
  }

  lemma {:induction false} FullCount(t: Table, n: nat) returns (used: set<string>)
    requires n <= |t| && DistinctNames(t) && forall i :: 0 <= i < n ==> t[i].name != ""
    ensures |used| == n && used == set i | 0 <= i < n :: t[i].name
  {
    used := {};
    if n > 0 {
      var before := FullCount(t, n - 1);
      assert t[n - 1].name !in before;
      used := before + {t[n - 1].name};
    }
  }

  /** While fewer names than slots failed, or as many with this one among them, an untracked name finds a free slot. */
  lemma RoomForOne(t: Table, names: set<string>, name: string)
    requires DistinctNames(t) && Named(t, names) && |names + {name}| <= |t|
    requires name != "" && Find(t, name).None?
    ensures FirstFree(t, 0).Some?
  {
    if FirstFree(t, 0).None? {
      var used := FullCount(t, |t|);
      assert used <= names && name !in used;
      SubsetCount(used + {name}, names + {name});
    }
  }

  lemma {:induction false} SubsetCount(a: set<string>, b: set<string>)
    requires a <= b
    ensures |a| <= |b|
    decreases |a|
  {
    if a != {} {
      var x :| x in a;
      SubsetCount(a - {x}, b - {x});
    }
  }

  /** One slot is given to a name, or kept by it: that name is found there, and others as before. */
  lemma SlotGiven(t: Table, k: nat, a: Attempt, name: string)
    requires k < |t| && a.name == name != "" && (t[k].name == name || t[k].name == "")
    requires Find(t, name) == Some(k) || Find(t, name).None?
    ensures Entry(t[k := a], name) == Some(a)
    ensures forall other :: other != name ==> Entry(t[k := a], other) == Entry(t, other)
  {
    var after := t[k := a];
    FindExactly(after, name, k);
    forall other | other != name
      ensures Find(after, other) == Find(t, other)
    {
      var r := Find(t, other);
      if r.Some? {
        FindExactly(t, other, r.value);
        FindExactly(after, other, r.value);
      }
    }
  }

  /** What one event does to the table is what it does to the counter of its own name. */
  lemma StepIsOwn(t: Table, cfg: Config, clock: u64, names: set<string>, e: Event)
    requires Inv(t, cfg, clock) && ValidName(e.name) && Named(t, names)
    requires e.Failing? ==> |names + {e.name}| <= |t|
    ensures Entry(Step(t, cfg, e), e.name) == OwnStep(Entry(t, e.name), cfg, e)
    ensures forall other :: other != e.name ==> Entry(Step(t, cfg, e), other) == Entry(t, other)
    ensures Named(Step(t, cfg, e), if e.Failing? then names + {e.name} else names)
  {
    var i := Find(t, e.name);
    if i.Some? {
      var k := i.value;
      var a := OwnStep(Some(t[k]), cfg, e).value;
      FindExactly(t, e.name, k);
      if e.Failing? { FailTrackedExactly(t, cfg, e.name, e.scan, e.now, k); }
      SlotGiven(t, k, a, e.name);
    } else if e.Failing? {
      RoomForOne(t, names, e.name);
      var k := FirstFree(t, 0).value;
      assert SlotOk(t[k], cfg, clock);
      FailFreshExactly(t, cfg, e.name, e.scan, e.now, k);
      SlotGiven(t, k, Failed(FREE.(name := e.name), cfg, e.now), e.name);
    }
  }

  /** Users do not influence each other: in every timely run in which no more names fail than the table has slots, it
      holds for each name exactly the counter that name's own failures, checks and resets give, whatever others do in
      between. */
  lemma {:induction false} OneCounterEach(cfg: Config, slots: nat, start: u64, es: seq<Event>, name: string)
    requires cfg.maxAttempts > 0 && Timely(es, start, cfg) && |FailedNames(es)| <= slots
    ensures Entry(Run(Empty(slots), cfg, es), name) == Own(cfg, es, name)
    ensures Named(Run(Empty(slots), cfg, es), FailedNames(es))
  {
    if es != [] {
      var n := |es| - 1;
      var before, e := Run(Empty(slots), cfg, es[..n]), es[n];
      TimelyPrefix(es, start, cfg);
      FailedNamesLast(es);
      SubsetCount(FailedNames(es[..n]), FailedNames(es));
      OneCounterEach(cfg, slots, start, es[..n], name);
      EmptyTableInv(cfg, slots, start);
      RunKeepsInv(Empty(slots), cfg, start, es[..n]);
      hide Timely, Inv, Empty, Entry, OwnStep, Step, Named, FailedNames, TimelyEvent;
      StepIsOwn(before, cfg, Clock(es[..n], start), FailedNames(es[..n]), e);
    }
  }

  /** So a name is refused exactly while its own counter is locked. */
  lemma RefusedByOwn(cfg: Config, slots: nat, start: u64, es: seq<Event>, name: string, now: u64)
    requires cfg.maxAttempts > 0 && Timely(es, start, cfg) && |FailedNames(es)| <= slots
    ensures Refused(Run(Empty(slots), cfg, es), name, now) <==>
            Own(cfg, es, name).Some? && Own(cfg, es, name).value.locked && now < Own(cfg, es, name).value.until
  {
    OneCounterEach(cfg, slots, start, es, name);
  }

  /** With more names than slots a counter is lost: the evicted name is as if it had never failed. */
  lemma EvictionForgets(t: Table, cfg: Config, name: string, scan: u64, now: u64, victim: nat)
    requires DistinctNames(t) && ValidName(name) && Find(t, name).None?
    requires (forall i :: 0 <= i < |t| ==> t[i].name != "") && Lru(ExpireAll(t, scan), |t|) == Some(victim)
    ensures Entry(Fail(t, cfg, name, scan, now), t[victim].name).None?
  {
    hide Failure, Fail, ExpireAll, Lru, Find, DistinctNames;
    Evicts(t, cfg, name, scan, now, victim);
    GoneFrom(t, Fail(t, cfg, name, scan, now), victim);
  }

  lemma Evicts(t: Table, cfg: Config, name: string, scan: u64, now: u64, victim: nat)
    requires ValidName(name) && Find(t, name).None?
    requires (forall i :: 0 <= i < |t| ==> t[i].name != "") && Lru(ExpireAll(t, scan), |t|) == Some(victim)
    ensures
      var after := Fail(t, cfg, name, scan, now);
      after[victim].name == name != t[victim].name && t[victim].name != "" &&
      forall j :: 0 <= j < |t| && j != victim ==> after[j].name == t[j].name
  {
    FailureKeepsName(FREE.(name := Stored(name)), cfg, now);
    hide Failure, Lru;
  }

  lemma GoneFrom(t: Table, after: Table, victim: nat)
    requires DistinctNames(t) && victim < |t| == |after| && t[victim].name != ""
    requires after[victim].name != t[victim].name
    requires forall j :: 0 <= j < |t| && j != victim ==> after[j].name == t[j].name
    ensures Find(after, t[victim].name).None?
  {
  }
}
