/** The login lockout table as a value: what each entry point does to it, and what every run keeps
    (src/auth/auth_policy.c). */
module Lockout {
  import opened Words

  const SLOTS := 32
  const NAME_CAP := 32
  const TICK_MAX: u64 := 0xffff_ffff_ffff_ffff

  /** struct auth_attempt; a slot is free when its name is empty. */
  datatype Attempt = Attempt(name: string, failed: u32, lastFail: u64, until: u64, locked: bool)

  const FREE := Attempt("", 0, 0, 0, false)

  datatype Config = Config(maxAttempts: u32, duration: u64)

  type Table = seq<Attempt>

  /** A table of free slots. */
  function Empty(slots: nat): (t: Table)
    ensures |t| == slots && forall i :: 0 <= i < slots ==> t[i] == FREE
  {
    seq(slots, _ => FREE)
  }

  // ----- lookup and allocation -----

  /** find_existing: the first slot in use that carries the name. */
  function Find(t: Table, name: string): (r: Option<nat>)
    ensures r.Some? ==> r.value < |t| && t[r.value].name == name != ""
    ensures r.Some? ==> forall i :: 0 <= i < r.value ==> t[i].name != name
    ensures r.None? ==> name == "" || forall i :: 0 <= i < |t| ==> t[i].name != name
  {
    FindFrom(t, name, 0)
  }

  function FindFrom(t: Table, name: string, from: nat): (r: Option<nat>)
    requires from <= |t|
    ensures r.Some? ==> from <= r.value < |t| && t[r.value].name == name != ""
    ensures r.Some? ==> forall i :: from <= i < r.value ==> t[i].name != name
    ensures r.None? ==> name == "" || forall i :: from <= i < |t| ==> t[i].name != name
    decreases |t| - from
  {
    if from == |t| then None
    else if t[from].name != "" && t[from].name == name then Some(from)
    else FindFrom(t, name, from + 1)
  }

  /** The first free slot. */
  function FirstFree(t: Table, from: nat): (r: Option<nat>)
    requires from <= |t|
    ensures r.Some? ==> from <= r.value < |t| && t[r.value].name == ""
    ensures r.Some? ==> forall i :: from <= i < r.value ==> t[i].name != ""
    ensures r.None? ==> forall i :: from <= i < |t| ==> t[i].name != ""
    decreases |t| - from
  {
    if from == |t| then None else if t[from].name == "" then Some(from) else FirstFree(t, from + 1)
  }

  function Cleared(a: Attempt): Attempt { a.(locked := false, failed := 0) }

  function Expire(a: Attempt, now: u64): Attempt { if a.locked && now >= a.until then Cleared(a) else a }

  function ExpireAll(t: Table, now: u64): (r: Table)
    ensures |r| == |t| && forall i :: 0 <= i < |t| ==> r[i] == Expire(t[i], now)
  {
    seq(|t|, i requires 0 <= i < |t| => Expire(t[i], now))
  }

  /** The least recently failed unlocked slot among the first `n`, the earliest one of equals. */
  function Lru(t: Table, n: nat): (r: Option<nat>)
    requires n <= |t|
    ensures r.Some? ==> r.value < n && !t[r.value].locked && t[r.value].lastFail < TICK_MAX
    ensures r.Some? ==> forall j :: 0 <= j < n && !t[j].locked ==> t[r.value].lastFail <= t[j].lastFail
    ensures r.None? ==> forall j :: 0 <= j < n ==> t[j].locked || t[j].lastFail == TICK_MAX
  {
    if n == 0 then None
    else
      var best, a := Lru(t, n - 1), t[n - 1];
      if !a.locked && a.lastFail < (if best.Some? then t[best.value].lastFail else TICK_MAX) then Some(n - 1) else best
  }

  /** ap_strcpy into the name field. */
  function Stored(name: string): string { if |name| >= NAME_CAP then name[..NAME_CAP - 1] else name }

  /** find_or_alloc: the table afterwards and the slot to use. */
  function Alloc(t: Table, name: string, now: u64): (r: (Table, Option<nat>))
    ensures |r.0| == |t| && (r.1.Some? ==> r.1.value < |t|)
  {
    var found, free := Find(t, name), FirstFree(t, 0);
    if found.Some? then (t, found)
    else if free.Some? then (t[free.value := t[free.value].(name := Stored(name))], free)
    else
      var e := ExpireAll(t, now);
      var victim := Lru(e, |e|);
      if victim.None? then (e, None) else (e[victim.value := FREE.(name := Stored(name))], victim)
  }

  // ----- the entry points -----

  function Failure(a: Attempt, cfg: Config, now: u64): Attempt {
    var failed := Inc32(a.failed);
    var b := a.(failed := failed, lastFail := now);
    var end: int := now;
    if failed >= cfg.maxAttempts then b.(locked := true, until := (end + cfg.duration) % (TICK_MAX + 1)) else b
  }

  /** auth_policy_record_failure; `scan` is the clock read of a full table's scan, `now` the one of the failure. */
  function Fail(t: Table, cfg: Config, name: string, scan: u64, now: u64): (r: Table)
    ensures |r| == |t|
  {
    var a := Alloc(t, name, scan);
    if a.1.None? then a.0 else a.0[a.1.value := Failure(a.0[a.1.value], cfg, now)]
  }

  /** auth_policy_check_allowed and auth_policy_is_locked: whether the name is refused, and the table afterwards. */
  predicate Refused(t: Table, name: string, now: u64) {
    var i := Find(t, name);
    i.Some? && t[i.value].locked && now < t[i.value].until
  }

  function Check(t: Table, name: string, now: u64): (r: Table)
    ensures |r| == |t|
  {
    var i := Find(t, name);
    if i.Some? then t[i.value := Expire(t[i.value], now)] else t
  }

  /** auth_policy_record_success and auth_policy_unlock. */
  function Reset(t: Table, name: string): (r: Table)
    ensures |r| == |t|
  {
    var i := Find(t, name);
    if i.Some? then t[i.value := Cleared(t[i.value])] else t
  }

  // ----- runs -----

  datatype Event =
    | Failing(name: string, scan: u64, now: u64)
    | Checking(name: string, now: u64)
    | Resetting(name: string)

  function Step(t: Table, cfg: Config, e: Event): (r: Table)
    ensures |r| == |t|
  {
    match e
    case Failing(name, scan, now) => Fail(t, cfg, name, scan, now)
    case Checking(name, now) => Check(t, name, now)
    case Resetting(name) => Reset(t, name)
  }

  function Run(t: Table, cfg: Config, es: seq<Event>): (r: Table)
    ensures |r| == |t|
  {
    if es == [] then t else Step(Run(t, cfg, es[..|es| - 1]), cfg, es[|es| - 1])
  }

  predicate ValidName(name: string) { 0 < |name| < NAME_CAP }

  /** The clock after an event: it never runs backwards, and the lockout arithmetic stays below 2^64. */
  predicate TimelyEvent(e: Event, clock: u64, cfg: Config) {
    match e
    case Failing(_, scan, now) => var t: int := now; clock <= scan <= now && t + cfg.duration <= TICK_MAX
    case Checking(_, now) => clock <= now
    case Resetting(_) => true
  }

  function ClockAfter(e: Event, clock: u64): u64 {
    match e case Failing(_, _, now) => now case Checking(_, now) => now case Resetting(_) => clock
  }

  function Clock(es: seq<Event>, start: u64): u64 {
    if es == [] then start else ClockAfter(es[|es| - 1], Clock(es[..|es| - 1], start))
  }

  /** Events with valid names on a monotone clock. */
  ghost predicate Timely(es: seq<Event>, start: u64, cfg: Config) {
    && (forall e :: e in es ==> ValidName(e.name))
    && forall k :: 0 <= k < |es| ==> TimelyEvent(es[k], Clock(es[..k], start), cfg)
  }

  // ----- the invariant -----

  predicate DistinctNames(t: Table) {
    forall i, j :: 0 <= i < j < |t| && t[i].name != "" ==> t[i].name != t[j].name
  }

  predicate SlotOk(a: Attempt, cfg: Config, clock: u64) {
    && |a.name| < NAME_CAP
    && (a.name == "" ==> a == FREE)
    && (!a.locked ==> a.failed < cfg.maxAttempts)
    && (a.locked ==> a.until as int <= clock as int + cfg.duration as int)
  }

  /** Names are unique, free slots blank, unlocked entries below the threshold, and no lockout outlasts its duration. */
  predicate Inv(t: Table, cfg: Config, clock: u64) {
    cfg.maxAttempts > 0 && DistinctNames(t) && forall i :: 0 <= i < |t| ==> SlotOk(t[i], cfg, clock)
  }
}
