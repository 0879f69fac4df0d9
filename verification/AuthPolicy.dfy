/** The lockout table in place (src/auth/auth_policy.c): each entry point does to the array what Lockout says of the
    table. Clock reads are parameters. */
module AuthPolicy {
  import opened Words
  import opened Lockout
  import LockoutRuns

  const DEFAULT_CONFIG := Config(5, 300 * 2_000_000_000)

  class Policy {
    const attempts: array<Attempt>
    var config: Config

    ghost predicate Valid()
      reads this
    {
      attempts.Length == SLOTS && config.maxAttempts > 0 && config.duration > 0
    }

    /** auth_policy_init. */
    constructor ()
      ensures Valid() && fresh(attempts) && config == Config(5, 600_000_000_000)
      ensures attempts[..] == Empty(SLOTS)
    {
      attempts := new Attempt[SLOTS](_ => FREE);
      config := DEFAULT_CONFIG;
    }

    /** auth_policy_set_config: zero fields fall back to their defaults. */
    method SetConfig(c: Config)
      requires attempts.Length == SLOTS
      modifies this`config
      ensures Valid()
      ensures config.maxAttempts == (if c.maxAttempts == 0 then 5 else c.maxAttempts)
      ensures config.duration == (if c.duration == 0 then 600_000_000_000 else c.duration)
    {
      config := c;
      if config.maxAttempts == 0 { config := config.(maxAttempts := DEFAULT_CONFIG.maxAttempts); }
      if config.duration == 0 { config := config.(duration := DEFAULT_CONFIG.duration); }
    }

    method FindExisting(name: string) returns (r: Option<nat>)
      requires Valid()
      ensures r == Find(attempts[..], name)
    {
      for i := 0 to SLOTS
        invariant FindFrom(attempts[..], name, 0) == FindFrom(attempts[..], name, i)
      {
        if attempts[i].name != "" && attempts[i].name == name { return Some(i); }
      }
      return None;
    }

    method FindFree() returns (r: Option<nat>)
      requires Valid()
      ensures r == FirstFree(attempts[..], 0)
    {
      for i := 0 to SLOTS
        invariant FirstFree(attempts[..], 0) == FirstFree(attempts[..], i)
      {
        if attempts[i].name == "" { return Some(i); }
      }
      return None;
    }

    /** The scan of a full table: expired lockouts are lifted, and the least recently failed unlocked slot found. */
    method ScanFull(now: u64) returns (r: Option<nat>)
      requires Valid()
      modifies attempts
      ensures attempts[..] == ExpireAll(old(attempts[..]), now)
      ensures r == Lru(attempts[..], SLOTS)
    {
      ghost var all := ExpireAll(attempts[..], now);
      r := None;
      var best: u64 := TICK_MAX;
      for i := 0 to SLOTS
        invariant forall j :: 0 <= j < i ==> attempts[j] == all[j]
        invariant forall j :: i <= j < SLOTS ==> attempts[j] == old(attempts[j])
        invariant r == Lru(all, i) && best == if r.Some? then all[r.value].lastFail else TICK_MAX
      {
        if attempts[i].locked && now >= attempts[i].until {
          attempts[i] := attempts[i].(locked := false, failed := 0);
        }
        assert attempts[i] == all[i];
        if !attempts[i].locked && attempts[i].lastFail < best {
          best := attempts[i].lastFail;
          r := Some(i);
        }
      }
      assert attempts[..] == all;
    }

    method FindOrAlloc(name: string, now: u64) returns (slot: Option<nat>)
      requires Valid()
      modifies attempts
      ensures attempts[..] == Alloc(old(attempts[..]), name, now).0
      ensures slot == Alloc(old(attempts[..]), name, now).1
    {
      slot := FindExisting(name);
      if slot.Some? { return; }
      slot := FindFree();
      if slot.Some? {
        var i := slot.value;
        attempts[i] := attempts[i].(name := Stored(name));
        return;
      }
      slot := ScanFull(now);
      if slot.None? { return; }
      attempts[slot.value] := FREE;
      attempts[slot.value] := attempts[slot.value].(name := Stored(name));
    }

    method CheckAllowed(name: string, now: u64) returns (allowed: bool)
      requires Valid()
      modifies attempts
      ensures allowed == !Refused(old(attempts[..]), name, now)
      ensures attempts[..] == Check(old(attempts[..]), name, now)
    {
      var slot := FindExisting(name);
      if slot.None? { return true; }
      var i := slot.value;
      if attempts[i].locked {
        if now >= attempts[i].until {
          attempts[i] := attempts[i].(locked := false, failed := 0);
          return true;
        }
        return false;
      }
      return true;
    }

    method IsLocked(name: string, now: u64) returns (locked: bool)
      requires Valid()
      modifies attempts
      ensures locked == Refused(old(attempts[..]), name, now)
      ensures attempts[..] == Check(old(attempts[..]), name, now)
    {
      var allowed := CheckAllowed(name, now);
      return !allowed;
    }

    method RecordSuccess(name: string)
      requires Valid()
      modifies attempts
      ensures attempts[..] == Reset(old(attempts[..]), name)
    {
      var slot := FindExisting(name);
      if slot.None? { return; }
      attempts[slot.value] := attempts[slot.value].(failed := 0, locked := false);
    }

    method Unlock(name: string)
      requires Valid()
      modifies attempts
      ensures attempts[..] == Reset(old(attempts[..]), name)
    {
      var slot := FindExisting(name);
      if slot.Some? { attempts[slot.value] := attempts[slot.value].(locked := false, failed := 0); }
    }

    /** A failure that reaches the threshold locks for the configured duration. */
    lemma LastsAll(t: Table, name: string, scan: u64, now: u64)
      ensures forall i: nat, x: u64 ::
                Find(t, name) == Some(i) && now as int + config.duration <= TICK_MAX &&
                config.maxAttempts <= t[i].failed as int + 1 < 0x1_0000_0000 ==>
                  (Refused(Fail(t, config, name, scan, now), name, x) <==> x as int < now as int + config.duration)
    {
      forall i: nat, x: u64 | Find(t, name) == Some(i) && now as int + config.duration <= TICK_MAX &&
                              config.maxAttempts <= t[i].failed as int + 1 < 0x1_0000_0000
        ensures Refused(Fail(t, config, name, scan, now), name, x) <==> x as int < now as int + config.duration
      {
        LockoutRuns.LockoutLasts(t, config, name, scan, now, i, x);
      }
    }

    /** auth_policy_record_failure: counts the failure; one that reaches the threshold has the name refused at exactly
        the ticks before the end of the lockout. */
    method RecordFailure(name: string, scan: u64, now: u64)
      requires Valid()
      modifies attempts
      ensures attempts[..] == Fail(old(attempts[..]), config, name, scan, now)
      ensures forall i: nat, x: u64 ::
                Find(old(attempts[..]), name) == Some(i) && now as int + config.duration <= TICK_MAX &&
                config.maxAttempts <= old(attempts[..])[i].failed as int + 1 < 0x1_0000_0000 ==>
                  (Refused(attempts[..], name, x) <==> x as int < now as int + config.duration)
    {
      LastsAll(attempts[..], name, scan, now);
      var slot := FindOrAlloc(name, scan);
      hide Alloc;
      if slot.None? { return; }
      var i := slot.value;
      ghost var t, was := attempts[..], attempts[i];
      attempts[i] := attempts[i].(failed := Inc32(attempts[i].failed));
      attempts[i] := attempts[i].(lastFail := now);
      if attempts[i].failed >= config.maxAttempts {
        var end: int := now;
        attempts[i] := attempts[i].(locked := true, until := (end + config.duration) % (TICK_MAX + 1));
      }
      assert attempts[i] == Failure(was, config, now);
      assert attempts[..] == t[i := attempts[i]];
    }
  }
}
