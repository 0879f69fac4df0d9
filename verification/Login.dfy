/** Logging in: authentication against the stored database with the migration of legacy hashes, behind the lockout
    policy (src/auth/userdb_auth.c). */
module Login {
  import opened Words
  import opened Texts
  import opened UserRecords
  import opened UserDb
  import opened UserRewrite
  import opened UserStore
  import UserLines
  import Lockout
  import opened AuthPolicy

  const AUTH_OK := 0
  const AUTH_FAILED := -1
  const AUTH_LOCKED := -2

  // ----- what a login means for the database -----

  /** userdb_authenticate accepts: the first record of that name verifies the password; `memory` is whether a
      memory-hard derivation finds its working memory. */
  predicate Authentic(file: string, c: Change, memory: bool) {
    var r := Find(FileRecords(file), c.user);
    r.Some? && (memory || r.value.algo == PBKDF2) && Verifies(c.kdf, r.value, c.password)
  }

  /** Record `i` is the first of that name. */
  predicate FirstOf(rs: seq<Record>, name: string, i: int) {
    0 <= i < |rs| && rs[i].username == name && forall j :: 0 <= j < i ==> rs[j].username != name
  }

  /** A login is accepted exactly on the first record of the name, with its salt, algorithm and costs, if the hash of
      the password is the stored one and a memory-hard derivation found its memory. */
  lemma AuthenticExactly(file: string, c: Change, memory: bool)
    ensures Authentic(file, c, memory) <==>
            var rs := FileRecords(file);
            exists i :: FirstOf(rs, c.user, i) && (memory || rs[i].algo == 0) &&
                        c.kdf.hash(c.password, rs[i].salt, rs[i].algo, rs[i].tCost, rs[i].mCost) == rs[i].hash
  {
    var rs := FileRecords(file);
    hide FileRecords;
    if Find(rs, c.user).Some? {
      var k := Place(rs, c.user);
      assert FirstOf(rs, c.user, k) && forall i :: FirstOf(rs, c.user, i) ==> i == k;
    }
  }

  predicate Migrates(file: string, c: Change, memory: bool) {
    && Authentic(file, c, memory) && Find(FileRecords(file), c.user).value.algo != ARGON2ID
    && Accepts(file, c)
  }

  /** The database after a login: a legacy record that verified is rehashed, if the rewrite goes through. */
  function FileAfter(file: string, c: Change, memory: bool): string {
    if Migrates(file, c, memory) then Rewritten(file, c) else file
  }

  // ----- passwords survive logins -----

  /** A login attempt. */
  datatype Attempt = Attempt(change: Change, memory: bool)

  function FileAfterAll(file: string, logins: seq<Attempt>): string {
    if logins == [] then file
    else
      var last := logins[|logins| - 1];
      FileAfter(FileAfterAll(file, logins[..|logins| - 1]), last.change, last.memory)
  }

  type Hash = (string, seq<byte>, nat, u32, u32) -> seq<byte>

  /** The record verifies the password under that hash. */
  predicate HashesTo(hash: Hash, r: Record, password: string) {
    hash(password, r.salt, r.algo, r.tCost, r.mCost) == r.hash
  }

  /** The database holds no NUL, and a record of that user which verifies the password. */
  predicate Accepted(file: string, hash: Hash, name: string, password: string) {
    && '\0' !in file && Find(FileRecords(file), name).Some?
    && HashesTo(hash, Find(FileRecords(file), name).value, password)
  }

  /** The login rehashes the record of `name` from its own password: at the salt it draws, `password` hashes alike. */
  predicate RehashedAlike(file: string, c: Change, password: string)
    requires HasUser(FileRecords(file), c.user)
  {
    var salt := c.kdf.salt(Place(FileRecords(file), c.user));
    c.kdf.hash(password, salt, ARGON2ID, NEW_T_COST, NEW_M_COST) ==
    c.kdf.hash(c.password, salt, ARGON2ID, NEW_T_COST, NEW_M_COST)
  }

  /** What a migration by `c` needs to leave a password working: for the user it migrates, that it rehashes alike; for
      anyone else, that the password also verifies without the costs a legacy line does not keep. */
  predicate Survives(file: string, c: Change, name: string, password: string)
    requires HasUser(FileRecords(file), name)
  {
    if c.user == name then RehashedAlike(file, c, password)
    else HashesTo(c.kdf.hash, UserLines.Normalize(Find(FileRecords(file), name).value), password)
  }

  lemma MigrationKeepsExactly(file: string, c: Change, name: string, password: string)
    requires KdfOk(c.kdf) && '\0' !in file && HasUser(FileRecords(file), name) && Accepts(file, c)
    ensures Accepted(Rewritten(file, c), c.kdf.hash, name, password) <==> Survives(file, c, name, password)
  {
    RewriteReadsBack(file, c);
    LookupBecomes(file, c, name);
    hide FileRecords, Rewritten, Accepts;
  }

  /** Exactly when a login, of anyone, leaves a password accepted that was, on every database: if it migrates, when the
      password survives that. There are two ways it does not. The login migrates that very user with another password
      that verified the same legacy hash, or it migrates someone else while the user's own legacy record carries costs,
      which the rewrite drops. */
  lemma LoginKeepsExactly(file: string, a: Attempt, name: string, password: string)
    requires KdfOk(a.change.kdf) && Accepted(file, a.change.kdf.hash, name, password)
    ensures HasUser(FileRecords(file), name)
    ensures Accepted(FileAfter(file, a.change, a.memory), a.change.kdf.hash, name, password) <==>
            (Migrates(file, a.change, a.memory) ==> Survives(file, a.change, name, password))
  {
    hide FileRecords, Rewritten, Accepts, Survives;
    if Migrates(file, a.change, a.memory) { MigrationKeepsExactly(file, a.change, name, password); }
  }

  /** No other password logs this user in on the record as it stands: its own salt, algorithm and costs. */
  predicate NoCollision(file: string, a: Attempt, name: string, password: string) {
    a.change.user == name && a.change.password != password ==> !Authentic(file, a.change, a.memory)
  }

  /** The user's own record, if there is one, is what its line gives back. */
  predicate OwnFaithful(file: string, name: string) {
    Find(FileRecords(file), name).Some? ==> Faithful(Find(FileRecords(file), name).value)
  }

  lemma FaithfulIsNormal(r: Record)
    ensures Faithful(r) <==> UserLines.Normalize(r) == r
  {
  }

  lemma AfterFaithful(r: Record, c: Change, k: nat)
    ensures Faithful(After(r, c, k))
  {
  }

  /** A login keeps the user's own record faithful, or makes it so. */
  lemma LoginKeepsFaithful(file: string, a: Attempt, name: string)
    requires KdfOk(a.change.kdf) && '\0' !in file && OwnFaithful(file, name) && HasUser(FileRecords(file), name)
    ensures OwnFaithful(FileAfter(file, a.change, a.memory), name)
  {
    hide FileRecords, Rewritten, Accepts, Faithful, After;
    if Migrates(file, a.change, a.memory) {
      var rs, k := FileRecords(file), Place(FileRecords(file), name);
      LookupBecomes(file, a.change, name);
      AfterFaithful(rs[k], a.change, k);
    }
  }

  /** One login, of anyone, leaves a password that was accepted accepted, if the user's own record carries no legacy
      costs; whatever the other lines hold. */
  lemma LoginKeepsPassword(file: string, a: Attempt, name: string, password: string)
    requires KdfOk(a.change.kdf) && Accepted(file, a.change.kdf.hash, name, password)
    requires OwnFaithful(file, name) && NoCollision(file, a, name, password)
    ensures Accepted(FileAfter(file, a.change, a.memory), a.change.kdf.hash, name, password)
    ensures OwnFaithful(FileAfter(file, a.change, a.memory), name)
  {
    LoginKeepsExactly(file, a, name, password);
    LoginKeepsFaithful(file, a, name);
    var r := Find(FileRecords(file), name).value;
    FaithfulIsNormal(r);
    hide FileRecords, Rewritten, Accepts, FileAfter, Authentic, Faithful, HashesTo;
  }

  /** Over every sequence of logins, of anyone and whatever migrates: a password accepted at the start is accepted at
      the end. */
  lemma {:induction false} LoginsKeepPasswords(
    file: string, hash: Hash, logins: seq<Attempt>, name: string, password: string)
    requires Accepted(file, hash, name, password) && OwnFaithful(file, name)
    requires forall n :: 0 <= n < |logins| ==>
                           && KdfOk(logins[n].change.kdf) && logins[n].change.kdf.hash == hash
                           && NoCollision(FileAfterAll(file, logins[..n]), logins[n], name, password)
    ensures Accepted(FileAfterAll(file, logins), hash, name, password) && OwnFaithful(FileAfterAll(file, logins), name)
  {
    hide Accepted, OwnFaithful, FileAfter, KdfOk, NoCollision;
    if logins != [] {
      var n := |logins| - 1;
      var before := logins[..n];
      forall k | 0 <= k < n
        ensures before[k] == logins[k] && before[..k] == logins[..k]
      {
      }
      LoginsKeepPasswords(file, hash, before, name, password);
      LoginKeepsPassword(FileAfterAll(file, before), logins[n], name, password);
    }
  }

  // ----- a login that shuts someone else out -----

  /** Whenever a legacy user logs in, and another legacy user's hash was derived with costs that matter, the login is
      accepted, migrates its own record, and leaves the other's password no longer accepted. */
  lemma MigrationShutsOut(a: Record, b: Record, c: Change, memory: bool, password: string)
    requires UserLines.Storable(a) && UserLines.Normalize(a) == a && a.algo == PBKDF2 && a.username == c.user
    requires UserLines.Storable(b) && b.algo == PBKDF2 && b.username != c.user
    requires KdfOk(c.kdf) && c.kdf.ready(0) && c.password != "" && Verifies(c.kdf, a, c.password)
    requires HashesTo(c.kdf.hash, b, password) && !HashesTo(c.kdf.hash, UserLines.Normalize(b), password)
    ensures Accepted(CostlyFile(a, b), c.kdf.hash, b.username, password) && Migrates(CostlyFile(a, b), c, memory)
    ensures !Accepted(FileAfter(CostlyFile(a, b), c, memory), c.kdf.hash, b.username, password)
  {
    var file := CostlyFile(a, b);
    CostlyFileReads(a, b);
    CostlyFileClean(a, b);
    CostlyAccepted(a, b, c);
    FindInTwo(a, b);
    hide FileRecords, Rewritten, Accepts, CostlyFile, UserLines.Storable, UserLines.Normalize;
    assert Migrates(file, c, memory);
    MigrationKeepsExactly(file, c, b.username, password);
  }

  lemma FindInTwo(a: Record, b: Record)
    requires a.username != b.username
    ensures Find([a, b], a.username) == Some(a) && Find([a, b], b.username) == Some(b)
    ensures HasUser([a, b], a.username) && HasUser([a, b], b.username)
  {
    assert [a, b][0] == a && [a, b][1] == b && [a, b][1..] == [b];
  }

  /** A derivation under which x verifies at cost 0 and y at cost 7, and nothing else does. */
  function PickyHash(p: string, s: seq<byte>, algo: nat, t: u32, m: u32): (h: seq<byte>)
    ensures |h| == HASH_SIZE
  {
    if (p == "x" && t == 0) || (p == "y" && t == 7) then Zeros(HASH_SIZE) else seq(HASH_SIZE, _ => 1)
  }

  function PickyChange(): Change { Change("a", "x", Kdf(_ => Zeros(SALT_SIZE), _ => true, PickyHash)) }

  lemma PickyHashes(r: Record, s: Record)
    requires r.hash == s.hash == Zeros(HASH_SIZE) && r.tCost == 0 && s.tCost == 7
    ensures KdfOk(PickyChange().kdf) && HashesTo(PickyChange().kdf.hash, r, "x")
    ensures HashesTo(PickyChange().kdf.hash, s, "y")
    ensures !HashesTo(PickyChange().kdf.hash, s.(tCost := 0, mCost := 0), "y")
  {
    assert PickyHash("y", s.salt, s.algo, 0, 0)[0] == 1 && Zeros(HASH_SIZE)[0] == 0;
  }

  lemma TwoLegacyUsers()
    ensures UserLines.Storable(CLEARED.(username := "a")) && UserLines.Storable(CLEARED.(username := "b", tCost := 7))
  {
  }

  /** One such database and one such derivation: user a logs in with x, and user b's y, hashed at cost 7, is refused
      after. */
  lemma LoginShutsOutAnother()
    ensures exists file: string, c: Change, memory: bool ::
              && KdfOk(c.kdf) && c.user == "a" && Accepted(file, c.kdf.hash, "b", "y")
              && !Accepted(FileAfter(file, c, memory), c.kdf.hash, "b", "y")
  {
    var a, b, c := CLEARED.(username := "a"), CLEARED.(username := "b", tCost := 7), PickyChange();
    TwoLegacyUsers();
    PickyHashes(a, b);
    hide HashesTo, KdfOk, Accepted, FileAfter, CostlyFile, Migrates, UserLines.Storable;
    assert Verifies(c.kdf, a, c.password) by { VerifiesIsHashes(c.kdf, a, "x"); }
    MigrationShutsOut(a, b, c, true, "y");
    assert Accepted(CostlyFile(a, b), c.kdf.hash, "b", "y");
  }

  lemma VerifiesIsHashes(kdf: Kdf, r: Record, password: string)
    ensures Verifies(kdf, r, password) <==> HashesTo(kdf.hash, r, password)
  {
  }

  /** Over every sequence of logins the number of legacy records never grows. */
  lemma {:induction false} LoginsRetireLegacy(file: string, logins: seq<Attempt>)
    requires '\0' !in file && forall a :: a in logins ==> KdfOk(a.change.kdf)
    ensures '\0' !in FileAfterAll(file, logins)
    ensures LegacyCount(FileRecords(FileAfterAll(file, logins))) <= LegacyCount(FileRecords(file))
  {
    if logins != [] {
      var n := |logins| - 1;
      LoginsRetireLegacy(file, logins[..n]);
      var before, a := FileAfterAll(file, logins[..n]), logins[n];
      assert a in logins;
      hide FileRecords, Rewritten, Accepts, KdfOk, LegacyCount;
      if Migrates(before, a.change, a.memory) {
        RewriteReadsBack(before, a.change);
        LegacyNeverGrows(before, a.change);
      }
    }
  }

  // ----- adding a user -----

  lemma DistinctAppended(rs: seq<Record>, user: Record)
    requires DistinctNames(rs) && Find(rs, user.username).None?
    ensures DistinctNames(rs + [UserLines.Normalize(user)])
  {
  }

  /** On a file of canonical lines with distinct names, an added user is read back after everyone else, whose records
      are as before, and names stay distinct. */
  lemma AddedIsAppended(rs: seq<Record>, user: Record)
    requires UserDb.AllStorable(rs) && NormalizeAll(rs) == rs && DistinctNames(rs)
    requires UserLines.Storable(user) && Find(rs, user.username).None?
    ensures FileRecords(FileText(rs) + UserLines.Text(user) + "\n") == rs + [UserLines.Normalize(user)]
    ensures DistinctNames(rs + [UserLines.Normalize(user)])
  {
    hide FileRecords, FileText, UserLines.Text, UserLines.Storable, UserLines.Normalize, Find, DistinctNames;
    FileRoundTrip(rs);
    FileTextEnd(rs);
    LineAppended(FileText(rs), user);
    DistinctAppended(rs, user);
  }

  // ----- the database in place -----

  class Database {
    var file: string

    /** userdb_find. */
    method FindUser(user: string) returns (r: Option<Record>)
      ensures r == Find(FileRecords(file), user)
    {
      var start: nat := 0;
      ghost var done: seq<string> := [];
      AtFirstLine(file);
      assert Records([]) == [];
      hide AtLine, InLine, Records;
      for i := 0 to |file| + 1
        invariant InLine(file, start, i)
        invariant AtLine(file, start, done) && Find(Records(done), user).None?
      {
        if i < |file| && file[i] != '\n' {
          LongerLine(file, start, i);
          continue;
        }
        ghost var rest := NextLine(file, start, i, done);
        var text := file[start..i];
        LookupStep(file, done, text, rest, user);
        done := done + [text];
        start := i + 1;
        if text != "" {
          var parsed := ParseLine(text);
          if parsed.Some? && parsed.value.username == user { return parsed; }
        }
      }
      AtLastLine(file, start, done);
      return None;
    }

    /** userdb_add: refuses a name already present; otherwise the record's line goes to the end of the file. */
    method Add(user: Record) returns (rc: int)
      modifies this
      ensures rc == (if Find(FileRecords(old(file)), user.username).None? && user.algo <= ARGON2ID &&
                        |UserLines.Text(user)| + 1 < 368 then 0 else -1)
      ensures file == if rc == 0 then old(file) + UserLines.Text(user) + "\n" else old(file)
    {
      var present := FindUser(user.username);
      hide FileRecords, Find, UserLines.Text;
      if present.Some? { return -1; }
      var line := new char[UserLines.LINE_CAP];
      var len;
      rc, len := UserLines.SerializeLine(user, line);
      if rc != 0 { return -1; }
      file := file + line[..len];
    }

    /** userdb_authenticate. */
    method Authenticate(c: Change, memory: bool, spare: Record) returns (rc: int, out: Record)
      requires KdfOk(c.kdf)
      modifies this
      ensures rc == (if Authentic(old(file), c, memory) then 0 else -1)
      ensures rc == 0 <==>
              var rs := FileRecords(old(file));
              exists i :: FirstOf(rs, c.user, i) && (memory || rs[i].algo == 0) &&
                          c.kdf.hash(c.password, rs[i].salt, rs[i].algo, rs[i].tCost, rs[i].mCost) == rs[i].hash
      ensures rc == 0 ==> out.username == c.user && (memory || out.algo == 0) &&
                          c.kdf.hash(c.password, out.salt, out.algo, out.tCost, out.mCost) == out.hash
      ensures rc != 0 || out.algo == 1 ==> file == old(file)
      ensures out == if rc == 0 then Find(FileRecords(old(file)), c.user).value else spare
      ensures file == FileAfter(old(file), c, memory)
    {
      AuthenticExactly(file, c, memory);
      out := spare;
      rc := -1;
      var r := FindUser(c.user);
      hide FileRecords, Find, Accepts, Rewritten;
      if r.Some? && (memory || r.value.algo == PBKDF2) {
        if c.kdf.hash(c.password, r.value.salt, r.value.algo, r.value.tCost, r.value.mCost) == r.value.hash {
          rc := 0;
          out := r.value;
          if r.value.algo != ARGON2ID {
            var status, content := ReplacePasswordHash(file, c);
            if status == 0 { file := content; }
          }
        }
      }
    }
  }

  lemma LookupStep(file: string, done: seq<string>, text: string, rest: seq<string>, user: string)
    requires Split(file, '\n') == done + [text] + rest && Find(Records(done), user).None?
    ensures
      var kept := text != "" && Parse(text).Some? && Parse(text).value.username == user;
      && (kept ==> Find(FileRecords(file), user) == Parse(text))
      && (!kept ==> Find(Records(done + [text]), user).None?)
  {
    RecordsAppend(done, text);
    RecordsPrefix(done + [text], rest);
    hide Parse, Records, Split;
    if text != "" && Parse(text).Some? {
      FindAppend(Records(done), Parse(text).value, user);
      if Parse(text).value.username == user {
        FindPrefix(Records(done + [text]), FileRecords(file), user);
      }
    }
  }

  // ----- behind the policy -----

  /** userdb_authenticate_with_policy: a locked account is refused with a cleared record whatever the password. The
      three clock reads are parameters. */
  method AuthenticateWithPolicy(
    db: Database, policy: Policy, c: Change, memory: bool, spare: Record, tick: u64, scan: u64, now: u64)
    returns (rc: int, out: Record)
    requires policy.Valid() && KdfOk(c.kdf)
    modifies db, policy.attempts
    ensures db.file == FileAfter(old(db.file), c, memory)
    ensures rc == 0 <==>
            var rs := FileRecords(old(db.file));
            && !Lockout.Refused(old(policy.attempts[..]), c.user, tick)
            && exists i :: FirstOf(rs, c.user, i) && (memory || rs[i].algo == 0) &&
                           c.kdf.hash(c.password, rs[i].salt, rs[i].algo, rs[i].tCost, rs[i].mCost) == rs[i].hash
    ensures rc == -1 ==> db.file == old(db.file)
    ensures Lockout.Refused(old(policy.attempts[..]), c.user, tick) ==>
              rc == -2 && out == CLEARED && policy.attempts[..] == old(policy.attempts[..])
    ensures !Lockout.Refused(old(policy.attempts[..]), c.user, tick) && Authentic(old(db.file), c, memory) ==>
              && rc == 0 && out == Find(FileRecords(old(db.file)), c.user).value
              && policy.attempts[..] == Lockout.Reset(Lockout.Check(old(policy.attempts[..]), c.user, tick), c.user)
    ensures !Lockout.Refused(old(policy.attempts[..]), c.user, tick) && !Authentic(old(db.file), c, memory) ==>
              && rc == -1 && out == spare
              && policy.attempts[..] ==
                 Lockout.Fail(
                   Lockout.Check(old(policy.attempts[..]), c.user, tick), policy.config, c.user, scan, now)
  {
    AuthenticExactly(db.file, c, memory);
    var allowed := policy.CheckAllowed(c.user, tick);
    hide Lockout.Find, Lockout.Fail, Authentic, FileAfter;
    rc, out := db.Authenticate(c, memory, spare);
    if !allowed { return AUTH_LOCKED, CLEARED; }
    if rc == 0 {
      policy.RecordSuccess(c.user);
      return AUTH_OK, out;
    }
    policy.RecordFailure(c.user, scan, now);
    return AUTH_FAILED, out;
  }
}
