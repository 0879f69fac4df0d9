/** The password rewrite of the whole user database (src/auth/userdb_auth.c): what it keeps and when it succeeds. */
module UserRewrite {
  import opened Words
  import opened Texts
  import opened UserRecords
  import opened UserLines
  import opened UserDb

  const NEW_T_COST: u32 := 3
  const NEW_M_COST: u32 := 8192
  const HEADROOM := 512

  /** The password hashes: the salt drawn for the k-th record, whether that derivation finds working memory, and the
      deterministic derivation from password, salt, algorithm and costs. */
  datatype Kdf = Kdf(salt: nat -> seq<byte>, ready: nat -> bool, hash: (string, seq<byte>, nat, u32, u32) -> seq<byte>)

  ghost predicate KdfOk(kdf: Kdf) {
    && (forall k :: |kdf.salt(k)| == SALT_SIZE)
    && (forall p, s, a, t, m :: |kdf.hash(p, s, a, t, m)| == HASH_SIZE)
  }

  /** user_password_hash_verify. */
  predicate Verifies(kdf: Kdf, r: Record, password: string) {
    kdf.hash(password, r.salt, r.algo, r.tCost, r.mCost) == r.hash
  }

  /** A request to give a user a new password. */
  datatype Change = Change(user: string, password: string, kdf: Kdf)

  function Rehashed(r: Record, c: Change, k: nat): Record {
    var salt := c.kdf.salt(k);
    r.(algo := ARGON2ID, tCost := NEW_T_COST, mCost := NEW_M_COST, salt := salt,
    hash := c.kdf.hash(c.password, salt, ARGON2ID, NEW_T_COST, NEW_M_COST))
  }

  function Replace(r: Record, c: Change, k: nat): Option<Record> {
    if r.username != c.user then Some(r) else if !c.kdf.ready(k) then None else Some(Rehashed(r, c, k))
  }

  /** Every record of the user rehashed, everyone else's as it was; None if a derivation fails. */
  function ReplaceAll(rs: seq<Record>, c: Change): (out: Option<seq<Record>>)
    ensures out.Some? ==> |out.value| == |rs|
  {
    if rs == [] then Some([])
    else
      var n := |rs| - 1;
      var rest, last := ReplaceAll(rs[..n], c), Replace(rs[n], c, n);
      if rest.None? || last.None? then None else Some(rest.value + [last.value])
  }

  predicate HasUser(rs: seq<Record>, user: string) {
    exists i :: 0 <= i < |rs| && rs[i].username == user
  }

  /** Exactly when a rewrite goes through. */
  predicate Accepts(source: string, c: Change) {
    && c.user != "" && c.password != "" && HasUser(FileRecords(source), c.user)
    && ReplaceAll(FileRecords(source), c).Some?
    && |FileText(ReplaceAll(FileRecords(source), c).value)| < |source| + HEADROOM
  }

  function Rewritten(source: string, c: Change): string
    requires Accepts(source, c)
  {
    FileText(ReplaceAll(FileRecords(source), c).value)
  }

  // ----- what a rewrite keeps -----

  lemma ReplaceAllAppend(rs: seq<Record>, r: Record, c: Change)
    ensures ReplaceAll(rs + [r], c) ==
            var rest, last := ReplaceAll(rs, c), Replace(r, c, |rs|);
            if rest.None? || last.None? then None else Some(rest.value + [last.value])
  {
    assert (rs + [r])[..|rs|] == rs;
  }

  lemma {:induction false} ReplaceAllAt(rs: seq<Record>, c: Change, i: nat)
    requires i < |rs| && ReplaceAll(rs, c).Some?
    ensures Replace(rs[i], c, i) == Some(ReplaceAll(rs, c).value[i])
  {
    var n := |rs| - 1;
    if i < n { ReplaceAllAt(rs[..n], c, i); }
  }

  lemma RehashedStorable(r: Record, c: Change, k: nat)
    requires Storable(r) && KdfOk(c.kdf) && Replace(r, c, k).Some?
    ensures Storable(Replace(r, c, k).value)
  {
    hide Clean;
  }

  /** What record `i` reads back as after a rewrite. */
  function After(r: Record, c: Change, i: nat): Record {
    if r.username == c.user then Rehashed(r, c, i) else Normalize(r)
  }

  lemma AfterIsNormalized(r: Record, c: Change, k: nat)
    requires Replace(r, c, k).Some?
    ensures Normalize(Replace(r, c, k).value) == After(r, c, k)
  {
  }

  /** What a rewrite leaves on disk reads back as the same records in the same order, with only the algorithm, costs,
      salt and hash of the target changed; this for every source without NUL bytes, whatever lines it holds. */
  lemma RewriteReadsBack(source: string, c: Change)
    requires '\0' !in source && KdfOk(c.kdf) && Accepts(source, c)
    ensures '\0' !in Rewritten(source, c)
    ensures |FileRecords(Rewritten(source, c))| == |FileRecords(source)|
    ensures forall i :: 0 <= i < |FileRecords(source)| ==>
                          FileRecords(Rewritten(source, c))[i] == After(FileRecords(source)[i], c, i)
  {
    var rs := FileRecords(source);
    var out := ReplaceAll(rs, c).value;
    FileIsStorable(source);
    hide FileRecords, Storable, Replace, After, Normalize;
    forall i | 0 <= i < |rs|
      ensures Storable(out[i]) && Normalize(out[i]) == After(rs[i], c, i)
    {
      ReplaceAllAt(rs, c, i);
      RehashedStorable(rs[i], c, i);
      AfterIsNormalized(rs[i], c, i);
    }
    FileRoundTrip(out);
    FileTextClean(out);
  }

  /** A legacy record whose costs are zero, or any Argon2id record: what its own line gives back. */
  predicate Faithful(r: Record) { r.algo == PBKDF2 ==> r.tCost == 0 && r.mCost == 0 }

  /** Everyone else's record survives a rewrite exactly when no other legacy record carries costs: the serialiser writes
      seven fields for a legacy record, so costs given on a ten-field pbkdf2 line are lost. */
  lemma OthersSurviveExactly(source: string, c: Change)
    requires '\0' !in source && KdfOk(c.kdf) && Accepts(source, c)
    ensures
      var before, after := FileRecords(source), FileRecords(Rewritten(source, c));
      && |after| == |before|
      && ((forall i :: 0 <= i < |before| && before[i].username != c.user ==> after[i] == before[i])
          <==> forall i :: 0 <= i < |before| && before[i].username != c.user ==> Faithful(before[i]))
  {
    RewriteReadsBack(source, c);
    var before, after := FileRecords(source), FileRecords(Rewritten(source, c));
    hide FileRecords, Rewritten, Accepts, Rehashed;
    forall i | 0 <= i < |before| && before[i].username != c.user
      ensures after[i] == before[i] <==> Faithful(before[i])
    {
      assert after[i] == Normalize(before[i]);
    }
  }

  // ----- the new password -----

  /** userdb_find: the first record of that name. */
  function Find(rs: seq<Record>, user: string): (r: Option<Record>)
    ensures r.Some? <==> HasUser(rs, user)
    ensures r.Some? ==> r.value in rs && r.value.username == user
  {
    if rs == [] then None
    else if rs[0].username == user then Some(rs[0])
    else
      assert forall i :: 1 <= i < |rs| ==> rs[i] == rs[1..][i - 1];
      Find(rs[1..], user)
  }

  /** Where the first record of that name stands. */
  function Place(rs: seq<Record>, user: string): (i: nat)
    requires HasUser(rs, user)
    ensures i < |rs| && rs[i].username == user && Find(rs, user) == Some(rs[i])
    ensures forall k :: 0 <= k < i ==> rs[k].username != user
  {
    if rs[0].username == user then 0
    else
      assert forall i :: 1 <= i < |rs| ==> rs[i] == rs[1..][i - 1];
      1 + Place(rs[1..], user)
  }

  /** Two lists with the same names in the same places find at the same place. */
  lemma {:induction false} FindSamePlace(a: seq<Record>, b: seq<Record>, user: string, i: nat)
    requires |a| == |b| && forall k :: 0 <= k < |a| ==> a[k].username == b[k].username
    requires i < |a| && a[i].username == user && forall k :: 0 <= k < i ==> a[k].username != user
    ensures Find(a, user) == Some(a[i]) && Find(b, user) == Some(b[i])
  {
    if i > 0 { FindSamePlace(a[1..], b[1..], user, i - 1); }
  }

  lemma AfterMeans(r: Record, c: Change, k: nat)
    ensures After(r, c, k).username == r.username
    ensures if r.username == c.user then Verifies(c.kdf, After(r, c, k), c.password) && After(r, c, k).algo == ARGON2ID
            else After(r, c, k) == Normalize(r)
  {
  }

  /** A lookup after a rewrite finds what became of the record it found before. */
  lemma LookupBecomes(source: string, c: Change, name: string)
    requires '\0' !in source && KdfOk(c.kdf) && Accepts(source, c)
    requires HasUser(FileRecords(source), name)
    ensures
      var before, after := FileRecords(source), FileRecords(Rewritten(source, c));
      var k := Place(before, name);
      Find(before, name) == Some(before[k]) && Find(after, name) == Some(After(before[k], c, k))
  {
    RewriteReadsBack(source, c);
    var before, after := FileRecords(source), FileRecords(Rewritten(source, c));
    hide FileRecords, Rewritten, Accepts, After, Normalize, Verifies;
    forall k | 0 <= k < |before|
      ensures before[k].username == after[k].username
    {
      AfterMeans(before[k], c, k);
    }
    FindSamePlace(before, after, name, Place(before, name));
  }

  /** After a rewrite the target's stored record accepts the new password, and is no longer a legacy one; every other
      user's lookup gives the record it gave before, up to the costs a legacy line does not keep. */
  lemma LookupAfterRewrite(source: string, c: Change, name: string)
    requires '\0' !in source && KdfOk(c.kdf) && Accepts(source, c)
    requires HasUser(FileRecords(source), name)
    ensures
      var before, after := Find(FileRecords(source), name), Find(FileRecords(Rewritten(source, c)), name);
      && before.Some? && after.Some?
      && (if name == c.user then Verifies(c.kdf, after.value, c.password) && after.value.algo == ARGON2ID
          else after.value == Normalize(before.value))
  {
    LookupBecomes(source, c, name);
    var rs, k := FileRecords(source), Place(FileRecords(source), name);
    hide FileRecords, Rewritten, Accepts, After, Normalize, Verifies;
    AfterMeans(rs[k], c, k);
  }

  function LegacyCount(rs: seq<Record>): nat {
    if rs == [] then 0 else LegacyCount(rs[..|rs| - 1]) + if rs[|rs| - 1].algo == PBKDF2 then 1 else 0
  }

  lemma {:induction false} LegacyMonotone(a: seq<Record>, b: seq<Record>)
    requires |a| == |b| && forall i :: 0 <= i < |a| && b[i].algo == PBKDF2 ==> a[i].algo == PBKDF2
    ensures LegacyCount(b) <= LegacyCount(a)
  {
    if a != [] { LegacyMonotone(a[..|a| - 1], b[..|b| - 1]); }
  }

  /** No rewrite ever adds a legacy record, and one that targets a legacy record removes it. */
  lemma LegacyNeverGrows(source: string, c: Change)
    requires '\0' !in source && KdfOk(c.kdf) && Accepts(source, c)
    ensures LegacyCount(FileRecords(Rewritten(source, c))) <= LegacyCount(FileRecords(source))
    ensures forall i :: 0 <= i < |FileRecords(Rewritten(source, c))| ==>
                          FileRecords(Rewritten(source, c))[i].username == c.user ==>
                            FileRecords(Rewritten(source, c))[i].algo == ARGON2ID
  {
    RewriteReadsBack(source, c);
    var before, after := FileRecords(source), FileRecords(Rewritten(source, c));
    hide FileRecords, Rewritten, Accepts;
    LegacyMonotone(before, after);
  }

  // ----- when a rewrite fits -----

  lemma {:induction false} JoinAppend(a: seq<string>, b: seq<string>)
    requires a != [] && b != []
    ensures Join(a + b) == Join(a) + ":" + Join(b)
  {
    if |a| == 1 {
      assert (a + b)[1..] == b;
    } else {
      assert (a + b)[1..] == a[1..] + b;
      JoinAppend(a[1..], b);
    }
  }

  lemma JoinTwo(x: string, y: string)
    ensures Join([x, y]) == x + ":" + y
  {
    assert [x, y][1..] == [y];
  }

  lemma JoinThree(x: string, y: string, z: string)
    ensures Join([x, y, z]) == x + ":" + y + ":" + z
  {
    assert [x, y, z][1..] == [y, z];
    JoinTwo(y, z);
  }

  /** The length of a line. */
  lemma TextLength(r: Record)
    ensures |Text(r)| == |r.username| + |Decimal(r.uid)| + |Decimal(r.gid)| + |r.home| + 2 * |r.salt| + 2 * |r.hash|
                         + |r.role| + 6 + if r.algo == PBKDF2 then 0 else |Decimal(r.tCost)| + |Decimal(r.mCost)| + 11
  {
    hide Decimal, Hex;
    var a, b, d := [r.username, Decimal(r.uid), Decimal(r.gid)], [r.home, Hex(r.salt)], [Hex(r.hash), r.role];
    JoinThree(a[0], a[1], a[2]);
    JoinTwo(b[0], b[1]);
    JoinTwo(d[0], d[1]);
    JoinAppend(a, b);
    JoinAppend(a + b, d);
    var base := a + b + d;
    assert base == [r.username, Decimal(r.uid), Decimal(r.gid), r.home, Hex(r.salt), Hex(r.hash), r.role];
    if r.algo != PBKDF2 {
      var t := ["argon2id", Decimal(r.tCost), Decimal(r.mCost)];
      JoinThree(t[0], t[1], t[2]);
      JoinAppend(base, t);
    }
  }

  /** What every parsed record is, whatever bytes its line held. */
  predicate Sized(r: Record) {
    && |r.username| < NAME_MAX && |r.home| < HOME_MAX && |r.role| < ROLE_MAX
    && |r.salt| == SALT_SIZE && |r.hash| == HASH_SIZE && r.algo <= ARGON2ID
  }

  lemma ApplyFieldSized(p: Partial, i: nat, f: string)
    requires Sized(p.rec) && ApplyField(p, i, f).Some?
    ensures Sized(ApplyField(p, i, f).value.rec)
  {
    assert |CStr(f)| <= |f|;
    hide CStr, Unhex, ParsedU32;
  }

  lemma {:induction false} ApplyAllSized(fields: seq<string>)
    requires ApplyAll(fields).Some?
    ensures Sized(ApplyAll(fields).value.rec)
  {
    if fields != [] {
      var n := |fields| - 1;
      ApplyAllSized(fields[..n]);
      hide Sized, ApplyField;
      ApplyFieldSized(ApplyAll(fields[..n]).value, n, fields[n]);
    }
  }

  lemma ParsedSized(line: string)
    requires Parse(line).Some?
    ensures Sized(Parse(line).value)
  {
    ApplyAllSized(Split(line, ':'));
  }

  /** No parsed or rehashed record overflows the line buffer. */
  lemma LineFits(r: Record)
    requires Sized(r)
    ensures |Text(r)| + 1 < LINE_CAP
  {
    TextLength(r);
    DecimalFits(r.uid);
    DecimalFits(r.gid);
    DecimalFits(r.tCost);
    DecimalFits(r.mCost);
  }

  lemma DecimalOfCosts()
    ensures |Decimal(NEW_T_COST)| == 1 && |Decimal(NEW_M_COST)| == 4
  {
    assert Decimal(819) == Decimal(81) + ['9'];
  }

  const GROWTH := 16

  lemma GrowthOfOne(r: Record, c: Change, k: nat)
    requires Storable(r) && KdfOk(c.kdf) && Replace(r, c, k).Some?
    ensures |Text(Replace(r, c, k).value)| <= |Text(r)| + if r.username == c.user then GROWTH else 0
  {
    if r.username == c.user {
      TextLength(r);
      TextLength(Rehashed(r, c, k));
      DecimalOfCosts();
      hide Decimal, Text;
    }
  }

  function Matches(rs: seq<Record>, user: string): nat {
    if rs == [] then 0 else Matches(rs[..|rs| - 1], user) + if rs[|rs| - 1].username == user then 1 else 0
  }

  lemma {:induction false} GrowthOfAll(rs: seq<Record>, c: Change)
    requires AllStorable(rs) && KdfOk(c.kdf) && ReplaceAll(rs, c).Some?
    ensures |FileText(ReplaceAll(rs, c).value)| <= |FileText(rs)| + GROWTH * Matches(rs, c.user)
  {
    if rs != [] {
      var n := |rs| - 1;
      hide Storable, Text;
      GrowthOfAll(rs[..n], c);
      GrowthOfOne(rs[n], c, n);
      var out := ReplaceAll(rs, c).value;
      assert out[..n] == ReplaceAll(rs[..n], c).value;
    }
  }

  predicate DistinctNames(rs: seq<Record>) {
    forall i, j :: 0 <= i < j < |rs| ==> rs[i].username != rs[j].username
  }

  lemma {:induction false} NoMatch(rs: seq<Record>, user: string)
    requires forall i :: 0 <= i < |rs| ==> rs[i].username != user
    ensures Matches(rs, user) == 0
  {
    if rs != [] { NoMatch(rs[..|rs| - 1], user); }
  }

  lemma {:induction false} OneMatch(rs: seq<Record>, user: string)
    requires DistinctNames(rs)
    ensures Matches(rs, user) <= 1
  {
    if rs != [] {
      var n := |rs| - 1;
      if rs[n].username == user { NoMatch(rs[..n], user); } else { OneMatch(rs[..n], user); }
    }
  }

  lemma {:induction false} ReplaceAllReady(rs: seq<Record>, c: Change)
    requires forall i :: 0 <= i < |rs| && rs[i].username == c.user ==> c.kdf.ready(i)
    ensures ReplaceAll(rs, c).Some?
  {
    if rs != [] { ReplaceAllReady(rs[..|rs| - 1], c); }
  }

  /** With distinct names, a rewrite is refused for its derivation exactly when the target's finds no memory. */
  lemma ReplaceAllExactly(rs: seq<Record>, c: Change)
    requires DistinctNames(rs)
    ensures HasUser(rs, c.user) && ReplaceAll(rs, c).Some? <==>
            exists i :: 0 <= i < |rs| && rs[i].username == c.user && c.kdf.ready(i)
  {
    if HasUser(rs, c.user) {
      var i :| 0 <= i < |rs| && rs[i].username == c.user;
      assert forall k :: 0 <= k < |rs| && rs[k].username == c.user ==> k == i;
      if ReplaceAll(rs, c).Some? {
        ReplaceAllAt(rs, c, i);
      } else if c.kdf.ready(i) {
        ReplaceAllReady(rs, c);
      }
    }
  }

  /** With distinct names the output never needs more than its headroom. */
  lemma OutputFits(rs: seq<Record>, c: Change)
    requires AllStorable(rs) && DistinctNames(rs) && KdfOk(c.kdf) && ReplaceAll(rs, c).Some?
    ensures |FileText(ReplaceAll(rs, c).value)| < |FileText(rs)| + HEADROOM
  {
    hide AllStorable, FileText, DistinctNames, ReplaceAll, Matches;
    GrowthOfAll(rs, c);
    OneMatch(rs, c.user);
  }

  /** On a file of canonical lines with distinct names the output buffer never overflows: a rewrite goes through exactly
      when the name and password are given, the user exists and the derivation finds its memory. */
  lemma RewriteFits(rs: seq<Record>, c: Change)
    requires AllStorable(rs) && NormalizeAll(rs) == rs && DistinctNames(rs) && KdfOk(c.kdf)
    ensures Accepts(FileText(rs), c) <==>
            c.user != "" && c.password != "" && exists i :: 0 <= i < |rs| && rs[i].username == c.user && c.kdf.ready(i)
  {
    FileRoundTrip(rs);
    hide FileRecords, FileText, AllStorable, NormalizeAll, DistinctNames, ReplaceAll, KdfOk, HasUser;
    ReplaceAllExactly(rs, c);
    if ReplaceAll(rs, c).Some? { OutputFits(rs, c); }
  }

  // ----- a file whose rewrite changes another user's record -----

  /** A legacy record written with all ten fields, as the parser also accepts it. */
  function TenFields(r: Record): seq<string> {
    [r.username, Decimal(r.uid), Decimal(r.gid), r.home, Hex(r.salt), Hex(r.hash), r.role,
    "pbkdf2", Decimal(r.tCost), Decimal(r.mCost)]
  }

  function TenText(r: Record): string { Join(TenFields(r)) }

  lemma ApplyTenLegacy(r: Record)
    requires Storable(r) && r.algo == PBKDF2
    ensures ApplyAll(TenFields(r)) == Some(Partial(r, true))
  {
    var f := TenFields(r);
    ApplySeven(r);
    ParseDecimal(r.tCost);
    ParseDecimal(r.mCost);
    hide Decimal, Hex, Unhex, CStr, ParsedU32, ApplyAll;
    assert f[..7] == FieldsOf(r)[..7];
    ApplyAppend(f[..7], f[7]);
    assert f[..7] + [f[7]] == f[..8];
    ApplyAppend(f[..8], f[8]);
    assert f[..8] + [f[8]] == f[..9];
    ApplyAppend(f[..9], f[9]);
    assert f[..9] + [f[9]] == f;
  }

  lemma TenFieldsClean(r: Record)
    requires Storable(r) && r.algo == PBKDF2
    ensures forall i :: 0 <= i < |TenFields(r)| ==> Clean(TenFields(r)[i])
  {
    FieldsClean(r);
    DigitsClean(Decimal(r.tCost));
    DigitsClean(Decimal(r.mCost));
    hide Decimal, Hex, Storable;
    var f := TenFields(r);
    assert FieldsOf(r) == f[..7];
    forall i | 0 <= i < |f| ensures Clean(f[i]) {
      if i < 7 { assert f[i] == FieldsOf(r)[i]; }
    }
  }

  /** The parser reads a ten-field legacy line in full, costs included. */
  lemma TenFieldLine(r: Record)
    requires Storable(r) && r.algo == PBKDF2
    ensures Parse(TenText(r)) == Some(r)
    ensures TenText(r) != "" && '\n' !in TenText(r) && |TenText(r)| > |Text(r)|
  {
    TenFieldsClean(r);
    SplitJoin(TenFields(r));
    ApplyTenLegacy(r);
    JoinClean(TenFields(r), '\n');
    var t := ["pbkdf2", Decimal(r.tCost), Decimal(r.mCost)];
    hide Decimal, Hex, ApplyAll, Split;
    assert TenFields(r) == FieldsOf(r) + t;
    JoinAppend(FieldsOf(r), t);
  }

  /** A file of one canonical line and one ten-field legacy line. */
  function CostlyFile(a: Record, b: Record): string { Text(a) + "\n" + TenText(b) + "\n" }

  lemma OneLineFile(a: Record)
    requires Storable(a) && Normalize(a) == a
    ensures FileRecords(Text(a) + "\n") == [a]
  {
    hide Text, Records, Storable, Normalize, Split;
    RecordsOfNothing();
    LineAppended("", a);
    assert "" + Text(a) + "\n" == Text(a) + "\n";
    assert FileRecords("") == [] && [] + [a] == [a];
  }

  lemma CostlyFileReads(a: Record, b: Record)
    requires Storable(a) && Normalize(a) == a && Storable(b) && b.algo == PBKDF2
    ensures FileRecords(CostlyFile(a, b)) == [a, b]
  {
    hide Parse, Text, TenText, Records, Storable, Normalize, Split;
    var first, line := Text(a) + "\n", TenText(b);
    OneLineFile(a);
    TenFieldLine(b);
    RecordsOfOne(line);
    SplitAppend(first, line);
    assert CostlyFile(a, b) == first + line + "\n";
  }

  lemma FileTextOfTwo(a: Record, b: Record)
    ensures FileText([a, b]) == Text(a) + "\n" + Text(b) + "\n"
  {
    assert [a, b][..1] == [a] && [a][..0] == [];
    hide Text;
    assert FileText([a]) == Text(a) + "\n";
  }

  lemma CostlyFileClean(a: Record, b: Record)
    requires Storable(a) && Storable(b) && b.algo == PBKDF2
    ensures '\0' !in CostlyFile(a, b)
  {
    TextIsALine(a);
    TenFieldsClean(b);
    JoinClean(TenFields(b), '\0');
    hide Storable, Text, TenFields;
  }

  lemma CostlyReplaced(a: Record, b: Record, c: Change)
    requires c.kdf.ready(0) && a.username == c.user && b.username != c.user
    ensures ReplaceAll([a, b], c) == Some([Rehashed(a, c, 0), b])
  {
    var target := Rehashed(a, c, 0);
    ReplaceAllAppend([], a, c);
    hide Rehashed;
    assert [] + [target] == [target] && [target] + [b] == [target, b];
    ReplaceAllAppend([a], b, c);
    assert [] + [a] == [a] && [a] + [b] == [a, b];
  }

  /** Changing one user's password drops the costs another user's hash was derived with: the rewrite is accepted, and
      reads back with that record altered. */
  lemma LegacyCostsAreLost(a: Record, b: Record, c: Change)
    requires Storable(a) && Normalize(a) == a && Storable(b) && b.algo == PBKDF2 && !Faithful(b)
    requires KdfOk(c.kdf) && c.kdf.ready(0) && a.username == c.user != b.username && c.password != ""
    ensures Accepts(CostlyFile(a, b), c) && FileRecords(CostlyFile(a, b)) == [a, b]
    ensures FileRecords(Rewritten(CostlyFile(a, b), c)) == [Rehashed(a, c, 0), b.(tCost := 0, mCost := 0)]
    ensures b.(tCost := 0, mCost := 0) != b
  {
    CostlyFileReads(a, b);
    CostlyReplaced(a, b, c);
    CostlyAccepted(a, b, c);
    CostlyReadsBack(a, b, c);
    hide FileText, FileRecords, Storable, ReplaceAll, Rehashed;
  }

  lemma CostlyAccepted(a: Record, b: Record, c: Change)
    requires Storable(a) && Normalize(a) == a && Storable(b) && b.algo == PBKDF2
    requires KdfOk(c.kdf) && c.kdf.ready(0) && a.username == c.user != b.username && c.password != ""
    ensures Accepts(CostlyFile(a, b), c)
  {
    var rs, file := [a, b], CostlyFile(a, b);
    assert DistinctNames(rs) && AllStorable(rs) && rs[0].username == c.user;
    CostlyLonger(a, b);
    hide Storable, Text, TenText, CostlyFile, FileText, ReplaceAll, Rehashed, Normalize;
    CostlyFileReads(a, b);
    CostlyReplaced(a, b, c);
    OutputFits(rs, c);
  }

  lemma CostlyLonger(a: Record, b: Record)
    requires Storable(b) && b.algo == PBKDF2
    ensures |CostlyFile(a, b)| >= |FileText([a, b])|
  {
    FileTextOfTwo(a, b);
    TenFieldLine(b);
    hide Text, TenText, FileText, Storable;
  }

  lemma CostlyReadsBack(a: Record, b: Record, c: Change)
    requires Storable(a) && Storable(b) && b.algo == PBKDF2 && KdfOk(c.kdf) && c.kdf.ready(0) && a.username == c.user
    ensures FileRecords(FileText([Rehashed(a, c, 0), b])) == [Rehashed(a, c, 0), b.(tCost := 0, mCost := 0)]
  {
    var out := [Rehashed(a, c, 0), b];
    RehashedStorable(a, c, 0);
    assert Normalize(out[0]) == out[0] && AllStorable(out);
    hide FileText, FileRecords, Storable, Rehashed;
    FileRoundTrip(out);
    assert NormalizeAll(out) == [out[0], b.(tCost := 0, mCost := 0)];
  }

  /** One such file: user a's password change makes user b's cost 7 read as 0. */
  lemma CostSevenIsLost(c: Change)
    requires KdfOk(c.kdf) && c.kdf.ready(0) && c.user == "a" && c.password != ""
    ensures exists source, k ::
              && Accepts(source, c) && 0 <= k < |FileRecords(source)| == |FileRecords(Rewritten(source, c))|
              && FileRecords(source)[k].username == "b"
              && FileRecords(source)[k].tCost == 7 && FileRecords(Rewritten(source, c))[k].tCost == 0
  {
    var a, b := CLEARED.(username := "a"), CLEARED.(username := "b", tCost := 7);
    LegacyCostsAreLost(a, b, c);
    hide Accepts, FileRecords, Rewritten, CostlyFile;
    var source := CostlyFile(a, b);
    assert FileRecords(source)[1] == b;
  }
}
