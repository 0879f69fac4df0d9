/** Serialising a user record to its line, and the round trip through the parser (src/auth/userdb_io.c). */
module UserLines {
  import opened Words
  import opened Texts
  import opened UserRecords

  /** A field text that survives on a line. */
  predicate Clean(s: string) { ':' !in s && '\n' !in s && '\0' !in s }

  /** A record the parser can have produced: bounded clean texts, and costs in range for Argon2id. */
  predicate Storable(r: Record) {
    && 0 < |r.username| < NAME_MAX && Clean(r.username)
    && |r.home| < HOME_MAX && Clean(r.home)
    && |r.role| < ROLE_MAX && Clean(r.role)
    && |r.salt| == SALT_SIZE && |r.hash| == HASH_SIZE
    && (r.algo == PBKDF2 || (r.algo == ARGON2ID && r.tCost >= MIN_T_COST && r.mCost >= MIN_M_COST))
  }

  /** The line keeps no costs for a legacy record. */
  function Normalize(r: Record): Record {
    if r.algo == PBKDF2 then r.(tCost := 0, mCost := 0) else r
  }

  /** Legacy records have seven fields, Argon2id records ten. */
  function FieldsOf(r: Record): seq<string> {
    var base := [r.username, Decimal(r.uid), Decimal(r.gid), r.home, Hex(r.salt), Hex(r.hash), r.role];
    if r.algo == PBKDF2 then base else base + ["argon2id", Decimal(r.tCost), Decimal(r.mCost)]
  }

  function Join(fields: seq<string>): string
    requires fields != []
  {
    if |fields| == 1 then fields[0] else fields[0] + ":" + Join(fields[1..])
  }

  /** The line of a record, without its newline. */
  function Text(r: Record): string { Join(FieldsOf(r)) }

  lemma {:induction false} SplitJoin(fields: seq<string>)
    requires fields != [] && forall i :: 0 <= i < |fields| ==> ':' !in fields[i]
    ensures Split(Join(fields), ':') == fields
  {
    if |fields| == 1 {
      SplitWhole(fields[0], ':');
    } else {
      SplitJoin(fields[1..]);
      SplitAt(fields[0], ':', Join(fields[1..]));
      assert fields == [fields[0]] + fields[1..];
    }
  }

  lemma DigitsClean(s: string)
    requires forall i :: 0 <= i < |s| ==> Digit(s[i])
    ensures Clean(s)
  {
  }

  lemma HexClean(bytes: seq<byte>)
    ensures Clean(Hex(bytes))
  {
  }

  lemma FieldsClean(r: Record)
    requires Storable(r)
    ensures forall i :: 0 <= i < |FieldsOf(r)| ==> Clean(FieldsOf(r)[i])
  {
    DigitsClean(Decimal(r.uid));
    DigitsClean(Decimal(r.gid));
    DigitsClean(Decimal(r.tCost));
    DigitsClean(Decimal(r.mCost));
    HexClean(r.salt);
    HexClean(r.hash);
    hide Decimal, Hex;
  }

  lemma ApplyFour(r: Record)
    requires Storable(r)
    ensures ApplyAll(FieldsOf(r)[..4]) ==
            Some(Partial(CLEARED.(username := r.username, uid := r.uid, gid := r.gid, home := r.home), false))
  {
    var f := FieldsOf(r);
    ParseDecimal(r.uid);
    ParseDecimal(r.gid);
    CStrWhole(r.username);
    CStrWhole(r.home);
    hide Decimal, Hex, Unhex, CStr, ParsedU32, ApplyAll;
    ApplyNone();
    ApplyAppend([], f[0]);
    assert [] + [f[0]] == f[..1];
    ApplyAppend(f[..1], f[1]);
    assert f[..1] + [f[1]] == f[..2];
    ApplyAppend(f[..2], f[2]);
    assert f[..2] + [f[2]] == f[..3];
    ApplyAppend(f[..3], f[3]);
    assert f[..3] + [f[3]] == f[..4];
  }

  /** The first seven fields of a line rebuild everything but the algorithm. */
  lemma ApplySeven(r: Record)
    requires Storable(r)
    ensures ApplyAll(FieldsOf(r)[..7]) == Some(Partial(r.(algo := PBKDF2, tCost := 0, mCost := 0), false))
  {
    hide Decimal, Hex, Unhex, CStr, ParsedU32, ApplyField, ApplyAll, Clean;
    var f := FieldsOf(r);
    ApplyFour(r);
    var rec4 := CLEARED.(username := r.username, uid := r.uid, gid := r.gid, home := r.home);
    var rec5 := rec4.(salt := r.salt);
    var rec6 := rec5.(hash := r.hash);
    ApplySalt(rec4, r.salt);
    ApplyHash(rec5, r.hash);
    ApplyRole(rec6, r.role);
    assert f[4] == Hex(r.salt) && f[5] == Hex(r.hash) && f[6] == r.role;
    ApplyAppend(f[..4], f[4]);
    assert f[..4] + [f[4]] == f[..5];
    ApplyAppend(f[..5], f[5]);
    assert f[..5] + [f[5]] == f[..6];
    ApplyAppend(f[..6], f[6]);
    assert f[..6] + [f[6]] == f[..7];
  }

  lemma ApplySalt(rec: Record, salt: seq<byte>)
    requires |salt| == SALT_SIZE
    ensures ApplyField(Partial(rec, false), 4, Hex(salt)) == Some(Partial(rec.(salt := salt), false))
  {
    HexInverse(salt);
    hide Hex, Unhex;
  }

  lemma ApplyHash(rec: Record, hash: seq<byte>)
    requires |hash| == HASH_SIZE
    ensures ApplyField(Partial(rec, false), 5, Hex(hash)) == Some(Partial(rec.(hash := hash), false))
  {
    HexInverse(hash);
    hide Hex, Unhex;
  }

  lemma ApplyRole(rec: Record, role: string)
    requires |role| < ROLE_MAX && Clean(role)
    ensures ApplyField(Partial(rec, false), 6, role) == Some(Partial(rec.(role := role), false))
  {
    CStrWhole(role);
  }

  lemma ApplyNone()
    ensures ApplyAll([]) == Some(Partial(CLEARED, false))
  {
  }

  lemma ApplyTrailer(rec: Record, t: u32, m: u32)
    ensures ApplyField(Partial(rec, false), 7, "argon2id") == Some(Partial(rec.(algo := ARGON2ID), true))
    ensures ApplyField(Partial(rec, true), 8, Decimal(t)) == Some(Partial(rec.(tCost := t), true))
    ensures ApplyField(Partial(rec, true), 9, Decimal(m)) == Some(Partial(rec.(mCost := m), true))
  {
    ParseDecimal(t);
    ParseDecimal(m);
    hide Decimal, ParsedU32;
  }

  lemma ApplyTen(r: Record)
    requires Storable(r) && r.algo == ARGON2ID
    ensures ApplyAll(FieldsOf(r)) == Some(Partial(r, true))
  {
    hide Decimal, Hex, ApplyField, ApplyAll, Storable;
    var f := FieldsOf(r);
    ApplySeven(r);
    var rec7 := r.(algo := PBKDF2, tCost := 0, mCost := 0);
    var rec8 := rec7.(algo := ARGON2ID);
    ApplyTrailer(rec7, r.tCost, r.mCost);
    ApplyTrailer(rec8, r.tCost, r.mCost);
    ApplyTrailer(rec8.(tCost := r.tCost), r.tCost, r.mCost);
    assert f[7] == "argon2id" && f[8] == Decimal(r.tCost) && f[9] == Decimal(r.mCost);
    ApplyAppend(f[..7], f[7]);
    assert f[..7] + [f[7]] == f[..8];
    ApplyAppend(f[..8], f[8]);
    assert f[..8] + [f[8]] == f[..9];
    ApplyAppend(f[..9], f[9]);
    assert f[..9] + [f[9]] == f;
  }

  /** Parsing a serialised line returns the record, up to the costs a legacy line does not keep. */
  lemma LineRoundTrip(r: Record)
    requires Storable(r)
    ensures Parse(Text(r)) == Some(Normalize(r))
  {
    FieldsClean(r);
    SplitJoin(FieldsOf(r));
    if r.algo == PBKDF2 {
      ApplySeven(r);
      assert FieldsOf(r)[..7] == FieldsOf(r);
    } else {
      ApplyTen(r);
    }
  }

  // ----- what the parser produces -----

  lemma {:induction false} CStrClean(s: string)
    requires ':' !in s && '\n' !in s
    ensures Clean(CStr(s)) && |CStr(s)| <= |s|
    ensures '\0' !in s ==> CStr(s) == s
  {
    if s != "" && s[0] != '\0' { CStrClean(s[1..]); }
  }

  /** What holds of the record after `n` fields of a clean line. */
  predicate PartialOk(p: Partial, n: nat) {
    && |p.rec.username| < NAME_MAX && Clean(p.rec.username) && (n > 0 ==> p.rec.username != "")
    && |p.rec.home| < HOME_MAX && Clean(p.rec.home) && |p.rec.role| < ROLE_MAX && Clean(p.rec.role)
    && |p.rec.salt| == SALT_SIZE && |p.rec.hash| == HASH_SIZE
    && (p.rec.algo == PBKDF2 || p.rec.algo == ARGON2ID) && (!p.sawAlgo ==> p.rec.algo == PBKDF2)
  }

  lemma ApplyFieldOk(p: Partial, i: nat, f: string)
    requires PartialOk(p, i) && Clean(f) && ApplyField(p, i, f).Some?
    ensures PartialOk(ApplyField(p, i, f).value, i + 1)
  {
    var q := ApplyField(p, i, f).value.rec;
    CStrClean(f);
    if i == 0 { assert q == p.rec.(username := f); }
    if i == 3 { assert q == p.rec.(home := f); }
    if i == 6 { assert q == p.rec.(role := f); }
    hide CStr, Unhex, ParsedU32, Clean;
  }

  lemma {:induction false} ApplyAllOk(fields: seq<string>)
    requires forall i :: 0 <= i < |fields| ==> Clean(fields[i])
    requires ApplyAll(fields).Some?
    ensures PartialOk(ApplyAll(fields).value, |fields|)
  {
    if fields != [] {
      var n := |fields| - 1;
      ApplyAllOk(fields[..n]);
      ApplyFieldOk(ApplyAll(fields[..n]).value, n, fields[n]);
    }
  }

  /** Every record parsed from a line without NUL or newline can be stored again. */
  lemma ParsedIsStorable(line: string)
    requires '\0' !in line && '\n' !in line && Parse(line).Some?
    ensures Storable(Parse(line).value)
  {
    var fields := Split(line, ':');
    SplitChars(line, ':');
    assert forall i :: 0 <= i < |fields| ==> Clean(fields[i]);
    ApplyAllOk(fields);
  }

  // ----- the serialiser -----

  const LINE_CAP := NAME_MAX + HOME_MAX + ROLE_MAX + 2 * SALT_SIZE + 2 * HASH_SIZE + 128

  /** The list of pieces the source appends one by one. */
  function Pieces(fields: seq<string>): seq<string>
    requires fields != []
  {
    if |fields| == 1 then [fields[0], "\n"] else [fields[0], ":"] + Pieces(fields[1..])
  }

  function Concat(pieces: seq<string>): string {
    if pieces == [] then "" else Concat(pieces[..|pieces| - 1]) + pieces[|pieces| - 1]
  }

  lemma {:induction false} ConcatPrepend(x: string, pieces: seq<string>)
    ensures Concat([x] + pieces) == x + Concat(pieces)
  {
    var all, n := [x] + pieces, |pieces|;
    if n == 0 {
      assert all == [x] && all[..0] == [];
    } else {
      ConcatPrepend(x, pieces[..n - 1]);
      assert all[..n] == [x] + pieces[..n - 1] && all[n] == pieces[n - 1];
    }
  }

  lemma ConcatLast(x: string)
    ensures Concat([x, "\n"]) == x + "\n"
  {
    assert [x, "\n"][..1] == [x] && [x][..0] == [];
    assert Concat([x]) == x;
  }

  lemma {:induction false} ConcatPieces(fields: seq<string>)
    requires fields != []
    ensures Concat(Pieces(fields)) == Join(fields) + "\n"
  {
    hide Concat;
    if |fields| == 1 {
      ConcatLast(fields[0]);
    } else {
      var first, rest := fields[0], Pieces(fields[1..]);
      assert [first, ":"] + rest == [first] + ([":"] + rest);
      ConcatPieces(fields[1..]);
      ConcatPrepend(":", rest);
      ConcatPrepend(first, [":"] + rest);
    }
  }

  lemma {:induction false} ConcatPrefix(pieces: seq<string>, n: nat)
    requires n <= |pieces|
    ensures |Concat(pieces[..n])| <= |Concat(pieces)|
  {
    if n < |pieces| {
      ConcatPrefix(pieces[..|pieces| - 1], n);
      assert pieces[..|pieces| - 1][..n] == pieces[..n];
    } else {
      assert pieces[..n] == pieces;
    }
  }

  /** auth_append_piece. */
  method AppendPiece(dst: array<char>, idx: nat, piece: string) returns (rc: int, next: nat)
    modifies dst
    ensures rc == (if idx < dst.Length && idx + |piece| < dst.Length then 0 else -1)
    ensures rc == 0 ==> next == idx + |piece| && dst[..next] == old(dst[..idx]) + piece
    ensures rc != 0 ==> next == idx && dst[..] == old(dst[..])
  {
    if idx >= dst.Length || idx + |piece| >= dst.Length { return -1, idx; }
    for i := 0 to |piece|
      invariant dst[..idx + i] == old(dst[..idx]) + piece[..i]
    {
      dst[idx + i] := piece[i];
      assert dst[..idx + i + 1] == dst[..idx + i] + [piece[i]];
    }
    assert piece[..|piece|] == piece;
    return 0, idx + |piece|;
  }

  /** A number as the serialiser prints it, through a buffer of twelve characters. */
  method NumberText(v: u32) returns (s: string)
    ensures s == Decimal(v)
  {
    var buf := new char[12];
    var len := U32ToString(v, buf);
    DecimalFits(v);
    s := buf[..len];
  }

  method HexOf(bytes: seq<byte>) returns (s: string)
    ensures s == Hex(bytes)
  {
    var buf := new char[2 * |bytes| + 1];
    BytesToHex(bytes, buf);
    s := buf[..2 * |bytes|];
  }

  /** The texts userdb_serialize_line prepares. */
  method FieldTexts(r: Record) returns (fields: seq<string>)
    requires r.algo <= ARGON2ID
    ensures fields == FieldsOf(r)
  {
    hide Decimal, Hex;
    var uid := NumberText(r.uid);
    var gid := NumberText(r.gid);
    var salt := HexOf(r.salt);
    var hash := HexOf(r.hash);
    fields := [r.username, uid, gid, r.home, salt, hash, r.role];
    if r.algo != PBKDF2 {
      var t := NumberText(r.tCost);
      var m := NumberText(r.mCost);
      fields := fields + ["argon2id", t, m];
    }
  }

  /** userdb_serialize_line: succeeds exactly when the algorithm is known and the line fits, and then the buffer holds
      the line. */
  method SerializeLine(r: Record, line: array<char>) returns (rc: int, len: nat)
    requires line.Length > 0
    modifies line
    ensures rc == (if r.algo <= ARGON2ID && |Text(r)| + 1 < line.Length then 0 else -1)
    ensures rc == 0 ==> len == |Text(r)| + 1 && len < line.Length && line[..len] == Text(r) + "\n"
  {
    if r.algo > ARGON2ID { return -1, 0; }
    var fields := FieldTexts(r);
    var pieces := Pieces(fields);
    ConcatPieces(fields);
    hide Pieces, FieldsOf, Join;
    var idx: nat := 0;
    for i := 0 to |pieces|
      invariant idx < line.Length && line[..idx] == Concat(pieces[..i])
    {
      var status;
      assert pieces[..i + 1][..i] == pieces[..i];
      status, idx := AppendPiece(line, idx, pieces[i]);
      if status != 0 {
        ConcatPrefix(pieces, i + 1);
        return -1, 0;
      }
    }
    assert pieces[..|pieces|] == pieces;
    line[idx] := '\0';
    return 0, idx;
  }
}
