/** The user database in its own bytes: a line written out, the lines the parser takes, and the records a password
    rewrite leaves, field by field (src/auth/userdb_io.c, src/auth/userdb_auth.c). */
module UserFormat {
  import opened Words
  import opened Texts
  import opened UserRecords
  import opened UserLines
  import opened UserDb
  import opened UserRewrite

  // ----- numbers and bytes -----

  /** Two lower-case digits a byte, the high one first. */
  lemma HexExactly(bytes: seq<byte>, i: nat)
    requires i < |bytes|
    ensures Hex(bytes)[2 * i] == "0123456789abcdef"[bytes[i] / 16]
    ensures Hex(bytes)[2 * i + 1] == "0123456789abcdef"[bytes[i] % 16]
  {
    HexIndex(bytes, i);
  }

  /** The parser takes digits of either case. */
  lemma PairExactly(h: nat, l: nat)
    requires h < 16 && l < 16
    ensures Pair("0123456789abcdef"[h], "0123456789abcdef"[l]) == Some(16 * h + l)
    ensures Pair("0123456789ABCDEF"[h], "0123456789ABCDEF"[l]) == Some(16 * h + l)
  {
    DigitExactly(h);
    DigitExactly(l);
    hide HexValue;
  }

  lemma DigitExactly(n: nat)
    requires n < 16
    ensures HexValue("0123456789abcdef"[n]) == HexValue("0123456789ABCDEF"[n]) == Some(n)
  {
  }

  /** A decimal text ends in the digit of ones, and the text before it is that of the tens. */
  lemma DecimalExactly(v: nat)
    ensures Decimal(v) == (if v < 10 then "" else Decimal(v / 10)) + ["0123456789"[v % 10]]
  {
    OneDigit(v % 10);
    if v < 10 { assert Decimal(v) == "" + ['0' + v as char]; }
  }

  lemma OneDigit(n: nat)
    requires n < 10
    ensures '0' + n as char == "0123456789"[n]
  {
  }

  // ----- the line -----

  /** The line of a record: its fields in the order of the format, a colon between any two. */
  lemma TextExactly(r: Record)
    ensures
      var tail := if r.algo == 0 then "" else ":argon2id:" + (Decimal(r.tCost) + ":" + Decimal(r.mCost));
      Text(r) == r.username + ":" + (Decimal(r.uid) + ":" + (Decimal(r.gid) + ":" + (r.home + ":" + (
                 Hex(r.salt) + ":" + (Hex(r.hash) + ":" + (r.role + tail))))))
  {
    hide Decimal, Hex, Join;
    var t, m := Decimal(r.tCost), Decimal(r.mCost);
    var last := if r.algo == 0 then [r.role] else [r.role, "argon2id", t, m];
    assert FieldsOf(r) == [r.username, Decimal(r.uid), Decimal(r.gid), r.home, Hex(r.salt), Hex(r.hash)] + last;
    JoinSix(r.username, Decimal(r.uid), Decimal(r.gid), r.home, Hex(r.salt), Hex(r.hash), last);
    LastFields(r.role, t, m);
  }

  lemma JoinCons(x: string, rest: seq<string>)
    requires rest != []
    ensures Join([x] + rest) == x + ":" + Join(rest)
  {
    assert ([x] + rest)[1..] == rest;
  }

  lemma JoinSix(a: string, b: string, c: string, d: string, e: string, f: string, rest: seq<string>)
    requires rest != []
    ensures Join([a, b, c, d, e, f] + rest) ==
            a + ":" + (b + ":" + (c + ":" + (d + ":" + (e + ":" + (f + ":" + Join(rest))))))
  {
    hide Join;
    var r1 := [f] + rest;
    var r2 := [e] + r1;
    var r3 := [d] + r2;
    var r4 := [c] + r3;
    var r5 := [b] + r4;
    assert [a, b, c, d, e, f] + rest == [a] + r5;
    JoinCons(f, rest);
    JoinCons(e, r1);
    JoinCons(d, r2);
    JoinCons(c, r3);
    JoinCons(b, r4);
    JoinCons(a, r5);
  }

  lemma LastFields(role: string, t: string, m: string)
    ensures Join([role]) == role + ""
    ensures Join([role, "argon2id", t, m]) == role + (":argon2id:" + (t + ":" + m))
  {
    JoinThree("argon2id", t, m);
    JoinCons(role, ["argon2id", t, m]);
    assert [role] + ["argon2id", t, m] == [role, "argon2id", t, m];
    assert "argon2id" + ":" + t + ":" + m == "argon2id" + ":" + (t + ":" + m);
    LastField(role, t + ":" + m);
  }

  lemma LastField(role: string, costs: string)
    ensures role + ":" + ("argon2id" + ":" + costs) == role + (":argon2id:" + costs)
  {
    assert ":argon2id:" == ":" + "argon2id" + ":";
  }

  /** Cutting a line and joining it again gives the line, so with no colon in a field the cut is the only one. */
  lemma {:induction false} JoinSplit(s: string)
    ensures Join(Split(s, ':')) == s
  {
    if s != "" {
      var rest := Split(s[1..], ':');
      JoinSplit(s[1..]);
      assert s == [s[0]] + s[1..];
      if s[0] == ':' {
        assert Split(s, ':') == [""] + rest && ([""] + rest)[1..] == rest;
      } else {
        var first := [s[0]] + rest[0];
        assert Split(s, ':') == [first] + rest[1..];
        assert ([first] + rest[1..])[1..] == rest[1..];
      }
    }
  }

  /** What the first seven fields must be. */
  predicate BaseOk(f: seq<string>) {
    && |f| >= 7 && 1 <= |f[0]| <= 31 && |f[3]| <= 95 && |f[6]| <= 15
    && |f[4]| == 32 && HexText(f[4]) && |f[5]| == 64 && HexText(f[5])
  }

  /** What the fields from the eighth on must be: none at all, or a known algorithm and two costs. */
  predicate TrailerOk(f: seq<string>) {
    || |f| == 7
    || (|f| >= 10 && f[8] != "" && f[9] != "" &&
        (f[7] == "pbkdf2" || (f[7] == "argon2id" && ParsedU32(f[8]) >= 1 && ParsedU32(f[9]) >= 8)))
  }

  function BaseRecord(f: seq<string>): Record
    requires BaseOk(f)
  {
    Record(CStr(f[0]), ParsedU32(f[1]), ParsedU32(f[2]), CStr(f[3]), Unhex(f[4]).value, Unhex(f[5]).value, CStr(f[6]),
           0, 0, 0)
  }

  lemma ApplyBase(f: seq<string>)
    requires |f| == 7
    ensures ApplyAll(f) == if BaseOk(f) then Some(Partial(BaseRecord(f), false)) else None
  {
    hide Unhex, CStr, ParsedU32, HexText;
    UnhexExactly(f[4]);
    UnhexExactly(f[5]);
    ApplyNone();
    ApplyAppend([], f[0]);
    assert [] + [f[0]] == f[..1];
    ApplyAppend(f[..1], f[1]);
    assert f[..1] + [f[1]] == f[..2];
    ApplyAppend(f[..2], f[2]);
    assert f[..2] + [f[2]] == f[..3];
    ApplyAppend(f[..3], f[3]);
    assert f[..3] + [f[3]] == f[..4];
    ApplyAppend(f[..4], f[4]);
    assert f[..4] + [f[4]] == f[..5];
    ApplyAppend(f[..5], f[5]);
    assert f[..5] + [f[5]] == f[..6];
    ApplyAppend(f[..6], f[6]);
    assert f[..6] + [f[6]] == f;
  }

  lemma UnhexExactly(s: string)
    ensures Unhex(s).Some? == HexText(s)
  {
  }

  lemma ApplyTrailerTo(f: seq<string>, p: Partial)
    requires |f| == 10 && ApplyAll(f[..7]) == Some(p) && !p.sawAlgo
    ensures ApplyAll(f[..8]).Some? ==> ApplyAll(f[..8]).value.sawAlgo
    ensures ApplyAll(f[..9]).Some? ==> ApplyAll(f[..9]).value.sawAlgo
    ensures ApplyAll(f) ==
            if (f[7] == "pbkdf2" || f[7] == "argon2id") && f[8] != "" && f[9] != "" then
              Some(Partial(p.rec.(algo := if f[7] == "pbkdf2" then 0 else 1, tCost := ParsedU32(f[8]),
                                  mCost := ParsedU32(f[9])), true))
            else None
  {
    hide ApplyAll, ParsedU32;
    ApplyAppend(f[..7], f[7]);
    assert f[..7] + [f[7]] == f[..8];
    ApplyAppend(f[..8], f[8]);
    assert f[..8] + [f[8]] == f[..9];
    ApplyAppend(f[..9], f[9]);
    assert f[..9] + [f[9]] == f;
  }

  /** Fields after the tenth change nothing. */
  lemma {:induction false} ApplyLonger(f: seq<string>)
    requires |f| >= 10
    ensures ApplyAll(f) == ApplyAll(f[..10])
  {
    if |f| > 10 {
      ApplyLonger(f[..|f| - 1]);
      assert f[..|f| - 1][..10] == f[..10];
    } else {
      assert f[..10] == f;
    }
  }

  lemma BaseOfPrefix(f: seq<string>)
    requires |f| >= 7
    ensures BaseOk(f[..7]) == BaseOk(f) && (BaseOk(f) ==> BaseRecord(f[..7]) == BaseRecord(f))
  {
    hide HexText, Unhex, ParsedU32, CStr;
  }

  /** Eight or nine fields name an algorithm without its costs. */
  lemma ApplyShort(f: seq<string>)
    requires 7 < |f| < 10 && ApplyAll(f).Some?
    ensures ApplyAll(f).value.sawAlgo
  {
    hide ApplyAll, BaseOk, BaseRecord, ParsedU32;
    ApplyBase(f[..7]);
    if !BaseOk(f[..7]) {
      ApplyPrefix(f[..7], f);
      assert false;
    }
    var g := if |f| == 8 then f + ["", ""] else f + [""];
    assert g[..7] == f[..7];
    ApplyTrailerTo(g, Partial(BaseRecord(f[..7]), false));
    assert g[..|f|] == f;
  }

  lemma ApplyWhole(f: seq<string>)
    requires |f| >= 10
    ensures ApplyAll(f) ==
            if BaseOk(f) && (f[7] == "pbkdf2" || f[7] == "argon2id") && f[8] != "" && f[9] != "" then
              Some(Partial(BaseRecord(f).(algo := if f[7] == "pbkdf2" then 0 else 1, tCost := ParsedU32(f[8]),
                                          mCost := ParsedU32(f[9])), true))
            else None
  {
    hide ApplyAll, BaseOk, BaseRecord, ParsedU32;
    ApplyLonger(f);
    ApplyBase(f[..7]);
    BaseOfPrefix(f);
    var g := f[..10];
    assert g[..7] == f[..7];
    if BaseOk(f) {
      ApplyTrailerTo(g, Partial(BaseRecord(f), false));
    } else {
      ApplyPrefix(f[..7], f);
    }
  }

  /** A line parses exactly if its fields have these sizes and forms, and the record is then theirs: seven fields for a
      legacy record, or ten and more with the algorithm and its costs. */
  lemma ParseExactly(line: string)
    ensures
      var f, r := Split(line, ':'), Parse(line);
      && (r.Some? <==> BaseOk(f) && TrailerOk(f))
      && (r.Some? ==>
          && r.value.username == CStr(f[0]) && r.value.uid == ParsedU32(f[1]) && r.value.gid == ParsedU32(f[2])
          && r.value.home == CStr(f[3]) && Unhex(f[4]) == Some(r.value.salt) && Unhex(f[5]) == Some(r.value.hash)
          && r.value.role == CStr(f[6]) && r.value.algo == (if |f| == 7 || f[7] == "pbkdf2" then 0 else 1)
          && r.value.tCost == (if |f| == 7 then 0 else ParsedU32(f[8]))
          && r.value.mCost == (if |f| == 7 then 0 else ParsedU32(f[9])))
  {
    var f := Split(line, ':');
    hide Split, ApplyAll, HexText, Unhex, ParsedU32, CStr;
    if |f| == 7 {
      ApplyBase(f);
    } else if 7 < |f| < 10 {
      if ApplyAll(f).Some? { ApplyShort(f); }
    } else if |f| >= 10 {
      ApplyWhole(f);
    }
    if BaseOk(f) {
      UnhexExactly(f[4]);
      UnhexExactly(f[5]);
    }
  }

  // ----- the rewrite -----

  /** What a rewrite leaves: the target's records with the new derivation and nothing else changed; everyone else's as
      they were, but for the costs of a legacy record. */
  lemma RewriteExactly(source: string, c: Change, i: nat)
    requires '\0' !in source && KdfOk(c.kdf) && Accepts(source, c) && i < |FileRecords(source)|
    ensures
      var before, after := FileRecords(source), FileRecords(Rewritten(source, c));
      && |after| == |before|
      && var r, s := before[i], after[i];
         && s.username == r.username && s.uid == r.uid && s.gid == r.gid && s.home == r.home && s.role == r.role
         && (if r.username == c.user then
               && s.algo == 1 && s.tCost == 3 && s.mCost == 8192 && s.salt == c.kdf.salt(i)
               && s.hash == c.kdf.hash(c.password, s.salt, 1, 3, 8192)
             else
               && s.algo == r.algo && s.salt == r.salt && s.hash == r.hash
               && s.tCost == (if r.algo == 0 then 0 else r.tCost)
               && s.mCost == (if r.algo == 0 then 0 else r.mCost))
  {
    RewriteReadsBack(source, c);
    hide FileRecords, Rewritten, Accepts;
  }

  lemma {:induction false} ReplaceAllNeeds(rs: seq<Record>, c: Change)
    ensures ReplaceAll(rs, c).Some? <==> forall i :: 0 <= i < |rs| && rs[i].username == c.user ==> c.kdf.ready(i)
  {
    if ReplaceAll(rs, c).Some? {
      forall i | 0 <= i < |rs| && rs[i].username == c.user
        ensures c.kdf.ready(i)
      {
        ReplaceAllAt(rs, c, i);
      }
    } else if forall i :: 0 <= i < |rs| && rs[i].username == c.user ==> c.kdf.ready(i) {
      ReplaceAllReady(rs, c);
    }
  }

  /** A rewrite goes through exactly if a name and a password are given, the name occurs, every derivation it needs
      finds its memory, and the new text stays under 512 characters more than the old. */
  lemma AcceptsExactly(source: string, c: Change)
    ensures
      var rs := FileRecords(source);
      Accepts(source, c) <==>
      && c.user != "" && c.password != "" && (exists i :: 0 <= i < |rs| && rs[i].username == c.user)
      && (forall i :: 0 <= i < |rs| && rs[i].username == c.user ==> c.kdf.ready(i))
      && ReplaceAll(rs, c).Some? && |FileText(ReplaceAll(rs, c).value)| < |source| + 512
  {
    hide FileRecords, FileText;
    ReplaceAllNeeds(FileRecords(source), c);
  }
}
