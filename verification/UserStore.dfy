/** The stored user database: lookup, password rewrite and authentication (src/auth/userdb_io.c,
    src/auth/userdb_auth.c). */
module UserStore {
  import opened Words
  import opened Texts
  import opened UserRecords
  import opened UserLines
  import opened UserDb
  import opened UserRewrite

  // ----- lists of lines under construction -----

  lemma RecordsAppend(lines: seq<string>, line: string)
    ensures Records(lines + [line]) ==
            Records(lines) + if line != "" && Parse(line).Some? then [Parse(line).value] else []
  {
    assert (lines + [line])[..|lines|] == lines;
  }

  lemma {:induction false} FindAppend(rs: seq<Record>, r: Record, user: string)
    ensures Find(rs + [r], user) ==
            if Find(rs, user).Some? then Find(rs, user) else if r.username == user then Some(r) else None
  {
    if rs == [] {
      assert rs + [r] == [r];
    } else {
      FindAppend(rs[1..], r, user);
      assert (rs + [r])[1..] == rs[1..] + [r];
    }
  }

  lemma {:induction false} FindPrefix(prefix: seq<Record>, rs: seq<Record>, user: string)
    requires prefix <= rs && Find(prefix, user).Some?
    ensures Find(rs, user) == Find(prefix, user)
  {
    if prefix[0].username != user { FindPrefix(prefix[1..], rs[1..], user); }
  }

  lemma {:induction false} RecordsPrefix(done: seq<string>, rest: seq<string>)
    ensures Records(done) <= Records(done + rest)
  {
    RecordsConcat(done, rest);
  }

  lemma {:induction false} ReplacePrefix(prefix: seq<Record>, rs: seq<Record>, c: Change)
    requires prefix <= rs && ReplaceAll(rs, c).Some?
    ensures ReplaceAll(prefix, c).Some? && ReplaceAll(prefix, c).value <= ReplaceAll(rs, c).value
  {
    if |prefix| < |rs| {
      ReplacePrefix(prefix, rs[..|rs| - 1], c);
    } else {
      assert prefix == rs;
    }
  }

  lemma {:induction false} FileTextPrefix(prefix: seq<Record>, rs: seq<Record>)
    requires prefix <= rs
    ensures |FileText(prefix)| <= |FileText(rs)|
  {
    if |prefix| < |rs| {
      FileTextPrefix(prefix, rs[..|rs| - 1]);
    } else {
      assert prefix == rs;
    }
  }

  /** A failure while the first lines are processed is a failure of the whole rewrite. */
  lemma PrefixFails(done: seq<string>, source: string, rest: seq<string>, c: Change)
    requires Split(source, '\n') == done + rest
    requires ReplaceAll(Records(done), c).None?
             || |FileText(ReplaceAll(Records(done), c).value)| >= |source| + HEADROOM
    ensures !Accepts(source, c)
  {
    RecordsPrefix(done, rest);
    var all := FileRecords(source);
    hide Records, Split;
    if ReplaceAll(all, c).Some? {
      ReplacePrefix(Records(done), all, c);
      FileTextPrefix(ReplaceAll(Records(done), c).value, ReplaceAll(all, c).value);
    }
  }

  // ----- one line of the rewrite -----

  /** The record of a line, if it has one. */
  function Kept(text: string): seq<Record> {
    if text != "" && Parse(text).Some? then [Parse(text).value] else []
  }

  /** What a line contributes to the new file: nothing if it does not parse, None if its derivation fails. */
  function LineOut(text: string, c: Change, k: nat): Option<string> {
    if Kept(text) == [] then Some("")
    else
      match Replace(Kept(text)[0], c, k)
      case None => None
      case Some(r) => Some(Text(r) + "\n")
  }

  predicate Targets(text: string, c: Change) { Kept(text) != [] && Kept(text)[0].username == c.user }

  /** The body of the rewrite loop for one line: parse, replace, serialise into the line buffer, copy to the output. */
  method RewriteLine(text: string, c: Change, k: nat, out: array<char>, len: nat)
    returns (ok: bool, next: nat, matched: bool)
    requires len < out.Length && KdfOk(c.kdf)
    modifies out
    ensures matched == Targets(text, c)
    ensures ok == (LineOut(text, c, k).Some? && len + |LineOut(text, c, k).value| < out.Length)
    ensures ok ==> next == len + |LineOut(text, c, k).value|
                   && out[..next] == old(out[..len]) + LineOut(text, c, k).value
  {
    ok, next, matched := true, len, false;
    if text == "" { return; }
    var parsed := ParseLine(text);
    if parsed.None? { return; }
    var r := parsed.value;
    ParsedSized(text);
    hide Parse;
    if r.username == c.user {
      matched := true;
      if !c.kdf.ready(k) {
        ok := false;
        return;
      }
      r := Rehashed(r, c, k);
    }
    LineFits(r);
    hide Text;
    ok, next := AppendLine(r, out, len);
  }

  /** Serialise into the line buffer, and copy to the output if there is room. */
  method AppendLine(r: Record, out: array<char>, len: nat) returns (ok: bool, next: nat)
    requires len < out.Length && r.algo <= ARGON2ID && |Text(r)| + 1 < LINE_CAP
    modifies out
    ensures ok == (len + |Text(r)| + 1 < out.Length)
    ensures ok ==> next == len + |Text(r)| + 1 && out[..next] == old(out[..len]) + (Text(r) + "\n")
  {
    hide Text;
    var line := new char[LINE_CAP];
    var rc, n := SerializeLine(r, line);
    assert rc == 0;
    if len + n >= out.Length { return false, len; }
    for i := 0 to n
      invariant out[..len + i] == old(out[..len]) + line[..i]
      invariant line[..n] == Text(r) + "\n"
    {
      out[len + i] := line[i];
      assert out[..len + i + 1] == out[..len + i] + [line[i]];
    }
    return true, len + n;
  }

  /** What holds once the first lines are processed: `content` is the new text of their records. */
  ghost predicate Built(done: seq<string>, c: Change, content: string, k: nat, updated: bool) {
    && k == |Records(done)| && updated == HasUser(Records(done), c.user)
    && ReplaceAll(Records(done), c).Some? && content == FileText(ReplaceAll(Records(done), c).value)
  }

  lemma BuiltStart(c: Change)
    ensures Built([], c, "", 0, false)
  {
  }

  lemma BuiltAppend(rs: seq<Record>, r: Record, c: Change, content: string)
    requires ReplaceAll(rs, c).Some? && content == FileText(ReplaceAll(rs, c).value)
    ensures ReplaceAll(rs + [r], c).Some? <==> Replace(r, c, |rs|).Some?
    ensures Replace(r, c, |rs|).Some? ==>
              FileText(ReplaceAll(rs + [r], c).value) == content + (Text(Replace(r, c, |rs|).value) + "\n")
  {
    hide Text, Replace;
    ReplaceAllAppend(rs, r, c);
    if Replace(r, c, |rs|).Some? { FileTextAppend(ReplaceAll(rs, c).value, Replace(r, c, |rs|).value); }
  }

  lemma HasUserAppend(rs: seq<Record>, r: Record, user: string)
    ensures HasUser(rs + [r], user) <==> HasUser(rs, user) || r.username == user
  {
    var all := rs + [r];
    if i :| 0 <= i < |rs| && rs[i].username == user { assert all[i].username == user; }
    assert all[|rs|] == r;
  }

  lemma RecordsKept(done: seq<string>, text: string)
    ensures Records(done + [text]) == Records(done) + Kept(text)
  {
  }

  lemma BuiltStep(done: seq<string>, c: Change, content: string, k: nat, updated: bool, text: string)
    requires Built(done, c, content, k, updated)
    ensures LineOut(text, c, k).Some? ==>
              Built(done + [text], c, content + LineOut(text, c, k).value, k + |Kept(text)|,
                    updated || Targets(text, c))
    ensures LineOut(text, c, k).None? ==> ReplaceAll(Records(done + [text]), c).None?
  {
    hide Parse, Text, Records, Kept, ReplaceAll, FileText, Replace, HasUser;
    var rs := Records(done);
    RecordsKept(done, text);
    if Kept(text) == [] {
      assert rs + [] == rs && content + "" == content;
    } else {
      var r := Kept(text)[0];
      assert Kept(text) == [r] by { KeptOne(text); }
      BuiltAppend(rs, r, c, content);
      HasUserAppend(rs, r, c.user);
    }
  }

  lemma KeptOne(text: string)
    ensures |Kept(text)| <= 1
  {
  }

  lemma LineFails(
    done: seq<string>, c: Change, content: string, k: nat, updated: bool, text: string, source: string,
    rest: seq<string>)
    requires Built(done, c, content, k, updated) && Split(source, '\n') == done + [text] + rest
    requires LineOut(text, c, k).None? || |content| + |LineOut(text, c, k).value| >= |source| + HEADROOM
    ensures !Accepts(source, c)
  {
    BuiltStep(done, c, content, k, updated, text);
    hide Split, Records, LineOut, Accepts, ReplaceAll, FileText;
    PrefixFails(done + [text], source, rest, c);
  }

  lemma BuiltAll(source: string, c: Change, content: string, k: nat, updated: bool)
    requires Built(Split(source, '\n'), c, content, k, updated) && c.user != "" && c.password != ""
    requires |content| < |source| + HEADROOM
    ensures Accepts(source, c) <==> updated
    ensures updated ==> content == Rewritten(source, c)
  {
  }

  /** Every line before position `start` is in `done`; `start` is past the end once the last line is. */
  ghost predicate AtLine(source: string, start: nat, done: seq<string>) {
    if start <= |source| then Split(source, '\n') == done + Split(source[start..], '\n')
    else Split(source, '\n') == done
  }

  lemma AtFirstLine(source: string)
    ensures AtLine(source, 0, []) && InLine(source, 0, 0)
  {
    assert source[0..] == source;
  }

  /** The scan stands at `i` inside the line that began at `start`, or past the end. */
  ghost predicate InLine(source: string, start: nat, i: nat) {
    && start <= i <= |source| + 1
    && (i <= |source| ==> '\n' !in source[start..i])
    && (i == |source| + 1 ==> start == i)
  }

  /** A line ends at the first newline after its start, or with the text. */
  lemma NextLine(source: string, start: nat, i: nat, done: seq<string>) returns (rest: seq<string>)
    requires i <= |source| && InLine(source, start, i) && (i == |source| || source[i] == '\n')
    requires AtLine(source, start, done)
    ensures start <= i && InLine(source, i + 1, i + 1) && AtLine(source, i + 1, done + [source[start..i]])
    ensures Split(source, '\n') == done + [source[start..i]] + rest
  {
    hide Split;
    var text := source[start..i];
    if i == |source| {
      assert source[start..] == text;
      SplitWhole(text, '\n');
      rest := [];
    } else {
      assert source[start..] == text + ['\n'] + source[i + 1..];
      SplitAt(text, '\n', source[i + 1..]);
      rest := Split(source[i + 1..], '\n');
    }
  }

  lemma LongerLine(source: string, start: nat, i: nat)
    requires i < |source| && InLine(source, start, i) && source[i] != '\n'
    ensures InLine(source, start, i + 1)
  {
    assert source[start..i + 1] == source[start..i] + [source[i]];
  }

  /** One line on top of what is built: built again, or the whole rewrite is refused. */
  method RewriteNext(
    source: string, text: string, c: Change, k: nat, out: array<char>, len: nat, ghost done: seq<string>,
    ghost rest: seq<string>, ghost updated: bool)
    returns (ok: bool, next: nat, matched: bool)
    requires len < out.Length == |source| + HEADROOM && KdfOk(c.kdf)
    requires Built(done, c, out[..len], k, updated) && Split(source, '\n') == done + [text] + rest
    modifies out
    ensures !ok ==> !Accepts(source, c)
    ensures ok ==> next < out.Length && Built(done + [text], c, out[..next], k + |Kept(text)|, updated || matched)
  {
    hide Split, Kept, LineOut, Targets, Built, Accepts, KdfOk;
    ghost var before := out[..len];
    BuiltStep(done, c, before, k, updated, text);
    ok, next, matched := RewriteLine(text, c, k, out, len);
    if !ok { LineFails(done, c, before, k, updated, text, source, rest); }
  }

  /** userdb_replace_password_hash up to the write: the new content of the file, or a refusal, exactly as specified. */
  method ReplacePasswordHash(source: string, c: Change) returns (rc: int, content: string)
    requires KdfOk(c.kdf)
    ensures rc == (if Accepts(source, c) then 0 else -1)
    ensures rc == 0 ==> content == Rewritten(source, c)
  {
    if c.user == "" || c.password == "" { return -1, ""; }
    var out := new char[|source| + HEADROOM];
    var len: nat, updated, start: nat, k: nat := 0, false, 0, 0;
    ghost var done: seq<string> := [];
    BuiltStart(c);
    AtFirstLine(source);
    assert out[..0] == "";
    hide *;
    for i := 0 to |source| + 1
      invariant len < out.Length && InLine(source, start, i)
      invariant AtLine(source, start, done) && Built(done, c, out[..len], k, updated)
    {
      if i < |source| && source[i] != '\n' {
        LongerLine(source, start, i);
        continue;
      }
      ghost var rest := NextLine(source, start, i, done);
      var text := source[start..i];
      var ok, next, matched := RewriteNext(source, text, c, k, out, len, done, rest, updated);
      if !ok { return -1, ""; }
      done := done + [text];
      len := next;
      updated := updated || matched;
      k := k + |Kept(text)|;
      start := i + 1;
    }
    AtLastLine(source, start, done);
    BuiltAll(source, c, out[..len], k, updated);
    if !updated { return -1, ""; }
    return 0, out[..len];
  }

  lemma AtLastLine(source: string, start: nat, done: seq<string>)
    requires InLine(source, start, |source| + 1) && AtLine(source, start, done)
    ensures done == Split(source, '\n')
  {
  }
}
