/** The TLS hostname scanner (include/security/tls_hostname_policy.h) against the label grammar of section 2.3.4 of
    RFC 1035 and section 2.1 of RFC 1123. */
module HostnamePolicy {
  import opened Texts

  const TOTAL_MAX := 253
  const LABEL_MAX := 63

  predicate Ldh(c: char) { 'A' <= c <= 'Z' || 'a' <= c <= 'z' || '0' <= c <= '9' || c == '-' }

  predicate AllLdh(s: string) { forall i :: 0 <= i < |s| ==> Ldh(s[i]) }

  /** One to 63 letters, digits or hyphens, no hyphen at either end. */
  predicate Label(l: string) {
    0 < |l| <= LABEL_MAX && AllLdh(l) && l[0] != '-' && l[|l| - 1] != '-'
  }

  predicate AllLabels(ls: seq<string>) { forall i :: 0 <= i < |ls| ==> Label(ls[i]) }

  /** At most 253 characters, every dot-separated part a label. */
  predicate Hostname(s: string) { |s| <= TOTAL_MAX && AllLabels(Split(s, '.')) }

  // ----- labels in progress -----

  /** The first part begins with whatever precedes the first separator. */
  lemma {:induction false} FirstPart(s: string, c: char, k: nat)
    requires k <= |s| && c !in s[..k]
    ensures s[..k] <= Split(s, c)[0]
  {
    if k > 0 {
      assert s[0] == s[..k][0] && s[1..][..k - 1] == s[..k][1..];
      FirstPart(s[1..], c, k - 1);
      assert s[..k] == [s[0]] + s[1..][..k - 1];
    }
  }

  /** The labels before position `start` are in `done`, all of them well formed. */
  ghost predicate AtLabel(s: string, start: nat, done: seq<string>) {
    start <= |s| && AllLabels(done) && Split(s, '.') == done + Split(s[start..], '.')
  }

  lemma AtFirstLabel(s: string)
    ensures AtLabel(s, 0, [])
  {
    assert s[0..] == s;
  }

  /** A part that cannot begin a label, or is none, refutes the whole name. */
  lemma BadStart(s: string, start: nat, i: nat, done: seq<string>)
    requires AtLabel(s, start, done) && start <= i <= |s| && '.' !in s[start..i]
    requires |s[start..i]| > LABEL_MAX || !AllLdh(s[start..i])
    ensures !Hostname(s)
  {
    var rest := s[start..];
    assert rest[..i - start] == s[start..i];
    FirstPart(rest, '.', i - start);
    var l := Split(rest, '.')[0];
    assert Split(s, '.')[|done|] == l;
    hide Split;
    if AllLdh(l) {
      assert forall k :: 0 <= k < i - start ==> s[start..i][k] == l[k];
    }
  }

  /** A label ends at a dot. */
  lemma NextLabel(s: string, start: nat, i: nat, done: seq<string>)
    requires AtLabel(s, start, done) && start <= i < |s| && '.' !in s[start..i] && s[i] == '.'
    ensures if Label(s[start..i]) then AtLabel(s, i + 1, done + [s[start..i]]) else !Hostname(s)
  {
    var l := s[start..i];
    assert s[start..] == l + ['.'] + s[i + 1..];
    SplitAt(l, '.', s[i + 1..]);
    hide Split, Label;
    assert Split(s, '.') == done + [l] + Split(s[i + 1..], '.');
    assert Split(s, '.')[|done|] == l;
  }

  /** The last label ends with the name. */
  lemma LastLabel(s: string, start: nat, done: seq<string>)
    requires AtLabel(s, start, done) && '.' !in s[start..] && |s| <= TOTAL_MAX
    ensures Hostname(s) <==> Label(s[start..])
  {
    SplitWhole(s[start..], '.');
    hide Split, Label;
    assert Split(s, '.')[|done|] == s[start..];
  }

  predicate CharSafe(c: char) {
    'A' <= c <= 'Z' || 'a' <= c <= 'z' || '0' <= c <= '9' || c == '.' || c == '-'
  }

  /** tls_hostname_policy_valid: the one-pass scan accepts exactly the hostnames. */
  method Valid(hostname: string) returns (ok: bool)
    ensures ok == Hostname(hostname)
  {
    var s := hostname;
    AtFirstLabel(s);
    if s == "" {
      LastLabel(s, 0, []);
      return false;
    }
    var total, labelLen := 0, 0;
    var first, prev := '\0', '\0';
    ghost var start: nat := 0;
    ghost var done: seq<string> := [];
    hide Hostname, AtLabel;
    for i := 0 to |s|
      invariant total == i <= TOTAL_MAX && start + labelLen == i && labelLen <= LABEL_MAX
      invariant AtLabel(s, start, done) && '.' !in s[start..i] && AllLdh(s[start..i])
      invariant labelLen > 0 ==> first == s[start] && prev == s[i - 1]
    {
      var c := s[i];
      total := total + 1;
      if total > TOTAL_MAX {
        TooLong(s);
        return false;
      }
      assert s[start..i + 1] == s[start..i] + [c];
      if c <= ' ' || c == 0x7f as char || !CharSafe(c) {
        assert s[start..i + 1][i - start] == c;
        BadStart(s, start, i + 1, done);
        return false;
      }
      if c == '.' {
        NextLabel(s, start, i, done);
        if labelLen == 0 || first == '-' || prev == '-' { return false; }
        done := done + [s[start..i]];
        start := i + 1;
        labelLen := 0;
        first := '\0';
        prev := c;
        continue;
      }
      if labelLen == 0 { first := c; }
      labelLen := labelLen + 1;
      if labelLen > LABEL_MAX {
        BadStart(s, start, i + 1, done);
        return false;
      }
      prev := c;
    }
    assert s[start..|s|] == s[start..];
    LastLabel(s, start, done);
    return labelLen != 0 && first != '-' && prev != '-';
  }

  lemma TooLong(s: string)
    requires |s| > TOTAL_MAX
    ensures !Hostname(s)
  {
  }

  // ----- the grammar, position by position -----

  /** An ASCII letter or digit, by its code. */
  predicate Plain(c: char) { 65 <= c as int <= 90 || 97 <= c as int <= 122 || 48 <= c as int <= 57 }

  /** Read position by position: letters, digits, hyphens and dots; neither end is a hyphen or a dot; no hyphen or dot
      stands beside a dot; and no 64 characters in a row are without a dot. */
  predicate Spelled(s: string) {
    && s != "" && Plain(s[0]) && Plain(s[|s| - 1])
    && LabelChars(s) && BesideDots(s) && Dotted(s)
  }

  predicate LabelChars(s: string) { forall i :: 0 <= i < |s| ==> Plain(s[i]) || s[i] == '-' || s[i] == '.' }

  predicate BesideDots(s: string) {
    forall i :: 0 < i < |s| - 1 && s[i] == '.' ==> Plain(s[i - 1]) && Plain(s[i + 1])
  }

  predicate DotFrom(s: string, i: int)
    requires 0 <= i <= |s| - 64
  {
    exists j :: i <= j < i + 64 && s[j] == '.'
  }

  lemma LdhExactly(c: char)
    ensures Ldh(c) <==> Plain(c) || c == '-'
    ensures !Plain('-') && !Plain('.')
  {
  }

  lemma LabelSpelled(l: string)
    requires '.' !in l
    ensures Label(l) <==> Spelled(l)
  {
    forall i | 0 <= i < |l| ensures l[i] != '.' && (Ldh(l[i]) <==> Plain(l[i]) || l[i] == '-') {
      LdhExactly(l[i]);
    }
    hide Ldh, Plain;
    NoDots(l);
  }

  /** Every 64 characters in a row hold a dot. */
  predicate Dotted(s: string) { forall i :: 0 <= i <= |s| - 64 ==> DotFrom(s, i) }

  lemma NoDots(a: string)
    requires '.' !in a
    ensures Dotted(a) <==> |a| <= 63
  {
    if |a| > 63 { assert !DotFrom(a, 0); }
  }

  lemma DotsSplit(a: string, b: string)
    requires '.' !in a
    ensures Dotted(a + "." + b) <==> |a| <= 63 && Dotted(b)
  {
    var s, k := a + "." + b, |a|;
    if Dotted(s) {
      if k > 63 { NotDotted(a, b); }
      forall i | 0 <= i <= |b| - 64 ensures DotFrom(b, i) {
        assert DotFrom(s, k + 1 + i);
        var j :| k + 1 + i <= j < k + 1 + i + 64 && s[j] == '.';
        assert b[j - (k + 1)] == '.';
      }
    }
    if k <= 63 && Dotted(b) {
      forall i | 0 <= i <= |s| - 64 ensures DotFrom(s, i) {
        if i <= k {
          assert s[k] == '.';
        } else {
          assert DotFrom(b, i - (k + 1));
          var j :| i - (k + 1) <= j < i - (k + 1) + 64 && b[j] == '.';
          assert s[k + 1 + j] == '.';
        }
      }
    }
  }

  lemma NotDotted(a: string, b: string)
    requires '.' !in a && |a| > 63
    ensures !Dotted(a + "." + b)
  {
    var s := a + "." + b;
    assert forall j :: 0 <= j < |a| ==> s[j] == a[j];
    assert !DotFrom(s, 0);
  }

  lemma BesideSplit(a: string, b: string)
    requires '.' !in a && a != "" && b != ""
    ensures BesideDots(a + "." + b) <==> Plain(a[|a| - 1]) && Plain(b[0]) && BesideDots(b)
  {
    var s, k := a + "." + b, |a|;
    LdhExactly('.');
    hide Plain;
    assert s[k] == '.' && s[k - 1] == a[k - 1] && s[k + 1] == b[0];
    assert forall i :: 0 <= i < k ==> s[i] == a[i];
    if BesideDots(s) {
      forall i | 0 < i < |b| - 1 && b[i] == '.' ensures Plain(b[i - 1]) && Plain(b[i + 1]) {
        var j := k + 1 + i;
        assert s[j] == '.' && s[j - 1] == b[i - 1] && s[j + 1] == b[i + 1];
      }
    }
    if Plain(a[k - 1]) && Plain(b[0]) && BesideDots(b) {
      forall i | 0 < i < |s| - 1 && s[i] == '.' ensures Plain(s[i - 1]) && Plain(s[i + 1]) {
        if i > k { assert b[i - (k + 1)] == '.'; }
      }
    }
  }

  lemma CharsSplit(a: string, b: string)
    ensures LabelChars(a + "." + b) <==> LabelChars(a) && LabelChars(b)
  {
    var s, k := a + "." + b, |a|;
    hide Plain;
    if LabelChars(s) {
      forall i | 0 <= i < |b| ensures Plain(b[i]) || b[i] == '-' || b[i] == '.' {
        assert s[k + 1 + i] == b[i];
      }
      forall i | 0 <= i < |a| ensures Plain(a[i]) || a[i] == '-' || a[i] == '.' {
        assert s[i] == a[i];
      }
    }
  }

  lemma SpelledSplits(a: string, b: string)
    requires '.' !in a
    ensures Spelled(a + "." + b) <==> Spelled(a) && Spelled(b)
  {
    var s, k := a + "." + b, |a|;
    LdhExactly('.');
    CharsSplit(a, b);
    DotsSplit(a, b);
    NoDots(a);
    assert s[k] == '.' && (a != "" ==> s[0] == a[0]) && (b != "" ==> s[|s| - 1] == b[|b| - 1]);
    assert BesideDots(a);
    if a != "" && b != "" { BesideSplit(a, b); }
    hide Plain, BesideDots, LabelChars, Dotted;
  }

  lemma {:induction false} LabelsSpelled(s: string)
    ensures AllLabels(Split(s, '.')) <==> Spelled(s)
    decreases |s|
  {
    hide Label, Spelled, Split;
    if '.' in s {
      var k := FirstAt(s, '.');
      var a, b := s[..k], s[k + 1..];
      assert s == a + "." + b == a + ['.'] + b;
      SplitAt(a, '.', b);
      LabelSpelled(a);
      LabelsSpelled(b);
      SpelledSplits(a, b);
      AllLabelsCons(a, Split(b, '.'));
    } else {
      SplitWhole(s, '.');
      LabelSpelled(s);
      AllLabelsCons(s, []);
      assert [s] + [] == [s];
    }
  }

  lemma AllLabelsCons(a: string, ls: seq<string>)
    ensures AllLabels([a] + ls) <==> Label(a) && AllLabels(ls)
  {
    hide Label;
    var all := [a] + ls;
    if AllLabels(all) {
      forall i | 0 <= i < |ls| ensures Label(ls[i]) {
        assert all[i + 1] == ls[i];
      }
      assert Label(all[0]);
    }
  }

  /** The grammar accepts exactly the names of at most 253 characters that are spelled so. */
  lemma HostnameExactly(s: string)
    ensures Hostname(s) <==> |s| <= 253 && Spelled(s)
  {
    LabelsSpelled(s);
  }
}
