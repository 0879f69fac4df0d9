/** Cutting text at a separator. */
module Texts {
  /** Text cut at every `c`. */
  function Split(s: string, c: char): (r: seq<string>)
    ensures r != []
  {
    if s == "" then [""]
    else if s[0] == c then [""] + Split(s[1..], c)
    else var r := Split(s[1..], c); [[s[0]] + r[0]] + r[1..]
  }

  lemma {:induction false} SplitWhole(s: string, c: char)
    requires c !in s
    ensures Split(s, c) == [s]
  {
    if s != "" {
      SplitWhole(s[1..], c);
      assert s == [s[0]] + s[1..];
    }
  }

  lemma {:induction false} SplitAt(a: string, c: char, b: string)
    requires c !in a
    ensures Split(a + [c] + b, c) == [a] + Split(b, c)
  {
    var s := a + [c] + b;
    if a == "" {
      assert s[1..] == b;
    } else {
      SplitAt(a[1..], c, b);
      assert s[1..] == a[1..] + [c] + b && s[0] == a[0] != c;
      assert a == [a[0]] + a[1..];
    }
  }

  lemma {:induction false} SplitChars(s: string, c: char)
    ensures forall i :: 0 <= i < |Split(s, c)| ==> c !in Split(s, c)[i]
    ensures forall i, x :: 0 <= i < |Split(s, c)| && x in Split(s, c)[i] ==> x in s
  {
    if s != "" {
      SplitChars(s[1..], c);
      var r, all := Split(s[1..], c), Split(s, c);
      assert s == [s[0]] + s[1..];
      forall i | 0 <= i < |all|
        ensures c !in all[i] && forall x :: x in all[i] ==> x in s
      {
        if i > 0 { assert all[i] == if s[0] == c then r[i - 1] else r[i]; }
      }
    }
  }

  function FirstAt(s: string, c: char): (k: nat)
    requires c in s
    ensures k < |s| && s[k] == c && c !in s[..k]
  {
    if s[0] == c then 0 else 1 + FirstAt(s[1..], c)
  }

  /** Cutting at a separator in the middle cuts both sides. */
  lemma {:induction false} SplitConcat(a: string, c: char, b: string)
    ensures Split(a + [c] + b, c) == Split(a, c) + Split(b, c)
  {
    hide Split;
    if c in a {
      var k := FirstAt(a, c);
      var head, tail := a[..k], a[k + 1..];
      assert a == head + [c] + tail;
      assert a + [c] + b == head + [c] + (tail + [c] + b);
      SplitAt(head, c, tail);
      SplitAt(head, c, tail + [c] + b);
      SplitConcat(tail, c, b);
    } else {
      SplitWhole(a, c);
      SplitAt(a, c, b);
    }
  }
}
