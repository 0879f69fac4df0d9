/** One line of /etc/users.db: hexadecimal, decimal and field codecs (src/auth/user_helpers.c, src/auth/userdb_io.c). */
module UserRecords {
  import opened Words
  import opened Texts

  const NAME_MAX := 32
  const HOME_MAX := 96
  const ROLE_MAX := 16
  const SALT_SIZE := 16
  const HASH_SIZE := 32
  const PBKDF2: nat := 0
  const ARGON2ID: nat := 1
  const MIN_T_COST := 1
  const MIN_M_COST := 8

  /** struct user_record; the text fields are what precedes their terminating NUL. */
  datatype Record = Record(
    username: string, uid: u32, gid: u32, home: string, salt: seq<byte>, hash: seq<byte>, role: string,
    algo: nat, tCost: u32, mCost: u32)

  const CLEARED := Record("", 0, 0, "", Zeros(SALT_SIZE), Zeros(HASH_SIZE), "", PBKDF2, 0, 0)

  // ----- hexadecimal -----

  function HexDigit(n: nat): char
    requires n < 16
  {
    "0123456789abcdef"[n]
  }

  function HexValue(c: char): Option<nat> {
    if '0' <= c <= '9' then Some((c - '0') as nat)
    else if 'a' <= c <= 'f' then Some(10 + (c - 'a') as nat)
    else if 'A' <= c <= 'F' then Some(10 + (c - 'A') as nat)
    else None
  }

  /** auth_bytes_to_hex: two digits a byte, the high one first. */
  function Hex(bytes: seq<byte>): (s: string)
    ensures |s| == 2 * |bytes|
  {
    seq(2 * |bytes|, i requires 0 <= i < 2 * |bytes| => HexAt(bytes[i / 2], i % 2 == 0))
  }

  function HexAt(b: byte, high: bool): char { if high then HexDigit(b / 16) else HexDigit(b % 16) }

  /** The byte two hexadecimal digits denote. */
  function Pair(h: char, l: char): Option<byte> {
    if HexValue(h).None? || HexValue(l).None? then None
    else
      var high: int := HexValue(h).value;
      Some(16 * high + HexValue(l).value)
  }

  predicate HexText(s: string) {
    |s| % 2 == 0 && forall i :: 0 <= i < |s| / 2 ==> Pair(s[2 * i], s[2 * i + 1]).Some?
  }

  /** auth_hex_to_bytes on a text of even length. */
  function Unhex(s: string): (r: Option<seq<byte>>)
    ensures r.Some? ==> |r.value| == |s| / 2
  {
    if !HexText(s) then None
    else Some(seq(|s| / 2, i requires 0 <= i < |s| / 2 => Pair(s[2 * i], s[2 * i + 1]).value))
  }

  lemma HexDigitInverse(n: nat)
    requires n < 16
    ensures HexValue(HexDigit(n)) == Some(n)
  {
  }

  lemma PairInverse(b: byte)
    ensures Pair(HexAt(b, true), HexAt(b, false)) == Some(b)
  {
    var x: int := b;
    var h, l := x / 16, x % 16;
    assert x == 16 * h + l && 0 <= h < 16;
    HexDigitInverse(h);
    HexDigitInverse(l);
    hide HexDigit, HexValue;
    assert HexAt(b, true) == HexDigit(h) && HexAt(b, false) == HexDigit(l);
  }

  lemma HexIndex(bytes: seq<byte>, i: nat)
    requires i < |bytes|
    ensures Hex(bytes)[2 * i] == HexAt(bytes[i], true) && Hex(bytes)[2 * i + 1] == HexAt(bytes[i], false)
  {
  }

  /** Hexadecimal conversion and its parser are inverse. */
  lemma HexInverse(bytes: seq<byte>)
    ensures Unhex(Hex(bytes)) == Some(bytes)
  {
    hide Pair, HexAt, Hex;
    var s := Hex(bytes);
    assert |s| / 2 == |bytes|;
    forall i | 0 <= i < |s| / 2
      ensures Pair(s[2 * i], s[2 * i + 1]) == Some(bytes[i])
    {
      PairInverse(bytes[i]);
      HexIndex(bytes, i);
    }
    assert HexText(s);
    var r := Unhex(s).value;
    assert forall i :: 0 <= i < |r| ==> r[i] == Pair(s[2 * i], s[2 * i + 1]).value == bytes[i];
    assert r == bytes;
  }

  /** auth_bytes_to_hex. */
  method BytesToHex(src: seq<byte>, dst: array<char>)
    requires dst.Length > 2 * |src|
    modifies dst
    ensures dst[..2 * |src|] == Hex(src) && dst[2 * |src|] == '\0'
  {
    hide HexAt, Hex;
    for i := 0 to |src|
      invariant forall j :: 0 <= j < 2 * i ==> dst[j] == Hex(src)[j]
    {
      HexIndex(src, i);
      dst[i * 2] := HexAt(src[i], true);
      dst[i * 2 + 1] := HexAt(src[i], false);
    }
    dst[2 * |src|] := '\0';
  }

  /** The loop of auth_hex_to_bytes. */
  method HexToBytes(s: string, size: nat) returns (r: Option<seq<byte>>)
    ensures r == if |s| == 2 * size then Unhex(s) else None
  {
    if |s| != 2 * size { return None; }
    var out: seq<byte> := [];
    for i := 0 to size
      invariant |out| == i && forall k :: 0 <= k < i ==> Pair(s[2 * k], s[2 * k + 1]) == Some(out[k])
    {
      var b := Pair(s[2 * i], s[2 * i + 1]);
      if b.None? { return None; }
      out := out + [b.value];
    }
    assert out == Unhex(s).value;
    return Some(out);
  }

  // ----- decimal -----

  predicate Digit(c: char) { '0' <= c <= '9' }

  function Digits(s: string): nat { if s == "" || !Digit(s[0]) then 0 else 1 + Digits(s[1..]) }

  /** The number a run of digits denotes. */
  function Value(s: string): nat
    requires forall i :: 0 <= i < |s| ==> Digit(s[i])
  {
    if s == "" then 0
    else
      var last := s[|s| - 1];
      assert Digit(last);
      10 * Value(s[..|s| - 1]) + (last - '0') as nat
  }

  /** auth_u32_to_string. */
  function Decimal(v: nat): (s: string)
    ensures s != "" && forall i :: 0 <= i < |s| ==> Digit(s[i])
  {
    if v < 10 then ['0' + v as char] else Decimal(v / 10) + ['0' + (v % 10) as char]
  }

  lemma {:induction false} DecimalInverse(v: nat)
    ensures Value(Decimal(v)) == v
  {
    if v < 10 {
      assert Decimal(v)[..0] == "";
    } else {
      DecimalInverse(v / 10);
      var s := Decimal(v);
      assert s[..|s| - 1] == Decimal(v / 10);
    }
  }

  lemma {:induction false} DecimalLength(v: nat, n: nat, bound: nat)
    requires v < bound && n > 0 && bound == Power10(n)
    ensures |Decimal(v)| <= n
  {
    if v >= 10 {
      assert n > 1;
      DecimalLength(v / 10, n - 1, Power10(n - 1));
    }
  }

  function Power10(n: nat): nat { if n == 0 then 1 else 10 * Power10(n - 1) }

  lemma DecimalFits(v: u32)
    ensures |Decimal(v)| <= 10
  {
    assert Power10(10) == 10_000_000_000 by {
      assert Power10(5) == 100_000;
    }
    DecimalLength(v, 10, Power10(10));
  }

  /** The digits still to come while auth_u32_to_string divides. */
  function Rest(v: nat): string { if v == 0 then "" else Decimal(v) }

  /** One division takes the last digit off. */
  lemma RestStep(text: string, n: nat, v: nat)
    requires n <= |text| && text[..n] == Rest(v) && v > 0
    ensures n > 0 && text[n - 1] == '0' + (v % 10) as char && text[..n - 1] == Rest(v / 10)
  {
  }

  lemma RestEnds(text: string, n: nat, v: nat)
    requires n <= |text| && text[..n] == Rest(v)
    ensures v == 0 <==> n == 0
  {
  }

  /** The dividing loop of auth_u32_to_string: digits from the last to the first; ten are always enough. */
  method ReversedDigits(v: u32) returns (tmp: string)
    requires v > 0
    ensures |tmp| == |Decimal(v)| && forall j :: 0 <= j < |tmp| ==> tmp[j] == Decimal(v)[|tmp| - 1 - j]
  {
    DecimalFits(v);
    ghost var text := Decimal(v);
    assert text[..|text|] == Rest(v);
    hide Decimal, Rest;
    tmp := "";
    var value: nat := v;
    while value > 0 && |tmp| < 10
      invariant |tmp| <= |text| <= 10 && text[..|text| - |tmp|] == Rest(value)
      invariant forall j :: 0 <= j < |tmp| ==> tmp[j] == text[|text| - 1 - j]
    {
      RestStep(text, |text| - |tmp|, value);
      tmp := tmp + ['0' + (value % 10) as char];
      value := value / 10;
    }
    RestEnds(text, |text| - |tmp|, value);
  }

  /** auth_u32_to_string: the decimal text, cut to what the buffer holds. */
  method U32ToString(v: u32, buf: array<char>) returns (len: nat)
    modifies buf
    ensures buf.Length > 0 ==>
              && len == (if |Decimal(v)| < buf.Length then |Decimal(v)| else buf.Length - 1)
              && buf[..len] == Decimal(v)[..len] && buf[len] == '\0'
  {
    if buf.Length == 0 { return 0; }
    if v == 0 {
      if buf.Length >= 2 {
        buf[0], buf[1] := '0', '\0';
        return 1;
      }
      buf[0] := '\0';
      return 0;
    }
    var tmp := ReversedDigits(v);
    hide Decimal;
    len := |tmp|;
    var pos: nat := 0;
    while len > 0 && pos + 1 < buf.Length
      invariant pos < buf.Length && len + pos == |tmp|
      invariant forall j :: 0 <= j < pos ==> buf[j] == Decimal(v)[j]
    {
      len := len - 1;
      buf[pos] := tmp[len];
      pos := pos + 1;
    }
    buf[pos] := '\0';
    return pos;
  }

  /** What auth_parse_u32 returns: the leading digits, modulo 2^32. */
  function ParsedU32(s: string): u32
  {
    LeadingDigits(s);
    Value(s[..Digits(s)]) % 0x1_0000_0000
  }

  lemma {:induction false} LeadingDigits(s: string)
    ensures Digits(s) <= |s|
    ensures forall i :: 0 <= i < Digits(s) ==> Digit(s[i])
    ensures Digits(s) < |s| ==> !Digit(s[Digits(s)])
  {
    if s != "" && Digit(s[0]) {
      LeadingDigits(s[1..]);
      forall i | 0 <= i < Digits(s)
        ensures Digit(s[i])
      {
        if i > 0 { assert s[i] == s[1..][i - 1]; }
      }
    }
  }

  lemma {:induction false} AllDigits(s: string)
    requires forall i :: 0 <= i < |s| ==> Digit(s[i])
    ensures Digits(s) == |s|
  {
    if s != "" { AllDigits(s[1..]); }
  }

  /** Decimal conversion and its parser are inverse on 32-bit values. */
  lemma ParseDecimal(v: u32)
    ensures ParsedU32(Decimal(v)) == v
  {
    DecimalInverse(v);
    AllDigits(Decimal(v));
    assert Decimal(v)[..|Decimal(v)|] == Decimal(v);
  }

  /** The accumulating loop of auth_parse_u32, wrapping at each step. */
  method ParseU32(s: string) returns (value: u32)
    ensures value == ParsedU32(s)
  {
    LeadingDigits(s);
    ghost var n := Digits(s);
    value := 0;
    for i := 0 to |s|
      invariant i <= n && value == Value(s[..i]) % 0x1_0000_0000
    {
      if !Digit(s[i]) { return; }
      assert s[..i + 1][..i] == s[..i];
      WrapDigit(Value(s[..i]), (s[i] - '0') as nat);
      value := (value * 10 + (s[i] - '0') as nat) % 0x1_0000_0000;
    }
  }

  lemma WrapDigit(v: nat, d: nat)
    requires d < 10
    ensures (v % 0x1_0000_0000 * 10 + d) % 0x1_0000_0000 == (10 * v + d) % 0x1_0000_0000
  {
    var m := 0x1_0000_0000;
    var q := v / m;
    assert 10 * v + d == (v % m * 10 + d) + m * (10 * q);
    AddMultiple(v % m * 10 + d, 10 * q);
  }

  lemma AddMultiple(x: nat, k: nat)
    ensures (x + 0x1_0000_0000 * k) % 0x1_0000_0000 == x % 0x1_0000_0000
  {
  }

  // ----- fields -----

  /** The bytes of a field that survive as a C string. */
  function CStr(s: string): (r: string)
    ensures r <= s && '\0' !in r && (r == s || s[|r|] == '\0')
  {
    if s == "" || s[0] == '\0' then "" else [s[0]] + CStr(s[1..])
  }

  lemma {:induction false} CStrWhole(s: string)
    requires '\0' !in s
    ensures CStr(s) == s
  {
    if s != "" { CStrWhole(s[1..]); }
  }

  /** A record under construction. */
  datatype Partial = Partial(rec: Record, sawAlgo: bool)

  function AlgoOf(token: string): Option<nat> {
    if token == "pbkdf2" then Some(PBKDF2) else if token == "argon2id" then Some(ARGON2ID) else None
  }

  /** The switch of userdb_parse_line: what field number `i` does to the record, or that it is refused. */
  function ApplyField(p: Partial, i: nat, f: string): Option<Partial> {
    match i
    case 0 => if |f| == 0 || |f| >= NAME_MAX then None else Some(p.(rec := p.rec.(username := CStr(f))))
    case 1 => Some(p.(rec := p.rec.(uid := ParsedU32(f))))
    case 2 => Some(p.(rec := p.rec.(gid := ParsedU32(f))))
    case 3 => if |f| >= HOME_MAX then None else Some(p.(rec := p.rec.(home := CStr(f))))
    case 4 =>
      if |f| != 2 * SALT_SIZE || Unhex(f).None? then None else Some(p.(rec := p.rec.(salt := Unhex(f).value)))
    case 5 =>
      if |f| != 2 * HASH_SIZE || Unhex(f).None? then None else Some(p.(rec := p.rec.(hash := Unhex(f).value)))
    case 6 => if |f| >= ROLE_MAX then None else Some(p.(rec := p.rec.(role := CStr(f))))
    case 7 => if AlgoOf(f).None? then None else Some(p.(rec := p.rec.(algo := AlgoOf(f).value), sawAlgo := true))
    case 8 => if |f| == 0 then None else Some(p.(rec := p.rec.(tCost := ParsedU32(f))))
    case 9 => if |f| == 0 then None else Some(p.(rec := p.rec.(mCost := ParsedU32(f))))
    case _ => Some(p)
  }

  function ApplyAll(fields: seq<string>): Option<Partial> {
    if fields == [] then Some(Partial(CLEARED, false))
    else
      var n := |fields| - 1;
      match ApplyAll(fields[..n])
      case None => None
      case Some(p) => ApplyField(p, n, fields[n])
  }

  /** The checks after the last field. */
  function Finish(p: Partial, count: nat): Option<Record> {
    if count < 7 then None
    else if p.sawAlgo && count < 10 then None
    else if p.sawAlgo && p.rec.algo == ARGON2ID && (p.rec.tCost < MIN_T_COST || p.rec.mCost < MIN_M_COST) then None
    else Some(p.rec)
  }

  /** userdb_parse_line. */
  function Parse(line: string): Option<Record> {
    var fields := Split(line, ':');
    match ApplyAll(fields)
    case None => None
    case Some(p) => Finish(p, |fields|)
  }

  lemma {:induction false} ApplyPrefix(prefix: seq<string>, fields: seq<string>)
    requires prefix <= fields && ApplyAll(prefix).None?
    ensures ApplyAll(fields).None?
  {
    if |prefix| < |fields| {
      ApplyPrefix(prefix, fields[..|fields| - 1]);
    } else {
      assert prefix == fields;
    }
  }

  lemma ApplyAppend(fields: seq<string>, f: string)
    ensures ApplyAll(fields + [f]) ==
            (match ApplyAll(fields) case None => None case Some(p) => ApplyField(p, |fields|, f))
  {
    assert (fields + [f])[..|fields|] == fields;
  }

  /** userdb_parse_line: one pass over the line, a field at each separator. */
  method ParseLine(line: string) returns (r: Option<Record>)
    ensures r == Parse(line)
  {
    hide Split, ApplyField, Finish;
    var p := Partial(CLEARED, false);
    var start, index := 0, 0;
    ghost var done: seq<string> := [];
    assert line[0..] == line;
    for i := 0 to |line| + 1
      invariant start <= i && start <= |line| + 1 && index == |done|
      invariant i <= |line| ==> ':' !in line[start..i] && Split(line, ':') == done + Split(line[start..], ':')
      invariant i == |line| + 1 ==> Split(line, ':') == done
      invariant ApplyAll(done) == Some(p)
    {
      if i == |line| || line[i] == ':' {
        var field := line[start..i];
        if i == |line| {
          assert line[start..] == field;
          SplitWhole(field, ':');
        } else {
          assert line[start..] == field + [':'] + line[i + 1..];
          SplitAt(field, ':', line[i + 1..]);
        }
        ApplyAppend(done, field);
        done := done + [field];
        var next := ApplyField(p, index, field);
        if next.None? {
          ApplyPrefix(done, Split(line, ':'));
          return None;
        }
        p := next.value;
        start := i + 1;
        index := index + 1;
      } else {
        assert line[start..i + 1] == line[start..i] + [line[i]];
      }
    }
    return Finish(p, index);
  }
}
