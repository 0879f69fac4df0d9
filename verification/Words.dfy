/** Fixed-width integers, option values and the little-endian byte forms shared by the models. */
module Words {
  type byte = x: int | 0 <= x < 0x100
  type u32 = x: int | 0 <= x < 0x1_0000_0000
  type u64 = x: int | 0 <= x < 0x1_0000_0000_0000_0000

  const U32_MAX: u32 := 0xFFFF_FFFF
  const U64_MAX: u64 := 0xFFFF_FFFF_FFFF_FFFF

  datatype Option<+T> = None | Some(value: T)

  /** Unsigned 32-bit increment, wrapping at 2^32. */
  function Inc32(x: u32): u32 {
    if x == U32_MAX then 0 else x + 1
  }

  function Zeros(n: nat): (s: seq<byte>)
    ensures |s| == n
  {
    seq(n, _ => 0)
  }

  predicate AllZero(s: seq<byte>) {
    forall i :: 0 <= i < |s| ==> s[i] == 0
  }

  function PutU32(v: u32): (s: seq<byte>)
    ensures |s| == 4
  {
    [v % 0x100, v / 0x100 % 0x100, v / 0x100 / 0x100 % 0x100, v / 0x100 / 0x100 / 0x100]
  }

  function GetU32(s: seq<byte>, at: nat): u32
    requires at + 4 <= |s|
  {
    var b0: int, b1: int, b2: int, b3: int := s[at], s[at + 1], s[at + 2], s[at + 3];
    b0 + 0x100 * (b1 + 0x100 * (b2 + 0x100 * b3))
  }

  function GetU64(s: seq<byte>, at: nat): u64
    requires at + 8 <= |s|
  {
    GetU32(s, at) + 0x1_0000_0000 * GetU32(s, at + 4)
  }

  /** The bytes of a list of 32-bit words, lowest byte first. */
  function PutWords(ws: seq<u32>): (s: seq<byte>)
    ensures |s| == 4 * |ws|
  {
    if ws == [] then [] else PutU32(ws[0]) + PutWords(ws[1..])
  }

  lemma GetPutU32(v: u32)
    ensures GetU32(PutU32(v), 0) == v
  {
    var q1: int := v / 0x100;
    var q2: int := q1 / 0x100;
    assert v == v % 0x100 + 0x100 * q1 && q1 == q1 % 0x100 + 0x100 * q2;
  }

  lemma PutGetU32(s: seq<byte>, at: nat)
    requires at + 4 <= |s|
    ensures PutU32(GetU32(s, at)) == s[at..at + 4]
  {
    var v := GetU32(s, at);
    var b1: int, b2: int, b3: int := s[at + 1], s[at + 2], s[at + 3];
    assert v / 0x100 == b1 + 0x100 * (b2 + 0x100 * b3);
    assert v / 0x100 / 0x100 == b2 + 0x100 * b3;
  }

  /** The 32-bit words of a buffer. */
  function GetWords(s: seq<byte>): (ws: seq<u32>)
    requires |s| % 4 == 0
    ensures |ws| == |s| / 4
  {
    if s == [] then [] else [GetU32(s, 0)] + GetWords(s[4..])
  }

  lemma {:induction false} GetPutWords(ws: seq<u32>)
    ensures GetWords(PutWords(ws)) == ws
  {
    if ws == [] {
    } else {
      var s := PutWords(ws);
      GetPutU32(ws[0]);
      assert s[..4] == PutU32(ws[0]) && s[4..] == PutWords(ws[1..]);
      assert GetU32(s, 0) == GetU32(PutU32(ws[0]), 0);
      GetPutWords(ws[1..]);
    }
  }

  lemma {:induction false} PutGetWords(s: seq<byte>)
    requires |s| % 4 == 0
    ensures PutWords(GetWords(s)) == s
  {
    if s == [] {
    } else {
      PutGetU32(s, 0);
      PutGetWords(s[4..]);
      assert GetWords(s)[1..] == GetWords(s[4..]);
      assert s == s[0..4] + s[4..];
    }
  }

  /** A byte string of zeros is determined by its length. */
  lemma AllZeroIsZeros(s: seq<byte>)
    ensures AllZero(s) <==> s == Zeros(|s|)
  {
  }
}
