/** Word-at-a-time memset and memcpy (include/util/string_ops.h). Memory is an array of bytes indexed by address. */
module StringOps {

  // ----- words in memory -----

  const LOW: bv64 := 0xff

  /** The k-th byte of a word, lowest first. */
  function ByteOf(w: bv64, k: nat): bv8
    requires k < 8
  {
    match k
    case 0 => (w & LOW) as bv8
    case 1 => ((w >> 8) & LOW) as bv8
    case 2 => ((w >> 16) & LOW) as bv8
    case 3 => ((w >> 24) & LOW) as bv8
    case 4 => ((w >> 32) & LOW) as bv8
    case 5 => ((w >> 40) & LOW) as bv8
    case 6 => ((w >> 48) & LOW) as bv8
    case 7 => ((w >> 56) & LOW) as bv8
  }

  /** The word eight bytes make. */
  function Pack(a: bv8, b: bv8, c: bv8, d: bv8, e: bv8, f: bv8, g: bv8, h: bv8): bv64 {
    (a as bv64) | ((b as bv64) << 8) | ((c as bv64) << 16) | ((d as bv64) << 24)
    | ((e as bv64) << 32) | ((f as bv64) << 40) | ((g as bv64) << 48) | ((h as bv64) << 56)
  }

  /** Unpacking a packed word gives each byte back. */
  lemma PackedByte(a: bv8, b: bv8, c: bv8, d: bv8, e: bv8, f: bv8, g: bv8, h: bv8)
    ensures ByteOf(Pack(a, b, c, d, e, f, g, h), 0) == a && ByteOf(Pack(a, b, c, d, e, f, g, h), 1) == b
    ensures ByteOf(Pack(a, b, c, d, e, f, g, h), 2) == c && ByteOf(Pack(a, b, c, d, e, f, g, h), 3) == d
    ensures ByteOf(Pack(a, b, c, d, e, f, g, h), 4) == e && ByteOf(Pack(a, b, c, d, e, f, g, h), 5) == f
    ensures ByteOf(Pack(a, b, c, d, e, f, g, h), 6) == g && ByteOf(Pack(a, b, c, d, e, f, g, h), 7) == h
  {
  }

  /** The fill word, doubled up by shifts. */
  function Fill(b: bv8): bv64 {
    var f0 := b as bv64;
    var f1 := f0 | (f0 << 8);
    var f2 := f1 | (f1 << 16);
    f2 | (f2 << 32)
  }

  lemma FilledByte(b: bv8, k: nat)
    requires k < 8
    ensures ByteOf(Fill(b), k) == b
  {
  }

  /** An eight-byte store; only aligned addresses may be given. */
  method StoreWord(mem: array<bv8>, d: nat, w: bv64)
    requires d % 8 == 0 && d + 8 <= mem.Length
    modifies mem
    ensures forall i :: d <= i < d + 8 ==> mem[i] == ByteOf(w, i - d)
    ensures forall i :: 0 <= i < mem.Length && !(d <= i < d + 8) ==> mem[i] == old(mem[i])
  {
    hide ByteOf;
    for k := 0 to 8
      invariant forall i :: d <= i < d + k ==> mem[i] == ByteOf(w, i - d)
      invariant forall i :: 0 <= i < mem.Length && !(d <= i < d + k) ==> mem[i] == old(mem[i])
    {
      mem[d + k] := ByteOf(w, k);
    }
  }

  /** An eight-byte load from an aligned address. */
  method LoadWord(mem: array<bv8>, s: nat) returns (w: bv64)
    requires s % 8 == 0 && s + 8 <= mem.Length
    ensures forall i :: s <= i < s + 8 ==> mem[i] == ByteOf(w, i - s)
  {
    w := Pack(mem[s], mem[s + 1], mem[s + 2], mem[s + 3], mem[s + 4], mem[s + 5], mem[s + 6], mem[s + 7]);
    PackedByte(mem[s], mem[s + 1], mem[s + 2], mem[s + 3], mem[s + 4], mem[s + 5], mem[s + 6], mem[s + 7]);
    hide Pack, ByteOf;
  }

  /** The first aligned address from `d` on, at most seven bytes away. */
  function Boundary(d: nat): (r: nat)
    ensures d <= r <= d + 7 && r % 8 == 0
  {
    if d % 8 == 0 then d else d + 8 - d % 8
  }

  // ----- memset -----

  /** capy_word_memset: exactly the `n` bytes at `dest` take the low byte of `c`, whatever the alignment. */
  method WordMemset(mem: array<bv8>, dest: nat, c: int, n: nat)
    requires dest + n <= mem.Length
    modifies mem
    ensures forall i :: dest <= i < dest + n ==> mem[i] == (c % 0x100) as bv8
    ensures forall i :: 0 <= i < mem.Length && !(dest <= i < dest + n) ==> mem[i] == old(mem[i])
  {
    var d, left: nat := dest, n;
    var b := (c % 0x100) as bv8;
    if left >= 8 {
      var fill := Fill(b);
      forall k | 0 <= k < 8 ensures ByteOf(fill, k) == b {
        FilledByte(b, k);
      }
      hide Fill, ByteOf;
      ghost var boundary := Boundary(dest);
      while d % 8 != 0
        invariant d + left == dest + n && dest <= d <= boundary
        invariant forall i :: dest <= i < d ==> mem[i] == b
        invariant forall i :: 0 <= i < mem.Length && !(dest <= i < d) ==> mem[i] == old(mem[i])
        decreases left
      {
        mem[d] := b;
        d := d + 1;
        left := left - 1;
      }
      while left >= 8
        invariant d % 8 == 0 && d + left == dest + n && dest <= d
        invariant forall i :: dest <= i < d ==> mem[i] == b
        invariant forall i :: 0 <= i < mem.Length && !(dest <= i < d) ==> mem[i] == old(mem[i])
      {
        StoreWord(mem, d, fill);
        d := d + 8;
        left := left - 8;
      }
    }
    while left > 0
      invariant d + left == dest + n && dest <= d
      invariant forall i :: dest <= i < d ==> mem[i] == b
      invariant forall i :: 0 <= i < mem.Length && !(dest <= i < d) ==> mem[i] == old(mem[i])
    {
      mem[d] := b;
      d := d + 1;
      left := left - 1;
    }
  }

  // ----- memcpy -----

  /** One word moved between aligned addresses. */
  method CopyWord(mem: array<bv8>, d: nat, s: nat)
    requires d % 8 == 0 && s % 8 == 0 && d + 8 <= mem.Length && s + 8 <= mem.Length
    modifies mem
    ensures forall i :: d <= i < d + 8 ==> mem[i] == old(mem[i + (s - d)])
    ensures forall i :: 0 <= i < mem.Length && !(d <= i < d + 8) ==> mem[i] == old(mem[i])
  {
    hide ByteOf;
    var w := LoadWord(mem, s);
    StoreWord(mem, d, w);
    forall i | d <= i < d + 8 ensures mem[i] == old(mem[i + (s - d)]) {
      assert old(mem[i + (s - d)]) == ByteOf(w, i - d);
    }
  }

  /** Equal steps keep two addresses equally aligned. */
  lemma AlignedTogether(dest: nat, src: nat, d: nat, s: nat)
    requires dest % 8 == src % 8 && s - d == src - dest && d % 8 == 0
    ensures s % 8 == 0
  {
    var a, b, c := dest / 8, src / 8, d / 8;
    assert dest == 8 * a + dest % 8 && src == 8 * b + src % 8 && d == 8 * c;
    EightTimes(c + b - a);
    assert s == 8 * (c + b - a);
  }

  lemma EightTimes(k: int)
    ensures 8 * k % 8 == 0
  {
  }

  /** The prologue: bytes until the destination is aligned, at most seven of at least eight. The source lies `shift`
      bytes from the destination throughout. */
  method AlignByBytes(mem: array<bv8>, dest: nat, shift: int, n: nat) returns (d: nat)
    requires dest + n <= mem.Length && 0 <= dest + shift && dest + n + shift <= mem.Length
    requires shift >= 0 || n + shift <= 0
    requires n >= 8
    modifies mem
    ensures dest <= d <= dest + 7 && d % 8 == 0
    ensures forall i :: dest <= i < d ==> mem[i] == old(mem[i + shift])
    ensures forall i :: 0 <= i < mem.Length && !(dest <= i < d) ==> mem[i] == old(mem[i])
  {
    ghost var boundary := Boundary(dest);
    d := dest;
    while d % 8 != 0
      invariant dest <= d <= boundary
      invariant forall i :: dest <= i < d ==> mem[i] == old(mem[i + shift])
      invariant forall i :: 0 <= i < mem.Length && !(dest <= i < d) ==> mem[i] == old(mem[i])
      decreases boundary - d
    {
      mem[d] := mem[d + shift];
      d := d + 1;
    }
  }

  /** The bulk: whole words while eight bytes are left, every access aligned. */
  method CopyWords(mem: array<bv8>, dest: nat, shift: int, n: nat) returns (d: nat)
    requires dest + n <= mem.Length && 0 <= dest + shift && dest + n + shift <= mem.Length
    requires shift >= 0 || n + shift <= 0
    requires dest % 8 == 0 && (dest + shift) % 8 == 0
    modifies mem
    ensures dest <= d <= dest + n < d + 8
    ensures forall i :: dest <= i < d ==> mem[i] == old(mem[i + shift])
    ensures forall i :: 0 <= i < mem.Length && !(dest <= i < d) ==> mem[i] == old(mem[i])
  {
    d := dest;
    while dest + n - d >= 8
      invariant dest <= d <= dest + n && d % 8 == 0 && (d + shift) % 8 == 0
      invariant forall i :: dest <= i < d ==> mem[i] == old(mem[i + shift])
      invariant forall i :: 0 <= i < mem.Length && !(dest <= i < d) ==> mem[i] == old(mem[i])
    {
      CopyWord(mem, d, d + shift);
      d := d + 8;
    }
  }

  /** The tail, or everything when the addresses are not equally aligned. */
  method CopyBytes(mem: array<bv8>, dest: nat, shift: int, n: nat)
    requires dest + n <= mem.Length && 0 <= dest + shift && dest + n + shift <= mem.Length
    requires shift >= 0 || n + shift <= 0
    modifies mem
    ensures forall i :: dest <= i < dest + n ==> mem[i] == old(mem[i + shift])
    ensures forall i :: 0 <= i < mem.Length && !(dest <= i < dest + n) ==> mem[i] == old(mem[i])
  {
    for d := dest to dest + n
      invariant forall i :: dest <= i < d ==> mem[i] == old(mem[i + shift])
      invariant forall i :: 0 <= i < mem.Length && !(dest <= i < d) ==> mem[i] == old(mem[i])
    {
      mem[d] := mem[d + shift];
    }
  }

  /** capy_word_memcpy: the `n` bytes at `dest` take the old bytes at `src` and nothing else changes, whatever the
      alignments. Ranges that do not overlap are the documented use; a destination below its source works too. */
  method WordMemcpy(mem: array<bv8>, dest: nat, src: nat, n: nat)
    requires dest + n <= mem.Length && src + n <= mem.Length && (dest <= src || src + n <= dest)
    modifies mem
    ensures forall i :: dest <= i < dest + n ==> mem[i] == old(mem[i + (src - dest)])
    ensures forall i :: 0 <= i < mem.Length && !(dest <= i < dest + n) ==> mem[i] == old(mem[i])
  {
    var d, left, shift := dest, n, src - dest;
    if left >= 8 && dest % 8 == src % 8 {
      d := AlignByBytes(mem, dest, shift, left);
      left := dest + n - d;
      AlignedTogether(dest, src, d, d + shift);
      d := CopyWords(mem, d, shift, left);
      left := dest + n - d;
    }
    CopyBytes(mem, d, shift, left);
  }
}
