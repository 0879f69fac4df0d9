/** The control record byte by byte: where each field of a manager lies in its 512 bytes (src/boot/boot_slot.c). */
module BootFormat {
  import opened Words
  import opened BootSlots
  import opened BootCodec

  /** Words and double words are stored lowest byte first. */
  lemma LittleEndian(s: seq<byte>, at: nat)
    requires at + 8 <= |s|
    ensures GetU32(s, at) ==
            s[at] as int + 256 * s[at + 1] as int + 65536 * s[at + 2] as int + 16777216 * s[at + 3] as int
    ensures GetU64(s, at) == GetU32(s, at) as int + 4294967296 * GetU32(s, at + 4) as int
  {
  }

  lemma {:induction false} WordAt(ws: seq<u32>, k: nat)
    requires k < |ws|
    ensures GetU32(PutWords(ws), 4 * k) == ws[k]
  {
    var s, rest := PutWords(ws), PutWords(ws[1..]);
    assert s == PutU32(ws[0]) + rest;
    if k == 0 {
      GetPutU32(ws[0]);
    } else {
      WordAt(ws[1..], k - 1);
      var j := 4 * (k - 1);
      hide PutWords, PutU32;
      assert s[4..] == rest;
      WordIn(s, 4, |s|, j);
    }
  }

  /** A word of a section is a word of the whole. */
  lemma WordIn(r: seq<byte>, from: nat, to: nat, k: nat)
    requires from <= to <= |r| && k + 4 <= to - from
    ensures GetU32(r, from + k) == GetU32(r[from..to], k)
  {
  }

  /** The header of a record: magic, format, size, generation and the manager's cursors, at their offsets. */
  lemma HeaderBytes(crc: Checksum, m: Manager, g: u64)
    requires Encodable(m.slot0) && Encodable(m.slot1)
    ensures
      var r := EncodeRecord(crc, m, g);
      && r[..8] == [0x43, 0x41, 0x50, 0x59, 0x41, 0x42, 0x30, 0x30]
      && GetU32(r, 8) == 0 && GetU32(r, 12) == 512 && GetU64(r, 16) == g
      && GetU32(r, 24) == m.activeSlot && GetU32(r, 28) == m.nextSlot
      && GetU32(r, 32) == (if m.rollbackPending then 1 else 0) && GetU32(r, 36) == m.confirmedSlot
      && GetU32(r, 40) == m.pendingSlot && GetU32(r, 44) == m.tries && GetU32(r, 48) == m.bootSectors
      && GetU32(r, 52) == m.control0 && GetU32(r, 56) == m.control1 && GetU32(r, 60) == 0
  {
    var r, ws := EncodeRecord(crc, m, g), HeaderWords(m, g);
    RecordSections(crc, m, g);
    hide EncodeRecord, PutWords, EncodeSlot, GetU32;
    forall k | 0 <= k < 14 ensures GetU32(r, 8 + 4 * k) == ws[k] {
      WordAt(ws, k);
      WordIn(r, 8, 64, 4 * k);
    }
    HeaderWordsAt(r, m, g);
  }

  lemma HeaderWordsAt(r: seq<byte>, m: Manager, g: u64)
    requires |r| == 512 && forall k :: 0 <= k < 14 ==> GetU32(r, 8 + 4 * k) == HeaderWords(m, g)[k]
    ensures GetU32(r, 8) == 0 && GetU32(r, 12) == 512 && GetU64(r, 16) == g
    ensures GetU32(r, 24) == m.activeSlot && GetU32(r, 28) == m.nextSlot
    ensures GetU32(r, 32) == (if m.rollbackPending then 1 else 0) && GetU32(r, 36) == m.confirmedSlot
    ensures GetU32(r, 40) == m.pendingSlot && GetU32(r, 44) == m.tries && GetU32(r, 48) == m.bootSectors
    ensures GetU32(r, 52) == m.control0 && GetU32(r, 56) == m.control1 && GetU32(r, 60) == 0
  {
    var w := HeaderWords(m, g);
    hide GetU32;
    assert GetU32(r, 8 + 4 * 0) == w[0] && GetU32(r, 8 + 4 * 1) == w[1] && GetU32(r, 8 + 4 * 2) == w[2];
    assert GetU32(r, 8 + 4 * 3) == w[3] && GetU32(r, 8 + 4 * 4) == w[4] && GetU32(r, 8 + 4 * 5) == w[5];
    assert GetU32(r, 8 + 4 * 6) == w[6] && GetU32(r, 8 + 4 * 7) == w[7] && GetU32(r, 8 + 4 * 8) == w[8];
    assert GetU32(r, 8 + 4 * 9) == w[9] && GetU32(r, 8 + 4 * 10) == w[10] && GetU32(r, 8 + 4 * 11) == w[11];
    assert GetU32(r, 8 + 4 * 12) == w[12] && GetU32(r, 8 + 4 * 13) == w[13];
    var high: int := g / 0x1_0000_0000;
    assert g == g % 0x1_0000_0000 + 0x1_0000_0000 * high;
  }

  /** The fields of slot `i`, 128 bytes from offset 64 or 192 on. */
  predicate SlotAt(r: seq<byte>, base: nat, s: Slot)
    requires base + 128 <= |r| && |s.version| < 40
  {
    && GetU32(r, base) ==
         (match s.state case Empty => 0 case Valid => 1 case Active => 2 case Rollback => 3 case Failed => 4)
    && GetU32(r, base + 4) == s.bootCount && GetU32(r, base + 8) == s.successCount
    && GetU32(r, base + 12) == s.failCount
    && GetU32(r, base + 16) == s.headerLba && GetU32(r, base + 20) == s.payloadLba
    && GetU32(r, base + 24) == s.capacity && GetU32(r, base + 28) == s.payloadSize
    && GetU32(r, base + 32) == s.checksum && GetU32(r, base + 36) == (if s.health then 1 else 0)
    && r[base + 40..base + 40 + |s.version|] == s.version
    && (forall k :: base + 40 + |s.version| <= k < base + 80 ==> r[k] == 0)
    && r[base + 80..base + 112] == s.sha
    && (forall k :: base + 112 <= k < base + 128 ==> r[k] == 0)
  }

  lemma SlotWordsAt(r: seq<byte>, base: nat, s: Slot)
    requires base + 128 <= |r| && r[base..base + 40] == PutWords(SlotWords(s))
    ensures GetU32(r, base) == StateCode(s.state) && GetU32(r, base + 4) == s.bootCount
    ensures GetU32(r, base + 8) == s.successCount && GetU32(r, base + 12) == s.failCount
    ensures GetU32(r, base + 16) == s.headerLba && GetU32(r, base + 20) == s.payloadLba
    ensures GetU32(r, base + 24) == s.capacity && GetU32(r, base + 28) == s.payloadSize
    ensures GetU32(r, base + 32) == s.checksum && GetU32(r, base + 36) == (if s.health then 1 else 0)
  {
    var w := SlotWords(s);
    hide GetU32, PutWords;
    forall k | 0 <= k < 10 ensures GetU32(r, base + 4 * k) == w[k] {
      WordAt(w, k);
      WordIn(r, base, base + 40, 4 * k);
    }
    assert GetU32(r, base + 4 * 0) == w[0] && GetU32(r, base + 4 * 1) == w[1] && GetU32(r, base + 4 * 2) == w[2];
    assert GetU32(r, base + 4 * 3) == w[3] && GetU32(r, base + 4 * 4) == w[4] && GetU32(r, base + 4 * 5) == w[5];
    assert GetU32(r, base + 4 * 6) == w[6] && GetU32(r, base + 4 * 7) == w[7] && GetU32(r, base + 4 * 8) == w[8];
    assert GetU32(r, base + 4 * 9) == w[9];
  }

  lemma SlotSection(r: seq<byte>, base: nat, s: Slot)
    requires base + 128 <= |r| && Encodable(s) && r[base..base + 128] == EncodeSlot(s)
    ensures SlotAt(r, base, s)
  {
    var sec, v := r[base..base + 128], |s.version|;
    var pad := s.version + Zeros(40 - v);
    SlotJoin(sec, PutWords(SlotWords(s)), pad, s.sha, Zeros(16));
    hide PutWords, SlotWords, GetU32, EncodeSlot;
    assert r[base..base + 40] == sec[..40];
    SlotWordsAt(r, base, s);
    Subsection(r, base, 128, 40, 80);
    Subsection(r, base, 128, 80, 112);
    Subsection(r, base, 128, 112, 128);
    assert r[base + 112..base + 128] == [] + Zeros(16);
    hide Zeros;
    Padded(r, base + 40, s.version, 40);
    Padded(r, base + 112, [], 16);
  }

  /** A text padded with zeros to `n` bytes. */
  lemma Padded(r: seq<byte>, from: nat, text: seq<byte>, n: nat)
    requires |text| <= n && from + n <= |r| && r[from..from + n] == text + Zeros(n - |text|)
    ensures r[from..from + |text|] == text && forall k :: from + |text| <= k < from + n ==> r[k] == 0
  {
    var v := |text|;
    assert r[from..from + v] == r[from..from + n][..v];
    assert forall k :: from + v <= k < from + n ==> r[k] == r[from..from + n][k - from];
  }

  lemma Subsection(r: seq<byte>, base: nat, n: nat, from: nat, to: nat)
    requires base + n <= |r| && from <= to <= n
    ensures r[base + from..base + to] == r[base..base + n][from..to]
  {
    assert forall k :: base + from <= k < base + to ==> r[k] == r[base..base + n][k - base];
  }

  /** Both slots at their offsets, the reserved bytes zero, and the checksum of all before it at the end. */
  lemma SlotBytes(crc: Checksum, m: Manager, g: u64)
    requires Encodable(m.slot0) && Encodable(m.slot1)
    ensures
      var r := EncodeRecord(crc, m, g);
      && SlotAt(r, 64, m.slot0) && SlotAt(r, 192, m.slot1)
      && (forall k :: 320 <= k < 508 ==> r[k] == 0) && GetU32(r, 508) == crc(r[..508])
  {
    var r := EncodeRecord(crc, m, g);
    hide *;
    RecordSections(crc, m, g);
    SlotSection(r, 64, m.slot0);
    SlotSection(r, 192, m.slot1);
    RecordTail(crc, r);
  }

  lemma RecordTail(crc: Checksum, r: seq<byte>)
    requires |r| == 512 && AllZero(r[320..508]) && r[508..] == PutU32(crc(r[..508]))
    ensures (forall k :: 320 <= k < 508 ==> r[k] == 0) && GetU32(r, 508) == crc(r[..508])
  {
    assert forall k :: 320 <= k < 508 ==> r[k] == r[320..508][k - 320];
    GetPutU32(crc(r[..508]));
    hide PutU32, GetU32;
    assert r[508..512] == r[508..];
    WordIn(r, 508, 512, 0);
  }
}
