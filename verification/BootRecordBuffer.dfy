/** Filling and checking the record buffer in place, as src/boot/boot_slot.c does. */
module BootRecordBuffer {
  import opened Words
  import opened BootSlots
  import opened BootCodec

  lemma {:induction false} PutWordsAppend(ws: seq<u32>, v: u32)
    ensures PutWords(ws + [v]) == PutWords(ws) + PutU32(v)
  {
    if ws == [] {
      assert [v][1..] == [];
    } else {
      PutWordsAppend(ws[1..], v);
      assert (ws + [v])[1..] == ws[1..] + [v];
    }
  }

  /** bs_put_u32 at the next free word of a section that starts at `base`; `done` are the words already there. */
  method PutNext(a: array<byte>, base: nat, ghost done: seq<u32>, at: nat, v: u32)
    requires at == base + 4 * |done| && at + 4 <= a.Length
    requires a[base..at] == PutWords(done)
    modifies a
    ensures a[base..at + 4] == PutWords(done + [v])
    ensures forall i :: 0 <= i < base || at + 4 <= i < a.Length ==> a[i] == old(a[i])
  {
    a[at] := v % 0x100;
    a[at + 1] := v / 0x100 % 0x100;
    a[at + 2] := v / 0x100 / 0x100 % 0x100;
    a[at + 3] := v / 0x100 / 0x100 / 0x100;
    PutWordsAppend(done, v);
    assert a[at..at + 4] == PutU32(v);
    assert a[base..at + 4] == a[base..at] + a[at..at + 4];
    assert a[base..at] == old(a[base..at]);
  }

  /** bs_put_u64: low word, then high word. */
  method PutNext64(a: array<byte>, base: nat, ghost done: seq<u32>, at: nat, v: u64)
    requires at == base + 4 * |done| && at + 8 <= a.Length
    requires a[base..at] == PutWords(done)
    modifies a
    ensures a[base..at + 8] == PutWords(done + [v % 0x1_0000_0000, v / 0x1_0000_0000])
    ensures forall i :: 0 <= i < base || at + 8 <= i < a.Length ==> a[i] == old(a[i])
  {
    var low: u32, high: u32 := v % 0x1_0000_0000, v / 0x1_0000_0000;
    PutNext(a, base, done, at, low);
    PutNext(a, base, done + [low], at + 4, high);
    assert done + [low] + [high] == done + [low, high];
  }

  /** bs_copy_bytes. */
  method CopyBytes(a: array<byte>, at: nat, src: seq<byte>)
    requires at + |src| <= a.Length
    modifies a
    ensures a[at..at + |src|] == src
    ensures forall i :: 0 <= i < at || at + |src| <= i < a.Length ==> a[i] == old(a[i])
  {
    for i := 0 to |src|
      invariant a[at..at + i] == src[..i]
      invariant forall k :: 0 <= k < at || at + i <= k < a.Length ==> a[k] == old(a[k])
    {
      a[at + i] := src[i];
      assert a[at..at + i + 1] == a[at..at + i] + [src[i]];
    }
  }

  /** State and counters, and the first sector: the first five words of a slot. */
  method PutSlotFront(a: array<byte>, offset: nat, s: Slot)
    requires offset + 128 <= a.Length
    modifies a
    ensures a[offset..offset + 20] == PutWords(SlotWords(s)[..5])
    ensures forall i :: 0 <= i < offset || offset + 20 <= i < a.Length ==> a[i] == old(a[i])
  {
    ghost var w := SlotWords(s);
    assert a[offset..offset] == PutWords(w[..0]);
    hide PutWords;
    PutNext(a, offset, w[..0], offset, StateCode(s.state));
    assert w[..0] + [w[0]] == w[..1];
    PutNext(a, offset, w[..1], offset + 4, s.bootCount);
    assert w[..1] + [w[1]] == w[..2];
    PutNext(a, offset, w[..2], offset + 8, s.successCount);
    assert w[..2] + [w[2]] == w[..3];
    PutNext(a, offset, w[..3], offset + 12, s.failCount);
    assert w[..3] + [w[3]] == w[..4];
    PutNext(a, offset, w[..4], offset + 16, s.headerLba);
    assert w[..4] + [w[4]] == w[..5];
  }

  /** The ten words bs_encode_slot stores at the start of a slot. */
  method PutSlotWords(a: array<byte>, offset: nat, s: Slot)
    requires offset + 128 <= a.Length
    modifies a
    ensures a[offset..offset + 40] == PutWords(SlotWords(s))
    ensures forall i :: 0 <= i < offset || offset + 40 <= i < a.Length ==> a[i] == old(a[i])
  {
    hide PutWords;
    ghost var w := SlotWords(s);
    PutSlotFront(a, offset, s);
    PutNext(a, offset, w[..5], offset + 20, s.payloadLba);
    assert w[..5] + [w[5]] == w[..6];
    PutNext(a, offset, w[..6], offset + 24, s.capacity);
    assert w[..6] + [w[6]] == w[..7];
    PutNext(a, offset, w[..7], offset + 28, s.payloadSize);
    assert w[..7] + [w[7]] == w[..8];
    PutNext(a, offset, w[..8], offset + 32, s.checksum);
    assert w[..8] + [w[8]] == w[..9];
    PutNext(a, offset, w[..9], offset + 36, if s.health then 1 else 0);
    assert w[..9] + [w[9]] == w;
  }

  /** bs_encode_slot over a zeroed section. */
  method EncodeSlotInto(a: array<byte>, offset: nat, s: Slot)
    requires offset + 128 <= a.Length && Encodable(s)
    requires forall i :: offset <= i < offset + 128 ==> a[i] == 0
    modifies a
    ensures a[offset..offset + 128] == EncodeSlot(s)
    ensures forall i :: 0 <= i < offset || offset + 128 <= i < a.Length ==> a[i] == old(a[i])
  {
    hide PutWords;
    PutSlotWords(a, offset, s);
    ghost var words := a[offset..offset + 40];
    CopyBytes(a, offset + 40, s.version);
    ghost var v := |s.version|;
    assert a[offset..offset + 40] == words;
    assert a[offset + 40..offset + 80] == s.version + Zeros(40 - v) by {
      assert a[offset + 40..offset + 80] == a[offset + 40..offset + 40 + v] + a[offset + 40 + v..offset + 80];
      assert a[offset + 40 + v..offset + 80] == Zeros(40 - v);
    }
    ghost var text := a[offset + 40..offset + 80];
    CopyBytes(a, offset + 80, s.sha);
    assert a[offset..offset + 40] == words && a[offset + 40..offset + 80] == text;
    assert a[offset + 112..offset + 128] == Zeros(16);
    SlotJoin(a[offset..offset + 128], words, text, s.sha, Zeros(16));
    assert a[offset..offset + 128][..40] == words && a[offset..offset + 128][40..80] == text;
    assert a[offset..offset + 128][80..112] == s.sha;
  }

  method PutFormat(a: array<byte>)
    requires a.Length == RECORD_SIZE
    modifies a
    ensures a[8..16] == PutWords([0, RECORD_SIZE])
    ensures forall i :: 0 <= i < 8 || 16 <= i < a.Length ==> a[i] == old(a[i])
  {
    assert a[8..8] == PutWords([]);
    PutNext(a, 8, [], 8, 0);
    assert [] + [0] == [0];
    PutNext(a, 8, [0], 12, RECORD_SIZE);
    assert [0] + [RECORD_SIZE] == [0, RECORD_SIZE];
  }

  /** Format version, record size, generation and the slot cursors: offsets 8 to 36. */
  method PutHeaderFront(a: array<byte>, m: Manager, g: u64)
    requires a.Length == RECORD_SIZE
    modifies a
    ensures a[8..36] == PutWords(HeaderWords(m, g)[..7])
    ensures forall i :: 0 <= i < 8 || 36 <= i < a.Length ==> a[i] == old(a[i])
  {
    hide PutWords;
    ghost var w := HeaderWords(m, g);
    PutFormat(a);
    assert w[..2] == [0, RECORD_SIZE];
    PutNext64(a, 8, w[..2], 16, g);
    assert w[..2] + [w[2], w[3]] == w[..4];
    PutNext(a, 8, w[..4], 24, m.activeSlot);
    assert w[..4] + [w[4]] == w[..5];
    PutNext(a, 8, w[..5], 28, m.nextSlot);
    assert w[..5] + [w[5]] == w[..6];
    PutNext(a, 8, w[..6], 32, if m.rollbackPending then 1 else 0);
    assert w[..6] + [w[6]] == w[..7];
  }

  /** Confirmed and pending slot, tries and geometry, and the zero word after them: offsets 36 to 64. */
  method PutHeaderBack(a: array<byte>, m: Manager, g: u64)
    requires a.Length == RECORD_SIZE
    requires a[8..36] == PutWords(HeaderWords(m, g)[..7])
    requires forall i :: 60 <= i < 64 ==> a[i] == 0
    modifies a
    ensures a[8..64] == PutWords(HeaderWords(m, g))
    ensures forall i :: 0 <= i < 8 || 64 <= i < a.Length ==> a[i] == old(a[i])
  {
    hide PutWords;
    ghost var w := HeaderWords(m, g);
    PutNext(a, 8, w[..7], 36, m.confirmedSlot);
    assert w[..7] + [w[7]] == w[..8];
    PutNext(a, 8, w[..8], 40, m.pendingSlot);
    assert w[..8] + [w[8]] == w[..9];
    PutNext(a, 8, w[..9], 44, m.tries);
    assert w[..9] + [w[9]] == w[..10];
    PutNext(a, 8, w[..10], 48, m.bootSectors);
    assert w[..10] + [w[10]] == w[..11];
    PutNext(a, 8, w[..11], 52, m.control0);
    assert w[..11] + [w[11]] == w[..12];
    PutNext(a, 8, w[..12], 56, m.control1);
    assert w[..12] + [w[12]] == w[..13];
    PutWordsAppend(w[..13], 0);
    assert w[..13] + [0] == w;
    assert a[60..64] == PutU32(0);
    assert a[8..64] == a[8..60] + a[60..64];
  }

  /** A buffer whose sections are those of a record holds its body. */
  lemma SectionsMakeBody(r: seq<byte>, m: Manager, g: u64)
    requires |r| == RECORD_SIZE && Encodable(m.slot0) && Encodable(m.slot1)
    requires r[..8] == MAGIC && r[8..64] == PutWords(HeaderWords(m, g))
    requires r[64..192] == EncodeSlot(m.slot0) && r[192..320] == EncodeSlot(m.slot1)
    requires forall k :: 320 <= k < CRC_OFFSET ==> r[k] == 0
    ensures r[..CRC_OFFSET] == EncodeBody(m, g)
  {
    var body := r[..CRC_OFFSET];
    SectionsOfBody(r);
    assert AllZero(r[320..CRC_OFFSET]);
    AllZeroIsZeros(r[320..CRC_OFFSET]);
    hide PutWords, EncodeSlot, HeaderWords, AllZero, Zeros;
    BodyJoin(body, MAGIC, PutWords(HeaderWords(m, g)), EncodeSlot(m.slot0), EncodeSlot(m.slot1), Zeros(188));
  }

  /** The first 64 bytes of a zeroed record: magic and header. */
  method PutHeader(a: array<byte>, m: Manager, g: u64)
    requires a.Length == RECORD_SIZE && forall k :: 0 <= k < RECORD_SIZE ==> a[k] == 0
    modifies a
    ensures a[..8] == MAGIC && a[8..64] == PutWords(HeaderWords(m, g))
    ensures forall k :: 64 <= k < RECORD_SIZE ==> a[k] == 0
  {
    hide PutWords, HeaderWords;
    CopyBytes(a, 0, MAGIC);
    PutHeaderFront(a, m, g);
    PutHeaderBack(a, m, g);
    assert a[..8] == MAGIC;
  }

  /** Both slots, after the header. */
  method PutSlots(a: array<byte>, m: Manager)
    requires a.Length == RECORD_SIZE && Encodable(m.slot0) && Encodable(m.slot1)
    requires forall k :: 64 <= k < RECORD_SIZE ==> a[k] == 0
    modifies a
    ensures a[64..192] == EncodeSlot(m.slot0) && a[192..320] == EncodeSlot(m.slot1)
    ensures forall k :: 0 <= k < 64 ==> a[k] == old(a[k])
    ensures forall k :: 320 <= k < RECORD_SIZE ==> a[k] == 0
  {
    hide EncodeSlot;
    EncodeSlotInto(a, 64, m.slot0);
    ghost var first := a[64..192];
    EncodeSlotInto(a, 192, m.slot1);
    assert a[64..192] == first;
  }

  /** The checksum word at the end of a record. */
  method PutChecksum(a: array<byte>, sum: u32)
    requires a.Length == RECORD_SIZE
    modifies a
    ensures a[..CRC_OFFSET] == old(a[..CRC_OFFSET]) && a[CRC_OFFSET..] == PutU32(sum)
  {
    assert a[508..508] == PutWords([]);
    PutNext(a, 508, [], 508, sum);
    PutWordsAppend([], sum);
    assert [] + [sum] == [sum] && PutWords([sum]) == PutU32(sum);
    assert a[CRC_OFFSET..] == a[508..512];
  }

  /** bs_record_encode: the buffer ends up holding exactly the printed record. */
  method EncodeRecordInto(a: array<byte>, crc: Checksum, m: Manager, g: u64)
    requires a.Length == RECORD_SIZE && Encodable(m.slot0) && Encodable(m.slot1)
    modifies a
    ensures a[..] == EncodeRecord(crc, m, g)
  {
    hide PutWords, HeaderWords, EncodeSlot, EncodeBody, PutU32;
    for i := 0 to RECORD_SIZE
      invariant forall k :: 0 <= k < i ==> a[k] == 0
    {
      a[i] := 0;
    }
    PutHeader(a, m, g);
    ghost var header := a[8..64];
    PutSlots(a, m);
    assert a[..8] == MAGIC && a[8..64] == header;
    SectionsMakeBody(a[..], m, g);
    assert a[..][..CRC_OFFSET] == a[..CRC_OFFSET];
    var sum := crc(a[..CRC_OFFSET]);
    PutChecksum(a, sum);
    assert a[..] == a[..CRC_OFFSET] + a[CRC_OFFSET..];
  }
}
