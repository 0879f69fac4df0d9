/** The 512-byte control record (src/boot/boot_slot.c): printer, parser, and their exact correspondence. */
module BootCodec {
  import opened Words
  import opened BootSlots

  const RECORD_SIZE := 512
  const CRC_OFFSET := 508
  const MAGIC: seq<byte> := [0x43, 0x41, 0x50, 0x59, 0x41, 0x42, 0x30, 0x30]

  /** The record checksum. Every result here holds for every checksum function. */
  type Checksum = seq<byte> -> u32

  function StateCode(s: SlotState): u32 {
    match s
    case Empty => 0
    case Valid => 1
    case Active => 2
    case Rollback => 3
    case Failed => 4
  }

  function StateOf(code: u32): (s: SlotState)
    requires code <= 4
    ensures StateCode(s) == code
  {
    if code == 0 then Empty
    else if code == 1 then Valid
    else if code == 2 then Active
    else if code == 3 then Rollback
    else Failed
  }

  function SlotWords(s: Slot): seq<u32> {
    [StateCode(s.state), s.bootCount, s.successCount, s.failCount, s.headerLba, s.payloadLba,
     s.capacity, s.payloadSize, s.checksum, if s.health then 1 else 0]
  }

  predicate Encodable(s: Slot) { |s.version| < VERSION_MAX && |s.sha| == SHA_SIZE }

  /** bs_encode_slot: ten words, the version padded to 40 bytes, the digest, 16 reserved bytes. */
  function EncodeSlot(s: Slot): (r: seq<byte>)
    requires Encodable(s)
    ensures |r| == 128
  {
    PutWords(SlotWords(s)) + (s.version + Zeros(VERSION_MAX - |s.version|)) + s.sha + Zeros(16)
  }

  function HeaderWords(m: Manager, g: u64): seq<u32> {
    [0, RECORD_SIZE, g % 0x1_0000_0000, g / 0x1_0000_0000,
     m.activeSlot, m.nextSlot, if m.rollbackPending then 1 else 0, m.confirmedSlot, m.pendingSlot,
     m.tries, m.bootSectors, m.control0, m.control1, 0]
  }

  /** The 508 bytes the checksum covers. */
  function EncodeBody(m: Manager, g: u64): (r: seq<byte>)
    requires Encodable(m.slot0) && Encodable(m.slot1)
    ensures |r| == CRC_OFFSET
  {
    MAGIC + PutWords(HeaderWords(m, g)) + EncodeSlot(m.slot0) + EncodeSlot(m.slot1) + Zeros(188)
  }

  /** bs_record_encode. */
  function EncodeRecord(crc: Checksum, m: Manager, g: u64): (r: seq<byte>)
    requires Encodable(m.slot0) && Encodable(m.slot1)
    ensures |r| == RECORD_SIZE
  {
    EncodeBody(m, g) + PutU32(crc(EncodeBody(m, g)))
  }

  /** Index of the first zero byte, or the length. */
  function FirstZero(s: seq<byte>): (n: nat)
    ensures n <= |s|
    ensures forall i :: 0 <= i < n ==> s[i] != 0
    ensures n < |s| ==> s[n] == 0
  {
    if s == [] || s[0] == 0 then 0 else 1 + FirstZero(s[1..])
  }

  /** bs_decode_version on the 40-byte field. */
  function DecodeVersion(src: seq<byte>): Option<seq<byte>>
    requires |src| == VERSION_MAX
  {
    var end := FirstZero(src);
    if end == VERSION_MAX || !Printable(src[..end]) || !AllZero(src[end + 1..]) then None
    else Some(src[..end])
  }

  /** The checks and assignments of bs_decode_slot, given the slot's four sections. */
  function SlotOfParts(w: seq<u32>, version: Option<seq<byte>>, sha: seq<byte>, reserved: seq<byte>, name: string)
    : Option<Slot>
    requires |w| == 10
  {
    if w[0] > 4 || w[9] > 1 || !AllZero(reserved) || version.None? then None
    else
      var s := Slot(name, version.value, StateOf(w[0]), w[1], w[2], w[3], w[4], w[5], w[6], w[7], w[8],
                    sha, w[9] == 1);
      if s.state.Empty? then
        if s.version != [] || s.bootCount != 0 || s.successCount != 0 || s.failCount != 0 ||
           s.payloadSize != 0 || s.checksum != 0 || s.health || !AllZero(s.sha)
        then None else Some(s)
      else if s.version == [] || s.payloadSize == 0 then None
      else Some(s)
  }

  /** bs_decode_slot on the slot's 128-byte section; word k is the source's 32-bit read at offset 4k. */
  function DecodeSlot(sec: seq<byte>, name: string): Option<Slot>
    requires |sec| == 128
  {
    SlotOfParts(GetWords(sec[..40]), DecodeVersion(sec[40..80]), sec[80..112], sec[112..128], name)
  }

  function JoinU64(lo: u32, hi: u32): u64 {
    var high: int := hi;
    lo + 0x1_0000_0000 * high
  }

  /** The checks and assignments of bs_record_decode after the magic and checksum, given header words and slots. */
  function ManagerOfParts(w: seq<u32>, a: Option<Slot>, b: Option<Slot>): Option<(Manager, u64)>
    requires |w| == 14
  {
    var g := JoinU64(w[2], w[3]);
    if w[0] != 0 || w[1] != RECORD_SIZE || g == 0 || w[13] != 0 || w[4] >= 2 || w[5] >= 2 || w[6] > 1 ||
       a.None? || b.None?
    then None
    else
      var m := Manager(a.value, b.value, w[4], w[5], w[6] == 1, w[7], w[8], w[9], w[10], w[11], w[12]);
      if ManagerValid(m) then Some((m, g)) else None
  }

  /** bs_record_decode; word k of the header is the source's 32-bit read at offset 8 + 4k. */
  function DecodeRecord(crc: Checksum, r: seq<byte>): Option<(Manager, u64)>
    requires |r| == RECORD_SIZE
  {
    if r[..8] != MAGIC || PutU32(crc(r[..CRC_OFFSET])) != r[CRC_OFFSET..] || !AllZero(r[320..CRC_OFFSET])
    then None
    else
      ManagerOfParts(GetWords(r[8..64]), DecodeSlot(r[64..192], "A"), DecodeSlot(r[192..320], "B"))
  }

  /** bs_record_erased: all zeros or all ones. */
  predicate Erased(r: seq<byte>) {
    AllZero(r) || forall i :: 0 <= i < |r| ==> r[i] == 0xFF
  }

  // ----- one slot -----

  lemma VersionRoundTrip(v: seq<byte>)
    requires |v| < VERSION_MAX && Printable(v)
    ensures DecodeVersion(v + Zeros(VERSION_MAX - |v|)) == Some(v)
  {
    var src := v + Zeros(VERSION_MAX - |v|);
    assert src[|v|] == 0 && forall i :: 0 <= i < |v| ==> src[i] == v[i] != 0;
    assert src[..FirstZero(src)] == v;
  }

  lemma VersionCanonical(src: seq<byte>)
    requires |src| == VERSION_MAX && DecodeVersion(src).Some?
    ensures var v := DecodeVersion(src).value;
            |v| < VERSION_MAX && Printable(v) && src == v + Zeros(VERSION_MAX - |v|)
  {
  }

  /** Four consecutive sections determine a 128-byte slot, and are determined by it. */
  lemma SlotJoin(sec: seq<byte>, a: seq<byte>, b: seq<byte>, c: seq<byte>, d: seq<byte>)
    requires |sec| == 128 && |a| == 40 && |b| == 40 && |c| == 32 && |d| == 16
    ensures sec == a + b + c + d <==> sec[..40] == a && sec[40..80] == b && sec[80..112] == c && sec[112..128] == d
  {
    assert sec == sec[..40] + sec[40..80] + sec[80..112] + sec[112..128];
  }

  lemma SlotPartsRoundTrip(s: Slot)
    requires SlotIdentityValid(s)
    ensures SlotOfParts(SlotWords(s), Some(s.version), s.sha, Zeros(16), s.name) == Some(s)
  {
  }

  lemma SlotPartsCanonical(w: seq<u32>, v: Option<seq<byte>>, sha: seq<byte>, reserved: seq<byte>, name: string)
    requires |w| == 10 && SlotOfParts(w, v, sha, reserved, name).Some?
    ensures var s := SlotOfParts(w, v, sha, reserved, name).value;
            && s.name == name && w == SlotWords(s) && v == Some(s.version) && sha == s.sha && AllZero(reserved)
  {
    assert w == [w[0], w[1], w[2], w[3], w[4], w[5], w[6], w[7], w[8], w[9]];
  }

  lemma SlotRoundTrip(s: Slot)
    requires SlotIdentityValid(s)
    ensures Encodable(s) && DecodeSlot(EncodeSlot(s), s.name) == Some(s)
  {
    var pad := s.version + Zeros(VERSION_MAX - |s.version|);
    SlotJoin(EncodeSlot(s), PutWords(SlotWords(s)), pad, s.sha, Zeros(16));
    GetPutWords(SlotWords(s));
    VersionRoundTrip(s.version);
    SlotPartsRoundTrip(s);
  }

  lemma SlotCanonical(sec: seq<byte>, name: string)
    requires |sec| == 128 && DecodeSlot(sec, name).Some?
    ensures var s := DecodeSlot(sec, name).value;
            s.name == name && Encodable(s) && EncodeSlot(s) == sec
  {
    var s := DecodeSlot(sec, name).value;
    SlotPartsCanonical(GetWords(sec[..40]), DecodeVersion(sec[40..80]), sec[80..112], sec[112..128], name);
    VersionCanonical(sec[40..80]);
    AllZeroIsZeros(sec[112..128]);
    PutGetWords(sec[..40]);
    SlotJoin(sec, PutWords(SlotWords(s)), s.version + Zeros(VERSION_MAX - |s.version|), s.sha, Zeros(16));
  }

  // ----- the record -----

  /** Five consecutive sections determine the 508 bytes under the checksum, and are determined by them. */
  lemma BodyJoin(r: seq<byte>, a: seq<byte>, b: seq<byte>, c: seq<byte>, d: seq<byte>, e: seq<byte>)
    requires |r| == CRC_OFFSET && |a| == 8 && |b| == 56 && |c| == 128 && |d| == 128 && |e| == 188
    ensures r == a + b + c + d + e <==>
            r[..8] == a && r[8..64] == b && r[64..192] == c && r[192..320] == d && r[320..508] == e
  {
    assert r == r[..8] + r[8..64] + r[64..192] + r[192..320] + r[320..508];
  }

  lemma ManagerPartsRoundTrip(m: Manager, g: u64)
    requires ManagerValid(m) && g != 0
    ensures ManagerOfParts(HeaderWords(m, g), Some(m.slot0), Some(m.slot1)) == Some((m, g))
  {
    assert m.activeSlot < 2 && m.nextSlot < 2;
    hide ManagerValid;
    var high: int := g / 0x1_0000_0000;
    assert g == g % 0x1_0000_0000 + 0x1_0000_0000 * high;
  }

  lemma ManagerPartsCanonical(w: seq<u32>, a: Option<Slot>, b: Option<Slot>)
    requires |w| == 14 && ManagerOfParts(w, a, b).Some?
    ensures var (m, g) := ManagerOfParts(w, a, b).value;
            ManagerValid(m) && g != 0 && w == HeaderWords(m, g) && a == Some(m.slot0) && b == Some(m.slot1)
  {
    var high: int := w[3];
    var g := w[2] + 0x1_0000_0000 * high;
    assert g % 0x1_0000_0000 == w[2] && g / 0x1_0000_0000 == w[3];
    assert w == [w[0], w[1], w[2], w[3], w[4], w[5], w[6], w[7], w[8], w[9], w[10], w[11], w[12], w[13]];
  }

  lemma SectionsOfBody(r: seq<byte>)
    requires |r| == RECORD_SIZE
    ensures var body := r[..CRC_OFFSET];
            && r[..8] == body[..8] && r[8..64] == body[8..64] && r[64..192] == body[64..192]
            && r[192..320] == body[192..320] && r[320..CRC_OFFSET] == body[320..508]
  {
  }

  lemma RecordSections(crc: Checksum, m: Manager, g: u64)
    requires Encodable(m.slot0) && Encodable(m.slot1)
    ensures var r := EncodeRecord(crc, m, g);
            && r[..8] == MAGIC && r[8..64] == PutWords(HeaderWords(m, g))
            && r[64..192] == EncodeSlot(m.slot0) && r[192..320] == EncodeSlot(m.slot1)
            && AllZero(r[320..CRC_OFFSET]) && PutU32(crc(r[..CRC_OFFSET])) == r[CRC_OFFSET..]
  {
  }

  /** Printing a valid manager and parsing it back gives the same manager and generation. */
  lemma RecordRoundTrip(crc: Checksum, m: Manager, g: u64)
    requires ManagerValid(m) && NamesCanonical(m) && g != 0
    ensures Encodable(m.slot0) && Encodable(m.slot1)
    ensures DecodeRecord(crc, EncodeRecord(crc, m, g)) == Some((m, g))
  {
    SlotRoundTrip(m.slot0);
    SlotRoundTrip(m.slot1);
    RecordSections(crc, m, g);
    GetPutWords(HeaderWords(m, g));
    ManagerPartsRoundTrip(m, g);
  }

  /** The parser accepts nothing but printed records: parsing is the exact inverse of printing. */
  lemma RecordCanonical(crc: Checksum, r: seq<byte>)
    requires |r| == RECORD_SIZE && DecodeRecord(crc, r).Some?
    ensures var (m, g) := DecodeRecord(crc, r).value;
            && ManagerValid(m) && NamesCanonical(m) && g != 0
            && Encodable(m.slot0) && Encodable(m.slot1) && EncodeRecord(crc, m, g) == r
  {
    var (m, g) := DecodeRecord(crc, r).value;
    ManagerPartsCanonical(GetWords(r[8..64]), DecodeSlot(r[64..192], "A"), DecodeSlot(r[192..320], "B"));
    SlotCanonical(r[64..192], "A");
    SlotCanonical(r[192..320], "B");
    PutGetWords(r[8..64]);
    AllZeroIsZeros(r[320..CRC_OFFSET]);
    SectionsOfBody(r);
    BodyJoin(r[..CRC_OFFSET], MAGIC, PutWords(HeaderWords(m, g)), EncodeSlot(m.slot0), EncodeSlot(m.slot1), Zeros(188));
    assert r == r[..CRC_OFFSET] + r[CRC_OFFSET..];
  }

  /** An erased sector never decodes, so a blank copy is never taken for a record. */
  lemma ErasedNeverDecodes(crc: Checksum, r: seq<byte>)
    requires |r| == RECORD_SIZE && Erased(r)
    ensures DecodeRecord(crc, r).None?
  {
    assert r[..8][0] == r[0];
  }
}
