/** Two control copies, the choice made when binding to them, and what one interrupted write can do to it. */
module BootPersist {
  import opened Words
  import opened BootSlots
  import opened BootCodec

  /** What bind sees in one control sector: an erased sector, a record, or bytes that do not decode. */
  datatype Copy = Blank | Garbage | Record(m: Manager, g: u64)

  function View(crc: Checksum, sector: seq<byte>): (c: Copy)
    requires |sector| == RECORD_SIZE
    ensures CopyOk(c)
  {
    if Erased(sector) then Blank
    else
      match DecodeRecord(crc, sector)
      case None => Garbage
      case Some((m, g)) => RecordCanonical(crc, sector); Record(m, g)
  }

  predicate CopyOk(c: Copy) {
    c.Record? ==> ManagerValid(c.m) && NamesCanonical(c.m) && c.g != 0
  }

  /** The durable state: both control copies and, per slot, the digest of the bytes in its payload region. */
  datatype Disk = Disk(copy0: Copy, copy1: Copy, payload0: Option<seq<byte>>, payload1: Option<seq<byte>>) {
    function At(i: u32): Copy { if i == 0 then copy0 else copy1 }

    function With(i: u32, c: Copy): (d: Disk)
      ensures i < 2 ==> d.At(i) == c && d.At(Other(i)) == At(Other(i))
    {
      if i == 0 then this.(copy0 := c) else this.(copy1 := c)
    }

    function Payload(i: u32): Option<seq<byte>> { if i == 0 then payload0 else payload1 }

    function WithPayload(i: u32, p: Option<seq<byte>>): (d: Disk)
      ensures i < 2 ==> d.Payload(i) == p && d.Payload(Other(i)) == Payload(Other(i))
    {
      if i == 0 then this.(payload0 := p) else this.(payload1 := p)
    }
  }

  predicate DiskOk(d: Disk) { CopyOk(d.copy0) && CopyOk(d.copy1) }

  predicate Usable(c: Copy, l: Layout) { c.Record? && c.m.Geometry() == l }

  datatype Binding = Bound(m: Manager, g: u64, active: u32, degraded: bool) | Unformatted | Refused

  /** boot_slot_internal_set_persistence_locked, after both copies were read. */
  function Bind(d: Disk, l: Layout): Binding {
    var u0, u1 := Usable(d.copy0, l), Usable(d.copy1, l);
    if u0 && u1 && d.copy0.g == d.copy1.g then
      if d.copy0 != d.copy1 then Refused else Bound(d.copy0.m, d.copy0.g, 0, false)
    else if u1 && (!u0 || d.copy1.g > d.copy0.g) then
      if d.copy1.m.pendingSlot != SLOT_NONE && !u0 then Refused else Bound(d.copy1.m, d.copy1.g, 1, !u0)
    else if u0 then
      if d.copy0.m.pendingSlot != SLOT_NONE && !u1 then Refused else Bound(d.copy0.m, d.copy0.g, 0, !u1)
    else if d.copy0.Blank? && d.copy1.Blank? then Unformatted
    else Refused
  }

  /** Equal records are equal bytes, so comparing records is what the source's byte comparison decides. */
  lemma SameRecordSameBytes(crc: Checksum, a: seq<byte>, b: seq<byte>)
    requires |a| == RECORD_SIZE && |b| == RECORD_SIZE
    requires View(crc, a).Record? && View(crc, b).Record?
    ensures View(crc, a) == View(crc, b) <==> a == b
  {
    RecordCanonical(crc, a);
    RecordCanonical(crc, b);
  }

  /** A printed record is seen as the record it prints. */
  lemma ViewOfEncoded(crc: Checksum, m: Manager, g: u64)
    requires ManagerValid(m) && NamesCanonical(m) && g != 0
    ensures Encodable(m.slot0) && Encodable(m.slot1)
    ensures View(crc, EncodeRecord(crc, m, g)) == Record(m, g)
  {
    RecordRoundTrip(crc, m, g);
    var r := EncodeRecord(crc, m, g);
    if Erased(r) {
      ErasedNeverDecodes(crc, r);
    }
  }

  /** A sector is seen as a record exactly when it is that record printed, and as blank exactly when it is erased. */
  lemma ViewExactly(crc: Checksum, sector: seq<byte>, m: Manager, g: u64)
    requires |sector| == RECORD_SIZE && ManagerValid(m) && NamesCanonical(m) && g != 0
    ensures View(crc, sector) == Record(m, g) <==> sector == EncodeRecord(crc, m, g)
    ensures View(crc, sector) == Blank <==>
            (forall i :: 0 <= i < 512 ==> sector[i] == 0) || (forall i :: 0 <= i < 512 ==> sector[i] == 0xFF)
  {
    ViewOfEncoded(crc, m, g);
    if View(crc, sector).Record? { RecordCanonical(crc, sector); }
  }

  /** A sector being written ends up old, new, or not decodable. */
  predicate Lands(before: Copy, intended: Copy, after: Copy) {
    after == before || after == intended || !after.Record?
  }

  /** What bs_commit_locked is about to write: the next generation of a valid manager, over the inactive copy. */
  predicate MayCommit(d: Disk, l: Layout, candidate: Manager) {
    && DiskOk(d) && Bind(d, l).Bound? && Bind(d, l).g < U64_MAX
    && ManagerValid(candidate) && NamesCanonical(candidate) && candidate.Geometry() == l
  }

  function Target(d: Disk, l: Layout): u32
    requires Bind(d, l).Bound?
  {
    Other(Bind(d, l).active)
  }

  function Intended(d: Disk, l: Layout, candidate: Manager): Copy
    requires MayCommit(d, l, candidate)
  {
    Record(candidate, Bind(d, l).g + 1)
  }

  /** Degraded operation never carries a pending attempt. */
  lemma DegradedNeverPending(d: Disk, l: Layout)
    requires Bind(d, l).Bound? && Bind(d, l).degraded
    ensures Bind(d, l).m.pendingSlot == SLOT_NONE
  {
  }

  /** The bound manager is a valid record of the layout, read from the active copy. */
  lemma BoundIsRecord(d: Disk, l: Layout)
    requires DiskOk(d) && Bind(d, l).Bound?
    ensures var b := Bind(d, l);
            && b.active < 2 && d.At(b.active) == Record(b.m, b.g)
            && ManagerValid(b.m) && NamesCanonical(b.m) && b.m.Geometry() == l && b.g != 0
            && (b.degraded <==> !Usable(d.At(Other(b.active)), l))
  {
  }

  /** Crash atomicity of one commit: rebinding finds the new manager, the old one, or refuses, and which
      one depends only on what the interrupted sector became and on whether an attempt was pending. */
  lemma CommitCrashAtomic(d: Disk, l: Layout, candidate: Manager, after: Copy)
    requires MayCommit(d, l, candidate)
    requires Lands(d.At(Target(d, l)), Intended(d, l, candidate), after)
    ensures
      var before := Bind(d, l);
      var t := Target(d, l);
      Bind(d.With(t, after), l) ==
        if after == Intended(d, l, candidate) then Bound(candidate, before.g + 1, t, false)
        else if after == d.At(t) then before
        else if before.m.pendingSlot == SLOT_NONE then before.(degraded := true)
        else Refused
  {
    BoundIsRecord(d, l);
  }
}
