/** Reading the identity of a CapyOS disk from its GUID partition table (src/boot/gpt_identity.c). */
module GptIdentity {
  import opened Words

  type Sector = s: seq<byte> | |s| == 512 witness Zeros(512)

  /** A disk as its reader shows it: the sector at an address, or a failed read. */
  type Reader = nat -> Option<Sector>

  /** One step of the running checksum. Every result here holds for every such function. */
  type CrcUpdate = (u32, seq<byte>) -> u32

  const SIGNATURE: u64 := 0x5452415020494645
  const ENTRY_COUNT := 128
  const ENTRY_SECTORS := 32
  const FIRST_USABLE := 34

  const ESP_TYPE: seq<byte> :=
    [0x28, 0x73, 0x2A, 0xC1, 0x1F, 0xF8, 0xD2, 0x11, 0xBA, 0x4B, 0x00, 0xA0, 0xC9, 0x3E, 0xC9, 0x3B]
  const BOOT_TYPE: seq<byte> :=
    [0x76, 0x0B, 0x98, 0x04, 0x42, 0x10, 0x4C, 0x9B, 0x86, 0x1F, 0x11, 0xE0, 0x29, 0xEA, 0xC1, 0x01]
  const DATA_TYPE: seq<byte> :=
    [0xAF, 0x3D, 0xC6, 0x0F, 0x83, 0x84, 0x72, 0x47, 0x8E, 0x79, 0x3D, 0x69, 0xD8, 0x47, 0x7D, 0xE4]

  datatype Kind = Esp | Boot | Data

  datatype Partition = Partition(lba: u32, sectors: u32, guid: seq<byte>)

  datatype Identity = Identity(diskSectors: u32, diskGuid: seq<byte>, esp: Partition, boot: Partition, data: Partition)

  /** The partitions found so far. */
  datatype Found = Found(esp: Option<Partition>, boot: Option<Partition>, data: Option<Partition>) {
    function Of(k: Kind): Option<Partition> {
      match k
      case Esp => esp
      case Boot => boot
      case Data => data
    }

    function Add(k: Kind, p: Partition): Found {
      match k
      case Esp => this.(esp := Some(p))
      case Boot => this.(boot := Some(p))
      case Data => this.(data := Some(p))
    }
  }

  type Entry = e: seq<byte> | |e| == 128 witness Zeros(128)

  predicate Used(e: Entry) { !AllZero(e[..16]) }

  function KindOf(e: Entry): Option<Kind> {
    if e[..16] == ESP_TYPE then Some(Esp)
    else if e[..16] == BOOT_TYPE then Some(Boot)
    else if e[..16] == DATA_TYPE then Some(Data)
    else None
  }

  function NameOf(k: Kind): seq<byte> {
    match k
    case Esp => [0x45, 0x53, 0x50]
    case Boot => [0x42, 0x4F, 0x4F, 0x54]
    case Data => [0x44, 0x41, 0x54, 0x41]
  }

  /** identity_name: the 36 UTF-16 units of the field are the ASCII name, then zeros. */
  predicate NameIs(e: Entry, name: seq<byte>)
    requires |name| < 36
  {
    forall i :: 0 <= i < 36 ==> e[56 + 2 * i] == (if i < |name| then name[i] else 0) && e[57 + 2 * i] == 0
  }

  /** identity_set without its duplicate check: the partition an entry describes, if it is acceptable. */
  function PartitionOf(e: Entry, first: nat, last: nat): Option<Partition> {
    var f, l := GetU64(e, 32), GetU64(e, 40);
    if f < first || l > last || l < f || f > U32_MAX || GetU64(e, 48) != 0 || AllZero(e[16..32]) || l - f + 1 > U32_MAX
    then None
    else Some(Partition(f, l - f + 1, e[16..32]))
  }

  /** identity_entry. */
  function AddEntry(t: Found, e: Entry, first: nat, last: nat): Option<Found> {
    if !Used(e) then Some(t)
    else
      match KindOf(e)
      case None => None
      case Some(k) =>
        if !NameIs(e, NameOf(k)) || t.Of(k).Some? then None
        else
          match PartitionOf(e, first, last)
          case None => None
          case Some(p) => Some(t.Add(k, p))
  }

  function Scan(entries: seq<Entry>, first: nat, last: nat): Option<Found> {
    if entries == [] then Some(Found(None, None, None))
    else
      match Scan(entries[..|entries| - 1], first, last)
      case None => None
      case Some(t) => AddEntry(t, entries[|entries| - 1], first, last)
  }

  // ----- the meaning of a scan -----

  predicate IsOf(e: Entry, k: Kind) { Used(e) && KindOf(e) == Some(k) }

  /** Every used entry is of a known type, named for it, and describes an acceptable partition. */
  predicate EntryOk(e: Entry, first: nat, last: nat) {
    Used(e) ==> KindOf(e).Some? && NameIs(e, NameOf(KindOf(e).value)) && PartitionOf(e, first, last).Some?
  }

  /** `i` is the only entry of its kind. */
  predicate OnlyAt(entries: seq<Entry>, k: Kind, i: nat) {
    i < |entries| && IsOf(entries[i], k) && forall j :: 0 <= j < |entries| && IsOf(entries[j], k) ==> j == i
  }

  predicate NoneOf(entries: seq<Entry>, k: Kind) {
    forall j :: 0 <= j < |entries| ==> !IsOf(entries[j], k)
  }

  ghost predicate FoundExactly(entries: seq<Entry>, k: Kind, p: Option<Partition>, first: nat, last: nat) {
    match p
    case None => NoneOf(entries, k)
    case Some(_) => exists i: nat :: OnlyAt(entries, k, i) && PartitionOf(entries[i], first, last) == p
  }

  lemma FoundExtends(entries: seq<Entry>, e: Entry, k: Kind, p: Option<Partition>, first: nat, last: nat)
    requires FoundExactly(entries, k, p, first, last)
    ensures !IsOf(e, k) ==> FoundExactly(entries + [e], k, p, first, last)
    ensures IsOf(e, k) && p.None? && PartitionOf(e, first, last).Some? ==>
              FoundExactly(entries + [e], k, PartitionOf(e, first, last), first, last)
  {
    var all := entries + [e];
    assert forall j :: 0 <= j < |entries| ==> all[j] == entries[j];
    assert all[|entries|] == e;
    if !IsOf(e, k) && p.Some? {
      var i: nat :| OnlyAt(entries, k, i) && PartitionOf(entries[i], first, last) == p;
      assert OnlyAt(all, k, i) && PartitionOf(all[i], first, last) == p;
    } else if IsOf(e, k) && p.None? && PartitionOf(e, first, last).Some? {
      assert OnlyAt(all, k, |entries|);
    }
  }

  /** One accepted entry: it is fit, and of each kind the entries found are still exactly those there are. */
  lemma AddEntryMeaning(before: seq<Entry>, t: Found, e: Entry, k: Kind, first: nat, last: nat)
    requires AddEntry(t, e, first, last).Some? && FoundExactly(before, k, t.Of(k), first, last)
    ensures EntryOk(e, first, last)
    ensures FoundExactly(before + [e], k, AddEntry(t, e, first, last).value.Of(k), first, last)
  {
    hide NameIs, PartitionOf, KindOf, FoundExactly;
    FoundExtends(before, e, k, t.Of(k), first, last);
  }

  /** A scan that succeeds has accepted every entry, and has found of each kind exactly the one entry there is. */
  lemma {:induction false} ScanMeaning(entries: seq<Entry>, first: nat, last: nat)
    requires Scan(entries, first, last).Some?
    ensures forall i :: 0 <= i < |entries| ==> EntryOk(entries[i], first, last)
    ensures forall k: Kind :: FoundExactly(entries, k, Scan(entries, first, last).value.Of(k), first, last)
  {
    if entries != [] {
      hide AddEntry, FoundExactly, EntryOk;
      var n := |entries| - 1;
      var before, e := entries[..n], entries[n];
      ScanMeaning(before, first, last);
      var t, t' := Scan(before, first, last).value, Scan(entries, first, last).value;
      assert before + [e] == entries && AddEntry(t, e, first, last) == Some(t');
      forall k: Kind
        ensures EntryOk(e, first, last) && FoundExactly(entries, k, t'.Of(k), first, last)
      {
        AddEntryMeaning(before, t, e, k, first, last);
      }
      AddEntryMeaning(before, t, e, Esp, first, last);
      forall i | 0 <= i < |entries| ensures EntryOk(entries[i], first, last) {
        if i < n { assert entries[i] == before[i]; }
      }
    } else {
      NoneFound(first, last);
    }
  }

  lemma NoneFound(first: nat, last: nat)
    ensures forall k: Kind :: FoundExactly([], k, Found(None, None, None).Of(k), first, last)
  {
  }

  lemma NotYetFound(entries: seq<Entry>, k: Kind, p: Option<Partition>, first: nat, last: nat)
    requires FoundExactly(entries, k, p, first, last) && NoneOf(entries, k)
    ensures p.None?
  {
  }

  /** Conversely, a table of acceptable entries with no kind twice is never refused. */
  lemma {:induction false} ScanComplete(entries: seq<Entry>, first: nat, last: nat)
    requires forall i :: 0 <= i < |entries| ==> EntryOk(entries[i], first, last)
    requires forall k: Kind, i, j ::
               0 <= i < |entries| && 0 <= j < |entries| && IsOf(entries[i], k) && IsOf(entries[j], k) ==> i == j
    ensures Scan(entries, first, last).Some?
  {
    if entries != [] {
      var n := |entries| - 1;
      var before, e := entries[..n], entries[n];
      ScanComplete(before, first, last);
      ScanMeaning(before, first, last);
      if Used(e) {
        var k := KindOf(e).value;
        assert IsOf(entries[n], k);
        assert FoundExactly(before, k, Scan(before, first, last).value.Of(k), first, last);
        assert forall j :: 0 <= j < n ==> before[j] == entries[j];
        NotYetFound(before, k, Scan(before, first, last).value.Of(k), first, last);
      }
    }
  }

  // ----- the whole disk -----

  predicate Readable(reader: Reader, base: nat, n: nat) {
    forall a :: base <= a < base + n ==> reader(a).Some?
  }

  /** `n` sectors at `base` equal the first `n` sectors of the primary entry array. */
  predicate Mirrored(reader: Reader, base: nat, n: nat) {
    forall a :: 2 <= a < 2 + n ==> reader(a) == reader(a - 2 + base)
  }

  /** The four entries of one sector of the entry array. */
  function EntriesOf(s: Sector): (r: seq<Entry>)
    ensures |r| == 4
  {
    [s[0..128], s[128..256], s[256..384], s[384..512]]
  }

  function Entries(reader: Reader, n: nat): (r: seq<Entry>)
    requires Readable(reader, 2, n)
    ensures |r| == 4 * n
  {
    if n == 0 then [] else Entries(reader, n - 1) + EntriesOf(reader(2 + (n - 1)).value)
  }

  function RunningCrc(update: CrcUpdate, reader: Reader, base: nat, n: nat): u32
    requires Readable(reader, base, n)
  {
    if n == 0 then U32_MAX else update(RunningCrc(update, reader, base, n - 1), reader(base + (n - 1)).value)
  }

  function Not32(x: u32): u32 { U32_MAX - x }

  /** The checksum of a header, taken with its own checksum field zeroed. */
  function HeaderCrc(update: CrcUpdate, h: Sector): u32 {
    Not32(update(U32_MAX, h[..16] + Zeros(4) + h[20..92]))
  }

  /** The fields both headers must show. */
  predicate HeaderOk(update: CrcUpdate, h: Sector, self: nat, other: nat, entriesLba: nat, blockCount: u32)
    requires blockCount >= 68
  {
    && GetU64(h, 0) == SIGNATURE && GetU32(h, 8) == 0x0001_0000 && GetU32(h, 12) == 92 && GetU32(h, 20) == 0
    && GetU64(h, 24) == self && GetU64(h, 32) == other
    && GetU64(h, 40) == FIRST_USABLE && GetU64(h, 48) == blockCount - 34
    && GetU64(h, 72) == entriesLba && GetU32(h, 80) == ENTRY_COUNT && GetU32(h, 84) == 128
    && HeaderCrc(update, h) == GetU32(h, 16)
  }

  /** identity_overlap on partitions that were found. */
  predicate Disjoint(a: Partition, b: Partition) {
    a.lba + a.sectors <= b.lba || b.lba + b.sectors <= a.lba
  }

  predicate GuidCollision(disk: seq<byte>, e: Partition, b: Partition, d: Partition) {
    e.guid == b.guid || e.guid == d.guid || b.guid == d.guid || disk == e.guid || disk == b.guid || disk == d.guid
  }

  /** The primary header and entry array, before the backup is consulted. */
  predicate PrimaryOk(update: CrcUpdate, reader: Reader, blockCount: u32) {
    && blockCount >= 68 && reader(1).Some? && HeaderOk(update, reader(1).value, 1, blockCount - 1, 2, blockCount)
    && !AllZero(reader(1).value[56..72])
    && Readable(reader, 2, ENTRY_SECTORS)
    && Not32(RunningCrc(update, reader, 2, ENTRY_SECTORS)) == GetU32(reader(1).value, 88)
  }

  /** identity_backup: the last sector mirrors the header, and the sectors before it mirror the entry array. */
  predicate BackupOk(update: CrcUpdate, reader: Reader, blockCount: u32)
    requires PrimaryOk(update, reader, blockCount)
  {
    var last, base := blockCount - 1, blockCount - 1 - ENTRY_SECTORS;
    && reader(last).Some? && HeaderOk(update, reader(last).value, last, 1, base, blockCount)
    && reader(last).value[56..72] == reader(1).value[56..72]
    && GetU32(reader(last).value, 88) == GetU32(reader(1).value, 88)
    && Readable(reader, base, ENTRY_SECTORS)
    && Mirrored(reader, base, ENTRY_SECTORS)
    && Not32(RunningCrc(update, reader, base, ENTRY_SECTORS)) == GetU32(reader(1).value, 88)
  }

  function LastUsable(blockCount: u32): nat
    requires blockCount >= 68
  {
    blockCount - 34
  }

  /** identity_read_mode as a condition on the disk; `legacy` is allow_duplicate_guids. */
  predicate Accepts(update: CrcUpdate, reader: Reader, blockSize: u32, blockCount: u32, legacy: bool, id: Identity) {
    && blockSize == 512 && PrimaryOk(update, reader, blockCount)
    && var guid := reader(1).value[56..72];
       && Scan(Entries(reader, ENTRY_SECTORS), FIRST_USABLE, LastUsable(blockCount)) ==
            Some(Found(Some(id.esp), Some(id.boot), Some(id.data)))
       && (legacy <==> GuidCollision(guid, id.esp, id.boot, id.data))
       && Disjoint(id.esp, id.boot) && Disjoint(id.esp, id.data) && Disjoint(id.boot, id.data)
       && BackupOk(update, reader, blockCount)
       && id.diskSectors == blockCount && id.diskGuid == guid
  }

  /** A disk has at most one identity, and never one under both readings. */
  lemma IdentityUnique(
    update: CrcUpdate, reader: Reader, bs: u32, bc: u32, legacy: bool, legacy': bool, id: Identity, id': Identity)
    requires Accepts(update, reader, bs, bc, legacy, id) && Accepts(update, reader, bs, bc, legacy', id')
    ensures id == id' && legacy == legacy'
  {
  }

  predicate InRange(p: Partition, blockCount: u32) {
    FIRST_USABLE <= p.lba && p.sectors > 0 && p.lba + p.sectors <= blockCount - 33
  }

  /** An entry of that type puts the partition where it is: first and last sector, and its own identifier. */
  predicate EntryPuts(e: Entry, kind: seq<byte>, p: Partition) {
    && e[..16] == kind && GetU64(e, 32) == p.lba && GetU64(e, 40) + 1 == p.lba + p.sectors && e[16..32] == p.guid
  }

  function TypeOf(k: Kind): seq<byte> {
    match k
    case Esp => ESP_TYPE
    case Boot => BOOT_TYPE
    case Data => DATA_TYPE
  }

  lemma FoundInRange(entries: seq<Entry>, k: Kind, p: Partition, blockCount: u32)
    requires blockCount >= 68 && FoundExactly(entries, k, Some(p), FIRST_USABLE, LastUsable(blockCount))
    ensures InRange(p, blockCount) && exists e :: e in entries && EntryPuts(e, TypeOf(k), p)
  {
    var i: nat :| OnlyAt(entries, k, i) && PartitionOf(entries[i], FIRST_USABLE, LastUsable(blockCount)) == Some(p);
    assert EntryPuts(entries[i], TypeOf(k), p) && entries[i] in entries;
  }

  /** What an accepted disk guarantees: exactly one ESP, BOOT and DATA entry in its table, each putting the identity's
      partition where it is, all between the two copies of the table and pairwise disjoint. */
  lemma AcceptedIdentity(update: CrcUpdate, reader: Reader, bs: u32, bc: u32, legacy: bool, id: Identity)
    requires Accepts(update, reader, bs, bc, legacy, id)
    ensures
      var entries := Entries(reader, ENTRY_SECTORS);
      && (forall i :: 0 <= i < |entries| ==> EntryOk(entries[i], FIRST_USABLE, LastUsable(bc)))
      && FoundExactly(entries, Esp, Some(id.esp), FIRST_USABLE, LastUsable(bc))
      && FoundExactly(entries, Boot, Some(id.boot), FIRST_USABLE, LastUsable(bc))
      && FoundExactly(entries, Data, Some(id.data), FIRST_USABLE, LastUsable(bc))
      && (exists e :: e in entries && EntryPuts(e, ESP_TYPE, id.esp))
      && (exists e :: e in entries && EntryPuts(e, BOOT_TYPE, id.boot))
      && (exists e :: e in entries && EntryPuts(e, DATA_TYPE, id.data))
    ensures InRange(id.esp, bc) && InRange(id.boot, bc) && InRange(id.data, bc)
    ensures Disjoint(id.esp, id.boot) && Disjoint(id.esp, id.data) && Disjoint(id.boot, id.data)
  {
    hide BackupOk, HeaderOk, Entries, Scan, FoundExactly, EntryOk, RunningCrc, EntryPuts;
    var entries := Entries(reader, ENTRY_SECTORS);
    var found := Found(Some(id.esp), Some(id.boot), Some(id.data));
    ScanMeaning(entries, FIRST_USABLE, LastUsable(bc));
    assert FoundExactly(entries, Esp, found.Of(Esp), FIRST_USABLE, LastUsable(bc));
    assert FoundExactly(entries, Boot, found.Of(Boot), FIRST_USABLE, LastUsable(bc));
    assert FoundExactly(entries, Data, found.Of(Data), FIRST_USABLE, LastUsable(bc));
    FoundInRange(entries, Esp, id.esp, bc);
    FoundInRange(entries, Boot, id.boot, bc);
    FoundInRange(entries, Data, id.data, bc);
  }
}
