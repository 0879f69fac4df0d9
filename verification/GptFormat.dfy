/** The accepted GUID partition table in its own bytes (src/boot/gpt_identity.c): where on the disk each field of an
    identity comes from, and that nothing but these fields decides. */
module GptFormat {
  import opened Words
  import opened GptIdentity

  /** The 128 entries of the primary table: four a sector, from sector 2 on. */
  function Table(reader: Reader): (r: seq<Entry>)
    requires Readable(reader, 2, 32)
    ensures |r| == 128
  {
    seq(128, i requires 0 <= i < 128 => reader(2 + i / 4).value[128 * (i % 4)..128 * (i % 4) + 128])
  }

  lemma {:induction false} EntryOnDisk(reader: Reader, n: nat, i: nat)
    requires Readable(reader, 2, n) && i < 4 * n
    ensures Entries(reader, n)[i] == reader(2 + i / 4).value[128 * (i % 4)..128 * (i % 4) + 128]
  {
    var m := n - 1;
    if i < 4 * m {
      EntryOnDisk(reader, m, i);
    } else {
      assert i / 4 == m;
    }
  }

  lemma TableRead(reader: Reader)
    requires Readable(reader, 2, 32)
    ensures Entries(reader, 32) == Table(reader)
  {
    hide Entries;
    forall i | 0 <= i < 128 ensures Entries(reader, 32)[i] == Table(reader)[i] {
      EntryOnDisk(reader, 32, i);
    }
  }

  /** The type, the name and the extent of an entry, as the standard lays them out. */
  predicate Describes(e: seq<byte>, kind: seq<byte>, name: string, p: Partition) {
    && |e| == 128 && e[..16] == kind && e[16..32] == p.guid && !AllZero(p.guid)
    && GetU64(e, 32) == p.lba && GetU64(e, 40) + 1 == p.lba + p.sectors && GetU64(e, 48) == 0
    && |name| < 36
    && forall i :: 0 <= i < 36 ==> e[56 + 2 * i] == (if i < |name| then name[i] as int else 0) && e[57 + 2 * i] == 0
  }

  /** The type identifiers of the three partitions, as they stand on the disk. */
  function TypeBytes(k: Kind): seq<byte> {
    match k
    case Esp => [0x28, 0x73, 0x2A, 0xC1, 0x1F, 0xF8, 0xD2, 0x11, 0xBA, 0x4B, 0x00, 0xA0, 0xC9, 0x3E, 0xC9, 0x3B]
    case Boot => [0x76, 0x0B, 0x98, 0x04, 0x42, 0x10, 0x4C, 0x9B, 0x86, 0x1F, 0x11, 0xE0, 0x29, 0xEA, 0xC1, 0x01]
    case Data => [0xAF, 0x3D, 0xC6, 0x0F, 0x83, 0x84, 0x72, 0x47, 0x8E, 0x79, 0x3D, 0x69, 0xD8, 0x47, 0x7D, 0xE4]
  }

  function KindName(k: Kind): string {
    match k
    case Esp => "ESP"
    case Boot => "BOOT"
    case Data => "DATA"
  }

  lemma KindExactly(e: Entry, k: Kind)
    ensures IsOf(e, k) <==> e[..16] == TypeBytes(k)
  {
    assert TypeBytes(k)[0] != 0 && TypeBytes(Esp)[0] != TypeBytes(Boot)[0];
    assert TypeBytes(Esp)[0] != TypeBytes(Data)[0] && TypeBytes(Boot)[0] != TypeBytes(Data)[0];
  }

  lemma NameExactly(k: Kind)
    ensures |NameOf(k)| == |KindName(k)| < 36
    ensures forall i :: 0 <= i < |NameOf(k)| ==> NameOf(k)[i] == KindName(k)[i] as int
  {
  }

  /** The extent and the identifier of a partition are the entry's own. */
  lemma PartitionExactly(e: Entry, bc: u32, p: Partition)
    requires bc >= 68
    ensures PartitionOf(e, FIRST_USABLE, LastUsable(bc)) == Some(p) <==>
            && GetU64(e, 32) == p.lba && GetU64(e, 40) + 1 == p.lba + p.sectors && GetU64(e, 48) == 0
            && e[16..32] == p.guid && !AllZero(p.guid) && InRange(p, bc)
  {
    hide GetU64;
  }

  /** An acceptable entry of a kind describes exactly the partition it stands for. */
  lemma DescribesExactly(e: Entry, bc: u32, k: Kind, p: Partition)
    requires bc >= 68
    ensures Describes(e, TypeBytes(k), KindName(k), p) && InRange(p, bc) <==>
            && IsOf(e, k) && EntryOk(e, FIRST_USABLE, LastUsable(bc))
            && PartitionOf(e, FIRST_USABLE, LastUsable(bc)) == Some(p)
  {
    KindExactly(e, k);
    NameExactly(k);
    PartitionExactly(e, bc, p);
    hide GetU64, PartitionOf, AllZero;
  }

  /** The table lists that partition, and no other entry of its type. */
  ghost predicate Lists(es: seq<Entry>, k: Kind, p: Partition) {
    exists i :: ListsAt(es, k, p, i)
  }

  predicate ListsAt(es: seq<Entry>, k: Kind, p: Partition, i: int) {
    && 0 <= i < |es| && Describes(es[i], TypeBytes(k), KindName(k), p)
    && forall j :: 0 <= j < |es| && j != i ==> es[j][..16] != TypeBytes(k)
  }

  /** Every entry is unused or of one of the three types. */
  predicate NothingElse(es: seq<Entry>) {
    forall i :: 0 <= i < |es| ==>
                  || AllZero(es[i][..16]) || es[i][..16] == TypeBytes(Esp)
                  || es[i][..16] == TypeBytes(Boot) || es[i][..16] == TypeBytes(Data)
  }

  lemma FoundIsListed(es: seq<Entry>, bc: u32, k: Kind, p: Partition)
    requires bc >= 68 && FoundExactly(es, k, Some(p), FIRST_USABLE, LastUsable(bc))
    requires forall i :: 0 <= i < |es| ==> EntryOk(es[i], FIRST_USABLE, LastUsable(bc))
    ensures Lists(es, k, p) && InRange(p, bc)
  {
    hide EntryOk, PartitionOf, Describes, TypeBytes, InRange, IsOf;
    var i: nat :| OnlyAt(es, k, i) && PartitionOf(es[i], FIRST_USABLE, LastUsable(bc)) == Some(p);
    DescribesExactly(es[i], bc, k, p);
    forall j | 0 <= j < |es| && j != i ensures es[j][..16] != TypeBytes(k) {
      KindExactly(es[j], k);
    }
    assert ListsAt(es, k, p, i);
  }

  lemma ListedIsFound(es: seq<Entry>, bc: u32, k: Kind, p: Partition)
    requires bc >= 68 && Lists(es, k, p) && InRange(p, bc)
    ensures FoundExactly(es, k, Some(p), FIRST_USABLE, LastUsable(bc))
    ensures forall i :: 0 <= i < |es| && IsOf(es[i], k) ==> EntryOk(es[i], FIRST_USABLE, LastUsable(bc))
    ensures forall i, j :: 0 <= i < |es| && 0 <= j < |es| && IsOf(es[i], k) && IsOf(es[j], k) ==> i == j
  {
    hide EntryOk, PartitionOf, Describes, TypeBytes, InRange, IsOf;
    var i :| ListsAt(es, k, p, i);
    DescribesExactly(es[i], bc, k, p);
    forall j | 0 <= j < |es| && IsOf(es[j], k) ensures j == i {
      KindExactly(es[j], k);
    }
    assert OnlyAt(es, k, i);
  }

  lemma KnownKinds(es: seq<Entry>)
    ensures NothingElse(es) <==>
            forall i :: 0 <= i < |es| && Used(es[i]) ==> IsOf(es[i], Esp) || IsOf(es[i], Boot) || IsOf(es[i], Data)
  {
    hide TypeBytes, IsOf;
    forall i | 0 <= i < |es|
      ensures IsOf(es[i], Esp) == (es[i][..16] == TypeBytes(Esp))
      ensures IsOf(es[i], Boot) == (es[i][..16] == TypeBytes(Boot))
      ensures IsOf(es[i], Data) == (es[i][..16] == TypeBytes(Data))
    {
      KindExactly(es[i], Esp);
      KindExactly(es[i], Boot);
      KindExactly(es[i], Data);
    }
  }

  lemma OkIsKnown(e: Entry, first: nat, last: nat)
    requires EntryOk(e, first, last) && Used(e)
    ensures IsOf(e, Esp) || IsOf(e, Boot) || IsOf(e, Data)
  {
    assert KindOf(e) == Some(Esp) || KindOf(e) == Some(Boot) || KindOf(e) == Some(Data);
  }

  lemma UnusedIsOk(e: Entry, first: nat, last: nat)
    requires !Used(e)
    ensures EntryOk(e, first, last)
  {
  }

  /** Two answers for one kind are the same partition. */
  lemma FoundOnce(es: seq<Entry>, k: Kind, p: Partition, q: Option<Partition>, first: nat, last: nat)
    requires FoundExactly(es, k, Some(p), first, last) && FoundExactly(es, k, q, first, last)
    ensures q == Some(p)
  {
    hide PartitionOf, IsOf;
    var i: nat :| OnlyAt(es, k, i) && PartitionOf(es[i], first, last) == Some(p);
  }

  /** All three partitions are listed, between the two copies of the table. */
  ghost predicate ListsAll(es: seq<Entry>, bc: u32, esp: Partition, boot: Partition, data: Partition) {
    && Lists(es, Esp, esp) && Lists(es, Boot, boot) && Lists(es, Data, data)
    && InRange(esp, bc) && InRange(boot, bc) && InRange(data, bc)
  }

  lemma ScanListed(es: seq<Entry>, bc: u32, esp: Partition, boot: Partition, data: Partition)
    requires bc >= 68 && NothingElse(es) && ListsAll(es, bc, esp, boot, data)
    ensures Scan(es, FIRST_USABLE, LastUsable(bc)) == Some(Found(Some(esp), Some(boot), Some(data)))
  {
    var first, last := FIRST_USABLE, LastUsable(bc);
    KnownKinds(es);
    ListedIsFound(es, bc, Esp, esp);
    ListedIsFound(es, bc, Boot, boot);
    ListedIsFound(es, bc, Data, data);
    hide EntryOk, FoundExactly, IsOf, Scan, Lists, NothingElse, InRange, Used;
    forall i | 0 <= i < |es| ensures EntryOk(es[i], first, last) {
      if !Used(es[i]) { UnusedIsOk(es[i], first, last); }
    }
    forall k: Kind, i, j | 0 <= i < |es| && 0 <= j < |es| && IsOf(es[i], k) && IsOf(es[j], k) ensures i == j {
      match k { case Esp => case Boot => case Data => }
    }
    ScanComplete(es, first, last);
    ScanMeaning(es, first, last);
    var t := Scan(es, first, last).value;
    assert FoundExactly(es, Esp, t.Of(Esp), first, last) && FoundExactly(es, Boot, t.Of(Boot), first, last);
    assert FoundExactly(es, Data, t.Of(Data), first, last);
    FoundOnce(es, Esp, esp, t.Of(Esp), first, last);
    FoundOnce(es, Boot, boot, t.Of(Boot), first, last);
    FoundOnce(es, Data, data, t.Of(Data), first, last);
  }

  lemma ScannedIsListed(es: seq<Entry>, bc: u32, esp: Partition, boot: Partition, data: Partition)
    requires bc >= 68
    requires Scan(es, FIRST_USABLE, LastUsable(bc)) == Some(Found(Some(esp), Some(boot), Some(data)))
    ensures NothingElse(es) && ListsAll(es, bc, esp, boot, data)
  {
    var first, last := FIRST_USABLE, LastUsable(bc);
    var found := Found(Some(esp), Some(boot), Some(data));
    hide Scan, EntryOk, FoundExactly, IsOf, Lists, NothingElse, InRange, Used;
    ScanMeaning(es, first, last);
    assert FoundExactly(es, Esp, found.Of(Esp), first, last) && FoundExactly(es, Boot, found.Of(Boot), first, last);
    assert FoundExactly(es, Data, found.Of(Data), first, last);
    FoundIsListed(es, bc, Esp, esp);
    FoundIsListed(es, bc, Boot, boot);
    FoundIsListed(es, bc, Data, data);
    forall i | 0 <= i < |es| && Used(es[i]) ensures IsOf(es[i], Esp) || IsOf(es[i], Boot) || IsOf(es[i], Data) {
      OkIsKnown(es[i], first, last);
    }
    KnownKinds(es);
  }

  /** A header of one of the two tables, field by field, and its checksum taken with the checksum field zeroed. */
  predicate Header(update: CrcUpdate, h: seq<byte>, self: nat, other: nat, table: nat, bc: u32) {
    && |h| == 512 && h[..8] == [0x45, 0x46, 0x49, 0x20, 0x50, 0x41, 0x52, 0x54]
    && GetU32(h, 8) == 0x10000 && GetU32(h, 12) == 92 && GetU32(h, 20) == 0
    && GetU64(h, 24) == self && GetU64(h, 32) == other && GetU64(h, 40) == 34 && GetU64(h, 48) + 34 == bc
    && GetU64(h, 72) == table && GetU32(h, 80) == 128 && GetU32(h, 84) == 128
    && GetU32(h, 16) + update(0xFFFF_FFFF, h[..16] + [0, 0, 0, 0] + h[20..92]) == 0xFFFF_FFFF
  }

  lemma HalvesOf(a: u32, b: u32, c: u32, d: u32)
    ensures a + 0x1_0000_0000 * b == c + 0x1_0000_0000 * d <==> a == c && b == d
  {
  }

  lemma SignatureBytes(h: Sector)
    ensures GetU64(h, 0) == SIGNATURE <==> h[..8] == [0x45, 0x46, 0x49, 0x20, 0x50, 0x41, 0x52, 0x54]
  {
    var low: u32, high: u32 := 0x20494645, 0x54524150;
    HalvesOf(GetU32(h, 0), GetU32(h, 4), low, high);
    PutGetU32(h, 0);
    PutGetU32(h, 4);
    assert PutU32(low) == [0x45, 0x46, 0x49, 0x20] && PutU32(high) == [0x50, 0x41, 0x52, 0x54];
    assert GetU32(h, 0) == low <==> h[0..4] == PutU32(low) by { GetOfPut(h, 0, low); }
    assert GetU32(h, 4) == high <==> h[4..8] == PutU32(high) by { GetOfPut(h, 4, high); }
    hide GetU32, PutU32;
    assert h[..8] == h[0..4] + h[4..8];
  }

  /** A word is read where its bytes stand, and only there. */
  lemma GetOfPut(s: seq<byte>, at: nat, v: u32)
    requires at + 4 <= |s|
    ensures GetU32(s, at) == v <==> s[at..at + 4] == PutU32(v)
  {
    PutGetU32(s, at);
    GetPutU32(v);
    hide PutU32;
    if s[at..at + 4] == PutU32(v) { assert GetU32(s, at) == GetU32(s[at..at + 4], 0); }
  }

  lemma HeaderExactly(update: CrcUpdate, h: Sector, self: nat, other: nat, table: nat, bc: u32)
    requires bc >= 68
    ensures HeaderOk(update, h, self, other, table, bc) <==> Header(update, h, self, other, table, bc)
  {
    SignatureBytes(h);
    assert Zeros(4) == [0, 0, 0, 0];
    hide GetU64, GetU32;
  }

  /** The front of the disk: the header in sector 1, a disk identifier, and the checksum over the table. */
  predicate FrontOk(update: CrcUpdate, reader: Reader, bc: u32) {
    && bc >= 68 && reader(1).Some? && Readable(reader, 2, 32)
    && Header(update, reader(1).value, 1, bc - 1, 2, bc) && !AllZero(reader(1).value[56..72])
    && GetU32(reader(1).value, 88) + RunningCrc(update, reader, 2, 32) == 0xFFFF_FFFF
  }

  /** The back of the disk: the mirrored header in the last sector, and the same table just before it. */
  predicate BackOk(update: CrcUpdate, reader: Reader, bc: u32)
    requires bc >= 68 && reader(1).Some?
  {
    && reader(bc - 1).Some? && Header(update, reader(bc - 1).value, bc - 1, 1, bc - 33, bc)
    && reader(bc - 1).value[56..72] == reader(1).value[56..72]
    && GetU32(reader(bc - 1).value, 88) == GetU32(reader(1).value, 88)
    && Readable(reader, bc - 33, 32) && TableMirrored(reader, bc)
  }

  /** Sectors 2 to 33 again, up to the sector before the last. */
  predicate TableMirrored(reader: Reader, bc: u32)
    requires bc >= 68
  {
    forall a :: 2 <= a < 34 ==> reader(a) == reader(a - 2 + (bc - 33))
  }

  lemma MirroredExactly(reader: Reader, bc: u32)
    requires bc >= 68
    ensures Mirrored(reader, bc - 33, 32) <==> TableMirrored(reader, bc)
  {
  }

  lemma FrontExactly(update: CrcUpdate, reader: Reader, bc: u32)
    ensures PrimaryOk(update, reader, bc) <==> FrontOk(update, reader, bc)
  {
    if bc >= 68 && reader(1).Some? { HeaderExactly(update, reader(1).value, 1, bc - 1, 2, bc); }
    hide HeaderOk, Header, GetU32, RunningCrc;
  }

  lemma {:induction false} MirrorCrc(update: CrcUpdate, reader: Reader, base: nat, n: nat)
    requires Readable(reader, 2, n) && Readable(reader, base, n) && Mirrored(reader, base, n)
    ensures RunningCrc(update, reader, base, n) == RunningCrc(update, reader, 2, n)
  {
    if n > 0 {
      MirrorCrc(update, reader, base, n - 1);
      assert reader(2 + (n - 1)) == reader(2 + (n - 1) - 2 + base);
    }
  }

  /** The second checksum over the table never decides: the mirrored sectors already have the first one's. */
  lemma BackExactly(update: CrcUpdate, reader: Reader, bc: u32)
    requires PrimaryOk(update, reader, bc)
    ensures BackupOk(update, reader, bc) <==> BackOk(update, reader, bc)
  {
    hide HeaderOk, Header, GetU32, RunningCrc, Mirrored, TableMirrored, Readable;
    MirroredExactly(reader, bc);
    if reader(bc - 1).Some? { HeaderExactly(update, reader(bc - 1).value, bc - 1, 1, bc - 33, bc); }
    if Readable(reader, bc - 33, 32) && Mirrored(reader, bc - 33, 32) { MirrorCrc(update, reader, bc - 33, 32); }
  }

  /** The sector belongs to the partition. */
  predicate Covers(p: Partition, x: nat) { p.lba <= x < p.lba + p.sectors }

  /** No sector belongs to both. */
  ghost predicate Apart(p: Partition, q: Partition) { forall x: nat :: !(Covers(p, x) && Covers(q, x)) }

  lemma DisjointExactly(p: Partition, q: Partition)
    requires p.sectors > 0 && q.sectors > 0
    ensures Disjoint(p, q) <==> Apart(p, q)
  {
    if !Disjoint(p, q) {
      var x := if p.lba < q.lba then q.lba else p.lba;
      assert Covers(p, x) && Covers(q, x);
    }
  }

  lemma AllApart(bc: u32, es: seq<Entry>, esp: Partition, boot: Partition, data: Partition)
    requires ListsAll(es, bc, esp, boot, data)
    ensures Disjoint(esp, boot) && Disjoint(esp, data) && Disjoint(boot, data) <==>
            Apart(esp, boot) && Apart(esp, data) && Apart(boot, data)
  {
    hide Lists, Disjoint, Apart;
    DisjointExactly(esp, boot);
    DisjointExactly(esp, data);
    DisjointExactly(boot, data);
  }

  /** Two of the list are the same. */
  predicate Repeats(gs: seq<seq<byte>>) { exists i, j :: 0 <= i < j < |gs| && gs[i] == gs[j] }

  lemma CollisionExactly(disk: seq<byte>, e: Partition, b: Partition, d: Partition)
    ensures GuidCollision(disk, e, b, d) <==> Repeats([disk, e.guid, b.guid, d.guid])
  {
    var gs := [disk, e.guid, b.guid, d.guid];
    assert gs[0] == disk && gs[1] == e.guid && gs[2] == b.guid && gs[3] == d.guid;
  }

  /** The disk in its own bytes: a header and a table of the three partitions at the front, the same mirrored at the
      back, the partitions apart from each other, and their identifiers all different, or not, as the reading asks. */
  lemma AcceptsExactly(update: CrcUpdate, reader: Reader, bs: u32, bc: u32, legacy: bool, id: Identity)
    ensures Accepts(update, reader, bs, bc, legacy, id) <==>
            && bs == 512 && FrontOk(update, reader, bc) && BackOk(update, reader, bc)
            && NothingElse(Table(reader)) && ListsAll(Table(reader), bc, id.esp, id.boot, id.data)
            && Apart(id.esp, id.boot) && Apart(id.esp, id.data) && Apart(id.boot, id.data)
            && id.diskSectors == bc && id.diskGuid == reader(1).value[56..72]
            && (legacy <==> Repeats([id.diskGuid, id.esp.guid, id.boot.guid, id.data.guid]))
  {
    FrontExactly(update, reader, bc);
    if FrontOk(update, reader, bc) {
      var guid, found := reader(1).value[56..72], Found(Some(id.esp), Some(id.boot), Some(id.data));
      BackExactly(update, reader, bc);
      TableRead(reader);
      CollisionExactly(guid, id.esp, id.boot, id.data);
      hide PrimaryOk, BackupOk, BackOk, Entries, Table, Scan, NothingElse, ListsAll, GuidCollision, Repeats, Disjoint,
           Apart;
      if Scan(Table(reader), FIRST_USABLE, LastUsable(bc)) == Some(found) {
        ScannedIsListed(Table(reader), bc, id.esp, id.boot, id.data);
        AllApart(bc, Table(reader), id.esp, id.boot, id.data);
      }
      if NothingElse(Table(reader)) && ListsAll(Table(reader), bc, id.esp, id.boot, id.data) {
        ScanListed(Table(reader), bc, id.esp, id.boot, id.data);
        AllApart(bc, Table(reader), id.esp, id.boot, id.data);
      }
    }
  }
}
