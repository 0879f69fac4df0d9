/** The loops that read the identity of a disk (src/boot/gpt_identity.c). */
module GptReader {
  import opened Words
  import opened GptIdentity
  import opened GptFormat

  lemma ScanAppend(entries: seq<Entry>, e: Entry, first: nat, last: nat)
    ensures Scan(entries + [e], first, last) ==
              (match Scan(entries, first, last) case None => None case Some(t) => AddEntry(t, e, first, last))
  {
    assert (entries + [e])[..|entries|] == entries;
  }

  /** The inner loop of identity_read_mode: the four entries of one sector. */
  method AddSector(s: Sector, first: nat, last: nat, t0: Found, ghost before: seq<Entry>) returns (r: Option<Found>)
    requires Scan(before, first, last) == Some(t0)
    ensures r == Scan(before + EntriesOf(s), first, last)
  {
    var t := t0;
    ghost var done := before;
    for i := 0 to 4
      invariant done == before + EntriesOf(s)[..i] && Scan(done, first, last) == Some(t)
    {
      var e := s[i * 128..(i + 1) * 128];
      assert e == EntriesOf(s)[i];
      var next := AddEntry(t, e, first, last);
      ScanAppend(done, e, first, last);
      done := done + [e];
      assert done == before + EntriesOf(s)[..i + 1];
      if next.None? {
        ScanPrefix(done, before + EntriesOf(s), first, last);
        return None;
      }
      t := next.value;
    }
    assert EntriesOf(s)[..4] == EntriesOf(s);
    return Some(t);
  }

  /** A scan that failed on a prefix fails on the whole. */
  lemma {:induction false} ScanPrefix(prefix: seq<Entry>, entries: seq<Entry>, first: nat, last: nat)
    requires prefix <= entries && Scan(prefix, first, last).None?
    ensures Scan(entries, first, last).None?
  {
    if |prefix| < |entries| {
      ScanPrefix(prefix, entries[..|entries| - 1], first, last);
    } else {
      assert prefix == entries;
    }
  }

  lemma {:induction false} EntriesPrefix(reader: Reader, m: nat, n: nat)
    requires m <= n && Readable(reader, 2, n)
    ensures Entries(reader, m) <= Entries(reader, n)
  {
    if m < n { EntriesPrefix(reader, m, n - 1); }
  }

  lemma NextSector(update: CrcUpdate, reader: Reader, n: nat)
    requires Readable(reader, 2, n) && reader(2 + n).Some?
    ensures Readable(reader, 2, n + 1)
    ensures Entries(reader, n + 1) == Entries(reader, n) + EntriesOf(reader(2 + n).value)
    ensures RunningCrc(update, reader, 2, n + 1) == update(RunningCrc(update, reader, 2, n), reader(2 + n).value)
  {
  }

  lemma NoSectors(update: CrcUpdate, reader: Reader, first: nat, last: nat)
    ensures Readable(reader, 2, 0) && Scan(Entries(reader, 0), first, last) == Some(Found(None, None, None))
    ensures RunningCrc(update, reader, 2, 0) == U32_MAX
  {
  }

  lemma UnreadableSector(reader: Reader, n: nat)
    requires n < ENTRY_SECTORS && reader(2 + n).None?
    ensures !Readable(reader, 2, ENTRY_SECTORS)
  {
  }

  /** The outer loop of identity_read_mode: read, checksum and scan the whole entry array. */
  method ScanPrimary(update: CrcUpdate, reader: Reader, first: nat, last: nat)
    returns (ok: bool, found: Found, crc: u32)
    ensures ok <==> Readable(reader, 2, ENTRY_SECTORS) && Scan(Entries(reader, ENTRY_SECTORS), first, last).Some?
    ensures ok ==> Scan(Entries(reader, ENTRY_SECTORS), first, last) == Some(found) &&
                   crc == RunningCrc(update, reader, 2, ENTRY_SECTORS)
  {
    found, crc := Found(None, None, None), U32_MAX;
    NoSectors(update, reader, first, last);
    hide Scan, Entries, EntriesOf, RunningCrc, Readable;
    var n := 0;
    while n < ENTRY_SECTORS
      invariant n <= ENTRY_SECTORS && Readable(reader, 2, n)
      invariant Scan(Entries(reader, n), first, last) == Some(found)
      invariant crc == RunningCrc(update, reader, 2, n)
    {
      var sector := reader(2 + n);
      if sector.None? {
        UnreadableSector(reader, n);
        return false, found, crc;
      }
      crc := update(crc, sector.value);
      NextSector(update, reader, n);
      var next := AddSector(sector.value, first, last, found, Entries(reader, n));
      if next.None? {
        if Readable(reader, 2, ENTRY_SECTORS) {
          EntriesPrefix(reader, n + 1, ENTRY_SECTORS);
          ScanPrefix(Entries(reader, n + 1), Entries(reader, ENTRY_SECTORS), first, last);
        }
        return false, found, crc;
      }
      found := next.value;
      n := n + 1;
    }
    return true, found, crc;
  }

  /** The loop of identity_backup: every backup sector readable and equal to its primary. */
  method CompareEntries(update: CrcUpdate, reader: Reader, base: nat) returns (ok: bool, crc: u32)
    ensures ok <==> Readable(reader, base, ENTRY_SECTORS) && Mirrored(reader, base, ENTRY_SECTORS)
    ensures ok ==> crc == RunningCrc(update, reader, base, ENTRY_SECTORS)
  {
    crc := U32_MAX;
    var n := 0;
    while n < ENTRY_SECTORS
      invariant n <= ENTRY_SECTORS && Readable(reader, base, n) && Mirrored(reader, base, n)
      invariant crc == RunningCrc(update, reader, base, n)
    {
      var sector := reader(base + n);
      if sector.None? || reader(2 + n) != sector { return false, crc; }
      crc := update(crc, sector.value);
      n := n + 1;
    }
    return true, crc;
  }

  /** identity_backup. */
  method CheckBackup(update: CrcUpdate, reader: Reader, blockCount: u32) returns (ok: bool)
    requires PrimaryOk(update, reader, blockCount)
    ensures ok <==> BackupOk(update, reader, blockCount)
  {
    hide HeaderOk, GetU32, Mirrored, Readable, RunningCrc;
    var last, base := blockCount - 1, blockCount - 1 - ENTRY_SECTORS;
    var header := reader(last);
    if header.None? || !HeaderOk(update, header.value, last, 1, base, blockCount) ||
       header.value[56..72] != reader(1).value[56..72] || GetU32(header.value, 88) != GetU32(reader(1).value, 88)
    {
      return false;
    }
    var crc;
    ok, crc := CompareEntries(update, reader, base);
    ok := ok && Not32(crc) == GetU32(reader(1).value, 88);
  }

  /** identity_read_mode: the identity is returned exactly when the disk has it under this reading. */
  method ReadIdentity(update: CrcUpdate, reader: Reader, blockSize: u32, blockCount: u32, legacy: bool)
    returns (r: Option<Identity>)
    ensures r.Some? ==> Accepts(update, reader, blockSize, blockCount, legacy, r.value)
    ensures r.None? ==> forall id :: !Accepts(update, reader, blockSize, blockCount, legacy, id)
    ensures r.Some? ==>
              && FrontOk(update, reader, blockCount) && BackOk(update, reader, blockCount)
              && NothingElse(Table(reader))
              && ListsAll(Table(reader), blockCount, r.value.esp, r.value.boot, r.value.data)
              && r.value.diskSectors == blockCount && r.value.diskGuid == reader(1).value[56..72]
  {
    if blockSize != 512 || blockCount < 68 { return None; }
    var header := reader(1);
    if header.None? || !HeaderOk(update, header.value, 1, blockCount - 1, 2, blockCount) ||
       AllZero(header.value[56..72])
    {
      return None;
    }
    var ok, found, crc := ScanPrimary(update, reader, FIRST_USABLE, LastUsable(blockCount));
    if !ok || Not32(crc) != GetU32(header.value, 88) || found.esp.None? || found.boot.None? || found.data.None? {
      return None;
    }
    var guid := header.value[56..72];
    var id := Identity(blockCount, guid, found.esp.value, found.boot.value, found.data.value);
    var collision := GuidCollision(guid, id.esp, id.boot, id.data);
    if (legacy && !collision) || (!legacy && collision) ||
       !Disjoint(id.esp, id.boot) || !Disjoint(id.esp, id.data) || !Disjoint(id.boot, id.data)
    {
      return None;
    }
    var mirrored := CheckBackup(update, reader, blockCount);
    if !mirrored { return None; }
    AcceptsExactly(update, reader, blockSize, blockCount, legacy, id);
    return Some(id);
  }
}
