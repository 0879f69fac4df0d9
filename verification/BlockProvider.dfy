/** The leased block provider (src/boot/boot_slot_block_provider.c): registrations, leases and confined writes. */
module BlockProvider {
  import opened Words
  import opened GptIdentity
  import opened GptFormat
  import opened GptReader

  const OK := 0
  const ERR := -1
  const SECTOR_SIZE: u32 := 512

  type Disk = d: seq<Sector> | |d| <= U32_MAX witness []

  function ReaderOf(d: Disk): Reader {
    (a: nat) => if a < |d| then Some(d[a]) else None
  }

  predicate HasIdentity(update: CrcUpdate, d: Disk, id: Identity) {
    Accepts(update, ReaderOf(d), SECTOR_SIZE, |d|, false, id)
  }

  /** The identity of a disk in its own bytes: strict, in sectors of 512 bytes, over the whole disk. */
  lemma IdentityExactly(update: CrcUpdate, d: Disk, id: Identity)
    ensures
      var r: Reader := (a: nat) => if a < |d| then Some(d[a]) else None;
      HasIdentity(update, d, id) <==>
      && FrontOk(update, r, |d|) && BackOk(update, r, |d|)
      && NothingElse(Table(r)) && ListsAll(Table(r), |d|, id.esp, id.boot, id.data)
      && Apart(id.esp, id.boot) && Apart(id.esp, id.data) && Apart(id.boot, id.data)
      && id.diskSectors == |d| && id.diskGuid == d[1][56..72]
      && !Repeats([id.diskGuid, id.esp.guid, id.boot.guid, id.data.guid])
  {
    AcceptsExactly(update, ReaderOf(d), 512, |d|, false, id);
    hide Accepts, FrontOk, BackOk, NothingElse, ListsAll, Table, Repeats, Apart;
  }

  // ----- a write inside the usable area leaves the identity alone -----

  predicate SameTables(d: Disk, d': Disk) {
    |d| == |d'| && forall a :: 0 <= a < |d| && (a < 34 || a >= |d| - 33) ==> d[a] == d'[a]
  }

  lemma {:induction false} SameEntries(d: Disk, d': Disk, n: nat)
    requires |d| >= 68 && SameTables(d, d') && n <= 32
    ensures Readable(ReaderOf(d), 2, n) && Readable(ReaderOf(d'), 2, n)
    ensures Entries(ReaderOf(d), n) == Entries(ReaderOf(d'), n)
  {
    if n > 0 {
      SameEntries(d, d', n - 1);
      assert d[2 + (n - 1)] == d'[2 + (n - 1)];
    }
  }

  lemma {:induction false} SameCrc(update: CrcUpdate, d: Disk, d': Disk, base: nat, n: nat)
    requires |d| >= 68 && SameTables(d, d') && n <= 32 && (base == 2 || base == |d| - 33)
    ensures Readable(ReaderOf(d), base, n) && Readable(ReaderOf(d'), base, n)
    ensures RunningCrc(update, ReaderOf(d), base, n) == RunningCrc(update, ReaderOf(d'), base, n)
  {
    if n > 0 {
      SameCrc(update, d, d', base, n - 1);
      assert d[base + (n - 1)] == d'[base + (n - 1)];
    }
  }

  lemma SamePrimary(update: CrcUpdate, d: Disk, d': Disk)
    requires PrimaryOk(update, ReaderOf(d), |d|) && SameTables(d, d')
    ensures PrimaryOk(update, ReaderOf(d'), |d|)
  {
    SameCrc(update, d, d', 2, 32);
    hide HeaderOk, RunningCrc, GetU32, Readable;
    assert d[1] == d'[1];
  }

  lemma SameMirror(d: Disk, d': Disk)
    requires |d| >= 68 && SameTables(d, d') && Mirrored(ReaderOf(d), |d| - 33, 32)
    ensures Mirrored(ReaderOf(d'), |d| - 33, 32)
  {
    var base := |d| - 33;
    forall a | 2 <= a < 34
      ensures ReaderOf(d')(a) == ReaderOf(d')(a - 2 + base)
    {
      assert d[a] == d'[a] && d[a - 2 + base] == d'[a - 2 + base];
      assert ReaderOf(d)(a) == ReaderOf(d)(a - 2 + base);
    }
  }

  lemma PrimaryIsReadable(update: CrcUpdate, r: Reader, blockCount: u32)
    requires PrimaryOk(update, r, blockCount)
    ensures blockCount >= 68 && r(1).Some?
  {
  }

  lemma SameRead(d: Disk, d': Disk, a: nat)
    requires SameTables(d, d') && a < |d| && (a < 34 || a >= |d| - 33)
    ensures ReaderOf(d)(a).Some? && ReaderOf(d)(a) == ReaderOf(d')(a)
  {
  }

  lemma SameBackup(update: CrcUpdate, d: Disk, d': Disk)
    requires PrimaryOk(update, ReaderOf(d), |d|) && PrimaryOk(update, ReaderOf(d'), |d|) && SameTables(d, d')
    requires BackupOk(update, ReaderOf(d), |d|)
    ensures BackupOk(update, ReaderOf(d'), |d|)
  {
    hide HeaderOk, RunningCrc, GetU32, Readable, Mirrored, SameTables, ReaderOf, PrimaryOk;
    PrimaryIsReadable(update, ReaderOf(d), |d|);
    SameRead(d, d', 1);
    SameRead(d, d', |d| - 1);
    SameCrc(update, d, d', |d| - 33, 32);
    SameMirror(d, d');
  }

  lemma SameTablesSameIdentity(update: CrcUpdate, d: Disk, d': Disk, id: Identity)
    requires HasIdentity(update, d, id) && SameTables(d, d')
    ensures HasIdentity(update, d', id)
  {
    SamePrimary(update, d, d');
    SameBackup(update, d, d');
    SameEntries(d, d', 32);
    hide Scan, Entries, GuidCollision, Disjoint, PrimaryOk, BackupOk, Readable;
    assert d[1] == d'[1];
  }

  lemma IdentityRanges(update: CrcUpdate, d: Disk, id: Identity)
    requires HasIdentity(update, d, id)
    ensures InRange(id.boot, |d|) && Disjoint(id.esp, id.boot) && Disjoint(id.boot, id.data)
  {
    AcceptedIdentity(update, ReaderOf(d), SECTOR_SIZE, |d|, false, id);
  }

  lemma TablesKept(d: Disk, a: nat, sector: Sector)
    requires 34 <= a < |d| - 33
    ensures SameTables(d, d[a := sector])
  {
  }

  /** A sector of BOOT belongs to no other partition and to neither copy of the partition table, so overwriting it
      changes neither of them, nor the identity of the disk. */
  lemma BootWriteConfined(update: CrcUpdate, d: Disk, id: Identity, a: nat, sector: Sector)
    requires HasIdentity(update, d, id) && Covers(id.boot, a)
    ensures a < |d| && !Covers(id.esp, a) && !Covers(id.data, a) && 34 <= a < |d| - 33
    ensures HasIdentity(update, d[a := sector], id)
  {
    hide HasIdentity, SameTables;
    IdentityRanges(update, d, id);
    TablesKept(d, a, sector);
    SameTablesSameIdentity(update, d, d[a := sector], id);
  }

  // ----- lease epochs over a run -----

  /** The lease in force (0 when there is none) and the number the next lease will get. */
  datatype Epochs = Epochs(current: u64, next: u64)

  function Inc64(x: u64): u64 { if x == U64_MAX then 0 else x + 1 }

  predicate EpochStep(e: Epochs, e': Epochs) {
    || e' == e
    || (e.current == 0 && e.next != 0 && (e' == Epochs(e.next, Inc64(e.next)) || e' == Epochs(0, Inc64(e.next))))
    || e' == e.(current := 0)
  }

  /** A number that is not in force and will never be given out again; the counter stops for good at its wrap to 0. */
  predicate Dead(e: Epochs, epoch: u64) {
    epoch != e.current && (epoch == 0 || e.next == 0 || epoch < e.next)
  }

  predicate EpochRun(run: seq<Epochs>) {
    forall i :: 0 <= i < |run| - 1 ==> EpochStep(run[i], run[i + 1])
  }

  /** A context captured from a lease that is over never becomes valid again, in any run. */
  lemma {:induction false} DeadForever(run: seq<Epochs>, epoch: u64, n: nat)
    requires EpochRun(run) && n < |run| && epoch != 0 && Dead(run[0], epoch)
    ensures Dead(run[n], epoch)
  {
    if n > 0 {
      DeadForever(run, epoch, n - 1);
      assert EpochStep(run[n - 1], run[n]);
    }
  }

  /** capyos_gpt_identity_read on the provider's disk: the one identity the disk has, if it has one. */
  method ReadDisk(update: CrcUpdate, d: Disk) returns (r: Option<Identity>)
    ensures r.Some? ==> HasIdentity(update, d, r.value) && r.value.diskSectors == |d|
    ensures forall id :: HasIdentity(update, d, id) ==> r == Some(id)
  {
    hide PrimaryOk, BackupOk, Scan, Entries, Readable;
    r := ReadIdentity(update, ReaderOf(d), SECTOR_SIZE, |d|, false);
    if r.Some? {
      forall id | HasIdentity(update, d, id) ensures id == r.value {
        IdentityUnique(update, ReaderOf(d), SECTOR_SIZE, |d|, false, false, id, r.value);
      }
    }
  }

  // ----- the provider -----

  /** What the installer says the disk looks like. */
  datatype Binding = Binding(esp: Partition, boot: Partition, data: Partition, diskGuid: seq<byte>)

  /** The identity a binding claims for a disk. */
  function Bound(b: Binding, sectors: u32): Identity { Identity(sectors, b.diskGuid, b.esp, b.boot, b.data) }

  datatype Registration = Registration(owner: int, identity: Identity, epoch: u64)

  datatype Lease = Lease(bootLba: u32, bootSectors: u32, registrationEpoch: u64, epoch: u64, active: bool)

  const NO_LEASE := Lease(0, 0, 0, 0, false)

  class Provider {
    const update: CrcUpdate
    var disk: Disk
    var registration: Option<Registration>
    var lease: Lease
    var leasedBy: Option<(int, int)>   // provider and store
    var leaseEpoch: u64
    var nextRegistration: u64
    var nextLease: u64
    var tokens: map<int, u64>          // the opaque epoch each provider object holds
    var storeTokens: map<int, u64>     // the opaque epoch each store object holds

    ghost function LeaseEpochs(): Epochs
      reads this
    {
      Epochs(leaseEpoch, nextLease)
    }

    ghost predicate Valid()
      reads this
    {
      && (registration.Some? ==>
            && HasIdentity(update, disk, registration.value.identity) && registration.value.epoch != 0
            && registration.value.owner in tokens && tokens[registration.value.owner] == registration.value.epoch)
      && (lease.active ==>
            && leaseEpoch == lease.epoch != 0
            && registration.Some? && lease.registrationEpoch == registration.value.epoch
            && lease.bootLba == registration.value.identity.boot.lba
            && lease.bootSectors == registration.value.identity.boot.sectors)
      && (leaseEpoch != 0 ==> lease.active)
      && (leasedBy.None? ==> leaseEpoch == 0)
      && (leasedBy.Some? ==> registration.Some? && registration.value.owner == leasedBy.value.0)
      && (lease.active ==> leasedBy.value.1 in storeTokens && storeTokens[leasedBy.value.1] == leaseEpoch)
      && (lease.active ==> nextLease == 0 || leaseEpoch < nextLease)
    }

    constructor (update: CrcUpdate, disk: Disk)
      ensures Valid() && this.disk == disk && registration.None? && leaseEpoch == 0 && nextLease == 1
    {
      this.update, this.disk := update, disk;
      registration, lease, leasedBy := None, NO_LEASE, None;
      leaseEpoch, nextRegistration, nextLease := 0, 1, 1;
      tokens, storeTokens := map[], map[];
    }

    /** provider_init_locked: a registration exists only for a disk whose identity is what the installer bound. */
    method Register(provider: int, binding: Binding) returns (rc: int, epoch: u64)
      requires Valid()
      modifies this
      ensures Valid() && disk == old(disk) && EpochStep(old(LeaseEpochs()), LeaseEpochs())
      ensures rc == OK ==> registration.Some? && epoch == registration.value.epoch == old(nextRegistration) &&
                           registration.value.identity.boot == binding.boot && binding.boot.sectors >= 6
      ensures rc != OK ==> epoch == 0 && registration == old(registration)
      ensures rc == OK <==>
              && old(leasedBy).None? && old(registration).None? && old(nextRegistration) != 0
              && binding.esp.sectors != 0 && binding.data.sectors != 0 && binding.boot.sectors >= 6
              && HasIdentity(update, disk, Bound(binding, |disk|))
      ensures rc == OK ==> registration.value == Registration(provider, Bound(binding, |disk|), epoch)
      ensures rc == OK ==> Holds(provider, epoch)
    {
      hide HasIdentity;
      if leasedBy.Some? || registration.Some? || nextRegistration == 0 { return ERR, 0; }
      tokens := tokens[provider := 0];
      if binding.esp.sectors == 0 || binding.boot.sectors == 0 || binding.data.sectors == 0 { return ERR, 0; }
      var read := ReadDisk(update, disk);
      if read.None? { return ERR, 0; }
      var id := read.value;
      if id.esp != binding.esp || id.boot != binding.boot || id.data != binding.data ||
         id.diskGuid != binding.diskGuid || id.boot.sectors < 6
      {
        return ERR, 0;
      }
      registration := Some(Registration(provider, id, nextRegistration));
      nextRegistration := Inc64(nextRegistration);
      tokens := tokens[provider := registration.value.epoch];
      return OK, registration.value.epoch;
    }

    /** The provider object holds the registration in force, under that number. */
    predicate Holds(provider: int, epoch: u64)
      reads this
    {
      && epoch != 0 && registration.Some? && registration.value.owner == provider
      && registration.value.epoch == epoch && provider in tokens && tokens[provider] == epoch
    }

    /** The opaque numbers in the objects never decide on their own: a provider holds the registration exactly if it is
        its owner and gives its number, a store holds the lease exactly if it is its holder and gives its number, and a
        context word is active exactly if it is the number of the lease in force. */
    lemma HoldersExactly(provider: int, epoch: u64, store: int, leaseNo: u64)
      requires Valid()
      ensures Holds(provider, epoch) <==>
              registration.Some? && registration.value.owner == provider && registration.value.epoch == epoch
      ensures Leases(provider, epoch, store, leaseNo) <==>
              leaseNo != 0 && leaseEpoch == leaseNo && leasedBy == Some((provider, store)) &&
              registration.value.epoch == epoch
      ensures ActiveLease(leaseNo) <==> leaseNo != 0 && leaseEpoch == leaseNo
    {
      hide HasIdentity;
    }

    /** boot_slot_block_provider_unregister. */
    method Unregister(provider: int, epoch: u64) returns (rc: int)
      requires Valid()
      modifies this
      ensures Valid() && disk == old(disk) && EpochStep(old(LeaseEpochs()), LeaseEpochs())
      ensures rc == OK <==> old(Holds(provider, epoch)) && old(leasedBy).None?
      ensures registration == if rc == OK then None else old(registration)
    {
      hide HasIdentity;
      if leasedBy.Some? || !Holds(provider, epoch) { return ERR; }
      registration := None;
      tokens := tokens[provider := 0];
      return OK;
    }

    /** boot_slot_block_provider_open_store; `bound` tells whether the slot manager is configured or already owned,
        `opens` whether the store accepts the lease. */
    method OpenStore(provider: int, epoch: u64, store: int, bound: bool, opens: bool) returns (rc: int, leaseNo: u64)
      requires Valid()
      modifies this
      ensures Valid() && disk == old(disk) && registration == old(registration)
      ensures EpochStep(old(LeaseEpochs()), LeaseEpochs())
      ensures rc == OK ==> lease.active && leaseNo == leaseEpoch == old(nextLease) != 0 && !bound
      ensures rc != OK ==> leaseNo == 0 && leaseEpoch == old(leaseEpoch)
      ensures rc == OK <==>
              old(leasedBy).None? && !bound && old(nextLease) != 0 && old(Holds(provider, epoch)) && opens
      ensures rc == OK ==> Leases(provider, epoch, store, leaseNo)
    {
      hide HasIdentity;
      var number := nextLease;
      if leasedBy.Some? || bound || number == 0 { return ERR, 0; }
      if !Holds(provider, epoch) { return ERR, 0; }
      var read := ReadDisk(update, disk);
      if read.None? || read.value != registration.value.identity { return ERR, 0; }
      nextLease := Inc64(nextLease);
      if !opens {
        lease := NO_LEASE;
        storeTokens := storeTokens[store := 0];
        return ERR, 0;
      }
      var boot := registration.value.identity.boot;
      lease := Lease(boot.lba, boot.sectors, epoch, number, true);
      leasedBy := Some((provider, store));
      storeTokens := storeTokens[store := number];
      leaseEpoch := number;
      return OK, number;
    }

    /** The store object holds the lease in force, under that number, through that provider. */
    predicate Leases(provider: int, epoch: u64, store: int, leaseNo: u64)
      reads this
    {
      && Holds(provider, epoch) && leaseNo != 0 && leasedBy == Some((provider, store)) && leaseEpoch == leaseNo
      && lease.active && lease.registrationEpoch == epoch && lease.epoch == leaseNo
      && store in storeTokens && storeTokens[store] == leaseNo
    }

    /** boot_slot_block_provider_close_store; `claimed` is bsp.stage_claimed, `revokes` the store's answer. The lease is
        over as soon as its holder asks, even if the store then does not let go. */
    method CloseStore(provider: int, epoch: u64, store: int, leaseNo: u64, claimed: bool, revokes: bool)
      returns (rc: int)
      requires Valid()
      modifies this
      ensures Valid() && disk == old(disk) && registration == old(registration)
      ensures EpochStep(old(LeaseEpochs()), LeaseEpochs())
      ensures rc == OK <==> old(Leases(provider, epoch, store, leaseNo)) && !claimed && revokes
      ensures old(Leases(provider, epoch, store, leaseNo)) && !claimed ==> Dead(LeaseEpochs(), leaseNo)
      ensures !old(Leases(provider, epoch, store, leaseNo)) || claimed ==>
                LeaseEpochs() == old(LeaseEpochs()) && lease == old(lease) && leasedBy == old(leasedBy)
      ensures rc == OK ==> leasedBy.None?
    {
      hide HasIdentity;
      if !Leases(provider, epoch, store, leaseNo) || claimed { return ERR; }
      lease := lease.(active := false);
      leaseEpoch := 0;
      if !revokes { return ERR; }
      leasedBy := None;
      lease := NO_LEASE;
      storeTokens := storeTokens[store := 0];
      return OK;
    }

    /** provider_active_lease: the context word names the lease in force. */
    predicate ActiveLease(ctx: u64)
      reads this
    {
      && ctx != 0 && ctx == leaseEpoch && lease.active && lease.epoch == ctx
      && registration.Some? && lease.registrationEpoch == registration.value.epoch
    }

    /** provider_store_write: a write that succeeds used the lease in force and changed one sector, inside BOOT. */
    method StoreWrite(ctx: u64, lba: u32, sector: Sector) returns (rc: int)
      requires Valid()
      modifies this`disk
      ensures Valid()
      ensures rc == OK <==> ctx != 0 && ctx == leaseEpoch && lba < lease.bootSectors
      ensures rc == OK ==>
                && registration.Some?
                && var id := registration.value.identity;
                   var a := id.boot.lba + lba;
                   && id.boot.lba <= a < id.boot.lba + id.boot.sectors && 34 <= a < |disk| - 33
                   && !Covers(id.esp, a) && !Covers(id.data, a)
                   && a < |old(disk)| && disk == old(disk)[a := sector]
      ensures rc != OK ==> disk == old(disk)
      ensures Dead(LeaseEpochs(), ctx) ==> rc != OK
    {
      hide HasIdentity;
      if ActiveLease(ctx) && lba < lease.bootSectors {
        BootWriteConfined(update, disk, registration.value.identity, lease.bootLba + lba, sector);
      }
      if !ActiveLease(ctx) || lba >= lease.bootSectors || lease.bootLba > U32_MAX - lba { return ERR; }
      var a := lease.bootLba + lba;
      disk := disk[a := sector];
      return OK;
    }
  }
}
