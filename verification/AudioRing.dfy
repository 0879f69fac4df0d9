/** The cyclic DMA ring: device progress, poll acceptance, and which fragments a refill may touch. */
module AudioRing {
  import opened Words

  const FRAGMENT := 4096
  const RING := 65536
  const FRAGMENTS := 16
  const TICKS_PER_BYTE := 125        // 24,000,000 ticks per second, 192,000 bytes per second
  const POLL_GAP := 6_000_000        // 250 ms
  const STALL := 24_000_000          // 1 s
  /** Bytes the device may have consumed when the start's status is read, for the first poll to be unambiguous. */
  const START_LEAD := 17536

  /** The device's true progress: bytes consumed since the ring started, clock ticks, and whether a position at the
      end of the ring has already been reported as zero. */
  datatype Device = Device(total: nat, ticks: nat, wrapped: bool)

  /** The position register: the end of the ring may be shown as the ring size until it wraps to zero. */
  function Position(total: nat, wrapped: bool): nat {
    if total > 0 && total % RING == 0 && !wrapped then RING else total % RING
  }

  function Clock(d: Device): u32 { d.ticks % 0x1_0000_0000 }

  /** Between two readings less than 2^32 ticks apart the device advances at no more than 192,000 bytes per second. */
  predicate Advances(d: Device, d': Device) {
    && d.total <= d'.total && d.ticks <= d'.ticks < d.ticks + 0x1_0000_0000
    && (d'.total - d.total) * TICKS_PER_BYTE <= d'.ticks - d.ticks
    && (d'.total == d.total && d.wrapped ==> d'.wrapped)
  }

  /** The unsigned 32-bit difference of two clock readings. */
  function ClockDelta(now: u32, before: u32): nat {
    if now >= before then now - before else now + 0x1_0000_0000 - before
  }

  /** hda_ring_advance (src/drivers/audio/hda_core.c). */
  function RingAdvance(previous: nat, position: nat): Option<nat> {
    if previous > RING || position > RING then None
    else Some(if position >= previous then position - previous else RING - previous + position)
  }

  lemma ClockDeltaExact(d: Device, d': Device)
    requires Advances(d, d')
    ensures ClockDelta(Clock(d'), Clock(d)) == d'.ticks - d.ticks
  {
  }

  /** Positions are residues, but less than a ring apart they determine the true advance. */
  lemma RingAdvanceExact(total: nat, wrapped: bool, total': nat, wrapped': bool)
    requires total <= total' < total + RING
    requires total == total' && wrapped ==> wrapped'
    ensures RingAdvance(Position(total, wrapped), Position(total', wrapped')) == Some(total' - total)
  {
  }

  /** An accepted poll, less than 250 ms after the previous reading, sees fewer than 48,000 new bytes. */
  lemma AcceptedAdvance(d: Device, d': Device)
    requires Advances(d, d') && ClockDelta(Clock(d'), Clock(d)) < POLL_GAP
    ensures d'.total - d.total < 48000
  {
    ClockDeltaExact(d, d');
  }

  /** The first poll of a ring whose device was already `lead` bytes ahead reads the true progress. */
  ghost predicate FirstPollExact(lead: nat) {
    forall d: Device, d': Device :: d.total == lead && Advances(d, d') && ClockDelta(Clock(d'), Clock(d)) < POLL_GAP ==>
      RingAdvance(0, Position(d'.total, d'.wrapped)) == Some(d'.total)
  }

  /** The start-up bound is tight: the first accepted poll is always right exactly if the device was no further than
      START_LEAD bytes when the start's status was read. */
  lemma StartLeadIsTight(lead: nat)
    ensures FirstPollExact(lead) <==> lead <= START_LEAD
  {
    if lead <= START_LEAD {
      forall d: Device, d': Device | d.total == lead && Advances(d, d') && ClockDelta(Clock(d'), Clock(d)) < POLL_GAP
        ensures RingAdvance(0, Position(d'.total, d'.wrapped)) == Some(d'.total)
      {
        AcceptedAdvance(d, d');
        RingAdvanceExact(0, false, d'.total, d'.wrapped);
      }
    } else {
      var gain := if lead >= RING then 0 else RING - lead;
      var d, d' := Device(lead, 0, true), Device(lead + gain, gain * TICKS_PER_BYTE, true);
      ClockDeltaExact(d, d');
      assert RingAdvance(0, Position(d'.total, d'.wrapped)).value < RING <= d'.total;
    }
  }

  /** No fragment refilled after a poll holds a byte the device has still to play before it reaches what was queued:
      the device may be anywhere from the polled position up to the end of the queue. */
  lemma RefillAvoidsDma(refilled: nat, played: nat, fragment: nat, at: nat)
    requires refilled <= fragment < played / FRAGMENT
    requires played <= at < RING + FRAGMENT * refilled
    ensures at / FRAGMENT % FRAGMENTS != fragment % FRAGMENTS
  {
  }

  /** With every retired fragment refilled the queue is more than 15 fragments ahead of the device. */
  lemma QueueAhead(played: nat)
    ensures 61440 < RING + FRAGMENT * (played / FRAGMENT) - played <= RING
  {
  }
}
