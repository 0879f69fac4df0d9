/** The streaming engine (src/audio/audio_service.c): source table, ring counters, polling and PCM ownership. */
module AudioEngine {
  import opened Words
  import opened AudioMixer
  import opened AudioRing
  import opened AudioStream

  const NO_SOURCE := MAX_SOURCES

  /** The ring counters and the last reading. */
  datatype Ring = Ring(
    played: nat, queued: nat, refilled: nat, drainFrames: nat, lastPosition: nat, lastClock: u32, lastProgress: u32)

  /** The status fields that describe the primary source. */
  datatype Status = Status(
    playing: bool, activeApp: u32, sourceFrames: nat, playedFrames: nat, completed: bool, playbackId: nat,
    lastError: int)

  /** What the output backend answers when asked for its status. */
  datatype Reading = Reading(ok: bool, playing: bool, error: bool, bufferBytes: nat, position: nat, clock: u32)

  /** A decoded source still owned by the request that decoded it. */
  datatype Prepared = Prepared(pcm: Option<nat>, samples: seq<i16>, frames: nat, channels: nat, error: int)

  predicate Truthful(r: Reading, d: Device) {
    r.position == Position(d.total, d.wrapped) && r.clock == Clock(d)
  }

  // ----- exactly-once delivery -----

  /** Frames of a source that are in the ring once `queued` bytes are. */
  function Mixed(frames: nat, start: nat, queued: nat): nat {
    if queued <= start then 0 else Min(frames, (queued - start) / FRAME_BYTES)
  }

  /** Frames of a source the device has played (audio_service_source_played). */
  function PlayedFrames(s: Source, played: nat): nat { Mixed(s.frames, s.start, played) }

  /** The cursor is exactly what the queue position says: frame k went into the ring once, at byte start + 4k. */
  predicate Exact(s: Source, queued: nat) {
    s.used ==>
      && s.start <= queued && s.start % FRAGMENT == 0
      && s.cursor == Mixed(s.frames, s.start, queued)
      && (s.completed ==> s.cursor == s.frames)
  }

  predicate AllExact(ss: seq<Source>, queued: nat) {
    forall i :: 0 <= i < |ss| ==> Exact(ss[i], queued)
  }

  lemma FillKeepsExact(ss: seq<Source>, queued: nat)
    requires AllExact(ss, queued) && queued % FRAGMENT == 0
    ensures AllExact(Filled(ss), queued + FRAGMENT)
  {
  }

  // ----- the ring invariant -----

  /** Every retired fragment is refilled, and the last reading accounts for all the device has played; right after a
      start the device may be a little ahead of the first reading. */
  predicate RingOk(r: Ring, d: Device) {
    && r.refilled == r.played / FRAGMENT && r.queued == RING + FRAGMENT * r.refilled
    && r.lastClock == Clock(d)
    && ((r.played == d.total && r.lastPosition == Position(r.played, d.wrapped))
        || (r.played == 0 && r.lastPosition == 0 && d.total <= START_LEAD))
  }

  /** A poll that passes the gap guard recovers the device's true progress from the position register, and the device
      has not caught up with the queue. */
  lemma PollRecoversProgress(r: Ring, d: Device, d': Device, reading: Reading)
    requires RingOk(r, d) && Advances(d, d') && Truthful(reading, d')
    requires ClockDelta(reading.clock, r.lastClock) < POLL_GAP
    ensures r.played <= d'.total < r.queued && d'.total - r.played < RING
    ensures RingAdvance(r.lastPosition, reading.position) == Some(d'.total - r.played)
  {
    AcceptedAdvance(d, d');
    QueueAhead(r.played);
    if r.played == d.total && r.lastPosition == Position(r.played, d.wrapped) {
      RingAdvanceExact(r.played, d.wrapped, d'.total, d'.wrapped);
    } else {
      RingAdvanceExact(0, false, d'.total, d'.wrapped);
    }
  }

  // ----- completion -----

  /** The completion test of audio_engine_poll_irq. */
  predicate Finished(s: Source, played: nat, drainFrames: nat) {
    played >= s.start + (s.frames + drainFrames) * FRAME_BYTES
  }

  function Marked(s: Source, played: nat, drainFrames: nat): Source {
    if s.used && !s.completed && Finished(s, played, drainFrames) then s.(completed := true) else s
  }

  function MarkedAll(ss: seq<Source>, played: nat, drainFrames: nat): (r: seq<Source>)
    ensures |r| == |ss| && forall i :: 0 <= i < |ss| ==> r[i] == Marked(ss[i], played, drainFrames)
    ensures SourcesOk(ss) ==> SourcesOk(r)
  {
    seq(|ss|, i requires 0 <= i < |ss| => Marked(ss[i], played, drainFrames))
  }

  /** A source is marked complete only after all its frames were mixed. */
  lemma MarkKeepsExact(ss: seq<Source>, played: nat, drainFrames: nat, queued: nat)
    requires AllExact(ss, queued) && played <= queued
    ensures AllExact(MarkedAll(ss, played, drainFrames), queued)
  {
  }

  /** Progress reported for a source never exceeds what was mixed into the ring. */
  lemma PlayedNeverExceedsMixed(s: Source, played: nat, queued: nat)
    requires s.used && Exact(s, queued) && played <= queued
    ensures PlayedFrames(s, played) <= s.cursor <= s.frames
  {
  }

  // ----- the primary source -----

  /** The status describes that source, as the primary one. */
  predicate Shows(status: Status, s: Source, played: nat) {
    && status.activeApp == s.appId && status.sourceFrames == s.frames && status.playbackId == s.playbackId
    && status.playedFrames == PlayedFrames(s, played) && status.playing && !status.completed
  }

  /** The live source with the greatest playback id, or none if every source has completed. */
  predicate IsLatest(ss: seq<Source>, best: nat) {
    if best < |ss| then ss[best].used && !ss[best].completed && IdsBelow(ss, ss[best].playbackId) else AllCompleted(ss)
  }

  // ----- the verdict of a poll -----

  predicate AllCompleted(ss: seq<Source>) { forall i :: 0 <= i < |ss| && ss[i].used ==> ss[i].completed }

  /** The ring after a reading is taken in, or None when it is refused: another buffer size, a gap of 250 ms or more, a
      position outside the ring, or no progress for a second. */
  function TakenIn(r: Ring, reading: Reading): Option<Ring> {
    if reading.bufferBytes != RING || ClockDelta(reading.clock, r.lastClock) >= POLL_GAP then None
    else
      match RingAdvance(r.lastPosition, reading.position)
      case None => None
      case Some(advance) =>
        var progress := if advance > 0 then reading.clock else r.lastProgress;
        if ClockDelta(reading.clock, progress) >= STALL then None
        else Some(r.(played := r.played + advance, lastPosition := reading.position, lastClock := reading.clock,
                     lastProgress := progress))
  }

  /** The backend takes every fragment the device has retired. */
  ghost predicate Refills(refilled: nat, retired: nat, refillOk: nat -> bool) {
    forall f :: refilled <= f < retired ==> refillOk(f % FRAGMENTS)
  }

  /** What audio_engine_poll_irq concludes: 0 to go on, 1 when every source has completed, -4 for a device fault, -5
      for a reading that is refused or a refill that fails. */
  ghost function PollResult(ss: seq<Source>, r: Ring, reading: Reading, refillOk: nat -> bool): int {
    if !reading.ok || !reading.playing || reading.error then -4
    else
      match TakenIn(r, reading)
      case None => -5
      case Some(r') =>
        if AllCompleted(MarkedAll(ss, r'.played, r'.drainFrames)) then 1
        else if Refills(r.refilled, r'.played / FRAGMENT, refillOk) then 0
        else -5
  }

  /** The bytes a position has moved on since the last one, in a ring of 65536. */
  function MovedOn(last: nat, position: nat): int {
    if position >= last then position - last else 65536 - last + position
  }

  /** The verdict in numbers: a reading is refused for another buffer than 64 KiB, after 250 ms or more, for a position
      outside the ring, or after a second without progress; a source is complete once its last frame and the drain after
      it are played; and every fragment of 4096 bytes that was played must be taken back. */
  lemma PollExactly(ss: seq<Source>, r: Ring, reading: Reading, refillOk: nat -> bool)
    ensures
      var moved := MovedOn(r.lastPosition, reading.position);
      var played := r.played + moved;
      PollResult(ss, r, reading, refillOk) ==
        if !reading.ok || !reading.playing || reading.error then -4
        else if reading.bufferBytes != 65536 || (reading.clock - r.lastClock) % 0x1_0000_0000 >= 6_000_000 ||
                r.lastPosition > 65536 || reading.position > 65536 ||
                (moved == 0 && (reading.clock - r.lastProgress) % 0x1_0000_0000 >= 24_000_000)
        then -5
        else if forall i :: 0 <= i < |ss| && ss[i].used && !ss[i].completed ==>
                              ss[i].start + 4 * (ss[i].frames + r.drainFrames) <= played
        then 1
        else if forall f :: r.refilled <= f < played / 4096 ==> refillOk(f % 16) then 0
        else -5
  {
    DeltaExactly(reading.clock, r.lastClock);
    DeltaExactly(reading.clock, r.lastProgress);
    DeltaExactly(reading.clock, reading.clock);
    if RingAdvance(r.lastPosition, reading.position).Some? {
      CompletedExactly(ss, r.played + RingAdvance(r.lastPosition, reading.position).value, r.drainFrames);
    }
    hide ClockDelta, AllCompleted, MarkedAll;
  }

  lemma DeltaExactly(now: u32, before: u32)
    ensures ClockDelta(now, before) == (now - before) % 0x1_0000_0000
  {
  }

  /** A source is marked exactly once the device has played its last frame and the drain behind it. */
  lemma MarkedExactly(s: Source, played: nat, drainFrames: nat)
    ensures
      var m := Marked(s, played, drainFrames);
      && m == s.(completed := m.completed)
      && (m.completed <==> s.completed || (s.used && s.start + 4 * (s.frames + drainFrames) <= played))
  {
  }

  lemma CompletedExactly(ss: seq<Source>, played: nat, drainFrames: nat)
    ensures AllCompleted(MarkedAll(ss, played, drainFrames)) <==>
            forall i :: 0 <= i < |ss| && ss[i].used && !ss[i].completed ==>
                          ss[i].start + 4 * (ss[i].frames + drainFrames) <= played
  {
    var marked := MarkedAll(ss, played, drainFrames);
    forall i | 0 <= i < |ss|
      ensures marked[i].used == ss[i].used
      ensures marked[i].completed <==>
              ss[i].completed || (ss[i].used && ss[i].start + 4 * (ss[i].frames + drainFrames) <= played)
    {
      MarkedExactly(ss[i], played, drainFrames);
    }
    hide MarkedAll, Marked;
  }

  /** Frame k of a source counts as played exactly once its last byte is. */
  lemma PlayedExactly(s: Source, played: nat, k: nat)
    ensures k < PlayedFrames(s, played) <==> k < s.frames && s.start + 4 * (k + 1) <= played
  {
  }

  /** A source that is in use and not at its end once the device has played that much. */
  predicate Outlives(s: Source, played: nat, drainFrames: nat) {
    s.used && !s.completed && !Finished(s, played, drainFrames)
  }

  /** A device that runs, is polled in time, makes progress and takes its refills keeps the stream going as long as one
      source has frames left to play. */
  lemma HealthyPollGoesOn(
    ss: seq<Source>, r: Ring, d: Device, d': Device, reading: Reading, refillOk: nat -> bool, i: nat)
    requires RingOk(r, d) && Advances(d, d') && Truthful(reading, d') && d.total < d'.total
    requires reading.ok && reading.playing && !reading.error && reading.bufferBytes == RING
    requires d'.ticks - d.ticks < POLL_GAP && forall f :: refillOk(f)
    requires i < |ss| && Outlives(ss[i], d'.total, r.drainFrames)
    ensures PollResult(ss, r, reading, refillOk) == 0
  {
    ClockDeltaExact(d, d');
    PollRecoversProgress(r, d, d', reading);
    assert ClockDelta(reading.clock, reading.clock) == 0;
    var marked := MarkedAll(ss, d'.total, r.drainFrames);
    assert marked[i].used && !marked[i].completed;
  }

  // ----- the source table -----

  predicate AllFree(ss: seq<Source>) { forall i :: 0 <= i < |ss| ==> !ss[i].used }

  predicate NoneCompleted(ss: seq<Source>) { forall i :: 0 <= i < |ss| && ss[i].used ==> !ss[i].completed }

  predicate DistinctPair(a: Source, b: Source) {
    a.used && b.used ==> a.appId != b.appId && a.pcm != b.pcm && a.playbackId != b.playbackId
  }

  /** Sources in use have distinct applications, buffers and playback ids. */
  predicate Distinct(ss: seq<Source>) {
    forall i, j :: 0 <= i < j < |ss| ==> DistinctPair(ss[i], ss[j])
  }

  /** Live sources carry ids the counter has already reached. */
  predicate IdsBelow(ss: seq<Source>, id: nat) {
    forall i :: 0 <= i < |ss| && ss[i].used && !ss[i].completed ==> ss[i].playbackId <= id
  }

  function PcmOf(ss: seq<Source>): set<nat> {
    set i | 0 <= i < |ss| && ss[i].used :: ss[i].pcm
  }

  predicate TableOk(ss: seq<Source>, id: nat, heap: set<nat>) {
    |ss| == MAX_SOURCES && SourcesOk(ss) && Distinct(ss) && IdsBelow(ss, id) && PcmOf(ss) <= heap
  }

  /** Same owners: only cursors move, and sources are only marked complete. */
  predicate SameOwners(ss: seq<Source>, ss': seq<Source>) {
    && |ss'| == |ss|
    && forall i :: 0 <= i < |ss| ==>
         && ss'[i] == ss[i].(cursor := ss'[i].cursor, completed := ss'[i].completed)
         && (ss[i].completed ==> ss'[i].completed)
  }

  /** Moving cursors and marking completion leave the table's owners alone. */
  lemma TableKept(ss: seq<Source>, ss': seq<Source>, id: nat, heap: set<nat>)
    requires TableOk(ss, id, heap) && SourcesOk(ss') && SameOwners(ss, ss')
    ensures TableOk(ss', id, heap) && PcmOf(ss') == PcmOf(ss)
  {
    assert forall i, j :: 0 <= i < j < |ss| ==> DistinctPair(ss[i], ss[j]) ==> DistinctPair(ss'[i], ss'[j]);
  }

  /** Releasing a source frees its buffer and nobody else's. */
  lemma ReleaseFreesOne(ss: seq<Source>, index: nat, id: nat, heap: set<nat>)
    requires TableOk(ss, id, heap) && index < |ss| && ss[index].used
    ensures ss[index].pcm in heap
    ensures TableOk(ss[index := FREE], id, heap - {ss[index].pcm})
    ensures PcmOf(ss[index := FREE]) == PcmOf(ss) - {ss[index].pcm}
  {
    var ss' := ss[index := FREE];
    forall i | 0 <= i < |ss| && i != index && ss[i].used
      ensures ss[i].pcm != ss[index].pcm
    {
      assert i < index ==> DistinctPair(ss[i], ss[index]);
      assert index < i ==> DistinctPair(ss[index], ss[i]);
    }
    assert forall i, j :: 0 <= i < j < |ss| ==> DistinctPair(ss[i], ss[j]) ==> DistinctPair(ss'[i], ss'[j]);
  }

  /** Installing a new source in a free slot keeps applications, buffers and ids distinct. */
  lemma InstallKeepsTable(ss: seq<Source>, slot: nat, s: Source, id: nat, heap: set<nat>)
    requires TableOk(ss, id, heap) && NoneCompleted(ss) && slot < |ss| && !ss[slot].used
    requires SourceOk(s) && s.used && !s.completed && s.playbackId == id + 1
    requires s.pcm in heap && s.pcm !in PcmOf(ss)
    requires forall i :: 0 <= i < |ss| && ss[i].used ==> ss[i].appId != s.appId
    ensures TableOk(ss[slot := s], id + 1, heap) && NoneCompleted(ss[slot := s])
    ensures PcmOf(ss[slot := s]) == PcmOf(ss) + {s.pcm}
  {
    var ss' := ss[slot := s];
    forall x | x in PcmOf(ss)
      ensures x in PcmOf(ss')
    {
      var i :| 0 <= i < |ss| && ss[i].used && ss[i].pcm == x;
      assert ss'[i] == ss[i];
    }
    assert ss'[slot].pcm in PcmOf(ss');
    assert forall i :: 0 <= i < |ss| && ss[i].used ==> ss[i].pcm in PcmOf(ss);
    forall i, j | 0 <= i < j < |ss|
      ensures DistinctPair(ss'[i], ss'[j])
    {
      assert DistinctPair(ss[i], ss[j]);
      if i == slot { assert ss'[j] == ss[j]; } else { assert ss'[i] == ss[i]; }
    }
  }
}
