/** The line from the mixer to the device: what each queued fragment was mixed from, what the device's ring holds, and
    that every frame of a source goes down the line exactly once (src/audio/audio_service.c). */
module AudioLine {
  import opened Words
  import opened AudioMixer
  import opened AudioSamples
  import opened AudioRing
  import opened AudioStream
  import opened AudioEngine

  // ----- the one continuous mix -----

  /** What a source adds to frame `t` of the whole stream: its own frame t - start / 4, if it has one. */
  function StreamSample(v: Volumes, s: Source, t: nat, right: bool): int
    requires SourceOk(s)
  {
    if s.used && s.start / FRAME_BYTES <= t < s.start / FRAME_BYTES + s.frames then
      assert (t - s.start / FRAME_BYTES + 1) * s.channels <= s.frames * s.channels;
      Scaled(s.samples, s.channels, t - s.start / FRAME_BYTES, AppVolume(v, s.appId), right)
    else 0
  }

  function StreamSum(v: Volumes, ss: seq<Source>, t: nat, right: bool): int
    requires SourcesOk(ss)
  {
    if ss == [] then 0 else StreamSum(v, ss[..|ss| - 1], t, right) + StreamSample(v, ss[|ss| - 1], t, right)
  }

  lemma WholeFrames(n: nat)
    ensures FRAGMENT * n / FRAME_BYTES == FRAGMENT_FRAMES * n
  {
    assert FRAGMENT * n == FRAME_BYTES * (FRAGMENT_FRAMES * n);
  }

  /** Fragment-aligned stream offsets count whole frames. */
  lemma FramesBetween(start: nat, queued: nat)
    requires start <= queued && start % FRAGMENT == 0 && queued % FRAGMENT == 0
    ensures queued / FRAME_BYTES == start / FRAME_BYTES + (queued - start) / FRAME_BYTES
  {
    var a, b := start / FRAGMENT, queued / FRAGMENT;
    assert start == FRAGMENT * a && queued == FRAGMENT * b && queued - start == FRAGMENT * (b - a);
    WholeFrames(a);
    WholeFrames(b);
    WholeFrames(b - a);
  }

  lemma ExactSample(v: Volumes, s: Source, queued: nat, k: nat, right: bool)
    requires SourceOk(s) && Exact(s, queued) && queued % FRAGMENT == 0
    ensures SourceSample(v, s, k, right) == StreamSample(v, s, queued / FRAME_BYTES + k, right)
  {
    hide Scaled, AppVolume;
    if s.used { FramesBetween(s.start, queued); }
  }

  lemma {:induction false} ExactSum(v: Volumes, ss: seq<Source>, queued: nat, k: nat, right: bool)
    requires SourcesOk(ss) && AllExact(ss, queued) && queued % FRAGMENT == 0
    ensures SourceSum(v, ss, k, right) == StreamSum(v, ss, queued / FRAME_BYTES + k, right)
  {
    if ss != [] {
      ExactSum(v, ss[..|ss| - 1], queued, k, right);
      ExactSample(v, ss[|ss| - 1], queued, k, right);
    }
  }

  /** What a fragment was mixed from: the source table, the volumes and the gain of that moment. */
  datatype Entry = Entry(volumes: Volumes, sources: seq<Source>, gain: nat)

  predicate EntryOk(e: Entry) { |e.sources| == MAX_SOURCES && SourcesOk(e.sources) && Distinct(e.sources) }

  /** The samples of stream fragment `f`: frames 1024 f to 1024 f + 1023 of the continuous mix. */
  function Window(e: Entry, f: nat): (r: seq<i16>)
    requires EntryOk(e)
    ensures |r| == SAMPLES
  {
    seq(SAMPLES, i requires 0 <= i < SAMPLES =>
      Output(StreamSum(e.volumes, e.sources, FRAGMENT_FRAMES * f + i / 2, i % 2 == 1), e.gain))
  }

  /** The fragment queued at stream byte 4096 f is the window of the one continuous mix that starts there: cutting the
      mix into fragments, with the mixer reinitialised for each, loses and repeats nothing. */
  lemma FragmentIsWindow(e: Entry, f: nat)
    requires EntryOk(e) && AllExact(e.sources, FRAGMENT * f)
    ensures FragmentOutput(e.volumes, e.sources, e.gain) == Window(e, f)
  {
    var out, want := FragmentOutput(e.volumes, e.sources, e.gain), Window(e, f);
    WholeFrames(f);
    hide SourceSum, StreamSum, Output, AllExact, SourcesOk;
    forall i | 0 <= i < SAMPLES ensures out[i] == want[i] {
      ExactSum(e.volumes, e.sources, FRAGMENT * f, i / 2, i % 2 == 1);
    }
  }

  lemma {:induction false} SilentSum(v: Volumes, ss: seq<Source>, t: nat, right: bool)
    requires SourcesOk(ss) && forall i :: 0 <= i < |ss| && ss[i].used ==> t < ss[i].start / FRAME_BYTES
    ensures StreamSum(v, ss, t, right) == 0
  {
    if ss != [] { SilentSum(v, ss[..|ss| - 1], t, right); }
  }

  /** Before any source starts the mix is silence. */
  lemma SilentWindow(e: Entry, f: nat, start: nat)
    requires EntryOk(e) && start % FRAGMENT == 0 && FRAGMENT * f < start
    requires forall i :: 0 <= i < MAX_SOURCES && e.sources[i].used ==> e.sources[i].start == start
    ensures forall i :: 0 <= i < SAMPLES ==> Window(e, f)[i] == 0
  {
    var n := start / FRAGMENT;
    assert start == FRAGMENT * n && f < n;
    WholeFrames(n);
    hide StreamSum;
    forall i | 0 <= i < SAMPLES ensures Window(e, f)[i] == 0 {
      SilentSum(e.volumes, e.sources, FRAGMENT_FRAMES * f + i / 2, i % 2 == 1);
    }
  }

  // ----- the ring and its log -----

  /** The same decoded source, whatever its cursor. */
  predicate SameStream(a: Source, b: Source) { b == a.(cursor := b.cursor, completed := b.completed) }

  predicate LogOk(log: seq<Entry>) { forall f :: 0 <= f < |log| ==> EntryOk(log[f]) }

  /** The device's ring: fragment f of the stream lies in slot f mod 16. */
  predicate RingHolds(dma: seq<seq<i16>>, log: seq<Entry>, from: nat)
    requires LogOk(log)
  {
    |dma| == FRAGMENTS && forall f :: from <= f < |log| ==> dma[f % FRAGMENTS] == Window(log[f], f)
  }

  /** Every source in the table took part, from its start on, in every fragment that was queued. */
  predicate Traced(log: seq<Entry>, ss: seq<Source>) {
    forall f, i :: 0 <= f < |log| && 0 <= i < |ss| && i < |log[f].sources| && ss[i].used &&
                   ss[i].start <= FRAGMENT * f ==>
                     SameStream(ss[i], log[f].sources[i])
  }

  /** From fragment `from` on, the mix was of that table and nothing else, at those volumes. */
  predicate QueuedFrom(log: seq<Entry>, from: nat, ss: seq<Source>, volumes: Volumes, gain: nat) {
    forall f :: from <= f < |log| ==>
                  log[f].volumes == volumes && log[f].gain == gain && SameOwners(ss, log[f].sources)
  }

  /** The whole log is of the one source in that slot, at those volumes. */
  predicate QueuedAlone(log: seq<Entry>, slot: nat, volumes: Volumes, gain: nat) {
    forall f :: 0 <= f < |log| ==>
                  log[f].volumes == volumes && log[f].gain == gain && AloneIn(log[f].sources, slot)
  }

  predicate AloneIn(ss: seq<Source>, slot: nat) { forall i :: 0 <= i < |ss| && ss[i].used ==> i == slot }

  lemma AloneInLog(
    log: seq<Entry>, free: seq<Source>, slot: nat, ss: seq<Source>, volumes: Volumes, gain: nat)
    requires AllFree(free) && slot < |free| == |ss| && ss == free[slot := ss[slot]]
    requires QueuedFrom(log, 0, ss, volumes, gain)
    ensures QueuedAlone(log, slot, volumes, gain)
  {
  }

  lemma QueuedMore(log: seq<Entry>, from: nat, ss: seq<Source>, e: Entry)
    requires QueuedFrom(log, from, ss, e.volumes, e.gain) && SameOwners(ss, e.sources)
    ensures QueuedFrom(log + [e], from, ss, e.volumes, e.gain)
  {
    hide SameOwners;
  }

  lemma QueuedNothing(log: seq<Entry>, ss: seq<Source>, volumes: Volumes, gain: nat)
    ensures QueuedFrom(log, |log|, ss, volumes, gain)
  {
  }

  lemma QueuedThrough(
    log: seq<Entry>, from: nat, a: seq<Source>, b: seq<Source>, volumes: Volumes, gain: nat)
    requires QueuedFrom(log, from, b, volumes, gain) && SameOwners(a, b)
    ensures QueuedFrom(log, from, a, volumes, gain)
  {
    forall f | from <= f < |log|
      ensures log[f].volumes == volumes && log[f].gain == gain && SameOwners(a, log[f].sources)
    {
      OwnersThrough(a, b, log[f].sources);
    }
  }

  /** All of the stream from fragment `refilled` to the end of the queue is in the ring, mixed from the table. */
  predicate Delivered(dma: seq<seq<i16>>, log: seq<Entry>, ss: seq<Source>, refilled: nat) {
    && |log| == FRAGMENTS + refilled && LogOk(log) && |ss| == MAX_SOURCES
    && RingHolds(dma, log, refilled) && Traced(log, ss)
  }

  /** The slot refilled next is that of no fragment still to be played. */
  lemma OtherSlot(refilled: nat, f: nat)
    requires refilled < f < FRAGMENTS + refilled
    ensures f % FRAGMENTS != refilled % FRAGMENTS
  {
    RefillAvoidsDma(refilled, FRAGMENT * (refilled + 1), refilled, FRAGMENT * f);
  }

  lemma SameSlot(refilled: nat)
    ensures (FRAGMENTS + refilled) % FRAGMENTS == refilled % FRAGMENTS
  {
  }

  lemma RingNext(dma: seq<seq<i16>>, log: seq<Entry>, refilled: nat, e: Entry)
    requires LogOk(log) && EntryOk(e) && |log| == FRAGMENTS + refilled && RingHolds(dma, log, refilled)
    ensures LogOk(log + [e])
    ensures RingHolds(dma[refilled % FRAGMENTS := Window(e, FRAGMENTS + refilled)], log + [e], refilled + 1)
  {
    hide Window, EntryOk;
    var slot, log' := refilled % FRAGMENTS, log + [e];
    var dma' := dma[slot := Window(e, FRAGMENTS + refilled)];
    forall f | refilled + 1 <= f < |log'| ensures dma'[f % FRAGMENTS] == Window(log'[f], f) {
      if f < |log| {
        OtherSlot(refilled, f);
        assert log'[f] == log[f];
      } else {
        SameSlot(refilled);
      }
    }
  }

  /** Queueing one more fragment: it goes where fragment `refilled` was, which is none that is still to be played. */
  lemma DeliverNext(dma: seq<seq<i16>>, log: seq<Entry>, ss: seq<Source>, refilled: nat, e: Entry, ss': seq<Source>)
    requires Delivered(dma, log, ss, refilled) && EntryOk(e) && e.sources == ss && ss' == Filled(ss)
    ensures Delivered(
              dma[refilled % FRAGMENTS := Window(e, FRAGMENTS + refilled)], log + [e], ss', refilled + 1)
  {
    RingNext(dma, log, refilled, e);
    TracedAppend(log, ss, e, ss');
    hide Window, EntryOk, RingHolds, LogOk, Traced;
  }

  lemma TracedAppend(log: seq<Entry>, ss: seq<Source>, e: Entry, ss': seq<Source>)
    requires Traced(log, ss) && e.sources == ss && ss' == Filled(ss)
    ensures Traced(log + [e], ss')
  {
    var log' := log + [e];
    forall f, i | 0 <= f < |log'| && 0 <= i < |ss'| && i < |log'[f].sources| && ss'[i].used &&
                  ss'[i].start <= FRAGMENT * f
      ensures SameStream(ss'[i], log'[f].sources[i])
    {
      if f < |log| { assert log'[f] == log[f] && SameStream(ss[i], log[f].sources[i]); }
    }
  }

  /** Sources may go, move their cursors or be marked, and new ones start where the queue ends. */
  lemma TracedKept(log: seq<Entry>, ss: seq<Source>, ss': seq<Source>)
    requires Traced(log, ss) && |ss'| == |ss|
    requires forall i :: 0 <= i < |ss'| && ss'[i].used ==>
                           SameStream(ss[i], ss'[i]) || ss'[i].start >= FRAGMENT * |log|
    ensures Traced(log, ss')
  {
    forall f, i | 0 <= f < |log| && 0 <= i < |ss'| && i < |log[f].sources| && ss'[i].used &&
                  ss'[i].start <= FRAGMENT * f
      ensures SameStream(ss'[i], log[f].sources[i])
    {
      assert SameStream(ss[i], log[f].sources[i]);
    }
  }

  // ----- exactly once -----

  /** Exactly-once delivery. Of a source in the table, frame k is in the queue exactly if k is below its cursor; and
      every queued frame of the stream from its start on was mixed from the source's own frame at that distance, at
      its volume of that moment, or from nothing once the source is at its end. So frame k enters the ring once, at
      stream byte start + 4k. */
  lemma ExactlyOnce(
    dma: seq<seq<i16>>, log: seq<Entry>, ss: seq<Source>, refilled: nat, i: nat, t: nat, right: bool)
    requires Delivered(dma, log, ss, refilled) && SourcesOk(ss) && AllExact(ss, FRAGMENT * |log|)
    requires i < MAX_SOURCES && ss[i].used && ss[i].start / FRAME_BYTES <= t
    ensures t - ss[i].start / FRAME_BYTES < ss[i].frames ==>
              (t / FRAGMENT_FRAMES < |log| <==> t - ss[i].start / FRAME_BYTES < ss[i].cursor)
    ensures t / FRAGMENT_FRAMES < |log| ==>
              var e := log[t / FRAGMENT_FRAMES];
              && EntryOk(e) && NoOther(e.sources, i, ss[i].pcm)
              && SlotPart(e.volumes, ss[i], t, right, StreamSample(e.volumes, e.sources[i], t, right))
  {
    var s, f := ss[i], t / FRAGMENT_FRAMES;
    var n := s.start / FRAGMENT;
    assert Exact(s, FRAGMENT * |log|);
    assert s.start == FRAGMENT * n && FRAGMENT * |log| - s.start == FRAGMENT * (|log| - n);
    WholeFrames(n);
    WholeFrames(|log| - n);
    if f < |log| {
      assert n <= f;
      assert SameStream(s, log[f].sources[i]);
      SlotPartMeans(log[f].volumes, log[f].sources[i], t, right);
      OnlyInSlot(log[f].sources, i);
    }
  }

  /** No slot but `i` mixes that buffer. */
  predicate NoOther(ss: seq<Source>, i: nat, pcm: nat) {
    forall j :: 0 <= j < |ss| && j != i && ss[j].used ==> ss[j].pcm != pcm
  }

  lemma OnlyInSlot(ss: seq<Source>, i: nat)
    requires Distinct(ss) && i < |ss| && ss[i].used
    ensures NoOther(ss, i, ss[i].pcm)
  {
    forall j | 0 <= j < |ss| && j != i && ss[j].used ensures ss[j].pcm != ss[i].pcm {
      assert if i < j then DistinctPair(ss[i], ss[j]) else DistinctPair(ss[j], ss[i]);
    }
  }

  /** What a slot puts into stream frame `t`, in numbers: frame k of a source at stream frame start / 4 + k, at its
      application's volume or the full one, and nothing before its first frame or after its last. */
  predicate SlotPart(v: Volumes, s: Source, t: nat, right: bool, y: int) {
    if s.used && s.start / 4 <= t < s.start / 4 + s.frames then
      Plays(s.samples, s.channels, t - s.start / 4, if s.appId in v then v[s.appId] else 1000, right, y)
    else y == 0
  }

  lemma SlotPartMeans(v: Volumes, s: Source, t: nat, right: bool)
    requires SourceOk(s)
    ensures SlotPart(v, s, t, right, StreamSample(v, s, t, right))
  {
    hide Scaled, Plays;
    if s.used && s.start / 4 <= t < s.start / 4 + s.frames {
      var k := t - s.start / 4;
      FrameOf(s, k);
      ScaledMeans(s.samples, s.channels, k, AppVolume(v, s.appId), right);
    }
  }

  lemma FrameOf(s: Source, k: nat)
    requires SourceOk(s) && s.used && k < s.frames
    ensures (s.channels == 1 || s.channels == 2) && (k + 1) * s.channels <= |s.samples|
  {
  }

  /** The mix is the sum over the four slots, so each source's frame is in it once. */
  lemma SumOfSlots(v: Volumes, ss: seq<Source>, t: nat, right: bool)
    requires SourcesOk(ss) && |ss| == MAX_SOURCES
    ensures StreamSum(v, ss, t, right) ==
            StreamSample(v, ss[0], t, right) + StreamSample(v, ss[1], t, right) +
            StreamSample(v, ss[2], t, right) + StreamSample(v, ss[3], t, right)
  {
    hide StreamSample;
    assert ss[..3][..2] == ss[..2] && ss[..2][..1] == ss[..1] && ss[..1][..0] == [];
    assert ss[..3][2] == ss[2] && ss[..2][1] == ss[1] && ss[..1][0] == ss[0];
    assert StreamSum(v, ss[..1], t, right) == StreamSample(v, ss[0], t, right);
    assert StreamSum(v, ss[..2], t, right) == StreamSum(v, ss[..1], t, right) + StreamSample(v, ss[1], t, right);
    assert StreamSum(v, ss[..3], t, right) == StreamSum(v, ss[..2], t, right) + StreamSample(v, ss[2], t, right);
  }

  /** What the device plays at any stream frame between its position and the end of the queue is that frame of the
      mix. */
  lemma DeviceHears(dma: seq<seq<i16>>, log: seq<Entry>, ss: seq<Source>, refilled: nat, t: nat, right: bool)
    requires Delivered(dma, log, ss, refilled) && refilled <= t / FRAGMENT_FRAMES < |log|
    ensures
      var f, k := t / FRAGMENT_FRAMES, 2 * (t % FRAGMENT_FRAMES) + if right then 1 else 0;
      && EntryOk(log[f]) && k < |dma[f % FRAGMENTS]|
      && dma[f % FRAGMENTS][k] == Output(StreamSum(log[f].volumes, log[f].sources, t, right), log[f].gain)
  {
    var f := t / FRAGMENT_FRAMES;
    var k := 2 * (t % FRAGMENT_FRAMES) + if right then 1 else 0;
    hide StreamSum, Output;
    assert k / 2 == t % FRAGMENT_FRAMES && (k % 2 == 1) == right && FRAGMENT_FRAMES * f + k / 2 == t;
    assert dma[f % FRAGMENTS] == Window(log[f], f);
  }

  /** And in numbers: it is what the four slots put into that frame, summed, at the gain of that moment, clipped. */
  lemma HeardMeans(dma: seq<seq<i16>>, log: seq<Entry>, ss: seq<Source>, refilled: nat, t: nat, right: bool)
    returns (a: int, b: int, c: int, d: int, q: int)
    requires Delivered(dma, log, ss, refilled) && refilled <= t / FRAGMENT_FRAMES < |log|
    ensures
      var f, k := t / 1024, 2 * (t % 1024) + if right then 1 else 0;
      var e := log[f];
      && |e.sources| == 4 && |dma| == 16 && k < |dma[f % 16]|
      && SlotPart(e.volumes, e.sources[0], t, right, a) && SlotPart(e.volumes, e.sources[1], t, right, b)
      && SlotPart(e.volumes, e.sources[2], t, right, c) && SlotPart(e.volumes, e.sources[3], t, right, d)
      && Thousandths((a + b + c + d) * e.gain, q) && Clips(q, dma[f % 16][k])
  {
    var e := log[t / FRAGMENT_FRAMES];
    DeviceHears(dma, log, ss, refilled, t, right);
    hide StreamSum, Output, StreamSample, SlotPart, Thousandths, Clips, RingHolds, Traced, LogOk, SourceOk;
    a, b := StreamSample(e.volumes, e.sources[0], t, right), StreamSample(e.volumes, e.sources[1], t, right);
    c, d := StreamSample(e.volumes, e.sources[2], t, right), StreamSample(e.volumes, e.sources[3], t, right);
    SumOfSlots(e.volumes, e.sources, t, right);
    SlotPartMeans(e.volumes, e.sources[0], t, right);
    SlotPartMeans(e.volumes, e.sources[1], t, right);
    SlotPartMeans(e.volumes, e.sources[2], t, right);
    SlotPartMeans(e.volumes, e.sources[3], t, right);
    q := OutputMeans(a + b + c + d, e.gain);
  }

  // ----- the running line -----

  /** The one source of a fresh ring, before anything is mixed. */
  lemma FirstExact(ss: seq<Source>, slot: nat, s: Source)
    requires AllFree(ss) && slot < |ss| && s.used && !s.completed && s.cursor == 0 && s.start % FRAGMENT == 0
    ensures AllExact(ss[slot := s], s.start) && AllStartAt(ss[slot := s], s.start)
  {
  }

  predicate AllStartAt(ss: seq<Source>, start: nat) { forall i :: 0 <= i < |ss| && ss[i].used ==> ss[i].start == start }

  /** The running line: counters, cursors, device ring and log agree. */
  predicate LineOk(r: Ring, d: Device, ss: seq<Source>, dma: seq<seq<i16>>, log: seq<Entry>) {
    RingOk(r, d) && AllExact(ss, r.queued) && Delivered(dma, log, ss, r.refilled)
  }

  /** A source may go at any time; what it left in the ring stays there. */
  lemma LineReleased(r: Ring, d: Device, ss: seq<Source>, dma: seq<seq<i16>>, log: seq<Entry>, index: nat)
    requires LineOk(r, d, ss, dma, log) && index < |ss|
    ensures LineOk(r, d, ss[index := FREE], dma, log)
  {
    hide RingOk, RingHolds, LogOk;
    TracedKept(log, ss, ss[index := FREE]);
  }

  /** A source that joins a running ring starts exactly at the end of the queue. */
  lemma LineJoined(r: Ring, d: Device, ss: seq<Source>, dma: seq<seq<i16>>, log: seq<Entry>, slot: nat, s: Source)
    requires LineOk(r, d, ss, dma, log) && slot < |ss|
    requires s.used && !s.completed && s.start == r.queued && s.cursor == 0
    ensures LineOk(r, d, ss[slot := s], dma, log)
  {
    hide RingHolds, LogOk;
    assert r.queued == FRAGMENT * |log|;
    TracedKept(log, ss, ss[slot := s]);
  }

  /** After a refill, what lies between the device's fragment and the old end of the queue is as it was. */
  predicate Untouched(dma: seq<seq<i16>>, dma': seq<seq<i16>>, from: nat, to: nat) {
    |dma| == |dma'| == FRAGMENTS && forall f :: from <= f < to ==> dma'[f % FRAGMENTS] == dma[f % FRAGMENTS]
  }

  /** Completed is whoever was, and whoever has now reached the end. */
  predicate MarkedAs(ss: seq<Source>, ss': seq<Source>, played: nat, drainFrames: nat) {
    |ss'| == |ss| && forall i :: 0 <= i < |ss| ==> ss'[i].completed == Marked(ss[i], played, drainFrames).completed
  }

  lemma RefillUntouched(dma: seq<seq<i16>>, log: seq<Entry>, ss: seq<Source>, refilled: nat,
                        dma': seq<seq<i16>>, log': seq<Entry>, ss': seq<Source>, retired: nat)
    requires Delivered(dma, log, ss, refilled) && Delivered(dma', log', ss', retired)
    requires refilled <= retired && log <= log'
    ensures Untouched(dma, dma', retired, |log|)
  {
    hide Window, Traced, EntryOk;
    forall f | retired <= f < |log| ensures dma'[f % FRAGMENTS] == dma[f % FRAGMENTS] {
      assert log'[f] == log[f];
      assert dma[f % FRAGMENTS] == Window(log[f], f);
    }
  }

  lemma MarkedThenRefilled(ss: seq<Source>, marked: seq<Source>, ss': seq<Source>, played: nat, drainFrames: nat)
    requires marked == MarkedAll(ss, played, drainFrames) && SameOwners(marked, ss') && !AllCompleted(marked)
    requires forall i :: 0 <= i < |ss'| ==> ss'[i].completed == marked[i].completed
    ensures SameOwners(ss, ss') && MarkedAs(ss, ss', played, drainFrames) && !AllCompleted(ss')
  {
    var live :| 0 <= live < |marked| && marked[live].used && !marked[live].completed;
    assert ss'[live].used && !ss'[live].completed;
  }

  lemma LineMarked(ss: seq<Source>, ss': seq<Source>, r: Ring, queued: nat, dma: seq<seq<i16>>, log: seq<Entry>)
    requires ss' == MarkedAll(ss, r.played, r.drainFrames) && r.played <= queued
    requires AllExact(ss, queued) && Delivered(dma, log, ss, r.refilled)
    ensures AllExact(ss', queued) && Delivered(dma, log, ss', r.refilled)
  {
    MarkKeepsExact(ss, r.played, r.drainFrames, queued);
    hide RingHolds, LogOk, AllExact;
    TracedKept(log, ss, ss');
  }

  lemma LineRecovers(
    r: Ring, d: Device, ss: seq<Source>, dma: seq<seq<i16>>, log: seq<Entry>, d': Device, reading: Reading)
    requires LineOk(r, d, ss, dma, log) && Advances(d, d') && Truthful(reading, d')
    requires ClockDelta(reading.clock, r.lastClock) < POLL_GAP
    ensures r.played <= d'.total < r.queued && d'.total - r.played < RING
    ensures RingAdvance(r.lastPosition, reading.position) == Some(d'.total - r.played)
  {
    PollRecoversProgress(r, d, d', reading);
  }

  lemma ExactBounds(ss: seq<Source>, i: nat, played: nat, queued: nat)
    requires i < |ss| && ss[i].used && AllExact(ss, queued) && played <= queued
    ensures PlayedFrames(ss[i], played) <= ss[i].cursor
  {
    PlayedNeverExceedsMixed(ss[i], played, queued);
  }

  lemma LineParts(r: Ring, d: Device, ss: seq<Source>, dma: seq<seq<i16>>, log: seq<Entry>)
    requires LineOk(r, d, ss, dma, log)
    ensures AllExact(ss, r.queued) && Delivered(dma, log, ss, r.refilled)
    ensures r.refilled == r.played / FRAGMENT && r.queued == RING + FRAGMENT * r.refilled && |dma| == FRAGMENTS
  {
  }

  /** The ring after every retired fragment was refilled. */
  lemma LineServed(r: Ring, d: Device, ss: seq<Source>, dma: seq<seq<i16>>, log: seq<Entry>)
    requires r.played == d.total && r.refilled == r.played / FRAGMENT && r.queued == RING + FRAGMENT * r.refilled
    requires r.lastPosition == Position(d.total, d.wrapped) && r.lastClock == Clock(d)
    requires AllExact(ss, r.queued) && Delivered(dma, log, ss, r.refilled)
    ensures LineOk(r, d, ss, dma, log) && 61440 < r.queued - d.total <= RING
  {
    QueueAhead(d.total);
  }

  /** The ring right after a fresh start. */
  lemma LineStarted(r: Ring, d: Device, ss: seq<Source>, dma: seq<seq<i16>>, log: seq<Entry>)
    requires r.played == 0 && r.refilled == 0 && r.queued == RING && r.lastPosition == 0 && r.lastClock == Clock(d)
    requires d.total <= START_LEAD && AllExact(ss, RING) && Delivered(dma, log, ss, 0)
    ensures LineOk(r, d, ss, dma, log)
  {
    hide RingHolds, LogOk, Traced, AllExact;
  }

  // ----- the first ring -----

  /** Sample `n` of the stream, as the log says it was mixed. */
  function LineSample(log: seq<Entry>, n: nat): i16
    requires LogOk(log) && n / SAMPLES < |log|
  {
    Window(log[n / SAMPLES], n / SAMPLES)[n % SAMPLES]
  }

  /** A buffer that holds the first ring of the stream. */
  predicate BufferHolds(buf: seq<i16>, log: seq<Entry>)
    requires LogOk(log)
  {
    |buf| == RING / 2 && |log| == FRAGMENTS && forall n :: 0 <= n < |buf| ==> buf[n] == LineSample(log, n)
  }

  /** The sixteen fragments of a buffer. */
  function Cut(buf: seq<i16>): (r: seq<seq<i16>>)
    requires |buf| == RING / 2
    ensures |r| == FRAGMENTS
  {
    seq(FRAGMENTS, f requires 0 <= f < FRAGMENTS => buf[SAMPLES * f..SAMPLES * (f + 1)])
  }

  lemma OwnersThrough(a: seq<Source>, b: seq<Source>, c: seq<Source>)
    requires SameOwners(a, b) && SameOwners(b, c)
    ensures SameOwners(a, c)
  {
  }

  lemma OwnersDistinct(ss: seq<Source>, ss': seq<Source>)
    requires SameOwners(ss, ss') && Distinct(ss)
    ensures Distinct(ss')
  {
    forall i, j | 0 <= i < j < |ss'| ensures DistinctPair(ss'[i], ss'[j]) {
      assert DistinctPair(ss[i], ss[j]);
    }
  }

  lemma FilledOwners(ss: seq<Source>)
    ensures SameOwners(ss, Filled(ss))
    ensures forall i :: 0 <= i < |ss| ==> Filled(ss)[i].completed == ss[i].completed
  {
  }

  lemma FilledOk(ss: seq<Source>)
    requires SourcesOk(ss)
    ensures SourcesOk(Filled(ss))
  {
  }

  lemma TracedNothing(ss: seq<Source>)
    ensures Traced([], ss)
  {
  }

  /** A fragment before any source starts traces nobody. */
  lemma TracedSilence(log: seq<Entry>, ss: seq<Source>, e: Entry, start: nat)
    requires AllStartAt(ss, start) && start > FRAGMENT * |log|
    ensures Traced(log + [e], ss)
  {
  }

  /** One fragment of the prefill, silent or mixed, keeps the trace. */
  lemma TracedPrefill(log: seq<Entry>, ss: seq<Source>, e: Entry, ss': seq<Source>, start: nat)
    requires Traced(log, ss) && AllStartAt(ss, start) && e.sources == ss
    requires ss' == if FRAGMENT * |log| < start then ss else Filled(ss)
    ensures Traced(log + [e], ss')
  {
    if FRAGMENT * |log| < start {
      TracedSilence(log, ss, e, start);
    } else {
      TracedAppend(log, ss, e, ss');
    }
  }

  /** A longer log says the same of the samples it already had. */
  lemma LogGrows(log: seq<Entry>, e: Entry)
    requires LogOk(log) && EntryOk(e)
    ensures LogOk(log + [e])
    ensures forall n :: 0 <= n < |log| * SAMPLES ==> LineSample(log + [e], n) == LineSample(log, n)
  {
  }

  lemma SampleIndexOf(f: nat, k: nat)
    requires k < SAMPLES
    ensures (SAMPLES * f + k) / SAMPLES == f && (SAMPLES * f + k) % SAMPLES == k
  {
    var n := SAMPLES * f + k;
    var q := n / SAMPLES;
    assert n == SAMPLES * q + n % SAMPLES;
    assert SAMPLES * (q - f) == k - n % SAMPLES;
  }

  /** Sample k of fragment f, in the buffer and in the log. */
  lemma LineSampleAt(log: seq<Entry>, f: nat, k: nat)
    requires LogOk(log) && f < |log| && k < SAMPLES
    ensures (SAMPLES * f + k) / SAMPLES < |log| && EntryOk(log[f])
    ensures LineSample(log, SAMPLES * f + k) == Window(log[f], f)[k]
  {
    SampleIndexOf(f, k);
    hide Window;
  }

  lemma FragmentSamples(buf: seq<i16>, log: seq<Entry>, f: nat)
    requires LogOk(log) && f < |log| && SAMPLES * (f + 1) <= |buf|
    requires buf[f * SAMPLES..f * SAMPLES + SAMPLES] == Window(log[f], f)
    ensures forall n :: f * SAMPLES <= n < (f + 1) * SAMPLES ==> buf[n] == LineSample(log, n)
  {
    var base := SAMPLES * f;
    assert buf[base..base + SAMPLES] == Window(log[f], f);
    hide Window, LineSample, LogOk;
    forall n | base <= n < base + SAMPLES ensures n / SAMPLES < |log| && buf[n] == LineSample(log, n) {
      LineSampleAt(log, f, n - base);
      assert buf[n] == buf[base..base + SAMPLES][n - base];
    }
  }

  lemma CutFragment(buf: seq<i16>, log: seq<Entry>, f: nat)
    requires LogOk(log) && BufferHolds(buf, log) && f < FRAGMENTS
    ensures EntryOk(log[f]) && buf[SAMPLES * f..SAMPLES * (f + 1)] == Window(log[f], f)
  {
    var piece, want := buf[SAMPLES * f..SAMPLES * (f + 1)], Window(log[f], f);
    hide Window, LineSample, EntryOk;
    forall k | 0 <= k < SAMPLES ensures piece[k] == want[k] {
      LineSampleAt(log, f, k);
    }
  }

  /** A ring cut from a buffer that holds the mix delivers it. */
  lemma RingFromBuffer(buf: seq<i16>, log: seq<Entry>, ss: seq<Source>)
    requires LogOk(log) && BufferHolds(buf, log) && Traced(log, ss) && |ss| == MAX_SOURCES
    ensures Delivered(Cut(buf), log, ss, 0)
  {
    var dma := Cut(buf);
    assert |log| == FRAGMENTS;
    forall f | 0 <= f < FRAGMENTS ensures EntryOk(log[f]) && dma[f] == Window(log[f], f) {
      CutFragment(buf, log, f);
    }
    hide Window, Traced, EntryOk, BufferHolds, Cut;
    assert RingHolds(dma, log, 0) by {
      forall f | 0 <= f < |log| ensures dma[f % FRAGMENTS] == Window(log[f], f) {
        assert f % FRAGMENTS == f;
      }
    }
  }
}
