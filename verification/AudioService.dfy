/** The engine entry points of src/audio/audio_service.c, updating the global source table and ring in place. */
module AudioService {
  import opened Words
  import opened AudioMixer
  import opened AudioSamples
  import opened AudioRing
  import opened AudioStream
  import opened AudioEngine
  import opened AudioLine

  predicate AllUsed(ss: seq<Source>) { forall i :: 0 <= i < |ss| ==> ss[i].used }

  predicate NotPlaying(ss: seq<Source>, app: u32) {
    forall i :: 0 <= i < |ss| && ss[i].used ==> ss[i].appId != app
  }

  lemma OthersDiffer(ss: seq<Source>, index: nat, id: nat, heap: set<nat>)
    requires TableOk(ss, id, heap) && index < |ss| && ss[index].used
    ensures NotPlaying(ss[index := FREE], ss[index].appId)
  {
  }

  lemma MarkedOwners(ss: seq<Source>, played: nat, drainFrames: nat)
    ensures SameOwners(ss, MarkedAll(ss, played, drainFrames))
    ensures SourcesOk(ss) ==> SourcesOk(MarkedAll(ss, played, drainFrames))
  {
  }

  lemma SameOwnersSamePcm(ss: seq<Source>, ss': seq<Source>)
    requires SameOwners(ss, ss')
    ensures PcmOf(ss') == PcmOf(ss)
  {
  }

  /** What the backend reports and does when a fresh ring is started. */
  datatype Startup = Startup(ok: bool, padding: nat, drain: nat, plays: bool, clock: u32)

  /** A completed source leaves its slot free; any other stays as it is. */
  function Reaped(s: Source): Source { if s.used && s.completed then FREE else s }

  lemma TableShape(ss: seq<Source>, id: nat, heap: set<nat>)
    requires TableOk(ss, id, heap)
    ensures |ss| == MAX_SOURCES && PcmOf(ss) <= heap
  {
  }

  lemma TableSources(ss: seq<Source>, id: nat, heap: set<nat>)
    requires TableOk(ss, id, heap)
    ensures SourcesOk(ss) && Distinct(ss)
  {
  }

  lemma FreeHasNoPcm(ss: seq<Source>)
    requires AllFree(ss)
    ensures PcmOf(ss) == {}
  {
  }

  lemma InUsePcm(ss: seq<Source>, i: nat)
    requires i < |ss| && ss[i].used
    ensures ss[i].pcm in PcmOf(ss)
  {
  }

  /** What becomes of the primary source and the status when slot `at` is freed: nothing if another was primary;
      completion if it had completed; otherwise the latest live source takes over and is shown, or nothing is. */
  predicate Succession(ss: seq<Source>, at: nat, completed: bool, first: nat, before: Status, primary: nat,
                       after: Status, played: nat) {
    if first != at then primary == first && after == before
    else if completed then
      primary == NO_SOURCE && after.completed && !after.playing && after.playedFrames == after.sourceFrames
    else
      && IsLatest(ss, primary)
      && if primary < |ss| then Shows(after, ss[primary], played)
         else !after.playing && after.activeApp == 0 && !after.completed
  }

  // ----- starting -----

  /** The source is the request's sound, all of it, at that place in the stream. */
  predicate Starts(s: Source, p: Prepared, app: u32, start: nat, id: nat)
    requires p.pcm.Some?
  {
    && s.used && !s.completed && s.appId == app && s.playbackId == id && s.start == start
    && s.channels == p.channels && s.frames == p.frames && s.samples == p.samples && s.pcm == p.pcm.value
  }

  /** A decoded source that may be started. */
  predicate Offered(p: Prepared) {
    p.error == 0 && p.pcm.Some? && p.frames > 0 && (p.channels == 1 || p.channels == 2)
  }

  /** The source a request becomes. */
  function Installed(p: Prepared, app: u32, start: nat, id: nat): Source
    requires p.pcm.Some?
  {
    Source(true, false, p.channels, app, p.pcm.value, p.samples, p.frames, 0, start, id)
  }

  /** The backend can start a ring: a fragment-aligned latency within it, and a stream that plays. */
  predicate StartupOk(s: Startup) {
    s.ok && s.padding <= RING && s.drain <= RING && s.padding % FRAGMENT == 0 && s.drain % FRAGMENT == 0 && s.plays
  }

  /** A live source of another application. */
  predicate Stays(s: Source, played: nat, drainFrames: nat, app: u32) {
    Outlives(s, played, drainFrames) && s.appId != app
  }

  /** Who stays, in numbers: a live source of another application with a frame or part of the drain still to play. */
  lemma StaysExactly(s: Source, played: nat, drainFrames: nat, app: u32)
    ensures Stays(s, played, drainFrames, app) <==>
            s.used && !s.completed && s.appId != app && played < s.start + 4 * (s.frames + drainFrames)
  {
  }

  /** The backend's latency and drain are up to sixteen whole fragments of 4096 bytes. */
  lemma StartupExactly(s: Startup)
    ensures StartupOk(s) <==>
            s.ok && s.plays && (exists n :: 0 <= n <= 16 && s.padding == 4096 * n) &&
            (exists n :: 0 <= n <= 16 && s.drain == 4096 * n)
  {
    var a, b := s.padding / 4096, s.drain / 4096;
    assert s.padding == 4096 * a + s.padding % 4096 && s.drain == 4096 * b + s.drain % 4096;
  }

  function Staying(ss: seq<Source>, played: nat, drainFrames: nat, app: u32): nat {
    if ss == [] then 0
    else Staying(ss[..|ss| - 1], played, drainFrames, app) +
         if Stays(ss[|ss| - 1], played, drainFrames, app) then 1 else 0
  }

  /** Exactly the live sources of other applications are left. */
  predicate SettledAs(ss: seq<Source>, ss': seq<Source>, played: nat, drainFrames: nat, app: u32) {
    && |ss'| == |ss|
    && forall i :: 0 <= i < |ss| ==>
         ss'[i].used == Stays(ss[i], played, drainFrames, app) && (ss'[i].used ==> SameStream(ss[i], ss'[i]))
  }

  /** Every live source of another application is still in its slot. */
  predicate Remain(ss: seq<Source>, ss': seq<Source>, played: nat, drainFrames: nat, app: u32) {
    && |ss'| == |ss|
    && forall i :: 0 <= i < |ss| && Stays(ss[i], played, drainFrames, app) ==> ss'[i].used && SameStream(ss[i], ss'[i])
  }

  /** Nobody else plays: a source in use is the application's own, or one that stayed. */
  predicate NobodyElse(ss: seq<Source>, ss': seq<Source>, joins: bool, played: nat, drainFrames: nat, app: u32) {
    && |ss'| == |ss|
    && forall i :: 0 <= i < |ss| && ss'[i].used && ss'[i].appId != app ==>
                     joins && Stays(ss[i], played, drainFrames, app)
  }

  /** The sources there were are as they were, and any new one is the application's. */
  predicate OnlyAdds(ss: seq<Source>, ss': seq<Source>, app: u32) {
    && |ss'| == |ss|
    && (forall i :: 0 <= i < |ss| && ss[i].used ==> ss'[i] == ss[i])
    && forall i :: 0 <= i < |ss| && ss'[i].used && !ss[i].used ==> ss'[i].appId == app
  }

  lemma SettledRemain(
    ss: seq<Source>, settled: seq<Source>, ss': seq<Source>, played: nat, drainFrames: nat, app: u32)
    requires SettledAs(ss, settled, played, drainFrames, app) && OnlyAdds(settled, ss', app)
    ensures Remain(ss, ss', played, drainFrames, app) && NobodyElse(ss, ss', true, played, drainFrames, app)
  {
    hide Stays;
  }

  lemma AddsNothing(ss: seq<Source>, app: u32)
    ensures OnlyAdds(ss, ss, app)
  {
  }

  lemma FreshIsAlone(
    ss: seq<Source>, settled: seq<Source>, ss': seq<Source>, played: nat, drainFrames: nat, app: u32)
    requires AllFree(settled) && |settled| == |ss| && OnlyAdds(settled, ss', app)
    ensures NobodyElse(ss, ss', false, played, drainFrames, app)
  {
  }

  lemma {:induction false} StayingCount(
    ss: seq<Source>, ss': seq<Source>, played: nat, drainFrames: nat, app: u32)
    requires SettledAs(ss, ss', played, drainFrames, app)
    ensures Staying(ss, played, drainFrames, app) > 0 <==> !AllFree(ss')
    ensures Staying(ss, played, drainFrames, app) <= |ss|
    ensures Staying(ss, played, drainFrames, app) < |ss| <==> !AllUsed(ss')
  {
    hide Stays;
    if ss != [] {
      var n := |ss| - 1;
      var rest := ss'[..n];
      StayingCount(ss[..n], rest, played, drainFrames, app);
      assert forall i :: 0 <= i < n ==> rest[i] == ss'[i];
      if i :| 0 <= i < n && rest[i].used { assert ss'[i].used; }
      if i :| 0 <= i < n && !rest[i].used { assert !ss'[i].used; }
    }
  }

  lemma OnlyOthers(ss: seq<Source>, app: u32)
    requires NotPlaying(ss, app)
    ensures forall i :: 0 <= i < |ss| && ss[i].used ==> ss[i].appId != app
  {
  }

  class Engine {
    var sources: seq<Source>
    var primary: nat
    var ring: Ring
    var status: Status
    var streaming: bool
    var pending: int
    var volumes: Volumes
    var globalVolume: nat
    const mixer: Mixer
    const buffer: array<i16>
    var dma: seq<seq<i16>>       // the device's ring, by fragment
    ghost var log: seq<Entry>    // what every fragment queued so far was mixed from
    ghost var heap: set<nat>     // decoded PCM buffers that are allocated
    ghost var dev: Device        // the device as of the last accepted reading

    /** Allocated buffers that no source owns: those still with a request. */
    ghost function Loose(): set<nat>
      reads this
    {
      heap - PcmOf(sources)
    }

    ghost predicate TableValid()
      reads this
    {
      && TableOk(sources, status.playbackId, heap) && VolumesOk(volumes) && globalVolume <= VOLUME_MAX
      && buffer.Length == RING / 2 && |dma| == FRAGMENTS
      && primary <= NO_SOURCE && (primary < NO_SOURCE ==> sources[primary].used)
    }

    /** The reported progress is that of the primary source. */
    ghost predicate StatusOk()
      reads this
    {
      primary < NO_SOURCE && primary < |sources| ==> status.playedFrames == PlayedFrames(sources[primary], ring.played)
    }

    ghost predicate Valid()
      reads this
    {
      && TableValid()
      && (!streaming ==> AllFree(sources) && pending == 0)
      && (streaming ==> !AllFree(sources) && StatusOk())
      && (streaming && pending == 0 ==> LineOk(ring, dev, sources, dma, log))
    }

    constructor ()
      ensures Valid() && !streaming && heap == {} && fresh(mixer) && fresh(buffer)
    {
      sources, primary := seq(MAX_SOURCES, _ => FREE), NO_SOURCE;
      ring := Ring(0, 0, 0, 0, 0, 0, 0);
      status := Status(false, 0, 0, 0, false, 0, 0);
      streaming, pending, volumes, globalVolume := false, 0, map[], VOLUME_MAX;
      mixer := new Mixer();
      buffer := new i16[RING / 2](_ => 0);
      dma, log := seq(FRAGMENTS, _ => []), [];
      heap, dev := {}, Device(0, 0, true);
    }

    /** audio_service_source_release: task context only, the one place that frees decoded PCM. */
    method SourceRelease(index: nat)
      requires TableOk(sources, status.playbackId, heap) && index < MAX_SOURCES && sources[index].used
      modifies this`sources, this`heap
      ensures TableOk(sources, status.playbackId, heap) && sources == old(sources)[index := FREE]
      ensures old(sources)[index].pcm in old(heap) && heap == old(heap) - {old(sources)[index].pcm}
      ensures PcmOf(sources) == PcmOf(old(sources)) - {old(sources)[index].pcm}
    {
      ReleaseFreesOne(sources, index, status.playbackId, heap);
      heap := heap - {sources[index].pcm};
      sources := sources[index := FREE];
    }

    /** audio_engine_stop. */
    method Stop()
      requires TableValid()
      modifies this`sources, this`heap, this`primary, this`streaming, this`pending, this`status
      ensures Valid() && !streaming && pending == 0 && AllFree(sources) && primary == NO_SOURCE
      ensures heap == old(heap) - PcmOf(old(sources)) && status.playbackId == old(status).playbackId
      ensures !status.playing && status.activeApp == 0 && !status.completed
      ensures Loose() == old(Loose())
      ensures forall k :: 0 <= k < MAX_SOURCES && !old(sources)[k].used ==> sources[k] == old(sources)[k]
    {
      pending := 0;
      for i := 0 to MAX_SOURCES
        invariant TableOk(sources, status.playbackId, heap) && status == old(status) && pending == 0
        invariant forall k :: 0 <= k < i ==> !sources[k].used
        invariant forall k :: 0 <= k < MAX_SOURCES && !old(sources)[k].used ==> sources[k] == old(sources)[k]
        invariant PcmOf(sources) <= PcmOf(old(sources)) && heap == old(heap) - (PcmOf(old(sources)) - PcmOf(sources))
      {
        if sources[i].used {
          assert sources[i].pcm in PcmOf(sources);
          SourceRelease(i);
        }
      }
      assert PcmOf(sources) == {};
      primary := NO_SOURCE;
      streaming := false;
      status := status.(playing := false, activeApp := 0, completed := false);
    }

    /** audio_service_source_find. */
    method Find(app: u32) returns (index: nat)
      requires |sources| == MAX_SOURCES
      ensures index <= NO_SOURCE
      ensures index < NO_SOURCE ==> sources[index].used && sources[index].appId == app
      ensures index == NO_SOURCE ==> forall i :: 0 <= i < MAX_SOURCES && sources[i].used ==> sources[i].appId != app
    {
      for i := 0 to MAX_SOURCES
        invariant forall k :: 0 <= k < i && sources[k].used ==> sources[k].appId != app
      {
        if sources[i].used && sources[i].appId == app { return i; }
      }
      return NO_SOURCE;
    }

    /** audio_service_source_latest: the live source with the greatest playback id. */
    method Latest() returns (best: nat)
      requires |sources| == MAX_SOURCES
      ensures best <= NO_SOURCE && IsLatest(sources, best)
    {
      best := NO_SOURCE;
      for i := 0 to MAX_SOURCES
        invariant best <= NO_SOURCE
        invariant best < NO_SOURCE ==> sources[best].used && !sources[best].completed
        invariant forall k :: 0 <= k < i && sources[k].used && !sources[k].completed ==>
                    best < NO_SOURCE && sources[k].playbackId <= sources[best].playbackId
      {
        if !sources[i].used || sources[i].completed { continue; }
        if best == NO_SOURCE || sources[i].playbackId > sources[best].playbackId { best := i; }
      }
    }

    /** audio_service_primary_sync. */
    method PrimarySync()
      requires primary < NO_SOURCE && |sources| == MAX_SOURCES && sources[primary].used
      modifies this`status
      ensures Shows(status, sources[primary], ring.played) && status.lastError == old(status).lastError
    {
      var s := sources[primary];
      status := status.(activeApp := s.appId, sourceFrames := s.frames, playedFrames := PlayedFrames(s, ring.played),
                        playbackId := s.playbackId, playing := true, completed := false);
    }

    /** audio_service_primary_complete. */
    method PrimaryComplete()
      modifies this`status, this`primary
      ensures primary == NO_SOURCE && status.playbackId == old(status).playbackId
      ensures status.playedFrames == status.sourceFrames && status.completed && !status.playing
    {
      status := status.(playedFrames := status.sourceFrames, completed := true, playing := false, activeApp := 0);
      primary := NO_SOURCE;
    }

    /** The end of audio_engine_stop_app: when the primary source has gone, the latest live one takes its place. */
    method Succeed(at: nat, completed: bool)
      requires TableOk(sources, status.playbackId, heap) && primary <= NO_SOURCE
      requires at < MAX_SOURCES && !sources[at].used
      requires primary < NO_SOURCE && primary != at ==> sources[primary].used && StatusOk()
      modifies this`primary, this`status
      ensures TableOk(sources, status.playbackId, heap) && StatusOk()
      ensures primary <= NO_SOURCE && (primary < NO_SOURCE ==> sources[primary].used)
      ensures Succession(sources, at, completed, old(primary), old(status), primary, status, ring.played)
    {
      hide Distinct, SourcesOk, PcmOf;
      if primary != at { return; }
      if completed {
        PrimaryComplete();
        return;
      }
      primary := Latest();
      if primary == NO_SOURCE {
        status := status.(playing := false, activeApp := 0, completed := false);
      } else {
        PrimarySync();
      }
    }

    /** audio_engine_stop_app: one application's source goes, the others and the ring stay as they are. */
    method StopApp(app: u32) returns (rc: int, ghost index: nat)
      requires Valid()
      modifies this`sources, this`heap, this`primary, this`streaming, this`pending, this`status
      ensures Valid()
      ensures rc == (if app == 0 || NotPlaying(old(sources), app) then -1 else 0)
      ensures rc == -1 ==> sources == old(sources) && heap == old(heap) && streaming == old(streaming) &&
                           pending == old(pending)
      ensures rc == 0 ==> index < MAX_SOURCES && old(sources)[index].used && old(sources)[index].appId == app &&
                          sources == old(sources)[index := FREE] && heap == old(heap) - {old(sources)[index].pcm} &&
                          streaming == !AllFree(sources)
      ensures Loose() == old(Loose()) && (old(NoneCompleted(sources)) ==> NoneCompleted(sources))
      ensures app != 0 ==> NotPlaying(sources, app)
      ensures streaming ==> pending == old(pending) && old(streaming)
      ensures rc == -1 ==> primary == old(primary) && status == old(status)
      ensures rc == 0 ==>
                if streaming then
                  Succession(sources, index, old(sources)[index].completed, old(primary), old(status), primary, status,
                             ring.played)
                else primary == NO_SOURCE && !status.playing && status.activeApp == 0
    {
      hide TableOk, LineOk, PcmOf, Succession;
      index := NO_SOURCE;
      if app == 0 { return -1, index; }
      TableShape(sources, status.playbackId, heap);
      var at := Find(app);
      index := at;
      if at == NO_SOURCE { return -1, index; }
      OthersDiffer(sources, at, status.playbackId, heap);
      Drop(at);
      return 0, index;
    }

    /** audio_engine_stop_app once the source is found. */
    method Drop(at: nat)
      requires Valid() && at < MAX_SOURCES && sources[at].used
      modifies this`sources, this`heap, this`primary, this`streaming, this`pending, this`status
      ensures Valid() && Loose() == old(Loose())
      ensures sources == old(sources)[at := FREE] && heap == old(heap) - {old(sources)[at].pcm}
      ensures streaming == !AllFree(sources) && (streaming ==> pending == old(pending) && old(streaming))
      ensures if streaming then
                Succession(
                  sources, at, old(sources)[at].completed, old(primary), old(status), primary, status, ring.played)
              else primary == NO_SOURCE && !status.playing && status.activeApp == 0
    {
      hide TableOk, LineOk, PcmOf, Succession;
      TableShape(sources, status.playbackId, heap);
      var completed := sources[at].completed;
      if pending == 0 { LineReleased(ring, dev, sources, dma, log, at); }
      InUsePcm(sources, at);
      SourceRelease(at);
      var inUse := SourcesInUse();
      if inUse {
        Succeed(at, completed);
      } else {
        if primary == at { primary := NO_SOURCE; }
        FreeHasNoPcm(sources);
        Stop();
      }
      TableShape(sources, status.playbackId, heap);
    }

    /** audio_service_sources_in_use. */
    method SourcesInUse() returns (yes: bool)
      requires |sources| == MAX_SOURCES
      ensures yes <==> !AllFree(sources)
    {
      for i := 0 to MAX_SOURCES
        invariant forall k :: 0 <= k < i ==> !sources[k].used
      {
        if sources[i].used { return true; }
      }
      return false;
    }

    /** audio_request_finish. */
    method Finish(result: int)
      modifies this`pending
      ensures pending == result
    {
      pending := result;
    }

    /** The progress loop of audio_engine_poll_irq: completion is only marked, never reaped. */
    method MarkCompleted() returns (all: bool)
      requires |sources| == MAX_SOURCES
      modifies this`sources
      ensures sources == MarkedAll(old(sources), ring.played, ring.drainFrames)
      ensures all <==> AllCompleted(sources)
    {
      all := true;
      for i := 0 to MAX_SOURCES
        invariant |sources| == MAX_SOURCES
        invariant forall k :: 0 <= k < i ==> sources[k] == Marked(old(sources)[k], ring.played, ring.drainFrames)
        invariant forall k :: i <= k < MAX_SOURCES ==> sources[k] == old(sources)[k]
        invariant all <==> forall k :: 0 <= k < i && sources[k].used ==> sources[k].completed
      {
        var s := sources[i];
        if !s.used { continue; }
        if !s.completed && Finished(s, ring.played, ring.drainFrames) {
          sources := sources[i := s.(completed := true)];
        }
        if !sources[i].completed { all := false; }
      }
      assert sources == MarkedAll(old(sources), ring.played, ring.drainFrames);
    }

    /** The backend's refill_fragment: the fragment of the device's ring takes the start of the mix buffer. */
    method RefillFragment(fragment: nat, refillOk: nat -> bool) returns (ok: bool)
      requires fragment < |dma| && buffer.Length == RING / 2
      modifies this`dma
      ensures ok == refillOk(fragment)
      ensures dma == if ok then old(dma)[fragment := buffer[..SAMPLES]] else old(dma)
    {
      ok := refillOk(fragment);
      if ok { dma := dma[fragment := buffer[..SAMPLES]]; }
    }

    /** The refill loop of audio_engine_poll_irq. Each fragment is mixed from where the queue ends and goes into the
        slot of a fragment the device has retired; a backend failure (`refillOk`) stops the stream. */
    method Refill(retired: nat, refillOk: nat -> bool)
      requires |sources| == MAX_SOURCES && SourcesOk(sources) && VolumesOk(volumes) && globalVolume <= VOLUME_MAX
      requires buffer.Length == RING / 2 && pending == 0 && |dma| == FRAGMENTS
      requires ring.refilled <= retired && ring.queued == RING + FRAGMENT * ring.refilled
      requires AllExact(sources, ring.queued) && Delivered(dma, log, sources, ring.refilled) && Distinct(sources)
      modifies this`sources, this`ring, this`pending, this`dma, this`log, mixer, buffer
      ensures SourcesOk(sources) && SameOwners(old(sources), sources) && |dma| == FRAGMENTS
      ensures pending == if Refills(old(ring).refilled, retired, refillOk) then 0 else -5
      ensures pending == 0 ==>
                && AllExact(sources, ring.queued) && Delivered(dma, log, sources, retired) && old(log) <= log
                && ring == old(ring).(refilled := retired, queued := RING + FRAGMENT * retired)
                && QueuedFrom(log, |old(log)|, old(sources), volumes, globalVolume)
      ensures ring.played == old(ring).played && ring.drainFrames == old(ring).drainFrames
      ensures forall i :: 0 <= i < MAX_SOURCES ==> sources[i].completed == old(sources)[i].completed
    {
      ghost var start := sources;
      QueuedNothing(log, sources, volumes, globalVolume);
      hide AllExact, SourcesOk, FragmentOutput, Window, Delivered, Distinct, QueuedFrom;
      while ring.refilled < retired
        invariant ring.refilled <= retired && ring.queued == RING + FRAGMENT * ring.refilled && pending == 0
        invariant ring == old(ring).(refilled := ring.refilled, queued := ring.queued)
        invariant SourcesOk(sources) && SameOwners(start, sources) && AllExact(sources, ring.queued)
        invariant Distinct(sources) && |sources| == MAX_SOURCES && |dma| == FRAGMENTS && old(log) <= log
        invariant QueuedFrom(log, |old(log)|, start, volumes, globalVolume)
        invariant Delivered(dma, log, sources, ring.refilled) && Refills(old(ring).refilled, ring.refilled, refillOk)
        invariant forall i :: 0 <= i < MAX_SOURCES ==> sources[i].completed == start[i].completed
        decreases retired - ring.refilled
      {
        ghost var before, log0 := sources, log;
        RefillOne(refillOk);
        FilledOwners(before);
        OwnersThrough(start, before, sources);
        if pending != 0 { return; }
        OwnersDistinct(before, sources);
        QueuedMore(log0, |old(log)|, start, Entry(volumes, before, globalVolume));
      }
    }

    /** One turn of the refill loop. */
    method RefillOne(refillOk: nat -> bool)
      requires |sources| == MAX_SOURCES && SourcesOk(sources) && VolumesOk(volumes) && globalVolume <= VOLUME_MAX
      requires buffer.Length == RING / 2 && pending == 0 && |dma| == FRAGMENTS && Distinct(sources)
      requires ring.queued == RING + FRAGMENT * ring.refilled
      requires AllExact(sources, ring.queued) && Delivered(dma, log, sources, ring.refilled)
      modifies this`sources, this`ring, this`pending, this`dma, this`log, mixer, buffer
      ensures SourcesOk(sources) && sources == Filled(old(sources)) && |dma| == FRAGMENTS
      ensures pending == if refillOk(old(ring).refilled % FRAGMENTS) then 0 else -5
      ensures pending != 0 ==> ring == old(ring)
      ensures pending == 0 ==>
                && ring == old(ring).(refilled := old(ring).refilled + 1, queued := old(ring).queued + FRAGMENT)
                && log == old(log) + [Entry(volumes, old(sources), globalVolume)]
                && AllExact(sources, ring.queued) && Delivered(dma, log, sources, ring.refilled)
    {
      hide AllExact, SourcesOk, FragmentOutput, Window, Delivered, Distinct;
      var fragment := ring.refilled % FRAGMENTS;
      FillKeepsExact(sources, ring.queued);
      ghost var e := Entry(volumes, sources, globalVolume);
      FragmentIsWindow(e, FRAGMENTS + ring.refilled);
      var rc, after := FillFragment(mixer, volumes, sources, globalVolume, buffer, 0);
      DeliverNext(dma, log, sources, ring.refilled, e, after);
      FilledOk(sources);
      sources := after;
      var ok := RefillFragment(fragment, refillOk);
      if rc != 0 || !ok {
        Finish(-5);
        return;
      }
      log := log + [e];
      ring := ring.(refilled := ring.refilled + 1, queued := ring.queued + FRAGMENT);
    }

    /** audio_engine_poll_irq: no buffer is freed here. The verdict is exactly that of PollResult. After an accepted
        poll every retired fragment is refilled, the queue is more than 15 fragments ahead of where the device was,
        the log only grew, no fragment the device may be in was touched, and the reported progress is within what was
        mixed. */
    method PollIrq(reading: Reading, ghost now: Device, refillOk: nat -> bool)
      requires Valid() && (streaming && pending == 0 ==> Advances(dev, now)) && (reading.ok ==> Truthful(reading, now))
      modifies this`sources, this`ring, this`pending, this`status, this`dev, this`dma, this`log, mixer, buffer
      ensures Valid() && SameOwners(old(sources), sources) && status.playbackId == old(status).playbackId
      ensures old(streaming) && old(pending) == 0 ==>
                pending == PollResult(old(sources), old(ring), reading, refillOk)
      ensures old(streaming) && old(pending) == 0 && pending == 0 ==>
                && dev == now && ring.played == now.total && ring.refilled == now.total / FRAGMENT
                && 61440 < ring.queued - now.total <= RING && ring.drainFrames == old(ring).drainFrames
                && MarkedAs(old(sources), sources, now.total, ring.drainFrames) && !AllCompleted(sources)
                && old(log) <= log && Untouched(old(dma), dma, now.total / FRAGMENT, |old(log)|)
                && QueuedFrom(log, |old(log)|, old(sources), volumes, globalVolume)
                && (primary < NO_SOURCE ==> status.playedFrames <= sources[primary].cursor)
                && ring.lastClock == reading.clock
                && ring.lastProgress == if now.total > old(ring).played then reading.clock else old(ring).lastProgress
      ensures old(streaming) && old(pending) == 0 && pending == 1 ==> AllCompleted(sources)
      ensures !old(streaming) || old(pending) != 0 ==>
                && sources == old(sources) && ring == old(ring) && pending == old(pending) && status == old(status)
                && dma == old(dma) && log == old(log)
    {
      hide LineOk, Distinct, IdsBelow, PcmOf, SourcesOk, MarkedAll;
      if !streaming || pending != 0 { return; }
      if !reading.ok || !reading.playing || reading.error { Finish(-4); return; }
      if reading.bufferBytes != RING || ClockDelta(reading.clock, ring.lastClock) >= POLL_GAP { Finish(-5); return; }
      var advance := RingAdvance(ring.lastPosition, reading.position);
      if advance.None? { Finish(-5); return; }
      LineRecovers(ring, dev, sources, dma, log, now, reading);
      Proceed(advance.value, reading, now, refillOk);
    }

    /** audio_engine_poll_irq from an accepted reading to the completion marks. */
    method Account(advance: nat, reading: Reading)
      requires TableValid() && StatusOk() && !AllFree(sources) && pending == 0
      requires reading.bufferBytes == RING && ClockDelta(reading.clock, ring.lastClock) < POLL_GAP
      requires RingAdvance(ring.lastPosition, reading.position) == Some(advance)
      modifies this`sources, this`ring, this`pending, this`status
      ensures TableValid() && StatusOk() && !AllFree(sources) && SameOwners(old(sources), sources)
      ensures status.playbackId == old(status).playbackId
      ensures TakenIn(old(ring), reading).None? ==> pending == -5 && sources == old(sources)
      ensures TakenIn(old(ring), reading).Some? ==>
                && ring == TakenIn(old(ring), reading).value
                && sources == MarkedAll(old(sources), ring.played, ring.drainFrames)
                && pending == if AllCompleted(sources) then 1 else 0
    {
      hide Distinct, IdsBelow, PcmOf, SourcesOk, Marked, MarkedAll;
      ring := ring.(lastPosition := reading.position, lastClock := reading.clock,
                    lastProgress := if advance > 0 then reading.clock else ring.lastProgress);
      if ClockDelta(reading.clock, ring.lastProgress) >= STALL { Finish(-5); return; }
      ring := ring.(played := ring.played + advance);
      MarkedOwners(sources, ring.played, ring.drainFrames);
      TableKept(sources, MarkedAll(sources, ring.played, ring.drainFrames), status.playbackId, heap);
      var all := MarkCompleted();
      if primary != NO_SOURCE { status := status.(playedFrames := PlayedFrames(sources[primary], ring.played)); }
      if all { Finish(1); }
    }

    /** The accepted half of audio_engine_poll_irq. */
    method Proceed(advance: nat, reading: Reading, ghost now: Device, refillOk: nat -> bool)
      requires Valid() && streaming && pending == 0 && Truthful(reading, now)
      requires reading.ok && reading.playing && !reading.error && reading.bufferBytes == RING
      requires ClockDelta(reading.clock, ring.lastClock) < POLL_GAP
      requires RingAdvance(ring.lastPosition, reading.position) == Some(advance)
      requires ring.played + advance == now.total < ring.queued && advance < RING
      modifies this`sources, this`ring, this`pending, this`status, this`dev, this`dma, this`log, mixer, buffer
      ensures Valid() && SameOwners(old(sources), sources) && status.playbackId == old(status).playbackId
      ensures pending == PollResult(old(sources), old(ring), reading, refillOk)
      ensures pending == 0 ==>
                && dev == now && ring.played == now.total && ring.refilled == now.total / FRAGMENT
                && 61440 < ring.queued - now.total <= RING && ring.drainFrames == old(ring).drainFrames
                && MarkedAs(old(sources), sources, now.total, ring.drainFrames) && !AllCompleted(sources)
                && old(log) <= log && Untouched(old(dma), dma, now.total / FRAGMENT, |old(log)|)
                && QueuedFrom(log, |old(log)|, old(sources), volumes, globalVolume)
                && (primary < NO_SOURCE ==> status.playedFrames <= sources[primary].cursor)
                && ring.lastClock == reading.clock
                && ring.lastProgress == if advance > 0 then reading.clock else old(ring).lastProgress
      ensures pending == 1 ==> AllCompleted(sources)
    {
      hide TableOk, LineOk, PcmOf, AllExact, SourcesOk, Position, Delivered, MarkedAll, Marked, MarkedAs, Untouched,
           QueuedFrom;
      ghost var before := sources;
      LineParts(ring, dev, sources, dma, log);
      Account(advance, reading);
      if pending != 0 { return; }
      LineMarked(before, sources, ring, ring.queued, dma, log);
      ghost var marked, from := sources, |log|;
      Serve(now, refillOk);
      MarkedThenRefilled(before, marked, sources, now.total, ring.drainFrames);
      if pending == 0 { QueuedThrough(log, from, before, marked, volumes, globalVolume); }
    }

    /** The refill at the end of audio_engine_poll_irq, up to the retired fragment. */
    method Serve(ghost now: Device, refillOk: nat -> bool)
      requires TableValid() && StatusOk() && !AllFree(sources) && streaming && pending == 0
      requires ring.played == now.total && ring.lastPosition == Position(now.total, now.wrapped)
      requires ring.lastClock == Clock(now) && ring.queued == RING + FRAGMENT * ring.refilled
      requires ring.refilled <= ring.played / FRAGMENT && ring.played < ring.queued
      requires AllExact(sources, ring.queued) && Delivered(dma, log, sources, ring.refilled)
      modifies this`sources, this`ring, this`pending, this`dev, this`dma, this`log, mixer, buffer
      ensures Valid() && SameOwners(old(sources), sources)
      ensures forall i :: 0 <= i < |sources| ==> sources[i].completed == old(sources)[i].completed
      ensures pending == if Refills(old(ring).refilled, now.total / FRAGMENT, refillOk) then 0 else -5
      ensures ring.drainFrames == old(ring).drainFrames
      ensures pending == 0 ==>
                && dev == now && ring.played == now.total && ring.refilled == now.total / FRAGMENT
                && 61440 < ring.queued - now.total <= RING
                && old(log) <= log && Untouched(old(dma), dma, now.total / FRAGMENT, |old(log)|)
                && QueuedFrom(log, |old(log)|, old(sources), volumes, globalVolume)
                && (primary < NO_SOURCE ==> status.playedFrames <= sources[primary].cursor)
                && ring.lastClock == old(ring).lastClock && ring.lastProgress == old(ring).lastProgress
    {
      hide TableOk, LineOk, PcmOf, AllExact, SourcesOk, Position, Delivered, Untouched, QueuedFrom, Distinct;
      var retired := ring.played / FRAGMENT;
      assert retired - ring.refilled <= FRAGMENTS; // so the source's overrun guard never fires
      ghost var start, dma0, log0, refilled := sources, dma, log, ring.refilled;
      TableShape(sources, status.playbackId, heap);
      TableSources(sources, status.playbackId, heap);
      Refill(retired, refillOk);
      TableKept(start, sources, status.playbackId, heap);
      if pending != 0 { return; }
      dev := now;
      LineServed(ring, dev, sources, dma, log);
      RefillUntouched(dma0, log0, start, refilled, dma, log, sources, retired);
      if primary < NO_SOURCE { ExactBounds(sources, primary, ring.played, ring.queued); }
    }

    /** The reaping loop of audio_engine_poll: task context, so memory may be released. Exactly the completed sources
        go; every other is as it was. */
    method Reap()
      requires Valid() && streaming && pending == 0 && !AllCompleted(sources)
      modifies this`sources, this`heap, this`primary, this`status
      ensures Valid() && NoneCompleted(sources) && Loose() == old(Loose()) && heap <= old(heap)
      ensures status.playbackId == old(status).playbackId
      ensures forall i :: 0 <= i < MAX_SOURCES ==> sources[i] == Reaped(old(sources)[i])
      ensures primary == (if old(primary) < NO_SOURCE && old(sources)[old(primary)].completed then NO_SOURCE
                          else old(primary))
    {
      hide TableOk, PcmOf, LineOk;
      TableShape(sources, status.playbackId, heap);
      ghost var live :| 0 <= live < MAX_SOURCES && sources[live].used && !sources[live].completed;
      ghost var start, first := sources, primary;
      hide TableValid, StatusOk;
      for i := 0 to MAX_SOURCES
        invariant TableValid() && StatusOk() && LineOk(ring, dev, sources, dma, log) && |sources| == MAX_SOURCES
        invariant Loose() == old(Loose()) && heap <= old(heap) && status.playbackId == old(status).playbackId
        invariant forall k :: 0 <= k < i ==> sources[k] == Reaped(start[k])
        invariant forall k :: i <= k < MAX_SOURCES ==> sources[k] == start[k]
        invariant primary == if first < i && start[first].completed then NO_SOURCE else first
      {
        ReapOne(i);
      }
      assert sources[live].used;
    }

    /** One turn of the reaping loop. */
    method ReapOne(i: nat)
      requires TableValid() && StatusOk() && LineOk(ring, dev, sources, dma, log) && i < MAX_SOURCES == |sources|
      modifies this`sources, this`heap, this`primary, this`status
      ensures TableValid() && StatusOk() && LineOk(ring, dev, sources, dma, log)
      ensures sources == old(sources)[i := Reaped(old(sources)[i])]
      ensures primary == if old(primary) == i && old(sources)[i].completed then NO_SOURCE else old(primary)
      ensures Loose() == old(Loose()) && heap <= old(heap) && status.playbackId == old(status).playbackId
    {
      hide TableOk, PcmOf, LineOk;
      if !sources[i].used || !sources[i].completed { return; }
      if i == primary { PrimaryComplete(); }
      LineReleased(ring, dev, sources, dma, log, i);
      InUsePcm(sources, i);
      SourceRelease(i);
    }

    /** audio_engine_poll; `idle` is whether the backend reports itself ready after a stop. The stream stops exactly
        on a verdict other than 0, and until then exactly the sources at their end leave the table. */
    method Poll(reading: Reading, ghost now: Device, refillOk: nat -> bool, idle: bool)
      requires Valid() && (streaming && pending == 0 ==> Advances(dev, now)) && (reading.ok ==> Truthful(reading, now))
      modifies this`sources, this`ring, this`pending, this`status, this`dev, this`dma, this`log, this`heap,
               this`primary, this`streaming, mixer, buffer
      ensures Valid() && pending == 0 && NoneCompleted(sources) && Loose() == old(Loose()) && heap <= old(heap)
      ensures status.playbackId == old(status).playbackId
      ensures streaming <==> old(streaming) && old(pending) == 0 &&
                             PollResult(old(sources), old(ring), reading, refillOk) == 0
      ensures streaming ==> dev == now && ring.played == now.total && old(log) <= log
      ensures streaming ==> QueuedFrom(log, |old(log)|, old(sources), volumes, globalVolume)
      ensures streaming ==> forall i :: 0 <= i < MAX_SOURCES ==>
                && sources[i].used == Outlives(old(sources)[i], now.total, old(ring).drainFrames)
                && (sources[i].used ==> SameStream(old(sources)[i], sources[i]))
    {
      hide TableOk, PcmOf, LineOk, PollResult, Advances, Finished, Untouched, QueuedFrom;
      ghost var before := sources;
      PollIrq(reading, now, refillOk);
      SameOwnersSamePcm(before, sources);
      TableShape(sources, status.playbackId, heap);
      if streaming && pending == 0 { Reap(); }
      if pending != 0 { Conclude(idle); }
    }

    /** The end of audio_engine_poll: the stream stops, and its verdict is recorded. */
    method Conclude(idle: bool)
      requires TableValid() && pending != 0
      modifies this`sources, this`heap, this`primary, this`streaming, this`pending, this`status
      ensures Valid() && !streaming && pending == 0 && NoneCompleted(sources)
      ensures Loose() == old(Loose()) && heap <= old(heap)
      ensures status.playbackId == old(status).playbackId
      ensures idle && old(pending) == 1 ==> status.completed && status.playedFrames == status.sourceFrames
      ensures !idle || old(pending) != 1 ==> status.lastError == if idle then old(pending) else -4
    {
      hide TableOk, PcmOf, LineOk;
      var result := pending;
      Stop();
      if !idle { result := -4; }
      if result == 1 {
        status := status.(playedFrames := status.sourceFrames, completed := true);
      } else {
        status := status.(lastError := result);
      }
    }

    /** audio_service_reject: the error is recorded and nothing else changes. */
    method Reject(error: int)
      requires Valid()
      modifies this`status
      ensures Valid() && status == old(status).(lastError := error)
    {
      hide TableOk, LineOk;
      status := status.(lastError := error);
    }

    /** audio_service_source_alloc. */
    method FreeSlot() returns (slot: nat)
      requires |sources| == MAX_SOURCES
      ensures slot <= NO_SOURCE && (slot < NO_SOURCE ==> !sources[slot].used)
      ensures slot == NO_SOURCE ==> forall i :: 0 <= i < MAX_SOURCES ==> sources[i].used
    {
      for i := 0 to MAX_SOURCES
        invariant forall k :: 0 <= k < i ==> sources[k].used
      {
        if !sources[i].used { return i; }
      }
      return NO_SOURCE;
    }

    /** kmemzero of one fragment of the mix buffer. */
    method Silence(at: nat)
      requires at + SAMPLES <= buffer.Length
      modifies buffer
      ensures forall k :: at <= k < at + SAMPLES ==> buffer[k] == 0
      ensures forall k :: 0 <= k < buffer.Length && !(at <= k < at + SAMPLES) ==> buffer[k] == old(buffer[k])
    {
      for j := 0 to SAMPLES
        invariant forall k :: at <= k < at + j ==> buffer[k] == 0
        invariant forall k :: 0 <= k < buffer.Length && !(at <= k < at + j) ==> buffer[k] == old(buffer[k])
      {
        buffer[at + j] := 0;
      }
    }

    /** Fill the whole ring buffer before the device starts: silence for the startup padding, then fragments. What is in
        the buffer is the continuous mix from its first frame, and the log says what each fragment was mixed from. */
    method Prefill(padding: nat)
      requires |sources| == MAX_SOURCES && SourcesOk(sources) && VolumesOk(volumes) && globalVolume <= VOLUME_MAX
      requires buffer.Length == RING / 2 && padding <= RING && padding % FRAGMENT == 0 && AllExact(sources, padding)
      requires AllStartAt(sources, padding) && Distinct(sources)
      modifies this`sources, this`log, mixer, buffer
      ensures SourcesOk(sources) && SameOwners(old(sources), sources) && AllExact(sources, RING)
      ensures forall i :: 0 <= i < MAX_SOURCES ==> sources[i].completed == old(sources)[i].completed
      ensures |log| == FRAGMENTS && LogOk(log) && Traced(log, sources) && BufferHolds(buffer[..], log)
      ensures QueuedFrom(log, 0, old(sources), volumes, globalVolume)
      ensures forall i :: 0 <= i < padding / 2 ==> buffer[i] == 0
    {
      ghost var start := sources;
      log := [];
      TracedNothing(sources);
      hide AllExact, SourcesOk, LogOk, Traced, AllStartAt, SameOwners, Distinct;
      for i := 0 to FRAGMENTS
        invariant |sources| == MAX_SOURCES && SourcesOk(sources) && SameOwners(start, sources)
        invariant AllExact(sources, if FRAGMENT * i < padding then padding else FRAGMENT * i)
        invariant AllStartAt(sources, padding) && Distinct(sources)
        invariant |log| == i && LogOk(log) && Traced(log, sources)
        invariant QueuedFrom(log, 0, start, volumes, globalVolume)
        invariant forall k :: 0 <= k < MAX_SOURCES ==> sources[k].completed == start[k].completed
        invariant forall n :: 0 <= n < i * SAMPLES ==> buffer[n] == LineSample(log, n)
        invariant forall n :: 0 <= n < i * SAMPLES && n < padding / 2 ==> buffer[n] == 0
      {
        ghost var before := sources;
        PrefillOne(i, padding);
        OwnersThrough(start, before, sources);
        OwnersDistinct(before, sources);
      }
    }

    /** One turn of the prefill loop. */
    method PrefillOne(i: nat, padding: nat)
      requires i < FRAGMENTS && |sources| == MAX_SOURCES && SourcesOk(sources) && VolumesOk(volumes)
      requires globalVolume <= VOLUME_MAX && buffer.Length == RING / 2 && padding % FRAGMENT == 0
      requires AllExact(sources, if FRAGMENT * i < padding then padding else FRAGMENT * i)
      requires AllStartAt(sources, padding) && Distinct(sources)
      requires |log| == i && LogOk(log) && Traced(log, sources)
      requires forall n :: 0 <= n < i * SAMPLES ==> buffer[n] == LineSample(log, n)
      modifies this`sources, this`log, mixer, buffer
      ensures |sources| == MAX_SOURCES && SourcesOk(sources) && SameOwners(old(sources), sources)
      ensures AllExact(sources, if FRAGMENT * (i + 1) < padding then padding else FRAGMENT * (i + 1))
      ensures AllStartAt(sources, padding) && |log| == i + 1 && LogOk(log) && Traced(log, sources)
      ensures log == old(log) + [Entry(volumes, old(sources), globalVolume)]
      ensures forall k :: 0 <= k < MAX_SOURCES ==> sources[k].completed == old(sources)[k].completed
      ensures forall n :: 0 <= n < (i + 1) * SAMPLES ==> buffer[n] == LineSample(log, n)
      ensures forall n :: 0 <= n < i * SAMPLES ==> buffer[n] == old(buffer[n])
      ensures FRAGMENT * i < padding ==>
                forall n :: i * SAMPLES <= n < (i + 1) * SAMPLES ==> buffer[n] == 0
    {
      hide AllExact, SourcesOk, Window, Traced, LineSample, AllStartAt, SameOwners, Distinct;
      ghost var e, log0 := Entry(volumes, sources, globalVolume), log;
      PrefillFragment(i, padding, e);
      TracedPrefill(log0, old(sources), e, sources, padding);
      log := log + [e];
      LogGrows(log0, e);
      FragmentSamples(buffer[..], log, i);
    }

    /** Silence in the startup padding, the mix after it: either way the window of the stream. */
    method PrefillFragment(i: nat, padding: nat, ghost e: Entry)
      requires i < FRAGMENTS && |sources| == MAX_SOURCES && SourcesOk(sources) && VolumesOk(volumes)
      requires globalVolume <= VOLUME_MAX && buffer.Length == RING / 2 && padding % FRAGMENT == 0
      requires AllExact(sources, if FRAGMENT * i < padding then padding else FRAGMENT * i)
      requires AllStartAt(sources, padding) && Distinct(sources) && e == Entry(volumes, sources, globalVolume)
      modifies this`sources, mixer, buffer
      ensures SourcesOk(sources) && SameOwners(old(sources), sources) && AllStartAt(sources, padding) && EntryOk(e)
      ensures sources == if FRAGMENT * i < padding then old(sources) else Filled(old(sources))
      ensures AllExact(sources, if FRAGMENT * (i + 1) < padding then padding else FRAGMENT * (i + 1))
      ensures forall k :: 0 <= k < MAX_SOURCES ==> sources[k].completed == old(sources)[k].completed
      ensures buffer[i * SAMPLES..i * SAMPLES + SAMPLES] == Window(e, i)
      ensures forall n :: 0 <= n < i * SAMPLES ==> buffer[n] == old(buffer[n])
      ensures FRAGMENT * i < padding ==> forall n :: i * SAMPLES <= n < (i + 1) * SAMPLES ==> buffer[n] == 0
    {
      hide AllExact, SourcesOk, Window, Distinct;
      if i < padding / FRAGMENT {
        SilentWindow(e, i, padding);
        Silence(i * SAMPLES);
      } else {
        FillKeepsExact(sources, FRAGMENT * i);
        FragmentIsWindow(e, i);
        hide FragmentOutput;
        var rc, after := FillFragment(mixer, volumes, sources, globalVolume, buffer, i * SAMPLES);
        sources := after;
      }
    }

    /** The backend's play_stereo_s16: the device's ring takes the whole mix buffer, and starts. */
    method PlayRing(plays: bool)
      requires buffer.Length == RING / 2
      modifies this`dma
      ensures dma == if plays then Cut(buffer[..]) else old(dma)
    {
      if plays { dma := Cut(buffer[..]); }
    }

    /** The installation half of audio_engine_start_prepared: the buffer changes owner, from the request to the slot. */
    method Install(slot: nat, app: u32, p: Prepared, start: nat)
      requires TableValid() && NoneCompleted(sources) && slot < MAX_SOURCES && !sources[slot].used && app != 0
      requires NotPlaying(sources, app) && p.pcm.Some? && p.pcm.value in Loose()
      requires (p.channels == 1 || p.channels == 2) && p.frames > 0 && p.frames * p.channels <= |p.samples|
      modifies this`sources, this`status, this`primary
      ensures TableValid() && NoneCompleted(sources) && Loose() == old(Loose()) - {p.pcm.value} && primary == slot
      ensures sources == old(sources)[slot := Installed(p, app, start, old(status).playbackId + 1)]
      ensures status.playbackId == old(status).playbackId + 1 && StatusOk() && Shows(status, sources[slot], ring.played)
    {
      var id := status.playbackId + 1;
      var s := Installed(p, app, start, id);
      InstallKeepsTable(sources, slot, s, status.playbackId, heap);
      sources := sources[slot := s];
      primary := slot;
      status := status.(playbackId := id, lastError := 0);
      PrimarySync();
    }

    /** The request has begun to play in that slot, as the primary source: its own samples, frames and channels, from
        the end of the queue if it joined a running ring, or else after the startup padding of a fresh one with the
        backend's drain. */
    ghost predicate Begun(joined: bool, slot: nat, app: u32, p: Prepared, startup: Startup)
      reads this
    {
      && slot < |sources| && sources[slot].used && p.pcm.Some? && Shows(status, sources[slot], ring.played)
      && if joined then Starts(sources[slot], p, app, ring.queued, status.playbackId) && sources[slot].cursor == 0
         else
           && Starts(sources[slot], p, app, startup.padding, status.playbackId)
           && ring.played == 0 && ring.queued == RING && ring.drainFrames == startup.drain / FRAME_BYTES
           && QueuedAlone(log, slot, volumes, globalVolume)
    }

    /** A poll with this reading would let the stream go on. */
    ghost predicate Goes(reading: Reading, refillOk: nat -> bool)
      reads this
    {
      streaming && pending == 0 && PollResult(sources, ring, reading, refillOk) == 0
    }

    /** The start of audio_engine_start_prepared: service the ring, then stop this application or everything. On a ring
        that goes on and is healthy, a request that is not exclusive leaves every other live source in the table. */
    method Settle(app: u32, exclusive: bool, reading: Reading, ghost now: Device, refillOk: nat -> bool, idle: bool,
                  healthy: bool)
      requires Valid() && (streaming && pending == 0 ==> Advances(dev, now)) && (reading.ok ==> Truthful(reading, now))
      requires app != 0
      modifies this`sources, this`ring, this`pending, this`status, this`dev, this`dma, this`log, this`heap,
               this`primary, this`streaming, mixer, buffer
      ensures Valid() && NoneCompleted(sources) && NotPlaying(sources, app) && pending == 0 && Loose() == old(Loose())
      ensures exclusive || !healthy || !old(Goes(reading, refillOk)) ==> !streaming
      ensures !exclusive && healthy && old(Goes(reading, refillOk)) ==>
                && streaming == !AllFree(sources)
                && SettledAs(old(sources), sources, now.total, old(ring).drainFrames, app)
      ensures streaming ==> old(log) <= log
    {
      hide Distinct, SourcesOk, LineOk, IdsBelow, PollResult, Advances, Finished;
      Poll(reading, now, refillOk, idle);
      if !exclusive && streaming && pending == 0 && healthy {
        ghost var polled := sources;
        var rc, index := StopApp(app);
        if rc != 0 { OnlyOthers(polled, app); }
      } else {
        Stop();
      }
    }

    /** audio_engine_start_prepared. A rejected request keeps its buffer; an accepted one hands it over, and a hardware
        failure after that frees it. `healthy` is the ring check, `startup` what the backend says and does. The result
        is exact, and whatever it is, a request that is not exclusive on a healthy ring that goes on leaves every other
        application's live source playing. */
    method StartPrepared(app: u32, p: Prepared, exclusive: bool, available: bool, reading: Reading, ghost now: Device,
                         refillOk: nat -> bool, idle: bool, healthy: bool, startup: Startup, ghost started: Device)
      returns (rc: int, rest: Prepared)
      requires Valid() && (streaming && pending == 0 ==> Advances(dev, now)) && (reading.ok ==> Truthful(reading, now))
      requires p.pcm.Some? ==> p.pcm.value in Loose()
      requires p.channels == 1 || p.channels == 2 ==> p.frames * p.channels <= |p.samples|
      requires startup.clock == Clock(started) && started.total <= START_LEAD
      modifies this`sources, this`ring, this`pending, this`status, this`dev, this`dma, this`log, this`heap,
               this`primary, this`streaming, mixer, buffer
      ensures Valid()
      ensures rest == p || (p.pcm.Some? && rest == p.(pcm := None))
      ensures rc == 0 ==> p.pcm.Some? && rest.pcm.None? && streaming && primary < NO_SOURCE
      ensures Loose() == if rest == p then old(Loose()) else old(Loose()) - {p.pcm.value}
      ensures rc != 0 && rest != p ==> !streaming && p.pcm.value !in heap
      ensures app == 0 || !Offered(p) || !available ==>
                rc == -1 && sources == old(sources) && streaming == old(streaming) && pending == old(pending)
      ensures app != 0 && Offered(p) && available ==>
                var joins := !exclusive && healthy && old(Goes(reading, refillOk));
                var others := Staying(old(sources), now.total, old(ring).drainFrames, app);
                && (joins ==> Remain(old(sources), sources, now.total, old(ring).drainFrames, app))
                && NobodyElse(old(sources), sources, joins, now.total, old(ring).drainFrames, app)
                && rc == (if joins && others > 0 then (if others < MAX_SOURCES then 0 else -1)
                          else if StartupOk(startup) then 0 else -1)
                && (rc == 0 ==> Begun(joins && others > 0, primary, app, p, startup))
    {
      hide TableValid, StatusOk, LineOk, PollResult, StartupOk, Advances, PcmOf, Remain, NobodyElse, Staying, Begun;
      rest := p;
      if app == 0 { return -1, rest; }
      if !Offered(p) {
        Reject(if p.error != 0 then p.error else -2);
        return -1, rest;
      }
      if !available { return -1, rest; }
      rc, rest := StartOffered(app, p, exclusive, reading, now, refillOk, idle, healthy, startup, started);
    }

    /** audio_engine_start_prepared from an offered source on. */
    method StartOffered(app: u32, p: Prepared, exclusive: bool, reading: Reading, ghost now: Device,
                        refillOk: nat -> bool, idle: bool, healthy: bool, startup: Startup, ghost started: Device)
      returns (rc: int, rest: Prepared)
      requires Valid() && (streaming && pending == 0 ==> Advances(dev, now)) && (reading.ok ==> Truthful(reading, now))
      requires app != 0 && Offered(p) && p.pcm.value in Loose() && p.frames * p.channels <= |p.samples|
      requires startup.clock == Clock(started) && started.total <= START_LEAD
      modifies this`sources, this`ring, this`pending, this`status, this`dev, this`dma, this`log, this`heap,
               this`primary, this`streaming, mixer, buffer
      ensures Valid() && (rest == p || rest == p.(pcm := None))
      ensures rc == 0 ==> rest.pcm.None? && streaming && primary < NO_SOURCE
      ensures Loose() == if rest == p then old(Loose()) else old(Loose()) - {p.pcm.value}
      ensures rc != 0 && rest != p ==> !streaming && p.pcm.value !in heap
      ensures
        var joins := !exclusive && healthy && old(Goes(reading, refillOk));
        var others := Staying(old(sources), now.total, old(ring).drainFrames, app);
        && (joins ==> Remain(old(sources), sources, now.total, old(ring).drainFrames, app))
        && NobodyElse(old(sources), sources, joins, now.total, old(ring).drainFrames, app)
        && rc == (if joins && others > 0 then (if others < MAX_SOURCES then 0 else -1)
                  else if StartupOk(startup) then 0 else -1)
        && (rc == 0 ==> Begun(joins && others > 0, primary, app, p, startup))
    {
      hide TableValid, StatusOk, LineOk, PollResult, StartupOk, Advances, PcmOf, SettledAs, Remain, Staying, AllUsed,
           Begun, NobodyElse, OnlyAdds;
      FourSlots();
      ghost var before, drain := sources, ring.drainFrames;
      ghost var joins := !exclusive && healthy && Goes(reading, refillOk);
      Settle(app, exclusive, reading, now, refillOk, idle, healthy);
      FourSlots();
      ghost var settled := sources;
      if joins { StayingCount(before, settled, now.total, drain, app); }
      rc, rest := Admit(app, p, startup, started);
      FourSlots();
      if joins {
        SettledRemain(before, settled, sources, now.total, drain, app);
      } else {
        FreshIsAlone(before, settled, sources, now.total, drain, app);
      }
    }

    lemma FourSlots()
      requires TableValid()
      ensures |sources| == MAX_SOURCES
    {
    }

    /** Find a slot and enlist the source; without one the request keeps its buffer. */
    method Admit(app: u32, p: Prepared, startup: Startup, ghost started: Device) returns (rc: int, rest: Prepared)
      requires Valid() && NoneCompleted(sources) && NotPlaying(sources, app) && pending == 0 && app != 0
      requires Offered(p) && p.pcm.value in Loose() && p.frames * p.channels <= |p.samples|
      requires startup.clock == Clock(started) && started.total <= START_LEAD
      modifies this`sources, this`ring, this`pending, this`status, this`dev, this`dma, this`log, this`heap,
               this`primary, this`streaming, mixer, buffer
      ensures Valid() && rest == if old(streaming && AllUsed(sources)) then p else p.(pcm := None)
      ensures rc == if old(streaming) then (if old(AllUsed(sources)) then -1 else 0)
                    else if StartupOk(startup) then 0 else -1
      ensures OnlyAdds(old(sources), sources, app)
      ensures rc == 0 ==> streaming && primary < NO_SOURCE && Begun(old(streaming), primary, app, p, startup)
      ensures Loose() == if rest == p then old(Loose()) else old(Loose()) - {p.pcm.value}
      ensures rc != 0 && rest != p ==> !streaming && p.pcm.value !in heap
    {
      hide TableOk, LineOk, StartupOk, PcmOf, Begun, OnlyAdds;
      TableShape(sources, status.playbackId, heap);
      var slot := FreeSlot();
      if slot == NO_SOURCE {
        assert sources[0].used;
        AddsNothing(sources, app);
        Reject(-7);
        return -1, p;
      }
      rest := p.(pcm := None);
      rc := Enlist(slot, app, p, startup, started);
      TableShape(sources, status.playbackId, heap);
    }

    /** A source found its slot: join the running ring, or start a fresh one. */
    method Enlist(slot: nat, app: u32, p: Prepared, startup: Startup, ghost started: Device) returns (rc: int)
      requires Valid() && NoneCompleted(sources) && NotPlaying(sources, app) && pending == 0 && app != 0
      requires slot < MAX_SOURCES && !sources[slot].used && p.pcm.Some? && p.pcm.value in Loose()
      requires (p.channels == 1 || p.channels == 2) && p.frames > 0 && p.frames * p.channels <= |p.samples|
      requires startup.clock == Clock(started) && started.total <= START_LEAD
      modifies this`sources, this`ring, this`pending, this`status, this`dev, this`dma, this`log, this`heap,
               this`primary, this`streaming, mixer, buffer
      ensures Valid() && Loose() == old(Loose()) - {p.pcm.value}
      ensures rc == if old(streaming) || StartupOk(startup) then 0 else -1
      ensures OnlyAdds(old(sources), sources, app)
      ensures rc == 0 ==> streaming && primary == slot && Begun(old(streaming), slot, app, p, startup)
      ensures old(streaming) ==> ring == old(ring) && log == old(log) && dma == old(dma)
      ensures rc != 0 ==> !streaming && p.pcm.value !in heap
    {
      hide TableOk, AllExact, LineOk, StartupOk, PcmOf;
      TableShape(sources, status.playbackId, heap);
      if streaming {
        LineJoined(ring, dev, sources, dma, log, slot, Installed(p, app, ring.queued, status.playbackId + 1));
        Install(slot, app, p, ring.queued);
        TableShape(sources, status.playbackId, heap);
        assert sources[slot].used;
        return 0;
      }
      rc := StartFresh(slot, app, p, startup, started);
      TableShape(sources, status.playbackId, heap);
    }

    /** The fresh-ring half of audio_engine_start_prepared. */
    method StartFresh(slot: nat, app: u32, p: Prepared, startup: Startup, ghost started: Device) returns (rc: int)
      requires Valid() && !streaming && slot < MAX_SOURCES && app != 0 && p.pcm.Some? && p.pcm.value in Loose()
      requires (p.channels == 1 || p.channels == 2) && p.frames > 0 && p.frames * p.channels <= |p.samples|
      requires startup.clock == Clock(started) && started.total <= START_LEAD
      modifies this`sources, this`ring, this`pending, this`status, this`dev, this`dma, this`log, this`heap,
               this`primary, this`streaming, mixer, buffer
      ensures Valid() && Loose() == old(Loose()) - {p.pcm.value}
      ensures rc == if StartupOk(startup) then 0 else -1
      ensures rc == 0 ==> streaming && primary == slot && sources[slot].used &&
                          Starts(sources[slot], p, app, startup.padding, status.playbackId) &&
                          Shows(status, sources[slot], 0)
      ensures rc == 0 ==> ring.played == 0 && ring.queued == RING && ring.drainFrames == startup.drain / FRAME_BYTES
      ensures rc == 0 ==> QueuedAlone(log, slot, volumes, globalVolume)
      ensures rc != 0 ==> !streaming && p.pcm.value !in heap
      ensures OnlyAdds(old(sources), sources, app)
    {
      hide TableOk, AllExact, PcmOf, LineOk;
      TableShape(sources, status.playbackId, heap);
      ring := ring.(played := 0, queued := 0, refilled := 0);
      ghost var s := Installed(p, app, startup.padding, status.playbackId + 1);
      ghost var free := sources;
      Install(slot, app, p, startup.padding);
      TableShape(sources, status.playbackId, heap);
      InUsePcm(sources, slot);
      if !startup.ok || startup.padding > RING || startup.drain > RING || startup.padding % FRAGMENT != 0 ||
         startup.drain % FRAGMENT != 0
      {
        Stop();
        TableShape(sources, status.playbackId, heap);
        status := status.(lastError := -3);
        return -1;
      }
      ring := ring.(drainFrames := startup.drain / FRAME_BYTES);
      FirstExact(free, slot, s);
      ghost var first := sources;
      rc := Launch(slot, startup, started);
      if rc == 0 { AloneInLog(log, free, slot, first, volumes, globalVolume); }
      TableShape(sources, status.playbackId, heap);
    }

    /** Prefill the ring and start the device; if it does not play, stop again. */
    method Launch(slot: nat, startup: Startup, ghost started: Device) returns (rc: int)
      requires TableValid() && StatusOk() && !streaming && pending == 0 && slot == primary < NO_SOURCE
      requires ring.played == 0 && ring.refilled == 0 && startup.padding <= RING && startup.padding % FRAGMENT == 0
      requires AllExact(sources, startup.padding) && AllStartAt(sources, startup.padding)
      requires startup.clock == Clock(started) && started.total <= START_LEAD
      modifies this`sources, this`ring, this`pending, this`status, this`dev, this`dma, this`log, this`heap,
               this`primary, this`streaming, mixer, buffer
      ensures Valid() && Loose() == old(Loose()) && rc == if startup.plays then 0 else -1
      ensures rc == 0 ==> streaming && primary == slot && SameOwners(old(sources), sources) && status == old(status)
      ensures rc == 0 ==> forall i :: 0 <= i < MAX_SOURCES ==> sources[i].completed == old(sources)[i].completed
      ensures rc == 0 ==> ring.played == 0 && ring.queued == RING && ring.drainFrames == old(ring).drainFrames
      ensures rc == 0 ==> QueuedFrom(log, 0, old(sources), volumes, globalVolume)
      ensures rc != 0 ==> !streaming && heap == old(heap) - PcmOf(old(sources))
    {
      hide Distinct, IdsBelow, SourcesOk, AllExact, PcmOf, LineOk, Traced, LogOk, BufferHolds, Delivered, QueuedFrom;
      ghost var installed := sources;
      Prefill(startup.padding);
      TableKept(installed, sources, status.playbackId, heap);
      PlayRing(startup.plays);
      if !startup.plays {
        Stop();
        status := status.(lastError := -3);
        return -1;
      }
      RingFromBuffer(buffer[..], log, sources);
      streaming := true;
      ring := ring.(queued := RING, lastPosition := 0, lastClock := startup.clock, lastProgress := startup.clock);
      dev := started;
      LineStarted(ring, dev, sources, dma, log);
      assert sources[slot].used;
      return 0;
    }

    /** Exactly-once delivery, in every state the engine can be in: of each source in the table, frame k is in the queue
        exactly if it is below the cursor, and then it was mixed at stream frame start / 4 + k and at no other, from its
        own slot and from no other. */
    lemma FramesGoOutOnce(i: nat, t: nat, right: bool)
      requires Valid() && streaming && pending == 0 && i < |sources| && sources[i].used
      requires sources[i].start / FRAME_BYTES <= t
      ensures t - sources[i].start / FRAME_BYTES < sources[i].frames ==>
                (t < ring.queued / FRAME_BYTES <==> t - sources[i].start / FRAME_BYTES < sources[i].cursor)
      ensures SourcesOk(sources)
      ensures t < ring.queued / FRAME_BYTES ==>
                && t / FRAGMENT_FRAMES < |log| && EntryOk(log[t / FRAGMENT_FRAMES])
                && var e := log[t / FRAGMENT_FRAMES];
                   && SlotPart(e.volumes, sources[i], t, right, StreamSample(e.volumes, e.sources[i], t, right))
                   && NoOther(e.sources, i, sources[i].pcm)
    {
      hide StreamSample, SlotPart, Traced, RingHolds;
      assert ring.queued == FRAGMENT * |log| && ring.queued / FRAME_BYTES == FRAGMENT_FRAMES * |log|;
      ExactlyOnce(dma, log, sources, ring.refilled, i, t, right);
    }

    /** And what the device finds in its ring, from where it was last seen to the end of the queue, is that mix: what
        each of the four slots puts into the frame, summed, at the gain of that moment, clipped. */
    lemma DevicePlaysTheMix(t: nat, right: bool) returns (a: int, b: int, c: int, d: int, q: int)
      requires Valid() && streaming && pending == 0 && ring.played <= FRAME_BYTES * t < ring.queued
      ensures
        var f, k := t / FRAGMENT_FRAMES, 2 * (t % FRAGMENT_FRAMES) + if right then 1 else 0;
        && f < |log| && EntryOk(log[f]) && |dma| == FRAGMENTS && k < |dma[f % FRAGMENTS]|
        && SlotPart(log[f].volumes, log[f].sources[0], t, right, a)
        && SlotPart(log[f].volumes, log[f].sources[1], t, right, b)
        && SlotPart(log[f].volumes, log[f].sources[2], t, right, c)
        && SlotPart(log[f].volumes, log[f].sources[3], t, right, d)
        && Thousandths((a + b + c + d) * log[f].gain, q) && Clips(q, dma[f % FRAGMENTS][k])
    {
      hide SlotPart, Thousandths, Clips, Traced, RingHolds;
      assert ring.queued == FRAGMENT * |log|;
      assert ring.refilled <= t / FRAGMENT_FRAMES < |log|;
      DeviceHears(dma, log, sources, ring.refilled, t, right);
      a, b, c, d, q := HeardMeans(dma, log, sources, ring.refilled, t, right);
    }
  }
}
