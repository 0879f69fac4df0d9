/** The gates of src/audio/audio_runtime.c: requests, the timer interrupt and the worker interleave step by step. */
module AudioRuntime {
  import opened Words
  import opened AudioMixer
  import opened AudioRing
  import opened AudioStream
  import opened AudioEngine
  import opened AudioLine
  import opened AudioService

  /** Where the one play request in flight stands. Between any two of its steps the timer or the worker may run. */
  datatype Request =
    | Idle
    | Preparing(app: u32, exclusive: bool)
    | Decoded(app: u32, exclusive: bool, p: Prepared)
    | Holding(app: u32, exclusive: bool, p: Prepared)
    | Committed(p: Prepared, rc: int)
    | Releasing(p: Prepared, rc: int)

  function RequestPcm(r: Request): set<nat> {
    match r
    case Idle => {}
    case Preparing(_, _) => {}
    case Decoded(_, _, p) => PreparedPcm(p)
    case Holding(_, _, p) => PreparedPcm(p)
    case Committed(p, _) => PreparedPcm(p)
    case Releasing(p, _) => PreparedPcm(p)
  }

  function PreparedPcm(p: Prepared): set<nat> {
    if p.pcm.Some? then {p.pcm.value} else {}
  }

  /** What the decoder guarantees of its result. */
  predicate PreparedOk(p: Prepared) {
    p.channels == 1 || p.channels == 2 ==> p.frames * p.channels <= |p.samples|
  }

  predicate RequestOk(r: Request) {
    (r.Decoded? ==> PreparedOk(r.p)) && (r.Holding? ==> PreparedOk(r.p))
  }

  /** An answer of the output backend to one poll, and the device behind it. */
  datatype PollInput = PollInput(reading: Reading, now: Device, idle: bool)

  class Runtime {
    const engine: Engine
    var engineBusy: bool
    var workerHolds: bool        // the worker is between enter() and leave()
    var preparationBusy: bool
    var unavailable: bool
    var request: Request

    /** Every allocated buffer has exactly one owner: a source in the table, or the request in flight. */
    ghost predicate Valid()
      reads this, engine
    {
      && engine.Valid()
      && engine.Loose() == RequestPcm(request)
      && (engineBusy <==> request.Holding? || request.Committed? || workerHolds)
      && !(workerHolds && (request.Holding? || request.Committed?))
      && (preparationBusy <==> !request.Idle?)
      && RequestOk(request)
    }

    ghost predicate PollOk(input: PollInput)
      reads this, engine
    {
      && (engine.streaming && engine.pending == 0 ==> Advances(engine.dev, input.now))
      && (input.reading.ok ==> Truthful(input.reading, input.now))
    }

    constructor ()
      ensures Valid() && fresh(engine) && fresh(engine.mixer) && fresh(engine.buffer) && request.Idle?
    {
      engine := new Engine();
      engineBusy, workerHolds, preparationBusy, unavailable, request := false, false, false, false, Idle;
    }

    /** The start of audio_service_play_wav_memory and audio_service_play_wav_file: one preparation at a time. */
    method BeginPlay(app: u32, exclusive: bool) returns (rc: int)
      requires Valid()
      modifies this
      ensures Valid() && engine.heap == old(engine.heap)
      ensures rc == (if app == 0 || unavailable || old(preparationBusy) then -1 else 0)
      ensures request == if rc == 0 then Preparing(app, exclusive) else old(request)
    {
      if app == 0 || unavailable || preparationBusy { return -1; }
      preparationBusy := true;
      request := Preparing(app, exclusive);
      return 0;
    }

    /** audio_prepare_memory and audio_prepare_file return: with a fresh buffer, or with an error and none. */
    method Decode(p: Prepared)
      requires Valid() && request.Preparing? && PreparedOk(p) && (p.pcm.Some? ==> p.pcm.value !in engine.heap)
      modifies this, engine`heap
      ensures Valid() && request == Decoded(old(request).app, old(request).exclusive, p)
      ensures engine.heap == old(engine.heap) + PreparedPcm(p) && engine.sources == old(engine.sources)
    {
      assert forall x :: x in PcmOf(engine.sources) ==> x in engine.heap;
      engine.heap := engine.heap + PreparedPcm(p);
      request := Decoded(request.app, request.exclusive, p);
    }

    /** enter() by the request: with the gate taken the engine is left alone until leave(). */
    method Enter()
      requires Valid() && request.Decoded?
      modifies this
      ensures Valid() && engine.heap == old(engine.heap)
      ensures request == if old(engineBusy) then Releasing(old(request).p, -1)
                         else Holding(old(request).app, old(request).exclusive, old(request).p)
    {
      if engineBusy {
        request := Releasing(request.p, -1);
      } else {
        engineBusy := true;
        request := Holding(request.app, request.exclusive, request.p);
      }
    }

    /** audio_engine_start_prepared under the gate. The buffer changes hands on success; a request that is not
        exclusive, on a healthy ring that goes on, leaves every other application's live source playing; and the
        result is that of the engine. */
    method Commit(available: bool, input: PollInput, refillOk: nat -> bool, healthy: bool, startup: Startup,
                  ghost started: Device)
      requires Valid() && request.Holding? && PollOk(input)
      requires startup.clock == Clock(started) && started.total <= START_LEAD
      modifies this, engine, engine.mixer, engine.buffer
      ensures Valid() && request.Committed?
      ensures request.rc == 0 ==>
                && old(request).p.pcm.Some? && request.p.pcm.None?
                && old(request).p.pcm.value in PcmOf(engine.sources)
      ensures old(request).app != 0 && Offered(old(request).p) && available ==>
                var joins := !old(request).exclusive && healthy && old(engine.Goes(input.reading, refillOk));
                var played, drain, app := input.now.total, old(engine.ring).drainFrames, old(request).app;
                var others := Staying(old(engine.sources), played, drain, app);
                && (joins ==> Remain(old(engine.sources), engine.sources, played, drain, app))
                && NobodyElse(old(engine.sources), engine.sources, joins, played, drain, app)
                && request.rc == (if joins && others > 0 then (if others < MAX_SOURCES then 0 else -1)
                                  else if StartupOk(startup) then 0 else -1)
                && (request.rc == 0 ==> engine.Begun(joins && others > 0, engine.primary, app, old(request).p, startup))
    {
      var rc, rest := engine.StartPrepared(
        request.app, request.p, request.exclusive, available, input.reading, input.now, refillOk, input.idle, healthy,
        startup, started);
      request := Committed(rest, rc);
    }

    /** leave() by the request. */
    method Leave()
      requires Valid() && request.Committed?
      modifies this
      ensures Valid() && !engineBusy && engine.heap == old(engine.heap)
      ensures request == Releasing(old(request).p, old(request).rc)
    {
      engineBusy := false;
      request := Releasing(request.p, request.rc);
    }

    /** audio_prepared_release and the end of the preparation. */
    method Release() returns (rc: int)
      requires Valid() && request.Releasing?
      modifies this, engine`heap
      ensures Valid() && request.Idle? && rc == old(request).rc
      ensures PreparedPcm(old(request).p) <= old(engine.heap)
      ensures engine.heap == old(engine.heap) - PreparedPcm(old(request).p)
    {
      rc := request.rc;
      assert PcmOf(engine.sources) !! PreparedPcm(request.p);
      engine.heap := engine.heap - PreparedPcm(request.p);
      request := Idle;
      preparationBusy := false;
    }

    /** audio_timer_service: skips an owned gate, and frees nothing in any state. */
    method TimerInterrupt(input: PollInput, refillOk: nat -> bool)
      requires Valid() && PollOk(input)
      modifies engine`sources, engine`ring, engine`pending, engine`status, engine`dev, engine`dma, engine`log,
               engine.mixer, engine.buffer
      ensures Valid() && engine.heap == old(engine.heap) && SameOwners(old(engine.sources), engine.sources)
      ensures engineBusy ==> engine.sources == old(engine.sources) && engine.ring == old(engine.ring)
      ensures !engineBusy && old(engine.streaming) && old(engine.pending) == 0 ==>
                engine.pending == PollResult(old(engine.sources), old(engine.ring), input.reading, refillOk)
    {
      if !engineBusy {
        engine.PollIrq(input.reading, input.now, refillOk);
        SameOwnersSamePcm(old(engine.sources), engine.sources);
      }
    }

    /** enter() by the worker in audio_service_poll: a taken gate is skipped. */
    method WorkerEnter()
      requires Valid()
      modifies this`engineBusy, this`workerHolds
      ensures Valid() && workerHolds == (old(workerHolds) || !old(engineBusy))
    {
      if !engineBusy { engineBusy, workerHolds := true, true; }
    }

    /** The gated body of audio_service_poll: it frees only while no preparation is in flight. */
    method WorkerPoll(input: PollInput, refillOk: nat -> bool)
      requires Valid() && workerHolds && PollOk(input)
      modifies engine, engine.mixer, engine.buffer
      ensures Valid() && engine.heap <= old(engine.heap)
      ensures preparationBusy ==> engine.heap == old(engine.heap)
      ensures !preparationBusy ==> engine.streaming == old(engine.Goes(input.reading, refillOk))
      ensures !preparationBusy && engine.streaming ==> |engine.sources| == |old(engine.sources)| == MAX_SOURCES
      ensures !preparationBusy && engine.streaming ==> forall i :: 0 <= i < MAX_SOURCES ==>
                && engine.sources[i].used ==
                   Outlives(old(engine.sources)[i], input.now.total, old(engine.ring).drainFrames)
                && (engine.sources[i].used ==> SameStream(old(engine.sources)[i], engine.sources[i]))
      ensures preparationBusy ==> SameOwners(old(engine.sources), engine.sources)
      ensures preparationBusy && old(engine.streaming) && old(engine.pending) == 0 ==>
                engine.pending == PollResult(old(engine.sources), old(engine.ring), input.reading, refillOk)
    {
      if preparationBusy {
        engine.PollIrq(input.reading, input.now, refillOk);
        SameOwnersSamePcm(old(engine.sources), engine.sources);
      } else {
        engine.Poll(input.reading, input.now, refillOk, input.idle);
      }
    }

    /** leave() by the worker. */
    method WorkerLeave()
      requires Valid() && workerHolds
      modifies this`engineBusy, this`workerHolds
      ensures Valid() && !engineBusy && !workerHolds
    {
      engineBusy, workerHolds := false, false;
    }

    /** audio_service_stop_app: a control command that finds the gate taken is rejected. */
    method StopApplication(app: u32) returns (rc: int)
      requires Valid()
      modifies engine
      ensures Valid() && rc == if engineBusy || app == 0 || NotPlaying(old(engine.sources), app) then -1 else 0
      ensures rc != 0 ==> engine.heap == old(engine.heap) && engine.sources == old(engine.sources)
      ensures rc == 0 ==> NotPlaying(engine.sources, app)
    {
      if engineBusy { return -1; }
      ghost var index;
      rc, index := engine.StopApp(app);
    }

    /** audio_service_stop: skipped when the gate is taken; otherwise every source goes, and a buffer that is still
        with a request in flight stays with it. */
    method StopAll()
      requires Valid()
      modifies engine
      ensures Valid() && (engineBusy ==> engine.heap == old(engine.heap) && engine.sources == old(engine.sources))
      ensures !engineBusy ==> AllFree(engine.sources) && !engine.streaming && engine.heap == RequestPcm(request)
    {
      if engineBusy { return; }
      engine.Stop();
      FreeHasNoPcm(engine.sources);
    }
  }
}
