/** Decoded sources and the fragment mixed from them (src/audio/audio_service.c, audio_service_fill_fragment). */
module AudioStream {
  import opened Words
  import opened AudioMixer

  const MAX_SOURCES := 4
  const FRAGMENT_FRAMES := 1024
  /** Samples of one fragment, both channels. */
  const SAMPLES := 2048
  const FRAME_BYTES := 4

  /** A decoded source; `pcm` names the heap buffer that holds `samples`. */
  datatype Source = Source(
    used: bool, completed: bool, channels: nat, appId: u32, pcm: nat, samples: seq<i16>,
    frames: nat, cursor: nat, start: nat, playbackId: nat)

  const FREE := Source(false, false, 0, 0, 0, [], 0, 0, 0, 0)

  predicate SourceOk(s: Source) {
    s.used ==>
      && (s.channels == 1 || s.channels == 2) && s.appId != 0 && s.frames > 0
      && s.frames * s.channels <= |s.samples| && s.cursor <= s.frames
  }

  predicate SourcesOk(ss: seq<Source>) {
    forall i :: 0 <= i < |ss| ==> SourceOk(ss[i])
  }

  type Volumes = map<u32, nat>

  predicate VolumesOk(v: Volumes) {
    forall app :: app in v ==> v[app] <= VOLUME_MAX
  }

  /** audio_service_app_volume. */
  function AppVolume(v: Volumes, app: u32): nat {
    if app in v then v[app] else VOLUME_MAX
  }

  predicate Feeding(s: Source) { s.used && !s.completed && s.cursor < s.frames }

  function Min(a: nat, b: nat): nat { if a < b then a else b }

  /** Frames a fragment takes from a source. */
  function Consumed(s: Source): nat {
    if Feeding(s) then Min(s.frames - s.cursor, FRAGMENT_FRAMES) else 0
  }

  function Filled(ss: seq<Source>): (r: seq<Source>)
    ensures |r| == |ss| && forall i :: 0 <= i < |ss| ==> r[i] == ss[i].(cursor := ss[i].cursor + Consumed(ss[i]))
    ensures SourcesOk(ss) ==> SourcesOk(r)
  {
    seq(|ss|, i requires 0 <= i < |ss| => ss[i].(cursor := ss[i].cursor + Consumed(ss[i])))
  }

  /** What a source adds to frame `k` of the fragment that starts at its cursor. */
  function SourceSample(v: Volumes, s: Source, k: nat, right: bool): int
    requires SourceOk(s)
  {
    if s.used && !s.completed && s.cursor + k < s.frames then
      assert (s.cursor + k + 1) * s.channels <= s.frames * s.channels;
      Scaled(s.samples, s.channels, s.cursor + k, AppVolume(v, s.appId), right)
    else 0
  }

  function SourceSum(v: Volumes, ss: seq<Source>, k: nat, right: bool): int
    requires SourcesOk(ss)
  {
    if ss == [] then 0 else SourceSum(v, ss[..|ss| - 1], k, right) + SourceSample(v, ss[|ss| - 1], k, right)
  }

  /** The 2048 samples of one fragment. */
  function FragmentOutput(v: Volumes, ss: seq<Source>, globalVolume: nat): (r: seq<i16>)
    requires SourcesOk(ss)
    ensures |r| == 2 * FRAGMENT_FRAMES
  {
    seq(2 * FRAGMENT_FRAMES, i requires 0 <= i < 2 * FRAGMENT_FRAMES =>
      Output(SourceSum(v, ss, i / 2, i % 2 == 1), globalVolume))
  }

  // ----- the mixer streams a fragment opens -----

  /** The stream opened for a feeding source: its samples from the cursor on. */
  function StreamOf(v: Volumes, s: Source): (r: Stream)
    requires SourceOk(s) && Feeding(s)
  {
    assert s.cursor * s.channels <= s.frames * s.channels;
    Stream(s.appId, s.channels, AppVolume(v, s.appId), s.samples[s.cursor * s.channels..], Consumed(s), 0, true)
  }

  lemma StreamOfOk(v: Volumes, s: Source)
    requires SourceOk(s) && Feeding(s) && VolumesOk(v)
    ensures StreamOk(StreamOf(v, s))
    ensures Consumed(s) * s.channels <= |s.samples[s.cursor * s.channels..]|
  {
    assert (s.cursor + Consumed(s)) * s.channels <= s.frames * s.channels;
  }

  /** Within the fragment the opened stream plays exactly the source's next frames. */
  lemma StreamPlaysSource(v: Volumes, s: Source, k: nat, right: bool)
    requires SourceOk(s) && Feeding(s) && VolumesOk(v) && k < FRAGMENT_FRAMES
    ensures StreamOk(StreamOf(v, s)) && StreamOk(Advance(StreamOf(v, s), k))
    ensures Contribution(Advance(StreamOf(v, s), k), right) == SourceSample(v, s, k, right)
  {
    StreamOfOk(v, s);
    var st := Advance(StreamOf(v, s), k);
    hide TruncDiv;
    if k < Consumed(s) {
      FrameInRange(st);
      if s.channels == 1 {
        assert st.samples[k] == s.samples[s.cursor + k];
      } else {
        assert st.samples[2 * k] == s.samples[2 * (s.cursor + k)];
        assert st.samples[2 * k + 1] == s.samples[2 * (s.cursor + k) + 1];
      }
    }
  }

  /** The first streams come from the feeding sources; the rest are idle. */
  ghost predicate Opened(v: Volumes, ss: seq<Source>, streams: seq<Stream>, n: nat)
    requires SourcesOk(ss)
  {
    && |streams| == MAX_STREAMS && StreamsOk(streams) && n <= |ss| <= MAX_SOURCES
    && (forall i :: n <= i < MAX_STREAMS ==> streams[i] == IDLE)
    && (forall i :: 0 <= i < n ==> streams[i].active)
    && (forall k: nat, right :: k < FRAGMENT_FRAMES ==>
          Sum(AdvanceAll(streams[..n], k), right) == SourceSum(v, ss, k, right))
  }

  lemma {:induction false} IdleSum(ss: seq<Stream>, right: bool)
    requires forall i :: 0 <= i < |ss| ==> ss[i] == IDLE
    ensures StreamsOk(ss) && Sum(ss, right) == 0
  {
    if ss != [] { IdleSum(ss[..|ss| - 1], right); }
  }

  lemma {:induction false} SumConcat(a: seq<Stream>, b: seq<Stream>, right: bool)
    requires StreamsOk(a) && StreamsOk(b)
    ensures StreamsOk(a + b) && Sum(a + b, right) == Sum(a, right) + Sum(b, right)
  {
    if b == [] {
      assert a + b == a;
    } else {
      var n := |b| - 1;
      SumConcat(a, b[..n], right);
      assert a + b == (a + b[..n]) + [b[n]];
      SumAppend(a + b[..n], b[n], right);
    }
  }

  lemma OpenedSum(v: Volumes, ss: seq<Source>, streams: seq<Stream>, n: nat, k: nat, right: bool)
    requires SourcesOk(ss) && Opened(v, ss, streams, n) && k < FRAGMENT_FRAMES
    ensures StreamsOk(AdvanceAll(streams, k)) && Sum(AdvanceAll(streams, k), right) == SourceSum(v, ss, k, right)
  {
    var front, back := AdvanceAll(streams[..n], k), AdvanceAll(streams[n..], k);
    assert AdvanceAll(streams, k) == front + back;
    IdleSum(back, right);
    SumConcat(front, back, right);
  }

  /** Mixing the opened streams yields the fragment. */
  lemma OpenedMixes(v: Volumes, ss: seq<Source>, streams: seq<Stream>, n: nat, globalVolume: nat)
    requires SourcesOk(ss) && Opened(v, ss, streams, n)
    ensures StreamsOk(streams)
    ensures MixOutput(streams, globalVolume, FRAGMENT_FRAMES) == FragmentOutput(v, ss, globalVolume)
  {
    OpenedFacts(v, ss, streams, n);
    hide Sum, SourceSum, Opened, Output;
    var out, want := MixOutput(streams, globalVolume, FRAGMENT_FRAMES), FragmentOutput(v, ss, globalVolume);
    forall i | 0 <= i < 2 * FRAGMENT_FRAMES
      ensures out[i] == want[i]
    {
      OpenedSum(v, ss, streams, n, i / 2, i % 2 == 1);
    }
  }

  lemma OpenedSkips(v: Volumes, ss: seq<Source>, s: Source, streams: seq<Stream>, n: nat)
    requires SourcesOk(ss) && SourceOk(s) && Opened(v, ss, streams, n) && !Feeding(s) && |ss| < MAX_SOURCES
    ensures SourcesOk(ss + [s]) && Opened(v, ss + [s], streams, n)
  {
    assert (ss + [s])[..|ss|] == ss;
  }

  lemma OpenedAdds(v: Volumes, ss: seq<Source>, s: Source, streams: seq<Stream>, n: nat)
    requires SourcesOk(ss) && SourceOk(s) && Opened(v, ss, streams, n) && Feeding(s) && |ss| < MAX_SOURCES
    requires VolumesOk(v)
    ensures SourcesOk(ss + [s]) && Opened(v, ss + [s], streams[n := StreamOf(v, s)], n + 1)
  {
    StreamOfOk(v, s);
    var st := StreamOf(v, s);
    var streams' := streams[n := st];
    assert (ss + [s])[..|ss|] == ss;
    forall k: nat, right | k < FRAGMENT_FRAMES
      ensures Sum(AdvanceAll(streams'[..n + 1], k), right) == SourceSum(v, ss + [s], k, right)
    {
      StreamPlaysSource(v, s, k, right);
      assert AdvanceAll(streams'[..n + 1], k) == AdvanceAll(streams[..n], k) + [Advance(st, k)];
      SumAppend(AdvanceAll(streams[..n], k), Advance(st, k), right);
    }
  }

  /** audio_service_fill_fragment: reinitialise the mixer, open a stream per feeding source, mix, move the cursors. */
  method FillFragment(mixer: Mixer, v: Volumes, sources: seq<Source>, globalVolume: nat, output: array<i16>, base: nat)
    returns (rc: int, after: seq<Source>)
    requires |sources| == MAX_SOURCES && SourcesOk(sources) && VolumesOk(v) && globalVolume <= VOLUME_MAX
    requires base + 2 * FRAGMENT_FRAMES <= output.Length
    modifies mixer, output
    ensures rc == 0 && after == Filled(sources)
    ensures output[base..base + 2 * FRAGMENT_FRAMES] == FragmentOutput(v, sources, globalVolume)
    ensures forall i :: 0 <= i < base || base + 2 * FRAGMENT_FRAMES <= i < output.Length ==> output[i] == old(output[i])
  {
    hide Opened, SourcesOk, FragmentOutput, MixOutput;
    mixer.Init();
    var _ := mixer.SetGlobalVolume(globalVolume);
    ghost var n := 0;
    OpenedEmpty(v, mixer.streams);
    for i := 0 to MAX_SOURCES
      invariant mixer.Valid() && mixer.globalVolume == globalVolume
      invariant SourcesOk(sources[..i]) && Opened(v, sources[..i], mixer.streams, n)
      invariant forall k :: 0 <= k < output.Length ==> output[k] == old(output[k])
    {
      var s := sources[i];
      SourceAt(sources, i);
      assert sources[..i + 1] == sources[..i] + [s];
      OpenedFacts(v, sources[..i], mixer.streams, n);
      if Feeding(s) {
        OpenedAdds(v, sources[..i], s, mixer.streams, n);
        StreamOfOk(v, s);
        ghost var before := mixer.streams;
        var rc1, id := mixer.Open(s.appId, s.channels);
        assert rc1 == OK && id == n;
        var rc2 := mixer.SetStreamVolume(id, AppVolume(v, s.appId));
        var rc3 := mixer.Submit(id, s.samples[s.cursor * s.channels..], Consumed(s));
        if rc1 != OK || rc2 != OK || rc3 != OK { return -1, sources; }
        assert mixer.streams == before[n := StreamOf(v, s)];
        n := n + 1;
      } else {
        OpenedSkips(v, sources[..i], s, mixer.streams, n);
      }
    }
    assert sources[..MAX_SOURCES] == sources;
    OpenedMixes(v, sources, mixer.streams, n, globalVolume);
    var done := mixer.Mix(output, base, FRAGMENT_FRAMES);
    if done != FRAGMENT_FRAMES { return -1, sources; }
    return 0, Filled(sources);
  }

  lemma SourceAt(ss: seq<Source>, i: nat)
    requires SourcesOk(ss) && i < |ss|
    ensures SourceOk(ss[i])
  {
  }

  lemma OpenedFacts(v: Volumes, ss: seq<Source>, streams: seq<Stream>, n: nat)
    requires SourcesOk(ss) && Opened(v, ss, streams, n)
    ensures |streams| == MAX_STREAMS && StreamsOk(streams) && n <= |ss| <= MAX_SOURCES && streams[n] == IDLE
    ensures forall i :: 0 <= i < n ==> streams[i].active
  {
  }

  lemma OpenedEmpty(v: Volumes, streams: seq<Stream>)
    requires streams == seq(MAX_STREAMS, _ => IDLE)
    ensures SourcesOk([]) && Opened(v, [], streams, 0)
  {
  }
}
