/** The stereo mixer (src/audio/audio_mixer.c): nested frame and stream loops against a closed form. */
module AudioMixer {
  import opened Words

  const MAX_STREAMS := 16
  const VOLUME_MAX := 1000

  const OK := 0
  const INVALID := -1
  const NO_SLOT := -2
  const BUSY := -3
  const NOT_FOUND := -4

  type i16 = x: int | -0x8000 <= x < 0x8000

  datatype Stream = Stream(
    appId: u32, channels: nat, volume: nat, samples: seq<i16>, count: nat, cursor: nat, active: bool)

  const IDLE := Stream(0, 0, 0, [], 0, 0, false)

  /** Division of C, truncating toward zero. */
  function TruncDiv(a: int, b: int): int
    requires b > 0
  {
    if a >= 0 then a / b else -(-a / b)
  }

  function ClampS16(v: int): i16 {
    if v > 32767 then 32767 else if v < -32768 then -32768 else v
  }

  predicate StreamOk(s: Stream) {
    s.active ==>
      && (s.channels == 1 || s.channels == 2) && s.volume <= VOLUME_MAX
      && s.cursor <= s.count && s.count * s.channels <= |s.samples|
  }

  predicate StreamsOk(ss: seq<Stream>) {
    forall i :: 0 <= i < |ss| ==> StreamOk(ss[i])
  }

  predicate Pending(s: Stream) { s.active && s.cursor < s.count }

  function SampleIndex(channels: nat, frame: nat, right: bool): nat {
    if channels == 1 then frame else if right then frame * 2 + 1 else frame * 2
  }

  /** What a stream adds to one channel of the next frame. */
  function Contribution(s: Stream, right: bool): int
    requires StreamOk(s)
  {
    if Pending(s) then Scaled(s.samples, s.channels, s.cursor, s.volume, right) else 0
  }

  /** One sample of a frame at a volume. */
  function Scaled(samples: seq<i16>, channels: nat, frame: nat, volume: nat, right: bool): (v: int)
    requires (channels == 1 || channels == 2) && (frame + 1) * channels <= |samples|
  {
    var sample: int := samples[SampleIndex(channels, frame, right)];
    TruncDiv(sample * volume, VOLUME_MAX)
  }

  function Sum(ss: seq<Stream>, right: bool): int
    requires StreamsOk(ss)
  {
    if ss == [] then 0 else Sum(ss[..|ss| - 1], right) + Contribution(ss[|ss| - 1], right)
  }

  function Output(sum: int, globalVolume: nat): i16 {
    ClampS16(TruncDiv(sum * globalVolume, VOLUME_MAX))
  }

  /** A stream after `n` frames. */
  function Advance(s: Stream, n: nat): (r: Stream)
    ensures StreamOk(s) ==> StreamOk(r)
  {
    if !Pending(s) then s else s.(cursor := if s.cursor + n < s.count then s.cursor + n else s.count)
  }

  function AdvanceAll(ss: seq<Stream>, n: nat): (r: seq<Stream>)
    ensures |r| == |ss| && forall i :: 0 <= i < |ss| ==> r[i] == Advance(ss[i], n)
    ensures StreamsOk(ss) ==> StreamsOk(r)
  {
    seq(|ss|, i requires 0 <= i < |ss| => Advance(ss[i], n))
  }

  /** Channel sample `i` of a mix: the clamped sum of the streams as they stand after i / 2 frames. */
  function SampleAt(ss: seq<Stream>, globalVolume: nat, i: nat): i16
    requires StreamsOk(ss)
  {
    Output(Sum(AdvanceAll(ss, i / 2), i % 2 == 1), globalVolume)
  }

  function MixOutput(ss: seq<Stream>, globalVolume: nat, n: nat): (r: seq<i16>)
    requires StreamsOk(ss)
    ensures |r| == 2 * n
  {
    seq(2 * n, i requires 0 <= i < 2 * n => SampleAt(ss, globalVolume, i))
  }

  predicate AnyPending(ss: seq<Stream>) {
    exists i :: 0 <= i < |ss| && Pending(ss[i])
  }

  /** Frames until every stream has run dry. */
  function LongestPending(ss: seq<Stream>): nat {
    if ss == [] then 0
    else
      var rest, s := LongestPending(ss[..|ss| - 1]), ss[|ss| - 1];
      var own := if Pending(s) then s.count - s.cursor else 0;
      if own > rest then own else rest
  }

  // ----- splitting a mix -----

  lemma AdvanceTwice(ss: seq<Stream>, n: nat, m: nat)
    ensures AdvanceAll(AdvanceAll(ss, n), m) == AdvanceAll(ss, n + m)
  {
  }

  // ----- underruns -----

  /** After k frames something is still pending exactly if k is short of the longest stream. */
  lemma {:induction false} PendingAfter(ss: seq<Stream>, k: nat)
    ensures AnyPending(AdvanceAll(ss, k)) <==> k < LongestPending(ss)
  {
    if ss == [] {
    } else {
      var n := |ss| - 1;
      var rest, s := ss[..n], ss[n];
      PendingAfter(rest, k);
      var all, some := AdvanceAll(ss, k), AdvanceAll(rest, k);
      assert all[..n] == some && all[n] == Advance(s, k);
      if AnyPending(some) {
        var i :| 0 <= i < |some| && Pending(some[i]);
        assert Pending(all[i]);
      }
      if AnyPending(all) && !Pending(all[n]) {
        var i :| 0 <= i < |all| && Pending(all[i]);
        assert Pending(some[i]);
      }
    }
  }

  /** Frames of the first n in which no stream contributed. */
  function Underruns(ss: seq<Stream>, n: nat): nat {
    if n == 0 then 0 else Underruns(ss, n - 1) + if AnyPending(AdvanceAll(ss, n - 1)) then 0 else 1
  }

  /** Underrun growth is the requested frames minus the longest pending stream, and never negative. */
  lemma {:induction false} UnderrunCount(ss: seq<Stream>, n: nat)
    ensures Underruns(ss, n) == if n <= LongestPending(ss) then 0 else n - LongestPending(ss)
  {
    hide AnyPending, AdvanceAll, LongestPending;
    if n > 0 {
      UnderrunCount(ss, n - 1);
      PendingAfter(ss, n - 1);
    }
  }

  // ----- the whole split -----

  lemma {:induction false} UnderrunsSplit(ss: seq<Stream>, n: nat, m: nat)
    ensures Underruns(ss, n + m) == Underruns(ss, n) + Underruns(AdvanceAll(ss, n), m)
  {
    hide AnyPending, AdvanceAll;
    if m > 0 {
      UnderrunsSplit(ss, n, m - 1);
      AdvanceTwice(ss, n, m - 1);
    }
  }

  lemma SamplesSplit(ss: seq<Stream>, globalVolume: nat, n: nat, m: nat)
    requires StreamsOk(ss)
    ensures MixOutput(ss, globalVolume, n + m) ==
            MixOutput(ss, globalVolume, n) + MixOutput(AdvanceAll(ss, n), globalVolume, m)
  {
    var whole := MixOutput(ss, globalVolume, n + m);
    var parts := MixOutput(ss, globalVolume, n) + MixOutput(AdvanceAll(ss, n), globalVolume, m);
    forall i | 0 <= i < 2 * (n + m)
      ensures whole[i] == parts[i]
    {
      if i >= 2 * n {
        var k := i - 2 * n;
        assert i / 2 == n + k / 2 && i % 2 == k % 2;
        AdvanceTwice(ss, n, k / 2);
        assert SampleAt(AdvanceAll(ss, n), globalVolume, k) == SampleAt(ss, globalVolume, i);
      }
    }
  }

  /** Mixing n frames and then m is mixing n + m: same samples, same cursors, same underruns. */
  lemma MixSplits(ss: seq<Stream>, globalVolume: nat, n: nat, m: nat)
    requires StreamsOk(ss)
    ensures MixOutput(ss, globalVolume, n + m) ==
            MixOutput(ss, globalVolume, n) + MixOutput(AdvanceAll(ss, n), globalVolume, m)
    ensures AdvanceAll(AdvanceAll(ss, n), m) == AdvanceAll(ss, n + m)
    ensures Underruns(ss, n + m) == Underruns(ss, n) + Underruns(AdvanceAll(ss, n), m)
  {
    hide MixOutput, Underruns;
    SamplesSplit(ss, globalVolume, n, m);
    AdvanceTwice(ss, n, m);
    UnderrunsSplit(ss, n, m);
  }

  // ----- sums stay small -----

  lemma MulBound(a: int, b: int, v: nat)
    requires 0 <= a <= b
    ensures 0 <= a * v <= b * v
  {
  }

  lemma ScaledBound(sample: i16, volume: nat)
    requires volume <= VOLUME_MAX
    ensures -32768 <= TruncDiv(sample * volume, VOLUME_MAX) <= 32768
  {
    var x: int := sample;
    if x >= 0 {
      MulBound(x, 32768, volume);
    } else {
      MulBound(-x, 32768, volume);
      assert x * volume == -(-x * volume);
    }
  }

  /** The sum of sixteen streams is far inside 64 bits, before and after the global gain. */
  lemma {:induction false} SumBound(ss: seq<Stream>, right: bool)
    requires StreamsOk(ss)
    ensures -32768 * |ss| <= Sum(ss, right) <= 32768 * |ss|
  {
    if ss != [] {
      var s := ss[|ss| - 1];
      SumBound(ss[..|ss| - 1], right);
      if Pending(s) {
        FrameInRange(s);
        ScaledBound(s.samples[SampleIndex(s.channels, s.cursor, right)], s.volume);
      }
    }
  }

  lemma SumEmpty()
    ensures Sum([], false) == 0 && Sum([], true) == 0
  {
  }

  lemma WrapAdd(x: nat, d: nat)
    requires d <= 1
    ensures Wrap64(Wrap64(x) + d) == Wrap64(x + d)
  {
  }

  lemma WrapSmall(x: u64)
    ensures Wrap64(x) == x
  {
  }

  lemma SampleAtFrame(ss: seq<Stream>, globalVolume: nat, f: nat)
    requires StreamsOk(ss)
    ensures SampleAt(ss, globalVolume, 2 * f) == Output(Sum(AdvanceAll(ss, f), false), globalVolume)
    ensures SampleAt(ss, globalVolume, 2 * f + 1) == Output(Sum(AdvanceAll(ss, f), true), globalVolume)
  {
  }

  lemma FrameInRange(s: Stream)
    requires StreamOk(s) && Pending(s)
    ensures (s.cursor + 1) * s.channels <= |s.samples|
  {
  }

  lemma SumAppend(ss: seq<Stream>, s: Stream, right: bool)
    requires StreamsOk(ss) && StreamOk(s)
    ensures Sum(ss + [s], right) == Sum(ss, right) + Contribution(s, right)
  {
    assert (ss + [s])[..|ss|] == ss;
  }

  // ----- the mixer -----

  function Wrap64(x: nat): u64 { x % 0x1_0000_0000_0000_0000 }

  class Mixer {
    var streams: seq<Stream>
    var globalVolume: nat
    var mixedFrames: u64
    var underrunFrames: u64

    ghost predicate Valid()
      reads this
    {
      |streams| == MAX_STREAMS && StreamsOk(streams) && globalVolume <= VOLUME_MAX
    }

    constructor ()
      ensures Valid() && streams == seq(MAX_STREAMS, _ => IDLE) && globalVolume == VOLUME_MAX
    {
      streams, globalVolume, mixedFrames, underrunFrames := seq(MAX_STREAMS, _ => IDLE), VOLUME_MAX, 0, 0;
    }

    /** audio_mixer_init. */
    method Init()
      modifies this
      ensures Valid() && streams == seq(MAX_STREAMS, _ => IDLE) && globalVolume == VOLUME_MAX
      ensures mixedFrames == 0 && underrunFrames == 0
    {
      streams, globalVolume, mixedFrames, underrunFrames := seq(MAX_STREAMS, _ => IDLE), VOLUME_MAX, 0, 0;
    }

    method SetGlobalVolume(volume: nat) returns (rc: int)
      requires Valid()
      modifies this`globalVolume
      ensures Valid() && rc == (if volume > VOLUME_MAX then INVALID else OK)
      ensures globalVolume == if rc == OK then volume else old(globalVolume)
    {
      if volume > VOLUME_MAX { return INVALID; }
      globalVolume := volume;
      return OK;
    }

    /** audio_mixer_open: the first free slot, or none. */
    method Open(appId: u32, channels: nat) returns (rc: int, id: nat)
      requires Valid()
      modifies this`streams
      ensures Valid()
      ensures rc == INVALID <==> appId == 0 || (channels != 1 && channels != 2)
      ensures rc == NO_SLOT ==> forall i :: 0 <= i < MAX_STREAMS ==> streams[i].active
      ensures rc == OK || rc == INVALID || rc == NO_SLOT
      ensures rc != OK ==> streams == old(streams)
      ensures rc == OK ==>
                && id < MAX_STREAMS && !old(streams)[id].active
                && (forall i :: 0 <= i < id ==> old(streams)[i].active)
                && streams == old(streams)[id := Stream(appId, channels, VOLUME_MAX, [], 0, 0, true)]
    {
      if appId == 0 || (channels != 1 && channels != 2) { return INVALID, 0; }
      for i := 0 to MAX_STREAMS
        invariant streams == old(streams) && Valid() && forall k :: 0 <= k < i ==> streams[k].active
      {
        if !streams[i].active {
          streams := streams[i := Stream(appId, channels, VOLUME_MAX, [], 0, 0, true)];
          return OK, i;
        }
      }
      return NO_SLOT, 0;
    }

    method SetStreamVolume(id: nat, volume: nat) returns (rc: int)
      requires Valid()
      modifies this`streams
      ensures Valid()
      ensures rc == (if id >= MAX_STREAMS || !old(streams)[id].active then NOT_FOUND
                     else if volume > VOLUME_MAX then INVALID else OK)
      ensures streams == if rc == OK then old(streams)[id := old(streams)[id].(volume := volume)] else old(streams)
    {
      if id >= MAX_STREAMS || !streams[id].active { return NOT_FOUND; }
      if volume > VOLUME_MAX { return INVALID; }
      streams := streams[id := streams[id].(volume := volume)];
      return OK;
    }

    /** audio_mixer_submit; the caller's samples must cover the frames it announces. */
    method Submit(id: nat, samples: seq<i16>, frames: nat) returns (rc: int)
      requires Valid()
      requires id < MAX_STREAMS && streams[id].active ==> frames * streams[id].channels <= |samples|
      modifies this`streams
      ensures Valid()
      ensures rc == (if id >= MAX_STREAMS || !old(streams)[id].active then NOT_FOUND
                     else if frames == 0 then INVALID else if Pending(old(streams)[id]) then BUSY else OK)
      ensures streams ==
                if rc == OK then old(streams)[id := old(streams)[id].(samples := samples, count := frames, cursor := 0)]
                else old(streams)
    {
      if id >= MAX_STREAMS || !streams[id].active { return NOT_FOUND; }
      if frames == 0 { return INVALID; }
      if streams[id].cursor < streams[id].count { return BUSY; }
      streams := streams[id := streams[id].(samples := samples, count := frames, cursor := 0)];
      return OK;
    }

    /** The stream loop of audio_mixer_mix_stereo_s16 for one frame. */
    method MixFrame() returns (left: int, right: int, contributed: bool)
      requires Valid()
      modifies this`streams
      ensures Valid() && streams == AdvanceAll(old(streams), 1)
      ensures left == Sum(old(streams), false) && right == Sum(old(streams), true)
      ensures contributed <==> AnyPending(old(streams))
      ensures -524288 <= left <= 524288 && -524288 <= right <= 524288
    {
      hide Scaled, Sum;
      ghost var start := streams;
      left, right, contributed := 0, 0, false;
      assert Sum(start[..0], false) == 0 == Sum(start[..0], true) by { SumEmpty(); }
      for i := 0 to MAX_STREAMS
        invariant Valid() && |start| == MAX_STREAMS && StreamsOk(start)
        invariant forall k :: 0 <= k < i ==> streams[k] == Advance(start[k], 1)
        invariant forall k :: i <= k < MAX_STREAMS ==> streams[k] == start[k]
        invariant left == Sum(start[..i], false) && right == Sum(start[..i], true)
        invariant contributed <==> AnyPending(start[..i])
      {
        var s := streams[i];
        assert s == start[i] && start[..i + 1] == start[..i] + [s];
        SumAppend(start[..i], s, false);
        SumAppend(start[..i], s, true);
        if s.active && s.cursor < s.count {
          FrameInRange(s);
          left := left + Scaled(s.samples, s.channels, s.cursor, s.volume, false);
          right := right + Scaled(s.samples, s.channels, s.cursor, s.volume, true);
          streams := streams[i := s.(cursor := s.cursor + 1)];
          contributed := true;
          assert Pending(start[..i + 1][i]);
        } else {
          assert forall k :: 0 <= k < i ==> start[..i + 1][k] == start[..i][k];
        }
      }
      assert start[..MAX_STREAMS] == start && streams == AdvanceAll(start, 1);
      SumBound(start, false);
      SumBound(start, true);
    }

    /** One iteration of the frame loop: mix, store both samples at `at`, count. */
    method EmitFrame(output: array<i16>, at: nat)
      requires Valid() && at + 1 < output.Length
      modifies this`streams, this`mixedFrames, this`underrunFrames, output
      ensures Valid() && streams == AdvanceAll(old(streams), 1)
      ensures output[at] == Output(Sum(old(streams), false), globalVolume)
      ensures output[at + 1] == Output(Sum(old(streams), true), globalVolume)
      ensures forall i :: 0 <= i < output.Length && i != at && i != at + 1 ==> output[i] == old(output[i])
      ensures mixedFrames == Wrap64(old(mixedFrames) + 1)
      ensures underrunFrames == Wrap64(old(underrunFrames) + if AnyPending(old(streams)) then 0 else 1)
    {
      hide Output, Sum, StreamsOk;
      var left, right, contributed := MixFrame();
      output[at] := Output(left, globalVolume);
      output[at + 1] := Output(right, globalVolume);
      mixedFrames := Wrap64(mixedFrames + 1);
      if !contributed { underrunFrames := Wrap64(underrunFrames + 1); }
    }

    /** audio_mixer_mix_stereo_s16 into a buffer at `base`. */
    method Mix(output: array<i16>, base: nat, frames: nat) returns (done: nat)
      requires Valid() && base + 2 * frames <= output.Length
      modifies this`streams, this`mixedFrames, this`underrunFrames, output
      ensures Valid() && done == frames
      ensures output[base..base + 2 * frames] == MixOutput(old(streams), globalVolume, frames)
      ensures forall i :: 0 <= i < base || base + 2 * frames <= i < output.Length ==> output[i] == old(output[i])
      ensures streams == AdvanceAll(old(streams), frames)
      ensures mixedFrames == Wrap64(old(mixedFrames) + frames)
      ensures underrunFrames == Wrap64(old(underrunFrames) + Underruns(old(streams), frames))
    {
      hide Output, Sum, StreamsOk, SampleAt, Wrap64, AnyPending;
      ghost var start := streams;
      assert start == AdvanceAll(start, 0);
      WrapSmall(mixedFrames);
      WrapSmall(underrunFrames);
      for f := 0 to frames
        invariant Valid() && streams == AdvanceAll(start, f)
        invariant forall i :: base <= i < base + 2 * f ==> output[i] == SampleAt(start, globalVolume, i - base)
        invariant forall i :: 0 <= i < base || base + 2 * frames <= i < output.Length ==> output[i] == old(output[i])
        invariant mixedFrames == Wrap64(old(mixedFrames) + f)
        invariant underrunFrames == Wrap64(old(underrunFrames) + Underruns(start, f))
      {
        EmitFrame(output, base + f * 2);
        AdvanceTwice(start, f, 1);
        SampleAtFrame(start, globalVolume, f);
        WrapAdd(old(mixedFrames) + f, 1);
        WrapAdd(old(underrunFrames) + Underruns(start, f), Underruns(start, f + 1) - Underruns(start, f));
      }
      assert forall i :: 0 <= i < 2 * frames ==>
        output[base..base + 2 * frames][i] == MixOutput(start, globalVolume, frames)[i];
      return frames;
    }
  }
}
