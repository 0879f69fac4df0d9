/** What a mixed sample is, in numbers (src/audio/audio_mixer.c): each pending stream's own sample at its volume, the
    sum of those at the global gain, every product over a thousand cut toward zero, the result clipped to 16 bits. */
module AudioSamples {
  import opened Words
  import opened AudioMixer

  /** `q` is `p` thousandths, toward zero. */
  predicate Thousandths(p: int, q: int) {
    var rest := p - 1000 * q;
    -1000 < rest < 1000 && (p >= 0 ==> rest >= 0) && (p <= 0 ==> rest <= 0)
  }

  /** `x` is the 16-bit value nearest to `v`. */
  predicate Clips(v: int, x: int) {
    -32768 <= x <= 32767 && (x < v ==> x == 32767) && (x > v ==> x == -32768)
  }

  lemma TruncDivMeans(p: int)
    ensures Thousandths(p, TruncDiv(p, VOLUME_MAX))
  {
  }

  /** Both relations have one answer. */
  lemma OneAnswer(p: int, q: int, r: int)
    ensures Thousandths(p, q) && Thousandths(p, r) ==> q == r
    ensures Clips(p, q) && Clips(p, r) ==> q == r
  {
  }

  /** `y` is frame `frame` of a source on one side at that volume: a mono source has one sample a frame, a stereo source
      two, the left one first. */
  predicate Plays(samples: seq<i16>, channels: nat, frame: nat, volume: nat, right: bool, y: int) {
    if channels == 1 then
      frame < |samples| && Thousandths(samples[frame] * volume, y)
    else if right then
      2 * frame + 1 < |samples| && Thousandths(samples[2 * frame + 1] * volume, y)
    else
      2 * frame < |samples| && Thousandths(samples[2 * frame] * volume, y)
  }

  lemma ScaledMeans(samples: seq<i16>, channels: nat, frame: nat, volume: nat, right: bool)
    requires (channels == 1 || channels == 2) && (frame + 1) * channels <= |samples|
    ensures Plays(samples, channels, frame, volume, right, Scaled(samples, channels, frame, volume, right))
  {
    var x: int := samples[SampleIndex(channels, frame, right)];
    TruncDivMeans(x * volume);
    hide TruncDiv, Thousandths;
  }

  lemma OutputMeans(sum: int, gain: nat) returns (q: int)
    ensures Thousandths(sum * gain, q) && Clips(q, Output(sum, gain))
  {
    q := TruncDiv(sum * gain, VOLUME_MAX);
    TruncDivMeans(sum * gain);
  }

  function Total(parts: seq<int>): int {
    if parts == [] then 0 else Total(parts[..|parts| - 1]) + parts[|parts| - 1]
  }

  /** What a stream puts into frame `k` of a mix: nothing if it is closed or at its end by then. */
  predicate PartOf(s: Stream, k: nat, right: bool, y: int) {
    if s.active && s.cursor + k < s.count then Plays(s.samples, s.channels, s.cursor + k, s.volume, right, y)
    else y == 0
  }

  lemma ContributionMeans(s: Stream, k: nat, right: bool)
    requires StreamOk(s)
    ensures PartOf(s, k, right, Contribution(Advance(s, k), right))
  {
    var a := Advance(s, k);
    hide Plays, Scaled;
    if Pending(a) {
      FrameInRange(a);
      ScaledMeans(a.samples, a.channels, a.cursor, a.volume, right);
    }
  }

  lemma {:induction false} SumMeans(ss: seq<Stream>, k: nat, right: bool) returns (parts: seq<int>)
    requires StreamsOk(ss)
    ensures |parts| == |ss| && forall i :: 0 <= i < |ss| ==> PartOf(ss[i], k, right, parts[i])
    ensures Total(parts) == Sum(AdvanceAll(ss, k), right)
  {
    parts := [];
    if ss != [] {
      var n := |ss| - 1;
      var before := SumMeans(ss[..n], k, right);
      var y := Contribution(Advance(ss[n], k), right);
      ContributionMeans(ss[n], k, right);
      hide PartOf, Contribution;
      parts := before + [y];
      assert parts[..n] == before;
      assert AdvanceAll(ss, k)[..n] == AdvanceAll(ss[..n], k);
    }
  }

  /** Every sample of every mix: the clipped sum of what each stream plays in that frame, on its side. */
  lemma MixMeans(ss: seq<Stream>, gain: nat, n: nat, k: nat, right: bool) returns (parts: seq<int>, q: int)
    requires StreamsOk(ss) && k < n
    ensures |parts| == |ss| && forall i :: 0 <= i < |ss| ==> PartOf(ss[i], k, right, parts[i])
    ensures Thousandths(Total(parts) * gain, q)
    ensures Clips(q, MixOutput(ss, gain, n)[2 * k + if right then 1 else 0])
  {
    hide Output, Sum, PartOf, Thousandths, Clips;
    parts := SumMeans(ss, k, right);
    q := OutputMeans(Total(parts), gain);
    SampleAtFrame(ss, gain, k);
  }

  lemma {:induction false} TotalOfOne(parts: seq<int>, j: nat)
    requires j < |parts| && forall i :: 0 <= i < |parts| && i != j ==> parts[i] == 0
    ensures Total(parts) == parts[j]
  {
    var n := |parts| - 1;
    if j < n { TotalOfOne(parts[..n], j); } else { TotalOfNone(parts[..n]); }
  }

  lemma {:induction false} TotalOfNone(parts: seq<int>)
    requires forall i :: 0 <= i < |parts| ==> parts[i] == 0
    ensures Total(parts) == 0
  {
    if parts != [] { TotalOfNone(parts[..|parts| - 1]); }
  }

  /** The stream in slot `j` is the only one still playing at frame `k`. */
  predicate Alone(ss: seq<Stream>, j: nat, k: nat) {
    && j < |ss| && ss[j].active && ss[j].cursor + k < ss[j].count
    && forall i :: 0 <= i < |ss| && i != j ==> !ss[i].active || ss[i].cursor + k >= ss[i].count
  }

  lemma AloneMeans(ss: seq<Stream>, gain: nat, n: nat, k: nat, j: nat, right: bool) returns (p: int, q: int)
    requires StreamsOk(ss) && k < n && Alone(ss, j, k)
    ensures Plays(ss[j].samples, ss[j].channels, ss[j].cursor + k, ss[j].volume, right, p)
    ensures Thousandths(p * gain, q) && Clips(q, MixOutput(ss, gain, n)[2 * k + if right then 1 else 0])
  {
    var parts: seq<int>;
    parts, q := MixMeans(ss, gain, n, k, right);
    hide Plays, Thousandths, Clips, MixOutput, StreamsOk;
    TotalOfOne(parts, j);
    p := parts[j];
  }

  /** A stereo stream alone: its left sample of that frame on the left, its right one on the right, both at the stream's
      volume and the global gain. */
  lemma StereoAlone(ss: seq<Stream>, gain: nat, n: nat, k: nat, j: nat)
    requires StreamsOk(ss) && k < n && Alone(ss, j, k) && ss[j].channels == 2
    ensures 2 * (ss[j].cursor + k) + 1 < |ss[j].samples|
    ensures
      var s, f, out := ss[j], ss[j].cursor + k, MixOutput(ss, gain, n);
      && (exists p, q :: Thousandths(s.samples[2 * f] * s.volume, p) && Thousandths(p * gain, q) &&
                         Clips(q, out[2 * k]))
      && (exists p, q :: Thousandths(s.samples[2 * f + 1] * s.volume, p) && Thousandths(p * gain, q) &&
                         Clips(q, out[2 * k + 1]))
  {
    var p, q := AloneMeans(ss, gain, n, k, j, false);
    var p', q' := AloneMeans(ss, gain, n, k, j, true);
    hide Thousandths, Clips, MixOutput, StreamsOk;
  }

  /** A mono stream alone: its sample of that frame on both sides. */
  lemma MonoAlone(ss: seq<Stream>, gain: nat, n: nat, k: nat, j: nat)
    requires StreamsOk(ss) && k < n && Alone(ss, j, k) && ss[j].channels == 1
    ensures ss[j].cursor + k < |ss[j].samples|
    ensures
      var s, f, out := ss[j], ss[j].cursor + k, MixOutput(ss, gain, n);
      && out[2 * k] == out[2 * k + 1]
      && exists p, q :: Thousandths(s.samples[f] * s.volume, p) && Thousandths(p * gain, q) && Clips(q, out[2 * k])
  {
    var p, q := AloneMeans(ss, gain, n, k, j, false);
    var p', q' := AloneMeans(ss, gain, n, k, j, true);
    var x: int := ss[j].samples[ss[j].cursor + k];
    OneAnswer(x * ss[j].volume, p, p');
    OneAnswer(p * gain, q, q');
    var out := MixOutput(ss, gain, n);
    OneAnswer(q, out[2 * k], out[2 * k + 1]);
    hide Thousandths, Clips, MixOutput, StreamsOk;
  }

  /** Full volume and full gain change nothing. */
  lemma FullVolume(x: i16, p: int, q: int, y: int)
    requires Thousandths(x * 1000, p) && Thousandths(p * 1000, q) && Clips(q, y)
    ensures y == x
  {
    var v: int := x;
    OneAnswer(v * 1000, p, v);
    OneAnswer(v * 1000, q, v);
  }
}
