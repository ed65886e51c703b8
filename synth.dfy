/**
 * The PCM16 synthesiser (`synthesize_pcm16`): clamps the acoustic parameters, then
 * walks the timing rows, appending `seg_len` zero samples for a silence row and an
 * enveloped, quantised oscillator sample per position for a tone row, while a
 * running absolute sample index `t` drives the oscillator.
 *
 * `math.sin`, `math.cos` and `math.pi` are abstracted as the fields of a `Trig`
 * value, and real arithmetic is exact, so nothing here depends on floating point.
 */
module Synth {
  import opened Schedule
  import opened Pcm16

  /** The caller's acoustic parameters, before clamping. */
  datatype Params = Params(freqHz: real, sampleRate: int, volume: real, rampMs: real)

  /** The trigonometry the oscillator and the envelope use, left uninterpreted. */
  datatype Trig = Trig(sin: real -> real, cos: real -> real, pi: real)

  // ---------------------------------------------------------------------
  // Parameter clamping
  // ---------------------------------------------------------------------

  /** `max(lo, min(hi, x))` on reals: `x` saturated to the nearest bound of [lo, hi]. */
  function ClampReal(lo: real, hi: real, x: real): (r: real)
    requires lo <= hi
    ensures lo <= r <= hi
    ensures lo <= x <= hi ==> r == x
    ensures x < lo ==> r == lo
    ensures x > hi ==> r == hi
  {
    if hi < x then hi else if x < lo then lo else x
  }

  /**
   * `max(lo, min(hi, x))` on integers, for the sample rate. It repeats `ClampReal`
   * because Dafny has no ordered type that both `int` and `real` belong to.
   */
  function ClampInt(lo: int, hi: int, x: int): (r: int)
    requires lo <= hi
    ensures lo <= r <= hi
    ensures lo <= x <= hi ==> r == x
    ensures x < lo ==> r == lo
    ensures x > hi ==> r == hi
  {
    if hi < x then hi else if x < lo then lo else x
  }

  /** The documented ranges of the effective parameters. */
  predicate InRange(p: Params) {
    8000 <= p.sampleRate <= 192000 && 0.0 <= p.volume <= 1.0 &&
    50.0 <= p.freqHz <= 6000.0 && 0.0 <= p.rampMs <= 50.0
  }

  /**
   * The clamping step: every parameter is saturated into its range, never rejected,
   * and parameters already in range are kept as they are.
   */
  function ClampParams(p: Params): (q: Params)
    ensures InRange(q)
    ensures InRange(p) ==> q == p
    ensures q.sampleRate == ClampInt(8000, 192000, p.sampleRate)
    ensures q.volume == ClampReal(0.0, 1.0, p.volume)
    ensures q.freqHz == ClampReal(50.0, 6000.0, p.freqHz)
    ensures q.rampMs == ClampReal(0.0, 50.0, p.rampMs)
  {
    Params(ClampReal(50.0, 6000.0, p.freqHz), ClampInt(8000, 192000, p.sampleRate),
           ClampReal(0.0, 1.0, p.volume), ClampReal(0.0, 50.0, p.rampMs))
  }

  /** Clamping twice changes nothing more than clamping once. */
  lemma ClampIdempotent(p: Params)
    ensures ClampParams(ClampParams(p)) == ClampParams(p)
  {
  }

  // ---------------------------------------------------------------------
  // Segment and ramp lengths
  // ---------------------------------------------------------------------

  /**
   * `round(num / den)` with ties to even, as Python's `round`: the nearest integer to
   * `num / den`, and the even one of the two when `num / den` is halfway between them.
   */
  function RoundHalfEven(num: int, den: int): (r: int)
    requires den > 0
    ensures 2 * (num - r * den) <= den && 2 * (r * den - num) <= den
    ensures 2 * (num - r * den) == den || 2 * (r * den - num) == den ==> r % 2 == 0
  {
    var q := num / den;
    var rem := num % den;
    assert num == q * den + rem;
    if 2 * rem < den then q
    else if 2 * rem > den then q + 1
    else if q % 2 == 0 then q
    else q + 1
  }

  /** `int(round(samplerate * (dur_ms / 1000.0)))`: the number of samples a row lasts. */
  function SegLen(sampleRate: int, durationMs: int): int {
    RoundHalfEven(sampleRate * durationMs, 1000)
  }

  /** The samples a row contributes: rows with `seg_len <= 0` contribute none. */
  function SegCount(row: Row, sampleRate: int): nat {
    var len := SegLen(sampleRate, row.durationMs);
    if len <= 0 then 0 else len
  }

  /** At any clamped sample rate a row yields samples exactly when its duration is positive. */
  lemma SegLenPositive(sampleRate: int, durationMs: int)
    requires 8000 <= sampleRate <= 192000
    ensures SegLen(sampleRate, durationMs) > 0 <==> durationMs > 0
    ensures durationMs == 0 ==> SegLen(sampleRate, durationMs) == 0
  {
    var num := sampleRate * durationMs;
    if durationMs > 0 {
      MulAtLeast(sampleRate, durationMs);
    } else if durationMs < 0 {
      MulAtLeast(sampleRate, -durationMs);
      assert num == -(sampleRate * -durationMs);
    }
    RoundThousandSign(num);
  }

  lemma MulAtLeast(a: nat, b: int)
    requires b >= 1
    ensures a * b >= a
  {
    assert a * b == a * (b - 1) + a;
  }

  /** Rounding to a whole number of thousandths keeps the sign of a numerator away from zero. */
  lemma RoundThousandSign(num: int)
    ensures num >= 8000 ==> RoundHalfEven(num, 1000) > 0
    ensures num <= -8000 ==> RoundHalfEven(num, 1000) < 0
    ensures num == 0 ==> RoundHalfEven(num, 1000) == 0
  {
    var r := RoundHalfEven(num, 1000);
    assert 2 * (num - r * 1000) <= 1000 && 2 * (r * 1000 - num) <= 1000;
  }

  /**
   * `int(samplerate * (ramp_ms / 1000.0))`: the ramp length in samples, truncated; for
   * clamped parameters it is at most 9600 (50 ms at 192 kHz).
   */
  function RampSamples(sampleRate: int, rampMs: real): (n: nat)
    requires 0 <= sampleRate && 0.0 <= rampMs
    ensures n as real <= sampleRate as real * rampMs / 1000.0 < n as real + 1.0
    ensures sampleRate <= 192000 && rampMs <= 50.0 ==> n <= 9600
  {
    var x := sampleRate as real * rampMs / 1000.0;
    assert x >= 0.0 by {
      assert sampleRate as real * rampMs >= 0.0 * rampMs;
    }
    assert sampleRate <= 192000 && rampMs <= 50.0 ==> x <= 9600.0 by {
      if sampleRate <= 192000 && rampMs <= 50.0 {
        assert sampleRate as real * rampMs <= 192000.0 * rampMs;
      }
    }
    x.Floor
  }

  // ---------------------------------------------------------------------
  // The envelope branch
  // ---------------------------------------------------------------------

  /** Which envelope a tone sample gets: fade-in at local index `n`, fade-out at `k`, or flat. */
  datatype Envelope = FadeIn(n: int) | FadeOut(k: int) | Flat

  /** The three-way branch choosing the envelope of local sample `n` of a `segLen`-sample tone. */
  function EnvelopeBranch(n: int, segLen: int, rampSamples: nat): (e: Envelope)
    ensures rampSamples == 0 ==> e == Flat
    ensures e.FadeIn? ==> e.n == n && n < rampSamples
    ensures e.FadeOut? ==> rampSamples <= n && e.k == segLen - n && e.k <= rampSamples
  {
    if rampSamples > 0 then
      if n < rampSamples then FadeIn(n)
      else if segLen - n <= rampSamples then FadeOut(segLen - n)
      else Flat
    else Flat
  }

  /** Without a ramp every sample of a tone is flat (gain 1). */
  lemma NoRampIsFlat(n: int, segLen: int)
    ensures EnvelopeBranch(n, segLen, 0) == Flat
  {
  }

  /**
   * With a ramp, fade-in is chosen exactly for the first `rampSamples` positions, even
   * where the fade-out window overlaps them; fade-out only after that, within the last
   * `rampSamples` positions, with `1 <= k <= rampSamples`; flat everywhere else.
   */
  lemma EnvelopePrecedence(n: int, segLen: int, rampSamples: nat)
    requires rampSamples > 0 && 0 <= n < segLen
    ensures EnvelopeBranch(n, segLen, rampSamples).FadeIn? <==> n < rampSamples
    ensures EnvelopeBranch(n, segLen, rampSamples).FadeIn? ==> EnvelopeBranch(n, segLen, rampSamples).n == n
    ensures EnvelopeBranch(n, segLen, rampSamples).FadeOut? <==> rampSamples <= n && segLen - rampSamples <= n
    ensures EnvelopeBranch(n, segLen, rampSamples).FadeOut? ==>
      var k := EnvelopeBranch(n, segLen, rampSamples).k; k == segLen - n && 1 <= k <= rampSamples
    ensures EnvelopeBranch(n, segLen, rampSamples).Flat? <==> rampSamples <= n < segLen - rampSamples
  {
  }

  /** A tone no longer than the ramp is faded in over its whole length and never faded out. */
  lemma ShortToneOnlyFadesIn(n: int, segLen: int, rampSamples: nat)
    requires 0 <= n < segLen <= rampSamples
    ensures EnvelopeBranch(n, segLen, rampSamples) == FadeIn(n)
  {
  }

  /** The raised-cosine gain `0.5 * (1 - cos(pi * i / ramp_samples))` of an envelope. */
  function EnvelopeGain(e: Envelope, rampSamples: nat, trig: Trig): (g: real)
    requires !e.Flat? ==> rampSamples > 0
    ensures e.Flat? ==> g == 1.0
    ensures (forall x :: -1.0 <= trig.cos(x) <= 1.0) ==> 0.0 <= g <= 1.0
  {
    match e
    case FadeIn(n) => 0.5 * (1.0 - trig.cos(trig.pi * n as real / rampSamples as real))
    case FadeOut(k) => 0.5 * (1.0 - trig.cos(trig.pi * k as real / rampSamples as real))
    case Flat => 1.0
  }

  /** With no ramp the gain is exactly 1 at every position of a tone. */
  lemma NoRampUnitGain(n: int, segLen: int, trig: Trig)
    ensures EnvelopeGain(EnvelopeBranch(n, segLen, 0), 0, trig) == 1.0
  {
  }

  // ---------------------------------------------------------------------
  // Tone samples and the whole buffer
  // ---------------------------------------------------------------------

  /**
   * Tone sample at local index `n` of a `segLen`-sample tone and absolute index `t`:
   * `volume * env * sin(2 pi f t / samplerate)`, quantised. The envelope follows `n`,
   * the oscillator phase follows `t`.
   */
  function ToneSample(p: Params, trig: Trig, rampSamples: nat, segLen: int, n: int, t: int): (s: Sample)
    requires p.sampleRate > 0
    ensures -FullScale <= s <= FullScale
    ensures p.volume == 0.0 ==> s == 0
  {
    Quantise(Amplitude(p, trig, EnvelopeGain(EnvelopeBranch(n, segLen, rampSamples), rampSamples, trig), t))
  }

  /** `sin(two_pi * freq_hz * (t / samplerate))`: the oscillator at absolute sample index `t`. */
  function Oscillator(p: Params, trig: Trig, t: int): (o: real)
    requires p.sampleRate > 0
    ensures t == 0 ==> o == trig.sin(0.0)
    ensures (forall x :: -1.0 <= trig.sin(x) <= 1.0) ==> -1.0 <= o <= 1.0
  {
    trig.sin(2.0 * trig.pi * p.freqHz * (t as real / p.sampleRate as real))
  }

  /** `volume * env * sin(...)`: the amplitude before clamping and quantisation. */
  function Amplitude(p: Params, trig: Trig, env: real, t: int): (a: real)
    requires p.sampleRate > 0
    ensures p.volume == 0.0 || env == 0.0 ==> a == 0.0
  {
    p.volume * env * Oscillator(p, trig, t)
  }

  /** The samples of one row when it starts at absolute index `t0`. */
  function SegmentSamples(row: Row, p: Params, trig: Trig, rampSamples: nat, t0: nat): (s: seq<Sample>)
    requires p.sampleRate > 0
    ensures |s| == SegCount(row, p.sampleRate)
    ensures forall n :: 0 <= n < |s| ==> -FullScale <= s[n] <= FullScale
  {
    var len := SegLen(p.sampleRate, row.durationMs);
    if len <= 0 then []
    else if row.value == 1 then
      ToneRun(p, trig, rampSamples, len, t0, len)
    else
      var silence: seq<Sample> := seq(len, _ => 0);
      silence
  }

  /** The first `count` samples of a `segLen`-sample tone starting at absolute index `t0`. */
  function ToneRun(p: Params, trig: Trig, rampSamples: nat, segLen: int, t0: nat, count: nat): (s: seq<Sample>)
    requires p.sampleRate > 0
    ensures |s| == count
    ensures forall n :: 0 <= n < count ==> -FullScale <= s[n] <= FullScale
    ensures forall n :: 0 <= n < count ==> s[n] == ToneSample(p, trig, rampSamples, segLen, n, t0 + n)
  {
    if count == 0 then []
    else
      ToneRun(p, trig, rampSamples, segLen, t0, count - 1) +
        [ToneSample(p, trig, rampSamples, segLen, count - 1, t0 + count - 1)]
  }

  /** One more sample of a tone run is the quantised, enveloped oscillator value at index `t`. */
  lemma ToneStep(p: Params, trig: Trig, rampSamples: nat, segLen: int, t0: nat, n: nat, t: nat)
    requires p.sampleRate > 0 && t == t0 + n
    ensures ToneRun(p, trig, rampSamples, segLen, t0, n + 1) ==
      ToneRun(p, trig, rampSamples, segLen, t0, n) +
        [Quantise(Amplitude(p, trig, EnvelopeGain(EnvelopeBranch(n, segLen, rampSamples), rampSamples, trig), t))]
  {
  }

  /** Local sample `n` of a row starting at `t0` is its tone sample at absolute index `t0 + n`, or zero. */
  lemma SegmentAt(row: Row, p: Params, trig: Trig, rampSamples: nat, t0: nat, n: nat)
    requires p.sampleRate > 0 && n < SegCount(row, p.sampleRate)
    ensures SegmentSamples(row, p, trig, rampSamples, t0)[n] ==
      if row.value == 1 then ToneSample(p, trig, rampSamples, SegLen(p.sampleRate, row.durationMs), n, t0 + n) else 0
  {
  }

  /** The samples all rows produce, each row starting where the previous one ended. */
  function Samples(rows: seq<Row>, p: Params, trig: Trig, rampSamples: nat): seq<Sample>
    requires p.sampleRate > 0
  {
    if rows == [] then []
    else
      var init := Samples(rows[..|rows| - 1], p, trig, rampSamples);
      init + SegmentSamples(rows[|rows| - 1], p, trig, rampSamples, |init|)
  }

  /** The sample count: the sum over rows of `seg_len`, counting only rows with `seg_len > 0`. */
  function TotalSamples(rows: seq<Row>, sampleRate: int): nat {
    if rows == [] then 0
    else TotalSamples(rows[..|rows| - 1], sampleRate) + SegCount(rows[|rows| - 1], sampleRate)
  }

  /** No sample at all is produced exactly when no row has a positive `seg_len`. */
  lemma {:induction false} NoSamples(rows: seq<Row>, sampleRate: int)
    ensures TotalSamples(rows, sampleRate) == 0 <==>
      forall k :: 0 <= k < |rows| ==> SegCount(rows[k], sampleRate) == 0
  {
    if rows != [] {
      var init := rows[..|rows| - 1];
      NoSamples(init, sampleRate);
      assert forall k :: 0 <= k < |init| ==> init[k] == rows[k];
    }
  }

  /** The buffer holds exactly the total sample count. */
  lemma {:induction false} SamplesLength(rows: seq<Row>, p: Params, trig: Trig, rampSamples: nat)
    requires p.sampleRate > 0
    ensures |Samples(rows, p, trig, rampSamples)| == TotalSamples(rows, p.sampleRate)
  {
    if rows != [] {
      SamplesLength(rows[..|rows| - 1], p, trig, rampSamples);
    }
    assert rows[..|rows|] == rows;
  }

  /** The total is additive over concatenated schedules. */
  lemma {:induction false} TotalAppend(a: seq<Row>, b: seq<Row>, sampleRate: int)
    ensures TotalSamples(a + b, sampleRate) == TotalSamples(a, sampleRate) + TotalSamples(b, sampleRate)
    decreases |b|
  {
    if b == [] {
      assert a + b == a;
    } else {
      assert (a + b)[..|a + b| - 1] == a + b[..|b| - 1];
      TotalAppend(a, b[..|b| - 1], sampleRate);
    }
  }

  /**
   * Sample `n` of row `i` sits at position `TotalSamples(rows[..i]) + n` of the buffer:
   * zero for a silence row, and for a tone row the tone sample whose oscillator index is
   * that same absolute position, whatever silence came before.
   */
  lemma {:induction false} SampleAt(rows: seq<Row>, p: Params, trig: Trig, rampSamples: nat, i: nat, n: nat)
    requires p.sampleRate > 0
    requires i < |rows| && n < SegCount(rows[i], p.sampleRate)
    ensures var t := TotalSamples(rows[..i], p.sampleRate) + n;
      var s := Samples(rows, p, trig, rampSamples);
      t < |s| &&
      s[t] == if rows[i].value == 1
              then ToneSample(p, trig, rampSamples, SegLen(p.sampleRate, rows[i].durationMs), n, t)
              else 0
  {
    var t0 := TotalSamples(rows[..i], p.sampleRate);
    RowStep(rows, i, p, trig, rampSamples);
    SamplesPrefix(rows, i + 1, p, trig, rampSamples);
    var seg := SegmentSamples(rows[i], p, trig, rampSamples, t0);
    PrefixAt(Samples(rows[..i], p, trig, rampSamples), seg, Samples(rows, p, trig, rampSamples), n);
    SegmentAt(rows[i], p, trig, rampSamples, t0, n);
  }

  /** Position `n` of the second part of a prefix `a + b` of `c` is position `|a| + n` of `c`. */
  lemma PrefixAt<T>(a: seq<T>, b: seq<T>, c: seq<T>, n: nat)
    requires a + b <= c && n < |b|
    ensures |a| + n < |c| && c[|a| + n] == b[n]
  {
    assert (a + b)[|a| + n] == b[n];
  }

  /** The samples of the first `j` rows are a prefix of the samples of all rows. */
  lemma {:induction false} SamplesPrefix(rows: seq<Row>, j: nat, p: Params, trig: Trig, rampSamples: nat)
    requires p.sampleRate > 0 && j <= |rows|
    ensures Samples(rows[..j], p, trig, rampSamples) <= Samples(rows, p, trig, rampSamples)
  {
    if j < |rows| {
      var init := rows[..|rows| - 1];
      assert init[..j] == rows[..j];
      SamplesPrefix(init, j, p, trig, rampSamples);
    } else {
      assert rows[..j] == rows;
    }
  }

  /** Adding row `i` to the first `i` rows appends its samples, starting at the running index. */
  lemma RowStep(rows: seq<Row>, i: nat, p: Params, trig: Trig, rampSamples: nat)
    requires p.sampleRate > 0 && i < |rows|
    ensures |Samples(rows[..i], p, trig, rampSamples)| == TotalSamples(rows[..i], p.sampleRate)
    ensures Samples(rows[..i + 1], p, trig, rampSamples) ==
      Samples(rows[..i], p, trig, rampSamples) +
        SegmentSamples(rows[i], p, trig, rampSamples, TotalSamples(rows[..i], p.sampleRate))
    ensures TotalSamples(rows[..i + 1], p.sampleRate) == TotalSamples(rows[..i], p.sampleRate) + SegCount(rows[i], p.sampleRate)
  {
    SamplesLength(rows[..i], p, trig, rampSamples);
    assert rows[..i + 1][..i] == rows[..i];
  }

  /** Every sample of the buffer, tone or silence, lies in [-32767, 32767]. */
  lemma {:induction false} SamplesRange(rows: seq<Row>, p: Params, trig: Trig, rampSamples: nat)
    requires p.sampleRate > 0
    ensures forall k :: 0 <= k < |Samples(rows, p, trig, rampSamples)| ==>
      -FullScale <= Samples(rows, p, trig, rampSamples)[k] <= FullScale
  {
    if rows != [] {
      SamplesRange(rows[..|rows| - 1], p, trig, rampSamples);
    }
  }

  /** A silence row (value other than 1) packs to exactly `seg_len` pairs of `0x00` bytes. */
  lemma SilenceBytes(row: Row, p: Params, trig: Trig, rampSamples: nat, t0: nat)
    requires p.sampleRate > 0 && row.value != 1
    ensures Pack(SegmentSamples(row, p, trig, rampSamples, t0)) == ZeroBytes(SegCount(row, p.sampleRate))
  {
    var len := SegCount(row, p.sampleRate);
    assert SegmentSamples(row, p, trig, rampSamples, t0) == seq(len, _ => 0);
    PackZeros(len);
  }

  /** A tone row starting after `done` is the full tone run of `seg_len` samples at `|done|`. */
  lemma ToneStart(row: Row, p: Params, trig: Trig, rampSamples: nat, done: seq<Sample>)
    requires p.sampleRate > 0 && row.value == 1 && SegLen(p.sampleRate, row.durationMs) > 0
    ensures var len := SegLen(p.sampleRate, row.durationMs);
      SegmentSamples(row, p, trig, rampSamples, |done|) == ToneRun(p, trig, rampSamples, len, |done|, len)
    ensures done + ToneRun(p, trig, rampSamples, SegLen(p.sampleRate, row.durationMs), |done|, 0) == done
  {
  }

  /** Packing one more tone sample appends its two bytes to the packed buffer. */
  lemma PackToneStep(done: seq<Sample>, p: Params, trig: Trig, rampSamples: nat, segLen: int, n: nat, t: nat)
    requires p.sampleRate > 0 && t == |done| + n
    ensures Pack(done + ToneRun(p, trig, rampSamples, segLen, |done|, n + 1)) ==
      Pack(done + ToneRun(p, trig, rampSamples, segLen, |done|, n)) +
        EncodeLE16(Quantise(Amplitude(p, trig, EnvelopeGain(EnvelopeBranch(n, segLen, rampSamples), rampSamples, trig), t)))
  {
    var s := Quantise(Amplitude(p, trig, EnvelopeGain(EnvelopeBranch(n, segLen, rampSamples), rampSamples, trig), t));
    ToneStep(p, trig, rampSamples, segLen, |done|, n, t);
    var run := ToneRun(p, trig, rampSamples, segLen, |done|, n);
    assert done + (run + [s]) == (done + run) + [s];
    PackSnoc(done + run, s);
  }

  // ---------------------------------------------------------------------
  // The synthesis loop
  // ---------------------------------------------------------------------

  /**
   * `synthesize_pcm16(rows, ...)`: the packed samples of the schedule under the clamped
   * parameters, and the final running index `t`, which is the total sample count and
   * half the byte length.
   */
  method SynthesizePcm16(rows: seq<Row>, params: Params, trig: Trig) returns (frames: seq<byte>, t: nat)
    ensures var p := ClampParams(params);
      frames == Pack(Samples(rows, p, trig, RampSamples(p.sampleRate, p.rampMs)))
    ensures t == TotalSamples(rows, ClampParams(params).sampleRate)
    ensures |frames| == 2 * t
  {
    var p := ClampParams(params);
    var rampSamples := RampSamples(p.sampleRate, p.rampMs);
    frames := [];
    t := 0;
    for i := 0 to |rows|
      invariant frames == Pack(Samples(rows[..i], p, trig, rampSamples))
      invariant t == TotalSamples(rows[..i], p.sampleRate)
      invariant |frames| == 2 * t
    {
      ghost var done := Samples(rows[..i], p, trig, rampSamples);
      ghost var seg := SegmentSamples(rows[i], p, trig, rampSamples, t);
      RowStep(rows, i, p, trig, rampSamples);
      var segLen := SegLen(p.sampleRate, rows[i].durationMs);
      if segLen <= 0 {
        assert done + seg == done;
        continue;
      }
      if rows[i].value == 1 {
        ToneStart(rows[i], p, trig, rampSamples, done);
        for n := 0 to segLen
          invariant frames == Pack(done + ToneRun(p, trig, rampSamples, segLen, |done|, n))
          invariant t == |done| + n
        {
          var env := EnvelopeGain(EnvelopeBranch(n, segLen, rampSamples), rampSamples, trig);
          var sample := Amplitude(p, trig, env, t);
          var s := Quantise(sample);
          PackToneStep(done, p, trig, rampSamples, segLen, n, t);
          frames := frames + EncodeLE16(s);
          t := t + 1;
        }
      } else {
        SilenceBytes(rows[i], p, trig, rampSamples, t);
        PackAppend(done, seg);
        frames := frames + ZeroBytes(segLen);
        t := t + segLen;
      }
    }
    assert rows[..|rows|] == rows;
  }

  /**
   * The schedule `100,1` then `50,0` at 8000 Hz gives 800 + 400 = 1200 samples: the
   * first 800 are the tone samples at indices 0 to 799, the last 400 are zero.
   */
  lemma ExampleSchedule(params: Params, trig: Trig)
    requires params.sampleRate == 8000
    ensures var p := ClampParams(params); var rows := [Row(100, 1), Row(50, 0)];
      var ramp := RampSamples(p.sampleRate, p.rampMs);
      var s := Samples(rows, p, trig, ramp);
      TotalSamples(rows, p.sampleRate) == 1200 && |s| == 1200 &&
      (forall k :: 0 <= k < 800 ==> s[k] == ToneSample(p, trig, ramp, 800, k, k)) &&
      (forall k :: 800 <= k < 1200 ==> s[k] == 0)
  {
    var p := ClampParams(params);
    var rows := [Row(100, 1), Row(50, 0)];
    var ramp := RampSamples(p.sampleRate, p.rampMs);
    assert SegLen(8000, 100) == 800;
    assert SegLen(8000, 50) == 400;
    assert rows[..1] == [Row(100, 1)] && rows[..1][..0] == [] && rows[..0] == [];
    assert TotalSamples(rows[..1], 8000) == 800;
    SamplesLength(rows, p, trig, ramp);
    forall k | 0 <= k < 800 ensures Samples(rows, p, trig, ramp)[k] == ToneSample(p, trig, ramp, 800, k, k) {
      SampleAt(rows, p, trig, ramp, 0, k);
    }
    forall k | 800 <= k < 1200 ensures Samples(rows, p, trig, ramp)[k] == 0 {
      SampleAt(rows, p, trig, ramp, 1, k - 800);
    }
  }
}
