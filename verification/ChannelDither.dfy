/** The ditherers in the conversion loop: what each channel writes, under every schedule of the channel tasks. */
module ChannelDither {
  import opened Channels
  import opened Dither
  import opened Signals

  /** The ditherer of a channel, and how often it has drawn random numbers. */
  datatype Voice = Voice(memo: Memo, channel: nat, drawn: nat)

  /** The random numbers of each channel's generator, which is seeded with the number of the channel. */
  type Draws = (nat, nat) -> (int, int)

  ghost predicate InRange(draws: Draws) {
    forall ch, n :: 0 <= draws(ch, n).0 <= RAND_MAX && 0 <= draws(ch, n).1 <= RAND_MAX
  }

  function Gained(gain: real, x: real): real {
    gain * x
  }

  lemma GainedIs(gain: real, x: real)
    ensures Gained(gain, x) == gain * x
  {
  }

  /** Gain, and dither if it is asked for. */
  function FinishOne(c: Settings, bDither: bool, gain: real, draws: Draws, v: Voice, x: real): (Voice, real) {
    if bDither then
      var (a, b) := draws(v.channel, v.drawn);
      var (memo, y) := Dithered(c, v.memo, Gained(gain, x), a, b);
      (Voice(memo, v.channel, v.drawn + 1), y)
    else (v, Gained(gain, x))
  }

  function Finish(c: Settings, bDither: bool, gain: real, draws: Draws): (Voice, real) -> (Voice, real) {
    (v: Voice, x: real) => FinishOne(c, bDither, gain, draws, v, x)
  }

  /** The ditherer itself, at work on one sample of a channel, is what the conversion loop takes for `finish`. */
  method FinishSample(d: Ditherer, bDither: bool, gain: real, draws: Draws, channel: nat, drawn: nat, x: real)
    returns (outputSample: real, drawn': nat)
    requires d.Valid() && InRange(draws)
    modifies d, d.FIRHistory
    ensures d.Valid() && d.TheSettings() == old(d.TheSettings())
    ensures (Voice(d.Now(), channel, drawn'), outputSample)
         == old(Finish(d.TheSettings(), bDither, gain, draws)(Voice(d.Now(), channel, drawn), x))
    ensures !bDither ==> outputSample == gain * x && drawn' == drawn && d.Now() == old(d.Now())
    ensures bDither ==>
      && drawn' == drawn + 1 && d.errors == old(d.errors) + [d.Z1]
      && outputSample - gain * x
         == d.Z1 - Feedback(Effective(d.profile), old(d.errors), old(|d.errors|), |Effective(d.profile)|)
  {
    hide Dithered, Gained, Feedback, Effective, Rounded;
    assert Gained(gain, x) == gain * x by { GainedIs(gain, x); }
    if bDither {
      var (a, b) := draws(channel, drawn);
      ghost var q;
      outputSample, q := d.DitherSample(Gained(gain, x), a, b);
      drawn' := drawn + 1;
    } else {
      outputSample, drawn' := Gained(gain, x), drawn;
    }
  }

  function Scaled(gain: real, xs: seq<real>): (r: seq<real>)
    ensures |r| == |xs| && forall i :: 0 <= i < |xs| ==> r[i] == gain * xs[i] == Gained(gain, xs[i])
  {
    seq(|xs|, i requires 0 <= i < |xs| => Gained(gain, xs[i]))
  }

  /** A ditherer that has made no errors yet and dithers at its full level. */
  ghost predicate Fresh(c: Settings, v: Voice) {
    && v.memo.errors == [] && v.memo.blanking == Blanking(0, c.maxDitherScaleFactor, 1.0)
    && 0 <= v.memo.oldRandom <= RAND_MAX
  }

  ghost predicate Proper(c: Settings) {
    && c.maxSignalMagnitude > 0.0 && c.reciprocalSignalMagnitude * c.maxSignalMagnitude == 1.0
    && c.maxDitherScaleFactor >= 0.0
  }

  /** A case: 16 bits, flat dither of one bit, no auto-blanking, and draws that are all 0. */
  lemma SixteenBits()
    ensures var c := Settings(FLAT_F, 32767.0, 1.0 / 32767.0, false, 0.0, 0.0, 1.0 / 32767.0 / 16777215.0);
      && Proper(c) && InRange((_, _) => (0, 0)) && !c.bAutoBlankingEnabled
      && Fresh(c, Voice(Memo([], Blanking(0, c.maxDitherScaleFactor, 1.0), 0), 0, 0))
  {
  }

  /** Whatever a channel is given, what comes out obeys the feedback equation of its ditherer. */
  lemma {:induction false} FinishedIsRun(c: Settings, gain: real, draws: Draws, v: Voice, xs: seq<real>)
    requires v.memo.errors == []
    ensures var r := Finished(Finish(c, true, gain, draws), v, xs);
      IsRun(c.profile, Scaled(gain, xs), r.1, r.0.memo.errors)
  {
    hide IsRun, Feedback, Effective, Quantized, AtVolume, ScaledNoise, Blanked, Gained, Dithered;
    if xs == [] {
      NoRun(c.profile);
    } else {
      var front, x := xs[..|xs| - 1], xs[|xs| - 1];
      FinishedIsRun(c, gain, draws, v, front);
      var r := Finished(Finish(c, true, gain, draws), v, front);
      var (a, b) := draws(r.0.channel, r.0.drawn);
      var y, z := DitheredStep(c, r.0.memo, Gained(gain, x), a, b);
      RunExtends(c.profile, Scaled(gain, front), r.1, r.0.memo.errors, Gained(gain, x), y, z);
      assert Scaled(gain, xs) == Scaled(gain, front) + [Gained(gain, x)];
    }
  }

  /** One call: the output differs from the input by the new error, less what is fed back of the others. */
  lemma DitheredStep(c: Settings, d: Memo, x: real, a: int, b: int) returns (y: real, z: real)
    ensures Dithered(c, d, x, a, b).1 == y && Dithered(c, d, x, a, b).0.errors == d.errors + [z]
    ensures y - x == z - Feedback(Effective(c.profile), d.errors, |d.errors|, |Effective(c.profile)|)
  {
    hide Feedback, Effective, Quantized, AtVolume, ScaledNoise, Blanked;
    y := Dithered(c, d, x, a, b).1;
    z := y - PreDither(c, d, x);
  }

  lemma NoRun(p: Profile)
    ensures IsRun(p, [], [], [])
  {
  }

  function Bound(c: Settings): real {
    0.5 * c.reciprocalSignalMagnitude + RAND_MAX as real * c.maxDitherScaleFactor
  }

  /** What stays true of a ditherer without auto-blanking: its level and volume, and a bound on its errors. */
  ghost predicate Steady(c: Settings, d: Memo) {
    && d.blanking == Blanking(0, c.maxDitherScaleFactor, 1.0) && 0 <= d.oldRandom <= RAND_MAX
    && forall t :: 0 <= t < |d.errors| ==> Abs(d.errors[t]) <= Bound(c)
  }

  /** At full level and volume, the error of one sample is half a step and the largest noise at most. */
  lemma StaysSteady(c: Settings, d: Memo, x: real, a: int, b: int)
    requires Proper(c) && !c.bAutoBlankingEnabled && Steady(c, d)
    requires 0 <= a <= RAND_MAX && 0 <= b <= RAND_MAX
    ensures Steady(c, Dithered(c, d, x, a, b).0)
  {
    hide Quantized, PreDither, AtVolume;
    var noise := NoiseOf(c.profile.noise, a, b, d.oldRandom);
    var pre := PreDither(c, d, x);
    var loud := pre + ScaledNoise(c.profile.noise, a, b, d.oldRandom, c.maxDitherScaleFactor);
    NoiseBounded(c.profile.noise, a, b, d.oldRandom, c.maxDitherScaleFactor);
    QuantizationError(c.reciprocalSignalMagnitude, c.maxSignalMagnitude, loud);
    MasterVolume(1.0, loud);
    Triangle(Quantized(c.reciprocalSignalMagnitude, c.maxSignalMagnitude, loud), loud, pre,
      0.5 * c.reciprocalSignalMagnitude, RAND_MAX as real * c.maxDitherScaleFactor);
  }

  lemma {:induction false} ErrorsBounded(c: Settings, gain: real, draws: Draws, v: Voice, xs: seq<real>)
    requires Proper(c) && !c.bAutoBlankingEnabled && InRange(draws) && Fresh(c, v)
    ensures Steady(c, Finished(Finish(c, true, gain, draws), v, xs).0.memo)
  {
    hide Dithered, Gained, Bound, Proper;
    if xs != [] {
      hide Steady;
      var front, x := xs[..|xs| - 1], xs[|xs| - 1];
      ErrorsBounded(c, gain, draws, v, front);
      var r := Finished(Finish(c, true, gain, draws), v, front);
      var (a, b) := draws(r.0.channel, r.0.drawn);
      StaysSteady(c, r.0.memo, Gained(gain, x), a, b);
    }
  }

  /** One channel, given its whole signal at once. */
  lemma OneChannel(c: Settings, gain: real, draws: Draws, v: Voice, xs: seq<real>)
    requires v.memo.errors == []
    ensures var r, ins := Finished(Finish(c, true, gain, draws), v, xs), Scaled(gain, xs);
      && IsRun(c.profile, ins, r.1, r.0.memo.errors)
      && (c.profile in [FLAT_F, RPDF_F] ==>
           forall n :: 0 <= n <= |xs| ==> SumUpTo(r.1, n) - SumUpTo(ins, n) == ErrorAt(r.0.memo.errors, n - 1))
      && (c.profile in [FLAT_F, RPDF_F] && Proper(c) && !c.bAutoBlankingEnabled && InRange(draws) && Fresh(c, v) ==>
           forall n :: 0 <= n <= |xs| ==> Abs(SumUpTo(r.1, n) - SumUpTo(ins, n)) <= Bound(c))
  {
    hide SumUpTo, Finish, Feedback;
    var r, ins := Finished(Finish(c, true, gain, draws), v, xs), Scaled(gain, xs);
    FinishedIsRun(c, gain, draws, v, xs);
    if c.profile in [FLAT_F, RPDF_F] {
      FlatProfilesFeedBackOnce();
      forall n | 0 <= n <= |xs| ensures SumUpTo(r.1, n) - SumUpTo(ins, n) == ErrorAt(r.0.memo.errors, n - 1) {
        ErrorTelescopes(c.profile, ins, r.1, r.0.memo.errors, n);
      }
      if Proper(c) && !c.bAutoBlankingEnabled && InRange(draws) && Fresh(c, v) {
        ErrorsBounded(c, gain, draws, v, xs);
        BoundPositive(c);
      }
    }
  }

  lemma BoundIs(c: Settings)
    ensures Bound(c) == 0.5 * c.reciprocalSignalMagnitude + 16777215.0 * c.maxDitherScaleFactor
  {
  }

  lemma BoundPositive(c: Settings)
    requires Proper(c)
    ensures Bound(c) >= 0.0
  {
    if c.reciprocalSignalMagnitude <= 0.0 { ProductSign(c.reciprocalSignalMagnitude, c.maxSignalMagnitude); }
  }

  /**
   * The whole loop: under every schedule of the channel tasks, what a channel has written after a block obeys the
   * feedback equation of its ditherer, for the whole input of that channel converted at once; and with a flat profile
   * with error correction it never drifts, in total, from that signal.
   */
  lemma ChannelDoesNotDrift(s: Setup<Voice>, m0: Channels.Memory<Voice>, blocks: seq<seq<real>>, ls: seq<Step>, ch: nat,
                            c: Settings, gain: real, draws: Draws)
    requires s.WellFormed() && |m0.channels| == s.nChannels && IsSchedule(s, blocks, Start(s, m0), ls)
    requires After(s, blocks, Start(s, m0), ls).main == BetweenBlocks && ch < s.nChannels
    requires s.finish == Finish(c, true, gain, draws) && m0.channels[ch].ditherer.memo.errors == []
    ensures var x := After(s, blocks, Start(s, m0), ls);
      && x.done <= |blocks| && |x.memory.channels| == s.nChannels
      && var ys, e := Stream(s, m0, blocks[..x.done], ch), x.memory.channels[ch].ditherer.memo.errors;
         var xs := Scaled(gain, Converted(s, m0.channels[ch], Lanes(s.nChannels, blocks[..x.done], ch)));
         && IsRun(c.profile, xs, ys, e)
         && (c.profile in [FLAT_F, RPDF_F] ==>
              forall n :: 0 <= n <= |xs| ==> SumUpTo(ys, n) - SumUpTo(xs, n) == ErrorAt(e, n - 1))
         && (c.profile in [FLAT_F, RPDF_F] && Proper(c) && !c.bAutoBlankingEnabled && InRange(draws)
             && Fresh(c, m0.channels[ch].ditherer) ==>
              var bound := 0.5 * c.reciprocalSignalMagnitude + 16777215.0 * c.maxDitherScaleFactor;
              forall n :: 0 <= n <= |xs| ==> -bound <= SumUpTo(ys, n) - SumUpTo(xs, n) <= bound)
  {
    hide IsRun, SumUpTo, Finished, Finish, Converted, AllBlocks, After, IsSchedule, Stream, Lanes, Scaled, Bound;
    BoundIs(c);
    ThreadedEqualsSequential(s, m0, blocks, ls);
    var done := After(s, blocks, Start(s, m0), ls).done;
    StreamOfChannel(s, m0, blocks[..done], ch);
    var xs := Converted(s, m0.channels[ch], Lanes(s.nChannels, blocks[..done], ch));
    OneChannel(c, gain, draws, m0.channels[ch].ditherer, xs);
  }
}
