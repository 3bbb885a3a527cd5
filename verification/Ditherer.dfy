/** The ditherer of ditherer.h: quantization with noise and error feedback. */
module Dither {
  import opened Signals

  const MAX_FIR_FILTER_SIZE: nat := 41
  const RAND_MAX: nat := 16777215
  const AUTO_BLANK_TIME_THRESHOLD: nat := 30000
  const AUTO_BLANK_DECAY_FACTOR: real := 0.9995

  datatype NoiseGenerator = FlatTPDF | SlopedTPDF | RPDF

  datatype ShapingFilter = Bypass | Fir

  /**
   * A dither profile: the noise, the filter in the feedback path with its coefficients, and whether feedback
   * is used.
   */
  datatype Profile = Profile(noise: NoiseGenerator, filter: ShapingFilter, coeffs: seq<real>, useFeedback: bool)

  predicate Usable(p: Profile) {
    1 <= |p.coeffs| <= MAX_FIR_FILTER_SIZE
  }

  /** The C library's round(): to the nearest integer, halves away from zero. */
  function Round(x: real): (r: int)
    ensures -0.5 <= r as real - x <= 0.5
  {
    if x >= 0.0 then (x + 0.5).Floor else -((-x + 0.5).Floor)
  }

  /** The error made at time `t`, none before the start. */
  function ErrorAt(e: seq<real>, t: int): real {
    if 0 <= t < |e| then e[t] else 0.0
  }

  /** The filtered errors that are fed back at time `t`: coefficient k meets the error k + 1 samples back. */
  function Feedback(c: seq<real>, e: seq<real>, t: int, n: nat): real
    requires n <= |c|
  {
    if n == 0 then 0.0 else Feedback(c, e, t, n - 1) + ErrorAt(e, t - 1 - (n - 1)) * c[n - 1]
  }

  /** The coefficients in effect: pass-through is the single coefficient 1, and without feedback there are none. */
  function Effective(p: Profile): seq<real> {
    if !p.useFeedback then [] else if p.filter == Bypass then [1.0] else p.coeffs
  }

  /** The first n - 1 entries of the history are the errors from time `from` on. */
  ghost predicate Remembers(history: seq<real>, e: seq<real>, n: nat, from: int) {
    n <= |history| && forall i :: 0 <= i < n - 1 ==> history[i] == ErrorAt(e, from + i)
  }

  /** Difference of two draws, first difference of the draws, or one draw centred. */
  function NoiseOf(g: NoiseGenerator, a: int, b: int, oldRandom: int): real {
    match g
    case FlatTPDF => (a - b) as real
    case SlopedTPDF => (a - oldRandom) as real
    case RPDF => ((RAND_MAX + 1) / 2 - a) as real
  }

  function ScaledNoise(g: NoiseGenerator, a: int, b: int, oldRandom: int, scale: real): real {
    NoiseOf(g, a, b, oldRandom) * scale
  }

  /** The noise at a dither level: the draws times the level, and no more than the largest draw times the level. */
  lemma NoiseBounded(g: NoiseGenerator, a: int, b: int, oldRandom: int, scale: real)
    requires 0 <= a <= RAND_MAX && 0 <= b <= RAND_MAX && 0 <= oldRandom <= RAND_MAX && scale >= 0.0
    ensures ScaledNoise(g, a, b, oldRandom, scale) == NoiseOf(g, a, b, oldRandom) * scale
    ensures Abs(ScaledNoise(g, a, b, oldRandom, scale)) <= RAND_MAX as real * scale
  {
    ScaledBound(NoiseOf(g, a, b, oldRandom), RAND_MAX as real, scale);
  }

  /** Auto-blanking: how long it has been silent, the dither level, and the volume. */
  datatype Blanking = Blanking(zeroCount: nat, scale: real, volume: real)

  /** One more sample, silent or not. */
  function Blank(b: Blanking, silent: bool, maxScale: real, cutoff: real): Blanking {
    if !silent then Blanking(0, maxScale, 1.0)
    else if b.zeroCount + 1 <= AUTO_BLANK_TIME_THRESHOLD then b.(zeroCount := b.zeroCount + 1)
    else if b.scale * AUTO_BLANK_DECAY_FACTOR < cutoff then Blanking(b.zeroCount + 1, 0.0, 0.0)
    else Blanking(b.zeroCount + 1, b.scale * AUTO_BLANK_DECAY_FACTOR, b.volume)
  }

  /** What a ditherer has been set up with. */
  datatype Settings = Settings(profile: Profile, maxSignalMagnitude: real, reciprocalSignalMagnitude: real,
    bAutoBlankingEnabled: bool, autoBlankLevelThreshold: real, autoBlankDecayCutoff: real, maxDitherScaleFactor: real)

  /** What it keeps from sample to sample, with all errors in the place of the latest ones. */
  datatype Memo = Memo(errors: seq<real>, blanking: Blanking, oldRandom: int)

  /** The state of auto-blanking after one more sample. */
  function Blanked(c: Settings, b: Blanking, inSample: real): Blanking {
    if c.bAutoBlankingEnabled
    then Blank(b, Abs(inSample) < c.autoBlankLevelThreshold, c.maxDitherScaleFactor, c.autoBlankDecayCutoff)
    else b
  }

  /** The input less what is fed back of the earlier errors. */
  function PreDither(c: Settings, d: Memo, inSample: real): real {
    inSample - Feedback(Effective(c.profile), d.errors, |d.errors|, |Effective(c.profile)|)
  }

  /** dither() as a function: the state after one sample, and the output. */
  function Dithered(c: Settings, d: Memo, inSample: real, a: int, b: int): (Memo, real) {
    var blanking := Blanked(c, d.blanking, inSample);
    var noise := ScaledNoise(c.profile.noise, a, b, d.oldRandom, blanking.scale);
    var postQuantize := Quantized(c.reciprocalSignalMagnitude, c.maxSignalMagnitude,
      AtVolume(blanking.volume, PreDither(c, d, inSample) + noise));
    var Z1 := postQuantize - PreDither(c, d, inSample);
    (Memo(d.errors + [Z1], blanking, if c.profile.noise == SlopedTPDF then a else d.oldRandom), postQuantize)
  }

  class Ditherer {
    const profile: Profile
    const maxSignalMagnitude: real
    const reciprocalSignalMagnitude: real
    const bAutoBlankingEnabled: bool
    const autoBlankLevelThreshold: real
    const autoBlankDecayCutoff: real
    const FIRHistory: array<real>
    var maxDitherScaleFactor: real
    var ditherScaleFactor: real
    var masterVolume: real
    var zeroCount: nat
    var Z1: real
    var oldRandom: int
    ghost var errors: seq<real>  // every value of Z1 since construction or reset

    ghost predicate Valid()
      reads this, FIRHistory
    {
      && Usable(profile) && FIRHistory.Length == MAX_FIR_FILTER_SIZE
      && Levels()
      && (!bAutoBlankingEnabled ==> masterVolume == 1.0 && ditherScaleFactor == maxDitherScaleFactor)
      && (masterVolume == 0.0 ==> ditherScaleFactor == 0.0 && zeroCount > AUTO_BLANK_TIME_THRESHOLD)
      && Z1 == ErrorAt(errors, |errors| - 1)
      && 0 <= oldRandom <= RAND_MAX
      && (Shapes() ==> Remembers(FIRHistory[..], errors, |profile.coeffs|, |errors| - |profile.coeffs|))
    }

    ghost predicate Levels()
      reads this
    {
      && maxSignalMagnitude > 0.0 && reciprocalSignalMagnitude * maxSignalMagnitude == 1.0
      && maxDitherScaleFactor >= 0.0 && ditherScaleFactor >= 0.0
      && (masterVolume == 1.0 || masterVolume == 0.0)
    }

    predicate Shapes() {
      profile.useFeedback && profile.filter == Fir
    }

    /**
     * signalBits gives `maxMagnitude` = 2^(signalBits - 1) - 1; `scaleFactor` is 2^(ditherBits - 1) over that and
     * over randMax; the thresholds are those of auto-blanking.
     */
    constructor (profile: Profile, maxMagnitude: nat, scaleFactor: real, bAutoBlankingEnabled: bool,
                 levelThreshold: real, decayCutoff: real)
      requires Usable(profile) && maxMagnitude >= 1 && scaleFactor >= 0.0
      ensures Valid() && errors == [] && fresh(FIRHistory)
      ensures this.profile == profile && this.bAutoBlankingEnabled == bAutoBlankingEnabled
      ensures maxSignalMagnitude == maxMagnitude as real && maxDitherScaleFactor == scaleFactor
      ensures State() == Blanking(0, if bAutoBlankingEnabled then 0.0 else scaleFactor, 1.0)
      ensures autoBlankLevelThreshold == levelThreshold && autoBlankDecayCutoff == decayCutoff && oldRandom == 0
    {
      this.profile := profile;
      maxSignalMagnitude := maxMagnitude as real;
      reciprocalSignalMagnitude := 1.0 / maxMagnitude as real;
      this.bAutoBlankingEnabled := bAutoBlankingEnabled;
      autoBlankLevelThreshold := levelThreshold;
      autoBlankDecayCutoff := decayCutoff;
      FIRHistory := new real[MAX_FIR_FILTER_SIZE](_ => 0.0);
      maxDitherScaleFactor := scaleFactor;
      ditherScaleFactor := if bAutoBlankingEnabled then 0.0 else scaleFactor;
      masterVolume := 1.0;
      zeroCount := 0;
      Z1 := 0.0;
      oldRandom := 0;
      errors := [];
    }

    method Reset()
      requires Valid()
      modifies this, FIRHistory
      ensures Valid() && errors == [] && maxDitherScaleFactor == old(maxDitherScaleFactor)
      ensures ditherScaleFactor == (if bAutoBlankingEnabled then 0.0 else maxDitherScaleFactor)
      ensures masterVolume == 1.0 && zeroCount == 0 && Z1 == 0.0 && oldRandom == 0
      ensures forall i :: 0 <= i < FIRHistory.Length ==> FIRHistory[i] == 0.0
    {
      forall i | 0 <= i < FIRHistory.Length { FIRHistory[i] := 0.0; }
      oldRandom := 0;
      Z1 := 0.0;
      zeroCount := 0;
      masterVolume := 1.0;
      ditherScaleFactor := if bAutoBlankingEnabled then 0.0 else maxDitherScaleFactor;
      errors := [];
    }

    /** noiseShaperFIR: the newest error goes to the end of the history, which is then shifted down. */
    method NoiseShaperFIR(x: real) returns (filterOutput: real)
      requires Valid() && Shapes() && x == Z1
      modifies FIRHistory
      ensures filterOutput == Feedback(profile.coeffs, errors, |errors|, |profile.coeffs|)
      ensures Remembers(FIRHistory[..], errors, |profile.coeffs|, |errors| + 1 - |profile.coeffs|)
    {
      filterOutput := ShapeError(FIRHistory, profile.coeffs, x, errors);
    }

    /** What is fed back of the earlier errors. */
    method ShapedError() returns (fed: real)
      requires Valid()
      modifies FIRHistory
      ensures fed == Feedback(Effective(profile), errors, |errors|, |Effective(profile)|)
      ensures Shapes() ==> Remembers(FIRHistory[..], errors, |profile.coeffs|, |errors| + 1 - |profile.coeffs|)
    {
      fed := 0.0;
      if profile.useFeedback {
        if profile.filter == Fir {
          fed := NoiseShaperFIR(Z1);
        } else {
          PassThroughIsOneTap(errors);
          fed := Z1;
        }
      }
    }

    /** One value from the noise generator, from up to two draws of the random number generator. */
    method GenerateNoise(a: int, b: int) returns (noise: real)
      requires Valid() && 0 <= a <= RAND_MAX && 0 <= b <= RAND_MAX
      modifies this`oldRandom
      ensures Valid() && Abs(noise) <= RAND_MAX as real
      ensures noise == NoiseOf(profile.noise, a, b, old(oldRandom))
      ensures profile.noise == FlatTPDF ==> noise == a as real - b as real
      ensures profile.noise == SlopedTPDF ==> noise == a as real - old(oldRandom) as real
      ensures profile.noise == RPDF ==> noise == 8388608.0 - a as real
      ensures oldRandom == if profile.noise == SlopedTPDF then a else old(oldRandom)
    {
      match profile.noise {
        case FlatTPDF => noise := (a - b) as real;
        case SlopedTPDF =>
          noise := (a - oldRandom) as real;
          oldRandom := a;
        case RPDF => noise := ((RAND_MAX + 1) / 2 - a) as real;
      }
    }

    /** The same at the present dither level. */
    method Noise(a: int, b: int) returns (noise: real)
      requires Valid() && 0 <= a <= RAND_MAX && 0 <= b <= RAND_MAX
      modifies this`oldRandom
      ensures Valid() && Abs(noise) <= RAND_MAX as real * ditherScaleFactor
      ensures noise == ScaledNoise(profile.noise, a, b, old(oldRandom), ditherScaleFactor)
      ensures oldRandom == if profile.noise == SlopedTPDF then a else old(oldRandom)
    {
      hide NoiseOf, Abs;
      NoiseBounded(profile.noise, a, b, oldRandom, ditherScaleFactor);
      noise := GenerateNoise(a, b);
      noise := noise * ditherScaleFactor;
    }

    function State(): Blanking
      reads this
    {
      Blanking(zeroCount, ditherScaleFactor, masterVolume)
    }

    function TheSettings(): Settings
      reads this
    {
      Settings(profile, maxSignalMagnitude, reciprocalSignalMagnitude, bAutoBlankingEnabled, autoBlankLevelThreshold,
        autoBlankDecayCutoff, maxDitherScaleFactor)
    }

    ghost function Now(): Memo
      reads this
    {
      Memo(errors, State(), oldRandom)
    }

    /** The auto-blanking state machine: dither decays in silence, then the output is muted; sound restores both. */
    method AutoBlank(inSample: real)
      requires Valid()
      modifies this`zeroCount, this`ditherScaleFactor, this`masterVolume
      ensures Valid() && State() == old(Blanked(TheSettings(), State(), inSample))
      // a sample below the threshold on both sides is silent, and any other restores level and volume
      ensures !bAutoBlankingEnabled ==> State() == old(State())
      ensures bAutoBlankingEnabled && !(-autoBlankLevelThreshold < inSample < autoBlankLevelThreshold) ==>
        zeroCount == 0 && ditherScaleFactor == maxDitherScaleFactor && masterVolume == 1.0
      ensures bAutoBlankingEnabled && -autoBlankLevelThreshold < inSample < autoBlankLevelThreshold ==>
        && zeroCount == old(zeroCount) + 1
        && (zeroCount <= 30000 ==> ditherScaleFactor == old(ditherScaleFactor) && masterVolume == old(masterVolume))
        && (zeroCount > 30000 ==>
             var decayed := old(ditherScaleFactor) * 0.9995;
             if decayed < autoBlankDecayCutoff then ditherScaleFactor == 0.0 && masterVolume == 0.0
             else ditherScaleFactor == decayed && masterVolume == old(masterVolume))
    {
      if bAutoBlankingEnabled {
        if Abs(inSample) < autoBlankLevelThreshold {
          zeroCount := zeroCount + 1;
          if zeroCount > AUTO_BLANK_TIME_THRESHOLD {
            ditherScaleFactor := ditherScaleFactor * AUTO_BLANK_DECAY_FACTOR;
            if ditherScaleFactor < autoBlankDecayCutoff {
              ditherScaleFactor := 0.0;
              masterVolume := 0.0;
            }
          }
        } else {
          zeroCount := 0;
          ditherScaleFactor := maxDitherScaleFactor;
          masterVolume := 1.0;
        }
      }
    }

    /** Noise is added, the volume applied, and the result rounded to the target format. */
    method Quantize(preDither: real, noise: real) returns (postQuantize: real, ghost q: int)
      requires Levels() && Abs(noise) <= RAND_MAX as real * ditherScaleFactor
      ensures postQuantize ==
        Quantized(reciprocalSignalMagnitude, maxSignalMagnitude, AtVolume(masterVolume, preDither + noise))
      ensures postQuantize == reciprocalSignalMagnitude * q as real
      ensures Rounded(reciprocalSignalMagnitude, maxSignalMagnitude, postQuantize,
                if masterVolume == 1.0 then preDither + noise else 0.0, q)
      ensures masterVolume == 0.0 ==> postQuantize == 0.0
      ensures masterVolume == 1.0 ==>
        Abs(postQuantize - preDither) <= 0.5 * reciprocalSignalMagnitude + RAND_MAX as real * ditherScaleFactor
    {
      hide Quantized, AtVolume, Rounded;
      var preQuantize := AtVolume(masterVolume, preDither + noise);
      MasterVolume(masterVolume, preDither + noise);
      postQuantize, q := RoundToGrid(reciprocalSignalMagnitude, maxSignalMagnitude, preQuantize);
      Triangle(postQuantize, preQuantize, preDither, 0.5 * reciprocalSignalMagnitude,
        RAND_MAX as real * ditherScaleFactor);
    }

    /** dither(): one sample. `a` and `b` are what the random number generator would draw. */
    method DitherSample(inSample: real, a: int, b: int) returns (postQuantize: real, ghost q: int)
      requires Valid() && 0 <= a <= RAND_MAX && 0 <= b <= RAND_MAX
      modifies this, FIRHistory
      ensures Valid() && TheSettings() == old(TheSettings())
      ensures (Now(), postQuantize) == old(Dithered(TheSettings(), Now(), inSample, a, b))
      // the output differs from the input by this error, less the earlier errors fed back
      ensures errors == old(errors) + [Z1] && postQuantize - inSample ==
        Z1 - Feedback(Effective(profile), old(errors), old(|errors|), |Effective(profile)|)
      // which are, in short: none, or the last one, or the latest through the filter
      ensures !profile.useFeedback ==> postQuantize - inSample == Z1
      ensures profile.useFeedback && profile.filter == Bypass ==> postQuantize - inSample == Z1 - old(Z1)
      ensures profile.useFeedback && profile.filter == Fir ==>
        postQuantize - inSample == Z1 - Feedback(profile.coeffs, old(errors), old(|errors|), |profile.coeffs|)
      // the output is a whole number of steps, at full volume the one nearest to what has been made of the input
      ensures postQuantize == reciprocalSignalMagnitude * q as real
      ensures Rounded(reciprocalSignalMagnitude, maxSignalMagnitude, postQuantize,
                if masterVolume != 1.0 then 0.0
                else postQuantize - Z1 + ScaledNoise(profile.noise, a, b, old(oldRandom), ditherScaleFactor), q)
      ensures masterVolume == 0.0 ==> postQuantize == 0.0
      ensures masterVolume == 1.0 ==>
        Abs(Z1) <= 0.5 * reciprocalSignalMagnitude + RAND_MAX as real * ditherScaleFactor
    {
      hide Quantized, AtVolume, Feedback, ScaledNoise, NoiseOf, Effective, Rounded;
      FedBack(profile, errors);
      AutoBlank(inSample);
      var noise := Noise(a, b);
      var fed := ShapedError();
      var preDither := inSample - fed;
      postQuantize, q := Quantize(preDither, noise);
      Z1 := postQuantize - preDither;
      if Shapes() { RemembersMore(FIRHistory[..], errors, Z1, |profile.coeffs|); }
      errors := errors + [Z1];
    }
  }

  // ----- Auto-blanking over time

  ghost function Silence(b: Blanking, n: nat, maxScale: real, cutoff: real): Blanking {
    if n == 0 then b else Blank(Silence(b, n - 1, maxScale, cutoff), true, maxScale, cutoff)
  }

  function Decayed(scale: real, n: nat): (r: real)
    ensures scale >= 0.0 ==> r >= 0.0
  {
    if n == 0 then scale else Decayed(scale, n - 1) * AUTO_BLANK_DECAY_FACTOR
  }

  /**
   * In silence the dither keeps its level until the time threshold has passed, then decays by the same factor at each
   * sample, and the output is muted from the first sample on at which the level has fallen below the cutoff.
   */
  lemma {:induction false} SilenceMutes(scale: real, n: nat, maxScale: real, cutoff: real)
    requires scale >= 0.0 && cutoff > 0.0
    ensures Silence(Blanking(0, scale, 1.0), n, maxScale, cutoff) ==
      if n <= AUTO_BLANK_TIME_THRESHOLD then Blanking(n, scale, 1.0)
      else if Decayed(scale, n - AUTO_BLANK_TIME_THRESHOLD) >= cutoff
      then Blanking(n, Decayed(scale, n - AUTO_BLANK_TIME_THRESHOLD), 1.0)
      else Blanking(n, 0.0, 0.0)
  {
    if n > 0 {
      SilenceMutes(scale, n - 1, maxScale, cutoff);
    }
  }

  /** The state after a run of samples, each silent or not. */
  ghost function BlankRun(b: Blanking, silent: seq<bool>, maxScale: real, cutoff: real): Blanking {
    if silent == [] then b
    else Blank(BlankRun(b, silent[..|silent| - 1], maxScale, cutoff), silent[|silent| - 1], maxScale, cutoff)
  }

  /** How long it has been silent at the end of a run. */
  function SilentFor(silent: seq<bool>): (n: nat)
    ensures n <= |silent|
  {
    if silent == [] || !silent[|silent| - 1] then 0 else SilentFor(silent[..|silent| - 1]) + 1
  }

  /** Sound wipes out what was before it: the state depends on the silence since the last sound only. */
  lemma {:induction false} SoundRestores(b: Blanking, silent: seq<bool>, maxScale: real, cutoff: real)
    ensures BlankRun(b, silent, maxScale, cutoff) ==
      Silence(if SilentFor(silent) == |silent| then b else Blanking(0, maxScale, 1.0),
        SilentFor(silent), maxScale, cutoff)
  {
    hide Blank;
    if silent != [] {
      SoundRestores(b, silent[..|silent| - 1], maxScale, cutoff);
      AfterSound(BlankRun(b, silent[..|silent| - 1], maxScale, cutoff), maxScale, cutoff);
    }
  }

  lemma AfterSound(b: Blanking, maxScale: real, cutoff: real)
    ensures Blank(b, false, maxScale, cutoff) == Blanking(0, maxScale, 1.0)
  {
  }

  /**
   * Over any run with a sound in it, the output is muted exactly when the dither has decayed below the cutoff
   * since.
   */
  lemma MutedIff(b: Blanking, silent: seq<bool>, maxScale: real, cutoff: real)
    requires maxScale >= 0.0 && cutoff > 0.0 && SilentFor(silent) < |silent|
    ensures BlankRun(b, silent, maxScale, cutoff).volume == 0.0 <==>
      && SilentFor(silent) > AUTO_BLANK_TIME_THRESHOLD
      && Decayed(maxScale, SilentFor(silent) - AUTO_BLANK_TIME_THRESHOLD) < cutoff
  {
    hide Silence, BlankRun, SilentFor;
    SoundRestores(b, silent, maxScale, cutoff);
    SilenceMutes(maxScale, SilentFor(silent), maxScale, cutoff);
  }

  /** What the coefficients in effect feed back. */
  lemma FedBack(p: Profile, e: seq<real>)
    ensures var fed := Feedback(Effective(p), e, |e|, |Effective(p)|);
      fed == if !p.useFeedback then 0.0 else if p.filter == Bypass then ErrorAt(e, |e| - 1)
             else Feedback(p.coeffs, e, |e|, |p.coeffs|)
  {
    PassThroughIsOneTap(e);
  }

  /** The coefficient that an error meets: one alone, `k` + 1 samples back, comes back times coefficient `k`. */
  lemma {:induction false} FeedbackOfOne(c: seq<real>, e: seq<real>, t: int, k: nat, n: nat)
    requires n <= |c| && forall s :: s != t - 1 - k ==> ErrorAt(e, s) == 0.0
    ensures Feedback(c, e, t, n) == if k < n then ErrorAt(e, t - 1 - k) * c[k] else 0.0
  {
    hide ErrorAt;
    if n > 0 { FeedbackOfOne(c, e, t, k, n - 1); }
  }

  lemma PassThroughIsOneTap(e: seq<real>)
    ensures Feedback([1.0], e, |e|, 1) == ErrorAt(e, |e| - 1)
  {
    assert Feedback([1.0], e, |e|, 0) == 0.0;
  }

  lemma RemembersMore(history: seq<real>, e: seq<real>, x: real, n: nat)
    requires Remembers(history, e, n, |e| + 1 - n)
    ensures Remembers(history, e + [x], n, |e + [x]| - n)
  {
  }

  lemma Triangle(x: real, y: real, z: real, a: real, b: real)
    ensures Abs(x - y) <= a && Abs(y - z) <= b ==> Abs(x - z) <= a + b
  {
  }

  function AtVolume(volume: real, x: real): real {
    volume * x
  }

  lemma MasterVolume(volume: real, x: real)
    ensures (volume == 1.0 ==> AtVolume(volume, x) == x) && (volume == 0.0 ==> AtVolume(volume, x) == 0.0)
  {
  }

  /** The values of the target format. */
  function GridPoint(step: real, q: int): real {
    step * q as real
  }

  /** The point of the target format nearest to x. */
  function Quantized(step: real, scale: real, x: real): real {
    GridPoint(step, Round(scale * x))
  }

  /** Quantizing moves a value by at most half a step. */
  lemma QuantizationError(step: real, scale: real, x: real)
    requires step * scale == 1.0 && scale > 0.0
    ensures Abs(Quantized(step, scale, x) - x) <= 0.5 * step
    ensures Quantized(step, scale, 0.0) == 0.0
  {
    var d := Round(scale * x) as real - scale * x;
    assert step > 0.0 by { if step <= 0.0 { ProductSign(step, scale); } }
    assert step * (scale * x) == (step * scale) * x == x;
    assert GridPoint(step, Round(scale * x)) - x == step * d;
    Within(step, d, 0.5);
  }

  /** `y` is `q` steps: the nearest to `x`, and of two equally near the one further from 0. */
  ghost predicate Rounded(step: real, scale: real, y: real, x: real, q: int) {
    && y == step * q as real
    && -0.5 <= q as real - scale * x <= 0.5
    && (q as real - scale * x == 0.5 ==> x > 0.0) && (q as real - scale * x == -0.5 ==> x < 0.0)
  }

  /** round() on the scale of the target format. */
  method RoundToGrid(step: real, scale: real, x: real) returns (y: real, ghost q: int)
    requires step * scale == 1.0 && scale > 0.0
    ensures y == Quantized(step, scale, x) && Rounded(step, scale, y, x, q)
    // a whole number of steps: the nearest, and of two equally near the one further from 0
    ensures y == step * q as real && -0.5 <= q as real - scale * x <= 0.5
    ensures (q as real - scale * x == 0.5 ==> x > 0.0) && (q as real - scale * x == -0.5 ==> x < 0.0)
    ensures Abs(y - x) <= 0.5 * step && (x == 0.0 ==> y == 0.0)
  {
    y := Quantized(step, scale, x);
    q := Round(scale * x);
    Signs(scale, x);
    QuantizationError(step, scale, x);
  }

  lemma Signs(scale: real, x: real)
    requires scale > 0.0
    ensures (scale * x > 0.0 <==> x > 0.0) && (scale * x < 0.0 <==> x < 0.0)
  {
    if x < 0.0 { ProductNegative(x, scale); }
    if x > 0.0 { ProductNegative(-x, scale); }
  }

  lemma ProductNegative(a: real, b: real)
    requires a < 0.0 && b > 0.0
    ensures a * b < 0.0
  {
  }

  function Times(s: real, a: real): real {
    s * a
  }

  /** No other point of the target format is nearer, and one as near is nearer to 0. */
  lemma NoneNearer(step: real, scale: real, x: real, q: int)
    requires step * scale == 1.0 && scale > 0.0
    ensures var y, other := Quantized(step, scale, x), step * q as real;
      && Abs(y - x) <= Abs(other - x)
      && (other != y && Abs(other - x) == Abs(y - x) ==> Abs(other) < Abs(y))
  {
    hide Abs, Round;
    var p := Round(scale * x);
    assert step > 0.0 by { if step <= 0.0 { ProductSign(step, scale); } }
    GridDistance(step, scale, x, p);
    GridDistance(step, scale, x, q);
    RoundNearest(scale * x, q);
    NearerPoint(step, x, scale * x, p, q);
    QuantizedIs(step, scale, x);
  }

  lemma QuantizedIs(step: real, scale: real, x: real)
    ensures Quantized(step, scale, x) == Times(step, Round(scale * x) as real)
  {
  }

  lemma GridDistance(step: real, scale: real, x: real, q: int)
    requires step * scale == 1.0
    ensures Times(step, q as real) - x == Times(step, q as real - scale * x)
  {
    assert step * (scale * x) == (step * scale) * x == x;
  }

  lemma NearerPoint(step: real, x: real, z: real, p: int, q: int)
    requires step > 0.0 && Times(step, p as real) - x == Times(step, p as real - z)
    requires Times(step, q as real) - x == Times(step, q as real - z)
    requires Abs(p as real - z) <= Abs(q as real - z)
    requires q != p && Abs(q as real - z) == Abs(p as real - z) ==> Abs(q as real) < Abs(p as real)
    ensures var y, other := Times(step, p as real), Times(step, q as real);
      && Abs(y - x) <= Abs(other - x)
      && (other != y && Abs(other - x) == Abs(y - x) ==> Abs(other) < Abs(y))
  {
    hide Abs, Times;
    Stretched(step, p as real - z, q as real - z);
    Stretched(step, p as real, q as real);
  }

  lemma RoundNearest(x: real, q: int)
    ensures var p := Round(x);
      && Abs(p as real - x) <= Abs(q as real - x)
      && (q != p && Abs(q as real - x) == Abs(p as real - x) ==> Abs(q as real) < Abs(p as real))
  {
  }

  /** Multiplying by a positive number keeps the order of magnitudes. */
  lemma Stretched(s: real, a: real, b: real)
    requires s > 0.0
    ensures Abs(Times(s, a)) <= Abs(Times(s, b)) <==> Abs(a) <= Abs(b)
    ensures Abs(Times(s, a)) == Abs(Times(s, b)) <==> Abs(a) == Abs(b)
  {
    hide Abs, Times;
    AbsTimes(s, a);
    AbsTimes(s, b);
    TimesOrder(Abs(a), Abs(b), s);
    TimesOrder(Abs(b), Abs(a), s);
  }

  lemma TimesOrder(a: real, b: real, s: real)
    requires s > 0.0
    ensures a < b ==> Times(s, a) < Times(s, b)
  {
    if a < b {
      ProductNegative(a - b, s);
      assert (a - b) * s == s * a - s * b;
    }
  }

  lemma AbsTimes(s: real, a: real)
    requires s > 0.0
    ensures Abs(Times(s, a)) == Times(s, Abs(a))
  {
    Signs(s, a);
  }

  lemma ProductSign(a: real, b: real)
    requires a <= 0.0 && b > 0.0
    ensures a * b <= 0.0
  {
  }

  lemma Within(s: real, d: real, h: real)
    requires s > 0.0 && -h <= d <= h
    ensures -(h * s) <= s * d <= h * s
  {
  }

  lemma ScaledBound(x: real, bound: real, k: real)
    requires Abs(x) <= bound && k >= 0.0
    ensures Abs(x * k) <= bound * k && (k == 0.0 ==> x * k == 0.0)
  {
    assert -bound <= x <= bound;
    assert (bound - x) * k >= 0.0 && (bound + x) * k >= 0.0;
  }

  method ShapeError(history: array<real>, coeffs: seq<real>, x: real, ghost e: seq<real>) returns (output: real)
    requires 1 <= |coeffs| <= history.Length
    requires Remembers(history[..], e, |coeffs|, |e| - |coeffs|) && x == ErrorAt(e, |e| - 1)
    modifies history
    ensures output == Feedback(coeffs, e, |e|, |coeffs|)
    ensures Remembers(history[..], e, |coeffs|, |e| + 1 - |coeffs|)
  {
    var n := |coeffs|;
    history[n - 1] := x;
    assert forall i :: 0 <= i < n - 1 ==> history[..][i] == ErrorAt(e, |e| - n + i);
    output := 0.0;
    for k := 0 to n
      invariant output == Feedback(coeffs, e, |e|, k)
      invariant forall i :: 0 <= i < n ==> history[i] == ErrorAt(e, |e| - n + i)
    {
      output := output + history[n - 1 - k] * coeffs[k];
    }
    forall i | 0 <= i < n - 1 { history[i] := history[i + 1]; }
  }

  // ----- Whole runs

  /** Input, output and stored error of a run, sample by sample, related as each call of dither() relates them. */
  ghost predicate IsRun(p: Profile, ins: seq<real>, outs: seq<real>, e: seq<real>) {
    && |ins| == |outs| == |e|
    && forall t :: 0 <= t < |e| ==>
         outs[t] - ins[t] == e[t] - Feedback(Effective(p), e, t, |Effective(p)|)
  }

  ghost function SumUpTo(x: seq<real>, n: nat): real
    requires n <= |x|
  {
    if n == 0 then 0.0 else SumUpTo(x, n - 1) + x[n - 1]
  }

  /** "flat tpdf (with error-correction feedback)" and "flat rpdf (with error-correction feedback)". */
  const FLAT_F := Profile(FlatTPDF, Fir, [1.0], true)
  const RPDF_F := Profile(RPDF, Bypass, [1.0], true)

  lemma FlatProfilesFeedBackOnce()
    ensures Usable(FLAT_F) && FeedsBackOnce(FLAT_F) && Usable(RPDF_F) && FeedsBackOnce(RPDF_F)
  {
  }

  /** The profiles whose one coefficient is 1: the flat ones with error correction. */
  ghost predicate FeedsBackOnce(p: Profile) {
    Effective(p) == [1.0]
  }

  /** With one coefficient of 1, the errors telescope: what the outputs are off in total is the last error. */
  lemma {:induction false} ErrorTelescopes(p: Profile, ins: seq<real>, outs: seq<real>, e: seq<real>, n: nat)
    requires IsRun(p, ins, outs, e) && FeedsBackOnce(p) && n <= |e|
    ensures SumUpTo(outs, n) - SumUpTo(ins, n) == ErrorAt(e, n - 1)
  {
    if n > 0 {
      ErrorTelescopes(p, ins, outs, e, n - 1);
      assert Feedback([1.0], e, n - 1, 0) == 0.0;
      assert Feedback([1.0], e, n - 1, 1) == ErrorAt(e, n - 2);
    }
  }

  /** So if every error is bounded, the running total never drifts by more than that bound. */
  lemma NoDrift(p: Profile, ins: seq<real>, outs: seq<real>, e: seq<real>, n: nat, bound: real)
    requires IsRun(p, ins, outs, e) && FeedsBackOnce(p) && n <= |e| && bound >= 0.0
    requires forall t :: 0 <= t < |e| ==> Abs(e[t]) <= bound
    ensures Abs(SumUpTo(outs, n) - SumUpTo(ins, n)) <= bound
  {
    ErrorTelescopes(p, ins, outs, e, n);
  }

  lemma {:induction false} FeedbackPrefix(c: seq<real>, e: seq<real>, e': seq<real>, t: nat, n: nat)
    requires n <= |c| && t <= |e| && e <= e'
    ensures Feedback(c, e, t, n) == Feedback(c, e', t, n)
  {
    if n > 0 { FeedbackPrefix(c, e, e', t, n - 1); }
  }

  /** A run, extended by one call. */
  lemma RunExtends(p: Profile, ins: seq<real>, outs: seq<real>, e: seq<real>, x: real, y: real, z: real)
    requires IsRun(p, ins, outs, e) && y - x == z - Feedback(Effective(p), e, |e|, |Effective(p)|)
    ensures IsRun(p, ins + [x], outs + [y], e + [z])
  {
    hide Feedback;
    var c := Effective(p);
    forall t | 0 <= t <= |e|
      ensures (outs + [y])[t] - (ins + [x])[t] == (e + [z])[t] - Feedback(c, e + [z], t, |c|)
    {
      FeedbackPrefix(c, e, e + [z], t, |c|);
    }
  }

  /**
   * A block dithered sample by sample, as the conversion loop does; without auto-blanking the bound holds
   * throughout.
   */
  method DitherBlock(d: Ditherer, ins: seq<real>, draws: seq<(int, int)>) returns (outs: seq<real>)
    requires d.Valid() && d.errors == [] && |draws| == |ins|
    requires forall i :: 0 <= i < |draws| ==> 0 <= draws[i].0 <= RAND_MAX && 0 <= draws[i].1 <= RAND_MAX
    modifies d, d.FIRHistory
    ensures d.Valid() && IsRun(d.profile, ins, outs, d.errors)
    ensures FeedsBackOnce(d.profile) ==>
      forall n :: 0 <= n <= |ins| ==> SumUpTo(outs, n) - SumUpTo(ins, n) == ErrorAt(d.errors, n - 1)
    ensures FeedsBackOnce(d.profile) && !d.bAutoBlankingEnabled ==>
      var bound := 0.5 * d.reciprocalSignalMagnitude + RAND_MAX as real * d.maxDitherScaleFactor;
      forall n :: 0 <= n <= |ins| ==> Abs(SumUpTo(outs, n) - SumUpTo(ins, n)) <= bound
  {
    hide Feedback;
    outs := [];
    ghost var bound := 0.5 * d.reciprocalSignalMagnitude + RAND_MAX as real * d.maxDitherScaleFactor;
    for i := 0 to |ins|
      invariant d.Valid() && IsRun(d.profile, ins[..i], outs, d.errors)
      invariant d.maxDitherScaleFactor == old(d.maxDitherScaleFactor)
      invariant !d.bAutoBlankingEnabled ==> forall t :: 0 <= t < i ==> Abs(d.errors[t]) <= bound
    {
      ghost var e := d.errors;
      var y, _ := d.DitherSample(ins[i], draws[i].0, draws[i].1);
      RunExtends(d.profile, ins[..i], outs, e, ins[i], y, d.Z1);
      assert d.errors == e + [d.Z1] && ins[..i + 1] == ins[..i] + [ins[i]];
      outs := outs + [y];
    }
    assert ins[..|ins|] == ins;
    if FeedsBackOnce(d.profile) {
      forall n | 0 <= n <= |ins| ensures SumUpTo(outs, n) - SumUpTo(ins, n) == ErrorAt(d.errors, n - 1) {
        ErrorTelescopes(d.profile, ins, outs, d.errors, n);
      }
    }
  }
}
