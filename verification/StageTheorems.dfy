/** What a whole run of a stage computes, in closed form: every output as one sum over the zero-stuffed input. */
module StageTheorems {
  import opened Signals
  import opened FirFilter
  import opened Stage
  import FilterTheorems

  function CeilDiv(n: nat, d: nat): nat
    requires d >= 1
  {
    (n + d - 1) / d
  }

  /** After q·M + r stuffed samples, r < M, the counter stands at r and every M-th sample has been output. */
  lemma {:induction false} PhaseAndCount(M: nat, q: nat, r: nat, n: nat)
    requires n == q * M + r && r < M
    ensures Phase(M, n) == r
    ensures OutCount(M, n) == if r == 0 then q else q + 1
    decreases n
  {
    if r > 0 {
      PhaseAndCount(M, q, r - 1, n - 1);
    } else if q > 0 {
      PhaseAndCount(M, q - 1, M - 1, n - 1);
    }
  }

  lemma PhaseMod(M: nat, n: nat)
    requires M >= 1
    ensures Phase(M, n) == n % M
  {
    PhaseAndCount(M, n / M, n % M, n);
  }

  lemma CeilDivAt(n: nat, d: nat, q: nat, r: nat)
    requires n == q * d + r && 0 <= r < d
    ensures CeilDiv(n, d) == if r == 0 then q else q + 1
  {
    if r == 0 {
      DivUnique(n + d - 1, d, q, d - 1);
    } else {
      assert (q + 1) * d == q * d + d;
      DivUnique(n + d - 1, d, q + 1, r - 1);
    }
  }

  lemma OutCountCeil(M: nat, n: nat)
    requires M >= 1
    ensures OutCount(M, n) == CeilDiv(n, M)
  {
    PhaseAndCount(M, n / M, n % M, n);
    CeilDivAt(n, M, n / M, n % M);
  }

  /** A stage fed N samples has produced ceil(N·L/M), or N when it is bypassed. */
  lemma OutputCount(c: StageSpec, u: seq<real>)
    requires c.WellFormed()
    ensures |StageOut(c, u)| == if c.bypass then |u| else CeilDiv(|u| * c.L, c.M)
  {
    if !c.bypass {
      StuffAt(u, c.L, 0, 0);
      OutsCount(c, Stuff(u, c.L));
      OutCountCeil(c.M, |u| * c.L);
    }
  }

  lemma CeilOfMultiple(j: nat, M: nat)
    requires M >= 1
    ensures CeilDiv(j * M, M) == j
  {
    CeilDivAt(j * M, M, j, 0);
  }

  lemma {:induction false} OutsAt(c: StageSpec, h: seq<real>, j: nat)
    requires c.WellFormed() && j * c.M < |h|
    ensures j < |Outs(c, h)| && Outs(c, h)[j] == FilterOut(c, h[..j * c.M + 1])
  {
    var n := |h| - 1;
    if j * c.M < n {
      OutsAt(c, h[..n], j);
      assert h[..n][..j * c.M + 1] == h[..j * c.M + 1];
    } else {
      PhaseMod(c.M, n);
      DivUnique(n, c.M, j, 0);
      OutsCount(c, h[..n]);
      OutCountCeil(c.M, n);
      CeilOfMultiple(j, c.M);
      assert h[..n + 1] == h;
    }
  }

  /** The zero-skipping path leaves tap 0 out, unless its stride is the filter length or more. */
  predicate DropsTapZero(c: StageSpec) {
    c.Lazy() && c.L < |c.taps|
  }

  /** How many taps the path in use has left at time `n`. */
  function Used(c: StageSpec, n: nat): (k: nat)
    requires c.WellFormed()
    ensures 1 <= k <= |c.taps|
  {
    if c.Lazy() then |c.taps| else TapsUsed(|c.taps|, c.v, n)
  }

  /** The output at time `n` of the stuffed stream `s`, by the sum the path in use leaves in place. */
  ghost function StreamOut(c: StageSpec, s: seq<real>, n: nat): real
    requires c.WellFormed()
  {
    (if DropsTapZero(c) then 0.0 else c.taps[0] * At(s, n - |c.taps|)) + Conv(c.taps, s, n, 1, Used(c, n))
  }

  lemma FilterOutPrefix(c: StageSpec, s: seq<real>, n: nat)
    requires c.WellFormed() && n <= |s|
    ensures FilterOut(c, s[..n]) == StreamOut(c, s, n)
  {
    hide Conv, TapsUsed;
    TapsUsedScalar(|c.taps|, n);
    ConvEqual(c.taps, s[..n], s, n, 1, Used(c, n));
  }

  /** Whole runs: output `j` is the filter sum over the zero-stuffed input at time j·M, whatever was fed after it. */
  lemma OutputIsStreamSum(c: StageSpec, u: seq<real>, j: nat)
    requires c.WellFormed() && !c.bypass && j * c.M < |u| * c.L
    ensures j < |StageOut(c, u)|
    ensures StageOut(c, u)[j] == StreamOut(c, Stuff(u, c.L), j * c.M + 1)
  {
    hide FilterOut, StreamOut, Outs, Stuff;
    StuffAt(u, c.L, 0, 0);
    var s, n := Stuff(u, c.L), j * c.M + 1;
    OutsAt(c, s, j);
    FilterOutPrefix(c, s, n);
  }

  // ----- When the paths meet one L/M specification

  /** Every output of the stage is the sum over all taps but tap 0 of the zero-stuffed input. */
  ghost predicate MeetsSum(c: StageSpec)
    requires c.WellFormed()
  {
    forall u: seq<real>, j: nat :: j * c.M < |u| * c.L && j < |StageOut(c, u)| ==>
      StageOut(c, u)[j] == Conv(c.taps, Stuff(u, c.L), j * c.M + 1, 1, |c.taps|)
  }

  /**
   * At output `j` tap `i` meets input sample `q`, and the path in use does not treat it as the sum does: tap 0 is
   * counted, or a later tap is lost to the kernel phase.
   */
  predicate Astray(c: StageSpec, i: nat, j: nat, q: nat)
    requires c.WellFormed()
  {
    && i < |c.taps| && j * c.M + 1 - AgeMet(|c.taps|, i) == q * c.L
    && if i == 0 then !DropsTapZero(c) else Used(c, j * c.M + 1) <= i
  }

  ghost predicate StrayTapsZero(c: StageSpec)
    requires c.WellFormed()
  {
    forall i: nat, j: nat, q: nat :: Astray(c, i, j, q) ==> c.taps[i] == 0.0
  }

  /** What is not an input sample is a stuffed zero. */
  lemma StuffedAt(u: seq<real>, L: nat, t: int)
    requires L >= 1 && !(exists q: nat :: t == q * L)
    ensures At(Stuff(u, L), t) == 0.0
  {
    hide Stuff;
    var q, r := t / L, t % L;
    assert t == q * L + r;
    StuffAt(u, L, q, r);
    assert r == 0 && q >= 0 ==> exists q: nat :: t == q * L;
  }

  /** A sum whose every term is zero. */
  lemma {:induction false} ConvVanishes(k: seq<real>, x: seq<real>, n: int, lo: nat, hi: nat)
    requires lo <= hi <= |k| && forall i :: lo <= i < hi ==> k[i] == 0.0 || At(x, n - i) == 0.0
    ensures Conv(k, x, n, lo, hi) == 0.0
    decreases hi - lo
  {
    if hi > lo { ConvVanishes(k, x, n, lo, hi - 1); }
  }

  /** What the path in use adds to the sum and what it leaves out of it. */
  lemma OutputOff(c: StageSpec, u: seq<real>, j: nat)
    requires c.WellFormed() && !c.bypass && j * c.M < |u| * c.L
    ensures var s, n, len := Stuff(u, c.L), j * c.M + 1, |c.taps|;
      j < |StageOut(c, u)| && StageOut(c, u)[j] - Conv(c.taps, s, n, 1, len) ==
        (if DropsTapZero(c) then 0.0 else c.taps[0] * At(s, n - len)) - Conv(c.taps, s, n, Used(c, n), len)
  {
    hide StageOut, Stuff, Conv, Used;
    OutputIsStreamSum(c, u, j);
    ConvSplit(c.taps, Stuff(u, c.L), j * c.M + 1, 1, Used(c, j * c.M + 1), |c.taps|);
  }

  /** If the stray taps are zero, nothing is added or left out. */
  lemma StrayTapsHarmless(c: StageSpec, u: seq<real>, j: nat)
    requires c.WellFormed() && !c.bypass && StrayTapsZero(c) && j * c.M < |u| * c.L
    ensures j < |StageOut(c, u)|
    ensures StageOut(c, u)[j] == Conv(c.taps, Stuff(u, c.L), j * c.M + 1, 1, |c.taps|)
  {
    hide StageOut, Stuff, Conv, Used;
    var s, n, len := Stuff(u, c.L), j * c.M + 1, |c.taps|;
    OutputOff(c, u, j);
    forall i: nat | i == 0 || Used(c, n) <= i < len
      ensures (i == 0 && DropsTapZero(c)) || c.taps[i] == 0.0 || At(s, n - AgeMet(len, i)) == 0.0
    {
      if q: nat :| n - AgeMet(len, i) == q * c.L {
        assert (i == 0 && DropsTapZero(c)) || Astray(c, i, j, q);
      } else {
        StuffedAt(u, c.L, n - AgeMet(len, i));
      }
    }
    ConvVanishes(c.taps, s, n, Used(c, n), len);
  }

  /** A unit impulse at input `q`, and enough silence after it for output `j`. */
  function UnitAt(q: nat, length: nat): seq<real> {
    seq(length, t => if t == q then 1.0 else 0.0)
  }

  lemma UnitStuffed(q: nat, length: nat, L: nat, t: int)
    requires L >= 1 && q < length
    ensures At(Stuff(UnitAt(q, length), L), t) == if t == q * L then 1.0 else 0.0
  {
    hide Stuff;
    var p, r := t / L, t % L;
    assert t == p * L + r;
    StuffAt(UnitAt(q, length), L, p, r);
    if t == q * L { DivUnique(t, L, q, 0); }
  }

  /** A sum over a stream that one tap at most meets. */
  lemma ConvOfOne(k: seq<real>, x: seq<real>, n: int, lo: nat, i: nat)
    requires lo <= i < |k| && forall t :: t != n - i ==> At(x, t) == 0.0
    ensures Conv(k, x, n, lo, |k|) == k[i] * At(x, n - i)
  {
    hide At;
    ConvSplit(k, x, n, lo, i, |k|);
    ConvSplit(k, x, n, i, i + 1, |k|);
    ConvOne(k, x, n, i);
    ConvSilent(k, x, n, lo, i);
    ConvSilent(k, x, n, i + 1, |k|);
  }

  /** A stray tap shows: an impulse at the input sample it meets gives an output that is off by just that tap. */
  lemma StrayTapShows(c: StageSpec, i: nat, j: nat, q: nat)
    requires c.WellFormed() && !c.bypass && Astray(c, i, j, q)
    ensures var u := UnitAt(q, q + j * c.M + 1);
      j * c.M < |u| * c.L && j < |StageOut(c, u)|
      && StageOut(c, u)[j] - Conv(c.taps, Stuff(u, c.L), j * c.M + 1, 1, |c.taps|)
         == if i == 0 then c.taps[0] else -c.taps[i]
  {
    hide StageOut, Stuff, Conv, Used;
    var u, n, len := UnitAt(q, q + j * c.M + 1), j * c.M + 1, |c.taps|;
    var s := Stuff(u, c.L);
    MulMono(1, c.L, |u|);
    OutputOff(c, u, j);
    forall t ensures At(s, t) == if t == n - AgeMet(len, i) then 1.0 else 0.0 {
      UnitStuffed(q, |u|, c.L, t);
    }
    if i == 0 {
      ConvVanishes(c.taps, s, n, Used(c, n), len);
    } else {
      ConvOfOne(c.taps, s, n, Used(c, n), i);
    }
  }

  /** All four filtering paths, in every build: one L/M specification is met exactly when the stray taps are zero. */
  lemma PathsAgreeIff(c: StageSpec)
    requires c.WellFormed() && !c.bypass
    ensures MeetsSum(c) <==> StrayTapsZero(c)
  {
    hide StageOut, Stuff, Conv, Used;
    if StrayTapsZero(c) {
      forall u: seq<real>, j: nat | j * c.M < |u| * c.L && j < |StageOut(c, u)|
        ensures StageOut(c, u)[j] == Conv(c.taps, Stuff(u, c.L), j * c.M + 1, 1, |c.taps|)
      {
        StrayTapsHarmless(c, u, j);
      }
    } else {
      var i: nat, j: nat, q: nat :| Astray(c, i, j, q) && c.taps[i] != 0.0;
      StrayTapShows(c, i, j, q);
    }
  }

  /** The zero-skipping path with a stride below the filter length has no stray taps. */
  lemma LazyPathAgrees(c: StageSpec)
    requires c.WellFormed() && DropsTapZero(c)
    ensures MeetsSum(c)
  {
    hide MeetsSum;
    PathsAgreeIff(c);
  }

  /** Some output meets an input sample with tap 0, whenever one of the factors is 1. */
  lemma TapZeroMeets(c: StageSpec) returns (j: nat, q: nat)
    requires c.WellFormed() && (c.L == 1 || c.M == 1)
    ensures j * c.M + 1 - |c.taps| == q * c.L
  {
    if c.L == 1 {
      j, q := |c.taps|, |c.taps| * c.M + 1 - |c.taps|;
      MulMono(1, c.M, |c.taps|);
    } else {
      j, q := |c.taps| - 1, 0;
    }
  }

  /**
   * The paths built on get(), in every build: they meet the specification exactly when tap 0 is zero and so is each
   * tap that its kernel phase has lost at an output where it meets an input sample.
   */
  lemma GetPathsAgreeIff(c: StageSpec)
    requires c.WellFormed() && !c.bypass && (c.L == 1 || c.M == 1)
    ensures MeetsSum(c) <==>
      && c.taps[0] == 0.0
      && forall i: nat, j: nat, q: nat :: 1 <= i && Astray(c, i, j, q) ==> c.taps[i] == 0.0
  {
    hide MeetsSum, Used;
    PathsAgreeIff(c);
    var j, q := TapZeroMeets(c);
    assert Astray(c, 0, j, q);
  }

  /** In the scalar build no tap is lost, so tap 0 alone decides. */
  lemma ScalarPathsAgreeIff(c: StageSpec)
    requires c.WellFormed() && !c.bypass && (c.L == 1 || c.M == 1) && c.v == 1
    ensures MeetsSum(c) <==> c.taps[0] == 0.0
  {
    hide MeetsSum, TapsUsed;
    forall i: nat, j: nat, q: nat | 1 <= i && Astray(c, i, j, q) ensures c.taps[i] == 0.0 {
      TapsUsedScalar(|c.taps|, j * c.M + 1);
    }
    GetPathsAgreeIff(c);
  }

  /** In any build, a stage whose first tap is zero and whose last v - 1 taps are meets the specification. */
  lemma UniformTapsAgree(c: StageSpec)
    requires c.WellFormed() && !c.bypass && c.taps[0] == 0.0
    requires forall i :: |c.taps| - c.v < i < |c.taps| && i >= 1 ==> c.taps[i] == 0.0
    ensures MeetsSum(c)
  {
    hide MeetsSum;
    PathsAgreeIff(c);
  }

  // ----- The condition as a test that ends

  /** The samples put before an output, modulo the filter length; `t` counts outputs if L is 1, and inputs if M is. */
  function Residue(c: StageSpec, i: nat, t: nat): (r: nat)
    requires c.WellFormed()
    ensures r < |c.taps|
  {
    (if c.L == 1 then t * c.M + 1 else i + t * c.L) % |c.taps|
  }

  /** At one of the first `length` outputs, or inputs, the kernel phase has lost tap `i`: later ones repeat these. */
  predicate LosesTap(c: StageSpec, i: nat)
    requires c.WellFormed() && i < |c.taps|
  {
    exists t: nat :: t < |c.taps| && (|c.taps| - 1 - Residue(c, i, t)) % c.v >= |c.taps| - i
  }

  /** Tap 0 of the zero-skipping path with a stride of the filter length or more meets an input sample at some
      output. */
  predicate MeetsOldest(c: StageSpec)
    requires c.WellFormed()
  {
    exists t: nat :: t < c.L && (t * c.M + 1 - |c.taps|) % c.L == 0
  }

  /** What a caller can evaluate: which taps have to be zero, and whether they are. */
  predicate TapsPass(c: StageSpec)
    requires c.WellFormed()
  {
    if c.Lazy() then c.L < |c.taps| || c.taps[0] == 0.0 || !MeetsOldest(c)
    else c.taps[0] == 0.0 && forall i :: 1 <= i < |c.taps| && LosesTap(c, i) ==> c.taps[i] == 0.0
  }

  lemma ModOf(a: int, k: int, d: nat)
    requires d >= 1
    ensures (a + k * d) % d == a % d
  {
    assert a + k * d == (a / d + k) * d + a % d;
    DivUnique(a + k * d, d, a / d + k, a % d);
  }

  /** A tap is lost after `n` samples if their residue is the one looked for. */
  lemma LostAt(c: StageSpec, i: nat, n: nat)
    requires c.WellFormed() && 1 <= i < |c.taps|
    ensures TapsUsed(|c.taps|, c.v, n) <= i <==> (|c.taps| - 1 - n % |c.taps|) % c.v >= |c.taps| - i
  {
    FilterTheorems.TapsUsedByPhase(|c.taps|, c.v, n);
    NextIndexMod(|c.taps|, n);
  }

  /** An output late enough, with the same residue. */
  lemma LaterOutput(length: nat, M: nat, i: nat, t: nat) returns (j: nat)
    requires length >= 1 && M >= 1
    ensures (j * M + 1) % length == (t * M + 1) % length && j * M + 1 >= i
  {
    j := t + i * length;
    assert j * M + 1 == t * M + 1 + (i * M) * length;
    ModOf(t * M + 1, i * M, length);
    MulMono(1, M, i);
    MulMono(1, length, i * M);
    assert t * M >= 0;
  }

  /** From one of the first outputs or inputs at which the tap is lost, to an output at which it also meets an input. */
  lemma LostShows(c: StageSpec, i: nat, t: nat) returns (j: nat, q: nat)
    requires c.WellFormed() && (c.L == 1 || c.M == 1) && 1 <= i < |c.taps|
    requires (|c.taps| - 1 - Residue(c, i, t)) % c.v >= |c.taps| - i
    ensures Astray(c, i, j, q)
  {
    hide TapsUsed;
    var len := |c.taps|;
    j, q := i + t * c.L - 1, t;
    if c.L == 1 {
      j := LaterOutput(len, c.M, i, t);
      q := j * c.M + 1 - i;
    }
    LostAt(c, i, j * c.M + 1);
  }

  /** A residue that some step reaches, one of the first `d` steps reaches. */
  lemma FirstStep(a: nat, k: nat, s: nat, d: nat) returns (t: nat)
    requires d >= 1
    ensures t < d && (a + k * s) % d == (a + t * s) % d
  {
    t := k % d;
    var q := k / d;
    assert k == t + q * d;
    assert a + k * s == a + t * s + (q * s) * d;
    ModOf(a + t * s, q * s, d);
  }

  /** And back. */
  lemma ShowsLost(c: StageSpec, i: nat, j: nat, q: nat)
    requires c.WellFormed() && (c.L == 1 || c.M == 1) && 1 <= i && Astray(c, i, j, q)
    ensures LosesTap(c, i)
  {
    hide TapsUsed;
    LostAt(c, i, j * c.M + 1);
    var t: nat;
    if c.L == 1 {
      t := FirstStep(1, j, c.M, |c.taps|);
    } else {
      t := FirstStep(i, q, c.L, |c.taps|);
    }
    assert Residue(c, i, t) == (j * c.M + 1) % |c.taps|;
  }

  lemma OldestLater(length: nat, L: nat, M: nat, t: nat) returns (j: nat, q: nat)
    requires length >= 1 && L >= 1 && M >= 1 && (t * M + 1 - length) % L == 0
    ensures j * M + 1 - length == q * L
  {
    var a := t * M + 1 - length;
    j := t + length * L;
    MulMono(1, L, length);
    MulMono(1, M, length * L);
    assert j * M + 1 - length == a + length * L * M;
    assert t * M >= 0;
    var p := a / L + length * M;
    assert length * L * M == (length * M) * L;
    assert j * M + 1 - length == p * L >= 1;
    if p <= 0 { MulMono(p, 0, L); }
    q := p;
  }

  lemma OldestFirst(length: nat, L: nat, M: nat, j: nat, q: nat) returns (t: nat)
    requires L >= 1 && j * M + 1 - length == q * L
    ensures t < L && (t * M + 1 - length) % L == 0
  {
    t := j % L;
    var k := j / L;
    assert j == t + k * L;
    assert t * M + 1 - length == (q - k * M) * L;
    DivUnique(t * M + 1 - length, L, q - k * M, 0);
  }

  lemma MeetsOldestIff(c: StageSpec)
    requires c.WellFormed()
    ensures MeetsOldest(c) <==> exists j: nat, q: nat :: j * c.M + 1 - |c.taps| == q * c.L
  {
    if t: nat :| t < c.L && (t * c.M + 1 - |c.taps|) % c.L == 0 {
      var j, q := OldestLater(|c.taps|, c.L, c.M, t);
    }
    if j: nat, q: nat :| j * c.M + 1 - |c.taps| == q * c.L {
      var t := OldestFirst(|c.taps|, c.L, c.M, j, q);
    }
  }

  /** The four paths, in every build: whether the specification is met can be tested on the taps before the run. */
  lemma PathsDecided(c: StageSpec)
    requires c.WellFormed() && !c.bypass
    ensures MeetsSum(c) <==> TapsPass(c)
  {
    hide MeetsSum, TapsUsed, LosesTap, MeetsOldest;
    PathsAgreeIff(c);
    if c.Lazy() {
      MeetsOldestIff(c);
      if c.L >= |c.taps| && MeetsOldest(c) {
        var j: nat, q: nat :| j * c.M + 1 - |c.taps| == q * c.L;
        assert Astray(c, 0, j, q);
      }
    } else {
      var j, q := TapZeroMeets(c);
      assert Astray(c, 0, j, q);
      OnlyLostTaps(c);
    }
  }

  lemma OnlyLostTaps(c: StageSpec)
    requires c.WellFormed() && (c.L == 1 || c.M == 1)
    ensures forall i: nat :: 1 <= i < |c.taps| ==> (LosesTap(c, i) <==> exists j: nat, q: nat :: Astray(c, i, j, q))
  {
    forall i: nat | 1 <= i < |c.taps| ensures LosesTap(c, i) <==> exists j: nat, q: nat :: Astray(c, i, j, q) {
      hide TapsUsed, Astray, Residue;
      if LosesTap(c, i) {
        var t: nat :| t < |c.taps| && (|c.taps| - 1 - Residue(c, i, t)) % c.v >= |c.taps| - i;
        var j, q := LostShows(c, i, t);
      }
      if j: nat, q: nat :| Astray(c, i, j, q) { ShowsLost(c, i, j, q); }
    }
  }
}
