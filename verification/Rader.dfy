/** Rader's algorithm on sequences: a transform of prime size n as a cyclic convolution of n - 1 points. */
module RaderSteps {
  import opened Complex
  import opened Dft
  import Signals

  /** The power sequence of the gpower loops: g^k modulo n. */
  function PowMod(g: nat, k: nat, n: nat): (p: nat)
    requires n >= 2
    ensures p < n
  {
    if k == 0 then 1 else (PowMod(g, k - 1, n) * g) % n
  }

  /** g generates the residues other than 0: its first power that is 1 again is the (n-1)-st. */
  ghost predicate IsGenerator(g: nat, n: nat) {
    n >= 2 && PowMod(g, n - 1, n) == 1 && forall k :: 1 <= k < n - 1 ==> PowMod(g, k, n) != 1
  }

  ghost predicate AreInverse(g: nat, ginv: nat, n: nat) {
    n >= 2 && (g * ginv) % n == 1
  }

  // ----- Arithmetic modulo n

  ghost predicate Congruent(a: int, b: int, n: int) {
    n >= 1 && exists q :: DifferBy(a, b, q, n)
  }

  predicate DifferBy(a: int, b: int, q: int, n: int) {
    a == b + q * n
  }

  lemma CongruentIntro(a: int, b: int, q: int, n: int)
    requires n >= 1 && a == b + q * n
    ensures Congruent(a, b, n)
  {
    assert DifferBy(a, b, q, n);
  }

  lemma CongruentMod(a: int, n: int)
    requires n >= 1
    ensures Congruent(a, a % n, n) && Congruent(a % n, a, n)
  {
    CongruentIntro(a, a % n, a / n, n);
    CongruentIntro(a % n, a, -(a / n), n);
  }

  lemma CongruentSym(a: int, b: int, n: int)
    requires Congruent(a, b, n)
    ensures Congruent(b, a, n)
  {
    var q :| DifferBy(a, b, q, n);
    CongruentIntro(b, a, -q, n);
  }

  lemma CongruentTrans(a: int, b: int, c: int, n: int)
    requires Congruent(a, b, n) && Congruent(b, c, n)
    ensures Congruent(a, c, n)
  {
    var p :| DifferBy(a, b, p, n);
    var q :| DifferBy(b, c, q, n);
    assert (p + q) * n == p * n + q * n;
    CongruentIntro(a, c, p + q, n);
  }

  lemma CongruentMul(a: int, b: int, c: int, n: int)
    requires Congruent(a, b, n)
    ensures Congruent(a * c, b * c, n)
  {
    var q :| DifferBy(a, b, q, n);
    assert a * c - b * c == (a - b) * c == (q * c) * n;
    CongruentIntro(a * c, b * c, q * c, n);
  }

  /** Residues that are congruent are equal. */
  lemma CongruentEqual(a: nat, b: nat, n: int)
    requires Congruent(a, b, n) && a < n && b < n
    ensures a == b
  {
    var q :| DifferBy(a, b, q, n);
    Signals.DivUnique(a, n, q, b);
    Signals.DivUnique(a, n, 0, a);
  }

  // ----- Powers of a generator and of its inverse

  lemma PowStep(g: nat, k: nat, n: nat)
    requires n >= 2
    ensures PowMod(g, 0, n) == 1 && PowMod(g, k + 1, n) == (PowMod(g, k, n) * g) % n
  {
  }

  lemma StepProduct(p: nat, a: nat, b: nat, g: nat, n: nat)
    requires Congruent(p, a * b, n)
    ensures Congruent((p * g) % n, a * ((b * g) % n), n)
  {
    hide Congruent;
    CongruentPositive(p, a * b, n);
    CongruentMul(p, a * b, g, n);
    CongruentMod(p * g, n);
    CongruentMod(b * g, n);
    CongruentMul(b * g, (b * g) % n, a, n);
    ProductOrder(a, b, g, (b * g) % n);
    CongruentTrans((p * g) % n, p * g, (b * g) * a, n);
    CongruentTrans((p * g) % n, (b * g) * a, a * ((b * g) % n), n);
  }

  lemma CongruentPositive(a: int, b: int, n: int)
    requires Congruent(a, b, n)
    ensures n >= 1
  {
  }

  lemma ProductOrder(a: int, b: int, g: int, r: int)
    ensures (a * b) * g == (b * g) * a && r * a == a * r
  {
  }

  /** Exponents add. */
  lemma {:induction false} PowAdd(g: nat, i: nat, j: nat, n: nat)
    requires n >= 2
    ensures Congruent(PowMod(g, i + j, n), PowMod(g, i, n) * PowMod(g, j, n), n)
  {
    hide Congruent, PowMod;
    PowStep(g, 0, n);
    if j == 0 {
      CongruentIntro(PowMod(g, i, n), PowMod(g, i, n) * 1, 0, n);
    } else {
      PowAdd(g, i, j - 1, n);
      PowStep(g, i + j - 1, n);
      PowStep(g, j - 1, n);
      StepProduct(PowMod(g, i + j - 1, n), PowMod(g, i, n), PowMod(g, j - 1, n), g, n);
    }
  }

  /** A power times the same power of the inverse is 1. */
  lemma {:induction false} PowInverse(g: nat, ginv: nat, k: nat, n: nat)
    requires AreInverse(g, ginv, n)
    ensures Congruent(PowMod(g, k, n) * PowMod(ginv, k, n), 1, n)
  {
    hide Congruent, PowMod;
    PowStep(g, 0, n);
    PowStep(ginv, 0, n);
    if k == 0 {
      CongruentIntro(1, 1, 0, n);
    } else {
      PowInverse(g, ginv, k - 1, n);
      PowStep(g, k - 1, n);
      PowStep(ginv, k - 1, n);
      StepInverse(PowMod(g, k - 1, n), PowMod(ginv, k - 1, n), g, ginv, n);
    }
  }

  lemma StepInverse(a: nat, b: nat, g: nat, ginv: nat, n: nat)
    requires AreInverse(g, ginv, n) && Congruent(a * b, 1, n)
    ensures Congruent(((a * g) % n) * ((b * ginv) % n), 1, n)
  {
    hide Congruent;
    var x, y := (a * g) % n, (b * ginv) % n;
    CongruentMod(a * g, n);
    CongruentMod(b * ginv, n);
    CongruentMul(x, a * g, y, n);
    CongruentMul(y, b * ginv, a * g, n);
    ProductOrder(1, y, a * g, 0);
    CongruentTrans(x * y, (a * g) * y, (b * ginv) * (a * g), n);
    Regroup(a, b, g, ginv);
    CongruentMul(a * b, 1, g * ginv, n);
    CongruentTrans(x * y, (a * b) * (g * ginv), 1 * (g * ginv), n);
    CongruentMod(g * ginv, n);
    CongruentTrans(x * y, g * ginv, 1, n);
  }

  lemma Regroup(a: int, b: int, g: int, h: int)
    ensures (b * h) * (a * g) == (a * b) * (g * h) && 1 * (g * h) == g * h
    ensures forall y: int :: (a * g) * y == y * (a * g)
  {
  }

  lemma PowNonzero(g: nat, ginv: nat, k: nat, n: nat)
    requires AreInverse(g, ginv, n)
    ensures 1 <= PowMod(g, k, n) < n
  {
    hide PowMod;
    PowInverse(g, ginv, k, n);
    if PowMod(g, k, n) == 0 {
      CongruentEqual(0, 1, n);
    }
  }

  /** A unit can be cancelled: if p·u is 1, and p is p·c, then c is 1. */
  lemma CancelUnit(p: int, u: int, c: int, n: int)
    requires Congruent(p * u, 1, n) && Congruent(p, p * c, n)
    ensures Congruent(c, 1, n)
  {
    hide Congruent;
    CongruentMul(p, p * c, u, n);
    assert (p * c) * u == (p * u) * c;
    CongruentMul(p * u, 1, c, n);
    CongruentSym((p * u) * c, 1 * c, n);
    CongruentSym(p * u, (p * u) * c, n);
    CongruentTrans(1 * c, (p * u) * c, p * u, n);
    CongruentTrans(c, p * u, 1, n);
  }

  /** The powers g^0 .. g^(n-2) are all different. */
  lemma PowDistinct(g: nat, ginv: nat, i: nat, j: nat, n: nat)
    requires IsGenerator(g, n) && AreInverse(g, ginv, n) && i < j < n - 1
    ensures PowMod(g, i, n) != PowMod(g, j, n)
  {
    hide PowMod, Congruent;
    if PowMod(g, i, n) == PowMod(g, j, n) {
      PowAdd(g, i, j - i, n);
      PowInverse(g, ginv, i, n);
      CancelUnit(PowMod(g, i, n), PowMod(ginv, i, n), PowMod(g, j - i, n), n);
      CongruentEqual(PowMod(g, j - i, n), 1, n);
    }
  }

  /** A product that is 1 with one factor 1 has the other factor 1. */
  lemma OtherFactor(a: nat, b: nat, n: nat)
    requires Congruent(a * b, 1, n) && a == 1 && b < n && n >= 2
    ensures b == 1
  {
    CongruentEqual(b, 1, n);
  }

  lemma InverseIsGenerator(g: nat, ginv: nat, n: nat)
    requires IsGenerator(g, n) && AreInverse(g, ginv, n)
    ensures IsGenerator(ginv, n) && AreInverse(ginv, g, n)
  {
    hide PowMod, Congruent;
    assert g * ginv == ginv * g;
    PowInverse(g, ginv, n - 1, n);
    OtherFactor(PowMod(g, n - 1, n), PowMod(ginv, n - 1, n), n);
    forall k | 1 <= k < n - 1 ensures PowMod(ginv, k, n) != 1 {
      PowInverse(ginv, g, k, n);
      if PowMod(ginv, k, n) == 1 { OtherFactor(PowMod(ginv, k, n), PowMod(g, k, n), n); }
    }
  }

  /** Exponents of the inverse count modulo n - 1. */
  lemma PowWraps(g: nat, ginv: nat, d: nat, q: nat, k: nat, n: nat)
    requires IsGenerator(g, n) && AreInverse(g, ginv, n) && (d + q == k || d + q == k + (n - 1))
    ensures Congruent(PowMod(ginv, k, n), PowMod(ginv, d, n) * PowMod(ginv, q, n), n)
  {
    hide PowMod, Congruent;
    PowAdd(ginv, d, q, n);
    if d + q == k + (n - 1) {
      InverseIsGenerator(g, ginv, n);
      PowAdd(ginv, k, n - 1, n);
      CongruentSym(PowMod(ginv, k + (n - 1), n), PowMod(ginv, k, n) * 1, n);
      CongruentTrans(PowMod(ginv, k, n), PowMod(ginv, d + q, n), PowMod(ginv, d, n) * PowMod(ginv, q, n), n);
    }
  }

  /**
   * In the exponents the product of the two permutations is a difference modulo n - 1: that makes the sum a
   * convolution.
   */
  lemma PowDifference(g: nat, ginv: nat, q: nat, k: nat, n: nat)
    requires IsGenerator(g, n) && AreInverse(g, ginv, n) && q < n - 1 && k < n - 1
    ensures Congruent(PowMod(g, q, n) * PowMod(ginv, k, n), PowMod(ginv, (k - q) % (n - 1), n), n)
  {
    hide PowMod, Congruent;
    var d := if k >= q then k - q else k - q + (n - 1);
    Signals.DivUnique(k - q, n - 1, if k >= q then 0 else -1, d);
    PowWraps(g, ginv, d, q, k, n);
    PowInverse(g, ginv, q, n);
    Combine(PowMod(ginv, k, n), PowMod(ginv, d, n), PowMod(ginv, q, n), PowMod(g, q, n), n);
  }

  lemma Combine(hk: int, hd: int, hq: int, gq: int, n: int)
    requires Congruent(hk, hd * hq, n) && Congruent(gq * hq, 1, n)
    ensures Congruent(gq * hk, hd, n)
  {
    hide Congruent;
    CongruentMul(hk, hd * hq, gq, n);
    CongruentMul(gq * hq, 1, hd, n);
    assert (hd * hq) * gq == (gq * hq) * hd && hk * gq == gq * hk;
    CongruentTrans(gq * hk, (gq * hq) * hd, 1 * hd, n);
  }

  /** power_mod of primes.c: by repeated squaring. */
  function PowerMod(g: nat, k: nat, n: nat): (p: nat)
    requires n >= 2
    ensures p < n
  {
    if k == 0 then 1
    else if k % 2 == 0 then
      var x := PowerMod(g, k / 2, n);
      (x * x) % n
    else (g * PowerMod(g, k - 1, n)) % n
  }

  lemma {:induction false} PowerModIsPower(g: nat, k: nat, n: nat)
    requires n >= 2
    ensures PowerMod(g, k, n) == PowMod(g, k, n)
  {
    if k > 0 {
      if k % 2 == 0 {
        PowerModIsPower(g, k / 2, n);
        SquaredPower(g, k / 2, n);
      } else {
        PowerModIsPower(g, k - 1, n);
        assert g * PowMod(g, k - 1, n) == PowMod(g, k - 1, n) * g;
      }
    }
  }

  lemma SquaredPower(g: nat, h: nat, n: nat)
    requires n >= 2
    ensures PowMod(g, h + h, n) == (PowMod(g, h, n) * PowMod(g, h, n)) % n
  {
    hide PowMod, Congruent;
    var x := PowMod(g, h, n);
    PowAdd(g, h, h, n);
    CongruentMod(x * x, n);
    CongruentTrans(PowMod(g, h + h, n), x * x, (x * x) % n, n);
    CongruentEqual(PowMod(g, h + h, n), (x * x) % n, n);
  }

  /** The number awake() takes for the inverse is one: g times g^(n-2) is g^(n-1), which is 1. */
  lemma InverseByPower(g: nat, n: nat)
    requires IsGenerator(g, n)
    ensures AreInverse(g, PowerMod(g, n - 2, n), n)
  {
    PowerModIsPower(g, n - 2, n);
    PowStep(g, n - 2, n);
    assert g * PowMod(g, n - 2, n) == PowMod(g, n - 2, n) * g;
  }

  // ----- Permuted sums

  ghost predicate IsPermutation(s: seq<int>, n: nat) {
    |s| == n && Distinct(s, n)
  }

  ghost predicate Distinct(s: seq<int>, n: nat) {
    && (forall i :: 0 <= i < |s| ==> 0 <= s[i] < n)
    && (forall i, j :: 0 <= i < j < |s| ==> s[i] != s[j])
  }

  function Without(s: seq<int>, i: nat): seq<int>
    requires i < |s|
  {
    s[..i] + s[i + 1..]
  }

  /** Different numbers below n are at most n in number. */
  lemma {:induction false} AtMost(s: seq<int>, n: nat)
    requires Distinct(s, n)
    ensures |s| <= n
  {
    if s == [] {
    } else if i :| 0 <= i < |s| && s[i] == n - 1 {
      AtMost(Without(s, i), n - 1);
    } else {
      assert s[0] < n;
      AtMost(s, n - 1);
    }
  }

  /** A permutation reaches every number. */
  lemma Reaches(s: seq<int>, n: nat, t: nat) returns (i: nat)
    requires IsPermutation(s, n) && t < n
    ensures i < n && s[i] == t
  {
    if forall j :: 0 <= j < n ==> s[j] != t {
      AtMost(s + [t], n);
    }
    i :| 0 <= i < n && s[i] == t;
  }

  ghost function SeqSum(s: seq<int>, f: int -> C): C {
    if s == [] then ZERO else Add(SeqSum(s[..|s| - 1], f), f(s[|s| - 1]))
  }

  lemma AddOrder(x: C, y: C, z: C)
    ensures Add(Add(x, y), z) == Add(Add(x, z), y)
  {
  }

  lemma {:induction false} SumWithout(s: seq<int>, i: nat, f: int -> C)
    requires i < |s|
    ensures SeqSum(s, f) == Add(SeqSum(Without(s, i), f), f(s[i]))
  {
    var n := |s| - 1;
    if i == n {
      assert Without(s, i) == s[..n];
    } else {
      SumWithout(s[..n], i, f);
      assert Without(s, i)[..n - 1] == Without(s[..n], i);
      AddOrder(SeqSum(Without(s[..n], i), f), f(s[i]), f(s[n]));
    }
  }

  /** The order of the terms does not matter. */
  lemma {:induction false} SumPermuted(s: seq<int>, n: nat, f: int -> C)
    requires IsPermutation(s, n)
    ensures SeqSum(s, f) == CSum(n, f)
  {
    if n > 0 {
      var i := Reaches(s, n, n - 1);
      SumWithout(s, i, f);
      SumPermuted(Without(s, i), n - 1, f);
    }
  }

  lemma {:induction false} SeqSumIs(s: seq<int>, f: int -> C, g: int -> C)
    requires forall k :: 0 <= k < |s| ==> f(s[k]) == g(k)
    ensures SeqSum(s, f) == CSum(|s|, g)
  {
    if s != [] { SeqSumIs(s[..|s| - 1], f, g); }
  }

  /** The order in which a gpower loop visits the indices 1 .. n-1, counted from 0. */
  function PowerOrder(g: nat, n: nat): (s: seq<int>)
    requires n >= 2
    ensures |s| == n - 1 && forall k :: 0 <= k < n - 1 ==> s[k] == PowMod(g, k, n) - 1
  {
    seq(n - 1, k requires 0 <= k => PowMod(g, k, n) - 1)
  }

  /** It visits each of them exactly once. */
  lemma PowerOrderIsPermutation(g: nat, ginv: nat, n: nat)
    requires IsGenerator(g, n) && AreInverse(g, ginv, n)
    ensures IsPermutation(PowerOrder(g, n), n - 1)
  {
    hide PowMod;
    forall k | 0 <= k < n - 1 ensures 1 <= PowMod(g, k, n) < n { PowNonzero(g, ginv, k, n); }
    forall i, j | 0 <= i < j < n - 1 ensures PowMod(g, i, n) != PowMod(g, j, n) { PowDistinct(g, ginv, i, j, n); }
  }

  // ----- One output

  /** The input in the order of the generator's powers. */
  ghost predicate IsReordered(x: seq<C>, a: seq<C>, g: nat) {
    |x| >= 2 && |a| == |x| - 1 && forall k :: 0 <= k < |a| ==> a[k] == At(x, PowMod(g, k, |x|))
  }

  /** The roots in the order of the inverse's powers, divided by the number of points. */
  ghost predicate IsOmega(e: Roots, t: seq<C>, ginv: nat, n: nat) {
    n >= 2 && |t| == n - 1 && forall k :: 0 <= k < |t| ==> t[k] == Share(Conj(e(n, PowMod(ginv, k, n))), n - 1)
  }

  /** The conjugate of the product of the two spectra, with the conjugate of x[0] added at 0. */
  ghost predicate IsRaderSpectrum(x0: C, ya: seq<C>, yt: seq<C>, z: seq<C>) {
    |ya| == |yt| == |z|
    && forall k :: 0 <= k < |z| ==>
      z[k] == if k == 0 then Add(Conj(Mul(yt[k], ya[k])), Conj(x0)) else Conj(Mul(yt[k], ya[k]))
  }

  lemma AddZero(x: C)
    ensures Conj(Conj(x)) == x && Add(x, ZERO) == x && Add(ZERO, x) == x
  {
    assert x == C(x.re, x.im);
  }

  ghost function Impulse(x0: C): int -> C {
    t => if t == 0 then x0 else ZERO
  }

  lemma SpectrumTerm(e: Roots, x0: C, ya: seq<C>, yt: seq<C>, z: seq<C>, k: int, t: nat)
    requires RootLaws(e) && IsRaderSpectrum(x0, ya, yt, z) && t < |z|
    ensures Conj(Terms(e, z, k)(t)) == Add(InverseTerms(e, Pointwise(ya, yt), k)(t), Impulse(x0)(t))
  {
    hide RootLaws, Mul, Add, Conj;
    var n, p := |z|, Mul(ya[t], yt[t]);
    ConjMul(z[t], e(n, -(t * k)));
    RootConj(e, n, -(t * k));
    assert -(-(t * k)) == t * k;
    MulComm(yt[t], ya[t]);
    ConjAdd(Conj(p), Conj(x0));
    AddZero(p);
    AddZero(x0);
    AddZero(Mul(p, e(n, t * k)));
    if t == 0 {
      RootUnit(e, n);
      assert t * k == 0;
      MulOne(Add(p, x0));
      MulOne(p);
    }
  }

  /** Conjugating the transform of the spectrum gives the inverse transform of the product, plus x[0]. */
  lemma SpectrumInverse(e: Roots, x0: C, ya: seq<C>, yt: seq<C>, z: seq<C>, k: int)
    requires RootLaws(e) && IsRaderSpectrum(x0, ya, yt, z) && |z| >= 1
    ensures Conj(DftAt(e, z, k)) == Add(InverseAt(e, Pointwise(ya, yt), k), x0)
  {
    hide RootLaws, Mul, Add, Conj, Terms, InverseTerms, IsRaderSpectrum;
    SpectrumLengths(x0, ya, yt, z);
    var n, inverse := |z|, InverseTerms(e, Pointwise(ya, yt), k);
    SumConj(n, Terms(e, z, k));
    forall t | 0 <= t < n ensures Conj(Terms(e, z, k)(t)) == Add(inverse(t), Impulse(x0)(t)) {
      SpectrumTerm(e, x0, ya, yt, z, k, t);
    }
    SumEq(n, i => Conj(Terms(e, z, k)(i)), i => Add(inverse(i), Impulse(x0)(i)));
    SumAdd(n, inverse, Impulse(x0));
    SumOne(n, 0, Impulse(x0));
  }

  lemma SpectrumLengths(x0: C, ya: seq<C>, yt: seq<C>, z: seq<C>)
    requires IsRaderSpectrum(x0, ya, yt, z)
    ensures |ya| == |yt| == |z|
  {
  }

  /** The terms of output `j` of the naive sum from x[1] on. */
  ghost function LaterTerms(e: Roots, x: seq<C>, j: int): int -> C {
    i => Terms(e, x, j)(1 + i)
  }

  lemma FirstTermApart(e: Roots, x: seq<C>, j: int)
    requires RootLaws(e) && |x| >= 2
    ensures DftAt(e, x, j) == Add(CSum(|x| - 1, LaterTerms(e, x, j)), x[0])
  {
    var f := Terms(e, x, j);
    SumConcat(1, |x| - 1, f);
    SumEq(|x| - 1, i => f(1 + i), LaterTerms(e, x, j));
    assert 0 * j == 0;
    RootUnit(e, |x|);
    MulOne(x[0]);
    AddSwap(ZERO, f(0), CSum(|x| - 1, LaterTerms(e, x, j)));
  }

  lemma AddSwap(z: C, x: C, y: C)
    ensures z == ZERO ==> Add(Add(z, x), y) == Add(y, x)
  {
  }

  /** A naive output is x[0] and the other terms, taken in the order of the generator's powers. */
  lemma ReorderedOutput(e: Roots, x: seq<C>, g: nat, ginv: nat, j: int, terms: int -> C)
    requires RootLaws(e) && |x| >= 2 && IsGenerator(g, |x|) && AreInverse(g, ginv, |x|)
    requires forall q :: 0 <= q < |x| - 1 ==>
      terms(q) == Mul(At(x, PowMod(g, q, |x|)), e(|x|, -(PowMod(g, q, |x|) * j)))
    ensures DftAt(e, x, j) == Add(CSum(|x| - 1, terms), x[0])
  {
    hide RootLaws, Mul, PowMod, IsGenerator, AreInverse, DftAt;
    FirstTermApart(e, x, j);
    PowerOrderIsPermutation(g, ginv, |x|);
    SumPermuted(PowerOrder(g, |x|), |x| - 1, LaterTerms(e, x, j));
    var s := PowerOrder(g, |x|);
    forall q | 0 <= q < |s| ensures LaterTerms(e, x, j)(s[q]) == terms(q) {
      var p: int := PowMod(g, q, |x|);
      assert LaterTerms(e, x, j)(s[q]) == Terms(e, x, j)(p);
    }
    SeqSumIs(s, LaterTerms(e, x, j), terms);
  }

  /** The DC output. */
  lemma RaderDC(e: Roots, x: seq<C>, a: seq<C>, g: nat, ginv: nat)
    requires RootLaws(e) && IsReordered(x, a, g) && IsGenerator(g, |x|) && AreInverse(g, ginv, |x|)
    ensures Add(x[0], DftAt(e, a, 0)) == DftAt(e, x, 0)
  {
    hide RootLaws, Mul, PowMod, IsGenerator, AreInverse, Add;
    RootUnit(e, |x|);
    RootUnit(e, |a|);
    forall q | 0 <= q < |a|
      ensures Terms(e, a, 0)(q) == Mul(At(x, PowMod(g, q, |x|)), e(|x|, -(PowMod(g, q, |x|) * 0)))
    {
      assert -(PowMod(g, q, |x|) * 0) == 0 == -(q * 0);
    }
    ReorderedOutput(e, x, g, ginv, 0, Terms(e, a, 0));
    AddComm(x[0], DftAt(e, a, 0));
  }

  lemma AddComm(x: C, y: C)
    ensures Add(x, y) == Add(y, x)
  {
  }

  lemma OmegaLength(e: Roots, t: seq<C>, ginv: nat, n: nat)
    requires IsOmega(e, t, ginv, n)
    ensures |t| == n - 1
  {
  }

  lemma OmegaAt(e: Roots, t: seq<C>, ginv: nat, n: nat, d: nat)
    requires RootLaws(e) && IsOmega(e, t, ginv, n) && d < n - 1
    ensures |t| == n - 1 && Scale(t[d], |t| as real) == e(n, -(PowMod(ginv, d, n) as int))
  {
    hide RootLaws, Scale, Share, PowMod, Conj;
    Unscale(Conj(e(n, PowMod(ginv, d, n))), n - 1);
    RootConj(e, n, PowMod(ginv, d, n));
  }

  /** One term of the convolution, times the number of points, is one term of the naive sum. */
  lemma RaderTerm(e: Roots, x: seq<C>, a: seq<C>, t: seq<C>, g: nat, ginv: nat, k: nat, q: nat)
    requires RootLaws(e) && IsReordered(x, a, g) && IsOmega(e, t, ginv, |x|)
    requires IsGenerator(g, |x|) && AreInverse(g, ginv, |x|) && k < |a| && q < |a|
    ensures Scale(ConvolutionTerms(a, t, k)(q), |a| as real)
         == Mul(At(x, PowMod(g, q, |x|)), e(|x|, -(PowMod(g, q, |x|) * PowMod(ginv, k, |x|))))
  {
    hide RootLaws, Mul, Scale, PowMod, IsGenerator, AreInverse, Congruent, IsOmega;
    var n, d := |x|, (k - q) % |a|;
    assert |t| == |a| by { OmegaLength(e, t, ginv, n); }
    ScaleMul(a[q], t[d], |a| as real);
    OmegaAt(e, t, ginv, n, d);
    PowDifference(g, ginv, q, k, n);
    RootCongruent(e, n, PowMod(g, q, n) * PowMod(ginv, k, n), PowMod(ginv, d, n));
  }

  lemma RootCongruent(e: Roots, n: int, a: int, b: int)
    requires RootLaws(e) && n >= 1 && Congruent(a, b, n)
    ensures e(n, -a) == e(n, -b)
  {
    hide RootLaws;
    var q :| DifferBy(a, b, q, n);
    assert -a == -b + (-q) * n;
    RootMod(e, n, -a, -b, -q);
  }

  /** Output g^-k of the naive transform is element k of the last transform, conjugated. */
  lemma RaderOutput(e: Roots, x: seq<C>, a: seq<C>, t: seq<C>, z: seq<C>, g: nat, ginv: nat, k: nat)
    requires RootLaws(e) && IsReordered(x, a, g) && IsOmega(e, t, ginv, |x|)
    requires IsGenerator(g, |x|) && AreInverse(g, ginv, |x|) && k < |a|
    requires IsRaderSpectrum(x[0], Transform(e, a), Transform(e, t), z)
    ensures Conj(DftAt(e, z, k)) == DftAt(e, x, PowMod(ginv, k, |x|))
  {
    hide RootLaws, Mul, Scale, PowMod, IsGenerator, AreInverse, Conj, Add, DftAt, InverseAt, IsRaderSpectrum,
      ConvolutionTerms, CSum;
    var n := |a|;
    SpectrumLengths(x[0], Transform(e, a), Transform(e, t), z);
    SpectrumInverse(e, x[0], Transform(e, a), Transform(e, t), z, k);
    ConvolutionTheorem(e, a, t, k);
    var terms := ConvolutionTerms(a, t, k);
    SumScale(n, n as real, terms);
    var scaled := i => Scale(terms(i), n as real);
    forall q | 0 <= q < n
      ensures scaled(q) == Mul(At(x, PowMod(g, q, |x|)), e(|x|, -(PowMod(g, q, |x|) * PowMod(ginv, k, |x|))))
    {
      RaderTerm(e, x, a, t, g, ginv, k, q);
    }
    ReorderedOutput(e, x, g, ginv, PowMod(ginv, k, |x|), scaled);
    SumEq(n, scaled, i => Scale(terms(i), n as real));
  }
}
