/** The naive discrete Fourier transform, and the identities the fast forms rest on. */
module Dft {
  import opened Complex
  import Signals

  /** `e(n, a)` is exp(2·pi·i·a/n): the root of unity that the trigonometric generator of FFTW hands out. */
  type Roots = (int, int) -> C

  ghost predicate AddLaw(e: Roots, n: int, a: int, b: int) {
    n >= 1 ==> e(n, a + b) == Mul(e(n, a), e(n, b))
  }

  ghost predicate UnitLaw(e: Roots, n: int) {
    n >= 1 ==> e(n, 0) == ONE && e(n, n) == ONE
  }

  ghost predicate ConjLaw(e: Roots, n: int, a: int) {
    n >= 1 ==> Conj(e(n, a)) == e(n, -a)
  }

  ghost predicate ScaleLaw(e: Roots, n: int, k: int, a: int) {
    n >= 1 && k >= 1 ==> e(n * k, a * k) == e(n, a)
  }

  /** Only whole turns give 1. */
  ghost predicate PrimitiveLaw(e: Roots, n: int, a: int) {
    n >= 1 && e(n, a) == ONE ==> a % n == 0
  }

  ghost predicate RootLaws(e: Roots) {
    && (forall n, a, b :: AddLaw(e, n, a, b))
    && (forall n :: UnitLaw(e, n))
    && (forall n, a :: ConjLaw(e, n, a))
    && (forall n, k, a :: ScaleLaw(e, n, k, a))
    && (forall n, a :: PrimitiveLaw(e, n, a))
  }

  lemma RootAdd(e: Roots, n: int, a: int, b: int)
    requires RootLaws(e) && n >= 1
    ensures e(n, a + b) == Mul(e(n, a), e(n, b))
  {
    assert AddLaw(e, n, a, b);
  }

  lemma RootConj(e: Roots, n: int, a: int)
    requires RootLaws(e) && n >= 1
    ensures Conj(e(n, a)) == e(n, -a)
  {
    assert ConjLaw(e, n, a);
  }

  lemma RootScale(e: Roots, n: int, k: int, a: int)
    requires RootLaws(e) && n >= 1 && k >= 1
    ensures e(n * k, a * k) == e(n, a)
  {
    assert ScaleLaw(e, n, k, a);
  }

  lemma MulOne(x: C)
    ensures Mul(x, ONE) == x && Mul(ONE, x) == x
  {
  }

  lemma RootUnit(e: Roots, n: int)
    requires RootLaws(e) && n >= 1
    ensures e(n, 0) == ONE && e(n, n) == ONE
  {
    assert UnitLaw(e, n);
  }

  lemma {:induction false} RootTurns(e: Roots, n: int, q: int)
    requires RootLaws(e) && n >= 1
    ensures e(n, q * n) == ONE
    decreases if q < 0 then -q else q
  {
    hide Mul, RootLaws;
    RootUnit(e, n);
    if q > 0 {
      RootTurns(e, n, q - 1);
      assert q * n == (q - 1) * n + n;
      RootAdd(e, n, (q - 1) * n, n);
      MulOne(ONE);
    } else if q < 0 {
      RootTurns(e, n, q + 1);
      assert (q + 1) * n == q * n + n;
      RootAdd(e, n, q * n, n);
      MulOne(e(n, q * n));
    }
  }

  /** Only the angle modulo a whole turn matters. */
  lemma RootMod(e: Roots, n: int, a: int, b: int, q: int)
    requires RootLaws(e) && n >= 1 && a == b + q * n
    ensures e(n, a) == e(n, b)
  {
    RootTurns(e, n, q);
    RootAdd(e, n, b, q * n);
    MulOne(e(n, b));
  }

  /** The terms of the orthogonality sum. */
  ghost function Powers(e: Roots, n: int, d: int): int -> C {
    t => e(n, t * d)
  }

  lemma {:induction false} GeometricSum(e: Roots, n: int, d: int, k: nat)
    requires RootLaws(e) && n >= 1
    ensures Add(Mul(e(n, d), CSum(k, Powers(e, n, d))), e(n, 0)) == Add(CSum(k, Powers(e, n, d)), e(n, k * d))
  {
    if k > 0 {
      GeometricSum(e, n, d, k - 1);
      assert k * d == d + (k - 1) * d;
      RootAdd(e, n, d, (k - 1) * d);
      MulAdd(e(n, d), CSum(k - 1, Powers(e, n, d)), e(n, (k - 1) * d));
    }
  }

  lemma Difference(c: C, s: C, u: C)
    requires Add(Mul(c, s), u) == Add(s, u)
    ensures Mul(Add(c, C(-1.0, 0.0)), s) == ZERO
  {
  }

  /** The n-th powers of a root other than 1 sum to zero. */
  lemma RootsSumToZero(e: Roots, n: int, d: int)
    requires RootLaws(e) && n >= 1 && d % n != 0
    ensures CSum(n, Powers(e, n, d)) == ZERO
  {
    var s := CSum(n, Powers(e, n, d));
    GeometricSum(e, n, d, n);
    RootTurns(e, n, d);
    assert n * d == d * n;
    RootUnit(e, n);
    Difference(e(n, d), s, ONE);
    assert PrimitiveLaw(e, n, d);
    MinusOne(e(n, d));
    NoZeroDivisors(Add(e(n, d), C(-1.0, 0.0)), s);
  }

  lemma MinusOne(x: C)
    ensures Add(x, C(-1.0, 0.0)) == ZERO ==> x == ONE
  {
    assert x == C(x.re, x.im);
  }

  lemma {:induction false} SumOnes(n: nat, f: int -> C)
    requires forall t :: 0 <= t < n ==> f(t) == ONE
    ensures CSum(n, f) == C(n as real, 0.0)
  {
    if n > 0 { SumOnes(n - 1, f); }
  }

  lemma RootsSumToN(e: Roots, n: int, d: int)
    requires RootLaws(e) && n >= 1 && d % n == 0
    ensures CSum(n, Powers(e, n, d)) == C(n as real, 0.0)
  {
    forall t | 0 <= t < n ensures Powers(e, n, d)(t) == ONE {
      var q := d / n;
      assert t * d == (t * q) * n;
      RootTurns(e, n, t * q);
    }
    SumOnes(n, Powers(e, n, d));
  }

  // ----- The transform

  function At(x: seq<C>, j: int): C {
    if 0 <= j < |x| then x[j] else ZERO
  }

  /** The terms of the naive sum for output `k`, with the sign of the forward transform. */
  ghost function Terms(e: Roots, x: seq<C>, k: int): int -> C {
    j => Mul(At(x, j), e(|x|, -(j * k)))
  }

  ghost function DftAt(e: Roots, x: seq<C>, k: int): C {
    CSum(|x|, Terms(e, x, k))
  }

  /** The naive n-point transform. */
  ghost function Transform(e: Roots, x: seq<C>): (y: seq<C>)
    ensures |y| == |x| && forall k :: 0 <= k < |x| ==> y[k] == DftAt(e, x, k)
  {
    seq(|x|, k => DftAt(e, x, k))
  }

  /** The sign of the transform: of a unit at place `p`, output `k` is the root at -p·k. */
  lemma TransformOfUnit(e: Roots, x: seq<C>, p: nat, k: nat)
    requires RootLaws(e) && p < |x| && k < |x| && forall j :: 0 <= j < |x| ==> x[j] == if j == p then ONE else ZERO
    ensures Transform(e, x)[k] == e(|x|, -(p * k))
  {
    hide RootLaws, Mul, CSum;
    var f := Terms(e, x, k);
    forall j | 0 <= j < |x| && j != p ensures f(j) == ZERO { ZeroTimes(e(|x|, -(j * k))); }
    SumOne(|x|, p, f);
    MulComm(ONE, e(|x|, -(p * k)));
    MulOne(e(|x|, -(p * k)));
  }

  lemma ZeroTimes(z: C)
    ensures Mul(ZERO, z) == ZERO
  {
  }

  // ----- Cooley-Tukey

  /** Every r-th element of `x`, from element `p` on. */
  function Every(x: seq<C>, r: int, m: nat, p: int): (y: seq<C>)
    ensures |y| == m && forall q :: 0 <= q < m ==> y[q] == At(x, q * r + p)
  {
    seq(m, q => At(x, q * r + p))
  }

  lemma AngleSplit(q: int, r: int, p: int, k: int, m: int, s: int)
    ensures -((q * r + p) * (k + m * s)) == (-(q * k)) * r + (-(p * k)) + (-(p * s)) * m + (-(q * s)) * (r * m)
  {
    assert (q * r + p) * (k + m * s) == q * r * k + q * r * (m * s) + p * k + p * (m * s);
    assert q * r * (m * s) == (q * s) * (r * m) && p * (m * s) == (p * s) * m && q * r * k == (q * k) * r;
  }

  /**
   * The angle of one term splits into that of the inner transform, the twiddle factor and that of the outer
   * transform.
   */
  lemma RootSplit(e: Roots, r: nat, m: nat, q: int, p: int, k: int, s: int)
    requires RootLaws(e) && r >= 1 && m >= 1 && r * m >= 1
    ensures e(r * m, -((q * r + p) * (k + m * s))) == Mul(e(m, -(q * k)), Mul(e(r * m, -(p * k)), e(r, -(p * s))))
  {
    hide Mul, RootLaws;
    var n := r * m;
    AngleSplit(q, r, p, k, m, s);
    var a, b, c := (-(q * k)) * r, -(p * k), (-(p * s)) * m;
    RootMod(e, n, -((q * r + p) * (k + m * s)), a + (b + c), -(q * s));
    RootAdd(e, n, a, b + c);
    RootAdd(e, n, b, c);
    assert m * r == n;
    RootScale(e, m, r, -(q * k));
    RootScale(e, r, m, -(p * s));
  }

  /** The terms of the outer transform: twiddled outputs of the inner transforms. */
  ghost function Twiddled(e: Roots, x: seq<C>, r: int, m: nat, k: int, s: int): int -> C {
    p => Mul(Mul(DftAt(e, Every(x, r, m, p), k), e(r * m, -(p * k))), e(r, -(p * s)))
  }

  lemma RegroupMul(x: C, a: C, b: C, c: C)
    ensures Mul(x, Mul(a, Mul(b, c))) == Mul(Mul(b, c), Mul(x, a))
    ensures Mul(Mul(b, c), x) == Mul(Mul(x, b), c)
  {
    MulAssoc(x, a, Mul(b, c));
    MulComm(Mul(x, a), Mul(b, c));
    MulComm(Mul(b, c), x);
    MulAssoc(x, b, c);
  }

  lemma TwiddledTerm(e: Roots, x: seq<C>, r: nat, m: nat, k: nat, s: nat, p: nat, q: nat)
    requires RootLaws(e) && r >= 1 && m >= 1 && |x| == r * m && p < r && q < m
    ensures Terms(e, x, k + m * s)(q * r + p)
         == Mul(Mul(e(r * m, -(p * k)), e(r, -(p * s))), Terms(e, Every(x, r, m, p), k)(q))
  {
    hide Mul, RootLaws;
    RootSplit(e, r, m, q, p, k, s);
    RegroupMul(At(x, q * r + p), e(m, -(q * k)), e(r * m, -(p * k)), e(r, -(p * s)));
  }

  lemma TwiddledColumn(e: Roots, x: seq<C>, r: nat, m: nat, k: nat, s: nat, p: nat)
    requires RootLaws(e) && r >= 1 && m >= 1 && |x| == r * m && p < r
    ensures ColumnSums(m, Table(r, Terms(e, x, k + m * s)))(p) == Twiddled(e, x, r, m, k, s)(p)
  {
    hide Mul, RootLaws, Terms;
    var column := ColumnOf(Table(r, Terms(e, x, k + m * s)), p);
    var inner := Terms(e, Every(x, r, m, p), k);
    var b, d := e(r * m, -(p * k)), e(r, -(p * s));
    forall q | 0 <= q < m ensures column(q) == Mul(Mul(b, d), inner(q)) {
      TwiddledTerm(e, x, r, m, k, s, p, q);
    }
    SumEq(m, column, q => Mul(Mul(b, d), inner(q)));
    SumMul(m, Mul(b, d), inner);
    RegroupMul(CSum(m, inner), ONE, b, d);
  }

  /** Output k + m·s of the n-point transform, n = r·m, from r transforms of m points each. */
  lemma CooleyTukey(e: Roots, x: seq<C>, r: nat, m: nat, k: nat, s: nat)
    requires RootLaws(e) && r >= 1 && m >= 1 && |x| == r * m
    ensures DftAt(e, x, k + m * s) == CSum(r, Twiddled(e, x, r, m, k, s))
  {
    hide Mul, RootLaws, Twiddled, Terms;
    var f := Terms(e, x, k + m * s);
    assert m * r == r * m;
    SumColumns(m, r, f);
    forall p | 0 <= p < r ensures ColumnSums(m, Table(r, f))(p) == Twiddled(e, x, r, m, k, s)(p) {
      TwiddledColumn(e, x, r, m, k, s, p);
    }
    SumEq(r, ColumnSums(m, Table(r, f)), Twiddled(e, x, r, m, k, s));
  }

  // ----- Inversion and cyclic convolution

  /** The terms of the inverse sum, without its factor 1/n. */
  ghost function InverseTerms(e: Roots, y: seq<C>, d: int): int -> C {
    t => Mul(At(y, t), e(|y|, t * d))
  }

  ghost function InverseAt(e: Roots, y: seq<C>, d: int): C {
    CSum(|y|, InverseTerms(e, y, d))
  }

  /** The double sum behind the inversion formula. */
  ghost function InversionTable(e: Roots, x: seq<C>, d: int): (int, int) -> C {
    (t, j) => Mul(At(x, j), e(|x|, t * (d - j)))
  }

  /** The terms of the inverse sum at t: one row of the table. */
  lemma InversionRow(e: Roots, x: seq<C>, d: int, t: nat)
    requires RootLaws(e) && t < |x|
    ensures InverseTerms(e, Transform(e, x), d)(t) == RowSums(|x|, InversionTable(e, x, d))(t)
  {
    hide Mul, RootLaws, CSum;
    var n, inner, row := |x|, Terms(e, x, t), RowOf(InversionTable(e, x, d), t);
    MulComm(CSum(n, inner), e(n, t * d));
    SumMul(n, e(n, t * d), inner);
    forall j | 0 <= j < n ensures Mul(e(n, t * d), inner(j)) == row(j) {
      assert t * (d - j) == -(j * t) + t * d;
      RootAdd(e, n, -(j * t), t * d);
      MulAssoc(At(x, j), e(n, -(j * t)), e(n, t * d));
      MulComm(e(n, t * d), inner(j));
    }
    SumEq(n, i => Mul(e(n, t * d), inner(i)), row);
  }

  /** A column of the table sums to n times the element at index d modulo n, or to nothing. */
  lemma InversionColumn(e: Roots, x: seq<C>, d: int, j: nat)
    requires RootLaws(e) && j < |x|
    ensures ColumnSums(|x|, InversionTable(e, x, d))(j) == if j == d % |x| then Scale(x[j], |x| as real) else ZERO
  {
    hide Mul, RootLaws, CSum;
    var n, column := |x|, ColumnOf(InversionTable(e, x, d), j);
    SumMul(n, x[j], Powers(e, n, d - j));
    forall t: int ensures column(t) == Mul(x[j], Powers(e, n, d - j)(t)) {
      assert At(x, j) == x[j];
    }
    SumEq(n, column, t => Mul(x[j], Powers(e, n, d - j)(t)));
    ResidueUnique(d, j, n);
    if j == d % n { RootsSumToN(e, n, d - j); } else { RootsSumToZero(e, n, d - j); }
    RealFactor(x[j], n as real);
  }

  /** Undoing a transform gives back n times the element at index d modulo n. */
  lemma Inversion(e: Roots, x: seq<C>, d: int)
    requires RootLaws(e) && |x| >= 1
    ensures InverseAt(e, Transform(e, x), d) == Scale(x[d % |x|], |x| as real)
  {
    hide Mul, RootLaws, CSum, InversionTable, InverseTerms, RowSums, ColumnSums, Scale;
    var n, k, f := |x|, d % |x|, InversionTable(e, x, d);
    forall t | 0 <= t < n ensures InverseTerms(e, Transform(e, x), d)(t) == RowSums(n, f)(t) {
      InversionRow(e, x, d, t);
    }
    SumEq(n, InverseTerms(e, Transform(e, x), d), RowSums(n, f));
    SumSwap(n, n, f);
    forall j | 0 <= j < n ensures ColumnSums(n, f)(j) == if j == k then Scale(x[k], n as real) else ZERO {
      InversionColumn(e, x, d, j);
    }
    SumOne(n, k, ColumnSums(n, f));
  }

  lemma RealFactor(x: C, k: real)
    ensures Mul(x, C(k, 0.0)) == Scale(x, k) && Mul(x, ZERO) == ZERO
  {
  }

  lemma ResidueUnique(d: int, j: int, n: int)
    requires n >= 1 && 0 <= j < n
    ensures (d - j) % n == 0 <==> j == d % n
  {
    if (d - j) % n == 0 {
      Signals.DivUnique(d, n, (d - j) / n, j);
    }
    if j == d % n {
      Signals.DivUnique(d - j, n, d / n, 0);
    }
  }

  /** The cyclic convolution of two sequences of the same length. */
  ghost function ConvolutionTerms(a: seq<C>, b: seq<C>, k: int): int -> C
    requires |b| >= 1
  {
    j => Mul(At(a, j), At(b, (k - j) % |b|))
  }

  ghost function Convolution(a: seq<C>, b: seq<C>, k: int): C
    requires |b| >= 1
  {
    CSum(|a|, ConvolutionTerms(a, b, k))
  }

  function Pointwise(a: seq<C>, b: seq<C>): (c: seq<C>)
    requires |a| == |b|
    ensures |c| == |a| && forall i :: 0 <= i < |a| ==> c[i] == Mul(a[i], b[i])
  {
    seq(|a|, i requires 0 <= i < |a| => Mul(a[i], b[i]))
  }

  ghost function ConvolutionTable(e: Roots, a: seq<C>, yb: seq<C>, k: int): (int, int) -> C {
    (t, j) => Mul(At(a, j), Mul(At(yb, t), e(|a|, t * (k - j))))
  }

  lemma ConvolutionRow(e: Roots, a: seq<C>, yb: seq<C>, k: int, t: nat)
    requires RootLaws(e) && |a| == |yb| && t < |a|
    ensures Mul(Mul(DftAt(e, a, t), yb[t]), e(|a|, t * k)) == RowSums(|a|, ConvolutionTable(e, a, yb, k))(t)
  {
    hide Mul, RootLaws;
    var n := |a|;
    var inner, c, row := Terms(e, a, t), Mul(yb[t], e(n, t * k)), RowOf(ConvolutionTable(e, a, yb, k), t);
    MulAssoc(CSum(n, inner), yb[t], e(n, t * k));
    MulComm(CSum(n, inner), c);
    SumMul(n, c, inner);
    forall j | 0 <= j < n ensures Mul(c, inner(j)) == row(j) {
      ConvolutionTerm(e, n, At(a, j), yb[t], t, k, j);
    }
    SumEq(n, i => Mul(c, inner(i)), row);
  }

  lemma ConvolutionColumn(e: Roots, a: seq<C>, b: seq<C>, k: int, j: nat)
    requires RootLaws(e) && |a| == |b| && j < |a|
    ensures ColumnSums(|a|, ConvolutionTable(e, a, Transform(e, b), k))(j) ==
      Scale(ConvolutionTerms(a, b, k)(j), |a| as real)
  {
    hide Mul, RootLaws, DftAt;
    var n, undo := |a|, InverseTerms(e, Transform(e, b), k - j);
    var column := ColumnOf(ConvolutionTable(e, a, Transform(e, b), k), j);
    SumMul(n, a[j], undo);
    SumEq(n, column, t => Mul(a[j], undo(t)));
    Inversion(e, b, k - j);
    ScaleMul(a[j], b[(k - j) % n], n as real);
  }

  /** The convolution theorem: undoing the product of two transforms gives n times the cyclic convolution. */
  lemma ConvolutionTheorem(e: Roots, a: seq<C>, b: seq<C>, k: int)
    requires RootLaws(e) && |a| == |b| >= 1
    ensures InverseAt(e, Pointwise(Transform(e, a), Transform(e, b)), k) == Scale(Convolution(a, b, k), |a| as real)
  {
    hide Mul, RootLaws, DftAt, ConvolutionTable, ConvolutionTerms;
    var n, yb := |a|, Transform(e, b);
    var y := Pointwise(Transform(e, a), yb);
    var f := ConvolutionTable(e, a, yb, k);
    forall t | 0 <= t < n ensures InverseTerms(e, y, k)(t) == RowSums(n, f)(t) {
      ConvolutionRow(e, a, yb, k, t);
    }
    SumEq(n, InverseTerms(e, y, k), RowSums(n, f));
    SumSwap(n, n, f);
    forall j | 0 <= j < n ensures ColumnSums(n, f)(j) == Scale(ConvolutionTerms(a, b, k)(j), n as real) {
      ConvolutionColumn(e, a, b, k, j);
    }
    SumScale(n, n as real, ConvolutionTerms(a, b, k));
    SumEq(n, ColumnSums(n, f), i => Scale(ConvolutionTerms(a, b, k)(i), n as real));
  }

  lemma ConvolutionTerm(e: Roots, n: int, x: C, y: C, t: int, k: int, j: int)
    requires RootLaws(e) && n >= 1
    ensures Mul(Mul(y, e(n, t * k)), Mul(x, e(n, -(j * t)))) == Mul(x, Mul(y, e(n, t * (k - j))))
  {
    hide Mul, RootLaws;
    assert t * (k - j) == t * k + -(j * t);
    RootAdd(e, n, t * k, -(j * t));
    var u, v := e(n, t * k), e(n, -(j * t));
    MulComm(Mul(y, u), Mul(x, v));
    MulAssoc(x, v, Mul(y, u));
    MulComm(v, Mul(y, u));
    MulAssoc(y, u, v);
  }

  /** Divided by the number of points of the convolution. */
  function Share(z: C, n: nat): C
    requires n >= 1
  {
    Scale(z, 1.0 / n as real)
  }

  lemma Unscale(z: C, n: nat)
    requires n >= 1
    ensures Scale(Share(z, n), n as real) == z
  {
    UnscaleReal(z.re, n as real);
    UnscaleReal(z.im, n as real);
  }

  lemma UnscaleReal(a: real, n: real)
    requires n != 0.0
    ensures (a * (1.0 / n)) * n == a
  {
    assert (1.0 / n) * n == 1.0;
    assert (a * (1.0 / n)) * n == a * ((1.0 / n) * n);
  }
}
