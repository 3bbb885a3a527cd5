/** Bluestein's algorithm on sequences: a transform of n points as a cyclic convolution of nb >= 2n - 1 points. */
module BluesteinSteps {
  import opened Complex
  import opened Dft
  import Signals

  /** Exchanging the real and imaginary parts. */
  function Swap(z: C): C {
    C(z.im, z.re)
  }

  /** The chirp: element k is the 2n-th root at angle k². */
  ghost predicate IsChirp(e: Roots, w: seq<C>) {
    forall k :: 0 <= k < |w| ==> w[k] == e(2 * |w|, k * k)
  }

  /** The kernel of the convolution, scaled by 1/nb: the chirp, and its mirror image at the far end. */
  ghost predicate IsKernel(w: seq<C>, kernel: seq<C>) {
    |w| >= 1 && |kernel| >= 2 * |w| - 1
    && (forall i :: 0 <= i < |w| ==> kernel[i] == Share(w[i], |kernel|))
    && (forall d :: 1 <= d < |w| ==> kernel[|kernel| - d] == Share(w[d], |kernel|))
    && (forall i :: |w| <= i <= |kernel| - |w| ==> kernel[i] == ZERO)
  }

  /** The input times the conjugate chirp, padded with zeros. */
  ghost predicate IsChirped(x: seq<C>, w: seq<C>, b: seq<C>) {
    |x| == |w| <= |b| && forall i :: 0 <= i < |b| ==> b[i] == if i < |w| then Mul(x[i], Conj(w[i])) else ZERO
  }

  ghost predicate IsSwapped(p: seq<C>, b: seq<C>) {
    |p| == |b| && forall i :: 0 <= i < |b| ==> b[i] == Swap(p[i])
  }

  lemma SwapMul(z: C, u: C)
    ensures Swap(Mul(z, u)) == Mul(Swap(z), Conj(u)) && Swap(Swap(z)) == z
  {
  }

  lemma {:induction false} SumSwapParts(n: nat, f: int -> C)
    ensures Swap(CSum(n, f)) == CSum(n, i => Swap(f(i)))
  {
    if n > 0 { SumSwapParts(n - 1, f); }
  }

  lemma SwapTerm(e: Roots, n: int, z: C, t: int, k: int)
    requires RootLaws(e) && n >= 1
    ensures Swap(Mul(Swap(z), e(n, -(t * k)))) == Mul(z, e(n, t * k))
  {
    hide RootLaws, Mul;
    SwapMul(Swap(z), e(n, -(t * k)));
    RootConj(e, n, -(t * k));
    assert -(-(t * k)) == t * k;
  }

  /** A forward transform of swapped data is the swapped inverse transform. */
  lemma SwappedTransform(e: Roots, p: seq<C>, b: seq<C>, k: int)
    requires RootLaws(e) && |p| >= 1 && IsSwapped(p, b)
    ensures Swap(DftAt(e, b, k)) == InverseAt(e, p, k)
  {
    hide RootLaws, Mul;
    var n := |p|;
    SumSwapParts(n, Terms(e, b, k));
    forall t | 0 <= t < n ensures Swap(Terms(e, b, k)(t)) == InverseTerms(e, p, k)(t) {
      SwapTerm(e, n, p[t], t, k);
    }
    SumEq(n, i => Swap(Terms(e, b, k)(i)), InverseTerms(e, p, k));
  }

  lemma WrappedDistance(k: nat, j: nat, nb: nat)
    requires k < nb && j < nb
    ensures (k - j) % nb == if k >= j then k - j else nb - (j - k)
  {
    if k >= j {
      Signals.DivUnique(k - j, nb, 0, k - j);
    } else {
      Signals.DivUnique(k - j, nb, -1, nb - (j - k));
    }
  }

  function Distance(k: nat, j: nat): (d: nat)
    ensures d <= k || d <= j
  {
    if k >= j then k - j else j - k
  }

  lemma KernelIndex(w: seq<C>, kernel: seq<C>, k: nat, j: nat)
    requires IsKernel(w, kernel) && k < |w| && j < |w|
    ensures kernel[(k - j) % |kernel|] == Share(w[Distance(k, j)], |kernel|)
  {
    hide Share;
    var nb := |kernel|;
    WrappedDistance(k, j, nb);
  }

  lemma ChirpIndex(e: Roots, w: seq<C>, k: nat, j: nat)
    requires IsChirp(e, w) && k < |w| && j < |w|
    ensures w[Distance(k, j)] == e(2 * |w|, (k - j) * (k - j))
  {
    assert (k - j) * (k - j) == (j - k) * (j - k);
  }

  /** Because nb >= 2n - 1 the wrapped kernel never meets itself: at (k - j) mod nb it is the chirp at |k - j|. */
  lemma KernelAt(e: Roots, w: seq<C>, kernel: seq<C>, k: nat, j: nat)
    requires IsChirp(e, w) && IsKernel(w, kernel) && k < |w| && j < |w|
    ensures Scale(kernel[(k - j) % |kernel|], |kernel| as real) == e(2 * |w|, (k - j) * (k - j))
  {
    hide Scale, Share, IsChirp, Distance;
    KernelIndex(w, kernel, k, j);
    ChirpIndex(e, w, k, j);
    Unscale(w[Distance(k, j)], |kernel|);
  }

  /** The three chirps leave the root of the transform. */
  lemma ChirpRoots(e: Roots, n: nat, j: nat, k: nat)
    requires RootLaws(e) && n >= 1
    ensures Mul(Mul(Conj(e(2 * n, j * j)), e(2 * n, (k - j) * (k - j))), Conj(e(2 * n, k * k))) == e(n, -(j * k))
  {
    hide RootLaws, Mul;
    RootConj(e, 2 * n, j * j);
    RootConj(e, 2 * n, k * k);
    RootAdd(e, 2 * n, -(j * j), (k - j) * (k - j));
    RootAdd(e, 2 * n, -(j * j) + (k - j) * (k - j), -(k * k));
    assert -(j * j) + (k - j) * (k - j) + -(k * k) == (-(j * k)) * 2;
    assert n * 2 == 2 * n;
    RootScale(e, n, 2, -(j * k));
  }

  /** One term of the convolution, with the output chirp, is one term of the transform. */
  lemma ChirpTerm(e: Roots, x: seq<C>, w: seq<C>, b: seq<C>, kernel: seq<C>, k: nat, j: nat)
    requires RootLaws(e) && |w| >= 1 && IsChirp(e, w) && IsKernel(w, kernel) && IsChirped(x, w, b) && |b| == |kernel|
    requires k < |w| && j < |w|
    ensures Mul(Conj(w[k]), Scale(ConvolutionTerms(b, kernel, k)(j), |kernel| as real)) == Terms(e, x, k)(j)
  {
    hide RootLaws, Mul, Scale, IsKernel;
    var nb, n := |kernel|, |w|;
    var chirp, far, near := Conj(w[j]), e(2 * n, (k - j) * (k - j)), Conj(w[k]);
    ScaleMul(Mul(x[j], chirp), kernel[(k - j) % nb], nb as real);
    KernelAt(e, w, kernel, k, j);
    MulComm(near, Mul(Mul(x[j], chirp), far));
    MulAssoc(x[j], chirp, far);
    MulAssoc(x[j], Mul(chirp, far), near);
    ChirpRoots(e, n, j, k);
  }

  /** A sum whose last terms are zero. */
  lemma {:induction false} SumPadded(n: nat, m: nat, f: int -> C)
    requires n <= m && forall i :: n <= i < m ==> f(i) == ZERO
    ensures CSum(m, f) == CSum(n, f)
  {
    if n < m {
      SumPadded(n, m - 1, f);
      assert CSum(m - 1, f) == C(CSum(m - 1, f).re, CSum(m - 1, f).im);
    }
  }

  /** The whole computation of one output. */
  lemma BluesteinOutput(e: Roots, x: seq<C>, w: seq<C>, b: seq<C>, kernel: seq<C>, swapped: seq<C>, k: nat)
    requires RootLaws(e) && k < |w| && IsChirp(e, w) && IsKernel(w, kernel) && IsChirped(x, w, b) && |b| == |kernel|
    requires IsSwapped(Pointwise(Transform(e, b), Transform(e, kernel)), swapped)
    ensures Mul(Swap(DftAt(e, swapped, k)), Conj(w[k])) == DftAt(e, x, k)
  {
    hide RootLaws, Mul, Scale, IsKernel, IsChirp, DftAt;
    var nb, n := |b|, |w|;
    assert nb >= 1 by { KernelLength(w, kernel); }
    var p := Pointwise(Transform(e, b), Transform(e, kernel));
    SwappedTransform(e, p, swapped, k);
    ConvolutionTheorem(e, b, kernel, k);
    var terms := ConvolutionTerms(b, kernel, k);
    ConvolutionSum(b, kernel, k, n);
    MulComm(Scale(CSum(n, terms), nb as real), Conj(w[k]));
    ScaleMul(Conj(w[k]), CSum(n, terms), nb as real);
    SumScale(n, nb as real, terms);
    SumMul(n, Conj(w[k]), i => Scale(terms(i), nb as real));
    forall j | 0 <= j < n ensures Mul(Conj(w[k]), Scale(terms(j), nb as real)) == Terms(e, x, k)(j) {
      ChirpTerm(e, x, w, b, kernel, k, j);
    }
    var scaled := i => Scale(terms(i), nb as real);
    SumEq(n, i => Mul(Conj(w[k]), scaled(i)), Terms(e, x, k));
    SumMul(n, Conj(w[k]), scaled);
    TransformSum(e, x, k);
  }

  lemma TransformSum(e: Roots, x: seq<C>, k: int)
    ensures DftAt(e, x, k) == CSum(|x|, Terms(e, x, k))
  {
  }

  lemma KernelLength(w: seq<C>, kernel: seq<C>)
    requires IsKernel(w, kernel)
    ensures |kernel| >= |w| >= 1
  {
  }

  lemma ConvolutionSum(b: seq<C>, kernel: seq<C>, k: int, n: nat)
    requires |b| == |kernel| >= 1 && n <= |b| && forall i :: n <= i < |b| ==> b[i] == ZERO
    ensures Convolution(b, kernel, k) == CSum(n, ConvolutionTerms(b, kernel, k))
  {
    hide Mul;
    var terms := ConvolutionTerms(b, kernel, k);
    forall i | n <= i < |b| ensures terms(i) == ZERO {
      ZeroMul(At(kernel, (k - i) % |kernel|));
    }
    SumPadded(n, |b|, terms);
  }

  lemma ZeroMul(x: C)
    ensures Mul(ZERO, x) == ZERO
  {
  }
}
