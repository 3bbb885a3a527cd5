/** Plan trees: each solver runs its child plans in turn, and every tree computes the naive transform. */
module Plans {
  import opened Complex
  import opened Dft
  import opened Views
  import opened CooleyTukeySteps
  import opened BluesteinSteps
  import opened RaderSteps

  datatype Plan =
    | Direct(n: nat)
    | Dit(r: nat, m: nat, cld: Plan, cldws: seq<Part>)
    | Dif(r: nat, m: nat, cldws: seq<Part>, cld: Plan)
    | Bluestein(n: nat, nb: nat, cldf: Plan)
    | Rader(n: nat, g: nat, ginv: nat, cld1: Plan, cld2: Plan, cldOmega: Plan)

  /** A twiddle step for the columns from mb to me. There is one for all columns, or one for each thread. */
  datatype Part = Part(mb: nat, me: nat, cldw: Plan)

  function Ranges(parts: seq<Part>): (r: seq<Range>)
    ensures |r| == |parts|
  {
    seq(|parts|, i requires 0 <= i < |parts| => (parts[i].mb, parts[i].me))
  }

  function Size(p: Plan): nat {
    match p
    case Direct(n) => n
    case Dit(r, m, _, _) => r * m
    case Dif(r, m, _, _) => r * m
    case Bluestein(n, _, _) => n
    case Rader(n, _, _, _, _, _) => n
  }

  /** The sizes of the children fit, and the numbers the planner chose are what they should be. */
  ghost predicate WellFormed(p: Plan) {
    match p
    case Direct(n) => true
    case Dit(r, m, cld, cldws) =>
      && r >= 1 && m >= 1 && WellFormed(cld) && Size(cld) == m && Divide(Ranges(cldws), m)
      && forall i :: 0 <= i < |cldws| ==> WellFormed(cldws[i].cldw) && Size(cldws[i].cldw) == r
    case Dif(r, m, cldws, cld) =>
      && r >= 1 && m >= 1 && WellFormed(cld) && Size(cld) == m && Divide(Ranges(cldws), m)
      && forall i :: 0 <= i < |cldws| ==> WellFormed(cldws[i].cldw) && Size(cldws[i].cldw) == r
    case Bluestein(n, nb, cldf) =>
      n >= 1 && nb >= 2 * n - 1 && WellFormed(cldf) && Size(cldf) == nb
    case Rader(n, g, ginv, cld1, cld2, cldOmega) =>
      && n >= 2 && IsGenerator(g, n) && AreInverse(g, ginv, n)
      && WellFormed(cld1) && WellFormed(cld2) && WellFormed(cldOmega)
      && Size(cld1) == Size(cld2) == Size(cldOmega) == n - 1
  }

  /** Children of the right sizes. */
  ghost predicate Children(r: nat, m: nat, cld: Plan, cldws: seq<Part>) {
    && r >= 1 && m >= 1 && WellFormed(cld) && Size(cld) == m
    && forall i :: 0 <= i < |cldws| ==> WellFormed(cldws[i].cldw) && Size(cldws[i].cldw) == r
  }

  /** What ct.c plans, one step for all columns, and what the threaded planner plans, is well formed. */
  lemma PlannedSteps(r: nat, m: nat, cld: Plan, cldws: seq<Part>, nthr: nat)
    requires Children(r, m, cld, cldws) && nthr >= 1
    requires Ranges(cldws) == ThreadRanges(m, nthr) || Ranges(cldws) == [(0, m)]
    ensures WellFormed(Dit(r, m, cld, cldws)) && WellFormed(Dif(r, m, cldws, cld))
  {
    hide ThreadRanges;
    if Ranges(cldws) == [(0, m)] {
      forall i: nat | i < m ensures InRanges([(0, m)], i) { assert [(0, m)][0] == (0, m); }
    } else {
      ThreadRangesDivide(m, nthr);
    }
  }

  /** Trees of each kind: any leaf, Cooley-Tukey steps over leaves, Bluestein for 3 points, Rader for 3. */
  lemma SomeTrees(r: nat, m: nat, n: nat)
    requires r >= 1 && m >= 1
    ensures WellFormed(Direct(n))
    ensures WellFormed(Dit(r, m, Direct(m), [Part(0, m, Direct(r))]))
    ensures WellFormed(Dif(r, m, [Part(0, m, Direct(r))], Direct(m)))
    ensures WellFormed(Bluestein(3, 5, Direct(5))) && WellFormed(Rader(3, 2, 2, Direct(2), Direct(2), Direct(2)))
  {
    var parts := [Part(0, m, Direct(r))];
    assert Ranges(parts) == [(0, m)];
    PlannedSteps(r, m, Direct(m), parts, 1);
    TwoGenerates();
  }

  lemma TwoGenerates()
    ensures IsGenerator(2, 3) && AreInverse(2, 2, 3)
  {
    assert PowMod(2, 0, 3) == 1 && PowMod(2, 1, 3) == 2 && PowMod(2, 2, 3) == 1;
  }

  /** The elements of the array outside the view are as they were. */
  twostate predicate Untouched(v: View)
    reads v.a
  {
    forall i :: 0 <= i < v.a.Length && i !in v.idx ==> v.a[i] == old(v.a[i])
  }

  /** Nothing in the array of `v` has changed but what `v` and `w` show. */
  twostate predicate Within(v: View, w: View)
    reads v.a
  {
    forall i :: 0 <= i < v.a.Length && i !in v.idx && (w.a != v.a || i !in w.idx) ==> v.a[i] == old(v.a[i])
  }

  /**
   * A plan turns the input at `x` into its naive transform at `y`, which may be the same place or overlap it. The
   * input may be destroyed, as decimation in frequency does, but nothing else is.
   */
  method Apply(e: Roots, p: Plan, x: View, y: View)
    requires RootLaws(e) && WellFormed(p) && Ok(x) && Ok(y) && |x.idx| == |y.idx| == Size(p)
    modifies x.a, y.a
    ensures Elems(y) == Transform(e, old(Elems(x)))
    ensures Within(x, y) && Within(y, x)
    decreases p, 2
  {
    match p
    case Direct(_) => ApplyDirect(e, x, y);
    case Dit(_, _, _, _) => ApplyDit(e, p, x, y);
    case Dif(_, _, _, _) => ApplyDif(e, p, x, y);
    case Bluestein(_, _, _) =>
      var w, W;
      ghost var kernel;
      w, W, kernel := AwakeBluestein(e, p);
      ApplyBluestein(e, p, w, W, kernel, x, y);
    case Rader(_, _, _, _, _, _) =>
      var omega;
      ghost var t;
      omega, t := MkOmega(e, p);
      ApplyRader(e, p, omega, t, x, y);
  }

  /** The elements that `n` strides from an offset on reach. */
  function Gather(a: seq<C>, off: int, stride: int, n: nat): (x: seq<C>)
    requires forall t :: 0 <= t < n ==> 0 <= Address(off, stride, t) < |a|
    ensures |x| == n && forall t :: 0 <= t < n ==> x[t] == a[Address(off, stride, t)]
  {
    seq(n, t requires 0 <= t < n => a[Address(off, stride, t)])
  }

  lemma GatherAt(a: seq<C>, off: int, stride: int, n: nat, t: nat)
    requires t < n && forall t :: 0 <= t < n ==> 0 <= Address(off, stride, t) < |a|
    ensures 0 <= off + t * stride < |a| && Gather(a, off, stride, n)[t] == a[off + t * stride]
  {
    assert Address(off, stride, t) == off + t * stride;
  }

  /** A whole problem: `Size(p)` elements from an offset on, so many strides apart, in and out. */
  method ApplyStrided(e: Roots, p: Plan, ri: array<C>, ioff: int, istride: int, ro: array<C>, ooff: int, ostride: int)
    requires RootLaws(e) && WellFormed(p) && (Size(p) <= 1 || (istride != 0 && ostride != 0))
    requires forall t :: 0 <= t < Size(p) ==> 0 <= Address(ioff, istride, t) < ri.Length
    requires forall t :: 0 <= t < Size(p) ==> 0 <= Address(ooff, ostride, t) < ro.Length
    modifies ri, ro
    ensures Gather(ro[..], ooff, ostride, Size(p)) == Transform(e, old(Gather(ri[..], ioff, istride, Size(p))))
    ensures forall i ::
      && 0 <= i < ro.Length && (forall t :: 0 <= t < Size(p) ==> i != Address(ooff, ostride, t))
      && (ri != ro || forall t :: 0 <= t < Size(p) ==> i != Address(ioff, istride, t))
      ==> ro[i] == old(ro[i])
  {
    hide Address, Transform, RootLaws, WellFormed;
    var n := Size(p);
    var x, y := Strided(ri, ioff, istride, n), Strided(ro, ooff, ostride, n);
    StridedOk(ri, ioff, istride, n);
    StridedOk(ro, ooff, ostride, n);
    assert Elems(x) == Gather(ri[..], ioff, istride, n);
    Apply(e, p, x, y);
    assert Elems(y) == Gather(ro[..], ooff, ostride, n);
    forall i | i in x.idx ensures !(forall t :: 0 <= t < n ==> i != Address(ioff, istride, t)) {
      var t :| 0 <= t < n && x.idx[t] == i;
    }
    forall i | i in y.idx ensures !(forall t :: 0 <= t < n ==> i != Address(ooff, ostride, t)) {
      var t :| 0 <= t < n && y.idx[t] == i;
    }
  }

  /** A whole array in place. */
  method ApplyWhole(e: Roots, p: Plan, b: array<C>)
    requires RootLaws(e) && WellFormed(p) && b.Length == Size(p)
    modifies b
    ensures b[..] == Transform(e, old(b[..]))
    decreases p, 3
  {
    hide RootLaws, Transform;
    assert Elems(Whole(b)) == b[..];
    Apply(e, p, Whole(b), Whole(b));
    assert Elems(Whole(b)) == b[..];
  }

  /** A leaf: the sums themselves, all of them taken before any is written. */
  method ApplyDirect(e: Roots, x: View, y: View)
    requires Ok(x) && Ok(y) && |x.idx| == |y.idx|
    modifies y.a
    ensures Elems(y) == Transform(e, old(Elems(x))) && Untouched(y)
  {
    hide Transform, Steps;
    ghost var x0 := Elems(x);
    var out := Sums(e, x);
    ghost var sums := out[..];
    assert sums == Transform(e, x0);
    for k := 0 to |y.idx|
      modifies y.a
      invariant Untouched(y)
      invariant forall i :: 0 <= i < k ==> y.a[y.idx[i]] == sums[i]
    {
      y.a[y.idx[k]] := out[k];
    }
    assert Elems(y) == sums;
  }

  method Sums(e: Roots, x: View) returns (out: array<C>)
    requires Ok(x)
    ensures fresh(out) && out.Length == |x.idx| && out[..] == Transform(e, Elems(x))
  {
    hide Mul, Add, Steps;
    var n := |x.idx|;
    ghost var x0 := Elems(x);
    out := new C[n](_ => ZERO);
    for k := 0 to n
      modifies out
      invariant forall i :: 0 <= i < k ==> out[i] == DftAt(e, x0, i)
    {
      var sum := ZERO;
      for j := 0 to n
        modifies {}
        invariant sum == CSum(j, Terms(e, x0, k))
      {
        assert x.a[x.idx[j]] == At(x0, j);
        sum := Add(sum, Mul(x.a[x.idx[j]], e(n, -(j * k))));
      }
      out[k] := sum;
    }
  }

  /** Children that would write over what they still have to read get their input from a buffer. */
  method Buffered(x: View, y: View) returns (from: View)
    requires Ok(x)
    ensures Ok(from) && |from.idx| == |x.idx| && Elems(from) == Elems(x)
    ensures from.a != y.a && if x.a == y.a then fresh(from.a) else from == x
  {
    from := x;
    if x.a == y.a {
      var copy := new C[|x.idx|](t requires 0 <= t < |x.idx| && Ok(x) reads x.a => x.a[x.idx[t]]);
      from := Whole(copy);
      assert Elems(from) == Elems(x);
    }
  }

  /** One transform of a vector: the others are left alone. */
  method ApplyOne(e: Roots, p: Plan, vs: seq<View>, k: nat, a: array<C>)
    requires RootLaws(e) && WellFormed(p) && Apart(vs, a, Size(p)) && k < |vs|
    modifies a
    ensures Elems(vs[k]) == Transform(e, old(Elems(vs[k]))) && Untouched(vs[k])
    ensures forall j :: 0 <= j < |vs| && j != k ==> Elems(vs[j]) == old(Elems(vs[j]))
    decreases p, 3
  {
    hide RootLaws, Transform, Steps, WellFormed;
    Apply(e, p, vs[k], vs[k]);
    forall j | 0 <= j < |vs| && j != k ensures Elems(vs[j]) == old(Elems(vs[j])) {
      ApartNotIn(vs, a, Size(p), j, k);
    }
  }

  /** The same from one vector to another. */
  method ApplyAcross(e: Roots, p: Plan, xs: seq<View>, ys: seq<View>, k: nat, xa: array<C>, ya: array<C>)
    requires RootLaws(e) && WellFormed(p) && xa != ya && k < |xs| == |ys|
    requires Apart(xs, xa, Size(p)) && Apart(ys, ya, Size(p))
    modifies xa, ya
    ensures Elems(ys[k]) == Transform(e, old(Elems(xs[k]))) && Untouched(xs[k]) && Untouched(ys[k])
    ensures forall j :: 0 <= j < |xs| && j != k ==>
      Elems(xs[j]) == old(Elems(xs[j])) && Elems(ys[j]) == old(Elems(ys[j]))
    decreases p, 3
  {
    hide RootLaws, Transform, Steps, WellFormed;
    Apply(e, p, xs[k], ys[k]);
    forall j | 0 <= j < |xs| && j != k
      ensures Elems(xs[j]) == old(Elems(xs[j])) && Elems(ys[j]) == old(Elems(ys[j]))
    {
      ApartNotIn(xs, xa, Size(p), j, k);
      ApartNotIn(ys, ya, Size(p), j, k);
    }
  }

  lemma ApartNotIn(vs: seq<View>, a: array<C>, n: nat, j: nat, k: nat)
    requires Apart(vs, a, n) && j < |vs| && k < |vs| && j != k
    ensures forall i :: 0 <= i < n ==> vs[j].idx[i] !in vs[k].idx
  {
    assert Disjoint(vs[if j < k then j else k], vs[if j < k then k else j]);
  }

  /** A vector of transforms, one after the other. */
  method Batch(e: Roots, p: Plan, xs: seq<View>, ys: seq<View>, xa: array<C>, ya: array<C>)
    requires RootLaws(e) && WellFormed(p) && xa != ya
    requires |xs| == |ys| && Apart(xs, xa, Size(p)) && Apart(ys, ya, Size(p))
    modifies xa, ya
    ensures forall k :: 0 <= k < |ys| ==> Elems(ys[k]) == Transform(e, old(Elems(xs[k])))
    ensures forall i :: 0 <= i < xa.Length && !Covered(xs, i) ==> xa[i] == old(xa[i])
    ensures forall i :: 0 <= i < ya.Length && !Covered(ys, i) ==> ya[i] == old(ya[i])
    decreases p, 4
  {
    hide RootLaws, Transform, Ok, Disjoint, WellFormed;
    AllOk(xs, xa, Size(p));
    AllOk(ys, ya, Size(p));
    for k := 0 to |xs|
      invariant forall j :: 0 <= j < k ==> Elems(ys[j]) == Transform(e, old(Elems(xs[j])))
      invariant forall j :: k <= j < |xs| ==> Elems(xs[j]) == old(Elems(xs[j]))
      invariant forall i :: 0 <= i < xa.Length && !Covered(xs, i) ==> xa[i] == old(xa[i])
      invariant forall i :: 0 <= i < ya.Length && !Covered(ys, i) ==> ya[i] == old(ya[i])
    {
      ApplyAcross(e, p, xs, ys, k, xa, ya);
    }
  }

  lemma AllOk(vs: seq<View>, a: array<C>, n: nat)
    requires Apart(vs, a, n)
    ensures forall p :: 0 <= p < |vs| ==> vs[p].a == a && forall t :: 0 <= t < |vs[p].idx| ==> vs[p].idx[t] < a.Length
  {
  }

  ghost function AllElems(vs: seq<View>, a: array<C>, n: nat): (xs: seq<seq<C>>)
    requires Apart(vs, a, n)
    reads a
    ensures |xs| == |vs| && forall i :: 0 <= i < |vs| ==> xs[i] == Elems(vs[i])
  {
    seq(|vs|, i requires 0 <= i < |vs| && Ok(vs[i]) && vs[i].a == a reads a => Elems(vs[i]))
  }

  method BatchInPlace(e: Roots, p: Plan, vs: seq<View>, a: array<C>)
    requires RootLaws(e) && WellFormed(p) && Apart(vs, a, Size(p))
    modifies a
    ensures forall k :: 0 <= k < |vs| ==> Elems(vs[k]) == Transform(e, old(Elems(vs[k])))
    ensures forall i :: 0 <= i < a.Length && !Covered(vs, i) ==> a[i] == old(a[i])
    decreases p, 4
  {
    hide RootLaws, Transform, Ok, Disjoint, WellFormed;
    AllOk(vs, a, Size(p));
    for k := 0 to |vs|
      invariant forall j :: 0 <= j < |vs| ==>
        Elems(vs[j]) == if j < k then Transform(e, old(Elems(vs[j]))) else old(Elems(vs[j]))
      invariant forall i :: 0 <= i < a.Length && !Covered(vs, i) ==> a[i] == old(a[i])
    {
      ApplyOne(e, p, vs, k, a);
    }
  }

  /** Some of the views that lie apart. */
  lemma PartApart(vs: seq<View>, a: array<C>, n: nat, mb: nat, me: nat)
    requires Apart(vs, a, n) && mb <= me <= |vs|
    ensures Apart(vs[mb..me], a, n)
    ensures forall i :: Covered(vs[mb..me], i) ==> Covered(vs, i)
    ensures forall k: nat, t: nat :: k < |vs| && !(mb <= k < me) && t < n ==> !Covered(vs[mb..me], vs[k].idx[t])
  {
    forall k: nat, t: nat | k < |vs| && !(mb <= k < me) && t < n ensures !Covered(vs[mb..me], vs[k].idx[t]) {
      forall j | 0 <= j < me - mb ensures vs[k].idx[t] !in vs[mb..me][j].idx {
        ApartNotIn(vs, a, n, k, mb + j);
      }
    }
    forall i | Covered(vs[mb..me], i) ensures Covered(vs, i) {
      var j :| 0 <= j < me - mb && i in vs[mb..me][j].idx;
      assert i in vs[mb + j].idx;
    }
  }

  /** The transforms from mb to me of a vector: the others are left alone. */
  method BatchPart(e: Roots, p: Plan, vs: seq<View>, a: array<C>, mb: nat, me: nat)
    requires RootLaws(e) && WellFormed(p) && Apart(vs, a, Size(p)) && mb <= me <= |vs|
    modifies a
    ensures forall k :: 0 <= k < |vs| ==>
      Elems(vs[k]) == if mb <= k < me then Transform(e, old(Elems(vs[k]))) else old(Elems(vs[k]))
    ensures forall i :: 0 <= i < a.Length && !Covered(vs, i) ==> a[i] == old(a[i])
    decreases p, 5
  {
    hide RootLaws, Transform, Views.Disjoint, WellFormed, Covered, Steps;
    AllOk(vs, a, Size(p));
    PartApart(vs, a, Size(p), mb, me);
    ghost var y := AllElems(vs, a, Size(p));
    BatchInPlace(e, p, vs[mb..me], a);
    forall k | 0 <= k < |vs| ensures Elems(vs[k]) == if mb <= k < me then Transform(e, y[k]) else y[k] {
      if mb <= k < me { assert vs[mb..me][k - mb] == vs[k]; }
    }
  }

  // ----- Cooley-Tukey (ct.c and dftw-generic.c)

  /** Row p of the table holds the roots at angles p·1 .. p·(m-1): there are no entries for column 0. */
  ghost predicate IsTwiddleTable(e: Roots, W: seq<C>, r: nat, m: nat) {
    m >= 1 && |W| == r * (m - 1) && TableUpTo(e, W, r * m, m - 1, r, 0)
  }

  /** The rows below p, and the first `k` of the `cnt` entries of row p, are filled in. */
  ghost predicate TableUpTo(e: Roots, W: seq<C>, n: nat, cnt: nat, p: nat, k: nat) {
    forall q: nat, i: nat :: i < cnt && (q < p || (q == p && i < k)) ==> At(W, Place(cnt, q, i)) == e(n, q * (i + 1))
  }

  lemma TableStep(e: Roots, W: seq<C>, n: nat, cnt: nat, p: nat, k: nat)
    requires k < cnt && |W| == Place(cnt, p, k) && TableUpTo(e, W, n, cnt, p, k)
    ensures TableUpTo(e, W + [e(n, p * (k + 1))], n, cnt, p, k + 1)
  {
    hide Place;
    forall q: nat, i: nat | i < cnt && (q < p || (q == p && i < k)) ensures Place(cnt, q, i) < |W| {
      PlaceOrder(cnt, q, i, p, k);
    }
  }

  lemma PlaceOrder(cnt: nat, q: nat, i: nat, p: nat, k: nat)
    requires i < cnt && (q < p || (q == p && i < k))
    ensures Place(cnt, q, i) < Place(cnt, p, k)
  {
    if q < p { InTableAt(cnt, p, q, i); }
  }

  lemma NextPlace(cnt: nat, p: nat, k: nat)
    ensures Place(cnt, p, k) + 1 == Place(cnt, p, k + 1) && Place(cnt, p, cnt) == Place(cnt, p + 1, 0)
    ensures Place(cnt, 0, 0) == 0 && Place(cnt, p, 0) == p * cnt
  {
  }

  method MkTwiddle(e: Roots, r: nat, m: nat) returns (W: seq<C>)
    requires m >= 1
    ensures IsTwiddleTable(e, W, r, m)
  {
    hide Place, TableUpTo;
    W := [];
    TableStart(e, W, r * m, m - 1, 0);
    for p := 0 to r
      invariant |W| == Place(m - 1, p, 0) && TableUpTo(e, W, r * m, m - 1, p, 0)
    {
      for k := 1 to m
        invariant |W| == Place(m - 1, p, k - 1) && TableUpTo(e, W, r * m, m - 1, p, k - 1)
      {
        TableStep(e, W, r * m, m - 1, p, k - 1);
        NextPlace(m - 1, p, k - 1);
        W := W + [e(r * m, p * k)];
      }
      NextPlace(m - 1, p, 0);
      TableStart(e, W, r * m, m - 1, p);
    }
    NextPlace(m - 1, r, 0);
  }

  /** An empty table has no rows, and a finished row is one row more. */
  lemma TableStart(e: Roots, W: seq<C>, n: nat, cnt: nat, p: nat)
    ensures |W| == 0 ==> Place(cnt, 0, 0) == 0 && TableUpTo(e, W, n, cnt, 0, 0)
    ensures TableUpTo(e, W, n, cnt, p, cnt) ==> TableUpTo(e, W, n, cnt, p + 1, 0)
  {
  }

  /** One element times the conjugate of a root. */
  method MultiplyConj(v: View, i: nat, w: C)
    requires Ok(v) && i < |v.idx|
    modifies v.a
    ensures Elems(v) == old(Elems(v))[i := Mul(old(Elems(v))[i], Conj(w))] && Untouched(v)
  {
    var z := v.a[v.idx[i]];
    ghost var x := Elems(v);
    v.a[v.idx[i]] := C(z.re * w.re + z.im * w.im, z.im * w.re - z.re * w.im);
    assert v.a[v.idx[i]] == Mul(z, Conj(w));
    assert Elems(v) == x[i := Mul(z, Conj(w))];
  }

  /**
   * Of the columns from mb to me, row p has been twiddled up to column k, and the rows above it; row 0 and column 0
   * need no factor.
   */
  ghost predicate PartTwiddled(e: Roots, y1: seq<C>, y: seq<C>, r: nat, m: nat, mb: nat, me: nat, p: nat, k: nat) {
    |y1| == |y| == r * m
    && forall q: nat, i: nat :: q < r && i < m ==>
         At(y, Place(m, q, i)) ==
         if mb <= i < me && (q < p || i == 0 || (q == p && i < k)) then Mul(At(y1, Place(m, q, i)), e(r * m, -(q * i)))
         else At(y1, Place(m, q, i))
  }

  lemma TwiddleStart(e: Roots, y1: seq<C>, r: nat, m: nat, mb: nat, me: nat)
    requires RootLaws(e) && r >= 1 && m >= 1 && |y1| == r * m
    ensures PartTwiddled(e, y1, y1, r, m, mb, me, 1, if mb == 0 then 1 else mb)
  {
    hide RootLaws, Mul, Place;
    RootUnit(e, r * m);
    forall q: nat, i: nat | q < r && i < m && (q == 0 || i == 0)
      ensures Mul(At(y1, Place(m, q, i)), e(r * m, -(q * i))) == At(y1, Place(m, q, i))
    {
      assert -(q * i) == 0;
      MulOne(At(y1, Place(m, q, i)));
    }
  }

  lemma TwiddleNext(e: Roots, y1: seq<C>, y: seq<C>, r: nat, m: nat, mb: nat, me: nat, p: nat, k: nat)
    requires PartTwiddled(e, y1, y, r, m, mb, me, p, k)
    requires 1 <= p < r && mb <= k < me <= m && 1 <= k && Place(m, p, k) < r * m
    ensures var t := Place(m, p, k);
      PartTwiddled(e, y1, y[t := Mul(y[t], e(r * m, -(p * k)))], r, m, mb, me, p, k + 1)
  {
    hide Mul, Place;
    forall q: nat, i: nat | q < r && i < m && Place(m, q, i) == Place(m, p, k) ensures q == p && i == k {
      PlaceInjective(m, q, i, p, k);
    }
  }

  /** The body of the vector loop of bytwiddle. */
  method TwiddleOne(e: Roots, W: seq<C>, v: View, r: nat, m: nat, mb: nat, me: nat)
    requires RootLaws(e) && r >= 1 && m >= 1 && Ok(v) && |v.idx| == r * m && IsTwiddleTable(e, W, r, m)
    requires mb <= me <= m
    modifies v.a
    ensures ColumnsBy(Twiddling(e, r, m), old(Elems(v)), Elems(v), r, m, mb, me) && Untouched(v)
  {
    hide RootLaws, Mul, Conj, Place, PartTwiddled, Twiddling, Steps;
    ghost var y1 := Elems(v);
    var first := if mb == 0 then 1 else mb;
    TwiddleStart(e, y1, r, m, mb, me);
    for p := 1 to r
      invariant Untouched(v) && PartTwiddled(e, y1, Elems(v), r, m, mb, me, p, first)
    {
      var k := first;
      while k < me
        invariant 1 <= k && mb <= k && Untouched(v) && PartTwiddled(e, y1, Elems(v), r, m, mb, me, p, k)
      {
        InTableAt(m, r, p, k);
        InTableAt(m - 1, r, p, k - 1);
        assert m * r == r * m && (m - 1) * r == r * (m - 1);
        RootConj(e, r * m, p * k);
        TwiddleNext(e, y1, Elems(v), r, m, mb, me, p, k);
        MultiplyConj(v, Place(m, p, k), W[Place(m - 1, p, k - 1)]);
        k := k + 1;
      }
      TwiddleRow(e, y1, Elems(v), r, m, mb, me, p, k);
    }
    TwiddleEnd(e, y1, Elems(v), r, m, mb, me);
  }

  lemma TwiddleRow(e: Roots, y1: seq<C>, y: seq<C>, r: nat, m: nat, mb: nat, me: nat, p: nat, k: nat)
    requires PartTwiddled(e, y1, y, r, m, mb, me, p, k) && k >= me
    ensures PartTwiddled(e, y1, y, r, m, mb, me, p + 1, if mb == 0 then 1 else mb)
  {
    hide Mul, Place;
  }

  lemma TwiddleEnd(e: Roots, y1: seq<C>, y: seq<C>, r: nat, m: nat, mb: nat, me: nat)
    requires PartTwiddled(e, y1, y, r, m, mb, me, if r >= 1 then r else 1, if mb == 0 then 1 else mb)
    ensures ColumnsBy(Twiddling(e, r, m), y1, y, r, m, mb, me)
  {
    hide Mul, Place;
    forall s: nat, k: nat | s < r && k < m && mb <= k < me
      ensures At(y, Place(m, s, k)) == At(Twiddling(e, r, m)(k, Every(y1, m, r, k)), s)
    {
      PlaceIs(m, s, k);
    }
  }

  /** One transform of a vector is twiddled: the others are left alone. */
  method TwiddleAt(e: Roots, W: seq<C>, vs: seq<View>, iv: nat, a: array<C>, r: nat, m: nat, mb: nat, me: nat)
    requires RootLaws(e) && r >= 1 && m >= 1 && Apart(vs, a, r * m) && IsTwiddleTable(e, W, r, m)
    requires mb <= me <= m && iv < |vs|
    modifies a
    ensures ColumnsBy(Twiddling(e, r, m), old(Elems(vs[iv])), Elems(vs[iv]), r, m, mb, me) && Untouched(vs[iv])
    ensures forall j :: 0 <= j < |vs| && j != iv ==> Elems(vs[j]) == old(Elems(vs[j]))
  {
    hide RootLaws, ColumnsBy, Twiddling, Steps, IsTwiddleTable;
    TwiddleOne(e, W, vs[iv], r, m, mb, me);
    forall j | 0 <= j < |vs| && j != iv ensures Elems(vs[j]) == old(Elems(vs[j])) {
      ApartNotIn(vs, a, r * m, j, iv);
    }
  }

  /** bytwiddle: each transform of a vector, in place on the columns from mb to me, skipping row 0 and column 0. */
  method ByTwiddle(e: Roots, W: seq<C>, vs: seq<View>, a: array<C>, r: nat, m: nat, mb: nat, me: nat)
    requires RootLaws(e) && r >= 1 && m >= 1 && Apart(vs, a, r * m) && IsTwiddleTable(e, W, r, m) && mb <= me <= m
    modifies a
    ensures forall i :: 0 <= i < |vs| ==>
      ColumnsBy(Twiddling(e, r, m), old(Elems(vs[i])), Elems(vs[i]), r, m, mb, me)
    ensures forall i :: 0 <= i < a.Length && !Covered(vs, i) ==> a[i] == old(a[i])
  {
    hide RootLaws, ColumnsBy, Twiddling, Ok, Views.Disjoint, IsTwiddleTable;
    AllOk(vs, a, r * m);
    for iv := 0 to |vs|
      invariant forall j :: 0 <= j < iv ==>
        ColumnsBy(Twiddling(e, r, m), old(Elems(vs[j])), Elems(vs[j]), r, m, mb, me)
      invariant forall j :: iv <= j < |vs| ==> Elems(vs[j]) == old(Elems(vs[j]))
      invariant forall i :: 0 <= i < a.Length && !Covered(vs, i) ==> a[i] == old(a[i])
    {
      TwiddleAt(e, W, vs, iv, a, r, m, mb, me);
    }
  }

  lemma ColumnElems(v: View, cnt: nat, len: nat, p: nat)
    requires Ok(v) && |v.idx| == cnt * len && p < cnt
    ensures Ok(Column(v, cnt, len, p)) && Elems(Column(v, cnt, len, p)) == Every(Elems(v), cnt, len, p)
  {
    ColumnsApart(v, cnt, len);
    assert Ok(Columns(v, cnt, len)[p]);
    forall q | 0 <= q < len ensures Elems(Column(v, cnt, len, p))[q] == At(Elems(v), q * cnt + p) {
      PlaceIs(cnt, q, p);
    }
  }

  lemma SegmentElems(v: View, cnt: nat, len: nat, p: nat)
    requires Ok(v) && |v.idx| == cnt * len && p < cnt
    ensures Ok(Segment(v, cnt, len, p)) && Elems(Segment(v, cnt, len, p)) == Slice(Elems(v), len, p)
  {
    SegmentsApart(v, cnt, len);
    assert Ok(Segments(v, cnt, len)[p]);
  }

  /** Where the transforms of the columns have gone to the rows. */
  lemma RowsHold(e: Roots, x0: seq<C>, y: View, r: nat, m: nat)
    requires Ok(y) && |x0| == |y.idx| == r * m
    requires forall p :: 0 <= p < r ==>
      Ok(Segments(y, r, m)[p]) && Elems(Segments(y, r, m)[p]) == Transform(e, Every(x0, r, m, p))
    ensures RowsFromColumns(e, x0, Elems(y), r, m)
  {
    hide DftAt, Place, Steps;
    forall p: nat, k: nat | p < r && k < m ensures At(Elems(y), Place(m, p, k)) == DftAt(e, Every(x0, r, m, p), k) {
      SegmentElems(y, r, m, p);
      assert Elems(Segments(y, r, m)[p])[k] == At(Elems(y), Place(m, p, k));
    }
  }

  /** Where the transforms of the rows have gone to the columns. */
  lemma ColumnsHold(e: Roots, x0: seq<C>, y: View, r: nat, m: nat)
    requires Ok(y) && |x0| == |y.idx| == r * m
    requires forall p :: 0 <= p < r ==>
      Ok(Columns(y, r, m)[p]) && Elems(Columns(y, r, m)[p]) == Transform(e, Slice(x0, m, p))
    ensures ColumnsFromRows(e, x0, Elems(y), r, m)
  {
    hide DftAt, Place, Steps;
    forall p: nat, s: nat | p < r && s < m ensures At(Elems(y), Place(r, s, p)) == DftAt(e, Slice(x0, m, p), s) {
      ColumnElems(y, r, m, p);
      PlaceIs(r, s, p);
      assert Elems(Columns(y, r, m)[p])[s] == At(Elems(y), s * r + p);
    }
  }

  /** Where the columns from mb to me have been replaced by their transforms. */
  lemma ColumnsReplaced(e: Roots, v0: seq<C>, v: View, r: nat, m: nat, mb: nat, me: nat)
    requires Ok(v) && |v0| == |v.idx| == m * r == r * m
    requires forall k: nat :: k < m ==>
      Elems(Columns(v, m, r)[k]) == if mb <= k < me then Transform(e, Every(v0, m, r, k)) else Every(v0, m, r, k)
    ensures ColumnsBy(Transforming(e), v0, Elems(v), r, m, mb, me)
  {
    hide DftAt, Place, Steps;
    forall s: nat, k: nat | s < r && k < m
      ensures At(Elems(v), Place(m, s, k)) ==
        if mb <= k < me then At(Transform(e, Every(v0, m, r, k)), s) else At(v0, Place(m, s, k))
    {
      ColumnElems(v, m, r, k);
      PlaceIs(m, s, k);
      assert Elems(Columns(v, m, r)[k])[s] == At(Elems(v), s * m + k);
    }
  }

  /** The child of decimation in time: the columns of the input become the rows of the output. */
  method ColumnsToRows(e: Roots, cld: Plan, x: View, y: View, r: nat, m: nat)
    requires RootLaws(e) && WellFormed(cld) && Size(cld) == m
    requires Ok(x) && Ok(y) && |x.idx| == |y.idx| == r * m && x.a != y.a
    modifies x.a, y.a
    ensures RowsFromColumns(e, old(Elems(x)), Elems(y), r, m) && Untouched(x) && Untouched(y)
    decreases cld, 5
  {
    hide RootLaws, Transform, RowsFromColumns, Steps, WellFormed;
    ghost var x0 := Elems(x);
    var xs, ys := Columns(x, r, m), Segments(y, r, m);
    ColumnsApart(x, r, m);
    SegmentsApart(y, r, m);
    forall p | 0 <= p < r ensures Elems(xs[p]) == Every(x0, r, m, p) { ColumnElems(x, r, m, p); }
    Batch(e, cld, xs, ys, x.a, y.a);
    RowsHold(e, x0, y, r, m);
  }

  /** The child of a twiddle step, on one transform: from column mb on, me - mb columns, in place. */
  method TransformOne(e: Roots, cldw: Plan, v: View, r: nat, m: nat, mb: nat, me: nat)
    requires RootLaws(e) && WellFormed(cldw) && Size(cldw) == r && Ok(v) && |v.idx| == r * m && mb <= me <= m
    modifies v.a
    ensures ColumnsBy(Transforming(e), old(Elems(v)), Elems(v), r, m, mb, me) && Untouched(v)
    decreases cldw, 6
  {
    hide RootLaws, Transform, ColumnsBy, Steps, WellFormed;
    ghost var v0 := Elems(v);
    assert m * r == r * m;
    var vs := Columns(v, m, r);
    ColumnsApart(v, m, r);
    forall k | 0 <= k < m ensures Elems(vs[k]) == Every(v0, m, r, k) { ColumnElems(v, m, r, k); }
    BatchPart(e, cldw, vs, v.a, mb, me);
    ColumnsReplaced(e, v0, v, r, m, mb, me);
  }

  method TransformAt(e: Roots, cldw: Plan, vs: seq<View>, iv: nat, a: array<C>, r: nat, m: nat, mb: nat, me: nat)
    requires RootLaws(e) && WellFormed(cldw) && Size(cldw) == r && Apart(vs, a, r * m) && mb <= me <= m && iv < |vs|
    modifies a
    ensures ColumnsBy(Transforming(e), old(Elems(vs[iv])), Elems(vs[iv]), r, m, mb, me) && Untouched(vs[iv])
    ensures forall j :: 0 <= j < |vs| && j != iv ==> Elems(vs[j]) == old(Elems(vs[j]))
    decreases cldw, 7
  {
    hide RootLaws, ColumnsBy, Transforming, Steps, WellFormed;
    TransformOne(e, cldw, vs[iv], r, m, mb, me);
    forall j | 0 <= j < |vs| && j != iv ensures Elems(vs[j]) == old(Elems(vs[j])) {
      ApartNotIn(vs, a, r * m, j, iv);
    }
  }

  /** The child of a twiddle step. */
  method TransformColumns(e: Roots, cldw: Plan, vs: seq<View>, a: array<C>, r: nat, m: nat, mb: nat, me: nat)
    requires RootLaws(e) && WellFormed(cldw) && Size(cldw) == r && Apart(vs, a, r * m) && mb <= me <= m
    modifies a
    ensures forall i :: 0 <= i < |vs| ==> ColumnsBy(Transforming(e), old(Elems(vs[i])), Elems(vs[i]), r, m, mb, me)
    ensures forall i :: 0 <= i < a.Length && !Covered(vs, i) ==> a[i] == old(a[i])
    decreases cldw, 8
  {
    hide RootLaws, ColumnsBy, Transforming, Ok, Views.Disjoint, WellFormed;
    AllOk(vs, a, r * m);
    for iv := 0 to |vs|
      invariant forall j :: 0 <= j < iv ==>
        ColumnsBy(Transforming(e), old(Elems(vs[j])), Elems(vs[j]), r, m, mb, me)
      invariant forall j :: iv <= j < |vs| ==> Elems(vs[j]) == old(Elems(vs[j]))
      invariant forall i :: 0 <= i < a.Length && !Covered(vs, i) ==> a[i] == old(a[i])
    {
      TransformAt(e, cldw, vs, iv, a, r, m, mb, me);
    }
  }

  /** apply_dit and apply_dif of dftw-generic.c, on a vector and for the columns from mb to me. */
  method ApplyDftw(e: Roots, W: seq<C>, cldw: Plan, dit: bool, vs: seq<View>, a: array<C>, r: nat, m: nat, mb: nat,
                   me: nat)
    requires RootLaws(e) && WellFormed(cldw) && Size(cldw) == r >= 1 && m >= 1 && IsTwiddleTable(e, W, r, m)
    requires Apart(vs, a, r * m) && mb <= me <= m
    modifies a
    ensures forall i :: 0 <= i < |vs| ==>
      ColumnsBy(DftwStep(e, r, m, dit), old(Elems(vs[i])), Elems(vs[i]), r, m, mb, me)
    ensures forall i :: 0 <= i < a.Length && !Covered(vs, i) ==> a[i] == old(a[i])
    decreases cldw, 9
  {
    hide RootLaws, ColumnsBy, Twiddling, Transforming, Then, Ok, Views.Disjoint, WellFormed, IsTwiddleTable;
    AllOk(vs, a, r * m);
    ghost var y := AllElems(vs, a, r * m);
    if dit {
      ByTwiddle(e, W, vs, a, r, m, mb, me);
    } else {
      TransformColumns(e, cldw, vs, a, r, m, mb, me);
    }
    ghost var z := AllElems(vs, a, r * m);
    if dit {
      TransformColumns(e, cldw, vs, a, r, m, mb, me);
    } else {
      ByTwiddle(e, W, vs, a, r, m, mb, me);
    }
    forall i | 0 <= i < |vs| ensures ColumnsBy(DftwStep(e, r, m, dit), y[i], Elems(vs[i]), r, m, mb, me) {
      DftwTwoSteps(e, dit, y[i], z[i], Elems(vs[i]), r, m, mb, me);
    }
  }

  lemma DftwTwoSteps(e: Roots, dit: bool, y: seq<C>, z: seq<C>, w: seq<C>, r: nat, m: nat, mb: nat, me: nat)
    requires if dit
             then ColumnsBy(Twiddling(e, r, m), y, z, r, m, mb, me) && ColumnsBy(Transforming(e), z, w, r, m, mb, me)
             else ColumnsBy(Transforming(e), y, z, r, m, mb, me) && ColumnsBy(Twiddling(e, r, m), z, w, r, m, mb, me)
    ensures ColumnsBy(DftwStep(e, r, m, dit), y, w, r, m, mb, me)
  {
    hide ColumnsBy, Mul, DftAt;
    if dit {
      ColumnsThen(Twiddling(e, r, m), Transforming(e), y, z, w, r, m, mb, me);
    } else {
      ColumnsThen(Transforming(e), Twiddling(e, r, m), y, z, w, r, m, mb, me);
    }
  }

  /** The twiddle steps of all parts, one after the other: threads run them in any order. */
  method ApplyParts(e: Roots, p: Plan, dit: bool, v: View)
    requires RootLaws(e) && WellFormed(p) && (p.Dit? || p.Dif?) && Ok(v) && |v.idx| == p.r * p.m
    modifies v.a
    ensures ColumnsBy(DftwStep(e, p.r, p.m, dit), old(Elems(v)), Elems(v), p.r, p.m, 0, p.m) && Untouched(v)
    decreases p, 0
  {
    hide RootLaws, ColumnsBy, DftwStep, InRanges, Steps;
    var W := MkTwiddle(e, p.r, p.m);
    ghost var f, y, ranges := DftwStep(e, p.r, p.m, dit), Elems(v), Ranges(p.cldws);
    assert ColumnsSoFar(f, y, y, p.r, p.m, ranges, 0) by { NoRange(ranges); }
    for i := 0 to |p.cldws|
      invariant Untouched(v) && ColumnsSoFar(f, y, Elems(v), p.r, p.m, ranges, i)
    {
      hide ColumnsSoFar;
      ghost var z := Elems(v);
      var part := p.cldws[i];
      assert [v][0] == v && ranges[i] == (part.mb, part.me);
      ApplyDftw(e, W, part.cldw, dit, [v], v.a, p.r, p.m, part.mb, part.me);
      NextRange(f, y, z, Elems(v), p.r, p.m, ranges, i);
    }
    AllRanges(f, y, Elems(v), p.r, p.m, ranges);
  }

  lemma NoRange(ranges: seq<Range>)
    ensures forall k :: !InRanges(ranges[..0], k)
  {
  }

  /** The child of decimation in frequency: the rows of the input become the columns of the output. */
  method RowsToColumns(e: Roots, cld: Plan, x: View, y: View, r: nat, m: nat)
    requires RootLaws(e) && WellFormed(cld) && Size(cld) == m
    requires Ok(x) && Ok(y) && |x.idx| == |y.idx| == r * m && x.a != y.a
    modifies x.a, y.a
    ensures ColumnsFromRows(e, old(Elems(x)), Elems(y), r, m) && Untouched(x) && Untouched(y)
    decreases cld, 5
  {
    hide RootLaws, Transform, ColumnsFromRows, Steps, WellFormed;
    ghost var x0 := Elems(x);
    var xs, ys := Segments(x, r, m), Columns(y, r, m);
    SegmentsApart(x, r, m);
    ColumnsApart(y, r, m);
    forall p | 0 <= p < r ensures Elems(xs[p]) == Slice(x0, m, p) { SegmentElems(x, r, m, p); }
    Batch(e, cld, xs, ys, x.a, y.a);
    ColumnsHold(e, x0, y, r, m);
  }

  /** apply_dit */
  method ApplyDit(e: Roots, p: Plan, x: View, y: View)
    requires RootLaws(e) && WellFormed(p) && p.Dit? && Ok(x) && Ok(y) && |x.idx| == |y.idx| == Size(p)
    modifies x.a, y.a
    ensures Elems(y) == Transform(e, old(Elems(x))) && Within(x, y) && Within(y, x)
    decreases p, 1
  {
    hide RootLaws, DftAt, RowsFromColumns, ColumnsBy, DftwStep;
    ghost var x0 := Elems(x);
    var from := Buffered(x, y);
    ColumnsToRows(e, p.cld, from, y, p.r, p.m);
    ghost var y1 := Elems(y);
    ApplyParts(e, p, true, y);
    DitIsTransform(e, x0, y1, Elems(y), p.r, p.m);
  }

  /** apply_dif: it overwrites its input. */
  method ApplyDif(e: Roots, p: Plan, x: View, y: View)
    requires RootLaws(e) && WellFormed(p) && p.Dif? && Ok(x) && Ok(y) && |x.idx| == |y.idx| == Size(p)
    modifies x.a, y.a
    ensures Elems(y) == Transform(e, old(Elems(x))) && Within(x, y) && Within(y, x)
    decreases p, 1
  {
    hide RootLaws, DftAt, ColumnsFromRows, ColumnsBy, DftwStep;
    ghost var x0 := Elems(x);
    ApplyParts(e, p, false, x);
    ghost var w := Elems(x);
    var from := Buffered(x, y);
    RowsToColumns(e, p.cld, from, y, p.r, p.m);
    DifIsTransform(e, x0, w, Elems(y), p.r, p.m);
  }

  // ----- Bluestein (bluestein.c)

  /** bluestein_sequence: the square of k, reduced modulo 2n without ever being formed. */
  method BluesteinSequence(e: Roots, n: nat) returns (w: array<C>)
    requires RootLaws(e) && n >= 1
    ensures fresh(w) && w.Length == n && IsChirp(e, w[..])
  {
    hide RootLaws;
    w := new C[n](_ => ZERO);
    var ksq, n2 := 0, 2 * n;
    CongruentIntro(0 * 0, 0, 0, n2);
    for k := 0 to n
      invariant 0 <= ksq <= n2 && Congruent(k * k, ksq, n2)
      invariant forall i :: 0 <= i < k ==> w[i] == e(n2, i * i)
    {
      hide Congruent;
      RootReduced(e, n2, k * k, ksq);
      w[k] := e(n2, ksq);
      NextSquare(k, ksq, n2);
      ksq := ksq + 2 * k + 1;
      while ksq > n2
        invariant 0 <= ksq && Congruent((k + 1) * (k + 1), ksq, n2)
        invariant forall i :: 0 <= i <= k ==> w[i] == e(n2, i * i)
      {
        TurnLess((k + 1) * (k + 1), ksq, n2);
        ksq := ksq - n2;
      }
    }
  }

  lemma NextSquare(k: nat, ksq: int, n2: nat)
    requires Congruent(k * k, ksq, n2)
    ensures Congruent((k + 1) * (k + 1), ksq + 2 * k + 1, n2)
  {
    var q :| DifferBy(k * k, ksq, q, n2);
    assert (k + 1) * (k + 1) == k * k + 2 * k + 1;
    CongruentIntro((k + 1) * (k + 1), ksq + 2 * k + 1, q, n2);
  }

  lemma TurnLess(a: int, b: int, n2: nat)
    requires Congruent(a, b, n2)
    ensures Congruent(a, b - n2, n2)
  {
    var q :| DifferBy(a, b, q, n2);
    assert (q + 1) * n2 == q * n2 + n2;
    CongruentIntro(a, b - n2, q + 1, n2);
  }

  lemma RootReduced(e: Roots, n: nat, a: int, b: int)
    requires RootLaws(e) && n >= 1 && Congruent(a, b, n)
    ensures e(n, a) == e(n, b)
  {
    hide RootLaws;
    var q :| DifferBy(a, b, q, n);
    RootMod(e, n, a, b, q);
  }

  /** mktwiddle: the chirp, and the transform of the kernel. */
  method AwakeBluestein(e: Roots, p: Plan) returns (w: array<C>, W: array<C>, ghost kernel: seq<C>)
    requires RootLaws(e) && WellFormed(p) && p.Bluestein?
    ensures fresh(w) && fresh(W) && w != W && w.Length == p.n
    ensures IsChirp(e, w[..]) && IsKernel(w[..], kernel) && |kernel| == p.nb && W[..] == Transform(e, kernel)
    decreases p, 1
  {
    hide RootLaws, IsChirp, Transform;
    var n, nb := p.n, p.nb;
    w := BluesteinSequence(e, n);
    W := new C[nb](_ => ZERO);
    FillKernel(w, W);
    kernel := W[..];
    ApplyWhole(e, p.cldf, W);
  }

  /** The kernel: the chirp over nb, and its mirror image. */
  method FillKernel(w: array<C>, W: array<C>)
    requires w.Length >= 1 && W.Length >= 2 * w.Length - 1 && w != W && forall i :: 0 <= i < W.Length ==> W[i] == ZERO
    modifies W
    ensures IsKernel(w[..], W[..])
  {
    hide Share;
    var n, nb := w.Length, W.Length;
    W[0] := Share(w[0], nb);
    for i := 1 to n
      invariant forall j :: 0 <= j < i ==> W[j] == Share(w[j], nb)
      invariant forall d :: 1 <= d < i ==> W[nb - d] == Share(w[d], nb)
      invariant forall j :: i <= j <= nb - i ==> W[j] == ZERO
    {
      W[i] := Share(w[i], nb);
      W[nb - i] := W[i];
    }
  }

  /** The conjugate of the chirp times the input, padded with zeros. */
  method ChirpInput(x: View, w: array<C>, b: array<C>)
    requires Ok(x) && |x.idx| == w.Length <= b.Length && b != w && b != x.a
    modifies b
    ensures IsChirped(Elems(x), w[..], b[..])
  {
    for i := 0 to w.Length
      invariant forall j :: 0 <= j < i ==> b[j] == Mul(x.a[x.idx[j]], Conj(w[j]))
    {
      var z, c := x.a[x.idx[i]], w[i];
      b[i] := C(z.re * c.re + z.im * c.im, z.im * c.re - z.re * c.im);
      assert b[i] == Mul(z, Conj(c));
    }
    for i := w.Length to b.Length
      invariant forall j :: 0 <= j < w.Length ==> b[j] == Mul(x.a[x.idx[j]], Conj(w[j]))
      invariant forall j :: w.Length <= j < i ==> b[j] == ZERO
    {
      b[i] := ZERO;
    }
  }

  /** The product of the two spectra, stored with real and imaginary parts exchanged. */
  method MultiplySwapped(b: array<C>, W: array<C>)
    requires b.Length == W.Length && b != W
    modifies b
    ensures IsSwapped(Pointwise(old(b[..]), W[..]), b[..])
  {
    for i := 0 to b.Length
      invariant forall j :: 0 <= j < b.Length ==> b[j] == if j < i then Swap(Mul(old(b[j]), W[j])) else old(b[j])
    {
      var x, c := b[i], W[i];
      b[i] := C(x.im * c.re + x.re * c.im, x.re * c.re - x.im * c.im);
      assert b[i] == Swap(Mul(x, c));
    }
  }

  /** The exchanged parts of the result, times the conjugate of the chirp. */
  method ChirpOutput(b: array<C>, w: array<C>, y: View)
    requires Ok(y) && |y.idx| == w.Length <= b.Length && y.a != b && y.a != w
    modifies y.a
    ensures forall k :: 0 <= k < w.Length ==> Elems(y)[k] == Mul(Swap(b[k]), Conj(w[k]))
    ensures Untouched(y)
  {
    for i := 0 to w.Length
      invariant Untouched(y)
      invariant forall k :: 0 <= k < i ==> y.a[y.idx[k]] == Mul(Swap(b[k]), Conj(w[k]))
    {
      var z, c := Swap(b[i]), w[i];
      y.a[y.idx[i]] := C(z.re * c.re + z.im * c.im, z.im * c.re - z.re * c.im);
      assert y.a[y.idx[i]] == Mul(z, Conj(c));
    }
  }

  /** apply of bluestein.c */
  method ApplyBluestein(e: Roots, p: Plan, w: array<C>, W: array<C>, ghost kernel: seq<C>, x: View, y: View)
    requires RootLaws(e) && WellFormed(p) && p.Bluestein?
    requires w.Length == p.n && IsChirp(e, w[..]) && IsKernel(w[..], kernel)
    requires |kernel| == p.nb && W[..] == Transform(e, kernel)
    requires Ok(x) && Ok(y) && |x.idx| == |y.idx| == p.n && y.a != w && y.a != W
    modifies y.a
    ensures Elems(y) == Transform(e, old(Elems(x))) && Untouched(y)
    decreases p, 1
  {
    hide RootLaws, IsChirp, IsKernel, IsChirped, IsSwapped, Mul, Swap, Conj, DftAt, Transform, Pointwise;
    ghost var x0 := Elems(x);
    var b := new C[p.nb](_ => ZERO);
    ChirpInput(x, w, b);
    ghost var chirped := b[..];
    ghost var swapped := Convolve(e, p.cldf, W, b);
    ChirpOutput(b, w, y);
    BluesteinOutputs(e, x0, w[..], chirped, kernel, swapped, b[..], Elems(y));
  }

  /** The convolution: transform, product, and the inverse transform by exchanged parts. */
  method Convolve(e: Roots, cldf: Plan, W: array<C>, b: array<C>) returns (ghost swapped: seq<C>)
    requires RootLaws(e) && WellFormed(cldf) && b.Length == W.Length == Size(cldf) && b != W
    modifies b
    ensures IsSwapped(Pointwise(Transform(e, old(b[..])), W[..]), swapped) && b[..] == Transform(e, swapped)
    decreases cldf, 4
  {
    hide RootLaws, IsSwapped, Transform, Pointwise;
    ApplyWhole(e, cldf, b);
    MultiplySwapped(b, W);
    swapped := b[..];
    ApplyWhole(e, cldf, b);
  }

  lemma BluesteinOutputs(e: Roots, x: seq<C>, w: seq<C>, chirped: seq<C>, kernel: seq<C>, swapped: seq<C>, b: seq<C>,
                         y: seq<C>)
    requires RootLaws(e) && IsChirp(e, w) && IsKernel(w, kernel) && IsChirped(x, w, chirped) && |chirped| == |kernel|
    requires IsSwapped(Pointwise(Transform(e, chirped), Transform(e, kernel)), swapped) && b == Transform(e, swapped)
    requires |y| == |x| == |w| <= |b| && forall k :: 0 <= k < |w| ==> y[k] == Mul(Swap(b[k]), Conj(w[k]))
    ensures y == Transform(e, x)
  {
    hide RootLaws, IsChirp, IsKernel, IsChirped, IsSwapped, Mul, Swap, Conj, DftAt, Pointwise;
    forall k | 0 <= k < |w| ensures y[k] == DftAt(e, x, k) {
      BluesteinOutput(e, x, w, chirped, kernel, swapped, k);
    }
  }

  // ----- Rader (rader.c)

  /** The loop of mkomega: the roots in the order of the powers of ginv, over n - 1. */
  method FillOmega(e: Roots, n: nat, ghost g: nat, ginv: nat) returns (omega: array<C>)
    requires IsGenerator(g, n) && AreInverse(g, ginv, n)
    ensures fresh(omega) && IsOmega(e, omega[..], ginv, n)
  {
    hide Share, Conj, PowMod, IsGenerator, AreInverse;
    PositiveSize(g, n);
    omega := new C[n - 1](_ => ZERO);
    var gpower := 1;
    PowStep(ginv, 0, n);
    for i := 0 to n - 1
      invariant gpower == PowMod(ginv, i, n)
      invariant forall k :: 0 <= k < i ==> omega[k] == Share(Conj(e(n, PowMod(ginv, k, n))), n - 1)
    {
      omega[i] := Share(Conj(e(n, gpower)), n - 1);
      PowStep(ginv, i, n);
      gpower := gpower * ginv % n;
    }
    assert gpower == 1 by { PowerReturns(g, ginv, n); }
  }

  lemma PositiveSize(g: nat, n: nat)
    requires IsGenerator(g, n)
    ensures n >= 2
  {
  }

  lemma PowerReturns(g: nat, ginv: nat, n: nat)
    requires IsGenerator(g, n) && AreInverse(g, ginv, n)
    ensures n >= 2 && PowMod(ginv, n - 1, n) == 1
  {
    InverseIsGenerator(g, ginv, n);
  }

  /** mkomega: they are transformed. */
  method MkOmega(e: Roots, p: Plan) returns (omega: array<C>, ghost t: seq<C>)
    requires RootLaws(e) && WellFormed(p) && p.Rader?
    ensures fresh(omega) && IsOmega(e, t, p.ginv, p.n) && omega[..] == Transform(e, t)
    decreases p, 1
  {
    hide RootLaws, PowMod, IsGenerator, AreInverse, Share, Conj, Transform;
    omega := FillOmega(e, p.n, p.g, p.ginv);
    t := omega[..];
    ApplyWhole(e, p.cldOmega, omega);
  }

  /** The first loop of apply: the input, read in the order of the powers of g. */
  method PermuteInput(x: View, buf: array<C>, g: nat, ghost ginv: nat)
    requires Ok(x) && |x.idx| >= 2 && buf.Length == |x.idx| - 1 && buf != x.a
    requires IsGenerator(g, |x.idx|) && AreInverse(g, ginv, |x.idx|)
    modifies buf
    ensures IsReordered(Elems(x), buf[..], g)
  {
    hide PowMod;
    var n, gpower := |x.idx|, 1;
    PowStep(g, 0, n);
    for k := 0 to n - 1
      invariant gpower == PowMod(g, k, n)
      invariant forall i :: 0 <= i < k ==> buf[i] == At(Elems(x), PowMod(g, i, n))
    {
      buf[k] := x.a[x.idx[gpower]];
      PowStep(g, k, n);
      gpower := gpower * g % n;
    }
    assert gpower == 1;
  }

  /** The last loop of apply: output g^-k is the conjugate of element k. */
  method UnpermuteOutput(buf: array<C>, y: View, g: nat, ginv: nat)
    requires Ok(y) && |y.idx| >= 2 && buf.Length == |y.idx| - 1 && buf != y.a
    requires IsGenerator(g, |y.idx|) && AreInverse(g, ginv, |y.idx|)
    modifies y.a
    ensures forall k :: 0 <= k < buf.Length ==> y.a[y.idx[PowMod(ginv, k, |y.idx|)]] == Conj(buf[k])
    ensures y.a[y.idx[0]] == old(y.a[y.idx[0]]) && Untouched(y)
  {
    hide PowMod, Conj;
    var n, gpower := |y.idx|, 1;
    PowStep(ginv, 0, n);
    InverseIsGenerator(g, ginv, n);
    for k := 0 to n - 1
      invariant gpower == PowMod(ginv, k, n) && Untouched(y) && y.a[y.idx[0]] == old(y.a[y.idx[0]])
      invariant forall i :: 0 <= i < k ==> y.a[y.idx[PowMod(ginv, i, n)]] == Conj(buf[i])
    {
      PowNonzero(ginv, g, k, n);
      forall i | 0 <= i < k ensures PowMod(ginv, i, n) != gpower { PowDistinct(ginv, g, i, k, n); }
      y.a[y.idx[gpower]] := Conj(buf[k]);
      PowStep(ginv, k, n);
      gpower := gpower * ginv % n;
    }
    assert gpower == 1;
  }

  /** Multiplication by omega, conjugated, and the input's first element added at 0. */
  method MultiplyOmega(v: View, omega: array<C>, r0: C)
    requires Ok(v) && |v.idx| == omega.Length >= 1 && omega != v.a
    modifies v.a
    ensures IsRaderSpectrum(r0, old(Elems(v)), omega[..], Elems(v)) && Untouched(v)
  {
    for k := 0 to omega.Length
      invariant Untouched(v)
      invariant forall i :: 0 <= i < omega.Length ==>
        v.a[v.idx[i]] == if i < k then Conj(Mul(omega[i], old(v.a[v.idx[i]]))) else old(v.a[v.idx[i]])
    {
      var b, w := v.a[v.idx[k]], omega[k];
      v.a[v.idx[k]] := C(w.re * b.re - w.im * b.im, -(w.re * b.im + w.im * b.re));
      assert v.a[v.idx[k]] == Conj(Mul(w, b));
    }
    var z := v.a[v.idx[0]];
    v.a[v.idx[0]] := C(z.re + r0.re, z.im - r0.im);
    assert v.a[v.idx[0]] == Add(z, Conj(r0));
  }

  /** All of a view but its first element. */
  function Rest(v: View): (w: View)
    requires |v.idx| >= 1
    ensures w.a == v.a && w.off == v.off + v.stride && w.stride == v.stride
    ensures |w.idx| == |v.idx| - 1 && forall t :: 0 <= t < |w.idx| ==> w.idx[t] == v.idx[t + 1]
  {
    View(v.a, v.off + v.stride, v.stride, v.idx[1..])
  }

  lemma RestApart(v: View)
    requires Ok(v) && |v.idx| >= 1
    ensures Ok(Rest(v)) && v.idx[0] !in Rest(v).idx && forall i :: i in Rest(v).idx ==> i in v.idx
  {
    var w := Rest(v);
    forall t | 0 <= t < |w.idx| ensures w.idx[t] == Address(w.off, w.stride, t) {
      assert v.idx[t + 1] == Address(v.off, v.stride, t + 1);
    }
  }

  /** apply of rader.c, up to the multiplication by omega. */
  method RaderForward(e: Roots, p: Plan, omega: array<C>, x: View, y: View, buf: array<C>) returns (ghost a: seq<C>)
    requires RootLaws(e) && WellFormed(p) && p.Rader? && omega.Length == buf.Length == p.n - 1
    requires Ok(x) && Ok(y) && |x.idx| == |y.idx| == p.n
    requires y.a != omega && buf != x.a && buf != y.a && buf != omega
    modifies y.a, buf
    ensures |a| == p.n - 1 && IsReordered(old(Elems(x)), a, p.g)
    ensures y.a[y.idx[0]] == DftAt(e, old(Elems(x)), 0)
    ensures IsRaderSpectrum(old(x.a[x.idx[0]]), Transform(e, a), omega[..], Elems(Rest(y)))
    ensures Untouched(y)
    decreases p, 0
  {
    hide RootLaws, DftAt, Conj, IsReordered, IsRaderSpectrum, PowMod, IsGenerator, AreInverse;
    var r0 := x.a[x.idx[0]];
    PermuteInput(x, buf, p.g, p.ginv);
    a := buf[..];
    assert Elems(Whole(buf)) == a;
    RestApart(y);
    Apply(e, p.cld1, Whole(buf), Rest(y));
    RaderDC(e, old(Elems(x)), a, p.g, p.ginv);
    var first := y.a[y.idx[1]];
    assert first == Elems(Rest(y))[0];
    y.a[y.idx[0]] := Add(r0, first);
    assert Elems(Rest(y)) == Transform(e, a);
    MultiplyOmega(Rest(y), omega, r0);
  }

  /** apply of rader.c */
  method ApplyRader(e: Roots, p: Plan, omega: array<C>, ghost t: seq<C>, x: View, y: View)
    requires RootLaws(e) && WellFormed(p) && p.Rader?
    requires IsOmega(e, t, p.ginv, p.n) && omega[..] == Transform(e, t)
    requires Ok(x) && Ok(y) && |x.idx| == |y.idx| == p.n && y.a != omega
    modifies y.a
    ensures Elems(y) == Transform(e, old(Elems(x))) && Untouched(y)
    decreases p, 1
  {
    hide RootLaws, DftAt, Conj, IsReordered, IsRaderSpectrum, PowMod, IsGenerator, AreInverse;
    ghost var x0 := Elems(x);
    var n := p.n;
    var buf := new C[n - 1](_ => ZERO);
    ghost var a := RaderForward(e, p, omega, x, y, buf);
    ghost var z := Elems(Rest(y));
    RestApart(y);
    Apply(e, p.cld2, Rest(y), Whole(buf));
    UnpermuteOutput(buf, y, p.g, p.ginv);
    assert IsRaderSpectrum(x0[0], Transform(e, a), Transform(e, t), z);
    forall k | 0 <= k < n - 1 ensures y.a[y.idx[PowMod(p.ginv, k, n)]] == DftAt(e, x0, PowMod(p.ginv, k, n)) {
      assert buf[k] == Elems(Whole(buf))[k];
      RaderOutput(e, x0, a, t, z, p.g, p.ginv, k);
    }
    AllOutputs(e, x0, y, p.g, p.ginv);
  }

  /** The powers of ginv reach every output but the first. */
  lemma AllOutputs(e: Roots, x0: seq<C>, y: View, g: nat, ginv: nat)
    requires Ok(y) && |x0| == |y.idx| >= 2 && IsGenerator(g, |x0|) && AreInverse(g, ginv, |x0|)
    requires y.a[y.idx[0]] == DftAt(e, x0, 0)
    requires forall k :: 0 <= k < |x0| - 1 ==> y.a[y.idx[PowMod(ginv, k, |x0|)]] == DftAt(e, x0, PowMod(ginv, k, |x0|))
    ensures Elems(y) == Transform(e, x0)
  {
    hide PowMod, DftAt;
    var n := |x0|;
    InverseIsGenerator(g, ginv, n);
    PowerOrderIsPermutation(ginv, g, n);
    forall t | 0 <= t < n ensures y.a[y.idx[t]] == DftAt(e, x0, t) {
      if t > 0 {
        var k := Reaches(PowerOrder(ginv, n), n - 1, t - 1);
        assert PowMod(ginv, k, n) == t;
      }
    }
  }
}
