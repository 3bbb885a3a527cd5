/** The phases of a Cooley-Tukey step on sequences, and why together they are the transform. */
module CooleyTukeySteps {
  import opened Complex
  import opened Dft
  import opened Views
  import Signals

  /** `y1` holds in its rows the transforms of the `r` columns of `x`. */
  ghost predicate RowsFromColumns(e: Roots, x: seq<C>, y1: seq<C>, r: nat, m: nat) {
    |x| == |y1| == r * m
    && forall p: nat, k: nat :: p < r && k < m ==> At(y1, Place(m, p, k)) == DftAt(e, Every(x, r, m, p), k)
  }

  function Slice(x: seq<C>, m: nat, p: nat): (y: seq<C>)
    ensures |y| == m && forall q :: 0 <= q < m ==> y[q] == At(x, Place(m, p, q))
  {
    seq(m, q requires 0 <= q => At(x, Place(m, p, q)))
  }

  /** `y` holds in its columns the transforms of the `r` rows of `w`. */
  ghost predicate ColumnsFromRows(e: Roots, w: seq<C>, y: seq<C>, r: nat, m: nat) {
    |w| == |y| == r * m
    && forall p: nat, s: nat :: p < r && s < m ==> At(y, Place(r, s, p)) == DftAt(e, Slice(w, m, p), s)
  }

  lemma PlaceIs(cnt: nat, q: nat, p: nat)
    ensures Place(cnt, q, p) == q * cnt + p == p + cnt * q
  {
  }

  // ----- Work on columns

  /** What is done to a column, which knows its number. */
  type ColumnStep = (nat, seq<C>) -> seq<C>

  /** The columns from mb to me, of `r` elements each, have gone through the step; the others are as they were. */
  ghost predicate ColumnsBy(f: ColumnStep, y: seq<C>, z: seq<C>, r: nat, m: nat, mb: nat, me: nat) {
    |y| == |z| == r * m
    && forall s: nat, k: nat :: s < r && k < m ==>
         At(z, Place(m, s, k)) == if mb <= k < me then At(f(k, Every(y, m, r, k)), s) else At(y, Place(m, s, k))
  }

  /** Element p of column k is multiplied by the conjugate of the root at angle p·k. */
  ghost function Twiddling(e: Roots, r: nat, m: nat): ColumnStep {
    (k: nat, c: seq<C>) => seq(|c|, p requires 0 <= p => Mul(At(c, p), e(r * m, -(p * k))))
  }

  /** A column is replaced by its transform. */
  ghost function Transforming(e: Roots): ColumnStep {
    (k: nat, c: seq<C>) => Transform(e, c)
  }

  function Then(f: ColumnStep, g: ColumnStep): ColumnStep {
    (k: nat, c: seq<C>) => g(k, f(k, c))
  }

  ghost predicate KeepsLength(f: ColumnStep) {
    forall k: nat, c: seq<C> :: |f(k, c)| == |c|
  }

  /** The work of a twiddle step: decimation in time twiddles first, decimation in frequency last. */
  ghost function DftwStep(e: Roots, r: nat, m: nat, dit: bool): (f: ColumnStep)
    ensures KeepsLength(f)
  {
    if dit then Then(Twiddling(e, r, m), Transforming(e)) else Then(Transforming(e), Twiddling(e, r, m))
  }

  lemma SameColumn(y: seq<C>, z: seq<C>, r: nat, m: nat, k: nat)
    requires k < m && forall s: nat :: s < r ==> At(y, Place(m, s, k)) == At(z, Place(m, s, k))
    ensures Every(y, m, r, k) == Every(z, m, r, k)
  {
    hide Place;
    forall s: nat | s < r ensures Every(y, m, r, k)[s] == Every(z, m, r, k)[s] { PlaceIs(m, s, k); }
  }

  /** Two steps, one after the other, on the same columns. */
  lemma ColumnsThen(f: ColumnStep, g: ColumnStep, y: seq<C>, z: seq<C>, w: seq<C>, r: nat, m: nat, mb: nat, me: nat)
    requires KeepsLength(f) && ColumnsBy(f, y, z, r, m, mb, me) && ColumnsBy(g, z, w, r, m, mb, me)
    ensures ColumnsBy(Then(f, g), y, w, r, m, mb, me)
  {
    hide Place;
    forall k: nat | k < m && mb <= k < me ensures Every(z, m, r, k) == f(k, Every(y, m, r, k)) {
      forall s: nat | s < r ensures Every(z, m, r, k)[s] == f(k, Every(y, m, r, k))[s] { PlaceIs(m, s, k); }
    }
  }

  // ----- Ranges of columns

  type Range = (nat, nat)

  /** Column `i` is in one of the ranges. */
  ghost predicate InRanges(ranges: seq<Range>, i: nat) {
    exists j :: 0 <= j < |ranges| && ranges[j].0 <= i < ranges[j].1
  }

  ghost predicate DisjointRanges(ranges: seq<Range>) {
    forall j, k :: 0 <= j < k < |ranges| ==> ranges[j].1 <= ranges[k].0 || ranges[k].1 <= ranges[j].0
  }

  /** The ranges divide the `m` columns among them. */
  ghost predicate Divide(ranges: seq<Range>, m: nat) {
    && DisjointRanges(ranges) && (forall i: nat :: i < m ==> InRanges(ranges, i))
    && forall j :: 0 <= j < |ranges| ==> ranges[j].0 <= ranges[j].1 <= m
  }

  lemma InOneRange(ranges: seq<Range>, n: nat, i: nat)
    requires n < |ranges| && DisjointRanges(ranges)
    ensures InRanges(ranges[..n + 1], i) <==> InRanges(ranges[..n], i) || ranges[n].0 <= i < ranges[n].1
    ensures !(InRanges(ranges[..n], i) && ranges[n].0 <= i < ranges[n].1)
  {
    if InRanges(ranges[..n + 1], i) {
      var j :| 0 <= j < n + 1 && ranges[..n + 1][j].0 <= i < ranges[..n + 1][j].1;
      if j < n { assert ranges[..n][j] == ranges[j]; }
    }
    if InRanges(ranges[..n], i) {
      var j :| 0 <= j < n && ranges[..n][j].0 <= i < ranges[..n][j].1;
      assert ranges[..n + 1][j] == ranges[j] == ranges[..n][j];
    }
    if ranges[n].0 <= i < ranges[n].1 { assert ranges[..n + 1][n] == ranges[n]; }
  }

  /** The first `n` ranges have gone through the step. */
  ghost predicate ColumnsSoFar(f: ColumnStep, y: seq<C>, z: seq<C>, r: nat, m: nat, ranges: seq<Range>, n: nat)
    requires n <= |ranges|
  {
    |y| == |z| == r * m
    && forall s: nat, k: nat :: s < r && k < m ==>
         At(z, Place(m, s, k)) ==
         if InRanges(ranges[..n], k) then At(f(k, Every(y, m, r, k)), s) else At(y, Place(m, s, k))
  }

  /** One more range: its columns are still as they were, so it does not matter which ranges came before. */
  lemma NextRange(f: ColumnStep, y: seq<C>, z: seq<C>, w: seq<C>, r: nat, m: nat, ranges: seq<Range>, n: nat)
    requires n < |ranges| && DisjointRanges(ranges) && ColumnsSoFar(f, y, z, r, m, ranges, n)
    requires ColumnsBy(f, z, w, r, m, ranges[n].0, ranges[n].1)
    ensures ColumnsSoFar(f, y, w, r, m, ranges, n + 1)
  {
    hide Place, InRanges;
    forall s: nat, k: nat | s < r && k < m
      ensures At(w, Place(m, s, k)) ==
        if InRanges(ranges[..n + 1], k) then At(f(k, Every(y, m, r, k)), s) else At(y, Place(m, s, k))
    {
      InOneRange(ranges, n, k);
      if !InRanges(ranges[..n], k) { SameColumn(y, z, r, m, k); }
    }
  }

  /** However the columns are divided into ranges, and whichever is done first: in the end all columns are done. */
  lemma AllRanges(f: ColumnStep, y: seq<C>, z: seq<C>, r: nat, m: nat, ranges: seq<Range>)
    requires Divide(ranges, m) && ColumnsSoFar(f, y, z, r, m, ranges, |ranges|)
    ensures ColumnsBy(f, y, z, r, m, 0, m)
  {
    hide Place, InRanges, DisjointRanges;
    assert ranges[..|ranges|] == ranges;
  }

  /** Where range `i` starts in blocks of one size. */
  function BlockStart(i: nat, blockSize: nat): nat {
    i * blockSize
  }

  /** How many blocks of a size it takes to hold `n`. */
  function Blocks(n: nat, size: nat): (count: nat)
    requires n >= 1 && size >= 1
    ensures count >= 1
  {
    BlockCount(n, size);
    (n + size - 1) / size
  }

  /** The ranges of the threaded planner: blocks of one size, the last of them up to the last column. */
  function ThreadRanges(m: nat, nthr: nat): (ranges: seq<Range>)
    requires m >= 1 && nthr >= 1
  {
    var blockSize := Blocks(m, nthr);
    var count := Blocks(m, blockSize);
    seq(count, i requires 0 <= i < count =>
      (BlockStart(i, blockSize), if i == count - 1 then m else BlockStart(i + 1, blockSize)))
  }

  lemma BlockOrder(i: nat, j: nat, blockSize: nat)
    ensures i <= j ==> BlockStart(i, blockSize) <= BlockStart(j, blockSize)
    ensures BlockStart(i + 1, blockSize) == BlockStart(i, blockSize) + blockSize
  {
    if i <= j { Signals.MulMono(i, j, blockSize); }
  }

  lemma BlockCount(n: nat, size: nat)
    requires n >= 1 && size >= 1
    ensures var count := (n + size - 1) / size;
      count >= 1 && BlockStart(count - 1, size) < n <= BlockStart(count, size)
  {
    var count := (n + size - 1) / size;
    assert count * size + (n + size - 1) % size == n + size - 1;
    assert count >= 1;
    BlockOrder(count - 1, count, size);
  }

  lemma BlocksHold(n: nat, size: nat)
    requires n >= 1 && size >= 1
    ensures BlockStart(Blocks(n, size) - 1, size) < n <= BlockStart(Blocks(n, size), size)
  {
    BlockCount(n, size);
  }

  lemma BlockOf(i: nat, blockSize: nat) returns (j: nat)
    requires blockSize >= 1
    ensures BlockStart(j, blockSize) <= i < BlockStart(j + 1, blockSize)
  {
    j := i / blockSize;
    BlockOrder(j, 0, blockSize);
  }

  /** They divide the columns among the threads. */
  lemma ThreadRangesDivide(m: nat, nthr: nat)
    requires m >= 1 && nthr >= 1
    ensures Divide(ThreadRanges(m, nthr), m)
  {
    hide BlockStart, Blocks;
    var ranges, blockSize := ThreadRanges(m, nthr), Blocks(m, nthr);
    var count := Blocks(m, blockSize);
    BlocksHold(m, blockSize);
    forall j, k | 0 <= j < k < count ensures ranges[j].1 <= ranges[k].0 { BlockOrder(j + 1, k, blockSize); }
    forall j | 0 <= j < count ensures ranges[j].0 <= ranges[j].1 <= m {
      BlockOrder(j, count - 1, blockSize);
      if j < count - 1 { BlockOrder(j + 1, count - 1, blockSize); }
    }
    forall i: nat | i < m ensures InRanges(ranges, i) {
      var j := BlockOf(i, blockSize);
      if j >= count { BlockOrder(count, j, blockSize); }
      assert ranges[j].0 <= i < ranges[j].1;
    }
  }

  // ----- The step as a whole

  /** Decimation in time: columns to rows, twiddle, columns in place. */
  lemma DitOutput(e: Roots, x: seq<C>, y: seq<C>, z: seq<C>, r: nat, m: nat, k: nat, s: nat)
    requires RootLaws(e) && r >= 1 && m >= 1 && k < m && s < r
    requires RowsFromColumns(e, x, y, r, m) && ColumnsBy(DftwStep(e, r, m, true), y, z, r, m, 0, m)
    ensures At(z, Place(m, s, k)) == DftAt(e, x, Place(m, s, k))
  {
    hide Mul, RootLaws, Place, CSum;
    var column := Twiddling(e, r, m)(k, Every(y, m, r, k));
    forall p | 0 <= p < r ensures Terms(e, column, s)(p) == Twiddled(e, x, r, m, k, s)(p) {
      PlaceIs(m, p, k);
    }
    SumEq(r, Terms(e, column, s), Twiddled(e, x, r, m, k, s));
    CooleyTukey(e, x, r, m, k, s);
    PlaceIs(m, s, k);
  }

  lemma DitIsTransform(e: Roots, x: seq<C>, y: seq<C>, z: seq<C>, r: nat, m: nat)
    requires RootLaws(e) && r >= 1 && m >= 1
    requires RowsFromColumns(e, x, y, r, m) && ColumnsBy(DftwStep(e, r, m, true), y, z, r, m, 0, m)
    ensures z == Transform(e, x)
  {
    hide RootLaws, Place, DftAt, DftwStep;
    assert m * r == r * m;
    forall t | 0 <= t < |x| ensures At(z, t) == DftAt(e, x, t) {
      var s, k := FindPlace(m, r, t);
      DitOutput(e, x, y, z, r, m, k, s);
    }
  }

  /** Decimation in frequency: columns in place, twiddle, rows to columns. */
  lemma DifOutput(e: Roots, x: seq<C>, w: seq<C>, y: seq<C>, r: nat, m: nat, p: nat, s: nat)
    requires RootLaws(e) && r >= 1 && m >= 1 && p < r && s < m
    requires ColumnsBy(DftwStep(e, r, m, false), x, w, r, m, 0, m) && ColumnsFromRows(e, w, y, r, m)
    ensures At(y, Place(r, s, p)) == DftAt(e, x, Place(r, s, p))
  {
    hide Mul, RootLaws, Place, CSum;
    assert m * r == r * m;
    var row := Slice(w, m, p);
    forall k | 0 <= k < m ensures Terms(e, row, s)(k) == Twiddled(e, x, m, r, p, s)(k) {
      assert k * p == p * k;
    }
    SumEq(m, Terms(e, row, s), Twiddled(e, x, m, r, p, s));
    CooleyTukey(e, x, m, r, p, s);
    PlaceIs(r, s, p);
  }

  lemma DifIsTransform(e: Roots, x: seq<C>, w: seq<C>, y: seq<C>, r: nat, m: nat)
    requires RootLaws(e) && r >= 1 && m >= 1
    requires ColumnsBy(DftwStep(e, r, m, false), x, w, r, m, 0, m) && ColumnsFromRows(e, w, y, r, m)
    ensures y == Transform(e, x)
  {
    hide RootLaws, Place, DftAt, DftwStep;
    assert m * r == r * m;
    forall t | 0 <= t < |x| ensures At(y, t) == DftAt(e, x, t) {
      var s, p := FindPlace(r, m, t);
      DifOutput(e, x, w, y, r, m, p, s);
    }
  }
}
