/** The FIR filter of FIRFilter.h: a double-length signal buffer that emulates a circular history. */
module FirFilter {
  import opened Signals

  /** The longest multiple of `v` that is at most `n`. */
  function AlignDown(n: nat, v: nat): (r: nat)
    requires v >= 1
    ensures r <= n < r + v && Multiple(r, v)
  {
    if n < v then 0 else AlignDown(n - v, v) + v
  }

  predicate Multiple(n: nat, v: nat)
    requires v >= 1
  {
    n == 0 || (n >= v && Multiple(n - v, v))
  }

  /** Two different multiples are at least `v` apart. */
  lemma {:induction false} MultipleGap(a: nat, b: nat, v: nat)
    requires v >= 1 && Multiple(a, v) && Multiple(b, v) && a < b
    ensures a + v <= b
  {
    if a > 0 { MultipleGap(a - v, b - v, v); }
  }

  /** The buffer position written next, after `n` samples: it steps down and wraps. */
  function NextIndex(length: nat, n: nat): (c: nat)
    requires length >= 1
    ensures c < length
  {
    if n == 0 then length - 1
    else if NextIndex(length, n - 1) == 0 then length - 1 else NextIndex(length, n - 1) - 1
  }

  /** In closed form the position is the one the sample count has modulo `length`. */
  lemma {:induction false} NextIndexMod(length: nat, n: nat)
    requires length >= 1
    ensures NextIndex(length, n) == length - 1 - n % length
  {
    if n == 0 {
      DivUnique(0, length, 0, 0);
    } else {
      NextIndexMod(length, n - 1);
      ModNext(length, n - 1);
    }
  }

  /** The remainder goes up by one, or back to 0. */
  lemma ModNext(length: nat, n: nat)
    requires length >= 1
    ensures (n + 1) % length == if n % length == length - 1 then 0 else n % length + 1
  {
    var q, r := n / length, n % length;
    assert n == q * length + r;
    if r == length - 1 {
      assert (q + 1) * length == q * length + length;
      DivUnique(n + 1, length, q + 1, 0);
    } else {
      DivUnique(n + 1, length, q, r + 1);
    }
  }

  /** Going `a` samples on moves the position down by `a`, or by `a - length` when it wraps. */
  lemma {:induction false} NextIndexAhead(length: nat, n: nat, a: nat)
    requires length >= 1 && a <= length
    ensures NextIndex(length, n + a) == NextIndex(length, n) - a
         || NextIndex(length, n + a) == NextIndex(length, n) - a + length
  {
    if a > 0 { NextIndexAhead(length, n, a - 1); }
  }

  /** How many taps `get` uses after `n` samples: the kernel phase `p` has lost the last `p` taps. */
  function TapsUsed(length: nat, v: nat, n: nat): (c: nat)
    requires length >= 1 && v >= 1
    ensures 1 <= c <= length
  {
    var c := NextIndex(length, n);
    length - (c - AlignDown(c, v))
  }

  /** What `get` returns after the samples `x`. Tap 0 meets the oldest sample, of age `length - 1`. */
  ghost function GetValue(taps: seq<real>, v: nat, x: seq<real>): real
    requires |taps| >= 1 && v >= 1
  {
    taps[0] * At(x, |x| - |taps|) + Conv(taps, x, |x|, 1, TapsUsed(|taps|, v, |x|))
  }

  /** What `lazyGet` returns: the same sum over all taps but tap 0. */
  ghost function LazyValue(taps: seq<real>, x: seq<real>): real
    requires |taps| >= 1
  {
    Conv(taps, x, |x|, 1, |taps|)
  }

  /** Every sample that is not a stuffed zero stands a multiple of `L` before the last real one. */
  ghost predicate OnlyStuffedZeros(x: seq<real>, age: nat, L: nat)
    requires L >= 1
  {
    forall t :: 0 <= t < |x| && !OnGrid(|x| - age - t, L) ==> x[t] == 0.0
  }

  predicate OnGrid(d: int, L: nat)
    requires L >= 1
  {
    d >= 0 && Multiple(d, L)
  }

  lemma StuffedPut(x: seq<real>, age: nat, L: nat, v: real)
    requires L >= 1 && OnlyStuffedZeros(x, age, L) && (age == L || x == [])
    ensures OnlyStuffedZeros(x + [v], 1, L)
  {
    var y := x + [v];
    forall t | 0 <= t < |y| && !OnGrid(|y| - 1 - t, L) ensures y[t] == 0.0 {
      assert t < |x| ==> !OnGrid(|x| - age - t, L);
    }
  }

  lemma StuffedZero(x: seq<real>, age: nat, L: nat)
    requires L >= 1 && OnlyStuffedZeros(x, age, L)
    ensures OnlyStuffedZeros(x + [0.0], age + 1, L)
  {
    var y := x + [0.0];
    forall t | 0 <= t < |y| && !OnGrid(|y| - (age + 1) - t, L) ensures y[t] == 0.0 {
      assert t < |x| ==> !OnGrid(|x| - age - t, L);
    }
  }

  /**
   * What `lazyGet` returns on a zero-stuffed stream: with a stride of the filter length or more, tap 0 is not
   * left out.
   */
  ghost function LazyOutput(taps: seq<real>, x: seq<real>, L: nat): real
    requires |taps| >= 1
  {
    if L < |taps| then LazyValue(taps, x) else GetValue(taps, 1, x)
  }

  /** How far back the sample is that tap `i` meets. */
  function AgeMet(length: nat, i: nat): nat {
    if i == 0 then length else i
  }

  /** The sum over every L-th tap from tap `i` on. */
  ghost function StrideSum(k: seq<real>, x: seq<real>, i: nat, L: nat): real
    requires L >= 1
    decreases |k| - i
  {
    if i >= |k| then 0.0 else k[i] * At(x, |x| - AgeMet(|k|, i)) + StrideSum(k, x, i + L, L)
  }

  /** On a zero-stuffed stream, every L-th tap from a real sample on gives the whole sum. */
  lemma {:induction false} StrideSumIsConv(k: seq<real>, x: seq<real>, i: nat, age: nat, L: nat)
    requires L >= 1 && OnlyStuffedZeros(x, age, L)
    requires i >= age >= 1 && Multiple(i - age, L)
    ensures i <= |k| ==> StrideSum(k, x, i, L) == Conv(k, x, |x|, i, |k|)
    decreases |k| - i
  {
    hide Conv, At, OnlyStuffedZeros, StrideSum, Multiple;
    if i < |k| {
      var next := if i + L < |k| then i + L else |k|;
      StrideStep(k, x, i, L);
      MultipleNext(i - age, L);
      StrideSumIsConv(k, x, i + L, age, L);
      SilentBetween(x, i, age, L);
      ConvSilent(k, x, |x|, i + 1, next);
      ConvOne(k, x, |x|, i);
      ConvSplit(k, x, |x|, i, i + 1, next);
      ConvSplit(k, x, |x|, i, next, |k|);
      ConvNone(k, x, |x|);
    } else {
      StrideStep(k, x, i, L);
      ConvNone(k, x, |x|);
    }
  }

  lemma MultipleNext(n: nat, v: nat)
    requires v >= 1 && Multiple(n, v)
    ensures Multiple(n + v, v)
  {
  }

  lemma StrideStep(k: seq<real>, x: seq<real>, i: nat, L: nat)
    requires L >= 1
    ensures i >= |k| ==> StrideSum(k, x, i, L) == 0.0
    ensures i < |k| ==> StrideSum(k, x, i, L) == k[i] * At(x, |x| - AgeMet(|k|, i)) + StrideSum(k, x, i + L, L)
    ensures i + L >= |k| ==> StrideSum(k, x, i + L, L) == 0.0
  {
  }

  /** Between two grid positions there are only stuffed zeros. */
  lemma SilentBetween(x: seq<real>, i: nat, age: nat, L: nat)
    requires L >= 1 && OnlyStuffedZeros(x, age, L) && i >= age && Multiple(i - age, L)
    ensures forall t :: |x| - (i + L) < t <= |x| - (i + 1) ==> At(x, t) == 0.0
  {
    hide Multiple;
    forall t | |x| - (i + L) < t <= |x| - (i + 1) ensures At(x, t) == 0.0 {
      if 0 <= t && OnGrid(|x| - age - t, L) { MultipleGap(i - age, |x| - age - t, L); }
    }
  }

  lemma ConvOne(k: seq<real>, x: seq<real>, n: int, i: nat)
    requires i < |k|
    ensures Conv(k, x, n, i, i + 1) == k[i] * At(x, n - i)
  {
    assert Conv(k, x, n, i, i) == 0.0;
  }

  lemma ConvNone(k: seq<real>, x: seq<real>, n: int)
    ensures Conv(k, x, n, |k|, |k|) == 0.0
  {
  }

  /** Since the last real sample there are only stuffed zeros. */
  lemma SilentSince(x: seq<real>, age: nat, L: nat)
    requires 1 <= age && L >= 1 && OnlyStuffedZeros(x, age, L)
    ensures forall t :: |x| - age < t <= |x| - 1 ==> At(x, t) == 0.0
  {
    forall t | |x| - age < t <= |x| - 1 ensures At(x, t) == 0.0 {
      assert !OnGrid(|x| - age - t, L);
    }
  }

  lemma StrideSumIsLazyValue(k: seq<real>, x: seq<real>, age: nat, L: nat)
    requires 1 <= age <= L && age < |k| && OnlyStuffedZeros(x, age, L)
    ensures StrideSum(k, x, age, L) == LazyValue(k, x)
  {
    hide OnlyStuffedZeros, StrideSum, Conv;
    SilentSince(x, age, L);
    StrideSumIsConv(k, x, age, age, L);
    ConvSilent(k, x, |x|, 1, age);
    ConvSplit(k, x, |x|, 1, age, |k|);
  }

  /** A stride of the filter length or more meets the oldest sample only when the last real sample is that one. */
  lemma OldestIsStuffed(x: seq<real>, length: nat, age: nat, L: nat)
    requires 1 <= age <= L && 1 <= length <= L && age != length && OnlyStuffedZeros(x, age, L)
    ensures At(x, |x| - length) == 0.0
  {
    assert !OnGrid(length - age, L);
  }

  lemma OneStride(k: seq<real>, x: seq<real>, i: nat, L: nat)
    requires i < |k| <= L
    ensures StrideSum(k, x, i, L) == k[i] * At(x, |x| - AgeMet(|k|, i))
  {
    StrideStep(k, x, i, L);
  }

  /** Then the stride sum is the whole sum, tap 0 included. */
  lemma StrideSumIsWhole(k: seq<real>, x: seq<real>, age: nat, L: nat)
    requires 1 <= age <= L && 1 <= |k| <= L && OnlyStuffedZeros(x, age, L)
    ensures StrideSum(k, x, age % |k|, L) == GetValue(k, 1, x)
  {
    hide OnlyStuffedZeros, StrideSum, Conv, At, OnGrid, TapsUsed;
    TapsUsedScalar(|k|, |x|);
    if age != |k| { OldestIsStuffed(x, |k|, age, L); }
    if age < |k| {
      DivUnique(age, |k|, 0, age);
      StrideSumIsLazyValue(k, x, age, L);
    } else {
      if age == |k| { DivUnique(age, |k|, 1, 0); }
      OneStride(k, x, age % |k|, L);
      SilentSince(x, age, L);
      ConvSilent(k, x, |x|, 1, |k|);
    }
  }

  /** The sum of the products of the first `n` elements. */
  ghost function Dot(s: seq<real>, k: seq<real>, n: nat): real
    requires n <= |s| && n <= |k|
  {
    if n == 0 then 0.0 else Dot(s, k, n - 1) + s[n - 1] * k[n - 1]
  }

  ghost function LaneSum(lanes: seq<real>, n: nat): real
    requires n <= |lanes|
  {
    if n == 0 then 0.0 else LaneSum(lanes, n - 1) + lanes[n - 1]
  }

  /** One multiply-and-accumulate over all lanes adds the next products to the horizontal sum. */
  lemma {:induction false} LanesAdd(acc: seq<real>, acc': seq<real>, s: seq<real>, k: seq<real>, i: nat, n: nat)
    requires n <= |acc| == |acc'| && i + n <= |s| && i + n <= |k|
    requires forall l :: 0 <= l < n ==> acc'[l] == acc[l] + s[i + l] * k[i + l]
    ensures LaneSum(acc', n) == LaneSum(acc, n) + Dot(s, k, i + n) - Dot(s, k, i)
  {
    if n > 0 { LanesAdd(acc, acc', s, k, i, n - 1); }
  }

  lemma LanesZero(n: nat)
    ensures LaneSum(Zeros(n), n) == 0.0
  {
    LanesZeroUpTo(n, n);
  }

  lemma {:induction false} LanesZeroUpTo(n: nat, m: nat)
    requires m <= n
    ensures LaneSum(Zeros(n), m) == 0.0
  {
    if m > 0 { LanesZeroUpTo(n, m - 1); }
  }

  /** The sum `get` has built up after its first `i` taps. */
  ghost function TapSum(taps: seq<real>, x: seq<real>, i: nat): real
    requires i <= |taps|
  {
    if i == 0 then 0.0 else taps[0] * At(x, |x| - |taps|) + Conv(taps, x, |x|, 1, i)
  }

  /** Against a kernel shifted by `p`, an aligned read that starts `p` early meets the same taps. */
  lemma {:induction false} ShiftedDot(s: seq<real>, row: seq<real>, buf: seq<real>, c: nat, p: nat, taps: seq<real>,
    x: seq<real>, n: nat)
    requires Window(buf, |taps|, c, x) && p <= c && n <= |s| == |row|
    requires forall j :: 0 <= j < |row| ==> row[j] == if p <= j < |taps| then taps[j - p] else 0.0
    requires c - p + |s| <= |buf| && s == buf[c - p..c - p + |s|]
    ensures Dot(s, row, n) == TapSum(taps, x, if n <= p then 0 else if n <= |taps| then n - p else |taps| - p)
  {
    if n > 0 {
      ShiftedDot(s, row, buf, c, p, taps, x, n - 1);
      if p < n <= |taps| {
        assert s[n - 1] == buf[c + (n - 1 - p)];
      }
    }
  }

  /**
   * The double-length buffer after the samples `x`, with `c` written next. From `c` on it holds the oldest
   * sample and then the newest ones backwards; up to `c` the upper half still equals the lower one.
   */
  ghost predicate Window(buf: seq<real>, length: nat, c: nat, x: seq<real>) {
    && c < length && 2 * length <= |buf|
    && (forall j :: c < j < c + length ==> buf[j] == At(x, |x| + c - j))
    && buf[c] == At(x, |x| - length)
    && (forall j :: 0 <= j <= c ==> buf[j] == buf[length + j])
    && (forall j :: 2 * length <= j < |buf| ==> buf[j] == 0.0)
  }

  /** A silent buffer is the state before the first sample. */
  lemma SilentStart(buf: seq<real>, length: nat)
    requires length >= 1 && 2 * length <= |buf| && forall j :: 0 <= j < |buf| ==> buf[j] == 0.0
    ensures Window(buf, length, length - 1, [])
    ensures NextIndex(length, 0) == length - 1 && NextIndex(length, length - 1) == 0
  {
    NextIndexAhead(length, 0, length - 1);
  }

  lemma WindowFits(buf: seq<real>, length: nat, c: nat, x: seq<real>)
    requires Window(buf, length, c, x)
    ensures c < length && 2 * length <= |buf|
  {
  }

  lemma WindowDown(buf: seq<real>, length: nat, c: nat, x: seq<real>, v: real)
    requires Window(buf, length, c, x) && c > 0
    ensures Window(buf[c := v], length, c - 1, x + [v])
  {
    var b, y := buf[c := v], x + [v];
    assert b[c - 1] == buf[length + (c - 1)] == At(x, |x| + c - (length + c - 1)) == At(y, |y| - length);
    forall j | c - 1 < j < c - 1 + length ensures b[j] == At(y, |y| + (c - 1) - j) {
      assert j != c ==> At(y, |y| + (c - 1) - j) == At(x, |x| + c - j);
    }
  }

  lemma WindowWrap(buf: seq<real>, length: nat, x: seq<real>, v: real)
    requires Window(buf, length, 0, x)
    ensures Window(buf[0 := v][..length] + buf[0 := v][..length] + buf[2 * length..], length, length - 1, x + [v])
  {
    var b, y := buf[0 := v][..length] + buf[0 := v][..length] + buf[2 * length..], x + [v];
    forall j | length - 1 <= j < length - 1 + length
      ensures b[j] == if j == length - 1 then At(y, |y| - length) else At(y, |y| + (length - 1) - j)
    {
      if j == length - 1 {
        assert j > 0 ==> b[j] == buf[j] == At(x, |x| - j);
      } else if j > length {
        assert b[j] == buf[j - length] == At(x, |x| - (j - length));
      }
    }
  }

  /** The memcpy on wrap: the lower `length` elements are copied to the next `length`. */
  method CopyUp(a: array<real>, length: nat)
    requires 2 * length <= a.Length
    modifies a
    ensures a[..] == old(a[..length]) + old(a[..length]) + old(a[2 * length..])
  {
    for i := 0 to length
      invariant forall j :: 0 <= j < a.Length && !(length <= j < length + i) ==> a[j] == old(a[j])
      invariant forall j :: length <= j < length + i ==> a[j] == old(a[j - length])
    {
      a[length + i] := a[i];
    }
  }

  /** `v` elements of a kernel phase, from element `i` on. */
  function Load(k: array2<real>, phase: nat, i: nat, v: nat): (r: seq<real>)
    requires phase < k.Length0 && i + v <= k.Length1
    reads k
    ensures |r| == v && forall l :: 0 <= l < v ==> r[l] == k[phase, i + l]
  {
    seq(v, l requires 0 <= l < v reads k => k[phase, i + l])
  }

  /** The lane-wise multiply-and-add of the SIMD instructions. */
  function MultiplyAdd(acc: seq<real>, s: seq<real>, k: seq<real>): (r: seq<real>)
    requires |acc| == |s| == |k|
    ensures |r| == |acc| && forall l :: 0 <= l < |acc| ==> r[l] == acc[l] + s[l] * k[l]
  {
    seq(|acc|, l requires 0 <= l < |acc| => acc[l] + s[l] * k[l])
  }

  lemma NoLanes(v: nat)
    requires v >= 1
    ensures Multiple(0, v)
    ensures forall s, k :: Dot(s, k, 0) == 0.0
  {
  }

  /** The horizontal sum of the lanes. */
  method SumLanes(acc: seq<real>) returns (output: real)
    ensures output == LaneSum(acc, |acc|)
  {
    output := 0.0;
    for l := 0 to |acc|
      invariant output == LaneSum(acc, l)
    {
      output := output + acc[l];
    }
  }

  /** The vector loop: `v` lanes accumulate side by side, and are summed at the end. */
  method VectorDot(signal: array<real>, index: nat, kernel: array2<real>, phase: nat, v: nat) returns (output: real)
    requires v >= 1 && phase < kernel.Length0 && Multiple(kernel.Length1, v)
    requires index + kernel.Length1 <= signal.Length
    ensures output ==
      Dot(signal[..][index..index + kernel.Length1], Load(kernel, phase, 0, kernel.Length1), kernel.Length1)
  {
    hide LaneSum, Dot, Multiple, MultiplyAdd;
    NoLanes(v);
    var padded := kernel.Length1;
    ghost var s, row := signal[..][index..index + padded], Load(kernel, phase, 0, kernel.Length1);
    var acc := Zeros(v);
    LanesZero(v);
    var i := 0;
    while i < padded
      invariant i <= padded && Multiple(i, v) && |acc| == v
      invariant LaneSum(acc, v) == Dot(s, row, i)
    {
      MultipleGap(i, padded, v);
      ghost var before := acc;
      acc := MultiplyAdd(acc, signal[index + i..index + i + v], Load(kernel, phase, i, v));
      LanesAdd(before, acc, s, row, i, v);
      MultipleNext(i, v);
      i := i + v;
    }
    output := SumLanes(acc);
  }

  /** The loop of the constructor: the taps go to phase 0, and the history is silent. */
  method Initialize(signal: array<real>, k: array2<real>, taps: seq<real>)
    requires 1 <= |taps| <= k.Length1 && k.Length0 >= 1 && 2 * |taps| <= signal.Length
    requires forall p, j :: 0 <= p < k.Length0 && 0 <= j < k.Length1 ==> k[p, j] == 0.0
    requires forall j :: 0 <= j < signal.Length ==> signal[j] == 0.0
    modifies signal, k
    ensures forall p, j :: 0 <= p < k.Length0 && 0 <= j < k.Length1 ==>
      k[p, j] == if p == 0 && j < |taps| then taps[j] else 0.0
    ensures forall j :: 0 <= j < signal.Length ==> signal[j] == 0.0
  {
    for i := 0 to |taps|
      invariant forall p, j :: 0 <= p < k.Length0 && 0 <= j < k.Length1 ==>
        k[p, j] == if p == 0 && j < i then taps[j] else 0.0
      invariant forall j :: 0 <= j < signal.Length ==> signal[j] == 0.0
    {
      k[0, i] := taps[i];
      signal[i] := 0.0;
      signal[i + |taps|] := 0.0;
    }
  }

  /** Every further kernel phase is the one before it, moved up by one element and cut to the kernel length. */
  method PopulatePhases(k: array2<real>, taps: seq<real>)
    requires 1 <= |taps| <= k.Length1
    requires forall p, j :: 0 <= p < k.Length0 && 0 <= j < k.Length1 ==>
      k[p, j] == if p == 0 && j < |taps| then taps[j] else 0.0
    modifies k
    ensures forall p, j :: 0 <= p < k.Length0 && 0 <= j < k.Length1 ==>
      k[p, j] == if p <= j < |taps| then taps[j - p] else 0.0
  {
    var n := 1;
    while n < k.Length0
      invariant n >= 1
      invariant forall p, j :: 0 <= p < k.Length0 && 0 <= j < k.Length1 ==>
        k[p, j] == if p < n && p <= j < |taps| then taps[j - p] else 0.0
    {
      for j := 1 to |taps|
        invariant forall p, i :: 0 <= p < k.Length0 && 0 <= i < k.Length1 ==>
          k[p, i] == if (p < n || (p == n && i < j)) && p <= i < |taps| then taps[i - p] else 0.0
      {
        k[n, j] := k[n - 1, j - 1];
      }
      n := n + 1;
    }
  }

  class FIRFilter {
    const length: nat
    const paddedLength: nat
    const numVecElements: nat
    const signal: array<real>
    const kernelphases: array2<real>
    var currentIndex: nat
    var lastPut: nat
    ghost const taps: seq<real>
    ghost var hist: seq<real>  // every sample since construction or reset
    ghost var age: nat         // how many samples back the last put was (1 = the newest)

    ghost predicate Valid()
      reads this, signal, kernelphases
      ensures Valid() ==> length == |taps|
    {
      && KernelReady()
      && signal.Length == paddedLength + length
      && currentIndex == NextIndex(length, |hist|)
      && 1 <= age <= |hist| + 1
      && lastPut == NextIndex(length, |hist| + length - age)
      && Window(signal[..], length, currentIndex, hist)
    }

    /** Phase `p` of the kernel is the kernel shifted by `p`, cut to `length` elements. */
    ghost predicate KernelReady()
      reads this, kernelphases
    {
      && length == |taps| >= 1 && numVecElements >= 1
      && paddedLength == AlignDown(length, numVecElements) + numVecElements
      && kernelphases.Length0 == numVecElements && kernelphases.Length1 == paddedLength
      && forall p, j :: 0 <= p < numVecElements && 0 <= j < paddedLength ==>
           kernelphases[p, j] == if p <= j < length then taps[j - p] else 0.0
    }

    constructor (taps: seq<real>, numVecElements: nat)
      requires |taps| >= 1 && numVecElements >= 1
      ensures Valid() && hist == [] && age == 1
      ensures this.taps == taps && this.numVecElements == numVecElements
      ensures fresh(signal) && fresh(kernelphases)
    {
      hide AlignDown, Multiple, NextIndex, Window;
      length := |taps|;
      this.numVecElements := numVecElements;
      paddedLength := AlignDown(|taps|, numVecElements) + numVecElements;
      signal := new real[AlignDown(|taps|, numVecElements) + numVecElements + |taps|](_ => 0.0);
      kernelphases := new real[numVecElements, AlignDown(|taps|, numVecElements) + numVecElements]((_, _) => 0.0);
      currentIndex := |taps| - 1;
      lastPut := 0;
      this.taps := taps;
      hist := [];
      age := 1;
      new;
      Initialize(signal, kernelphases, taps);
      PopulatePhases(kernelphases, taps);
      SilentStart(signal[..], length);
    }

    /** The copy constructor: an independent filter in the same state. */
    constructor Copy(other: FIRFilter)
      requires other.Valid()
      ensures Valid() && hist == other.hist && age == other.age
      ensures taps == other.taps && numVecElements == other.numVecElements
      ensures fresh(signal) && fresh(kernelphases)
    {
      hide NextIndex, AlignDown, Multiple, Window;
      length := other.length;
      numVecElements := other.numVecElements;
      paddedLength := other.paddedLength;
      signal := new real[other.signal.Length](i requires 0 <= i < other.signal.Length
        reads other, other.signal => other.signal[i]);
      kernelphases := new real[other.kernelphases.Length0, other.kernelphases.Length1](
        (p, j) requires 0 <= p < other.kernelphases.Length0 && 0 <= j < other.kernelphases.Length1
               reads other, other.kernelphases => other.kernelphases[p, j]);
      currentIndex := other.currentIndex;
      lastPut := other.lastPut;
      taps := other.taps;
      hist := other.hist;
      age := other.age;
      new;
      assert signal[..] == other.signal[..];
    }

    method Reset()
      requires Valid()
      modifies this, signal
      ensures Valid() && hist == [] && age == 1
    {
      hide AlignDown, Multiple, NextIndex, Window;
      WindowFits(signal[..], length, currentIndex, hist);
      currentIndex := length - 1;
      lastPut := 0;
      for i := 0 to paddedLength
        modifies signal
        invariant forall j :: 0 <= j < i ==> signal[j] == 0.0
        invariant forall j :: length <= j < length + i ==> signal[j] == 0.0
      {
        signal[i] := 0.0;
        signal[i + length] := 0.0;
      }
      hist := [];
      age := 1;
      SilentStart(signal[..], length);
    }

    /** The part put and putZero share: write, then step down or wrap. */
    method Write(value: real)
      requires Valid()
      modifies this`currentIndex, this`hist, this`age, signal
      ensures Valid() && hist == old(hist) + [value] && age == old(age) + 1
    {
      hide AlignDown, Multiple, Window;
      ghost var before := signal[..];
      WindowFits(before, length, currentIndex, hist);
      signal[currentIndex] := value;
      if currentIndex == 0 {
        currentIndex := length - 1;
        CopyUp(signal, length);
        WindowWrap(before, length, hist, value);
      } else {
        WindowDown(before, length, currentIndex, hist, value);
        assert signal[..] == before[currentIndex := value];
        currentIndex := currentIndex - 1;
      }
      hist := hist + [value];
      age := age + 1;
    }

    method Put(value: real)
      requires Valid()
      modifies this, signal
      ensures Valid() && hist == old(hist) + [value] && age == 1
    {
      var c := currentIndex;
      Write(value);
      lastPut := c;
      age := 1;
      NextIndexAhead(length, |hist| - 1, length);
    }

    method PutZero()
      requires Valid()
      modifies this`currentIndex, this`hist, this`age, signal
      ensures Valid() && hist == old(hist) + [0.0] && age == old(age) + 1
    {
      Write(0.0);
    }

    /** The scalar build of get(). */
    method GetScalar() returns (output: real)
      requires Valid()
      ensures output == TapSum(taps, hist, length)
    {
      output := 0.0;
      var index := currentIndex;
      for i := 0 to length
        invariant index == currentIndex + i
        invariant output == TapSum(taps, hist, i)
      {
        assert signal[index] == signal[..][currentIndex + i];
        assert kernelphases[0, i] == taps[i];
        output := output + signal[index] * kernelphases[0, i];
        index := index + 1;
      }
    }

    /** The vector builds of get(): from the aligned position below, against the kernel phase. */
    method GetVector() returns (output: real)
      requires Valid()
      ensures output == TapSum(taps, hist, TapsUsed(length, numVecElements, |hist|))
    {
      hide AlignDown, Multiple, NextIndex, Window, TapSum, Dot, Load;
      PhaseInside();
      var index := AlignDown(currentIndex, numVecElements);
      var phase := currentIndex - index;
      output := VectorDot(signal, index, kernelphases, phase, numVecElements);
      ShiftedDot(signal[..][index..index + paddedLength], Load(kernelphases, phase, 0, paddedLength), signal[..],
                 currentIndex, phase, taps, hist, paddedLength);
    }

    /** The vector loop stays inside both buffers, and TapsUsed counts the taps its phase has kept. */
    lemma PhaseInside()
      requires Valid()
      ensures length < paddedLength && Multiple(paddedLength, numVecElements)
      ensures var index := AlignDown(currentIndex, numVecElements);
        && currentIndex - index < numVecElements && index + paddedLength <= signal.Length
        && TapsUsed(length, numVecElements, |hist|) == length - (currentIndex - index)
    {
      hide AlignDown, NextIndex, Window;
    }

    /** get() in the build with `numVecElements` lanes. */
    method Get() returns (output: real)
      requires Valid()
      ensures output == GetValue(taps, numVecElements, hist)
    {
      if numVecElements == 1 {
        TapsUsedScalar(length, |hist|);
        output := GetScalar();
      } else {
        output := GetVector();
      }
    }

    /** lazyGet: only every L-th tap, from the last real sample on. */
    method LazyGet(L: nat) returns (output: real)
      requires Valid() && L >= 1
      ensures output == StrideSum(taps, hist, age % length, L)
      ensures OnlyStuffedZeros(hist, age, L) && age <= L ==> output == LazyOutput(taps, hist, L)
      ensures OnlyStuffedZeros(hist, age, L) && age <= L && L < length ==>
        output + taps[0] * signal[currentIndex] == GetValue(taps, 1, hist)
    {
      hide NextIndex, StrideSum, Conv, OnlyStuffedZeros, AlignDown, Multiple, TapsUsed;
      var offset := lastPut - currentIndex;
      if offset < 0 {
        offset := offset + length;
      }
      LazyOffset(length, |hist|, age);
      output := StrideDot(offset, L);
      LazyOutputIs(taps, hist, age, L);
      LazyPlusTapZero(taps, hist);
      assert signal[currentIndex] == signal[..][currentIndex];
    }

    /** The loop of lazyGet. */
    method StrideDot(offset: nat, L: nat) returns (output: real)
      requires Valid() && L >= 1
      ensures output == StrideSum(taps, hist, offset, L)
    {
      hide StrideSum, AlignDown, Multiple, NextIndex;
      output := 0.0;
      var i := offset;
      while i < length
        invariant output + StrideSum(taps, hist, i, L) == StrideSum(taps, hist, offset, L)
        decreases length - i
      {
        assert signal[i + currentIndex] == signal[..][currentIndex + i];
        assert kernelphases[0, i] == taps[i];
        output := output + signal[i + currentIndex] * kernelphases[0, i];
        StrideStep(taps, hist, i, L);
        i := i + L;
      }
      StrideStep(taps, hist, i, L);
    }
  }

  lemma LazyOutputIs(k: seq<real>, x: seq<real>, age: nat, L: nat)
    requires |k| >= 1 && L >= 1 && age >= 1
    ensures OnlyStuffedZeros(x, age, L) && age <= L ==> StrideSum(k, x, age % |k|, L) == LazyOutput(k, x, L)
  {
    hide StrideSum, Conv;
    if OnlyStuffedZeros(x, age, L) && age <= L {
      if L < |k| {
        DivUnique(age, |k|, 0, age);
        StrideSumIsLazyValue(k, x, age, L);
      } else {
        StrideSumIsWhole(k, x, age, L);
      }
    }
  }

  /** Skipping the stuffed zeros costs exactly the tap-0 term. */
  lemma LazyPlusTapZero(taps: seq<real>, x: seq<real>)
    requires |taps| >= 1
    ensures GetValue(taps, 1, x) == LazyValue(taps, x) + taps[0] * At(x, |x| - |taps|)
  {
    TapsUsedScalar(|taps|, |x|);
  }

  /**
   * The distance from the write position back to the last put is its age modulo the length, once the wrap is
   * undone.
   */
  lemma LazyOffset(length: nat, n: nat, age: nat)
    requires length >= 1 && 1 <= age <= n + 1
    ensures var d := NextIndex(length, n + length - age) - NextIndex(length, n);
            age % length == if d < 0 then d + length else d
  {
    hide NextIndex;
    var q, r, k, a := n / length, n % length, age / length, age % length;
    NextIndexMod(length, n);
    NextIndexMod(length, n + length - age);
    assert (q + 1 - k) * length == q * length + length - k * length;
    if r >= a {
      DivUnique(n + length - age, length, q + 1 - k, r - a);
    } else {
      assert (q - k) * length == q * length - k * length;
      DivUnique(n + length - age, length, q - k, r - a + length);
    }
  }

  lemma TapsUsedScalar(length: nat, n: nat)
    requires length >= 1
    ensures TapsUsed(length, 1, n) == length
  {
  }
}
