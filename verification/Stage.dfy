/** One resampling stage of srconvert.h: interpolate by L, filter, decimate by M. */
module Stage {
  import opened Signals
  import opened FirFilter

  datatype StageSpec = StageSpec(L: nat, M: nat, taps: seq<real>, v: nat, bypass: bool) {
    predicate WellFormed() {
      L >= 1 && M >= 1 && |taps| >= 1 && v >= 1
    }

    /** Only the path with both factors different from 1 skips the stuffed zeros. */
    predicate Lazy() {
      L != 1 && M != 1 && !bypass
    }
  }

  /** All that is asked of a stage: factors of 1 at least, a tap, and a lane. */
  lemma AnyStageFits(L: nat, M: nat, taps: seq<real>, v: nat, bypass: bool)
    requires L >= 1 && M >= 1 && |taps| >= 1 && v >= 1
    ensures StageSpec(L, M, taps, v, bypass).WellFormed()
    ensures StageSpec(L, M, taps, v, bypass).Lazy() <==> L > 1 && M > 1 && !bypass
  {
  }

  /** The decimation counter after `n` stuffed samples. */
  function Phase(M: nat, n: nat): (p: nat)
    requires M >= 1
    ensures p < M
  {
    if n == 0 then 0 else if Phase(M, n - 1) + 1 == M then 0 else Phase(M, n - 1) + 1
  }

  lemma PhaseNext(M: nat, n: nat)
    requires M >= 1
    ensures Phase(M, n + 1) == if Phase(M, n) + 1 == M then 0 else Phase(M, n) + 1
  {
  }

  /** How many of `n` stuffed samples produce an output. */
  function OutCount(M: nat, n: nat): nat
    requires M >= 1
  {
    if n == 0 then 0 else OutCount(M, n - 1) + if Phase(M, n - 1) == 0 then 1 else 0
  }

  lemma {:induction false} OutCountMonotone(M: nat, n: nat, n': nat)
    requires M >= 1 && n <= n'
    ensures OutCount(M, n) <= OutCount(M, n')
  {
    if n < n' { OutCountMonotone(M, n, n' - 1); }
  }

  /** The filter output at the newest of the stuffed samples `h`. */
  ghost function FilterOut(c: StageSpec, h: seq<real>): real
    requires c.WellFormed()
  {
    if c.Lazy() then LazyOutput(c.taps, h, c.L) else GetValue(c.taps, c.v, h)
  }

  lemma LazyOut(c: StageSpec, h: seq<real>)
    requires c.WellFormed() && c.Lazy()
    ensures FilterOut(c, h) == LazyOutput(c.taps, h, c.L)
  {
  }

  /** All outputs for the stuffed samples `h`: one at each sample that finds the counter at 0. */
  ghost function Outs(c: StageSpec, h: seq<real>): seq<real>
    requires c.WellFormed()
  {
    if h == [] then []
    else Outs(c, h[..|h| - 1]) + if Phase(c.M, |h| - 1) == 0 then [FilterOut(c, h)] else []
  }

  /** All outputs of a stage that has been fed `u`. */
  ghost function StageOut(c: StageSpec, u: seq<real>): seq<real>
    requires c.WellFormed()
  {
    if c.bypass then u else Outs(c, Stuff(u, c.L))
  }

  lemma OutsStep(c: StageSpec, h: seq<real>, x: real)
    requires c.WellFormed()
    ensures Outs(c, h + [x]) == Outs(c, h) + if Phase(c.M, |h|) == 0 then [FilterOut(c, h + [x])] else []
  {
    assert (h + [x])[..|h|] == h;
  }

  lemma {:induction false} OutsCount(c: StageSpec, h: seq<real>)
    requires c.WellFormed()
    ensures |Outs(c, h)| == OutCount(c.M, |h|)
  {
    if h != [] { OutsCount(c, h[..|h| - 1]); }
  }

  lemma {:induction false} OutsPrefix(c: StageSpec, h: seq<real>, g: seq<real>)
    requires c.WellFormed()
    ensures Outs(c, h) <= Outs(c, h + g)
  {
    if g == [] {
      assert h + g == h;
    } else {
      var n := |g| - 1;
      OutsPrefix(c, h, g[..n]);
      assert (h + g)[..|h + g| - 1] == h + g[..n];
    }
  }

  lemma {:induction false} StuffPrefix(u: seq<real>, w: seq<real>, L: nat)
    requires L >= 1
    ensures Stuff(u, L) <= Stuff(u + w, L)
  {
    if w == [] {
      assert u + w == u;
    } else {
      var n := |w| - 1;
      StuffPrefix(u, w[..n], L);
      assert (u + w)[..|u + w| - 1] == u + w[..n];
    }
  }

  /** Feeding more only appends outputs. */
  lemma StageOutPrefix(c: StageSpec, u: seq<real>, w: seq<real>)
    requires c.WellFormed()
    ensures StageOut(c, u) <= StageOut(c, u + w)
  {
    if !c.bypass {
      StuffPrefix(u, w, c.L);
      var h, g := Stuff(u, c.L), Stuff(u + w, c.L);
      assert g == h + g[|h|..];
      OutsPrefix(c, h, g[|h|..]);
    }
  }

  /** The outputs a stage that has been fed `u` gives for the next samples `w`. */
  ghost function NextOut(c: StageSpec, u: seq<real>, w: seq<real>): (r: seq<real>)
    requires c.WellFormed()
    ensures StageOut(c, u + w) == StageOut(c, u) + r
  {
    StageOutPrefix(c, u, w);
    StageOut(c, u + w)[|StageOut(c, u)|..]
  }

  /** After some of the samples, the outputs still fit where all of them do. */
  lemma Fits(c: StageSpec, u: seq<real>, w: seq<real>, i: nat, rest: seq<real>, h: seq<real>)
    requires c.WellFormed() && !c.bypass && i <= |w|
    requires Stuff(u + w[..i], c.L) == h + rest
    ensures |Outs(c, h)| <= |StageOut(c, u)| + |NextOut(c, u, w)|
  {
    assert (u + w[..i]) + w[i..] == u + w;
    StuffPrefix(u + w[..i], w[i..], c.L);
    OutsCount(c, h);
    OutsCount(c, Stuff(u + w, c.L));
    OutCountMonotone(c.M, |h|, |Stuff(u + w, c.L)|);
  }

  /** The first `l` stuffed samples of one input sample. */
  ghost function Burst(x: real, l: nat): (b: seq<real>)
  {
    if l == 0 then [] else [x] + Zeros(l - 1)
  }

  lemma BurstStep(h: seq<real>, x: real, l: nat, L: nat)
    requires l < L
    ensures h + Burst(x, l + 1) == h + Burst(x, l) + [if l == 0 then x else 0.0]
    ensures h + Burst(x, L) == h + Burst(x, l + 1) + Zeros(L - l - 1)
  {
  }

  lemma BurstOne(h: seq<real>, x: real)
    ensures h + Burst(x, 0) == h && h + Burst(x, 1) == h + [x]
  {
  }

  lemma NextStuffed(u: seq<real>, w: seq<real>, i: nat, L: nat)
    requires L >= 1 && i < |w|
    ensures Stuff(u + w[..i + 1], L) == Stuff(u + w[..i], L) + Burst(w[i], L)
  {
    assert u + w[..i + 1] == u + w[..i] + [w[i]];
    StuffAppend(u + w[..i], w[i], L);
  }

  /** outBuffer[o++] = y */
  method Emit(outBuffer: array<real>, o: nat, y: real) returns (o': nat)
    requires o < outBuffer.Length
    modifies outBuffer
    ensures o' == o + 1 && outBuffer[..o'] == old(outBuffer[..o]) + [y]
    ensures forall k :: o' <= k < outBuffer.Length ==> outBuffer[k] == old(outBuffer[k])
  {
    outBuffer[o] := y;
    o' := o + 1;
  }

  class ResamplingStage {
    const L: nat
    const M: nat
    var m: nat
    const filter: FIRFilter
    const bypassMode: bool
    ghost var fed: seq<real>  // all input since construction or reset

    ghost function Spec(): StageSpec {
      StageSpec(L, M, filter.taps, filter.numVecElements, bypassMode)
    }

    ghost predicate Valid()
      reads this, filter, filter.signal, filter.kernelphases
    {
      Spec().WellFormed() && filter.Valid() && (!bypassMode ==> Tracks(Stuff(fed, L), m))
    }

    /** The filter has seen the stuffed samples `h`, and the decimation counter is `m'`. */
    ghost predicate Tracks(h: seq<real>, m': nat)
      requires L >= 1 && M >= 1
      reads this, filter
    {
      && filter.hist == h && m' == Phase(M, |h|)
      && (Spec().Lazy() ==> (filter.age == L || h == []) && OnlyStuffedZeros(h, filter.age, L))
    }

    constructor (L: nat, M: nat, filter: FIRFilter, bypassMode: bool)
      requires filter.Valid() && filter.hist == [] && filter.age == 1
      requires StageSpec(L, M, filter.taps, filter.numVecElements, bypassMode).WellFormed()
      ensures Valid() && fed == []
      ensures Spec() == StageSpec(L, M, filter.taps, filter.numVecElements, bypassMode)
      ensures fresh(this.filter) && fresh(this.filter.signal) && fresh(this.filter.kernelphases)
    {
      this.L := L;
      this.M := M;
      m := 0;
      var copy := new FIRFilter.Copy(filter);
      this.filter := copy;
      this.bypassMode := bypassMode;
      fed := [];
    }

    method Reset()
      requires Valid()
      modifies this, filter, filter.signal
      ensures Valid() && fed == []
    {
      filter.Reset();
      m := 0;
      fed := [];
    }

    /** convert(): the path that SetConvertFunction selects. */
    method Convert(outBuffer: array<real>, inBuffer: array<real>, inBufferSize: nat) returns (outBufferSize: nat)
      requires Ready(outBuffer, inBuffer, inBufferSize)
      modifies this, filter, filter.signal, outBuffer
      ensures Converted(old(fed), outBuffer, old(outBuffer[..]), old(inBuffer[..inBufferSize]), outBufferSize)
      ensures bypassMode ==>
        outBufferSize == inBufferSize && outBuffer[..inBufferSize] == old(inBuffer[..inBufferSize])
    {
      if bypassMode {
        outBufferSize := PassThrough(outBuffer, inBuffer, inBufferSize);
      } else if L == 1 && M == 1 {
        outBufferSize := FilterOnly(outBuffer, inBuffer, inBufferSize);
      } else if L != 1 && M == 1 {
        outBufferSize := Interpolate(outBuffer, inBuffer, inBufferSize);
      } else if L == 1 && M != 1 {
        outBufferSize := Decimate(outBuffer, inBuffer, inBufferSize);
      } else {
        outBufferSize := InterpolateAndDecimate(outBuffer, inBuffer, inBufferSize);
      }
    }

    ghost predicate Ready(outBuffer: array<real>, inBuffer: array<real>, inBufferSize: nat)
      reads this, filter, filter.signal, filter.kernelphases, inBuffer
    {
      && Valid() && inBufferSize <= inBuffer.Length
      && inBuffer != outBuffer && inBuffer != filter.signal && outBuffer != filter.signal
      && |NextOut(Spec(), fed, inBuffer[..inBufferSize])| <= outBuffer.Length
    }

    /** The new outputs are in the buffer, nothing beyond them has changed, and the stage has been fed the input. */
    ghost predicate Converted(fed0: seq<real>, outBuffer: array<real>, out0: seq<real>, input: seq<real>, size: nat)
      reads this, filter, filter.signal, filter.kernelphases, outBuffer
    {
      && Valid() && fed == fed0 + input
      && size <= outBuffer.Length == |out0|
      && outBuffer[..size] == NextOut(Spec(), fed0, input)
      && (forall k :: size <= k < |out0| ==> outBuffer[k] == out0[k])
    }

    method PassThrough(outBuffer: array<real>, inBuffer: array<real>, inBufferSize: nat) returns (outBufferSize: nat)
      requires Ready(outBuffer, inBuffer, inBufferSize) && bypassMode
      modifies this, filter, filter.signal, outBuffer
      ensures Converted(old(fed), outBuffer, old(outBuffer[..]), old(inBuffer[..inBufferSize]), outBufferSize)
      ensures outBufferSize == inBufferSize && outBuffer[..inBufferSize] == old(inBuffer[..inBufferSize])
    {
      forall i | 0 <= i < inBufferSize { outBuffer[i] := inBuffer[i]; }
      outBufferSize := inBufferSize;
      fed := fed + inBuffer[..inBufferSize];
    }

    /** In a convert loop: the filter has seen `h`, and the outputs for it are `base` and the buffer up to `o`. */
    ghost predicate Emitted(c: StageSpec, base: seq<real>, h: seq<real>, outBuffer: array<real>, out0: seq<real>,
      o: nat)
      requires c.WellFormed()
      reads this, filter, filter.signal, filter.kernelphases, outBuffer
    {
      && filter.Valid() && filter.hist == h
      && o <= outBuffer.Length == |out0|
      && Outs(c, h) == base + outBuffer[..o]
      && (forall k :: o <= k < |out0| ==> outBuffer[k] == out0[k])
    }

    method FilterOnly(outBuffer: array<real>, inBuffer: array<real>, inBufferSize: nat) returns (outBufferSize: nat)
      requires Ready(outBuffer, inBuffer, inBufferSize) && !bypassMode && L == 1 && M == 1
      modifies this, filter, filter.signal, outBuffer
      ensures Converted(old(fed), outBuffer, old(outBuffer[..]), old(inBuffer[..inBufferSize]), outBufferSize)
    {
      hide FIRFilter.Valid, FirFilter.GetValue, FirFilter.LazyValue, OnlyStuffedZeros, Stuff, Burst, Outs;
      var o := 0;
      ghost var w, c, out0 := inBuffer[..inBufferSize], Spec(), outBuffer[..];
      ghost var base := StageOut(c, fed);
      assert fed + w[..0] == fed && fed + w[..|w|] == fed + w;
      for i := 0 to inBufferSize
        modifies filter, filter.signal, outBuffer
        invariant o == i && Emitted(c, base, Stuff(fed + w[..i], 1), outBuffer, out0, o)
      {
        NextStuffed(fed, w, i, 1);
        BurstOne(filter.hist, w[i]);
        OutsStep(c, filter.hist, w[i]);
        Fits(c, fed, w, i + 1, [], filter.hist + [w[i]]);
        filter.Put(inBuffer[i]);
        var y := filter.Get();
        o := Emit(outBuffer, o, y);
      }
      outBufferSize := inBufferSize;
      fed := fed + w;
    }

    method Interpolate(outBuffer: array<real>, inBuffer: array<real>, inBufferSize: nat) returns (outBufferSize: nat)
      requires Ready(outBuffer, inBuffer, inBufferSize) && !bypassMode && L != 1 && M == 1
      modifies this, filter, filter.signal, outBuffer
      ensures Converted(old(fed), outBuffer, old(outBuffer[..]), old(inBuffer[..inBufferSize]), outBufferSize)
    {
      hide FIRFilter.Valid, FirFilter.GetValue, FirFilter.LazyValue, OnlyStuffedZeros, Stuff, Burst, Outs;
      var o := 0;
      ghost var w, c, out0 := inBuffer[..inBufferSize], Spec(), outBuffer[..];
      ghost var base := StageOut(c, fed);
      assert fed + w[..0] == fed && fed + w[..|w|] == fed + w;
      for i := 0 to inBufferSize
        modifies filter, filter.signal, outBuffer
        invariant Emitted(c, base, Stuff(fed + w[..i], L), outBuffer, out0, o)
      {
        NextStuffed(fed, w, i, L);
        ghost var h := filter.hist;
        BurstOne(h, w[i]);
        for l := 0 to L
          modifies filter, filter.signal, outBuffer
          invariant Emitted(c, base, h + Burst(w[i], l), outBuffer, out0, o)
        {
          BurstStep(h, w[i], l, L);
          OutsStep(c, filter.hist, if l == 0 then w[i] else 0.0);
          Fits(c, fed, w, i + 1, Zeros(L - l - 1), h + Burst(w[i], l + 1));
          filter.Put(if l == 0 then inBuffer[i] else 0.0);
          var y := filter.Get();
          o := Emit(outBuffer, o, y);
        }
      }
      outBufferSize := o;
      fed := fed + w;
    }

    method Decimate(outBuffer: array<real>, inBuffer: array<real>, inBufferSize: nat) returns (outBufferSize: nat)
      requires Ready(outBuffer, inBuffer, inBufferSize) && !bypassMode && L == 1 && M != 1
      modifies this, filter, filter.signal, outBuffer
      ensures Converted(old(fed), outBuffer, old(outBuffer[..]), old(inBuffer[..inBufferSize]), outBufferSize)
    {
      hide FIRFilter.Valid, FirFilter.GetValue, FirFilter.LazyValue, OnlyStuffedZeros, Stuff, Burst, Outs;
      var o := 0;
      ghost var w, c, out0 := inBuffer[..inBufferSize], Spec(), outBuffer[..];
      ghost var base := StageOut(c, fed);
      assert fed + w[..0] == fed && fed + w[..|w|] == fed + w;
      var localm := m;
      for i := 0 to inBufferSize
        modifies filter, filter.signal, outBuffer
        invariant Emitted(c, base, Stuff(fed + w[..i], 1), outBuffer, out0, o)
        invariant localm == Phase(M, |filter.hist|)
      {
        NextStuffed(fed, w, i, 1);
        BurstOne(filter.hist, w[i]);
        OutsStep(c, filter.hist, w[i]);
        filter.Put(inBuffer[i]);
        if localm == 0 {
          Fits(c, fed, w, i + 1, [], filter.hist);
          var y := filter.Get();
          o := Emit(outBuffer, o, y);
        }
        localm := localm + 1;
        if localm == M {
          localm := 0;
        }
      }
      outBufferSize := o;
      m := localm;
      fed := fed + w;
    }

    /** The l-th of the L stuffed samples: put the input sample, then putZero. */
    method PutStuffed(x: real, l: nat)
      requires filter.Valid() && l < L && OnlyStuffedZeros(filter.hist, filter.age, L)
      requires if l == 0 then filter.age == L || filter.hist == [] else filter.age == l
      modifies filter, filter.signal
      ensures filter.Valid() && filter.hist == old(filter.hist) + [if l == 0 then x else 0.0]
      ensures filter.age == l + 1 && OnlyStuffedZeros(filter.hist, filter.age, L)
    {
      if l == 0 {
        StuffedPut(filter.hist, filter.age, L, x);
        filter.Put(x);
      } else {
        StuffedZero(filter.hist, filter.age, L);
        filter.PutZero();
      }
    }

    /** The counter, what is in the filter, and what has been emitted, before the l-th of the stuffed samples of `x`. */
    ghost predicate Stuffing(c: StageSpec, base: seq<real>, h: seq<real>, x: real, l: nat, localm: nat,
                             outBuffer: array<real>, out0: seq<real>, o: nat)
      requires c.WellFormed() && L >= 1 && M >= 1
      reads this, filter, filter.signal, filter.kernelphases, outBuffer
    {
      && Emitted(c, base, h + Burst(x, l), outBuffer, out0, o) && localm == Phase(M, |filter.hist|)
      && (if l == 0 then filter.age == L || filter.hist == [] else filter.age == l)
      && OnlyStuffedZeros(filter.hist, filter.age, L)
    }

    /** The inner loop body: one stuffed sample goes in, and an output comes out if the counter is at 0. */
    method StuffOne(x: real, l: nat, m0: nat, outBuffer: array<real>, o0: nat,
                    ghost base: seq<real>, ghost h: seq<real>, ghost out0: seq<real>)
      returns (localm: nat, o: nat)
      requires Spec().WellFormed() && Spec().Lazy() && l < L && outBuffer != filter.signal
      requires Stuffing(Spec(), base, h, x, l, m0, outBuffer, out0, o0)
      requires |Outs(Spec(), h + Burst(x, l + 1))| <= |base| + outBuffer.Length
      modifies filter, filter.signal, outBuffer
      ensures Stuffing(Spec(), base, h, x, l + 1, localm, outBuffer, out0, o)
    {
      hide FIRFilter.Valid, FirFilter.GetValue, FirFilter.LazyValue, LazyOutput, OnlyStuffedZeros, Stuff, Burst, Outs,
        Phase, Zeros, FilterOut;
      localm, o := m0, o0;
      BurstStep(h, x, l, L);
      PhaseNext(M, |filter.hist|);
      LazyOut(Spec(), h + Burst(x, l + 1));
      OutsStep(Spec(), filter.hist, if l == 0 then x else 0.0);
      PutStuffed(x, l);
      if localm == 0 {
        var y := filter.LazyGet(L);
        o := Emit(outBuffer, o, y);
      }
      localm := localm + 1;
      if localm == M {
        localm := 0;
      }
    }

    method InterpolateAndDecimate(outBuffer: array<real>, inBuffer: array<real>, inBufferSize: nat)
      returns (outBufferSize: nat)
      requires Ready(outBuffer, inBuffer, inBufferSize) && !bypassMode && L != 1 && M != 1
      modifies this, filter, filter.signal, outBuffer
      ensures Converted(old(fed), outBuffer, old(outBuffer[..]), old(inBuffer[..inBufferSize]), outBufferSize)
    {
      hide FIRFilter.Valid, FirFilter.GetValue, FirFilter.LazyValue, OnlyStuffedZeros, Stuff, Burst, Outs, Phase,
        Zeros, FilterOut;
      var o := 0;
      ghost var w, c, out0 := inBuffer[..inBufferSize], Spec(), outBuffer[..];
      ghost var base := StageOut(c, fed);
      assert fed + w[..0] == fed && fed + w[..|w|] == fed + w;
      var localm := m;
      for i := 0 to inBufferSize
        modifies filter, filter.signal, outBuffer
        invariant Emitted(c, base, Stuff(fed + w[..i], L), outBuffer, out0, o)
        invariant localm == Phase(M, |filter.hist|)
        invariant (filter.age == L || filter.hist == []) && OnlyStuffedZeros(filter.hist, filter.age, L)
      {
        NextStuffed(fed, w, i, L);
        ghost var h := filter.hist;
        BurstOne(h, w[i]);
        for l := 0 to L
          modifies filter, filter.signal, outBuffer
          invariant Stuffing(c, base, h, w[i], l, localm, outBuffer, out0, o)
        {
          BurstStep(h, w[i], l, L);
          Fits(c, fed, w, i + 1, Zeros(L - l - 1), h + Burst(w[i], l + 1));
          localm, o := StuffOne(inBuffer[i], l, localm, outBuffer, o, base, h, out0);
        }
      }
      outBufferSize := o;
      m := localm;
      fed := fed + w;
    }
  }
}
