/** Sample streams over the reals, and the sums the resampling engine is measured against. */
module Signals {

  function Abs(x: real): (r: real)
    ensures r >= 0.0 && (r == x || r == -x)
  {
    if x < 0.0 then -x else x
  }

  /** The sample at time `t` of a stream that is silent before its start and after its end. */
  function At(x: seq<real>, t: int): real {
    if 0 <= t < |x| then x[t] else 0.0
  }

  /** The convolution sum of taps `lo..hi` at time `n`: tap `i` meets the sample at `n - i`. */
  ghost function Conv(k: seq<real>, x: seq<real>, n: int, lo: nat, hi: int): real
    requires hi <= |k|
    decreases hi - lo
  {
    if hi <= lo then 0.0 else Conv(k, x, n, lo, hi - 1) + k[hi - 1] * At(x, n - (hi - 1))
  }

  function Zeros(n: nat): (z: seq<real>)
    ensures |z| == n && forall i :: 0 <= i < n ==> z[i] == 0.0
  {
    seq(n, _ => 0.0)
  }

  /** Zero-stuffing: every sample is followed by `L - 1` zeros. */
  ghost function Stuff(u: seq<real>, L: nat): seq<real>
    requires L >= 1
  {
    if u == [] then [] else Stuff(u[..|u| - 1], L) + [u[|u| - 1]] + Zeros(L - 1)
  }

  lemma StuffAppend(u: seq<real>, v: real, L: nat)
    requires L >= 1
    ensures Stuff(u + [v], L) == Stuff(u, L) + [v] + Zeros(L - 1)
  {
    assert (u + [v])[..|u|] == u;
  }

  lemma MulMono(a: int, b: int, c: nat)
    requires a <= b
    ensures a * c <= b * c
  {
  }

  /** Quotient and remainder are the only pair that splits `t` this way. */
  lemma DivUnique(t: int, L: int, q: int, r: int)
    requires t == q * L + r && 0 <= r < L
    ensures t / L == q && t % L == r
  {
    var d := t / L - q;
    assert d * L == r - t % L;
    if d >= 1 { MulMono(1, d, L); }
    if d <= -1 { MulMono(d, -1, L); }
  }

  lemma {:induction false} StuffLength(u: seq<real>, L: nat)
    requires L >= 1
    ensures |Stuff(u, L)| == |u| * L
  {
    if u != [] {
      StuffLength(u[..|u| - 1], L);
      assert (|u| - 1) * L + L == |u| * L;
    }
  }

  /** Group `q` stands before, in or after group `n`. */
  lemma GroupOrder(q: int, r: int, n: nat, L: nat)
    requires 0 <= r < L
    ensures q < n <==> q * L + r < n * L
    ensures q < n ==> (q >= 0 <==> q * L + r >= 0)
    ensures q > n ==> q * L + r >= n * L + L
  {
    if q < n {
      MulMono(q + 1, n, L);
      if q >= 0 { MulMono(0, q, L); } else { MulMono(q, -1, L); }
    } else if q > n {
      MulMono(n + 1, q, L);
    }
  }

  /** Stuffing, by position: the stream has L·|u| samples, and only multiples of L carry input. */
  lemma {:induction false} StuffAt(u: seq<real>, L: nat, q: int, r: nat)
    requires 0 <= r < L
    ensures |Stuff(u, L)| == |u| * L
    ensures At(Stuff(u, L), q * L + r) == if r == 0 then At(u, q) else 0.0
  {
    StuffLength(u, L);
    if u != [] {
      var n := |u| - 1;
      StuffLength(u[..n], L);
      StuffAt(u[..n], L, q, r);
      GroupOrder(q, r, n, L);
      var before, t, m := Stuff(u[..n], L), q * L + r, n * L;
      assert Stuff(u, L) == before + [u[n]] + Zeros(L - 1) && |before| == m;
      assert q == n ==> t == m + r;
    }
  }

  /** A stream that agrees on the samples the taps meet gives the same sum. */
  lemma {:induction false} ConvEqual(k: seq<real>, x: seq<real>, y: seq<real>, n: int, lo: nat, hi: int)
    requires hi <= |k|
    requires forall t :: n - hi < t <= n - lo ==> At(x, t) == At(y, t)
    ensures Conv(k, x, n, lo, hi) == Conv(k, y, n, lo, hi)
    decreases hi - lo
  {
    if hi > lo {
      ConvEqual(k, x, y, n, lo, hi - 1);
    }
  }

  /** Taps that are zero do not contribute. */
  lemma {:induction false} ConvZeroTail(k: seq<real>, x: seq<real>, n: int, lo: nat, mid: int, hi: int)
    requires lo <= mid <= hi <= |k|
    requires forall i :: mid <= i < hi ==> k[i] == 0.0
    ensures Conv(k, x, n, lo, hi) == Conv(k, x, n, lo, mid)
    decreases hi - mid
  {
    if hi > mid {
      ConvZeroTail(k, x, n, lo, mid, hi - 1);
    }
  }

  lemma {:induction false} ConvSplit(k: seq<real>, x: seq<real>, n: int, lo: nat, mid: int, hi: int)
    requires lo <= mid <= hi <= |k|
    ensures Conv(k, x, n, lo, hi) == Conv(k, x, n, lo, mid) + Conv(k, x, n, mid, hi)
    decreases hi - mid
  {
    if hi > mid {
      ConvSplit(k, x, n, lo, mid, hi - 1);
    }
  }

  /** Taps that meet only silence do not contribute. */
  lemma {:induction false} ConvSilent(k: seq<real>, x: seq<real>, n: int, lo: nat, hi: int)
    requires hi <= |k|
    requires forall t :: n - hi < t <= n - lo ==> At(x, t) == 0.0
    ensures Conv(k, x, n, lo, hi) == 0.0
    decreases hi - lo
  {
    if hi > lo {
      ConvSilent(k, x, n, lo, hi - 1);
    }
  }
}
