/** Whole runs of a converter: streaming, and how many samples come out. */
module ConverterTheorems {
  import opened Signals
  import opened Stage
  import opened StageTheorems
  import opened Converters

  function Concat(ws: seq<seq<real>>): seq<real> {
    if ws == [] then [] else Concat(ws[..|ws| - 1]) + ws[|ws| - 1]
  }

  /** The outputs of one convert call per block, in order, from a converter already fed `u`. */
  ghost function Feed(cs: seq<StageSpec>, u: seq<real>, ws: seq<seq<real>>): seq<real>
    requires AllWellFormed(cs)
  {
    if ws == [] then []
    else
      var n := |ws| - 1;
      Feed(cs, u, ws[..n]) + ChainNext(cs, u + Concat(ws[..n]), ws[n])
  }

  /** Streaming: however the input is cut into blocks, the outputs join to those of a single call. */
  lemma {:induction false} FeedIsOneCall(cs: seq<StageSpec>, u: seq<real>, ws: seq<seq<real>>)
    requires AllWellFormed(cs)
    ensures Feed(cs, u, ws) == ChainNext(cs, u, Concat(ws))
  {
    hide ChainNext;
    if ws == [] {
      NothingNext(cs, u);
    } else {
      var n := |ws| - 1;
      FeedIsOneCall(cs, u, ws[..n]);
      NextConcat(cs, u, Concat(ws[..n]), ws[n]);
    }
  }

  /** A stream for each place between the stages: each stage makes the next stream of the one before it. */
  ghost predicate Cascade(cs: seq<StageSpec>, streams: seq<seq<real>>)
    requires AllWellFormed(cs)
  {
    |streams| == |cs| + 1 && forall k :: 0 <= k < |cs| ==> streams[k + 1] == StageOut(cs[k], streams[k])
  }

  lemma {:induction false} CascadeOf(cs: seq<StageSpec>, u: seq<real>) returns (streams: seq<seq<real>>)
    requires AllWellFormed(cs)
    ensures Cascade(cs, streams) && streams[0] == u && streams[|cs|] == ChainOut(cs, u)
  {
    hide StageOut;
    if cs == [] {
      streams := [u];
    } else {
      var front := cs[..|cs| - 1];
      var ss := CascadeOf(front, u);
      streams := ss + [ChainOut(cs, u)];
      forall k | 0 <= k < |cs| ensures streams[k + 1] == StageOut(cs[k], streams[k]) {
        if k < |front| { assert front[k] == cs[k]; }
      }
    }
  }

  lemma {:induction false} CascadeUnique(cs: seq<StageSpec>, streams: seq<seq<real>>)
    requires AllWellFormed(cs) && Cascade(cs, streams)
    ensures streams[|cs|] == ChainOut(cs, streams[0])
  {
    hide StageOut;
    if cs != [] {
      var front := cs[..|cs| - 1];
      forall k | 0 <= k < |front| ensures streams[..|cs|][k + 1] == StageOut(front[k], streams[..|cs|][k]) {
        assert front[k] == cs[k];
      }
      CascadeUnique(front, streams[..|cs|]);
    }
  }

  /** What comes out of a chain: the end of the streams that the stages make one of the other, in their order. */
  lemma ChainIsCascade(cs: seq<StageSpec>, u: seq<real>, v: seq<real>)
    requires AllWellFormed(cs)
    ensures ChainOut(cs, u) == v <==>
      exists streams :: Cascade(cs, streams) && streams[0] == u && streams[|cs|] == v
  {
    hide ChainOut, StageOut;
    var ss := CascadeOf(cs, u);
    if streams :| Cascade(cs, streams) && streams[0] == u && streams[|cs|] == v { CascadeUnique(cs, streams); }
  }

  lemma NothingNext(cs: seq<StageSpec>, u: seq<real>)
    requires AllWellFormed(cs)
    ensures ChainNext(cs, u, []) == []
  {
    assert u + [] == u;
  }

  /** Two calls give what one call on both inputs gives. */
  lemma NextConcat(cs: seq<StageSpec>, u: seq<real>, a: seq<real>, b: seq<real>)
    requires AllWellFormed(cs)
    ensures ChainNext(cs, u, a + b) == ChainNext(cs, u, a) + ChainNext(cs, u + a, b)
  {
    hide ChainNext, ChainOut;
    assert u + (a + b) == (u + a) + b;
    var o := ChainOut(cs, u);
    assert o + ChainNext(cs, u, a + b) == (o + ChainNext(cs, u, a)) + ChainNext(cs, u + a, b)
        == o + (ChainNext(cs, u, a) + ChainNext(cs, u + a, b));
    SamePrefix(o, ChainNext(cs, u, a + b), ChainNext(cs, u, a) + ChainNext(cs, u + a, b));
  }

  lemma SamePrefix(o: seq<real>, x: seq<real>, y: seq<real>)
    requires o + x == o + y
    ensures x == y
  {
    assert x == (o + x)[|o|..] && y == (o + y)[|o|..];
  }

  /** The nested ceilings f_i = ceil(f_{i-1}·L_i / M_i). */
  function ChainCount(cs: seq<StageSpec>, n: nat): nat
    requires forall i :: 0 <= i < |cs| ==> cs[i].M >= 1
  {
    if cs == [] then n
    else
      var c := cs[|cs| - 1];
      CeilDiv(ChainCount(cs[..|cs| - 1], n) * c.L, c.M)
  }

  ghost predicate Filtering(cs: seq<StageSpec>) {
    AllWellFormed(cs) && forall i :: 0 <= i < |cs| ==> !cs[i].bypass
  }

  lemma {:induction false} ChainOutCount(cs: seq<StageSpec>, u: seq<real>)
    requires Filtering(cs)
    ensures |ChainOut(cs, u)| == ChainCount(cs, |u|)
  {
    if cs != [] {
      var front := cs[..|cs| - 1];
      ChainOutCount(front, u);
      OutputCount(cs[|cs| - 1], ChainOut(front, u));
    }
  }

  /** The exact ratio of one stage. */
  ghost function Factor(c: StageSpec): (k: real)
    requires c.M >= 1
    ensures k >= 0.0
  {
    c.L as real / c.M as real
  }

  /** The product of the stage ratios. */
  ghost function Ratio(cs: seq<StageSpec>): real
    requires AllWellFormed(cs)
  {
    if cs == [] then 1.0
    else Ratio(cs[..|cs| - 1]) * Factor(cs[|cs| - 1])
  }

  /** For each stage, the product of the ratios of the stages after it, summed. */
  ghost function Slack(cs: seq<StageSpec>): real
    requires AllWellFormed(cs)
  {
    if cs == [] then 0.0
    else Slack(cs[..|cs| - 1]) * Factor(cs[|cs| - 1]) + 1.0
  }

  /** The bound in figures: below 1 for one stage, and for two below 1 and the ratio of the second. */
  lemma SlackInFigures(c: StageSpec, d: StageSpec)
    requires c.WellFormed() && d.WellFormed()
    ensures Slack([]) == 0.0 && Slack([c]) == 1.0 && Slack([c, d]) == Factor(d) + 1.0
    ensures Factor(d) * d.M as real == d.L as real
  {
    assert [c, d][..1] == [c] && [c][..0] == [];
  }

  lemma CeilBounds(n: nat, d: nat)
    requires d >= 1
    ensures n <= CeilDiv(n, d) * d < n + d
  {
    var q, r := n / d, n % d;
    CeilDivAt(n, d, q, r);
    assert (q + 1) * d == q * d + d;
  }

  lemma RealQuotient(c: int, n: int, d: nat)
    requires d >= 1 && n <= c * d < n + d
    ensures 0.0 <= c as real - n as real / d as real < 1.0
  {
    var x, e := n as real / d as real, d as real;
    assert x * e == n as real;
    Bounded(c as real - x, e, (c * d - n) as real);
  }

  /** A factor is in [0, 1) if the product is in [0, e). */
  lemma Bounded(y: real, e: real, z: real)
    requires e > 0.0 && y * e == z && 0.0 <= z < e
    ensures 0.0 <= y < 1.0
  {
    ProductSign(y, e);
    ProductSign(1.0 - y, e);
  }

  lemma ProductSign(y: real, e: real)
    requires e > 0.0
    ensures y < 0.0 ==> y * e < 0.0
    ensures y <= 0.0 ==> y * e <= 0.0
  {
  }

  lemma CeilDivReal(n: nat, d: nat)
    requires d >= 1
    ensures 0.0 <= CeilDiv(n, d) as real - n as real / d as real < 1.0
  {
    hide CeilDiv;
    CeilBounds(n, d);
    RealQuotient(CeilDiv(n, d), n, d);
  }

  lemma StageRoundsUp(c: StageSpec, f: nat)
    requires c.M >= 1
    ensures 0.0 <= CeilDiv(f * c.L, c.M) as real - f as real * Factor(c) < 1.0
  {
    hide CeilDiv;
    CeilDivReal(f * c.L, c.M);
    QuotientTimes(f, c.L, c.M);
  }

  /** Against the exact ratio, each stage rounds up by less than one of its own samples. */
  lemma {:induction false} ChainCountBounds(cs: seq<StageSpec>, n: nat)
    requires AllWellFormed(cs)
    ensures 0.0 <= ChainCount(cs, n) as real - n as real * Ratio(cs)
    ensures if cs == [] then ChainCount(cs, n) == n else ChainCount(cs, n) as real - n as real * Ratio(cs) < Slack(cs)
  {
    hide CeilDiv, Factor;
    if cs != [] {
      var front, c := cs[..|cs| - 1], cs[|cs| - 1];
      ChainCountBounds(front, n);
      StageRoundsUp(c, ChainCount(front, n));
      BoundStep(ChainCount(front, n) as real, n as real, Ratio(front), Slack(front), Factor(c),
        ChainCount(cs, n) as real);
    }
  }

  lemma BoundStep(f: real, n: real, r: real, s: real, k: real, c: real)
    requires 0.0 <= f - n * r <= s && k >= 0.0 && 0.0 <= c - f * k < 1.0
    ensures 0.0 <= c - n * (r * k) < s * k + 1.0
  {
    Scaled(f - n * r, s, k);
    Distribute(f, n, r, k);
  }

  lemma QuotientTimes(f: nat, l: nat, m: nat)
    requires m >= 1
    ensures (f * l) as real / m as real == f as real * (l as real / m as real)
  {
    assert (f * l) as real == f as real * l as real;
  }

  lemma Distribute(f: real, n: real, r: real, k: real)
    ensures (f - n * r) * k == f * k - n * (r * k)
  {
  }

  lemma Scaled(x: real, s: real, k: real)
    requires 0.0 <= x <= s && k >= 0.0
    ensures 0.0 <= x * k <= s * k
  {
  }

  function ProductM(cs: seq<StageSpec>): nat {
    if cs == [] then 1 else ProductM(cs[..|cs| - 1]) * cs[|cs| - 1].M
  }

  lemma NestedCeil(n: nat, a: nat, b: nat)
    requires a >= 1 && b >= 1
    ensures a * b >= 1 && CeilDiv(CeilDiv(n, a), b) == CeilDiv(n, a * b)
  {
    hide CeilDiv;
    var q, r := n / a, n % a;
    var p, s := q / b, q % b;
    NestedSplit(n, a, b, q, r, p, s);
    CeilDivAt(n, a, q, r);
    CeilDivAt(n, a * b, p, s * a + r);
    if r == 0 {
      CeilDivAt(q, b, p, s);
    } else if s + 1 < b {
      CeilDivAt(q + 1, b, p, s + 1);
    } else {
      CeilDivAt(q + 1, b, p + 1, 0);
    }
  }

  lemma NestedSplit(n: nat, a: nat, b: nat, q: nat, r: nat, p: nat, s: nat)
    requires n == q * a + r && r < a && q == p * b + s && s < b
    ensures n == p * (a * b) + (s * a + r) && s * a + r < a * b
    ensures (s * a + r == 0) == (s == 0 && r == 0)
    ensures a * b >= 1 && (p + 1) * b == p * b + b
  {
    assert q * a == p * b * a + s * a;
    assert p * b * a == p * (a * b);
    MulMono(s + 1, b, a);
    assert (s + 1) * a == s * a + a;
    assert s > 0 ==> s * a > 0;
  }

  /** In a chain that only decimates, the nested ceilings are one ceiling over the product. */
  lemma {:induction false} DecimationCount(cs: seq<StageSpec>, n: nat)
    requires AllWellFormed(cs) && forall i :: 0 <= i < |cs| ==> cs[i].L == 1
    ensures ProductM(cs) >= 1 && ChainCount(cs, n) == CeilDiv(n, ProductM(cs))
  {
    if cs == [] {
      CeilDivAt(n, 1, n, 0);
    } else {
      var front, c := cs[..|cs| - 1], cs[|cs| - 1];
      DecimationCount(front, n);
      NestedCeil(n, ProductM(front), c.M);
      assert ChainCount(front, n) * c.L == ChainCount(front, n);
    }
  }
}
