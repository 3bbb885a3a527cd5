/** What the different builds of the filter compute, compared over every input. */
module FilterTheorems {
  import opened Signals
  import opened FirFilter

  lemma {:induction false} AlignDownMod(n: nat, v: nat)
    requires v >= 1
    ensures AlignDown(n, v) == n - n % v
  {
    if n >= v {
      AlignDownMod(n - v, v);
      LessOneMultiple(n, v);
    } else {
      DivUnique(n, v, 0, n);
    }
  }

  lemma LessOneMultiple(n: int, v: nat)
    requires v >= 1
    ensures (n - v) % v == n % v
  {
    var q := n / v;
    assert (q - 1) * v == q * v - v;
    DivUnique(n - v, v, q - 1, n % v);
  }

  /** The number of taps in use is `length - p`, with `p` the write position modulo the vector width. */
  lemma TapsUsedByPhase(length: nat, v: nat, n: nat)
    requires length >= 1 && v >= 1
    ensures TapsUsed(length, v, n) == length - (length - 1 - n % length) % v
  {
    NextIndexMod(length, n);
    AlignDownMod(NextIndex(length, n), v);
  }

  /** The first tap that some kernel phase loses. */
  function FirstLostTap(length: nat, v: nat): (i: nat)
    requires length >= 1 && v >= 1
    ensures 1 <= i <= length
  {
    if v <= length then length - (v - 1) else 1
  }

  lemma TapsUsedAtLeast(length: nat, v: nat, n: nat)
    requires length >= 1 && v >= 1
    ensures TapsUsed(length, v, n) >= FirstLostTap(length, v)
  {
  }

  /** A stream on which only tap `i` meets sound, met when a phase has just lost it. */
  function Impulse(length: nat, i: nat): (x: seq<real>)
    requires 1 <= i < length
  {
    seq(length - 1 + i, t => if t == length - 1 then 1.0 else 0.0)
  }

  lemma {:induction false} NextIndexPeriod(length: nat, k: nat)
    requires length >= 1 && k < length
    ensures NextIndex(length, length + k) == length - 1 - k
  {
    NextIndexMod(length, length + k);
    DivUnique(length + k, length, 1, k);
  }

  lemma LostTapMatters(taps: seq<real>, v: nat, i: nat)
    requires |taps| >= 1 && v >= 1 && FirstLostTap(|taps|, v) <= i < |taps|
    ensures GetValue(taps, 1, Impulse(|taps|, i)) - GetValue(taps, v, Impulse(|taps|, i)) == taps[i]
  {
    var len := |taps|;
    var x := Impulse(len, i);
    NextIndexPeriod(len, i - 1);
    assert TapsUsed(len, v, |x|) == i;
    assert TapsUsed(len, 1, |x|) == len;
    ConvSplit(taps, x, |x|, 1, i, len);
    ConvSplit(taps, x, |x|, i, i + 1, len);
    ConvSilent(taps, x, |x|, i + 1, len);
  }

  /**
   * The vector build returns what the scalar build returns, on every input, exactly when the taps a phase can
   * lose are zero.
   */
  lemma VectorEqualsScalarIff(taps: seq<real>, v: nat)
    requires |taps| >= 1 && v >= 1
    ensures (forall x :: GetValue(taps, v, x) == GetValue(taps, 1, x))
       <==> (forall i :: FirstLostTap(|taps|, v) <= i < |taps| ==> taps[i] == 0.0)
  {
    if forall i :: FirstLostTap(|taps|, v) <= i < |taps| ==> taps[i] == 0.0 {
      forall x ensures GetValue(taps, v, x) == GetValue(taps, 1, x) {
        TapsUsedAtLeast(|taps|, v, |x|);
        TapsUsedScalar(|taps|, |x|);
        ConvZeroTail(taps, x, |x|, 1, TapsUsed(|taps|, v, |x|), |taps|);
      }
    } else {
      var i :| FirstLostTap(|taps|, v) <= i < |taps| && taps[i] != 0.0;
      LostTapMatters(taps, v, i);
    }
  }

  /** A case where they differ: two lanes, and a last tap of 1. */
  lemma VectorCanDiffer()
    ensures GetValue([0.0, 1.0], 1, [0.0, 1.0]) == 1.0
    ensures GetValue([0.0, 1.0], 2, [0.0, 1.0]) == 0.0
  {
    hide AlignDown, NextIndex, TapsUsed;
    var taps, x := [0.0, 1.0], [0.0, 1.0];
    assert x == Impulse(2, 1);
    TwoLanes();
    assert Conv(taps, x, 2, 1, 2) == Conv(taps, x, 2, 1, 1) + taps[1] * At(x, 1);
  }

  /** With as many lanes as taps, the second phase uses one tap fewer than the scalar loop. */
  lemma TwoLanes()
    ensures TapsUsed(2, 2, 2) == 1 && TapsUsed(2, 1, 2) == 2
  {
    hide TapsUsed;
    TapsUsedByPhase(2, 2, 2);
    TapsUsedByPhase(2, 1, 2);
  }
}
