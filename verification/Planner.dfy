/** How a conversion ratio is split over stages (fraction.h), and the rates of those stages (srconvert.h). */
module Planner {
  import opened Fractions
  import opened FactorGroups

  type Plan = seq<Fraction>

  function Numerators(c: Plan): (r: seq<int>)
    ensures |r| == |c| && forall i :: 0 <= i < |c| ==> r[i] == c[i].numerator
  {
    seq(|c|, i requires 0 <= i < |c| => c[i].numerator)
  }

  function Denominators(c: Plan): (r: seq<int>)
    ensures |r| == |c| && forall i :: 0 <= i < |c| ==> r[i] == c[i].denominator
  {
    seq(|c|, i requires 0 <= i < |c| => c[i].denominator)
  }

  predicate Positive(c: Plan) {
    forall i :: 0 <= i < |c| ==> c[i].numerator >= 1 && c[i].denominator >= 1
  }

  function RatioOf(f: Fraction): real
    requires f.denominator >= 1
  {
    f.numerator as real / f.denominator as real
  }

  /** The exact ratio after the first `n` stages. */
  function Ratio(c: Plan, n: nat): real
    requires Positive(c) && n <= |c|
  {
    if n == 0 then 1.0 else Ratio(c, n - 1) * RatioOf(c[n - 1])
  }

  function MinRatio(f: Fraction): real
    requires f.denominator >= 1
  {
    if RatioOf(f) < 1.0 then RatioOf(f) else 1.0
  }

  /** The stages multiply back to the exact ratio, and on the way the rate never falls below both ends. */
  ghost predicate MeetsPlan(c: Plan, f: Fraction)
    requires f.denominator >= 1
  {
    && c != [] && Positive(c)
    && Product(Numerators(c)) == f.numerator
    && Product(Denominators(c)) == f.denominator
    && forall n :: 1 <= n <= |c| ==> Ratio(c, n) >= MinRatio(f)
  }

  /** What the candidate test looks at: every prefix but the whole. */
  predicate GoodSoFar(c: Plan, n: nat, f: Fraction)
    requires f.denominator >= 1 && Positive(c) && n <= |c|
  {
    forall i :: 1 <= i <= n && i < |c| ==> Ratio(c, i) >= MinRatio(f)
  }

  function Zip(a: seq<int>, b: seq<int>): (c: Plan)
    requires |a| == |b|
    ensures |c| == |a| && forall i :: 0 <= i < |a| ==> c[i] == Fraction(a[i], b[i])
  {
    seq(|a|, i requires 0 <= i < |a| => Fraction(a[i], b[i]))
  }

  predicate AllPositive(s: seq<int>) {
    forall i :: 0 <= i < |s| ==> s[i] >= 1
  }

  /** Factor lists of one length, all positive. */
  predicate Groups(gs: seq<seq<int>>, n: nat) {
    forall i :: 0 <= i < |gs| ==> |gs[i]| == n && AllPositive(gs[i])
  }

  predicate Accepts(num: seq<int>, den: seq<int>, f: Fraction)
    requires f.denominator >= 1 && |num| == |den| && AllPositive(num) && AllPositive(den)
  {
    GoodSoFar(Zip(num, den), |num|, f)
  }

  /** The accepted pairs of `num` with the first `n` of `dens`, in order. */
  function Row(num: seq<int>, dens: seq<seq<int>>, f: Fraction, n: nat): seq<Plan>
    requires f.denominator >= 1 && AllPositive(num) && Groups(dens, |num|) && n <= |dens|
  {
    if n == 0 then []
    else Row(num, dens, f, n - 1) + if Accepts(num, dens[n - 1], f) then [Zip(num, dens[n - 1])] else []
  }

  /** All accepted pairs of the first `n` of `nums` with `dens`, in order. */
  function Table(nums: seq<seq<int>>, dens: seq<seq<int>>, f: Fraction, stages: nat, n: nat): seq<Plan>
    requires f.denominator >= 1 && Groups(nums, stages) && Groups(dens, stages) && n <= |nums|
  {
    if n == 0 then [] else Table(nums, dens, f, stages, n - 1) + Row(nums[n - 1], dens, f, |dens|)
  }

  // ----- The candidates

  /** Primes, with ones in front until there is one for each stage. */
  function Pad(primes: seq<int>, stages: nat): (r: seq<int>)
    ensures |r| == if |primes| >= stages then |primes| else stages
    ensures Product(r) == Product(primes)
    ensures AllPositive(primes) ==> AllPositive(r)
  {
    if |primes| >= stages then primes
    else
      OnesProduct(stages - |primes|);
      ProductConcat(Ones(stages - |primes|), primes);
      Ones(stages - |primes|) + primes
  }

  /** The primes at the end, and ones in front of them. */
  lemma PadInFigures(primes: seq<int>, stages: nat)
    ensures var r := Pad(primes, stages);
      |r| >= |primes| && r[|r| - |primes|..] == primes && forall i :: 0 <= i < |r| - |primes| ==> r[i] == 1
  {
  }

  function Ones(n: nat): (r: seq<int>)
    ensures |r| == n && forall i :: 0 <= i < n ==> r[i] == 1
  {
    seq(n, _ => 1)
  }

  lemma {:induction false} OnesProduct(n: nat)
    ensures Product(Ones(n)) == 1
  {
    if n > 0 {
      OnesProduct(n - 1);
      assert Ones(n)[..n - 1] == Ones(n - 1);
    }
  }

  lemma {:induction false} ProductPositive(s: seq<int>)
    requires AllPositive(s)
    ensures Product(s) >= 1
  {
    if s != [] {
      ProductPositive(s[..|s| - 1]);
      MulGrows(Product(s[..|s| - 1]), s[|s| - 1]);
    }
  }

  lemma {:induction false} GroupingPositive(b: seq<int>, p: seq<int>, k: nat)
    requires IsGrouping(b, p, k) && AllPositive(p)
    ensures AllPositive(b)
    decreases k
  {
    if k == 1 {
      ProductPositive(p);
    } else {
      var j := FirstBlock(b, p, k);
      GroupingPositive(b[..k - 1], p[j..], k - 1);
      ProductPositive(p[..j]);
      GroupingLength(b, p, k);
      assert b == b[..k - 1] + [b[k - 1]];
    }
  }

  lemma FoundPositive(r: seq<int>, p: seq<int>, k: nat)
    requires Found(r, p, k, []) && AllPositive(p)
    ensures AllPositive(r)
  {
    var b :| IsGrouping(b, p, k) && r == SortInts(b + []);
    assert b + [] == b;
    GroupingPositive(b, p, k);
    SortIntsSorts(b);
    forall i | 0 <= i < |r| ensures r[i] >= 1 {
      assert r[i] in multiset(r);
      assert r[i] in multiset(b);
    }
  }

  /** The factor lists a stage count allows: sorted groupings of the padded primes. */
  ghost predicate GroupsOf(gs: seq<seq<int>>, primes: seq<int>, stages: nat) {
    Ascending(gs) && Groups(gs, stages) && forall r :: r in gs <==> Found(r, Pad(primes, stages), stages, [])
  }

  method GetGroups(primes: seq<int>, stages: nat) returns (gs: seq<seq<int>>)
    requires stages >= 1 && AllPositive(primes)
    ensures GroupsOf(gs, primes, stages)
  {
    var padded := Pad(primes, stages);
    gs := GetnFactors(padded, stages);
    forall i | 0 <= i < |gs| ensures |gs[i]| == stages && AllPositive(gs[i]) {
      assert gs[i] in gs;
      FoundKeepsProduct(gs[i], padded, stages);
      FoundPositive(gs[i], padded, stages);
    }
  }

  /** With one factor there is one grouping. */
  lemma OneStage(gs: seq<seq<int>>, p: seq<int>)
    requires Ascending(gs) && forall r :: r in gs <==> Found(r, p, 1, [])
    ensures gs == [[Product(p)]]
  {
    var x := [Product(p)];
    assert x + [] == x && SortInts(x) == x by { assert x[..0] == []; }
    assert IsGrouping(x, p, 1);
    assert Found(x, p, 1, []);
    forall i | 0 <= i < |gs| ensures gs[i] == x { assert gs[i] in gs; }
    if |gs| >= 2 { LexTotal(gs[0], gs[1]); }
  }

  /** A prefix of a plan against 1 and against the whole ratio, by cross-multiplication. */
  lemma RatioAgainst(r: real, a: int, b: int, f: Fraction)
    requires f.denominator >= 1 && b >= 1 && r * b as real == a as real
    ensures r >= MinRatio(f) <==> a >= b || a * f.denominator >= f.numerator * b
  {
    var g := RatioOf(f);
    Cross(r, a, b, 1, 1);
    Cross(r, a, b, f.numerator, f.denominator);
    assert 1 as real / 1 as real == 1.0;
  }

  lemma Cross(r: real, a: int, b: int, p: int, q: int)
    requires b >= 1 && q >= 1 && r * b as real == a as real
    ensures r >= p as real / q as real <==> a * q >= p * b
  {
    var g, y, z := p as real / q as real, b as real, q as real;
    assert g * z == p as real;
    var d := (r - g) * (y * z);
    assert d == (r * y) * z - (g * z) * y == a as real * z - p as real * y;
    assert (a * q) as real == a as real * z && (p * b) as real == p as real * y;
    assert y * z > 0.0;
    if r >= g {
      assert d >= 0.0 by { RealProduct(r - g, y * z); }
    } else {
      assert d < 0.0 by { RealProduct(g - r, y * z); }
    }
  }

  lemma RealProduct(a: real, b: real)
    requires a >= 0.0 && b > 0.0
    ensures a * b >= 0.0 && (-a) * b == -(a * b) && (a > 0.0 ==> a * b > 0.0)
  {
  }

  /** The test of a pair in figures. */
  lemma AcceptsInFigures(num: seq<int>, den: seq<int>, f: Fraction)
    requires f.denominator >= 1 && |num| == |den| && AllPositive(num) && AllPositive(den)
    ensures Accepts(num, den, f) <==> forall i :: 1 <= i < |num| ==>
      var a, b := Product(num[..i]), Product(den[..i]); a >= b || a * f.denominator >= f.numerator * b
  {
    hide Product, MinRatio;
    var c := Zip(num, den);
    assert Numerators(c) == num && Denominators(c) == den;
    forall i | 1 <= i < |num|
      ensures Ratio(c, i) >= MinRatio(f) <==> (var a, b := Product(num[..i]), Product(den[..i]);
        a >= b || a * f.denominator >= f.numerator * b)
    {
      RatioIsProducts(c, i);
      RatioAgainst(Ratio(c, i), Product(num[..i]), Product(den[..i]), f);
    }
  }

  /** What MeetsPlan says, in figures: the products, and no prefix below both 1 and the whole ratio. */
  lemma MeetsInFigures(c: Plan, f: Fraction)
    requires f.denominator >= 1 && MeetsPlan(c, f)
    ensures c != [] && Product(Numerators(c)) == f.numerator && Product(Denominators(c)) == f.denominator
    ensures forall i :: 1 <= i <= |c| ==>
      var a, b := Product(Numerators(c)[..i]), Product(Denominators(c)[..i]);
      a >= b || a * f.denominator >= f.numerator * b
  {
    hide Product, MinRatio, Ratio;
    forall i | 1 <= i <= |c|
      ensures var a, b := Product(Numerators(c)[..i]), Product(Denominators(c)[..i]);
        a >= b || a * f.denominator >= f.numerator * b
    {
      RatioIsProducts(c, i);
      RatioAgainst(Ratio(c, i), Product(Numerators(c)[..i]), Product(Denominators(c)[..i]), f);
    }
  }

  /** The inner loop over the stages: it fills the shared group, and stops early at a bad ratio. */
  method FillGroup(num: seq<int>, den: seq<int>, f: Fraction, group: Plan) returns (group': Plan, badRatio: bool)
    requires f.denominator >= 1 && |num| == |den| == |group| && AllPositive(num) && AllPositive(den)
    ensures |group'| == |group|
    ensures badRatio <==> !Accepts(num, den, f)
    ensures !badRatio ==> group' == Zip(num, den)
  {
    var minRatio, ratio := MinRatio(f), 1.0;
    ghost var c := Zip(num, den);
    group', badRatio := group, false;
    for stage := 0 to |num|
      invariant |group'| == |group| && forall i :: 0 <= i < stage ==> group'[i] == c[i]
      invariant ratio == Ratio(c, stage) && GoodSoFar(c, stage, f)
    {
      group' := group'[stage := Fraction(num[stage], den[stage])];
      ratio := ratio * RatioOf(group'[stage]);
      assert ratio == Ratio(c, stage + 1);
      if ratio < minRatio && stage != |num| - 1 {
        return group', true;
      }
    }
  }

  /** A pair is tried: it is rejected at a bad ratio, and fills the group otherwise. */
  method TryPair(num: seq<int>, den: seq<int>, f: Fraction, group: Plan) returns (group': Plan, badRatio: bool)
    requires f.denominator >= 1 && |num| == |den| == |group| && AllPositive(num) && AllPositive(den)
    ensures |group'| == |group|
    ensures badRatio <==> !Accepts(num, den, f)
    // in figures: some prefix but the whole has a ratio below both 1 and f
    ensures badRatio <==> !(forall i :: 1 <= i < |num| ==>
      var a, b := Product(num[..i]), Product(den[..i]); a >= b || a * f.denominator >= f.numerator * b)
    ensures !badRatio ==> forall i :: 0 <= i < |num| ==> group'[i] == Fraction(num[i], den[i])
    ensures !badRatio ==> group' == Zip(num, den)
  {
    hide Product, Accepts;
    AcceptsInFigures(num, den, f);
    group', badRatio := FillGroup(num, den, f, group);
  }

  /**
   * The candidates for a ratio and a number of stages: every accepted pair of a numerator grouping and a
   * denominator grouping, in lexicographic order of the numerators and then of the denominators.
   */
  ghost predicate IsCandidateList(cs: seq<Plan>, f: Fraction, maxStages: int)
    requires f.denominator >= 1
  {
    exists np, dp, nums, dens :: PairsOf(cs, f, maxStages, np, dp, nums, dens)
  }

  ghost predicate PairsOf(cs: seq<Plan>, f: Fraction, maxStages: int, np: seq<int>, dp: seq<int>,
    nums: seq<seq<int>>, dens: seq<seq<int>>)
    requires f.denominator >= 1
  {
    && IsFactorization(np, f.numerator) && IsFactorization(dp, f.denominator)
    && var stages := StageCount(maxStages, |np|, |dp|);
       GroupsOf(nums, np, stages) && GroupsOf(dens, dp, stages) && cs == Table(nums, dens, f, stages, |nums|)
  }

  /** getConversionStageCandidates() */
  method GetConversionStageCandidates(f: Fraction, maxStages: int) returns (candidates: seq<Plan>)
    requires f.numerator >= 1 && f.denominator >= 1
    ensures IsCandidateList(candidates, f, maxStages)
  {
    hide Pad, Found, Accepts, Table;
    var numeratorPrimes := Factorize(f.numerator);
    var denominatorPrimes := Factorize(f.denominator);
    var numStages := StageCount(maxStages, |numeratorPrimes|, |denominatorPrimes|);
    var numeratorGroups := GetGroups(numeratorPrimes, numStages);
    var denominatorGroups := GetGroups(denominatorPrimes, numStages);
    candidates := PairUp(numeratorGroups, denominatorGroups, f, numStages);
    assert PairsOf(candidates, f, maxStages, numeratorPrimes, denominatorPrimes, numeratorGroups, denominatorGroups);
  }

  /** The two loops over the groupings. */
  method PairUp(nums: seq<seq<int>>, dens: seq<seq<int>>, f: Fraction, numStages: nat) returns (candidates: seq<Plan>)
    requires f.denominator >= 1 && Groups(nums, numStages) && Groups(dens, numStages)
    ensures candidates == Table(nums, dens, f, numStages, |nums|)
  {
    hide Accepts, Zip;
    var tempFractionGroup := seq(numStages, _ => Fraction(1, 1));
    candidates := [];
    for i := 0 to |nums|
      invariant |tempFractionGroup| == numStages
      invariant candidates == Table(nums, dens, f, numStages, i)
    {
      for j := 0 to |dens|
        invariant |tempFractionGroup| == numStages
        invariant candidates == Table(nums, dens, f, numStages, i) + Row(nums[i], dens, f, j)
      {
        var badRatio;
        tempFractionGroup, badRatio := TryPair(nums[i], dens[j], f, tempFractionGroup);
        if !badRatio {
          candidates := candidates + [tempFractionGroup];
        }
      }
    }
  }

  /**
   * How many stages there will be: no more than asked for, nor than the longer list of primes allows, but one
   * at least.
   */
  function StageCount(maxStages: int, a: nat, b: nat): (n: nat)
    ensures n >= 1 && (maxStages >= 1 ==> n <= maxStages) && (a >= 1 || b >= 1 ==> n <= a || n <= b)
    ensures n == 1 || n == maxStages || (n >= a && n >= b)
    ensures maxStages >= n || n == 1
  {
    var most := if a > b then a else b;
    var n := if maxStages < most then maxStages else most;
    if n < 1 then 1 else n
  }

  ghost predicate IsFactorization(primes: seq<int>, n: int) {
    Product(primes) == n && AllPositive(primes) && if n >= 2 then AscendingPrimes(primes) else primes == [n]
  }

  lemma {:induction false} RatioIsProducts(c: Plan, n: nat)
    requires Positive(c) && n <= |c|
    ensures Product(Denominators(c)[..n]) >= 1
    ensures Ratio(c, n) * Product(Denominators(c)[..n]) as real == Product(Numerators(c)[..n]) as real
  {
    hide Product, RatioOf, Ratio;
    if n == 0 {
      RatioStart(c);
    } else {
      RatioIsProducts(c, n - 1);
      ProductNext(Numerators(c), n);
      ProductNext(Denominators(c), n);
      OneMoreStage(c, n);
      RatioNext(Ratio(c, n - 1), Product(Numerators(c)[..n - 1]), Product(Denominators(c)[..n - 1]), c[n - 1],
        Ratio(c, n), Product(Numerators(c)[..n]), Product(Denominators(c)[..n]));
    }
  }

  lemma RatioStart(c: Plan)
    requires Positive(c)
    ensures Ratio(c, 0) == 1.0 && Product(Numerators(c)[..0]) == 1 && Product(Denominators(c)[..0]) == 1
  {
  }

  lemma OneMoreStage(c: Plan, n: nat)
    requires Positive(c) && 1 <= n <= |c|
    ensures Ratio(c, n) == Ratio(c, n - 1) * RatioOf(c[n - 1])
  {
  }

  lemma ProductNext(s: seq<int>, n: nat)
    requires 1 <= n <= |s|
    ensures Product(s[..n]) == Product(s[..n - 1]) * s[n - 1]
  {
    assert s[..n][..n - 1] == s[..n - 1];
  }

  lemma RatioNext(r: real, pn: int, pd: int, f: Fraction, r': real, pn': int, pd': int)
    requires f.denominator >= 1 && pd >= 1 && r * pd as real == pn as real
    requires r' == r * RatioOf(f) && pn' == pn * f.numerator && pd' == pd * f.denominator
    ensures pd' >= 1 && r' * pd' as real == pn' as real
  {
    hide RatioOf;
    MulGrows(pd, f.denominator);
    RatioStep(r, pn, pd, f);
  }

  lemma RatioStep(r: real, pn: int, pd: int, f: Fraction)
    requires f.denominator >= 1 && r * pd as real == pn as real
    ensures (r * RatioOf(f)) * (pd * f.denominator) as real == (pn * f.numerator) as real
  {
    var a, b := f.numerator as real, f.denominator as real;
    assert RatioOf(f) * b == a;
    assert (pd * f.denominator) as real == pd as real * b && (pn * f.numerator) as real == pn as real * a;
    assert (r * RatioOf(f)) * (pd as real * b) == (r * pd as real) * (RatioOf(f) * b);
  }

  /** The whole ratio is the ratio asked for. */
  lemma WholeRatio(c: Plan, f: Fraction)
    requires f.denominator >= 1 && Positive(c)
    requires Product(Numerators(c)) == f.numerator && Product(Denominators(c)) == f.denominator
    ensures Ratio(c, |c|) == RatioOf(f)
  {
    hide Product, Ratio;
    RatioIsProducts(c, |c|);
    assert Numerators(c)[..|c|] == Numerators(c) && Denominators(c)[..|c|] == Denominators(c);
    QuotientIs(Ratio(c, |c|), f.numerator as real, f.denominator as real);
  }

  lemma QuotientIs(r: real, a: real, b: real)
    requires b > 0.0 && r * b == a
    ensures r == a / b
  {
  }

  /** A plan with the right products that passes the test at every prefix but the last meets the plan. */
  lemma TestedPlanMeets(c: Plan, f: Fraction)
    requires f.denominator >= 1 && c != [] && Positive(c) && GoodSoFar(c, |c|, f)
    requires Product(Numerators(c)) == f.numerator && Product(Denominators(c)) == f.denominator
    ensures MeetsPlan(c, f)
  {
    WholeRatio(c, f);
  }

  lemma SingleMeets(f: Fraction)
    requires f.numerator >= 1 && f.denominator >= 1
    ensures MeetsPlan([f], f)
  {
    assert Numerators([f]) == [f.numerator] && Denominators([f]) == [f.denominator];
    ProductOne(f.numerator);
    ProductOne(f.denominator);
    TestedPlanMeets([f], f);
  }

  // ----- Which plans are candidates, and in which order

  lemma FactorizationUnique(s: seq<int>, t: seq<int>, n: int)
    requires IsFactorization(s, n) && IsFactorization(t, n)
    ensures s == t
  {
    hide Product, AscendingPrimes;
    if n >= 2 { AscendingPrimesUnique(s, t); }
  }

  lemma GroupsUnique(gs: seq<seq<int>>, hs: seq<seq<int>>, primes: seq<int>, stages: nat)
    requires GroupsOf(gs, primes, stages) && GroupsOf(hs, primes, stages)
    ensures gs == hs
  {
    hide Ascending, Found, Pad;
    AscendingUnique(gs, hs);
  }

  /** There is one candidate list for a ratio and a limit on the stages. */
  lemma CandidateListUnique(cs: seq<Plan>, ds: seq<Plan>, f: Fraction, maxStages: int)
    requires f.denominator >= 1 && IsCandidateList(cs, f, maxStages) && IsCandidateList(ds, f, maxStages)
    ensures cs == ds
  {
    hide IsFactorization, GroupsOf, Table, Pad;
    var np, dp, nums, dens :| PairsOf(cs, f, maxStages, np, dp, nums, dens);
    var np', dp', nums', dens' :| PairsOf(ds, f, maxStages, np', dp', nums', dens');
    FactorizationUnique(np, np', f.numerator);
    FactorizationUnique(dp, dp', f.denominator);
    GroupsUnique(nums, nums', np, StageCount(maxStages, |np|, |dp|));
    GroupsUnique(dens, dens', dp, StageCount(maxStages, |np|, |dp|));
  }

  lemma {:induction false} RowIff(c: Plan, num: seq<int>, dens: seq<seq<int>>, f: Fraction, n: nat)
    requires f.denominator >= 1 && AllPositive(num) && Groups(dens, |num|) && n <= |dens|
    ensures c in Row(num, dens, f, n) <==> exists j :: 0 <= j < n && Accepts(num, dens[j], f) && c == Zip(num, dens[j])
  {
    hide Accepts, Zip;
    if n > 0 { RowIff(c, num, dens, f, n - 1); }
  }

  lemma {:induction false} TableIff(c: Plan, nums: seq<seq<int>>, dens: seq<seq<int>>, f: Fraction, stages: nat, n: nat)
    requires f.denominator >= 1 && Groups(nums, stages) && Groups(dens, stages) && n <= |nums|
    ensures c in Table(nums, dens, f, stages, n) <==>
      exists i, j :: 0 <= i < n && 0 <= j < |dens| && Accepts(nums[i], dens[j], f) && c == Zip(nums[i], dens[j])
  {
    hide Accepts, Zip, Row;
    if n > 0 {
      TableIff(c, nums, dens, f, stages, n - 1);
      RowIff(c, nums[n - 1], dens, f, |dens|);
    }
  }

  /** A numerator grouping and a denominator grouping in `s` stages that pass the test of the ratios on the way. */
  ghost predicate IsPair(num: seq<int>, den: seq<int>, f: Fraction, np: seq<int>, dp: seq<int>, s: nat)
    requires f.denominator >= 1
  {
    && Found(num, Pad(np, s), s, []) && Found(den, Pad(dp, s), s, [])
    && |num| == |den| && AllPositive(num) && AllPositive(den) && Accepts(num, den, f)
  }

  ghost predicate HasPair(f: Fraction, np: seq<int>, dp: seq<int>, s: nat)
    requires f.denominator >= 1
  {
    exists num, den :: IsPair(num, den, f, np, dp, s)
  }

  /** The candidates are all the accepted pairs, and nothing else. */
  lemma CandidateIff(c: Plan, cs: seq<Plan>, f: Fraction, maxStages: int, np: seq<int>, dp: seq<int>)
    requires f.denominator >= 1 && IsCandidateList(cs, f, maxStages)
    requires IsFactorization(np, f.numerator) && IsFactorization(dp, f.denominator)
    ensures c in cs <==>
      exists num, den :: IsPair(num, den, f, np, dp, StageCount(maxStages, |np|, |dp|)) && c == Zip(num, den)
  {
    hide IsFactorization, Found, Pad, Accepts, Zip, Table;
    var np', dp', nums, dens :| PairsOf(cs, f, maxStages, np', dp', nums, dens);
    FactorizationUnique(np, np', f.numerator);
    FactorizationUnique(dp, dp', f.denominator);
    var s := StageCount(maxStages, |np|, |dp|);
    TableIff(c, nums, dens, f, s, |nums|);
    if i, j :| 0 <= i < |nums| && 0 <= j < |dens| && Accepts(nums[i], dens[j], f) && c == Zip(nums[i], dens[j]) {
      assert nums[i] in nums && dens[j] in dens;
      assert IsPair(nums[i], dens[j], f, np, dp, s);
    }
    if num, den :| IsPair(num, den, f, np, dp, s) && c == Zip(num, den) {
      assert num in nums && den in dens;
      var i :| 0 <= i < |nums| && nums[i] == num;
      var j :| 0 <= j < |dens| && dens[j] == den;
    }
  }

  /** There are candidates exactly when some pair is accepted. */
  lemma CandidatesExistIff(cs: seq<Plan>, f: Fraction, maxStages: int, np: seq<int>, dp: seq<int>)
    requires f.denominator >= 1 && IsCandidateList(cs, f, maxStages)
    requires IsFactorization(np, f.numerator) && IsFactorization(dp, f.denominator)
    ensures cs != [] <==> HasPair(f, np, dp, StageCount(maxStages, |np|, |dp|))
  {
    hide IsFactorization, IsPair, IsCandidateList;
    var s := StageCount(maxStages, |np|, |dp|);
    if cs != [] {
      CandidateIff(cs[0], cs, f, maxStages, np, dp);
      assert cs[0] in cs;
    }
    if num, den :| IsPair(num, den, f, np, dp, s) {
      assert |num| == |den| by { PairLengths(num, den, f, np, dp, s); }
      CandidateIff(Zip(num, den), cs, f, maxStages, np, dp);
    }
  }

  /** A grouping of padded primes: its length and its product, and that several factors take two primes more. */
  lemma GroupingFacts(r: seq<int>, p: seq<int>, s: nat)
    requires Found(r, Pad(p, s), s, [])
    ensures |r| == s && Product(r) == Product(p) && (s >= 2 ==> s + 2 <= |p|)
  {
    hide Found, Product, Pad;
    var padded := Pad(p, s);
    FoundKeepsProduct(r, padded, s);
    if s >= 2 { TwoMore(r, padded, s); }
  }

  lemma TwoMore(r: seq<int>, p: seq<int>, s: nat)
    requires s >= 2 && Found(r, p, s, [])
    ensures s + 2 <= |p|
  {
    hide Found;
    FoundAnyIff(p, s);
  }

  lemma PairLengths(num: seq<int>, den: seq<int>, f: Fraction, np: seq<int>, dp: seq<int>, s: nat)
    requires f.denominator >= 1 && IsPair(num, den, f, np, dp, s)
    ensures |num| == |den| == s && Numerators(Zip(num, den)) == num && Denominators(Zip(num, den)) == den
  {
    hide Found, Product, Pad, Accepts;
    GroupingFacts(num, np, s);
  }

  lemma PairMeets(num: seq<int>, den: seq<int>, f: Fraction, np: seq<int>, dp: seq<int>, s: nat)
    requires f.denominator >= 1 && s >= 1 && IsFactorization(np, f.numerator) && IsFactorization(dp, f.denominator)
    requires IsPair(num, den, f, np, dp, s)
    ensures |num| == |den| == s && MeetsPlan(Zip(num, den), f)
  {
    hide Found, Product, Pad, Ratio, MeetsPlan;
    GroupingFacts(num, np, s);
    GroupingFacts(den, dp, s);
    PairLengths(num, den, f, np, dp, s);
    TestedPlanMeets(Zip(num, den), f);
  }

  /** Every candidate has the number of stages asked for, or as many as there can be, and meets the plan. */
  lemma CandidateStages(cs: seq<Plan>, f: Fraction, maxStages: int, np: seq<int>, dp: seq<int>)
    requires f.numerator >= 1 && f.denominator >= 1 && IsCandidateList(cs, f, maxStages)
    requires IsFactorization(np, f.numerator) && IsFactorization(dp, f.denominator)
    ensures forall i :: 0 <= i < |cs| ==> |cs[i]| == StageCount(maxStages, |np|, |dp|) && MeetsPlan(cs[i], f)
  {
    hide IsFactorization, Found, Pad, Accepts, MeetsPlan, IsCandidateList;
    var s := StageCount(maxStages, |np|, |dp|);
    forall i | 0 <= i < |cs| ensures |cs[i]| == s && MeetsPlan(cs[i], f) {
      CandidateIff(cs[i], cs, f, maxStages, np, dp);
      var num, den :| IsPair(num, den, f, np, dp, s) && cs[i] == Zip(num, den);
      PairMeets(num, den, f, np, dp, s);
    }
  }

  /** With one stage there is one candidate: the ratio itself. */
  lemma SingleStageCandidate(f: Fraction)
    requires f.numerator >= 1 && f.denominator >= 1
    ensures Table([[f.numerator]], [[f.denominator]], f, 1, 1) == [[f]]
  {
    assert Row([f.numerator], [[f.denominator]], f, 0) == [];
    assert Zip([f.numerator], [f.denominator]) == [f];
    assert Row([f.numerator], [[f.denominator]], f, 1) == [[f]];
    assert Table([[f.numerator]], [[f.denominator]], f, 1, 0) == [];
  }

  lemma CandidatesMeet(cs: seq<Plan>, f: Fraction, maxStages: int)
    requires f.numerator >= 1 && f.denominator >= 1 && IsCandidateList(cs, f, maxStages)
    ensures forall i :: 0 <= i < |cs| ==> MeetsPlan(cs[i], f) && |cs[i]| <= if maxStages <= 1 then 1 else maxStages
    ensures maxStages <= 1 ==> cs == [[f]]
  {
    var np, dp, nums, dens :| PairsOf(cs, f, maxStages, np, dp, nums, dens);
    var stages := StageCount(maxStages, |np|, |dp|);
    CandidateStages(cs, f, maxStages, np, dp);
    if stages == 1 {
      OneStage(nums, Pad(np, 1));
      OneStage(dens, Pad(dp, 1));
      SingleStageCandidate(f);
    }
  }

  /** The order of two plans: by their numerators, then by their denominators. */
  predicate Before(c: Plan, d: Plan) {
    || LexLess(Numerators(c), Numerators(d))
    || (Numerators(c) == Numerators(d) && LexLess(Denominators(c), Denominators(d)))
  }

  predicate InOrder(cs: seq<Plan>) {
    forall i, j :: 0 <= i < j < |cs| ==> Before(cs[i], cs[j])
  }

  lemma BeforeIs(a: seq<int>, b: seq<int>, c: seq<int>, d: seq<int>)
    requires |a| == |b| && |c| == |d|
    ensures Before(Zip(a, b), Zip(c, d)) <==> LexLess(a, c) || (a == c && LexLess(b, d))
  {
    hide LexLess;
    assert Numerators(Zip(a, b)) == a && Denominators(Zip(a, b)) == b;
    assert Numerators(Zip(c, d)) == c && Denominators(Zip(c, d)) == d;
  }

  lemma AppendInOrder(cs: seq<Plan>, ds: seq<Plan>)
    requires InOrder(cs) && InOrder(ds) && forall c, d :: c in cs && d in ds ==> Before(c, d)
    ensures InOrder(cs + ds)
  {
    hide Before;
  }

  lemma {:induction false} RowInOrder(num: seq<int>, dens: seq<seq<int>>, f: Fraction, n: nat)
    requires f.denominator >= 1 && AllPositive(num) && Groups(dens, |num|) && Ascending(dens) && n <= |dens|
    ensures InOrder(Row(num, dens, f, n))
  {
    hide Accepts, Zip, LexLess, Before;
    if n > 0 {
      var cs, d := Row(num, dens, f, n - 1), Zip(num, dens[n - 1]);
      RowInOrder(num, dens, f, n - 1);
      forall c | c in cs ensures Before(c, d) {
        RowIff(c, num, dens, f, n - 1);
        var j :| 0 <= j < n - 1 && c == Zip(num, dens[j]);
        BeforeIs(num, dens[j], num, dens[n - 1]);
      }
      AppendInOrder(cs, [d]);
    }
  }

  lemma {:induction false} TableInOrder(nums: seq<seq<int>>, dens: seq<seq<int>>, f: Fraction, stages: nat, n: nat)
    requires f.denominator >= 1 && Groups(nums, stages) && Groups(dens, stages) && n <= |nums|
    requires Ascending(nums) && Ascending(dens)
    ensures InOrder(Table(nums, dens, f, stages, n))
  {
    hide Accepts, Zip, LexLess, Before, Row;
    if n > 0 {
      var cs, ds := Table(nums, dens, f, stages, n - 1), Row(nums[n - 1], dens, f, |dens|);
      TableInOrder(nums, dens, f, stages, n - 1);
      RowInOrder(nums[n - 1], dens, f, |dens|);
      forall c, d | c in cs && d in ds ensures Before(c, d) {
        TableIff(c, nums, dens, f, stages, n - 1);
        RowIff(d, nums[n - 1], dens, f, |dens|);
        var i, j :| 0 <= i < n - 1 && 0 <= j < |dens| && c == Zip(nums[i], dens[j]);
        var k :| 0 <= k < |dens| && d == Zip(nums[n - 1], dens[k]);
        BeforeIs(nums[i], dens[j], nums[n - 1], dens[k]);
      }
      AppendInOrder(cs, ds);
    }
  }

  /** Each candidate comes once, in the order of the numerators and then of the denominators. */
  lemma CandidatesInOrder(cs: seq<Plan>, f: Fraction, maxStages: int)
    requires f.denominator >= 1 && IsCandidateList(cs, f, maxStages)
    ensures InOrder(cs)
  {
    hide IsFactorization, Found, Pad, Table, InOrder;
    var np, dp, nums, dens :| PairsOf(cs, f, maxStages, np, dp, nums, dens);
    TableInOrder(nums, dens, f, StageCount(maxStages, |np|, |dp|), |nums|);
  }

  // ----- Which numbers of stages have candidates

  /** Several stages take two more primes on either side. */
  lemma PairNeedsPrimes(f: Fraction, np: seq<int>, dp: seq<int>, s: nat)
    requires f.denominator >= 1 && s >= 2 && HasPair(f, np, dp, s)
    ensures s + 2 <= |np| && s + 2 <= |dp| && StageCount(s, |np|, |dp|) == s
  {
    hide Found, Accepts, Product, Pad;
    var num, den :| IsPair(num, den, f, np, dp, s);
    GroupingFacts(num, np, s);
    GroupingFacts(den, dp, s);
  }

  /** Several stages have no candidates at all unless both lists of primes are longer than the stages by two. */
  lemma FewPrimesNoCandidates(cs: seq<Plan>, f: Fraction, maxStages: int, np: seq<int>, dp: seq<int>)
    requires f.denominator >= 1 && IsCandidateList(cs, f, maxStages)
    requires IsFactorization(np, f.numerator) && IsFactorization(dp, f.denominator)
    requires var stages := StageCount(maxStages, |np|, |dp|);
      stages >= 2 && (|np| < stages + 2 || |dp| < stages + 2)
    ensures cs == []
  {
    hide IsFactorization, HasPair, IsCandidateList;
    CandidatesExistIff(cs, f, maxStages, np, dp);
    if HasPair(f, np, dp, StageCount(maxStages, |np|, |dp|)) {
      PairNeedsPrimes(f, np, dp, StageCount(maxStages, |np|, |dp|));
    }
  }

  lemma OneStagePlan(c: Plan, f: Fraction)
    requires f.denominator >= 1 && |c| <= 1 && MeetsPlan(c, f)
    ensures c == [f]
  {
    assert Numerators(c) == [c[0].numerator] && Denominators(c) == [c[0].denominator];
    ProductOne(c[0].numerator);
    ProductOne(c[0].denominator);
  }

  /** `best` is the last candidate for the largest number of stages, up to `maxStages`, that has candidates. */
  ghost predicate IsBest(best: Plan, f: Fraction, maxStages: int)
    requires f.denominator >= 1
  {
    exists k: int, cs: seq<Plan> :: k <= maxStages && IsCandidateList(cs, f, k) && cs != [] && best == cs[|cs| - 1]
      && forall j :: k < j <= maxStages ==> IsCandidateList([], f, j)
  }

  /** So a best candidate of several stages has two stages fewer than either list has primes. */
  lemma BestNeedsPrimes(best: Plan, f: Fraction, maxStages: int, np: seq<int>, dp: seq<int>)
    requires f.numerator >= 1 && f.denominator >= 1 && IsBest(best, f, maxStages)
    requires IsFactorization(np, f.numerator) && IsFactorization(dp, f.denominator)
    ensures |best| <= if maxStages <= 1 then 1 else maxStages
    ensures |best| >= 2 ==> |best| + 2 <= |np| && |best| + 2 <= |dp|
    ensures |best| <= 1 ==> best == [f]
  {
    hide IsCandidateList, IsFactorization, MeetsPlan;
    var k: int, cs: seq<Plan> :| k <= maxStages && IsCandidateList(cs, f, k) && cs != [] && best == cs[|cs| - 1];
    CandidatesMeet(cs, f, k);
    CandidateStages(cs, f, k, np, dp);
    if StageCount(k, |np|, |dp|) >= 2 && (|np| < |best| + 2 || |dp| < |best| + 2) {
      FewPrimesNoCandidates(cs, f, k, np, dp);
    }
    if |best| <= 1 { OneStagePlan(best, f); }
  }

  /** The best candidate has the largest number of stages for which some pair is accepted. */
  lemma BestStages(best: Plan, f: Fraction, maxStages: int, np: seq<int>, dp: seq<int>)
    requires f.numerator >= 1 && f.denominator >= 1 && IsBest(best, f, maxStages)
    requires IsFactorization(np, f.numerator) && IsFactorization(dp, f.denominator)
    ensures |best| >= 1 && (|best| >= 2 ==> |best| <= maxStages && HasPair(f, np, dp, |best|))
    ensures forall s: nat :: 2 <= s <= maxStages && HasPair(f, np, dp, s) ==> s <= |best|
  {
    hide IsCandidateList, IsFactorization, MeetsPlan, HasPair;
    var k: int, cs: seq<Plan> :| k <= maxStages && IsCandidateList(cs, f, k) && cs != [] && best == cs[|cs| - 1]
      && forall j :: k < j <= maxStages ==> IsCandidateList([], f, j);
    CandidateStages(cs, f, k, np, dp);
    CandidatesExistIff(cs, f, k, np, dp);
    forall s: nat | 2 <= s <= maxStages && HasPair(f, np, dp, s) ensures s <= |best| {
      PairNeedsPrimes(f, np, dp, s);
      if s > k { CandidatesExistIff([], f, s, np, dp); }
    }
  }

  /** A single stage remains exactly when no number of stages up to the limit has an accepted pair. */
  lemma FallbackIff(best: Plan, f: Fraction, maxStages: int, np: seq<int>, dp: seq<int>)
    requires f.numerator >= 1 && f.denominator >= 1 && IsBest(best, f, maxStages)
    requires IsFactorization(np, f.numerator) && IsFactorization(dp, f.denominator)
    ensures best == [f] <==> forall s: nat :: 2 <= s <= maxStages ==> !HasPair(f, np, dp, s)
  {
    hide IsBest, IsFactorization, HasPair;
    BestStages(best, f, maxStages, np, dp);
    BestNeedsPrimes(best, f, maxStages, np, dp);
  }

  /** Of the pairs accepted for its number of stages, the best candidate is the last. */
  lemma BestIsLastPair(best: Plan, f: Fraction, maxStages: int, np: seq<int>, dp: seq<int>)
    requires f.numerator >= 1 && f.denominator >= 1 && IsBest(best, f, maxStages)
    requires IsFactorization(np, f.numerator) && IsFactorization(dp, f.denominator)
    ensures exists num, den :: IsPair(num, den, f, np, dp, |best|) && best == Zip(num, den)
    ensures forall num, den :: IsPair(num, den, f, np, dp, |best|) ==>
      Zip(num, den) == best || Before(Zip(num, den), best)
  {
    hide IsCandidateList, IsFactorization, IsPair, Zip, Before;
    var k: int, cs: seq<Plan> :| k <= maxStages && IsCandidateList(cs, f, k) && cs != [] && best == cs[|cs| - 1];
    CandidateStages(cs, f, k, np, dp);
    CandidatesInOrder(cs, f, k);
    assert best in cs;
    CandidateIff(best, cs, f, k, np, dp);
    forall num, den | IsPair(num, den, f, np, dp, |best|) ensures |num| == |den| {
      PairLengths(num, den, f, np, dp, |best|);
    }
    forall num, den | IsPair(num, den, f, np, dp, |best|)
      ensures Zip(num, den) == best || Before(Zip(num, den), best)
    {
      CandidateIff(Zip(num, den), cs, f, k, np, dp);
      var i :| 0 <= i < |cs| && cs[i] == Zip(num, den);
    }
  }

  // ----- Two stages

  function Smaller(a: int, b: int): int {
    if a <= b then a else b
  }

  function Sorted(a: int, b: int): seq<int> {
    if a <= b then [a, b] else [b, a]
  }

  lemma SortTwo(a: int, b: int)
    ensures SortInts([a, b]) == Sorted(a, b)
  {
    assert [a, b][..1] == [a] && [a][..0] == [] && [a][1..] == [];
    assert SortInts([]) == [];
    assert SortInts([a]) == [a];
    assert SortInts([a, b]) == InsertInt([a], b);
    assert InsertInt([], b) == [b];
  }

  /** In two factors: a first block of one prime or more, and a second of three or more. */
  lemma FoundTwoIff(r: seq<int>, p: seq<int>)
    ensures Found(r, p, 2, []) <==>
      exists j :: 1 <= j <= |p| - 3 && r == Sorted(Product(p[j..]), Product(p[..j]))
  {
    hide Product, SortInts;
    if b :| IsGrouping(b, p, 2) && r == SortInts(b + []) {
      var j := FirstBlock(b, p, 2);
      assert b[..1] == [Product(p[j..])];
      assert b + [] == b == [Product(p[j..]), Product(p[..j])];
      SortTwo(Product(p[j..]), Product(p[..j]));
    }
    if j :| 1 <= j <= |p| - 3 && r == Sorted(Product(p[j..]), Product(p[..j])) {
      var b := [Product(p[j..]), Product(p[..j])];
      assert b[..1] == [Product(p[j..])] && b + [] == b;
      assert GroupingFrom(b, p, 2, j);
      SortTwo(Product(p[j..]), Product(p[..j]));
    }
  }

  /** The ratio of the first stage, when the primes are cut at `i` and at `j`. */
  function FirstRatio(np: seq<int>, dp: seq<int>, i: nat, j: nat): real
    requires i <= |np| && j <= |dp| && AllPositive(np) && AllPositive(dp)
  {
    ProductPositive(dp[j..]);
    ProductPositive(dp[..j]);
    RatioOf(Fraction(Smaller(Product(np[i..]), Product(np[..i])), Smaller(Product(dp[j..]), Product(dp[..j]))))
  }

  /** The first stage of a pair is within bounds, when the primes are cut at `i` and at `j`. */
  predicate GoodCut(f: Fraction, np: seq<int>, dp: seq<int>, i: int, j: int)
    requires f.denominator >= 1 && AllPositive(np) && AllPositive(dp)
  {
    1 <= i <= |np| - 3 && 1 <= j <= |dp| - 3 && FirstRatio(np, dp, i, j) >= MinRatio(f)
  }

  /** Two stages are possible exactly when the primes can be cut so that the first stage is within bounds. */
  lemma TwoStagesIff(f: Fraction, np: seq<int>, dp: seq<int>)
    requires f.denominator >= 1 && AllPositive(np) && AllPositive(dp)
    ensures HasPair(f, np, dp, 2) <==> exists i, j :: GoodCut(f, np, dp, i, j)
  {
    hide HasPair, GoodCut;
    if HasPair(f, np, dp, 2) { var i, j := PairHasCut(f, np, dp); }
    if i, j :| GoodCut(f, np, dp, i, j) { CutHasPair(f, np, dp, i, j); }
  }

  lemma PairHasCut(f: Fraction, np: seq<int>, dp: seq<int>) returns (i: int, j: int)
    requires f.denominator >= 1 && AllPositive(np) && AllPositive(dp) && HasPair(f, np, dp, 2)
    ensures GoodCut(f, np, dp, i, j)
  {
    hide Found, Product, Pad, MinRatio, StageCount;
    PairNeedsPrimes(f, np, dp, 2);
    PadLong(np, 2);
    PadLong(dp, 2);
    var num, den :| IsPair(num, den, f, np, dp, 2);
    FoundTwoIff(num, np);
    FoundTwoIff(den, dp);
    i :| 1 <= i <= |np| - 3 && num == Sorted(Product(np[i..]), Product(np[..i]));
    j :| 1 <= j <= |dp| - 3 && den == Sorted(Product(dp[j..]), Product(dp[..j]));
    AcceptsTwo(num, den, f);
  }

  lemma CutHasPair(f: Fraction, np: seq<int>, dp: seq<int>, i: int, j: int)
    requires f.denominator >= 1 && AllPositive(np) && AllPositive(dp) && GoodCut(f, np, dp, i, j)
    ensures HasPair(f, np, dp, 2)
  {
    hide Found, Product, Pad, MinRatio;
    PadLong(np, 2);
    PadLong(dp, 2);
    var num, den := Sorted(Product(np[i..]), Product(np[..i])), Sorted(Product(dp[j..]), Product(dp[..j]));
    FoundTwoIff(num, np);
    FoundTwoIff(den, dp);
    ProductPositive(np[i..]);
    ProductPositive(np[..i]);
    ProductPositive(dp[j..]);
    ProductPositive(dp[..j]);
    AcceptsTwo(num, den, f);
    assert IsPair(num, den, f, np, dp, 2);
  }

  lemma PadLong(p: seq<int>, s: nat)
    requires |p| >= s
    ensures Pad(p, s) == p
  {
  }

  lemma AcceptsTwo(num: seq<int>, den: seq<int>, f: Fraction)
    requires f.denominator >= 1 && |num| == |den| == 2 && AllPositive(num) && AllPositive(den)
    ensures Accepts(num, den, f) <==> RatioOf(Fraction(num[0], den[0])) >= MinRatio(f)
  {
    var c := Zip(num, den);
    assert Ratio(c, 0) == 1.0 && Ratio(c, 1) == RatioOf(c[0]);
  }

  lemma FourProduct(a: int, b: int, c: int, d: int)
    ensures Product([a, b, c, d]) == a * b * c * d && [a, b, c, d][..1] == [a] && [a, b, c, d][1..] == [b, c, d]
    ensures Product([a]) == a && Product([b, c, d]) == b * c * d
  {
    assert [a, b, c, d][..3] == [a, b, c];
    ThreeProduct(a, b, c);
    ThreeProduct(b, c, d);
    ProductOne(a);
  }

  lemma Factors88And81()
    ensures IsFactorization([2, 2, 2, 11], 88) && IsFactorization([3, 3, 3, 3], 81)
  {
    hide Product;
    FourProduct(2, 2, 2, 11);
    FourProduct(3, 3, 3, 3);
  }

  lemma FirstRatioTooLow()
    ensures FirstRatio([2, 2, 2, 11], [3, 3, 3, 3], 1, 1) < MinRatio(Fraction(88, 81))
  {
    hide Product;
    FourProduct(2, 2, 2, 11);
    FourProduct(3, 3, 3, 3);
  }

  /** Enough primes are not enough: 88/81 has four on each side, but 2/3 is too low for a first stage. */
  lemma EnoughPrimesRejected(best: Plan, cs: seq<Plan>)
    ensures IsFactorization([2, 2, 2, 11], 88) && IsFactorization([3, 3, 3, 3], 81)
    ensures IsCandidateList(cs, Fraction(88, 81), 2) ==> cs == []
    ensures IsBest(best, Fraction(88, 81), 2) ==> best == [Fraction(88, 81)]
  {
    hide IsCandidateList, IsBest, HasPair, IsFactorization, MinRatio, FirstRatio;
    var f, np, dp := Fraction(88, 81), [2, 2, 2, 11], [3, 3, 3, 3];
    Factors88And81();
    TwoStagesIff(f, np, dp);
    FirstRatioTooLow();
    if IsCandidateList(cs, f, 2) { CandidatesExistIff(cs, f, 2, np, dp); }
    if IsBest(best, f, 2) { FallbackIff(best, f, 2, np, dp); }
  }

  lemma Factors441And500()
    ensures IsFactorization([3, 3, 7, 7], 441) && IsFactorization([2, 2, 5, 5, 5], 500)
    ensures Product([3]) == 3 && Product([3, 7, 7]) == 147
    ensures Product([2]) == 2 && Product([2, 5, 5, 5]) == 250 && Product([2, 2]) == 4 && Product([5, 5, 5]) == 125
  {
    hide Product;
    FourProduct(3, 3, 7, 7);
    FourProduct(2, 5, 5, 5);
    FourProduct(2, 2, 5, 5);
    ThreeProduct(5, 5, 5);
    assert [2, 2, 5, 5, 5] == [2] + [2, 5, 5, 5] && [2, 2, 5, 5, 5] == [2, 2] + [5, 5, 5];
    ProductConcat([2], [2, 5, 5, 5]);
    ProductConcat([2, 2], [5, 5, 5]);
    ProductOne(2);
    ProductOne(3);
  }

  /** The groupings of 441 and of 500 in two factors. */
  lemma GroupingsOf441And500(num: seq<int>, den: seq<int>)
    ensures Found(num, [3, 3, 7, 7], 2, []) <==> num == [3, 147]
    ensures Found(den, [2, 2, 5, 5, 5], 2, []) <==> den == [2, 250] || den == [4, 125]
  {
    hide Product, Found;
    Factors441And500();
    var p, q := [3, 3, 7, 7], [2, 2, 5, 5, 5];
    assert p[..1] == [3] && p[1..] == [3, 7, 7];
    assert q[..1] == [2] && q[1..] == [2, 5, 5, 5] && q[..2] == [2, 2] && q[2..] == [5, 5, 5];
    FoundTwoIff(num, p);
    FoundTwoIff(den, q);
    if num == [3, 147] { assert num == Sorted(Product(p[1..]), Product(p[..1])); }
    if den == [2, 250] { assert den == Sorted(Product(q[1..]), Product(q[..1])); }
    if den == [4, 125] { assert den == Sorted(Product(q[2..]), Product(q[..2])); }
  }

  /** A case: 44.1 kHz from 50 kHz goes up first. The other pair, 3/4 first, would fall below both ends. */
  lemma UpFirst(best: Plan)
    requires IsBest(best, Fraction(441, 500), 3)
    ensures best == [Fraction(3, 2), Fraction(147, 250)]
  {
    hide IsBest, IsFactorization, Found, FirstRatio, HasPair;
    var f, np, dp := Fraction(441, 500), [3, 3, 7, 7], [2, 2, 5, 5, 5];
    Factors441And500();
    BestNeedsPrimes(best, f, 3, np, dp);
    BestStages(best, f, 3, np, dp);
    PadLong(np, 2);
    PadLong(dp, 2);
    GroupingsOf441And500([3, 147], [2, 250]);
    AcceptsTwo([3, 147], [2, 250], f);
    AcceptsTwo([3, 147], [4, 125], f);
    assert IsPair([3, 147], [2, 250], f, np, dp, 2);
    assert HasPair(f, np, dp, 2) by { HasSuchPair([3, 147], [2, 250], f, np, dp, 2); }
    BestIsLastPair(best, f, 3, np, dp);
    var num, den :| IsPair(num, den, f, np, dp, 2) && best == Zip(num, den);
    GroupingsOf441And500(num, den);
  }

  lemma HasSuchPair(num: seq<int>, den: seq<int>, f: Fraction, np: seq<int>, dp: seq<int>, s: nat)
    requires f.denominator >= 1 && IsPair(num, den, f, np, dp, s)
    ensures HasPair(f, np, dp, s)
  {
  }

  /** getBestConversionStagesCandidate(): fewer and fewer stages are tried until there is a candidate. */
  method GetBestConversionStagesCandidate(f: Fraction, maxStages: int) returns (best: Plan)
    requires f.numerator >= 1 && f.denominator >= 1
    ensures MeetsPlan(best, f)
    ensures |best| <= if maxStages <= 1 then 1 else maxStages
    ensures if maxStages <= 1 then best == [f] else IsBest(best, f, maxStages)
    // with three primes or fewer on one side there is one stage
    ensures forall np, dp ::
      IsFactorization(np, f.numerator) && IsFactorization(dp, f.denominator) && (|np| <= 3 || |dp| <= 3) ==> best == [f]
  {
    hide IsCandidateList, MeetsPlan;
    if maxStages <= 1 {
      SingleMeets(f);
      return [f];
    }
    var stages := maxStages;
    var solutions := GetConversionStageCandidates(f, stages);
    CandidatesMeet(solutions, f, stages);
    stages := stages - 1;
    while solutions == [] && stages > 0
      invariant 0 <= stages < maxStages && (solutions == [] ==> stages >= 1)
      invariant IsCandidateList(solutions, f, stages + 1)
      invariant forall j :: stages + 1 < j <= maxStages ==> IsCandidateList([], f, j)
      invariant forall i :: 0 <= i < |solutions| ==> MeetsPlan(solutions[i], f) && |solutions[i]| <= maxStages
      decreases stages
    {
      solutions := GetConversionStageCandidates(f, stages);
      CandidatesMeet(solutions, f, stages);
      stages := stages - 1;
    }
    best := solutions[|solutions| - 1];
    assert IsBest(best, f, maxStages);
    forall np, dp | IsFactorization(np, f.numerator) && IsFactorization(dp, f.denominator) && (|np| <= 3 || |dp| <= 3)
      ensures best == [f]
    {
      BestNeedsPrimes(best, f, maxStages, np, dp);
    }
  }

  datatype Preset = Preset(master: Fraction, components: Plan)

  /** The table of known ratios. */
  const PRESETS: seq<Preset> := [
    Preset(Fraction(5, 147), [Fraction(1, 3), Fraction(1, 7), Fraction(5, 7)]),
    Preset(Fraction(147, 40), [Fraction(3, 2), Fraction(7, 2), Fraction(7, 10)]),
    Preset(Fraction(147, 80), [Fraction(3, 2), Fraction(7, 4), Fraction(7, 10)]),
    Preset(Fraction(147, 160), [Fraction(3, 2), Fraction(7, 8), Fraction(7, 10)]),
    Preset(Fraction(147, 320), [Fraction(3, 5), Fraction(7, 8), Fraction(7, 8)]),
    Preset(Fraction(147, 640), [Fraction(3, 5), Fraction(7, 8), Fraction(7, 16)]),
    Preset(Fraction(4, 1), [Fraction(4, 1)])
  ]

  lemma ThreeStages(f: Fraction, a: Fraction, b: Fraction, c: Fraction)
    requires f.denominator >= 1 && a.denominator >= 1 && b.denominator >= 1 && Positive([a, b, c])
    requires a.numerator * b.numerator * c.numerator == f.numerator
    requires a.denominator * b.denominator * c.denominator == f.denominator
    requires RatioOf(a) >= MinRatio(f) && RatioOf(a) * RatioOf(b) >= MinRatio(f)
    ensures MeetsPlan([a, b, c], f)
  {
    var p := [a, b, c];
    assert Numerators(p) == [a.numerator, b.numerator, c.numerator];
    assert Denominators(p) == [a.denominator, b.denominator, c.denominator];
    ThreeProduct(a.numerator, b.numerator, c.numerator);
    ThreeProduct(a.denominator, b.denominator, c.denominator);
    assert Ratio(p, 1) == RatioOf(a);
    assert Ratio(p, 2) == RatioOf(a) * RatioOf(b);
    TestedPlanMeets(p, f);
  }

  lemma ThreeProduct(a: int, b: int, c: int)
    ensures Product([a, b, c]) == a * b * c
  {
    assert [a, b, c][..2] == [a, b] && [a, b][..1] == [a];
    ProductOne(a);
  }

  lemma PresetMeets(k: nat)
    requires k < |PRESETS|
    ensures PRESETS[k].master.denominator >= 1 && MeetsPlan(PRESETS[k].components, PRESETS[k].master)
  {
    var f, c := PRESETS[k].master, PRESETS[k].components;
    if k == 6 {
      SingleMeets(f);
    } else {
      ThreeStages(f, c[0], c[1], c[2]);
    }
  }

  /** The rates on the way through each known ratio, from its denominator to its numerator. */
  const KNOWN_RATES: seq<seq<int>> := [
    [147, 49, 7, 5], [40, 60, 210, 147], [80, 120, 210, 147], [160, 240, 210, 147], [320, 192, 168, 147],
    [640, 384, 336, 147], [1, 4]
  ]

  /** They are exact: each is the one before it times the ratio of its stage. */
  lemma PresetRates(k: nat)
    requires k < |PRESETS|
    ensures |PRESETS| == |KNOWN_RATES| == 7 && |KNOWN_RATES[k]| == |PRESETS[k].components| + 1
    ensures KNOWN_RATES[k][0] == PRESETS[k].master.denominator
    ensures KNOWN_RATES[k][|PRESETS[k].components|] == PRESETS[k].master.numerator
    ensures forall i :: 0 <= i < |PRESETS[k].components| ==>
      KNOWN_RATES[k][i + 1] * PRESETS[k].components[i].denominator
        == KNOWN_RATES[k][i] * PRESETS[k].components[i].numerator
  {
  }

  /** The ratios of which the table has a plan in three stages. */
  predicate HasThreeStagePreset(f: Fraction) {
    exists k :: 0 <= k < |PRESETS| && PRESETS[k].master == f && |PRESETS[k].components| == 3
  }

  /** What getConversionStages() may return, path by path: one stage, a preset, or the best candidate. */
  ghost predicate IsConversion(stages: Plan, f: Fraction, maxStages: int, singleStageOnDecimateOnly: bool,
                               singleStageOnInterpolateOnly: bool)
    requires f.denominator >= 1
  {
    if maxStages <= 1
      || (f.numerator == 1 && singleStageOnDecimateOnly) || (f.denominator == 1 && singleStageOnInterpolateOnly)
    then stages == [f]
    else if exists k :: 0 <= k < |PRESETS| && PRESETS[k].master == f
    then exists k :: 0 <= k < |PRESETS| && PRESETS[k] == Preset(f, stages)
    else IsBest(stages, f, maxStages)
  }

  /** A limit of two stages is exceeded for the ratios with a preset of three, and no larger limit ever is. */
  lemma ExceedsIff(stages: Plan, f: Fraction, maxStages: int, onDecimate: bool, onInterpolate: bool)
    requires f.numerator >= 1 && f.denominator >= 1 && IsConversion(stages, f, maxStages, onDecimate, onInterpolate)
    ensures |stages| > maxStages <==> maxStages <= 0 || (maxStages == 2 && HasThreeStagePreset(f))
  {
    hide IsBest, IsFactorization;
    if maxStages >= 2 && !(exists k :: 0 <= k < |PRESETS| && PRESETS[k].master == f) && stages != [f] {
      BestWithinLimit(stages, f, maxStages);
    }
  }

  lemma BestWithinLimit(best: Plan, f: Fraction, maxStages: int)
    requires f.numerator >= 1 && f.denominator >= 1 && IsBest(best, f, maxStages)
    ensures |best| <= if maxStages <= 1 then 1 else maxStages
  {
    hide IsCandidateList, MeetsPlan;
    var k: int, cs: seq<Plan> :| k <= maxStages && IsCandidateList(cs, f, k) && cs != [] && best == cs[|cs| - 1];
    CandidatesMeet(cs, f, k);
  }

  /** A case: 44.1 kHz from 48 kHz in two stages at most gives three. */
  lemma PresetExceeds(stages: Plan)
    requires IsConversion(stages, Fraction(147, 160), 2, false, false)
    ensures |stages| == 3
  {
    assert PRESETS[3].master == Fraction(147, 160);
  }

  /** The branches of getConversionStages(). */
  method ChooseStages(f: Fraction, maxStages: int, singleStageOnDecimateOnly: bool,
    singleStageOnInterpolateOnly: bool)
    returns (stages: Plan)
    requires f.numerator >= 1 && f.denominator >= 1
    ensures MeetsPlan(stages, f)
    ensures IsConversion(stages, f, maxStages, singleStageOnDecimateOnly, singleStageOnInterpolateOnly)
  {
    hide IsBest, MeetsPlan, IsFactorization;
    SingleMeets(f);
    if maxStages <= 1 {
      return [f];
    }
    if f.numerator == 1 && singleStageOnDecimateOnly {
      return [f];
    }
    if f.denominator == 1 && singleStageOnInterpolateOnly {
      return [f];
    }
    for k := 0 to |PRESETS|
      invariant forall i :: 0 <= i < k ==> PRESETS[i].master != f
    {
      if PRESETS[k].master == f {
        PresetMeets(k);
        assert PRESETS[k] == Preset(f, PRESETS[k].components);
        return PRESETS[k].components;
      }
    }
    stages := GetBestConversionStagesCandidate(f, maxStages);
  }

  /** getConversionStages(). The two single-stage policies of the header are parameters here. */
  method GetConversionStages(f: Fraction, maxStages: int, singleStageOnDecimateOnly: bool,
    singleStageOnInterpolateOnly: bool)
    returns (stages: Plan)
    requires f.numerator >= 1 && f.denominator >= 1
    ensures MeetsPlan(stages, f)
    // in figures: the stages multiply to f, and no prefix has a ratio below both 1 and f
    ensures stages != [] && Product(Numerators(stages)) == f.numerator && Product(Denominators(stages)) == f.denominator
    ensures forall i :: 1 <= i <= |stages| ==>
      var a, b := Product(Numerators(stages)[..i]), Product(Denominators(stages)[..i]);
      a >= b || a * f.denominator >= f.numerator * b
    ensures IsConversion(stages, f, maxStages, singleStageOnDecimateOnly, singleStageOnInterpolateOnly)
  {
    hide IsConversion, MeetsPlan, Product;
    stages := ChooseStages(f, maxStages, singleStageOnDecimateOnly, singleStageOnInterpolateOnly);
    MeetsInFigures(stages, f);
  }

  // ----- The rates of the stages (Converter::initMultistage)

  /** After `i` stages the rate still contains all denominators to come. */
  lemma RateStep(g: int, num: int, den: int, numSoFar: int, denRest: int)
    requires den >= 1
    ensures ((g * (den * denRest) * numSoFar) * num) % den == 0
    ensures ((g * (den * denRest) * numSoFar) * num) / den == g * denRest * (numSoFar * num)
  {
    var x := g * denRest * (numSoFar * num);
    assert (g * (den * denRest) * numSoFar) * num == x * den;
    DividesIntro(den, x * den, x);
    ExactQuotient(x, den);
  }

  lemma ExactQuotient(x: int, d: int)
    requires d >= 1
    ensures (x * d) / d == x
  {
    assert (x - (x * d) / d) * d == (x * d) % d;
    MulGrows(x - (x * d) / d, d);
  }

  /** The output rate of one stage: an integer division that is exact. */
  method NextRate(inputRate: int, f: Fraction, ghost g: int, ghost numSoFar: int, ghost denRest: int)
    returns (outputRate: int)
    requires f.denominator >= 1 && inputRate == g * (f.denominator * denRest) * numSoFar
    ensures outputRate * f.denominator == inputRate * f.numerator
    ensures outputRate == g * denRest * (numSoFar * f.numerator)
  {
    RateStep(g, f.numerator, f.denominator, numSoFar, denRest);
    outputRate := inputRate * f.numerator / f.denominator;
  }

  lemma ProductFront(s: seq<int>, i: nat)
    requires i < |s|
    ensures Product(s[i..]) == s[i] * Product(s[i + 1..]) && Product(s[..i + 1]) == Product(s[..i]) * s[i]
  {
    assert s[i..] == [s[i]] + s[i + 1..];
    ProductConcat([s[i]], s[i + 1..]);
    ProductOne(s[i]);
    assert s[..i + 1][..i] == s[..i];
  }

  lemma PositiveFactor(x: int, g: int)
    requires g >= 1 && x * g >= 1
    ensures x >= 1
  {
    if x <= 0 { MulGrows(1 - x, g); }
  }

  lemma EmptyProduct()
    ensures Product([]) == 1
  {
  }

  /** The rates along a plan for a ratio whose denominator divides the input rate. */
  method RatesAlong(stages: Plan, inputRate: int, f: Fraction, ghost g: int) returns (rates: seq<int>)
    requires f.denominator >= 1 && MeetsPlan(stages, f) && inputRate == g * f.denominator
    ensures |rates| == |stages| + 1 && rates[0] == inputRate && rates[|stages|] == g * f.numerator
    ensures forall i :: 0 <= i < |stages| ==> rates[i + 1] * stages[i].denominator == rates[i] * stages[i].numerator
  {
    hide Product, Ratio, RatioOf, MinRatio;
    ghost var ns, ds := Numerators(stages), Denominators(stages);
    var rate: int := inputRate;
    rates := [rate];
    assert ds[0..] == ds && ns[..0] == [];
    EmptyProduct();
    for i := 0 to |stages|
      invariant |rates| == i + 1 && rates[0] == inputRate && rates[i] == rate
      invariant rate == g * Product(ds[i..]) * Product(ns[..i])
      invariant forall k :: 0 <= k < i ==> rates[k + 1] * stages[k].denominator == rates[k] * stages[k].numerator
    {
      ProductFront(ds, i);
      ProductFront(ns, i);
      rate := NextRate(rate, stages[i], g, Product(ns[..i]), Product(ds[i + 1..]));
      rates := rates + [rate];
    }
    assert ns[..|stages|] == ns && ds[|stages|..] == [];
  }

  /** The stage rates of a multistage converter: every division is exact, and the last rate is the one asked for. */
  method StageRates(inputRate: nat, outputRate: nat, maxStages: int) returns (stages: Plan, rates: seq<int>)
    requires inputRate >= 1 && outputRate >= 1
    ensures |rates| == |stages| + 1 && stages != [] && Positive(stages)
    ensures rates[0] == inputRate && rates[|stages|] == outputRate
    ensures forall i :: 0 <= i < |stages| ==> rates[i + 1] * stages[i].denominator == rates[i] * stages[i].numerator
  {
    hide FractionFromSamplerates, Euclid, IsConversion;
    var f := GetFractionFromSamplerates(inputRate, outputRate);
    FractionIsExact(inputRate, outputRate);
    ghost var g := Euclid(inputRate, outputRate);
    PositiveFactor(f.numerator, g);
    PositiveFactor(f.denominator, g);
    stages := GetConversionStages(f, maxStages, false, false);
    rates := RatesAlong(stages, inputRate, f, g);
  }
}
