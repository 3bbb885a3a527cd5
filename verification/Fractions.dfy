/** gcd, reduced fractions and prime factors (fraction.h). */
module Fractions {
  import Signals

  datatype Fraction = Fraction(numerator: int, denominator: int)

  predicate Divides(d: int, n: int) {
    d != 0 && n % d == 0
  }

  function Abs(x: int): nat {
    if x < 0 then -x else x
  }

  /** Euclid's recursion. */
  function Euclid(a: nat, b: nat): nat
    decreases b
  {
    if b == 0 then a else Euclid(b, a % b)
  }

  /** gcd(): two remainders per round, after the signs are dropped. */
  method Gcd(x: int, y: int) returns (g: int)
    ensures g == Euclid(Abs(x), Abs(y))
  {
    var a, b := x, y;
    if a < 0 { a := -a; }
    if b < 0 { b := -b; }
    while b != 0
      invariant a >= 0 && b >= 0 && Euclid(a, b) == Euclid(Abs(x), Abs(y))
      decreases b
    {
      a := a % b;
      if a == 0 { return b; }
      b := b % a;
    }
    return a;
  }

  /** A product with a nonzero factor is at least as large as that factor. */
  lemma MulGrows(e: int, d: int)
    ensures e >= 1 ==> Abs(e * d) >= Abs(d)
    ensures e <= -1 ==> Abs(e * d) >= Abs(d)
    ensures e >= 1 && d >= 0 ==> e * d >= d
  {
  }

  lemma DividesIntro(d: int, n: int, k: int)
    requires d != 0 && n == k * d
    ensures Divides(d, n)
  {
    assert (k - n / d) * d == n % d;
    MulGrows(k - n / d, d);
  }

  lemma DividesElim(d: int, n: int) returns (k: int)
    requires Divides(d, n)
    ensures n == k * d
  {
    k := n / d;
  }

  lemma DividesCombination(c: int, x: int, y: int, m: int)
    requires Divides(c, x) && Divides(c, y)
    ensures Divides(c, x + m * y)
  {
    hide Divides;
    var kx := DividesElim(c, x);
    var ky := DividesElim(c, y);
    assert x + m * y == (kx + m * ky) * c;
    assert c != 0 by { DividesNonzero(c, x); }
    DividesIntro(c, x + m * y, kx + m * ky);
  }

  lemma DividesNonzero(c: int, x: int)
    requires Divides(c, x)
    ensures c != 0
  {
  }

  lemma DividesRemainder(c: int, a: nat, b: nat)
    requires b > 0 && Divides(c, b)
    ensures Divides(c, a) <==> Divides(c, a % b)
  {
    hide Divides;
    var q := a / b;
    if Divides(c, a) {
      DividesCombination(c, a, b, -q);
      assert a + -q * b == a % b;
    }
    if Divides(c, a % b) {
      DividesCombination(c, a % b, b, q);
      assert a % b + q * b == a;
    }
  }

  /** The recursion computes the greatest common divisor: the common divisors are exactly its divisors. */
  lemma {:induction false} EuclidIsGcd(a: nat, b: nat, c: int)
    requires c != 0 && (a != 0 || b != 0)
    ensures Euclid(a, b) >= 1
    ensures Divides(c, a) && Divides(c, b) <==> Divides(c, Euclid(a, b))
    decreases b
  {
    if b == 0 {
      DividesIntro(c, 0, 0);
    } else {
      EuclidIsGcd(b, a % b, c);
      if Divides(c, b) { DividesRemainder(c, a, b); }
    }
  }

  lemma EuclidDivides(a: nat, b: nat)
    requires a != 0 || b != 0
    ensures Euclid(a, b) >= 1 && Divides(Euclid(a, b), a) && Divides(Euclid(a, b), b)
  {
    EuclidIsGcd(a, b, 1);
    DividesIntro(Euclid(a, b), Euclid(a, b), 1);
    EuclidIsGcd(a, b, Euclid(a, b));
  }

  /** getFractionFromSamplerates(): the conversion factor L/M. */
  function FractionFromSamplerates(inputRate: int, outputRate: int): Fraction
    requires Euclid(Abs(inputRate), Abs(outputRate)) != 0
  {
    var g := Euclid(Abs(inputRate), Abs(outputRate));
    Fraction(outputRate / g, inputRate / g)
  }

  method GetFractionFromSamplerates(inputRate: int, outputRate: int) returns (f: Fraction)
    requires inputRate != 0 || outputRate != 0
    ensures Euclid(Abs(inputRate), Abs(outputRate)) != 0
    ensures f == FractionFromSamplerates(inputRate, outputRate)
  {
    EuclidIsGcd(Abs(inputRate), Abs(outputRate), 1);
    var g := Gcd(inputRate, outputRate);
    f := Fraction(outputRate / g, inputRate / g);
  }

  lemma DividesAbs(d: int, x: int)
    requires Divides(d, Abs(x))
    ensures Divides(d, x)
  {
    var k := DividesElim(d, Abs(x));
    DividesIntro(d, x, if x < 0 then -k else k);
  }

  /** The fraction times the common divisor gives back both rates exactly, so the ratio is the exact one. */
  lemma FractionIsExact(inputRate: int, outputRate: int)
    requires inputRate != 0 || outputRate != 0
    ensures var g := Euclid(Abs(inputRate), Abs(outputRate));
      g >= 1
      && FractionFromSamplerates(inputRate, outputRate).numerator * g == outputRate
      && FractionFromSamplerates(inputRate, outputRate).denominator * g == inputRate
  {
    var g := Euclid(Abs(inputRate), Abs(outputRate));
    EuclidDivides(Abs(inputRate), Abs(outputRate));
    DividesAbs(g, inputRate);
    DividesAbs(g, outputRate);
  }

  /** It is in lowest terms: only 1 and -1 divide both. */
  lemma FractionInLowestTerms(inputRate: int, outputRate: int, c: int)
    requires inputRate != 0 || outputRate != 0
    requires Euclid(Abs(inputRate), Abs(outputRate)) != 0
    requires var f := FractionFromSamplerates(inputRate, outputRate);
      Divides(c, f.numerator) && Divides(c, f.denominator)
    ensures c == 1 || c == -1
  {
    hide Divides, FractionFromSamplerates;
    var g := Euclid(Abs(inputRate), Abs(outputRate));
    var f := FractionFromSamplerates(inputRate, outputRate);
    FractionIsExact(inputRate, outputRate);
    TimesDivides(c, f.numerator, g, outputRate);
    TimesDivides(c, f.denominator, g, inputRate);
    EuclidIsGcd(Abs(inputRate), Abs(outputRate), c * g);
    var e := DividesElim(c * g, g);
    UnitFactor(e, c, g);
  }

  lemma TimesDivides(c: int, x: int, g: int, n: int)
    requires Divides(c, x) && g >= 1 && x * g == n
    ensures c * g != 0 && Divides(c * g, Abs(n))
  {
    var k := DividesElim(c, x);
    assert n == k * (c * g) && -n == (-k) * (c * g);
    assert c * g != 0 by { MulGrows(g, c); }
    DividesIntro(c * g, Abs(n), if n < 0 then -k else k);
  }

  lemma UnitFactor(e: int, c: int, g: int)
    requires g >= 1 && e * (c * g) == g
    ensures c == 1 || c == -1
  {
    hide *;
    assert (e * c - 1) * g == 0;
    MulGrows(e * c - 1, g);
    MulGrows(e, c);
  }

  // ----- Prime factors

  predicate IsPrime(p: int) {
    p >= 2 && forall d :: 2 <= d < p ==> p % d != 0
  }

  function Product(s: seq<int>): int {
    if s == [] then 1 else Product(s[..|s| - 1]) * s[|s| - 1]
  }

  /** The integer part of the square root. */
  function Isqrt(n: nat): (r: nat)
    ensures r * r <= n < (r + 1) * (r + 1)
  {
    if n == 0 then 0
    else
      var r := Isqrt(n - 1);
      if (r + 1) * (r + 1) <= n then r + 1 else r
  }

  predicate NoDivisorBelow(n: int, bound: int) {
    forall d :: 2 <= d < bound ==> n % d != 0
  }

  predicate AscendingPrimes(s: seq<int>) {
    && (forall i :: 0 <= i < |s| ==> IsPrime(s[i]))
    && forall i, j :: 0 <= i < j < |s| ==> s[i] <= s[j]
  }

  lemma DividesTrans(d: int, p: int, n: int)
    requires Divides(d, p) && Divides(p, n)
    ensures Divides(d, n)
  {
    var a := DividesElim(d, p);
    var b := DividesElim(p, n);
    assert n == (b * a) * d;
    DividesIntro(d, n, b * a);
  }

  /** The least divisor is prime. */
  lemma LeastDivisorIsPrime(n: int, p: int)
    requires p >= 2 && n % p == 0 && NoDivisorBelow(n, p)
    ensures IsPrime(p)
  {
    forall d | 2 <= d < p ensures p % d != 0 {
      if p % d == 0 { DividesTrans(d, p, n); }
    }
  }

  lemma SmallDivisor(n: int, d: int, e: int, r: nat)
    requires n == e * d && 2 <= d < n && n < (r + 1) * (r + 1) && NoDivisorBelow(n, r + 1)
    ensures n % d != 0
  {
    if n % d == 0 {
      MulGrows(1 - e, d);
      assert e >= 2;
      DividesIntro(e, n, d);
      MulBoth(e, d, r + 1);
    }
  }

  lemma MulBoth(e: int, d: int, m: nat)
    requires e >= m && d >= m
    ensures e * d >= m * m
  {
    assert (e - m) * d >= 0 && m * (d - m) >= 0;
  }

  /** What is left after dividing by every candidate up to the square root is prime. */
  lemma CofactorIsPrime(n: int, r: nat)
    requires n >= 2 && n < (r + 1) * (r + 1) && NoDivisorBelow(n, r + 1)
    ensures IsPrime(n) && n > r
  {
    assert n % n == 0;
    forall d | 2 <= d < n ensures n % d != 0 {
      if n % d == 0 { SmallDivisor(n, d, n / d, r); }
    }
  }

  lemma QuotientKeepsNoDivisor(n: int, p: int, bound: int)
    requires p >= 2 && n % p == 0 && NoDivisorBelow(n, bound)
    ensures NoDivisorBelow(n / p, bound)
  {
    forall d | 2 <= d < bound ensures (n / p) % d != 0 {
      if (n / p) % d == 0 {
        DividesIntro(n / p, n, p);
        DividesTrans(d, n / p, n);
      }
    }
  }

  lemma DivideOut(done: int, rest: int, factor: int)
    requires rest >= 1 && factor >= 2 && rest % factor == 0
    ensures 1 <= rest / factor < rest && (done * factor) * (rest / factor) == done * rest
  {
    var q := rest / factor;
    assert q * factor == rest;
    assert (done * factor) * q == done * (q * factor);
  }

  /** A factor found goes to the end of the list, and out of the rest. */
  lemma OneMoreFactor(factors: seq<int>, rest: nat, factor: nat)
    requires rest >= 1 && factor >= 2 && rest % factor == 0 && NoDivisorBelow(rest, factor)
    requires AscendingPrimes(factors) && forall i :: 0 <= i < |factors| ==> factors[i] <= factor
    ensures AscendingPrimes(factors + [factor]) && NoDivisorBelow(rest / factor, factor)
    ensures 1 <= rest / factor < rest && Product(factors + [factor]) * (rest / factor) == Product(factors) * rest
  {
    hide NoDivisorBelow, IsPrime, Product, AscendingPrimes;
    LeastDivisorIsPrime(rest, factor);
    QuotientKeepsNoDivisor(rest, factor, factor);
    DivideOut(Product(factors), rest, factor);
    AppendPrime(factors, factor);
  }

  lemma AppendPrime(factors: seq<int>, p: int)
    requires AscendingPrimes(factors) && IsPrime(p) && forall i :: 0 <= i < |factors| ==> factors[i] <= p
    ensures AscendingPrimes(factors + [p]) && Product(factors + [p]) == Product(factors) * p
  {
    hide IsPrime, Product;
    AppendProduct(factors, p);
  }

  lemma AppendProduct(factors: seq<int>, p: int)
    ensures Product(factors + [p]) == Product(factors) * p
  {
    assert (factors + [p])[..|factors|] == factors;
  }

  lemma NothingDividedYet(n: int)
    ensures Product([]) == 1 && AscendingPrimes([]) && NoDivisorBelow(n, 2)
  {
  }

  /** The candidates are passed one by one. */
  lemma NoDivisorNext(n: int, bound: int)
    ensures bound >= 2 && NoDivisorBelow(n, bound) && n % bound != 0 ==> NoDivisorBelow(n, bound + 1)
    ensures forall b :: b <= bound && NoDivisorBelow(n, bound) ==> NoDivisorBelow(n, b)
  {
  }

  /** factorize(): trial division up to the square root, then whatever is left. */
  method Factorize(n: nat) returns (factors: seq<int>)
    ensures Product(factors) == n && |factors| >= 1
    ensures n >= 2 ==> AscendingPrimes(factors)
    // in figures: each is at least 2 without a divisor between 1 and itself, and not less than the one before
    ensures n >= 2 ==> forall i :: 0 <= i < |factors| ==>
      factors[i] >= 2 && forall d :: 2 <= d < factors[i] ==> factors[i] % d != 0
    ensures n >= 2 ==> forall i, j :: 0 <= i < j < |factors| ==> factors[i] <= factors[j]
    ensures n < 2 ==> factors == [n]
  {
    hide Product, AscendingPrimes, NoDivisorBelow, IsPrime;
    NothingDividedYet(n);
    factors := [];
    var rest := n;
    var maxFactor := Isqrt(n);
    var factor := 2;
    while factor <= maxFactor
      invariant 2 <= factor && (factor <= maxFactor + 1 || (maxFactor < 2 && factor == 2))
      invariant Product(factors) * rest == n && AscendingPrimes(factors)
      invariant forall i :: 0 <= i < |factors| ==> factors[i] < factor
      invariant NoDivisorBelow(rest, factor)
      invariant n >= 2 ==> 2 <= rest <= n
      invariant n < 2 ==> factors == [] && rest == n
      decreases maxFactor + 1 - factor
    {
      while rest % factor == 0
        invariant Product(factors) * rest == n && AscendingPrimes(factors)
        invariant forall i :: 0 <= i < |factors| ==> factors[i] <= factor
        invariant NoDivisorBelow(rest, factor) && 1 <= rest <= n
        invariant rest == 1 ==> factors != []
        decreases rest
      {
        OneMoreFactor(factors, rest, factor);
        factors := factors + [factor];
        rest := rest / factor;
      }
      if rest == 1 {
        PrimesInFigures(factors);
        return;
      }
      NoDivisorNext(rest, factor);
      factor := factor + 1;
    }
    AppendProduct(factors, rest);
    if n >= 2 {
      NoDivisorNext(rest, factor);
      CofactorIsPrime(rest, maxFactor);
      AppendPrime(factors, rest);
    }
    factors := factors + [rest];
    if n >= 2 { PrimesInFigures(factors); }
  }

  lemma PrimesInFigures(s: seq<int>)
    requires AscendingPrimes(s)
    ensures forall i :: 0 <= i < |s| ==> s[i] >= 2 && forall d :: 2 <= d < s[i] ==> s[i] % d != 0
    ensures forall i, j :: 0 <= i < j < |s| ==> s[i] <= s[j]
  {
  }

  // ----- Factorizations are unique

  /** A common factor passes through the recursion. */
  lemma {:induction false} EuclidScaled(k: nat, a: nat, b: nat)
    requires k >= 1
    ensures Euclid(k * a, k * b) == k * Euclid(a, b)
    decreases b
  {
    if b != 0 {
      ScaledRemainder(k, a, b);
      EuclidScaled(k, b, a % b);
    }
  }

  lemma ScaledRemainder(k: nat, a: nat, b: nat)
    requires k >= 1 && b >= 1
    ensures k * b >= 1 && (k * a) % (k * b) == k * (a % b)
  {
    var q, r := a / b, a % b;
    assert k * a == q * (k * b) + k * r by { assert k * (q * b + r) == k * (q * b) + k * r; }
    assert k * r < k * b by { MulGrows(b - r, k); assert k * (b - r) == k * b - k * r; }
    Signals.DivUnique(k * a, k * b, q, k * r);
  }

  /** A prime that divides a product divides one of its factors. */
  lemma PrimeDividesFactor(p: nat, a: nat, b: nat)
    requires IsPrime(p) && Divides(p, a * b)
    ensures Divides(p, a) || Divides(p, b)
  {
    hide IsPrime, Divides, Euclid;
    PrimePositive(p);
    EuclidDivides(p, a);
    PrimeDivisor(p, Euclid(p, a));
    if b == 0 {
      DividesIntro(p, 0, 0);
    } else if Euclid(p, a) == 1 {
      CoprimeDivides(p, a, b);
    }
  }

  lemma PrimePositive(p: int)
    requires IsPrime(p)
    ensures p >= 2
  {
  }

  lemma CoprimeDivides(p: nat, a: nat, b: nat)
    requires p >= 1 && b >= 1 && Euclid(p, a) == 1 && Divides(p, a * b)
    ensures Divides(p, b)
  {
    hide Divides, Euclid;
    EuclidScaled(b, p, a);
    MulGrows(p, b);
    EuclidIsGcd(b * p, b * a, p);
    DividesIntro(p, b * p, b);
    assert a * b == b * a;
  }

  lemma PrimeDivisor(p: int, g: nat)
    requires IsPrime(p) && g >= 1 && Divides(g, p)
    ensures g == 1 || g == p
  {
    var k := DividesElim(g, p);
    if g > p { MulGrows(k, g); }
  }

  lemma {:induction false} PrimeInProduct(p: nat, s: seq<int>)
    requires IsPrime(p) && AscendingPrimes(s) && Divides(p, Product(s))
    ensures p in s && Product(s) >= 1
  {
    hide IsPrime, Divides;
    PrimesPositive(s);
    if s == [] {
      PrimeNotOne(p);
    } else {
      var n := |s| - 1;
      PrimesPositive(s[..n]);
      PrimeDividesFactor(p, Product(s[..n]), s[n]);
      if Divides(p, s[n]) {
        PrimeOfPrime(p, s[n]);
      } else {
        PrimeInProduct(p, s[..n]);
        assert forall x :: x in s[..n] ==> x in s;
      }
    }
  }

  lemma PrimeNotOne(p: int)
    requires IsPrime(p)
    ensures !Divides(p, 1)
  {
  }

  lemma PrimeOfPrime(p: int, q: int)
    requires IsPrime(p) && IsPrime(q) && Divides(p, q)
    ensures p == q
  {
    PrimeDivisor(q, p);
  }

  lemma {:induction false} PrimesPositive(s: seq<int>)
    requires AscendingPrimes(s)
    ensures Product(s) >= 1 && forall i :: 0 <= i < |s| ==> s[i] >= 2
  {
    if s != [] {
      PrimesPositive(s[..|s| - 1]);
      MulGrows(Product(s[..|s| - 1]), s[|s| - 1]);
    }
  }

  /** The greatest prime of one list is in the other. */
  lemma LastInOther(s: seq<int>, t: seq<int>)
    requires AscendingPrimes(s) && AscendingPrimes(t) && Product(s) == Product(t) && s != []
    ensures t != [] && s[|s| - 1] <= t[|t| - 1]
  {
    hide IsPrime;
    PrimesPositive(s);
    DividesIntro(s[|s| - 1], Product(s), Product(s[..|s| - 1]));
    PrimeInProduct(s[|s| - 1], t);
  }

  /** Ascending primes with the same product are the same. */
  lemma {:induction false} AscendingPrimesUnique(s: seq<int>, t: seq<int>)
    requires AscendingPrimes(s) && AscendingPrimes(t) && Product(s) == Product(t)
    ensures s == t
    decreases |s|
  {
    hide IsPrime, Product;
    if s == [] && t == [] {
    } else if s == [] {
      LastInOther(t, s);
    } else {
      LastInOther(s, t);
      LastInOther(t, s);
      var m, n, p := |s| - 1, |t| - 1, s[|s| - 1];
      PrimesPositive(s);
      SameFront(s, t, p);
      AscendingPrimesUnique(s[..m], t[..n]);
      assert s == s[..m] + [p] && t == t[..n] + [p];
    }
  }

  lemma SameFront(s: seq<int>, t: seq<int>, p: int)
    requires s != [] && t != [] && s[|s| - 1] == t[|t| - 1] == p >= 1 && Product(s) == Product(t)
    ensures Product(s[..|s| - 1]) == Product(t[..|t| - 1])
  {
    var a, b := Product(s[..|s| - 1]), Product(t[..|t| - 1]);
    assert (a - b) * p == 0;
    MulGrows(a - b, p);
  }
}
