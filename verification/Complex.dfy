/** Complex numbers as pairs of reals, finite sums of them, and roots of unity. */
module Complex {

  datatype C = C(re: real, im: real)

  const ZERO := C(0.0, 0.0)
  const ONE := C(1.0, 0.0)

  function Add(x: C, y: C): C {
    C(x.re + y.re, x.im + y.im)
  }

  function Mul(x: C, y: C): C {
    C(x.re * y.re - x.im * y.im, x.re * y.im + x.im * y.re)
  }

  function Conj(x: C): C {
    C(x.re, -x.im)
  }

  function Scale(x: C, k: real): C {
    C(x.re * k, x.im * k)
  }

  /** The arithmetic in figures: parts add up, and i times i is -1. */
  lemma ImaginaryUnit(a: real, b: real, c: real, d: real)
    ensures Add(C(a, b), C(c, d)) == C(a + c, b + d) && Scale(C(a, b), c) == C(a * c, b * c)
    ensures Mul(C(0.0, 1.0), C(0.0, 1.0)) == C(-1.0, 0.0) && Mul(C(a, b), C(1.0, 0.0)) == C(a, b)
    ensures Conj(C(a, b)) == C(a, 0.0 - b)
  {
  }

  lemma MulComm(x: C, y: C)
    ensures Mul(x, y) == Mul(y, x)
  {
  }

  lemma MulAssoc(x: C, y: C, z: C)
    ensures Mul(Mul(x, y), z) == Mul(x, Mul(y, z))
  {
  }

  lemma MulAdd(x: C, y: C, z: C)
    ensures Mul(x, Add(y, z)) == Add(Mul(x, y), Mul(x, z))
  {
  }

  lemma ConjMul(x: C, y: C)
    ensures Conj(Mul(x, y)) == Mul(Conj(x), Conj(y)) && Conj(Conj(x)) == x
  {
  }

  /** Scaling is multiplication by a real number. */
  lemma ScaleIsMul(x: C, k: real)
    ensures Scale(x, k) == Mul(x, C(k, 0.0))
  {
  }

  lemma MulScale(x: C, y: C, k: real)
    ensures Mul(x, Scale(y, k)) == Scale(Mul(x, y), k)
  {
    hide Mul, Scale;
    ScaleIsMul(y, k);
    ScaleIsMul(Mul(x, y), k);
    MulAssoc(x, y, C(k, 0.0));
  }

  lemma ScaleMul(x: C, y: C, k: real)
    ensures Mul(Scale(x, k), y) == Scale(Mul(x, y), k) && Mul(x, Scale(y, k)) == Scale(Mul(x, y), k)
  {
    hide Mul, Scale;
    MulScale(x, y, k);
    MulScale(y, x, k);
    MulComm(Scale(x, k), y);
    MulComm(x, y);
  }

  function RealProduct(a: real, b: real): real {
    a * b
  }

  lemma PositiveProduct(a: real, b: real)
    requires a > 0.0 && b > 0.0
    ensures RealProduct(a, b) > 0.0
  {
  }

  lemma SignedSquare(a: real)
    ensures RealProduct(-a, -a) == RealProduct(a, a) && RealProduct(0.0, 0.0) == 0.0
  {
  }

  lemma SquarePositive(a: real)
    ensures RealProduct(a, a) >= 0.0 && (a != 0.0 ==> RealProduct(a, a) > 0.0)
  {
    hide RealProduct;
    SignedSquare(a);
    if a > 0.0 { PositiveProduct(a, a); } else if a < 0.0 { PositiveProduct(-a, -a); }
  }

  /** The squared modulus, which is zero only for zero. */
  ghost function Norm(x: C): (n: real)
    ensures n >= 0.0 && (n == 0.0 ==> x == ZERO)
  {
    hide RealProduct;
    assert x == C(x.re, x.im);
    SquarePositive(x.re);
    SquarePositive(x.im);
    RealProduct(x.re, x.re) + RealProduct(x.im, x.im)
  }

  lemma ConjTimes(x: C)
    ensures Mul(Conj(x), x) == C(Norm(x), 0.0)
  {
  }

  lemma RealTimes(n: real, y: C)
    ensures Mul(C(n, 0.0), y) == C(n * y.re, n * y.im)
    ensures Mul(y, ZERO) == ZERO
  {
  }

  lemma CancelPositive(n: real, a: real)
    requires n > 0.0 && n * a == 0.0
    ensures a == 0.0
  {
  }

  /** There are no zero divisors. */
  lemma NoZeroDivisors(x: C, y: C)
    requires Mul(x, y) == ZERO
    ensures x == ZERO || y == ZERO
  {
    hide Mul, Norm;
    var n := Norm(x);
    ConjTimes(x);
    MulAssoc(Conj(x), x, y);
    RealTimes(n, Conj(x));
    RealTimes(n, y);
    if x != ZERO {
      CancelPositive(n, y.re);
      CancelPositive(n, y.im);
      assert y == C(y.re, y.im);
    }
  }

  // ----- Sums

  ghost function CSum(n: nat, f: int -> C): C {
    if n == 0 then ZERO else Add(CSum(n - 1, f), f(n - 1))
  }

  lemma {:induction false} SumEq(n: nat, f: int -> C, g: int -> C)
    requires forall i :: 0 <= i < n ==> f(i) == g(i)
    ensures CSum(n, f) == CSum(n, g)
  {
    if n > 0 { SumEq(n - 1, f, g); }
  }

  lemma {:induction false} SumZero(n: nat, f: int -> C)
    requires forall i :: 0 <= i < n ==> f(i) == ZERO
    ensures CSum(n, f) == ZERO
  {
    if n > 0 { SumZero(n - 1, f); }
  }

  lemma {:induction false} SumMul(n: nat, c: C, f: int -> C)
    ensures Mul(c, CSum(n, f)) == CSum(n, i => Mul(c, f(i)))
  {
    if n > 0 {
      SumMul(n - 1, c, f);
      MulAdd(c, CSum(n - 1, f), f(n - 1));
    }
  }

  lemma {:induction false} SumScale(n: nat, k: real, f: int -> C)
    ensures Scale(CSum(n, f), k) == CSum(n, i => Scale(f(i), k))
  {
    if n > 0 {
      SumScale(n - 1, k, f);
      ScaleAdd(CSum(n - 1, f), f(n - 1), k);
    }
  }

  lemma ScaleAdd(a: C, b: C, k: real)
    ensures Scale(Add(a, b), k) == Add(Scale(a, k), Scale(b, k))
  {
  }

  lemma {:induction false} SumConj(n: nat, f: int -> C)
    ensures Conj(CSum(n, f)) == CSum(n, i => Conj(f(i)))
  {
    if n > 0 {
      SumConj(n - 1, f);
      ConjAdd(CSum(n - 1, f), f(n - 1));
    }
  }

  lemma ConjAdd(a: C, b: C)
    ensures Conj(Add(a, b)) == Add(Conj(a), Conj(b))
  {
  }

  lemma {:induction false} SumAdd(n: nat, f: int -> C, g: int -> C)
    ensures CSum(n, i => Add(f(i), g(i))) == Add(CSum(n, f), CSum(n, g))
  {
    if n > 0 { SumAdd(n - 1, f, g); }
  }

  /** A sum with one term that is not zero. */
  lemma {:induction false} SumOne(n: nat, k: nat, f: int -> C)
    requires k < n && forall i :: 0 <= i < n && i != k ==> f(i) == ZERO
    ensures CSum(n, f) == f(k)
  {
    if k == n - 1 { SumZero(n - 1, f); } else { SumOne(n - 1, k, f); }
  }

  ghost function RowOf(f: (int, int) -> C, i: int): int -> C {
    j => f(i, j)
  }

  ghost function ColumnOf(f: (int, int) -> C, j: int): int -> C {
    i => f(i, j)
  }

  ghost function RowSums(m: nat, f: (int, int) -> C): int -> C {
    i => CSum(m, RowOf(f, i))
  }

  ghost function ColumnSums(n: nat, f: (int, int) -> C): int -> C {
    j => CSum(n, ColumnOf(f, j))
  }

  /** The order of a double sum can be changed. */
  lemma {:induction false} SumSwap(n: nat, m: nat, f: (int, int) -> C)
    ensures CSum(n, RowSums(m, f)) == CSum(m, ColumnSums(n, f))
  {
    if n == 0 {
      SumZero(m, ColumnSums(0, f));
    } else {
      SumSwap(n - 1, m, f);
      var before, last := ColumnSums(n - 1, f), RowOf(f, n - 1);
      SumAdd(m, before, last);
      SumEq(m, ColumnSums(n, f), j => Add(before(j), last(j)));
    }
  }

  lemma {:induction false} SumConcat(n: nat, m: nat, f: int -> C)
    ensures CSum(n + m, f) == Add(CSum(n, f), CSum(m, i => f(n + i)))
  {
    if m > 0 { SumConcat(n, m - 1, f); }
  }

  /** The terms of a sum of m·r terms, as a table of m rows. */
  ghost function Table(r: nat, f: int -> C): (int, int) -> C {
    (q, p) => f(q * r + p)
  }

  /** A sum of m·r terms is the sum of its m rows. */
  lemma {:induction false} SumRows(m: nat, r: nat, f: int -> C)
    ensures m * r >= 0 && CSum(m * r, f) == CSum(m, RowSums(r, Table(r, f)))
  {
    if m == 0 {
      assert m * r == 0;
    } else {
      SumRows(m - 1, r, f);
      assert m * r == (m - 1) * r + r;
      SumConcat((m - 1) * r, r, f);
      SumEq(r, RowOf(Table(r, f), m - 1), i => f((m - 1) * r + i));
    }
  }

  /** It is also the sum of its r columns. */
  lemma SumColumns(m: nat, r: nat, f: int -> C)
    ensures m * r >= 0 && CSum(m * r, f) == CSum(r, ColumnSums(m, Table(r, f)))
  {
    SumRows(m, r, f);
    SumSwap(m, r, Table(r, f));
  }
}
