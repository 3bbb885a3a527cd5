/** getnFactors of fraction.h: a backtracking search over one shared array, collected in an ordered set. */
module FactorGroups {
  import opened Fractions

  // ----- std::sort on a vector of int

  function InsertInt(s: seq<int>, x: int): seq<int> {
    if s == [] then [x] else if x <= s[0] then [x] + s else [s[0]] + InsertInt(s[1..], x)
  }

  function SortInts(s: seq<int>): seq<int> {
    if s == [] then [] else InsertInt(SortInts(s[..|s| - 1]), s[|s| - 1])
  }

  predicate IsSorted(s: seq<int>) {
    forall i, j :: 0 <= i < j < |s| ==> s[i] <= s[j]
  }

  lemma {:induction false} InsertIntContents(s: seq<int>, x: int)
    ensures multiset(InsertInt(s, x)) == multiset(s) + multiset{x} && |InsertInt(s, x)| == |s| + 1
  {
    if s != [] && x > s[0] {
      InsertIntContents(s[1..], x);
      assert s == [s[0]] + s[1..];
    }
  }

  lemma {:induction false} InsertIntSorted(s: seq<int>, x: int)
    requires IsSorted(s)
    ensures IsSorted(InsertInt(s, x))
  {
    if s != [] && x > s[0] {
      var rest := InsertInt(s[1..], x);
      InsertIntSorted(s[1..], x);
      InsertIntContents(s[1..], x);
      forall j | 0 <= j < |rest| ensures s[0] <= rest[j] {
        assert rest[j] in multiset(rest);
        assert rest[j] == x || rest[j] in multiset(s[1..]);
      }
    }
  }

  lemma {:induction false} SortIntsSorts(s: seq<int>)
    ensures IsSorted(SortInts(s)) && multiset(SortInts(s)) == multiset(s) && |SortInts(s)| == |s|
    ensures forall i, j :: 0 <= i < j < |s| ==> SortInts(s)[i] <= SortInts(s)[j]
  {
    if s != [] {
      var n := |s| - 1;
      SortIntsSorts(s[..n]);
      InsertIntSorted(SortInts(s[..n]), s[n]);
      InsertIntContents(SortInts(s[..n]), s[n]);
      assert s == s[..n] + [s[n]];
    }
  }

  lemma {:induction false} ProductConcat(a: seq<int>, b: seq<int>)
    ensures Product(a + b) == Product(a) * Product(b)
  {
    if b == [] {
      assert a + b == a;
    } else {
      var n := |b| - 1;
      ProductConcat(a, b[..n]);
      assert (a + b)[..|a + b| - 1] == a + b[..n];
      assert Product(a) * (Product(b[..n]) * b[n]) == (Product(a) * Product(b[..n])) * b[n];
    }
  }

  lemma {:induction false} ProductInsert(s: seq<int>, x: int)
    ensures Product(InsertInt(s, x)) == x * Product(s)
  {
    hide Product;
    if s == [] {
      ProductOne(x);
      NoFactors();
    } else if x <= s[0] {
      ProductFirst(x, s);
    } else {
      ProductInsert(s[1..], x);
      ProductFirst(s[0], InsertInt(s[1..], x));
      ProductFirst(s[0], s[1..]);
      assert s == [s[0]] + s[1..];
      SwapFactors(s[0], x, Product(s[1..]));
    }
  }

  lemma NoFactors()
    ensures Product([]) == 1
  {
  }

  lemma ProductFirst(x: int, s: seq<int>)
    ensures Product([x] + s) == x * Product(s)
  {
    ProductConcat([x], s);
    ProductOne(x);
  }

  lemma SwapFactors(a: int, b: int, c: int)
    ensures a * (b * c) == b * (a * c)
  {
  }

  lemma ProductOne(x: int)
    ensures Product([x]) == x
  {
    assert [x][..0] == [];
  }

  lemma {:induction false} ProductSorted(s: seq<int>)
    ensures Product(SortInts(s)) == Product(s)
  {
    hide InsertInt;
    if s != [] {
      var n := |s| - 1;
      ProductSorted(s[..n]);
      ProductInsert(SortInts(s[..n]), s[n]);
      assert SortInts(s) == InsertInt(SortInts(s[..n]), s[n]);
      assert Product(s) == Product(s[..n]) * s[n];
    }
  }

  // ----- std::set<std::vector<int>>: no duplicates, in lexicographic order

  predicate LexLess(a: seq<int>, b: seq<int>) {
    b != [] && (a == [] || a[0] < b[0] || (a[0] == b[0] && LexLess(a[1..], b[1..])))
  }

  lemma {:induction false} LexTrans(a: seq<int>, b: seq<int>, c: seq<int>)
    requires LexLess(a, b) && LexLess(b, c)
    ensures LexLess(a, c)
  {
    if a != [] && a[0] == b[0] == c[0] { LexTrans(a[1..], b[1..], c[1..]); }
  }

  lemma {:induction false} LexTotal(a: seq<int>, b: seq<int>)
    ensures LexLess(a, b) || LexLess(b, a) || a == b
    ensures !(LexLess(a, b) && LexLess(b, a)) && !LexLess(a, a)
    decreases |a|, |b|
  {
    if a != [] {
      LexTotal(a[1..], a[1..]);
      if b != [] {
        LexTotal(a[1..], b[1..]);
        assert a == [a[0]] + a[1..] && b == [b[0]] + b[1..];
      }
    }
  }

  /** The first difference is at `k`, where `a` has the smaller number or ends. */
  predicate LessAt(a: seq<int>, b: seq<int>, k: int) {
    0 <= k <= |a| && k < |b| && a[..k] == b[..k] && (k == |a| || a[k] < b[k])
  }

  ghost predicate Precedes(a: seq<int>, b: seq<int>) {
    exists k :: LessAt(a, b, k)
  }

  lemma LessAtRest(a: seq<int>, b: seq<int>, k: nat)
    requires a != [] && b != [] && a[0] == b[0]
    ensures LessAt(a, b, k + 1) <==> LessAt(a[1..], b[1..], k)
  {
    if LessAt(a, b, k + 1) { assert a[1..][..k] == a[..k + 1][1..] && b[1..][..k] == b[..k + 1][1..]; }
    if LessAt(a[1..], b[1..], k) { assert a[..k + 1] == [a[0]] + a[1..][..k] && b[..k + 1] == [b[0]] + b[1..][..k]; }
  }

  lemma SameFirst(a: seq<int>, b: seq<int>, k: int)
    requires LessAt(a, b, k) && k >= 1
    ensures a[0] == b[0]
  {
    assert a[..k][0] == b[..k][0];
  }

  /** The order is that of the first difference. */
  lemma {:induction false} LexLessIff(a: seq<int>, b: seq<int>)
    ensures LexLess(a, b) <==> Precedes(a, b)
    decreases |a|
  {
    if k :| LessAt(a, b, k) {
      if k >= 1 {
        SameFirst(a, b, k);
        LessAtRest(a, b, k - 1);
        LexLessIff(a[1..], b[1..]);
      }
    }
    if LexLess(a, b) {
      if a == [] || a[0] < b[0] {
        assert LessAt(a, b, 0);
      } else {
        LexLessIff(a[1..], b[1..]);
        var k :| LessAt(a[1..], b[1..], k);
        LessAtRest(a, b, k);
      }
    }
  }

  /** A case: the first number decides, and then the next. */
  lemma OrderOfLists()
    ensures LexLess([2, 44], [3, 1]) && !LexLess([3, 1], [2, 44])
    ensures LexLess([2, 44], [2, 45]) && !LexLess([2, 45], [2, 44]) && !LexLess([2, 44], [2, 44])
  {
    assert [2, 44][1..] == [44] && [2, 45][1..] == [45] && [44][1..] == [];
  }

  predicate Ascending(xs: seq<seq<int>>) {
    forall i, j :: 0 <= i < j < |xs| ==> LexLess(xs[i], xs[j])
  }

  /** set::insert */
  function SetInsert(xs: seq<seq<int>>, v: seq<int>): seq<seq<int>> {
    if xs == [] then [v]
    else if v == xs[0] then xs
    else if LexLess(v, xs[0]) then [v] + xs
    else [xs[0]] + SetInsert(xs[1..], v)
  }

  lemma {:induction false} SetInsertKeepsOrder(xs: seq<seq<int>>, v: seq<int>)
    requires Ascending(xs)
    ensures Ascending(SetInsert(xs, v))
    ensures forall x :: x in SetInsert(xs, v) <==> x == v || x in xs
  {
    if xs != [] {
      LexTotal(v, xs[0]);
      if LexLess(v, xs[0]) {
        forall j | 0 <= j < |xs| ensures LexLess(v, xs[j]) {
          if j > 0 { LexTrans(v, xs[0], xs[j]); }
        }
      } else if v != xs[0] {
        var rest := SetInsert(xs[1..], v);
        SetInsertKeepsOrder(xs[1..], v);
        assert xs == [xs[0]] + xs[1..];
        forall j | 0 <= j < |rest| ensures LexLess(xs[0], rest[j]) {
          assert rest[j] in rest;
          if rest[j] != v {
            var k :| 0 <= k < |xs[1..]| && xs[1..][k] == rest[j];
            assert rest[j] == xs[k + 1];
          }
        }
      }
    }
  }

  /** A set has one listing in order. */
  lemma {:induction false} AscendingUnique(xs: seq<seq<int>>, ys: seq<seq<int>>)
    requires Ascending(xs) && Ascending(ys) && forall x :: x in xs <==> x in ys
    ensures xs == ys
  {
    assert ys != [] ==> ys[0] in ys;
    if xs != [] {
      assert xs[0] in ys;
      LexTotal(xs[0], ys[0]);
      assert ys[0] in xs;
      forall x ensures x in xs[1..] <==> x in ys[1..] {
        InRest(xs, x);
        InRest(ys, x);
      }
      AscendingUnique(xs[1..], ys[1..]);
    }
  }

  lemma InRest(xs: seq<seq<int>>, x: seq<int>)
    requires Ascending(xs) && xs != []
    ensures x in xs[1..] <==> x in xs && x != xs[0]
  {
    LexTotal(xs[0], xs[0]);
    assert xs == [xs[0]] + xs[1..];
  }

  // ----- The search

  /**
   * `b` holds the products of `k` consecutive blocks of `p`, the first block in the last place. Every block but
   * the last leaves at least k + 1 elements behind: that is the bound the code puts on the first block.
   */
  ghost predicate IsGrouping(b: seq<int>, p: seq<int>, k: nat)
    decreases k
  {
    if k <= 1 then k == 1 && b == [Product(p)]
    else |b| == k && exists j :: GroupingFrom(b, p, k, j)
  }

  ghost predicate GroupingFrom(b: seq<int>, p: seq<int>, k: nat, j: int)
    decreases k, 0
  {
    k >= 2 && |b| == k && 1 <= j <= |p| - k - 1 && b[k - 1] == Product(p[..j]) && IsGrouping(b[..k - 1], p[j..], k - 1)
  }

  /** A sorted grouping, together with factors fixed further up. */
  ghost predicate Found(r: seq<int>, p: seq<int>, k: nat, fixed: seq<int>) {
    exists b :: IsGrouping(b, p, k) && r == SortInts(b + fixed)
  }

  /** The same, with the first block at most `n` long. */
  ghost predicate FoundUpTo(r: seq<int>, p: seq<int>, k: nat, fixed: seq<int>, n: int) {
    exists b, j :: j <= n && GroupingFrom(b, p, k, j) && r == SortInts(b + fixed)
  }

  lemma FoundNext(r: seq<int>, p: seq<int>, k: nat, fixed: seq<int>, n: nat)
    requires k >= 2 && 1 <= n <= |p| - k - 1
    ensures FoundUpTo(r, p, k, fixed, n)
       <==> FoundUpTo(r, p, k, fixed, n - 1) || Found(r, p[n..], k - 1, [Product(p[..n])] + fixed)
  {
    var x := Product(p[..n]);
    if FoundUpTo(r, p, k, fixed, n) && !FoundUpTo(r, p, k, fixed, n - 1) {
      var b, j :| j <= n && GroupingFrom(b, p, k, j) && r == SortInts(b + fixed);
      assert b + fixed == b[..k - 1] + ([x] + fixed);
      assert IsGrouping(b[..k - 1], p[n..], k - 1);
    }
    if Found(r, p[n..], k - 1, [x] + fixed) {
      var b :| IsGrouping(b, p[n..], k - 1) && r == SortInts(b + ([x] + fixed));
      GroupingLength(b, p[n..], k - 1);
      assert (b + [x])[..k - 1] == b && (b + [x]) + fixed == b + ([x] + fixed);
      assert GroupingFrom(b + [x], p, k, n);
    }
  }

  lemma GroupingLength(b: seq<int>, p: seq<int>, k: nat)
    requires IsGrouping(b, p, k)
    ensures |b| == k
  {
  }

  lemma FirstBlock(b: seq<int>, p: seq<int>, k: nat) returns (j: int)
    requires IsGrouping(b, p, k) && k >= 2
    ensures GroupingFrom(b, p, k, j)
  {
    j :| GroupingFrom(b, p, k, j);
  }

  lemma FoundAll(r: seq<int>, p: seq<int>, k: nat, fixed: seq<int>, n: int)
    requires k >= 2 && n >= |p| - k - 1
    ensures Found(r, p, k, fixed) <==> FoundUpTo(r, p, k, fixed, n)
  {
    if Found(r, p, k, fixed) {
      var b :| IsGrouping(b, p, k) && r == SortInts(b + fixed);
      var j := FirstBlock(b, p, k);
    }
    if FoundUpTo(r, p, k, fixed, n) {
      var b, j :| j <= n && GroupingFrom(b, p, k, j) && r == SortInts(b + fixed);
      assert IsGrouping(b, p, k);
    }
  }

  /** recursiveFunc: it overwrites the first `numFactors` entries of the array it shares with its callers. */
  method Search(currentFactors: array<int>, solutions: seq<seq<int>>, primeFactors: seq<int>, numFactors: nat)
    returns (result: seq<seq<int>>)
    requires 1 <= numFactors <= currentFactors.Length && Ascending(solutions)
    modifies currentFactors
    ensures Ascending(result)
    ensures currentFactors[numFactors..] == old(currentFactors[numFactors..])
    ensures forall r :: r in result <==>
      r in solutions || Found(r, primeFactors, numFactors, old(currentFactors[numFactors..]))
    decreases numFactors
  {
    ghost var fixed := currentFactors[numFactors..];
    if numFactors == 1 {
      currentFactors[0] := Product(primeFactors);
      var newFactors := SortInts(currentFactors[..]);
      result := SetInsert(solutions, newFactors);
      SetInsertKeepsOrder(solutions, newFactors);
      assert currentFactors[..] == [Product(primeFactors)] + fixed;
      assert IsGrouping([Product(primeFactors)], primeFactors, 1);
      return;
    }
    result := solutions;
    var maxFirstItems := |primeFactors| - numFactors - 1;
    var j := 1;
    while j <= maxFirstItems
      invariant 1 <= j && Ascending(result)
      invariant currentFactors[numFactors..] == fixed
      invariant forall r :: r in result <==> r in solutions || FoundUpTo(r, primeFactors, numFactors, fixed, j - 1)
      decreases maxFirstItems - j
    {
      currentFactors[numFactors - 1] := Product(primeFactors[..j]);
      assert currentFactors[numFactors - 1..] == [Product(primeFactors[..j])] + fixed;
      result := Search(currentFactors, result, primeFactors[j..], numFactors - 1);
      assert currentFactors[numFactors..] == currentFactors[numFactors - 1..][1..];
      forall r
        ensures FoundUpTo(r, primeFactors, numFactors, fixed, j)
          <==> (FoundUpTo(r, primeFactors, numFactors, fixed, j - 1)
                || Found(r, primeFactors[j..], numFactors - 1, [Product(primeFactors[..j])] + fixed))
      {
        FoundNext(r, primeFactors, numFactors, fixed, j);
      }
      j := j + 1;
    }
    forall r ensures Found(r, primeFactors, numFactors, fixed) <==>
      FoundUpTo(r, primeFactors, numFactors, fixed, j - 1) {
      FoundAll(r, primeFactors, numFactors, fixed, j - 1);
    }
  }

  /** getnFactors(): exactly the sorted groupings of the primes, each once, in lexicographic order. */
  method GetnFactors(primes: seq<int>, maxFactors: nat) returns (solutions: seq<seq<int>>)
    requires maxFactors >= 1
    ensures Ascending(solutions)
    ensures forall r :: r in solutions <==> Found(r, primes, maxFactors, [])
    // in figures: each list has maxFactors numbers, and at the first difference the smaller number comes first
    ensures forall i :: 0 <= i < |solutions| ==> |solutions[i]| == maxFactors
    ensures forall i, j :: 0 <= i < j < |solutions| ==> Precedes(solutions[i], solutions[j])
  {
    var currentFactors := new int[maxFactors](_ => 1);
    assert currentFactors[maxFactors..] == [];
    solutions := Search(currentFactors, [], primes, maxFactors);
    forall i | 0 <= i < |solutions| ensures |solutions[i]| == maxFactors {
      assert solutions[i] in solutions;
      FoundKeepsProduct(solutions[i], primes, maxFactors);
    }
    forall i, j | 0 <= i < j < |solutions| ensures Precedes(solutions[i], solutions[j]) {
      LexLessIff(solutions[i], solutions[j]);
    }
  }

  // ----- What the groupings are

  function Flatten(blocks: seq<seq<int>>): seq<int> {
    if blocks == [] then [] else blocks[0] + Flatten(blocks[1..])
  }

  /** The products of the blocks, the first block in the last place. */
  function BlockProducts(blocks: seq<seq<int>>): seq<int> {
    if blocks == [] then [] else BlockProducts(blocks[1..]) + [Product(blocks[0])]
  }

  lemma FlattenOne(blocks: seq<seq<int>>)
    requires |blocks| == 1
    ensures Flatten(blocks) == blocks[0]
  {
    assert blocks[1..] == [];
    assert blocks[0] + [] == blocks[0];
  }

  /** A split of `p` into consecutive blocks that are not empty. */
  predicate IsSplit(blocks: seq<seq<int>>, p: seq<int>) {
    Flatten(blocks) == p && forall i :: 0 <= i < |blocks| - 1 ==> |blocks[i]| >= 1
  }

  /**
   * The bound on the first block comes down to this: the last block has three elements at least, unless it is
   * the only one.
   */
  predicate LastBlockLong(blocks: seq<seq<int>>) {
    |blocks| >= 2 ==> |blocks[|blocks| - 1]| >= 3
  }

  lemma OneBlock(p: seq<int>)
    ensures IsSplit([p], p) && LastBlockLong([p]) && BlockProducts([p]) == [Product(p)]
  {
    FlattenOne([p]);
    assert [p][1..] == [] && BlockProducts([]) == [];
  }

  /** One more block in front. */
  lemma BlockInFront(block: seq<int>, rest: seq<seq<int>>, tail: seq<int>)
    requires block != [] && rest != [] && IsSplit(rest, tail) && LastBlockLong(rest) && |tail| >= |rest| + 2
    ensures IsSplit([block] + rest, block + tail) && LastBlockLong([block] + rest)
  {
    hide Flatten;
    InFront(block, rest);
    forall i | 0 <= i < |rest| ensures |([block] + rest)[i]| >= 1 {
      if i > 0 { assert ([block] + rest)[i] == rest[i - 1]; }
    }
    if |rest| == 1 { FlattenOne(rest); }
  }

  lemma InFront(block: seq<int>, rest: seq<seq<int>>)
    ensures Flatten([block] + rest) == block + Flatten(rest)
    ensures BlockProducts([block] + rest) == BlockProducts(rest) + [Product(block)]
  {
    assert ([block] + rest)[1..] == rest;
  }

  lemma {:induction false} GroupingHasSplit(b: seq<int>, p: seq<int>, k: nat) returns (blocks: seq<seq<int>>)
    requires IsGrouping(b, p, k)
    ensures |blocks| == k && IsSplit(blocks, p) && LastBlockLong(blocks) && b == BlockProducts(blocks)
    decreases k
  {
    hide Product, Flatten, BlockProducts, IsSplit, LastBlockLong;
    if k == 1 {
      blocks := [p];
      OneBlock(p);
    } else {
      var j := FirstBlock(b, p, k);
      var rest := GroupingHasSplit(b[..k - 1], p[j..], k - 1);
      blocks := [p[..j]] + rest;
      BlockInFront(p[..j], rest, p[j..]);
      InFront(p[..j], rest);
      assert p[..j] + p[j..] == p;
      assert b == b[..k - 1] + [b[k - 1]];
    }
  }

  /** Blocks of which the last is long hold two elements more than there are blocks. */
  lemma {:induction false} FlattenLong(blocks: seq<seq<int>>)
    requires blocks != [] && |blocks[|blocks| - 1]| >= 3 && forall i :: 0 <= i < |blocks| - 1 ==> |blocks[i]| >= 1
    ensures |Flatten(blocks)| >= |blocks| + 2
  {
    if |blocks| == 1 {
      assert blocks[1..] == [];
    } else {
      FlattenLong(blocks[1..]);
    }
  }

  lemma {:induction false} SplitIsGrouping(blocks: seq<seq<int>>, p: seq<int>)
    requires blocks != [] && IsSplit(blocks, p) && LastBlockLong(blocks)
    ensures IsGrouping(BlockProducts(blocks), p, |blocks|)
    decreases |blocks|
  {
    var k, rest := |blocks|, blocks[1..];
    var b := BlockProducts(blocks);
    if k == 1 {
      assert rest == [] && BlockProducts(rest) == [];
      FlattenOne(blocks);
      assert b == [Product(blocks[0])] && p == blocks[0];
    } else {
      var j := |blocks[0]|;
      assert p[..j] == blocks[0] && p[j..] == Flatten(rest);
      FlattenLong(rest);
      SplitIsGrouping(rest, p[j..]);
      GroupingLength(BlockProducts(rest), p[j..], k - 1);
      assert b[..k - 1] == BlockProducts(rest);
      assert GroupingFrom(b, p, k, j);
    }
  }

  /** The groupings found are exactly the sorted block products of the splits into `k` blocks with a long last block. */
  lemma FoundIffSplit(r: seq<int>, p: seq<int>, k: nat)
    requires k >= 1
    ensures Found(r, p, k, []) <==> exists blocks ::
      |blocks| == k && IsSplit(blocks, p) && LastBlockLong(blocks) && r == SortInts(BlockProducts(blocks))
  {
    if Found(r, p, k, []) {
      var b :| IsGrouping(b, p, k) && r == SortInts(b + []);
      assert b + [] == b;
      var blocks := GroupingHasSplit(b, p, k);
    }
    if blocks :| |blocks| == k && IsSplit(blocks, p) && LastBlockLong(blocks) && r == SortInts(BlockProducts(blocks)) {
      SplitIsGrouping(blocks, p);
      assert BlockProducts(blocks) + [] == BlockProducts(blocks);
    }
  }

  /** Each block takes its elements, and the last three. */
  lemma {:induction false} GroupingNeeds(b: seq<int>, p: seq<int>, k: nat)
    requires IsGrouping(b, p, k) && k >= 2
    ensures |p| >= k + 2
  {
    var j := FirstBlock(b, p, k);
  }

  lemma {:induction false} LongHasGrouping(p: seq<int>, k: nat) returns (b: seq<int>)
    requires k >= 1 && (k == 1 || |p| >= k + 2)
    ensures IsGrouping(b, p, k)
    decreases k
  {
    if k == 1 {
      b := [Product(p)];
    } else {
      var rest := LongHasGrouping(p[1..], k - 1);
      GroupingLength(rest, p[1..], k - 1);
      b := rest + [Product(p[..1])];
      assert b[..k - 1] == rest;
      assert GroupingFrom(b, p, k, 1);
    }
  }

  /** Something is found exactly when there is one block, or two elements more than blocks. */
  lemma FoundAnyIff(p: seq<int>, k: nat)
    requires k >= 1
    ensures (exists r :: Found(r, p, k, [])) <==> k == 1 || |p| >= k + 2
  {
    if r :| Found(r, p, k, []) {
      var b :| IsGrouping(b, p, k) && r == SortInts(b + []);
      if k >= 2 { GroupingNeeds(b, p, k); }
    }
    if k == 1 || |p| >= k + 2 {
      var b := LongHasGrouping(p, k);
      assert Found(SortInts(b + []), p, k, []);
    }
  }

  /** Splits are missed: 3·7·7 has splits into two blocks, and none is found. */
  lemma SplitMissed(r: seq<int>)
    ensures IsSplit([[3], [7, 7]], [3, 7, 7]) && IsSplit([[3, 7], [7]], [3, 7, 7])
    ensures !Found(r, [3, 7, 7], 2, [])
  {
    FlattenTwo([3], [7, 7]);
    FlattenTwo([3, 7], [7]);
    FoundAnyIff([3, 7, 7], 2);
  }

  lemma FlattenTwo(a: seq<int>, b: seq<int>)
    ensures Flatten([a, b]) == a + b
  {
    assert [a, b][1..] == [b];
    FlattenOne([b]);
  }

  lemma {:induction false} GroupingProduct(b: seq<int>, p: seq<int>, k: nat)
    requires IsGrouping(b, p, k)
    ensures |b| == k && Product(b) == Product(p)
    decreases k
  {
    if k == 1 {
      ProductOne(Product(p));
    } else {
      var j := FirstBlock(b, p, k);
      GroupingProduct(b[..k - 1], p[j..], k - 1);
      ProductConcat(p[..j], p[j..]);
      assert p[..j] + p[j..] == p;
    }
  }

  /** Every grouping has `k` factors, in order, whose product is that of the primes. */
  lemma FoundKeepsProduct(r: seq<int>, p: seq<int>, k: nat)
    requires Found(r, p, k, [])
    ensures |r| == k && IsSorted(r) && Product(r) == Product(p)
    ensures forall i, j :: 0 <= i < j < k ==> r[i] <= r[j]
  {
    var b :| IsGrouping(b, p, k) && r == SortInts(b + []);
    assert b + [] == b;
    GroupingProduct(b, p, k);
    ProductSorted(b);
    SortIntsSorts(b);
  }
}
