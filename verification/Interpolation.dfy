/** Lagrange interpolation at zero: recovering a shared constant from evaluations. */
module Interpolation {
  import opened Goldilocks
  import opened FieldTheory
  import opened Polynomials
  import opened Combinations
  import opened Ordered
  import opened Wrappers
  import opened Poly

  /** The product of points[j] - x for j below n, leaving out j == i. */
  function ProductExcept(points: seq<F>, i: nat, x: F, n: nat): F
    requires n <= |points|
  {
    if n == 0 then 1
    else if n - 1 == i then ProductExcept(points, i, x, n - 1)
    else Mul(ProductExcept(points, i, x, n - 1), Sub(points[n - 1], x))
  }

  function Weight(points: seq<F>, i: nat): F
    requires i < |points|
  {
    Mul(ProductExcept(points, i, 0, |points|), Inv(ProductExcept(points, i, points[i], |points|)))
  }

  // ---------- The basis polynomials ----------

  /** The same product as a polynomial in x. */
  function Numerator(points: seq<F>, i: nat, n: nat): (r: seq<F>)
    requires n <= |points|
    ensures |r| == if i < n then n else n + 1
  {
    if n == 0 then [1]
    else if n - 1 == i then Numerator(points, i, n - 1)
    else Product(Numerator(points, i, n - 1), [points[n - 1], MINUS_ONE])
  }

  lemma EvalLinear(w: F, x: F)
    ensures Eval([w, MINUS_ONE], x) == Sub(w, x)
  {
    hide Mul, Add, Sub;
    var f := [w, MINUS_ONE];
    assert f[1..] == [MINUS_ONE];
    EvalConstant(MINUS_ONE, x);
    SubIsAdd(w, x);
    MulComm(MINUS_ONE, x);
  }

  lemma {:induction false} EvalNumerator(points: seq<F>, i: nat, n: nat, x: F)
    requires n <= |points|
    ensures Eval(Numerator(points, i, n), x) == ProductExcept(points, i, x, n)
    decreases n
  {
    hide Mul, Sub, Eval, Product;
    if n == 0 {
      EvalConstant(1, x);
    } else {
      EvalNumerator(points, i, n - 1, x);
      if n - 1 != i {
        EvalProduct(Numerator(points, i, n - 1), [points[n - 1], MINUS_ONE], x);
        EvalLinear(points[n - 1], x);
      }
    }
  }

  lemma {:induction false} ProductVanishes(points: seq<F>, i: nat, k: nat, n: nat)
    requires k < n <= |points| && k != i
    ensures ProductExcept(points, i, points[k], n) == 0
    decreases n
  {
    hide Mul, Sub;
    var x := points[k];
    if n - 1 == i {
      ProductVanishes(points, i, k, n - 1);
    } else if n - 1 == k {
      AddCancel(x, x);
      MulUnit(ProductExcept(points, i, x, n - 1));
    } else {
      ProductVanishes(points, i, k, n - 1);
      MulUnit(Sub(points[n - 1], x));
    }
  }

  lemma {:induction false} ProductNotZero(points: seq<F>, i: nat, n: nat)
    requires i < |points| && n <= |points| && Distinct(points)
    ensures ProductExcept(points, i, points[i], n) != 0
    decreases n
  {
    hide Mul, Sub;
    if n > 0 {
      ProductNotZero(points, i, n - 1);
      if n - 1 != i {
        AddCancel(points[n - 1], points[i]);
        NonZeroProduct(ProductExcept(points, i, points[i], n - 1), Sub(points[n - 1], points[i]));
      }
    }
  }

  // ---------- The theorem ----------

  function EvalAll(f: seq<F>, points: seq<F>): (r: seq<F>)
    ensures |r| == |points|
  {
    seq(|points|, i requires 0 <= i < |points| => Eval(f, points[i]))
  }

  function Numerators(points: seq<F>): (r: seq<seq<F>>)
    ensures |r| == |points| && forall j :: 0 <= j < |r| ==> |r[j]| == |points|
  {
    seq(|points|, j requires 0 <= j < |points| => Numerator(points, j, |points|))
  }

  /** The values over the denominators. */
  function Shares(ys: seq<F>, points: seq<F>): (r: seq<F>)
    requires |ys| == |points|
    ensures |r| == |points|
  {
    seq(|points|, j requires 0 <= j < |points| =>
      Mul(ys[j], Inv(ProductExcept(points, j, points[j], |points|))))
  }

  function Interpolant(ys: seq<F>, points: seq<F>): (r: seq<F>)
    requires |ys| == |points|
    ensures |r| == |points|
  {
    seq(|points|, i requires 0 <= i < |points| =>
      Dot(Coefficients(Numerators(points), i), Shares(ys, points), |points|))
  }

  lemma EvalInterpolant(ys: seq<F>, points: seq<F>, x: F)
    requires |ys| == |points|
    ensures Eval(Interpolant(ys, points), x) == Dot(Values(Numerators(points), x), Shares(ys, points), |points|)
  {
    hide Eval, Dot, Mul, Shares, Numerator;
    EvalCombination(Interpolant(ys, points), Numerators(points), Shares(ys, points), |points|, x);
  }

  lemma ValuesAt(points: seq<F>, x: F)
    ensures forall j :: 0 <= j < |points| ==> Values(Numerators(points), x)[j] == ProductExcept(points, j, x, |points|)
  {
    hide Eval, ProductExcept, Numerator;
    forall j | 0 <= j < |points|
      ensures Values(Numerators(points), x)[j] == ProductExcept(points, j, x, |points|)
    {
      EvalNumerator(points, j, |points|, x);
    }
  }

  /** The interpolant takes any given values on the points. */
  lemma InterpolantAgrees(ys: seq<F>, points: seq<F>, k: nat)
    requires k < |points| == |ys| && Distinct(points)
    ensures Eval(Interpolant(ys, points), points[k]) == ys[k]
  {
    hide Eval, Dot, Mul, Inv, ProductExcept, Numerators, Interpolant;
    var m, x := |points|, points[k];
    EvalInterpolant(ys, points, x);
    ValuesAt(points, x);
    var values, shares := Values(Numerators(points), x), Shares(ys, points);
    forall j | 0 <= j < m && j != k
      ensures values[j] == 0
    {
      ProductVanishes(points, j, k, m);
    }
    DotSingle(values, shares, m, k);
    var y, bottom := ys[k], ProductExcept(points, k, x, m);
    ProductNotZero(points, k, m);
    InvCorrect(bottom);
    MulComm(y, Inv(bottom));
    MulAssoc(bottom, Inv(bottom), y);
    MulUnit(y);
  }

  lemma EvalAtZero(f: seq<F>)
    requires f != []
    ensures Eval(f, 0) == f[0]
  {
    hide Mul, Add;
    MulUnit(Eval(f[1..], 0));
    AddZero(f[0]);
  }

  function Weights(points: seq<F>): (r: seq<F>)
    ensures |r| == |points|
  {
    seq(|points|, i requires 0 <= i < |points| => Weight(points, i))
  }

  /** With as many distinct points as coefficients, the weighted values sum to the constant. */
  lemma LagrangeAtZero(f: seq<F>, points: seq<F>)
    requires 1 <= |f| <= |points| && Distinct(points)
    ensures Dot(EvalAll(f, points), Weights(points), |points|) == f[0]
  {
    hide Eval, Dot, Mul, Inv, ProductExcept, Numerators, Interpolant, Padded;
    var m, ys := |points|, EvalAll(f, points);
    var g := Interpolant(ys, points);
    var padded := Padded(f, m);
    forall k | 0 <= k < m
      ensures Eval(g, points[k]) == Eval(padded, points[k])
    {
      InterpolantAgrees(ys, points, k);
      EvalPadded(f, m, points[k]);
    }
    Unique(g, padded, points);
    EvalAtZero(g);
    EvalInterpolant(ys, points, 0);
    ValuesAt(points, 0);
    var values, shares := Values(Numerators(points), 0), Shares(ys, points);
    forall j | 0 <= j < m
      ensures Mul(values[j], shares[j]) == Mul(ys[j], Weights(points)[j])
    {
      var y, bottom := ys[j], Inv(ProductExcept(points, j, points[j], m));
      MulAssoc(values[j], y, bottom);
      MulComm(values[j], y);
      MulAssoc(y, values[j], bottom);
    }
    DotCongruent(values, ys, shares, Weights(points), m);
  }

  // ---------- The interpolator ----------

  datatype Interpolator = Interpolator(weights: Map<F>)

  method WeightOf(points: Map<F>, i: nat) returns (weight: F)
    requires Ascending(points.keys) && |points.keys| == |points.values| && i < |points.keys|
    ensures weight == Weight(points.values, i)
  {
    hide Mul, Sub;
    var top, bottom: F := 1, 1;
    for j := 0 to |points.keys|
      invariant top == ProductExcept(points.values, i, 0, j)
      invariant bottom == ProductExcept(points.values, i, points.values[i], j)
    {
      if points.keys[i] != points.keys[j] {
        SubZero(points.values[j]);
        top := Mul(top, points.values[j]);
        bottom := Mul(bottom, Sub(points.values[j], points.values[i]));
      }
    }
    var inverse := Invert(bottom);
    weight := Mul(top, inverse);
  }

  lemma SubZero(a: F)
    ensures Sub(a, 0) == a
  {}

  /** The weights of the points, under their keys. */
  ghost predicate Weighs(weights: Map<F>, points: seq<(int, F)>) {
    exists used: Map<F> :: MapOf(used, points) && weights == Map(used.keys, Weights(used.values))
  }

  /** The keys of the points in order, each with the weight of its first point among all of them. */
  method New(points: seq<(int, F)>) returns (r: Interpolator)
    ensures Weighs(r.weights, points)
  {
    hide Weight, MapOf;
    var used := FromIterDedup(points);
    assert Ascending(used.keys) && |used.keys| == |used.values| by { MapShape(used, points); }
    var weights := [];
    for i := 0 to |used.keys|
      invariant |weights| == i && forall k :: 0 <= k < i ==> weights[k] == Weight(used.values, k)
    {
      var weight := WeightOf(used, i);
      weights := weights + [weight];
    }
    assert weights == Weights(used.values);
    r := Interpolator(Map(used.keys, weights));
  }

  lemma MapShape<V>(m: Map<V>, items: seq<(int, V)>)
    requires MapOf(m, items)
    ensures Ascending(m.keys) && |m.keys| == |m.values|
  {}

  method Interpolate(interpolator: Interpolator, evals: Map<F>) returns (r: Option<F>)
    requires |interpolator.weights.keys| == |interpolator.weights.values| && |evals.keys| == |evals.values|
    ensures r.None? <==> evals.keys != interpolator.weights.keys
    ensures r.Some? ==> r.value == Dot(evals.values, interpolator.weights.values, |evals.values|)
  {
    hide Dot;
    if evals.keys != interpolator.weights.keys {
      return None;
    }
    var v := MsmNaive(evals.values, interpolator.weights.values);
    r := Some(v);
  }

  // ---------- Recovery from lists of points and of shares ----------

  ghost predicate SameIndices<V(!new), W(!new)>(a: seq<(int, V)>, b: seq<(int, W)>) {
    forall k :: FirstValue(a, k).Some? <==> FirstValue(b, k).Some?
  }

  /** Different indices stand for different points. */
  ghost predicate DistinctPoints(points: seq<(int, F)>) {
    forall k, l :: k != l && FirstValue(points, k).Some? && FirstValue(points, l).Some? ==>
                     FirstValue(points, k) != FirstValue(points, l)
  }

  ghost predicate Evaluations(f: seq<F>, points: seq<(int, F)>, shares: seq<(int, F)>) {
    forall k :: FirstValue(points, k).Some? && FirstValue(shares, k).Some? ==>
                  FirstValue(shares, k).value == Eval(f, FirstValue(points, k).value)
  }

  function Indices<V>(items: seq<(int, V)>): set<int> {
    set i | 0 <= i < |items| :: items[i].0
  }

  lemma {:induction false} IndexHasValue<V>(items: seq<(int, V)>, k: int)
    ensures k in Indices(items) <==> FirstValue(items, k).Some?
  {
    if items != [] {
      IndexHasValue(items[1..], k);
      if k in Indices(items[1..]) {
        var i :| 0 <= i < |items[1..]| && items[1..][i].0 == k;
        assert items[i + 1].0 == k;
      }
      if k in Indices(items) && items[0].0 != k {
        var i :| 0 <= i < |items| && items[i].0 == k;
        assert items[1..][i - 1].0 == k;
      }
    }
  }

  lemma {:induction false} AscendingCount(keys: seq<int>)
    requires Ascending(keys)
    ensures |set k | k in keys| == |keys|
  {
    if keys != [] {
      var front, last := keys[..|keys| - 1], keys[|keys| - 1];
      AscendingCount(front);
      assert keys == front + [last];
      assert (set k | k in keys) == (set k | k in front) + {last};
      assert last !in front;
    }
  }

  lemma IndexCount(m: Map<F>, items: seq<(int, F)>)
    requires MapOf(m, items)
    ensures |Indices(items)| == |m.keys|
  {
    hide FirstValue;
    AscendingCount(m.keys);
    forall k
      ensures k in Indices(items) <==> k in m.keys
    {
      IndexHasValue(items, k);
    }
    assert Indices(items) == set k | k in m.keys;
  }

  lemma MapsAgree(a: Map<F>, b: Map<F>, points: seq<(int, F)>, shares: seq<(int, F)>)
    requires MapOf(a, points) && MapOf(b, shares)
    ensures a.keys == b.keys <==> SameIndices(points, shares)
  {
    hide FirstValue;
    forall k
      ensures k in a.keys <==> FirstValue(points, k).Some?
      ensures k in b.keys <==> FirstValue(shares, k).Some?
    {
    }
    if SameIndices(points, shares) {
      AscendingUnique(a.keys, b.keys);
    }
  }

  lemma MappedPoints(m: Map<F>, points: seq<(int, F)>)
    requires MapOf(m, points) && DistinctPoints(points)
    ensures Distinct(m.values)
  {}

  lemma MappedShares(f: seq<F>, a: Map<F>, b: Map<F>, points: seq<(int, F)>, shares: seq<(int, F)>)
    requires MapOf(a, points) && MapOf(b, shares) && a.keys == b.keys && Evaluations(f, points, shares)
    ensures b.values == EvalAll(f, a.values)
  {}

  /** The constant comes back from any listing of at least as many shares as coefficients. */
  method RecoverConstant(points: seq<(int, F)>, shares: seq<(int, F)>, ghost f: seq<F>) returns (r: Option<F>)
    ensures r.None? <==> !SameIndices(points, shares)
    ensures r.Some? && f != [] && |f| <= |Indices(points)| && DistinctPoints(points) && Evaluations(f, points, shares)
            ==> r.value == f[0]
  {
    hide Dot, FirstValue, Weight, Eval;
    var interpolator := New(points);
    ghost var used: Map<F> :| MapOf(used, points) && interpolator.weights == Map(used.keys, Weights(used.values));
    var evals := FromIterDedup(shares);
    r := Interpolate(interpolator, evals);
    MapsAgree(used, evals, points, shares);
    if r.Some? && f != [] && |f| <= |Indices(points)| && DistinctPoints(points) && Evaluations(f, points, shares) {
      IndexCount(used, points);
      MappedPoints(used, points);
      MappedShares(f, used, evals, points, shares);
      LagrangeAtZero(f, used.values);
    }
  }
}
