/** Polynomials as vectors of coefficients, equal up to high zeros. */
module Poly {
  import opened Goldilocks
  import opened FieldTheory
  import opened Polynomials
  import opened Combinations
  import opened Wrappers

  const U32_MAX := 0xFFFF_FFFF

  function Min(a: nat, b: nat): nat { if a < b then a else b }

  function Max(a: nat, b: nat): nat { if a < b then b else a }

  // ---------- Coefficients, with zeros beyond the end ----------

  function At(f: seq<F>, i: nat): F { if i < |f| then f[i] else 0 }

  function Padded(f: seq<F>, n: nat): (r: seq<F>)
    requires |f| <= n
    ensures |r| == n && forall i :: 0 <= i < n ==> r[i] == At(f, i)
  {
    f + seq(n - |f|, _ => 0)
  }

  lemma EvalPadded(f: seq<F>, n: nat, x: F)
    requires |f| <= n
    ensures Eval(Padded(f, n), x) == Eval(f, x)
  {
    hide Eval;
    EvalPad(f, seq(n - |f|, _ => 0), x);
  }

  ghost predicate SameFunction(f: seq<F>, g: seq<F>) {
    forall x: F :: Eval(f, x) == Eval(g, x)
  }

  ghost predicate SameCoefficients(f: seq<F>, g: seq<F>) {
    forall i :: 0 <= i < Max(|f|, |g|) ==> At(f, i) == At(g, i)
  }

  /** Below P coefficients, equal up to high zeros is the same as equal as functions. */
  lemma SameMeaning(f: seq<F>, g: seq<F>)
    requires |f| <= P && |g| <= P
    ensures SameCoefficients(f, g) <==> SameFunction(f, g)
  {
    hide Eval;
    var n := Max(|f|, |g|);
    forall x: F
      ensures Eval(Padded(f, n), x) == Eval(f, x) && Eval(Padded(g, n), x) == Eval(g, x)
    {
      EvalPadded(f, n, x);
      EvalPadded(g, n, x);
    }
    if SameCoefficients(f, g) {
      assert Padded(f, n) == Padded(g, n);
    }
    if SameFunction(f, g) {
      var points := seq(n, i requires 0 <= i < n => i as F);
      Unique(Padded(f, n), Padded(g, n), points);
      forall i | 0 <= i < n
        ensures At(f, i) == At(g, i)
      {
        assert Padded(f, n)[i] == Padded(g, n)[i];
      }
    }
  }

  /** Adding c times one polynomial to another, coefficient by coefficient. */
  lemma EvalMerged(r: seq<F>, f: seq<F>, g: seq<F>, c: F, x: F)
    requires |r| == Max(|f|, |g|)
    requires forall i :: 0 <= i < |r| ==> r[i] == Add(At(f, i), Mul(c, At(g, i)))
    ensures Eval(r, x) == Add(Eval(f, x), Mul(c, Eval(g, x)))
  {
    hide Eval, Add, Mul;
    EvalPadded(f, |r|, x);
    EvalPadded(g, |r|, x);
    SumScaled(r, Padded(f, |r|), Padded(g, |r|), c, x);
  }

  lemma SubIsAdd(a: F, b: F)
    ensures Sub(a, b) == Add(a, Mul(MINUS_ONE, b))
  {}

  lemma {:induction false} EvalAppend(f: seq<F>, c: F, x: F)
    ensures Eval(f + [c], x) == Add(Eval(f, x), Mul(c, Pow(x, |f|)))
  {
    hide Mul, Add;
    if f == [] {
      assert ([] + [c])[1..] == [] && ([] + [c])[0] == c;
      MulUnit(x);
      MulUnit(c);
      AddZero(c);
    } else {
      assert (f + [c])[1..] == f[1..] + [c];
      EvalAppend(f[1..], c, x);
      var a, p := Eval(f[1..], x), Pow(x, |f| - 1);
      MulAdd(x, a, Mul(c, p));
      MulAssoc(x, c, p); MulComm(x, c); MulAssoc(c, x, p);
      AddAssoc(f[0], Mul(x, a), Mul(c, Mul(x, p)));
    }
  }

  lemma {:induction false} DotPowers(f: seq<F>, weights: seq<F>, n: nat, x: F)
    requires n <= |f| && n <= |weights| && forall i :: 0 <= i < n ==> weights[i] == Pow(x, i)
    ensures Dot(f, weights, n) == Eval(f[..n], x)
    decreases n
  {
    hide Mul, Add, Eval, Pow;
    if n == 0 {
      EvalZero(f[..0], x);
    } else {
      DotPowers(f, weights, n - 1, x);
      EvalAppend(f[..n - 1], f[n - 1], x);
      assert f[..n - 1] + [f[n - 1]] == f[..n];
    }
  }

  // ---------- Multi-scalar multiplication ----------

  method MsmNaive(points: seq<F>, scalars: seq<F>) returns (r: F)
    ensures r == Dot(points, scalars, Min(|points|, |scalars|))
  {
    hide Mul, Add;
    r := 0;
    for i := 0 to Min(|points|, |scalars|)
      invariant r == Dot(points, scalars, i)
    {
      r := Add(r, Mul(points[i], scalars[i]));
    }
  }

  /** f += g on coefficient vectors of different lengths, with g scaled. */
  method AddScaled(f: seq<F>, g: seq<F>, c: F) returns (r: seq<F>)
    ensures |r| == Max(|f|, |g|)
    ensures forall x: F :: Eval(r, x) == Add(Eval(f, x), Mul(c, Eval(g, x)))
  {
    hide Eval, Add, Mul;
    r := f + seq(Max(|f|, |g|) - |f|, _ => 0);
    for i := 0 to |g|
      invariant |r| == Max(|f|, |g|)
      invariant forall k :: 0 <= k < i ==> r[k] == Add(At(f, k), Mul(c, At(g, k)))
      invariant forall k :: i <= k < |r| ==> r[k] == At(f, k)
    {
      MulComm(c, g[i]);
      r := r[i := Add(r[i], Mul(g[i], c))];
    }
    MulUnit(c);
    forall k | |g| <= k < |r|
      ensures r[k] == Add(At(f, k), Mul(c, At(g, k)))
    {
      AddZero(r[k]);
    }
    forall x: F
      ensures Eval(r, x) == Add(Eval(f, x), Mul(c, Eval(g, x)))
    {
      EvalMerged(r, f, g, c, x);
    }
  }

  function LongestTo(polys: seq<seq<F>>, n: nat): (r: nat)
    requires n <= |polys|
    ensures forall j :: 0 <= j < n ==> |polys[j]| <= r
    ensures n > 0 ==> exists j :: 0 <= j < n && r == |polys[j]|
  {
    if n == 0 then 0 else Max(LongestTo(polys, n - 1), |polys[n - 1]|)
  }

  function PaddedAll(polys: seq<seq<F>>, cols: nat, rows: nat): seq<seq<F>>
    requires cols <= |polys| && forall j :: 0 <= j < cols ==> |polys[j]| <= rows
  {
    seq(cols, j requires 0 <= j < cols => Padded(polys[j], rows))
  }

  /** `msm` on polynomials: none where the source panics. */
  method PolyMsm(polys: seq<seq<F>>, scalars: seq<F>) returns (r: Option<seq<F>>)
    requires forall j :: 0 <= j < |polys| ==> polys[j] != []
    ensures r.None? <==> |polys| >= 2 && scalars == []
    ensures r.Some? ==> r.value != []
    ensures r.Some? ==>
              forall x: F :: Eval(r.value, x) == Dot(Values(polys, x), scalars, Min(|polys|, |scalars|))
  {
    hide Eval, Add, Mul;
    if |polys| < 2 {
      var out := PolyMsmNaive(polys, scalars);
      return Some(out);
    }
    var cols := Min(|polys|, |scalars|);
    if cols == 0 {
      return None;
    }
    var rows := LongestTo(polys, cols);
    var coeffs := MsmRows(polys, scalars, cols, rows);
    ghost var padded := PaddedAll(polys, cols, rows);
    forall x: F
      ensures Eval(coeffs, x) == Dot(Values(polys, x), scalars, cols)
    {
      assert Combines(coeffs, padded, scalars[..cols], cols);
      EvalCombination(coeffs, padded, scalars[..cols], cols, x);
      ValuesPadded(polys, cols, rows, x);
      DotCongruent(Values(padded, x), Values(polys, x), scalars[..cols], scalars, cols);
    }
    r := Some(coeffs);
  }

  method MsmRows(polys: seq<seq<F>>, scalars: seq<F>, cols: nat, rows: nat) returns (coeffs: seq<F>)
    requires cols <= |polys| && cols <= |scalars| && forall j :: 0 <= j < cols ==> |polys[j]| <= rows
    ensures |coeffs| == rows && Combines(coeffs, PaddedAll(polys, cols, rows), scalars[..cols], cols)
  {
    hide Dot;
    ghost var padded := PaddedAll(polys, cols, rows);
    coeffs := [];
    for i := 0 to rows
      invariant |coeffs| == i
      invariant forall k :: 0 <= k < i ==> coeffs[k] == Dot(Coefficients(padded, k), scalars[..cols], cols)
    {
      var row := [];
      for j := 0 to cols
        invariant |row| == j && forall l :: 0 <= l < j ==> row[l] == padded[l][i]
      {
        row := row + [At(polys[j], i)];
      }
      assert row == Coefficients(padded, i);
      var c := MsmNaive(row, scalars[..cols]);
      coeffs := coeffs + [c];
    }
  }

  lemma ValuesPadded(polys: seq<seq<F>>, cols: nat, rows: nat, x: F)
    requires cols <= |polys| && forall j :: 0 <= j < cols ==> |polys[j]| <= rows
    ensures forall j :: 0 <= j < cols ==> Values(PaddedAll(polys, cols, rows), x)[j] == Values(polys, x)[j]
  {
    hide Eval, Padded;
    forall j | 0 <= j < cols
      ensures Values(PaddedAll(polys, cols, rows), x)[j] == Values(polys, x)[j]
    {
      EvalPadded(polys[j], rows, x);
    }
  }

  lemma {:induction false} DotCongruent(a: seq<F>, b: seq<F>, y: seq<F>, z: seq<F>, n: nat)
    requires n <= |a| && n <= |b| && n <= |y| && n <= |z|
    requires forall j :: 0 <= j < n ==> Mul(a[j], y[j]) == Mul(b[j], z[j])
    ensures Dot(a, y, n) == Dot(b, z, n)
    decreases n
  {
    hide Mul, Add;
    if n > 0 { DotCongruent(a, b, y, z, n - 1); }
  }

  method PolyMsmNaive(polys: seq<seq<F>>, scalars: seq<F>) returns (out: seq<F>)
    ensures out != []
    ensures forall x: F :: Eval(out, x) == Dot(Values(polys, x), scalars, Min(|polys|, |scalars|))
  {
    hide Eval, Add, Mul;
    out := [0];
    forall x: F
      ensures Eval(out, x) == 0
    {
      EvalZero(out, x);
    }
    for i := 0 to Min(|polys|, |scalars|)
      invariant out != []
      invariant forall x: F :: Eval(out, x) == Dot(Values(polys, x), scalars, i)
    {
      ghost var before := out;
      out := AddScaled(out, polys[i], scalars[i]);
      forall x: F
        ensures Eval(out, x) == Dot(Values(polys, x), scalars, i + 1)
      {
        MulComm(scalars[i], Eval(polys[i], x));
        DotNext(Values(polys, x), scalars, i);
      }
    }
  }

  // ---------- The polynomial object ----------

  class Polynomial {
    var coeffs: seq<F>

    ghost predicate Valid() reads this { 1 <= |coeffs| <= U32_MAX }

    constructor (c: seq<F>)
      requires 1 <= |c| <= U32_MAX
      ensures Valid() && coeffs == c
    {
      coeffs := c;
    }

    /** Horner's rule. */
    method EvalAt(r: F) returns (acc: F)
      requires Valid()
      ensures acc == Eval(coeffs, r)
    {
      hide Mul, Add;
      var i := |coeffs| - 1;
      acc := coeffs[i];
      MulUnit(r);
      AddZero(acc);
      assert coeffs[i..][1..] == [];
      while i > 0
        invariant 0 <= i < |coeffs| && acc == Eval(coeffs[i..], r)
      {
        i := i - 1;
        assert coeffs[i..][1..] == coeffs[i + 1..];
        MulComm(acc, r);
        AddComm(Mul(acc, r), coeffs[i]);
        acc := Add(Mul(acc, r), coeffs[i]);
      }
      assert coeffs[0..] == coeffs;
    }

    /** Evaluation through the powers of r. */
    method EvalMsm(r: F) returns (v: F)
      requires Valid()
      ensures v == Eval(coeffs, r)
    {
      hide Mul, Add, Eval, Pow;
      PowOnce(r);
      var weights, acc := [1], 1;
      for i := 1 to |coeffs|
        invariant |weights| == i && acc == Pow(r, i - 1)
        invariant forall k :: 0 <= k < i ==> weights[k] == Pow(r, k)
      {
        PowNext(r, i - 1);
        acc := Mul(acc, r);
        weights := weights + [acc];
      }
      v := MsmNaive(coeffs, weights);
      DotPowers(coeffs, weights, |coeffs|, r);
      assert coeffs[..|coeffs|] == coeffs;
    }

    /** Equality, up to zeros at the high end. */
    method Equals(other: Polynomial) returns (same: bool)
      requires Valid() && other.Valid()
      ensures same <==> SameFunction(coeffs, other.coeffs)
    {
      hide SameFunction;
      SameMeaning(coeffs, other.coeffs);
      same := true;
      for i := 0 to Max(|coeffs|, |other.coeffs|)
        invariant same <==> forall k :: 0 <= k < i ==> At(coeffs, k) == At(other.coeffs, k)
      {
        same := same && At(coeffs, i) == At(other.coeffs, i);
      }
    }

    /** The coefficients become f of both, with zeros beyond either end, up to the end of rhs. */
    method MergeWith(rhs: Polynomial, f: (F, F) -> F)
      requires Valid() && rhs.Valid() && rhs != this
      modifies this
      ensures Valid() && |coeffs| == Max(|old(coeffs)|, |rhs.coeffs|)
      ensures forall k :: 0 <= k < |coeffs| ==>
                            coeffs[k] ==
                              if k < |rhs.coeffs| then f(At(old(coeffs), k), rhs.coeffs[k]) else old(coeffs)[k]
    {
      var before := coeffs;
      coeffs := coeffs + seq(Max(|coeffs|, |rhs.coeffs|) - |coeffs|, _ => 0);
      for i := 0 to |rhs.coeffs|
        invariant |coeffs| == Max(|before|, |rhs.coeffs|)
        invariant forall k :: 0 <= k < i ==> coeffs[k] == f(At(before, k), rhs.coeffs[k])
        invariant forall k :: i <= k < |coeffs| ==> coeffs[k] == At(before, k)
      {
        coeffs := coeffs[i := f(coeffs[i], rhs.coeffs[i])];
      }
    }

    method AddAssign(rhs: Polynomial)
      requires Valid() && rhs.Valid() && rhs != this
      modifies this
      ensures Valid()
      ensures forall x: F :: Eval(coeffs, x) == Add(Eval(old(coeffs), x), Eval(rhs.coeffs, x))
    {
      hide Eval, Add, Mul;
      ghost var before := coeffs;
      MergeWith(rhs, Add);
      forall x: F
        ensures Eval(coeffs, x) == Add(Eval(before, x), Eval(rhs.coeffs, x))
      {
        forall k | 0 <= k < |coeffs|
          ensures coeffs[k] == Add(At(before, k), Mul(1, At(rhs.coeffs, k)))
        {
          MulUnit(At(rhs.coeffs, k));
          AddZero(At(before, k));
        }
        EvalMerged(coeffs, before, rhs.coeffs, 1, x);
        MulUnit(Eval(rhs.coeffs, x));
      }
    }

    method SubAssign(rhs: Polynomial)
      requires Valid() && rhs.Valid() && rhs != this
      modifies this
      ensures Valid()
      ensures forall x: F :: Eval(coeffs, x) == Sub(Eval(old(coeffs), x), Eval(rhs.coeffs, x))
    {
      hide Eval, Add, Mul, Sub;
      ghost var before := coeffs;
      MergeWith(rhs, Sub);
      forall x: F
        ensures Eval(coeffs, x) == Sub(Eval(before, x), Eval(rhs.coeffs, x))
      {
        forall k | 0 <= k < |coeffs|
          ensures coeffs[k] == Add(At(before, k), Mul(MINUS_ONE, At(rhs.coeffs, k)))
        {
          SubIsAdd(At(before, k), At(rhs.coeffs, k));
          MulUnit(MINUS_ONE);
          AddZero(At(before, k));
        }
        EvalMerged(coeffs, before, rhs.coeffs, MINUS_ONE, x);
        SubIsAdd(Eval(before, x), Eval(rhs.coeffs, x));
      }
    }

    /** The degree, not counting high zeros. */
    method DegreeExact() returns (degree: nat)
      requires Valid()
      ensures IsDegree(degree, coeffs)
    {
      var zeros := 0;
      while zeros < |coeffs| && coeffs[|coeffs| - 1 - zeros] == 0
        invariant zeros <= |coeffs| && forall k :: |coeffs| - zeros <= k < |coeffs| ==> coeffs[k] == 0
      {
        zeros := zeros + 1;
      }
      degree := if |coeffs| - 1 < zeros then 0 else |coeffs| - 1 - zeros;
    }
  }

  ghost predicate IsDegree(d: nat, f: seq<F>) {
    (forall i :: d < i < |f| ==> f[i] == 0) && (d > 0 ==> At(f, d) != 0)
  }

  /** The exact degree depends only on the function, and a function has only one. */
  lemma DegreeOfFunction(f: seq<F>, g: seq<F>, d: nat, e: nat)
    requires |f| <= U32_MAX && |g| <= U32_MAX && SameFunction(f, g) && IsDegree(d, f) && IsDegree(e, g)
    ensures d == e
  {
    hide SameFunction;
    SameMeaning(f, g);
    assert At(f, d) == At(g, d) && At(f, e) == At(g, e);
  }
}
