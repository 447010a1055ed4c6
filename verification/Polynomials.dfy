/** Polynomials over the field, as sequences of coefficients from the constant term up. */
module Polynomials {
  import opened Goldilocks
  import opened FieldTheory

  function Eval(f: seq<F>, x: F): F {
    if f == [] then 0 else Add(f[0], Mul(x, Eval(f[1..], x)))
  }

  ghost predicate IsZero(f: seq<F>) {
    forall i :: 0 <= i < |f| ==> f[i] == 0
  }

  ghost predicate Distinct(s: seq<F>) {
    forall i, j :: 0 <= i < j < |s| ==> s[i] != s[j]
  }

  lemma {:induction false} EvalZero(f: seq<F>, x: F)
    requires IsZero(f)
    ensures Eval(f, x) == 0
  {
    hide Mul;
    if f != [] {
      EvalZero(f[1..], x);
      MulUnit(x);
    }
  }

  lemma EvalConstant(c: F, x: F)
    ensures Eval([c], x) == c
  {
    hide Mul, Add;
    assert [c][1..] == [];
    MulUnit(x);
    AddZero(c);
  }

  lemma {:induction false} EvalPad(f: seq<F>, z: seq<F>, x: F)
    requires IsZero(z)
    ensures Eval(f + z, x) == Eval(f, x)
  {
    hide Mul, Add;
    if f == [] {
      assert f + z == z;
      EvalZero(z, x);
    } else {
      assert (f + z)[1..] == f[1..] + z;
      EvalPad(f[1..], z, x);
    }
  }

  // ---------- Even and odd positions ----------

  function Evens<T>(s: seq<T>): (r: seq<T>)
    ensures |r| == (|s| + 1) / 2
    ensures forall i :: 0 <= i < |r| ==> r[i] == s[2 * i]
  {
    if s == [] then [] else [s[0]] + Odds(s[1..])
  }

  function Odds<T>(s: seq<T>): (r: seq<T>)
    ensures |r| == |s| / 2
    ensures forall i :: 0 <= i < |r| ==> r[i] == s[2 * i + 1]
  {
    if s == [] then [] else Evens(s[1..])
  }

  function Interleave<T>(a: seq<T>, b: seq<T>): (r: seq<T>)
    requires |a| == |b|
    ensures |r| == |a| + |b|
  {
    if a == [] then [] else [a[0], b[0]] + Interleave(a[1..], b[1..])
  }

  lemma {:induction false} InterleaveSplits<T>(a: seq<T>, b: seq<T>)
    requires |a| == |b|
    ensures Evens(Interleave(a, b)) == a && Odds(Interleave(a, b)) == b
  {
    if a != [] {
      InterleaveSplits(a[1..], b[1..]);
      var r := Interleave(a, b);
      assert r[1..] == [b[0]] + Interleave(a[1..], b[1..]);
      assert r[1..][1..] == Interleave(a[1..], b[1..]);
    }
  }

  /** f(x) = f_even(x^2) + x f_odd(x^2) */
  lemma {:induction false} EvalSplit(f: seq<F>, x: F)
    ensures Eval(f, x) == Add(Eval(Evens(f), Mul(x, x)), Mul(x, Eval(Odds(f), Mul(x, x))))
  {
    hide Mul, Add;
    var y := Mul(x, x);
    if f == [] {
      MulUnit(x);
      AddZero(0);
    } else {
      var g := f[1..];
      EvalSplit(g, x);
      var e, o := Eval(Evens(g), y), Eval(Odds(g), y);
      assert Evens(f)[1..] == Odds(g);
      MulAdd(x, e, Mul(x, o));
      MulAssoc(x, x, o);
      AddComm(Mul(x, e), Mul(y, o));
      AddAssoc(f[0], Mul(y, o), Mul(x, e));
    }
  }

  lemma AddZero(a: F)
    ensures Add(a, 0) == Add(0, a) == a
  {}

  // ---------- Division by a linear factor; uniqueness ----------

  /** The quotient of f - f(r) by X - r. */
  function Quotient(f: seq<F>, r: F): seq<F> {
    if |f| <= 1 then [] else [Eval(f[1..], r)] + Quotient(f[1..], r)
  }

  lemma {:induction false} QuotientLength(f: seq<F>, r: F)
    ensures |Quotient(f, r)| == if f == [] then 0 else |f| - 1
  {
    if |f| > 1 { QuotientLength(f[1..], r); }
  }

  /** x a - r b = x (a - b) + (x - r) b */
  lemma CrossDifference(x: F, r: F, a: F, b: F)
    ensures Sub(Mul(x, a), Mul(r, b)) == Add(Mul(x, Sub(a, b)), Mul(Sub(x, r), b))
  {
    hide Mul;
    MulSub(x, a, b);
    MulSub(b, x, r);
  }

  lemma SubAdd(c: F, a: F, b: F)
    ensures Sub(Add(c, a), Add(c, b)) == Sub(a, b)
  {}

  /** f(x) - f(r) = (x - r) q(x) */
  lemma {:induction false} FactorTheorem(f: seq<F>, r: F, x: F)
    ensures Sub(Eval(f, x), Eval(f, r)) == Mul(Sub(x, r), Eval(Quotient(f, r), x))
  {
    hide Mul, Add, Sub;
    if f == [] {
      MulUnit(Sub(x, r));
      AddCancel(Eval(f, x), Eval(f, r));
    } else {
      var g := f[1..];
      var a, b, d := Eval(g, x), Eval(g, r), Sub(x, r);
      SubAdd(f[0], Mul(x, a), Mul(r, b));
      CrossDifference(x, r, a, b);
      if |f| == 1 {
        AddCancel(0, 0);
        MulUnit(x); MulUnit(r); MulUnit(d);
        AddZero(0);
      } else {
        FactorTheorem(g, r, x);
        var q := Eval(Quotient(g, r), x);
        assert Quotient(f, r)[1..] == Quotient(g, r);
        // x (d q) + d b = d (b + x q)
        MulAssoc(x, d, q); MulAssoc(d, x, q); MulComm(x, d);
        MulAdd(d, b, Mul(x, q));
        AddComm(Mul(x, Mul(d, q)), Mul(d, b));
      }
    }
  }

  lemma {:induction false} QuotientZero(f: seq<F>, r: F)
    requires IsZero(Quotient(f, r)) && Eval(f, r) == 0
    ensures IsZero(f)
  {
    hide Mul;
    if f != [] {
      var g := f[1..];
      if g != [] {
        var q := Quotient(f, r);
        assert q[0] == Eval(g, r) && q[1..] == Quotient(g, r);
        QuotientZero(g, r);
      }
      MulUnit(r);
      assert f == [f[0]] + g;
    }
  }

  /** A polynomial with as many distinct roots as coefficients is zero. */
  lemma {:induction false} RootsBound(f: seq<F>, points: seq<F>)
    requires |points| == |f| && Distinct(points)
    requires forall i :: 0 <= i < |points| ==> Eval(f, points[i]) == 0
    ensures IsZero(f)
    decreases |f|
  {
    hide Mul, Sub;
    if f != [] {
      var r, rest := points[0], points[1..];
      var q := Quotient(f, r);
      QuotientLength(f, r);
      forall i | 0 <= i < |rest|
        ensures Eval(q, rest[i]) == 0
      {
        var x := rest[i];
        assert x == points[i + 1] && r != x;
        FactorTheorem(f, r, x);
        AddCancel(x, r);
        AddCancel(0, 0);
        NoZeroDivisors(Sub(x, r), Eval(q, x));
      }
      RootsBound(q, rest);
      QuotientZero(f, r);
    }
  }

  function Difference(f: seq<F>, g: seq<F>): seq<F>
    requires |f| == |g|
  {
    seq(|f|, i requires 0 <= i < |f| => Sub(f[i], g[i]))
  }

  lemma {:induction false} EvalDifference(f: seq<F>, g: seq<F>, x: F)
    requires |f| == |g|
    ensures Eval(Difference(f, g), x) == Sub(Eval(f, x), Eval(g, x))
  {
    hide Mul, Add, Sub;
    if f == [] {
      AddCancel(0, 0);
    } else {
      var a, b := Eval(f[1..], x), Eval(g[1..], x);
      assert Difference(f, g)[1..] == Difference(f[1..], g[1..]);
      EvalDifference(f[1..], g[1..], x);
      MulSub(x, a, b);
      SubSum(f[0], g[0], Mul(x, a), Mul(x, b));
    }
  }

  lemma SubSum(a: F, b: F, c: F, d: F)
    ensures Add(Sub(a, b), Sub(c, d)) == Sub(Add(a, c), Add(b, d))
  {}

  /** Polynomials of the same length that agree on that many distinct points are equal. */
  lemma Unique(f: seq<F>, g: seq<F>, points: seq<F>)
    requires |f| == |g| == |points| && Distinct(points)
    requires forall i :: 0 <= i < |points| ==> Eval(f, points[i]) == Eval(g, points[i])
    ensures f == g
  {
    hide Sub, Eval;
    forall i | 0 <= i < |points|
      ensures Eval(Difference(f, g), points[i]) == 0
    {
      EvalDifference(f, g, points[i]);
      AddCancel(Eval(f, points[i]), Eval(g, points[i]));
    }
    RootsBound(Difference(f, g), points);
    forall i | 0 <= i < |f|
      ensures f[i] == g[i]
    {
      assert Difference(f, g)[i] == Sub(f[i], g[i]);
      AddCancel(f[i], g[i]);
    }
  }

  // ---------- Sum, scaling and product ----------

  function Sum(f: seq<F>, g: seq<F>): (r: seq<F>)
    ensures |r| == if |f| < |g| then |g| else |f|
  {
    if f == [] then g else if g == [] then f
    else [Add(f[0], g[0])] + Sum(f[1..], g[1..])
  }

  lemma AddSwap(a: F, b: F, c: F, d: F)
    ensures Add(Add(a, b), Add(c, d)) == Add(Add(a, c), Add(b, d))
  {}

  lemma {:induction false} EvalSum(f: seq<F>, g: seq<F>, x: F)
    ensures Eval(Sum(f, g), x) == Add(Eval(f, x), Eval(g, x))
  {
    hide Mul, Add;
    if f == [] {
      AddZero(Eval(g, x));
    } else if g == [] {
      AddZero(Eval(f, x));
    } else {
      EvalSum(f[1..], g[1..], x);
      var a, b := Eval(f[1..], x), Eval(g[1..], x);
      MulAdd(x, a, b);
      AddSwap(f[0], g[0], Mul(x, a), Mul(x, b));
    }
  }

  function Scale(c: F, f: seq<F>): (r: seq<F>)
    ensures |r| == |f|
  {
    if f == [] then [] else [Mul(c, f[0])] + Scale(c, f[1..])
  }

  lemma {:induction false} EvalScale(c: F, f: seq<F>, x: F)
    ensures Eval(Scale(c, f), x) == Mul(c, Eval(f, x))
  {
    hide Mul, Add;
    if f == [] {
      MulUnit(c);
    } else {
      EvalScale(c, f[1..], x);
      var a := Eval(f[1..], x);
      MulAdd(c, f[0], Mul(x, a));
      MulAssoc(x, c, a); MulAssoc(c, x, a); MulComm(x, c);
    }
  }

  /** The product, of length |f| + |g| - 1. */
  function Product(f: seq<F>, g: seq<F>): (r: seq<F>)
    requires f != [] && g != []
    ensures |r| == |f| + |g| - 1
  {
    if |f| == 1 then Scale(f[0], g) else Sum(Scale(f[0], g), [0] + Product(f[1..], g))
  }

  lemma EvalShift(f: seq<F>, x: F)
    ensures Eval([0] + f, x) == Mul(x, Eval(f, x))
  {}

  lemma {:induction false} EvalProduct(f: seq<F>, g: seq<F>, x: F)
    requires f != [] && g != []
    ensures Eval(Product(f, g), x) == Mul(Eval(f, x), Eval(g, x))
    decreases |f|
  {
    hide Mul, Add;
    EvalScale(f[0], g, x);
    var b := Eval(g, x);
    if |f| == 1 {
      MulUnit(x);
      AddZero(f[0]);
    } else {
      var rest := f[1..];
      EvalProduct(rest, g, x);
      EvalShift(Product(rest, g), x);
      EvalSum(Scale(f[0], g), [0] + Product(rest, g), x);
      var a := Eval(rest, x);
      MulAssoc(x, a, b);
      MulAdd(b, f[0], Mul(x, a));
    }
  }

  lemma {:induction false} SumLast(f: seq<F>, g: seq<F>)
    requires |f| < |g|
    ensures Sum(f, g)[|g| - 1] == g[|g| - 1]
  {
    if f != [] { SumLast(f[1..], g[1..]); }
  }

  lemma {:induction false} ScaleAt(c: F, f: seq<F>, i: nat)
    requires i < |f|
    ensures Scale(c, f)[i] == Mul(c, f[i])
  {
    if i > 0 { ScaleAt(c, f[1..], i - 1); }
  }

  lemma ProductFront(f: seq<F>, g: seq<F>)
    requires f != [] && g != []
    ensures Product(f, g) == if |f| == 1 then Scale(f[0], g) else Sum(Scale(f[0], g), [0] + Product(f[1..], g))
  {}

  /** The leading coefficient of a product is the product of the leading coefficients. */
  lemma {:induction false} ProductLast(f: seq<F>, g: seq<F>)
    requires f != [] && g != []
    ensures Product(f, g)[|f| + |g| - 2] == Mul(f[|f| - 1], g[|g| - 1])
    decreases |f|
  {
    hide Mul, Product, Scale, Sum;
    ProductFront(f, g);
    if |f| == 1 {
      ScaleAt(f[0], g, |g| - 1);
    } else {
      ProductLast(f[1..], g);
      SumLast(Scale(f[0], g), [0] + Product(f[1..], g));
    }
  }

  // ---------- Moving the roots ----------

  /** Coefficient i multiplied by z^i, which gives f(z X). */
  function Twist(f: seq<F>, z: F): seq<F> {
    seq(|f|, i requires 0 <= i < |f| => Mul(f[i], Pow(z, i)))
  }

  lemma {:induction false} TwistStep(f: seq<F>, z: F, c: F, x: F)
    ensures Eval(seq(|f|, i requires 0 <= i < |f| => Mul(f[i], Mul(c, Pow(z, i)))), x) == Mul(c, Eval(f, Mul(z, x)))
    decreases |f|
  {
    hide Mul, Add;
    var h := seq(|f|, i requires 0 <= i < |f| => Mul(f[i], Mul(c, Pow(z, i))));
    if f == [] {
      MulUnit(c);
    } else {
      var g, d := f[1..], Mul(c, z);
      var t := seq(|g|, i requires 0 <= i < |g| => Mul(g[i], Mul(d, Pow(z, i))));
      forall i | 0 <= i < |g|
        ensures h[1..][i] == t[i]
      {
        MulAssoc(c, z, Pow(z, i));
        assert Pow(z, i + 1) == Mul(z, Pow(z, i));
      }
      assert h[1..] == t;
      TwistStep(g, z, d, x);
      var y := Mul(z, x);
      var v := Eval(g, y);
      // c f0 + x ((c z) v) = c (f0 + (z x) v)
      PowOnce(z);
      MulUnit(c);
      MulComm(f[0], c);
      MulAdd(c, f[0], Mul(y, v));
      MulAssoc(x, d, v); MulAssoc(c, y, v);
      MulAssoc(c, z, x); MulComm(d, x);
    }
  }

  lemma EvalTwist(f: seq<F>, z: F, x: F)
    ensures Eval(Twist(f, z), x) == Eval(f, Mul(z, x))
  {
    hide Mul, Eval, Pow;
    TwistStep(f, z, 1, x);
    MulUnit(Eval(f, Mul(z, x)));
    var h := seq(|f|, i requires 0 <= i < |f| => Mul(f[i], Mul(1, Pow(z, i))));
    forall i | 0 <= i < |f|
      ensures h[i] == Twist(f, z)[i]
    {
      MulUnit(Pow(z, i));
    }
    assert h == Twist(f, z);
  }
}
