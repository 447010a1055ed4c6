/** Weighted sums of field elements, and of polynomials coefficient by coefficient. */
module Combinations {
  import opened Goldilocks
  import opened Polynomials

  /** The sum of x[j] y[j] for j below n. */
  function Dot(x: seq<F>, y: seq<F>, n: nat): F
    requires n <= |x| && n <= |y|
  {
    if n == 0 then 0 else Add(Dot(x, y, n - 1), Mul(x[n - 1], y[n - 1]))
  }

  lemma DotEmpty()
    ensures forall x: seq<F>, y: seq<F> :: Dot(x, y, 0) == 0
  {}

  lemma DotNext(x: seq<F>, y: seq<F>, n: nat)
    requires n < |x| && n < |y|
    ensures Dot(x, y, n + 1) == Add(Dot(x, y, n), Mul(x[n], y[n]))
  {}

  function Coefficients(polys: seq<seq<F>>, i: nat): (r: seq<F>)
    requires forall j :: 0 <= j < |polys| ==> i < |polys[j]|
    ensures |r| == |polys|
  {
    seq(|polys|, j requires 0 <= j < |polys| => polys[j][i])
  }

  function Values(polys: seq<seq<F>>, x: F): (r: seq<F>)
    ensures |r| == |polys|
  {
    seq(|polys|, j requires 0 <= j < |polys| => Eval(polys[j], x))
  }

  /** Coefficient by coefficient combination of the polynomials, with weights h. */
  ghost predicate Combines(r: seq<F>, polys: seq<seq<F>>, h: seq<F>, n: nat)
    requires n <= |polys| == |h|
  {
    (forall j :: 0 <= j < |polys| ==> |polys[j]| == |r|) &&
    forall i :: 0 <= i < |r| ==> r[i] == Dot(Coefficients(polys, i), h, n)
  }

  /** Evaluation is linear. */
  lemma {:induction false} EvalCombination(r: seq<F>, polys: seq<seq<F>>, h: seq<F>, n: nat, x: F)
    requires n <= |polys| == |h| && Combines(r, polys, h, n)
    ensures Eval(r, x) == Dot(Values(polys, x), h, n)
    decreases n
  {
    hide Add, Mul, Eval;
    if n == 0 {
      EvalZero(r, x);
    } else {
      var p, c := polys[n - 1], h[n - 1];
      var q := seq(|r|, i requires 0 <= i < |r| => Dot(Coefficients(polys, i), h, n - 1));
      EvalCombination(q, polys, h, n - 1, x);
      forall i | 0 <= i < |r|
        ensures r[i] == Add(q[i], Mul(c, p[i]))
      {
        assert Coefficients(polys, i)[n - 1] == p[i];
        MulComm(c, p[i]);
      }
      SumScaled(r, q, p, c, x);
      MulComm(c, Eval(p, x));
    }
  }

  lemma {:induction false} SumScaled(r: seq<F>, q: seq<F>, p: seq<F>, c: F, x: F)
    requires |r| == |q| == |p| && forall i :: 0 <= i < |r| ==> r[i] == Add(q[i], Mul(c, p[i]))
    ensures Eval(r, x) == Add(Eval(q, x), Mul(c, Eval(p, x)))
    decreases |r|
  {
    hide Add, Mul;
    if r == [] {
      MulUnit(c);
      AddZero(0);
    } else {
      SumScaled(r[1..], q[1..], p[1..], c, x);
      var a, b := Eval(q[1..], x), Eval(p[1..], x);
      MulAdd(x, a, Mul(c, b));
      MulAssoc(x, c, b); MulAssoc(c, x, b); MulComm(x, c);
      MulAdd(c, p[0], Mul(x, b));
      AddSwap(q[0], Mul(c, p[0]), Mul(x, a), Mul(c, Mul(x, b)));
    }
  }


  /** A single non-zero entry leaves a single term. */
  lemma {:induction false} DotSingle(x: seq<F>, y: seq<F>, n: nat, k: nat)
    requires n <= |x| && n <= |y| && k < n && forall j :: 0 <= j < n && j != k ==> x[j] == 0
    ensures Dot(x, y, n) == Mul(x[k], y[k])
    decreases n
  {
    hide Mul, Add;
    if n - 1 == k {
      DotPrefixZero(x, y, n - 1);
      AddZero(Mul(x[k], y[k]));
    } else {
      DotSingle(x, y, n - 1, k);
      MulUnit(y[n - 1]);
      AddZero(Mul(x[k], y[k]));
    }
  }

  lemma {:induction false} DotPrefixZero(x: seq<F>, y: seq<F>, n: nat)
    requires n <= |x| && n <= |y| && forall j :: 0 <= j < n ==> x[j] == 0
    ensures Dot(x, y, n) == 0
    decreases n
  {
    hide Mul, Add;
    if n > 0 {
      DotPrefixZero(x, y, n - 1);
      MulUnit(y[n - 1]);
      AddZero(0);
    }
  }
}
