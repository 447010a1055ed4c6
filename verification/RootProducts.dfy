/** Polynomials that vanish at the powers of a root picked out by the clear bits of a bitmap,
    and how two of them over half the domain combine into one. */
module RootProducts {
  import opened Goldilocks
  import opened FieldTheory
  import opened Polynomials

  type Bitmap = seq<bool>

  /** The number of clear bits. */
  function Clear(bits: Bitmap): (n: nat)
    ensures n <= |bits|
  {
    if bits == [] then 0 else (if bits[0] then 0 else 1) + Clear(bits[1..])
  }

  /** The product of x - c w^i over the clear bits i. */
  function RootProduct(bits: Bitmap, w: F, c: F, x: F): F {
    if bits == [] then 1
    else if bits[0] then RootProduct(bits[1..], w, Mul(c, w), x)
    else Mul(Sub(x, c), RootProduct(bits[1..], w, Mul(c, w), x))
  }

  lemma {:induction false} ClearSplit(bits: Bitmap)
    ensures Clear(bits) == Clear(Evens(bits)) + Clear(Odds(bits))
  {
    if bits != [] {
      ClearSplit(bits[1..]);
      assert Evens(bits)[1..] == Odds(bits[1..]);
    }
  }

  /** Even positions use w^2 from c, odd positions use w^2 from c w. */
  lemma {:induction false} RootProductSplit(bits: Bitmap, w: F, c: F, x: F)
    ensures RootProduct(bits, w, c, x) ==
            Mul(RootProduct(Evens(bits), Mul(w, w), c, x), RootProduct(Odds(bits), Mul(w, w), Mul(c, w), x))
    decreases |bits|
  {
    hide Mul, Sub;
    var u := Mul(w, w);
    if bits == [] {
      MulUnit(1);
    } else {
      var rest := bits[1..];
      RootProductSplit(rest, w, Mul(c, w), x);
      MulAssoc(c, w, w);
      var e, o := RootProduct(Evens(rest), u, Mul(c, w), x), RootProduct(Odds(rest), u, Mul(c, u), x);
      assert Evens(bits)[1..] == Odds(rest) && Evens(bits)[0] == bits[0];
      MulComm(e, o);
      MulAssoc(Sub(x, c), o, e);
    }
  }

  /** Moving every root by a factor w is evaluating at x / w, up to w^m for m roots. */
  lemma {:induction false} RootProductMoved(bits: Bitmap, u: F, c: F, w: F, inv: F, x: F)
    requires Mul(w, inv) == 1
    ensures RootProduct(bits, u, c, Mul(inv, x)) == Mul(Pow(inv, Clear(bits)), RootProduct(bits, u, Mul(c, w), x))
    decreases |bits|
  {
    hide Mul, Sub;
    if bits == [] {
      MulUnit(1);
    } else {
      var rest := bits[1..];
      RootProductMoved(rest, u, Mul(c, u), w, inv, x);
      MulAssoc(c, u, w); MulComm(u, w); MulAssoc(c, w, u);
      if !bits[0] {
        var p, q := Pow(inv, Clear(rest)), RootProduct(rest, u, Mul(Mul(c, w), u), x);
        // x / w - c = (x - c w) / w
        MulSub(inv, x, Mul(c, w));
        MulComm(inv, Mul(c, w)); MulAssoc(c, w, inv); MulUnit(c);
        MulSwap(inv, Sub(x, Mul(c, w)), p, q);
      }
    }
  }

  /** The product is zero exactly at the roots. */
  lemma {:induction false} RootProductZero(bits: Bitmap, w: F, c: F, x: F)
    ensures RootProduct(bits, w, c, x) == 0 <==> exists i :: 0 <= i < |bits| && !bits[i] && x == Mul(c, Pow(w, i))
    decreases |bits|
  {
    hide Mul, Sub;
    if bits != [] {
      var rest := bits[1..];
      RootProductZero(rest, w, Mul(c, w), x);
      var r := RootProduct(rest, w, Mul(c, w), x);
      PowOnce(w);
      MulUnit(c);
      AddCancel(x, c);
      assert r == 0 <==> exists i :: 1 <= i < |bits| && !bits[i] && x == Mul(c, Pow(w, i)) by {
        forall i | 1 <= i < |bits|
          ensures rest[i - 1] == bits[i] && Mul(Mul(c, w), Pow(w, i - 1)) == Mul(c, Pow(w, i))
        {
          MulAssoc(c, w, Pow(w, i - 1));
        }
        if r == 0 {
          var i :| 0 <= i < |rest| && !rest[i] && x == Mul(Mul(c, w), Pow(w, i));
          assert !bits[i + 1] && x == Mul(c, Pow(w, i + 1));
        }
        if i :| 1 <= i < |bits| && !bits[i] && x == Mul(c, Pow(w, i)) {
          assert !rest[i - 1] && x == Mul(Mul(c, w), Pow(w, i - 1));
        }
      }
      if bits[0] {
      } else {
        MulUnit(Sub(x, c)); MulUnit(r);
        if Sub(x, c) != 0 && r != 0 { NonZeroProduct(Sub(x, c), r); }
        if x == c { assert x == Mul(c, Pow(w, 0)); }
      }
    }
  }

  // ---------- Vanishing polynomials ----------

  /** The coefficient at n is not zero and those above are. */
  ghost predicate Degree(f: seq<F>, n: nat) {
    n < |f| && f[n] != 0 && forall j :: n < j < |f| ==> f[j] == 0
  }

  ghost predicate Proportional(f: seq<F>, bits: Bitmap, w: F, c: F) {
    c != 0 && forall x: F :: Eval(f, x) == Mul(c, RootProduct(bits, w, 1, x))
  }

  /** f vanishes at w^i exactly for the clear bits i, and nowhere else. */
  ghost predicate Vanishes(f: seq<F>, bits: Bitmap, w: F) {
    Degree(f, Clear(bits)) && exists c: F :: Proportional(f, bits, w, c)
  }

  /** What a vanishing polynomial does at any point. */
  lemma VanishesAt(f: seq<F>, bits: Bitmap, w: F, x: F)
    requires Vanishes(f, bits, w)
    ensures Eval(f, x) == 0 <==> exists i :: 0 <= i < |bits| && !bits[i] && x == Pow(w, i)
  {
    hide Mul, RootProduct, Eval, Pow;
    var c: F :| Proportional(f, bits, w, c);
    var r := RootProduct(bits, w, 1, x);
    assert Eval(f, x) == Mul(c, r);
    MulUnit(c);
    if r != 0 { NonZeroProduct(c, r); }
    RootProductZero(bits, w, 1, x);
    forall i: nat
      ensures Mul(1, Pow(w, i)) == Pow(w, i)
    {
      MulUnit(Pow(w, i));
    }
  }

  function Zeros(n: nat): (z: seq<F>)
    ensures |z| == n && IsZero(z)
  {
    seq(n, _ => 0)
  }

  lemma EvalPaddedProduct(a: seq<F>, b: seq<F>, n: nat, x: F)
    requires a != [] && b != []
    ensures Eval(Product(a, b) + Zeros(n), x) == Mul(Eval(a, x), Eval(b, x))
  {
    hide Mul, Eval, Product;
    EvalPad(Product(a, b), Zeros(n), x);
    EvalProduct(a, b, x);
  }

  /** Agreement with a product on enough points is agreement of the coefficients. */
  lemma ProductThroughDomain(a: seq<F>, b: seq<F>, r: seq<F>, points: seq<F>)
    requires a != [] && b != [] && |a| + |b| - 1 <= |r| == |points| && Distinct(points)
    requires forall i :: 0 <= i < |points| ==> Eval(r, points[i]) == Mul(Eval(a, points[i]), Eval(b, points[i]))
    ensures r == Product(a, b) + Zeros(|r| + 1 - |a| - |b|)
  {
    hide Mul, Eval, Product, Distinct;
    var n := |r| + 1 - |a| - |b|;
    var p := Product(a, b) + Zeros(n);
    forall i | 0 <= i < |points|
      ensures Eval(r, points[i]) == Eval(p, points[i])
    {
      EvalPaddedProduct(a, b, n, points[i]);
    }
    Unique(r, p, points);
  }

  lemma ProductDegree(a: seq<F>, b: seq<F>, n: nat)
    requires a != [] && b != [] && a[|a| - 1] != 0 && b[|b| - 1] != 0
    ensures Degree(Product(a, b) + Zeros(n), |a| + |b| - 2)
  {
    hide Mul, Product;
    ProductLast(a, b);
    NonZeroProduct(a[|a| - 1], b[|b| - 1]);
  }

  /** The coefficients up to the degree. */
  function Trimmed(f: seq<F>, n: nat): (a: seq<F>)
    requires n < |f|
    ensures |a| == n + 1
  {
    f[..n + 1]
  }

  lemma TrimmedSame(f: seq<F>, n: nat, x: F)
    requires Degree(f, n)
    ensures Trimmed(f, n)[n] == f[n] && Eval(Trimmed(f, n), x) == Eval(f, x)
  {
    hide Eval;
    assert f == f[..n + 1] + f[n + 1..];
    assert IsZero(f[n + 1..]);
    EvalPad(f[..n + 1], f[n + 1..], x);
  }

  /** The left half as it is and the right half with its roots moved by w multiply to the
      vanishing polynomial of the interleaved bitmap. */
  lemma VanishesProduct(f: seq<F>, g: seq<F>, r: seq<F>, a: Bitmap, b: Bitmap, w: F, inv: F)
    requires |a| == |b| && Mul(w, inv) == 1 && inv != 0
    requires Vanishes(f, a, Mul(w, w)) && Vanishes(g, b, Mul(w, w))
    requires Degree(r, Clear(a) + Clear(b))
    requires forall x: F :: Eval(r, x) == Mul(Eval(f, x), Eval(g, Mul(inv, x)))
    ensures Vanishes(r, Interleave(a, b), w)
  {
    hide Mul, Eval, RootProduct, Pow, Degree;
    var u, bits, n := Mul(w, w), Interleave(a, b), Clear(b);
    InterleaveSplits(a, b);
    ClearSplit(bits);
    var c: F :| Proportional(f, a, u, c);
    var d: F :| Proportional(g, b, u, d);
    var s := Pow(inv, n);
    var e := Mul(c, Mul(d, s));
    NonZeroPow(inv, n);
    NonZeroProduct(d, s);
    NonZeroProduct(c, Mul(d, s));
    forall x: F
      ensures Eval(r, x) == Mul(e, RootProduct(bits, w, 1, x))
    {
      var p, q := RootProduct(a, u, 1, x), RootProduct(b, u, Mul(1, w), x);
      RootProductSplit(bits, w, 1, x);
      RootProductMoved(b, u, 1, w, inv, x);
      assert Eval(f, x) == Mul(c, p);
      assert Eval(g, Mul(inv, x)) == Mul(d, Mul(s, q));
      MulAssoc(d, s, q);
      MulSwap(c, p, Mul(d, s), q);
    }
    assert Proportional(r, bits, w, e);
  }

  lemma {:induction false} RootProductFull(bits: Bitmap, w: F, c: F, x: F)
    requires Clear(bits) == 0
    ensures RootProduct(bits, w, c, x) == 1
    decreases |bits|
  {
    if bits != [] { RootProductFull(bits[1..], w, Mul(c, w), x); }
  }

  /** The constant polynomial vanishes nowhere. */
  lemma VanishesNowhere(f: seq<F>, bits: Bitmap, w: F)
    requires Clear(bits) == 0 && f != [] && f[0] != 0 && IsZero(f[1..])
    ensures Vanishes(f, bits, w)
  {
    hide Mul;
    forall x: F
      ensures Eval(f, x) == Mul(f[0], RootProduct(bits, w, 1, x))
    {
      RootProductFull(bits, w, 1, x);
      EvalZero(f[1..], x);
      MulUnit(x);
      MulUnit(f[0]);
    }
    assert Proportional(f, bits, w, f[0]);
    assert forall j :: 0 < j < |f| ==> f[j] == f[1..][j - 1];
  }

  /** X - 1 vanishes at 1 only. */
  lemma VanishesAtOne(f: seq<F>)
    requires f == [MINUS_ONE, 1]
    ensures Vanishes(f, [false], 1)
  {
    hide Mul;
    var bits := [false];
    assert bits[1..] == [];
    forall x: F
      ensures Eval(f, x) == Mul(1, RootProduct(bits, 1, 1, x))
    {
      assert f[1..] == [1] && f[1..][1..] == [];
      MulUnit(x);
      assert Eval([1], x) == 1;
      assert RootProduct([], 1, Mul(1, 1), x) == 1;
      MulUnit(Sub(x, 1));
    }
    assert Proportional(f, bits, 1, 1);
  }
}
