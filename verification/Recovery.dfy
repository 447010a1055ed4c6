/** Vectors of polynomials, their evaluations, and the recovery of a vector of polynomials from
    some of its evaluations. */
module Recovery {
  import opened Bits
  import opened Goldilocks
  import opened FieldTheory
  import opened Polynomials
  import opened Transform
  import opened RootProducts
  import opened Ntt
  import opened Vanishing
  import opened Wrappers
  import opened Matrices
  import opened Topology
  import Interpolation
  import Poly

  ghost predicate PowerOfTwo(rows: nat) {
    rows >= 1 && rows == Pow2(Log2(rows))
  }

  /** Rows for which there is a root of unity. */
  ghost predicate HasDomain(rows: nat) {
    PowerOfTwo(rows) && Log2(rows) <= 32
  }

  /** Each column holds the coefficients of one polynomial, in bit-reversed order. */
  class PolynomialVector {
    const data: Matrix

    ghost predicate Valid() { PowerOfTwo(data.Length0) }

    /** The number of stages. */
    ghost function Lg(): nat
      requires Valid()
    {
      Log2(data.Length0)
    }

    /** Polynomial k, from the constant term up. */
    ghost function Poly(k: nat): (f: seq<F>)
      requires Valid() && k < data.Length1
      reads data
      ensures |f| == data.Length0
    {
      Stored(Col(data, 0, data.Length0, k), Lg())
    }

    constructor (data: Matrix)
      requires PowerOfTwo(data.Length0)
      ensures this.data == data && Valid()
    {
      this.data := data;
    }

    /** Coefficients in order of increasing index and then for each polynomial; what is not supplied is 0. */
    constructor FromCoefficients(rows: nat, cols: nat, coefficients: seq<F>)
      requires rows > 0 && Log2(NextPow2(rows)) <= 64
      ensures fresh(data) && Valid() && data.Length0 == NextPow2(rows) && data.Length1 == cols
      ensures forall i, k :: 0 <= i < data.Length0 && 0 <= k < cols ==> Poly(k)[i] == Cell(coefficients, cols, i, k)
    {
      hide Pow2, Log2, NextPow2, BitReversed, Rev, Cell;
      NextPow2Bounds(rows);
      var m := ReversedRows(NextPow2(rows), cols, coefficients);
      this.data := m;
      new;
      forall i, k | 0 <= i < data.Length0 && 0 <= k < cols
        ensures Poly(k)[i] == Cell(coefficients, cols, i, k)
      {
        BitReversedFrom(Col(data, 0, data.Length0, k), Lg(), i);
        RevRev(Lg(), i);
      }
    }

    /** The first n coefficients of every polynomial, a row for each. */
    method CoefficientsUpTo(n: nat) returns (rows: seq<seq<F>>)
      requires Valid() && Lg() <= 64
      ensures |rows| == if n < data.Length0 then n else data.Length0
      ensures forall i :: 0 <= i < |rows| ==> |rows[i]| == data.Length1
      ensures forall i, k :: 0 <= i < |rows| && 0 <= k < data.Length1 ==> rows[i][k] == Poly(k)[i]
    {
      hide Pow2, Log2, BitReversed, Rev, ReverseBits;
      var lg := Log2(data.Length0);
      var count := if n < data.Length0 then n else data.Length0;
      rows := [];
      for i := 0 to count
        invariant |rows| == i
        invariant forall r :: 0 <= r < i ==> |rows[r]| == data.Length1
        invariant forall r, k :: 0 <= r < i && 0 <= k < data.Length1 ==> rows[r][k] == Poly(k)[r]
      {
        ReverseBitsInRange(lg, i);
        var index := ReverseBits(lg, i);
        var row := seq(data.Length1, k requires 0 <= k < data.Length1 reads data => data[index, k]);
        forall k | 0 <= k < data.Length1
          ensures row[k] == Poly(k)[i]
        {
          BitReversedFrom(Col(data, 0, data.Length0, k), lg, i);
        }
        rows := rows + [row];
      }
    }

    /** The values of every polynomial over the whole domain, computed in place. */
    method Evaluate() returns (out: EvaluationVector)
      requires Valid() && HasDomain(data.Length0)
      modifies data
      ensures fresh(out) && out.data == data && out.Valid() && Clear(out.activeRows) == 0
      ensures forall i, k :: 0 <= i < data.Length0 && 0 <= k < data.Length1 ==>
        data[i, k] == Eval(old(Poly(k)), Domain(Lg())[i])
    {
      hide Eval, Domain, Log2, Pow2, Transformed;
      var lg := Log2(data.Length0);
      InPlace(true, data, 0, lg);
      out := new EvaluationVector(data, seq(data.Length0, _ => true));
      AllSet(out.activeRows);
      forall i, k | 0 <= i < data.Length0 && 0 <= k < data.Length1
        ensures data[i, k] == Eval(old(Poly(k)), Domain(lg)[i])
      {
        TransformEvaluates(old(Col(data, 0, data.Length0, k)), lg, i);
        assert Col(data, 0, data.Length0, k)[i] == data[i, k];
      }
    }

    /** Divide every polynomial by q, on the domain moved by the skew. */
    method Divide(q: Matrix)
      requires Valid() && HasDomain(data.Length0) && q.Length0 == data.Length0 && q.Length1 == 1 && q != data
      modifies data, q
      ensures forall k, x :: 0 <= k < data.Length1 && x in Domain(Lg()) ==>
        Eval(Poly(k), Mul(NOT_ROOT_OF_UNITY, x)) ==
        Mul(Eval(old(Poly(k)), Mul(NOT_ROOT_OF_UNITY, x)),
            Inv(Eval(Stored(old(Whole(q)), Lg()), Mul(NOT_ROOT_OF_UNITY, x))))
    {
      hide Mul, Eval, Domain, Log2, Pow2, Transformed, Inv, Twist, Stored;
      var rows, lg := data.Length0, Log2(data.Length0);
      ghost var q0 := Whole(q);
      DivideRoots(data, 0, lg, NOT_ROOT_OF_UNITY);
      DivideRoots(q, 0, lg, NOT_ROOT_OF_UNITY);
      ghost var q1 := Whole(q);
      label Skewed:
      InPlace(true, data, 0, lg);
      InPlace(true, q, 0, lg);
      label Evaluated:
      ghost var q2 := Whole(q);
      DivideRows(data, q);
      label Divided:
      InPlace(false, data, 0, lg);
      label Interpolated:
      DivideRoots(data, 0, lg, NOT_ROOT_OF_UNITY_INV);
      forall k, x | 0 <= k < data.Length1 && x in Domain(lg)
        ensures Eval(Poly(k), Mul(NOT_ROOT_OF_UNITY, x)) ==
                Mul(Eval(old(Poly(k)), Mul(NOT_ROOT_OF_UNITY, x)), Inv(Eval(Stored(q0, lg), Mul(NOT_ROOT_OF_UNITY, x))))
      {
        ghost var d := old@Divided(Col(data, 0, rows, k));
        assert forall i :: 0 <= i < rows ==> d[i] == Mul(old@Evaluated(Col(data, 0, rows, k))[i], Inv(q2[i]));
        DivideColumn(old(Col(data, 0, rows, k)), old@Skewed(Col(data, 0, rows, k)), q0, q1,
                     d, Col(data, 0, rows, k), lg, x);
      }
    }
  }

  /** Row i of the stream goes to row Rev(i). */
  method ReversedRows(rows: nat, cols: nat, coefficients: seq<F>) returns (m: Matrix)
    requires PowerOfTwo(rows) && Log2(rows) <= 64
    ensures fresh(m) && m.Length0 == rows && m.Length1 == cols
    ensures forall i, k :: 0 <= i < rows && 0 <= k < cols ==> m[i, k] == Cell(coefficients, cols, Rev(Log2(rows), i), k)
  {
    hide Pow2, Log2, Rev, ReverseBits, Cell;
    var lg := Log2(rows);
    m := new F[rows, cols]((_, _) => 0);
    var next := 0;
    for i := 0 to rows
      invariant next == i * cols
      invariant forall r, c :: 0 <= r < rows && 0 <= c < cols ==>
        m[r, c] == if Rev(lg, r) < i then Cell(coefficients, cols, Rev(lg, r), c) else 0
    {
      ReverseBitsInRange(lg, i);
      var index := ReverseBits(lg, i);
      RevInjective(lg, i);
      for k := 0 to cols
        invariant next == i * cols + k
        invariant forall r, c :: 0 <= r < rows && 0 <= c < cols ==>
          m[r, c] == if Before(Rev(lg, r), c, i, k) then Cell(coefficients, cols, Rev(lg, r), c) else 0
      {
        if next >= |coefficients| {
          RestZero(coefficients, cols, i, k);
          return;
        }
        CellAt(coefficients, cols, i, k);
        m[index, k] := coefficients[next];
        next := next + 1;
      }
    }
    assert forall r :: 0 <= r < rows ==> Rev(lg, r) < rows by {
      forall r | 0 <= r < rows
        ensures Rev(lg, r) < rows
      {
        RevBound(lg, r);
      }
    }
  }

  lemma CellAt(s: seq<F>, cols: nat, i: nat, k: nat)
    requires i * cols + k < |s|
    ensures Cell(s, cols, i, k) == s[i * cols + k]
  {}

  lemma {:induction false} AllSet(bits: Bitmap)
    requires forall i :: 0 <= i < |bits| ==> bits[i]
    ensures Clear(bits) == 0
  {
    if bits != [] { AllSet(bits[1..]); }
  }

  /** Row i of the matrix divided by entry i of the column. */
  method DivideRows(m: Matrix, q: Matrix)
    requires q.Length0 == m.Length0 && q.Length1 == 1 && m != q
    modifies m
    ensures forall i, k :: 0 <= i < m.Length0 && 0 <= k < m.Length1 ==> m[i, k] == Mul(old(m[i, k]), Inv(q[i, 0]))
  {
    hide Mul, Inv;
    for i := 0 to m.Length0
      invariant forall r, k :: 0 <= r < i && 0 <= k < m.Length1 ==> m[r, k] == Mul(old(m[r, k]), Inv(q[r, 0]))
      invariant forall r, k :: i <= r < m.Length0 && 0 <= k < m.Length1 ==> m[r, k] == old(m[r, k])
    {
      var inv := Invert(q[i, 0]);
      ScaleRow(m, i, inv);
    }
  }

  /** What dividing does to one column, step by step. */
  lemma DivideColumn(p0: seq<F>, p1: seq<F>, q0: seq<F>, q1: seq<F>, d: seq<F>, r: seq<F>, lg: nat, x: F)
    requires lg <= 32 && |p0| == |p1| == |q0| == |q1| == |d| == |r| == Pow2(lg) && x in Domain(lg)
    requires Stored(p1, lg) == Twist(Stored(p0, lg), NOT_ROOT_OF_UNITY)
    requires Stored(q1, lg) == Twist(Stored(q0, lg), NOT_ROOT_OF_UNITY)
    requires forall i :: 0 <= i < |d| ==> d[i] == Mul(Transformed(true, p1, lg)[i], Inv(Transformed(true, q1, lg)[i]))
    requires Stored(r, lg) == Twist(Stored(Transformed(false, d, lg), lg), NOT_ROOT_OF_UNITY_INV)
    ensures Eval(Stored(r, lg), Mul(NOT_ROOT_OF_UNITY, x)) ==
            Mul(Eval(Stored(p0, lg), Mul(NOT_ROOT_OF_UNITY, x)), Inv(Eval(Stored(q0, lg), Mul(NOT_ROOT_OF_UNITY, x))))
  {
    hide Mul, Eval, Domain, Pow2, Transformed, Inv, Twist, BitReversed;
    var z, zi := NOT_ROOT_OF_UNITY, NOT_ROOT_OF_UNITY_INV;
    var i :| 0 <= i < |Domain(lg)| && Domain(lg)[i] == x;
    EvalTwist(Stored(p0, lg), z, x);
    EvalTwist(Stored(q0, lg), z, x);
    TransformEvaluates(p1, lg, i);
    TransformEvaluates(q1, lg, i);
    TransformInterpolates(d, lg, i);
    EvalTwist(Stored(Transformed(false, d, lg), lg), zi, Mul(z, x));
    SkewInverse();
    MulAssoc(zi, z, x); MulComm(zi, z); MulUnit(x);
  }

  /** Some rows of the values of a vector of polynomials, and which rows those are. */
  class EvaluationVector {
    const data: Matrix
    var activeRows: Bitmap

    ghost predicate Valid()
      reads this
    {
      PowerOfTwo(data.Length0) && |activeRows| == data.Length0
    }

    constructor (data: Matrix, activeRows: Bitmap)
      requires PowerOfTwo(data.Length0) && |activeRows| == data.Length0
      ensures this.data == data && this.activeRows == activeRows && Valid()
    {
      this.data := data;
      this.activeRows := activeRows;
    }

    /** No filled rows. */
    constructor Empty(lgRows: nat, cols: nat)
      ensures fresh(data) && Valid() && data.Length0 == Pow2(lgRows) && data.Length1 == cols
      ensures forall i :: 0 <= i < |activeRows| ==> !activeRows[i]
      ensures forall i, k :: 0 <= i < data.Length0 && 0 <= k < cols ==> data[i, k] == 0
    {
      Log2Pow2(lgRows);
      data := new F[Pow2(lgRows), cols]((_, _) => 0);
      activeRows := seq(Pow2(lgRows), _ => false);
    }

    /** Fill a prefix of a row, and remember that the row has been filled. */
    method FillRow(row: nat, values: seq<F>)
      requires Valid() && row < data.Length0 && |values| <= data.Length1
      modifies this, data
      ensures Valid() && activeRows == old(activeRows)[row := true]
      ensures forall k :: 0 <= k < |values| ==> data[row, k] == values[k]
      ensures forall i, k :: 0 <= i < data.Length0 && 0 <= k < data.Length1 && (i != row || k >= |values|) ==>
        data[i, k] == old(data[i, k])
    {
      for c := 0 to |values|
        invariant activeRows == old(activeRows)
        invariant forall k :: 0 <= k < c ==> data[row, k] == values[k]
        invariant forall i, k :: 0 <= i < data.Length0 && 0 <= k < data.Length1 && (i != row || k >= c) ==>
          data[i, k] == old(data[i, k])
      {
        data[row, c] := values[c];
      }
      activeRows := activeRows[row := true];
    }

    /** The polynomials with these values. */
    method Interpolate() returns (out: PolynomialVector)
      requires Valid() && HasDomain(data.Length0)
      modifies data
      ensures fresh(out) && out.data == data && out.Valid()
      ensures forall i, k :: 0 <= i < data.Length0 && 0 <= k < data.Length1 ==>
        Eval(out.Poly(k), Domain(Log2(data.Length0))[i]) == old(data[i, k])
      ensures forall k :: 0 <= k < data.Length1 ==>
        Col(data, 0, data.Length0, k) == Transformed(false, old(Col(data, 0, data.Length0, k)), Log2(data.Length0))
    {
      hide Eval, Domain, Log2, Pow2, Transformed, BitReversed;
      var lg := Log2(data.Length0);
      InPlace(false, data, 0, lg);
      out := new PolynomialVector(data);
      forall i, k | 0 <= i < data.Length0 && 0 <= k < data.Length1
        ensures Eval(out.Poly(k), Domain(lg)[i]) == old(data[i, k])
      {
        TransformInterpolates(old(Col(data, 0, data.Length0, k)), lg, i);
      }
    }

    /** Multiply row i by the value of the polynomial at point i. */
    method Multiply(polynomial: Matrix)
      requires Valid() && HasDomain(data.Length0) && polynomial.Length0 == data.Length0
      requires polynomial.Length1 == 1 && polynomial != data
      modifies data, polynomial
      ensures forall i, k :: 0 <= i < data.Length0 && 0 <= k < data.Length1 ==>
        data[i, k] ==
          Mul(old(data[i, k]), Eval(Stored(old(Whole(polynomial)), Log2(data.Length0)), Domain(Log2(data.Length0))[i]))
    {
      hide Mul, Eval, Domain, Log2, Pow2, Transformed, BitReversed;
      var lg := Log2(data.Length0);
      ghost var s := Whole(polynomial);
      InPlace(true, polynomial, 0, lg);
      forall i | 0 <= i < data.Length0
        ensures polynomial[i, 0] == Eval(Stored(s, lg), Domain(lg)[i])
      {
        TransformEvaluates(s, lg, i);
        assert Whole(polynomial)[i] == polynomial[i, 0];
      }
      for i := 0 to polynomial.Length0
        invariant forall r :: 0 <= r < data.Length0 ==> polynomial[r, 0] == Eval(Stored(s, lg), Domain(lg)[r])
        invariant forall r, k :: 0 <= r < i && 0 <= k < data.Length1 ==>
          data[r, k] == Mul(old(data[r, k]), Eval(Stored(s, lg), Domain(lg)[r]))
        invariant forall r, k :: i <= r < data.Length0 && 0 <= k < data.Length1 ==> data[r, k] == old(data[r, k])
      {
        ScaleRow(data, i, polynomial[i, 0]);
      }
    }

    /** Recover the polynomials from the filled rows: in every column, any polynomial with at most as
        many coefficients as there are filled rows, and with the given values there, is returned
        exactly.  The contents of the other rows do not matter. */
    method Recover() returns (r: Option<PolynomialVector>)
      requires Valid()
      modifies data
      ensures r.Some? <==> Computable(activeRows)
      ensures r.Some? ==> fresh(r.value) && r.value.data == data && r.value.Valid()
      ensures r.Some? ==> forall k :: 0 <= k < data.Length1 ==>
        Matches(r.value.Poly(k), old(Col(data, 0, data.Length0, k)), activeRows, Log2(data.Length0))
      ensures r.Some? ==> forall k, f ::
        0 <= k < data.Length1 && Matches(f, old(Col(data, 0, data.Length0, k)), activeRows, Log2(data.Length0)) ==>
        r.value.Poly(k) == f
    {
      hide Mul, Eval, Domain, Log2, Pow2, Stored, Clear, Evens, Odds, Vanishes, Inv, Matches, Transformed;
      var lg := Log2(data.Length0);
      var computed := VanishingPolynomial(activeRows);
      if computed.None? {
        return None;
      }
      var vanishing := computed.value;
      ghost var v := Stored(Whole(vanishing), lg);
      var copy := new F[data.Length0, 1]((i, _) requires 0 <= i < data.Length0 reads vanishing => vanishing[i, 0]);
      assert Whole(copy) == Whole(vanishing);
      Multiply(copy);
      label Multiplied:
      var out := Interpolate();
      label Interpolated:
      out.Divide(vanishing);
      forall k, f | 0 <= k < data.Length1 && Matches(f, old(Col(data, 0, data.Length0, k)), activeRows, lg)
        ensures out.Poly(k) == f
      {
        RecoverColumn(old(Col(data, 0, data.Length0, k)), activeRows, lg, v,
                      old@Interpolated(out.Poly(k)), out.Poly(k), f);
      }
      forall k | 0 <= k < data.Length1
        ensures Matches(out.Poly(k), old(Col(data, 0, data.Length0, k)), activeRows, lg)
      {
        MatchExists(old(Col(data, 0, data.Length0, k)), activeRows, lg);
      }
      r := Some(out);
    }
  }

  /** f has at most as many coefficients as there are set bits, and the given values there. */
  ghost predicate Matches(f: seq<F>, values: seq<F>, active: Bitmap, lg: nat)
    requires |values| == |active| == Pow2(lg) && lg <= 32
  {
    |f| == |values| &&
    (forall j :: |values| - Clear(active) <= j < |values| ==> f[j] == 0) &&
    (forall i :: 0 <= i < |values| && active[i] ==> values[i] == Eval(f, Domain(lg)[i]))
  }

  /** The positions of the set bits, the first bit at `start`. */
  ghost function Places(active: Bitmap, start: nat): seq<nat> {
    if active == [] then []
    else (if active[0] then [start] else []) + Places(active[1..], start + 1)
  }

  /** As many as there are set bits, in order. */
  lemma {:induction false} PlacesInOrder(active: Bitmap, start: nat)
    ensures |Places(active, start)| == |active| - Clear(active)
    ensures forall q :: 0 <= q < |Places(active, start)| ==> start <= Places(active, start)[q] < start + |active|
    ensures forall q, q' :: 0 <= q < q' < |Places(active, start)| ==>
      Places(active, start)[q] < Places(active, start)[q']
    decreases |active|
  {
    if active != [] {
      PlacesInOrder(active[1..], start + 1);
      var rest, all := Places(active[1..], start + 1), Places(active, start);
      assert all == (if active[0] then [start] else []) + rest;
      assert Clear(active) == (if active[0] then 0 else 1) + Clear(active[1..]);
      hide Places, Clear;
    }
  }

  lemma {:induction false} PlacesHas(active: Bitmap, start: nat, i: nat)
    requires i < |active| && active[i]
    ensures start + i in Places(active, start)
    decreases |active|
  {
    if i > 0 { PlacesHas(active[1..], start + 1, i - 1); }
  }

  /** Whatever the values, a polynomial with as many coefficients as there are set bits has them there. */
  lemma MatchExists(values: seq<F>, active: Bitmap, lg: nat)
    requires lg <= 32 && |values| == |active| == Pow2(lg)
    ensures exists f :: Matches(f, values, active, lg)
  {
    hide Eval, Domain, Pow2, Clear, Places, Interpolation.Interpolant, Poly.Padded;
    var places := Places(active, 0);
    PlacesInOrder(active, 0);
    var points := seq(|places|, q requires 0 <= q < |places| => Domain(lg)[places[q]]);
    var ys := seq(|places|, q requires 0 <= q < |places| => values[places[q]]);
    DomainDistinct(lg);
    assert Distinct(points);
    var g := Interpolation.Interpolant(ys, points);
    var f := Poly.Padded(g, |values|);
    forall i | 0 <= i < |values| && active[i]
      ensures values[i] == Eval(f, Domain(lg)[i])
    {
      PlacesHas(active, 0, i);
      var q :| 0 <= q < |places| && places[q] == i;
      Interpolation.InterpolantAgrees(ys, points, q);
      Poly.EvalPadded(g, |values|, Domain(lg)[i]);
    }
    assert Matches(f, values, active, lg);
  }

  /** The vanishing polynomial has no zero on the domain moved by the skew. */
  lemma SkewedNotZero(v: seq<F>, active: Bitmap, lg: nat, x: F)
    requires lg <= 32 && |active| == Pow2(lg) && Vanishes(v, active, Root(lg)) && x in Domain(lg)
    ensures Eval(v, Mul(NOT_ROOT_OF_UNITY, x)) != 0
  {
    hide Mul, Pow, Eval, Vanishes, Root, IsRoot, Pow2;
    var z, n, w := NOT_ROOT_OF_UNITY, Pow2(lg), Root(lg);
    var i :| 0 <= i < n && Domain(lg)[i] == x;
    RootIsRoot(lg);
    RootProperties(w, lg);
    MulPow(z, x, n);
    RootPowerOne(w, i, n);
    MulUnit(Pow(z, n));
    SkewNotRoot(lg);
    VanishesAt(v, active, w, Mul(z, x));
    forall j | 0 <= j < n
      ensures Mul(z, x) != Pow(w, j)
    {
      RootPowerOne(w, j, n);
    }
  }

  lemma RootPowerOne(w: F, i: nat, n: nat)
    requires Pow(w, n) == 1
    ensures Pow(Pow(w, i), n) == 1
  {
    hide Mul, Pow;
    PowMul(w, i, n);
    PowMul(w, n, i);
    assert i * n == n * i;
    PowOne(i);
  }

  lemma SkewedDistinct(lg: nat)
    requires lg <= 32
    ensures |Skewed(lg)| == Pow2(lg) && Distinct(Skewed(lg))
  {
    hide Mul, Pow;
    DomainDistinct(lg);
    forall i, j | 0 <= i < j < |Skewed(lg)|
      ensures Skewed(lg)[i] != Skewed(lg)[j]
    {
      if Skewed(lg)[i] == Skewed(lg)[j] {
        MulCancel(NOT_ROOT_OF_UNITY, Domain(lg)[i], Domain(lg)[j]);
        assert false;
      }
    }
  }

  /** The domain moved by the skew. */
  function Skewed(lg: nat): (s: seq<F>)
    requires lg <= 32
    ensures |s| == Pow2(lg)
  {
    seq(Pow2(lg), i requires 0 <= i < Pow2(lg) => Mul(NOT_ROOT_OF_UNITY, Domain(lg)[i]))
  }

  /** Interpolating the values times v gives f v. */
  lemma MultipliedColumn(values: seq<F>, active: Bitmap, lg: nat, v: seq<F>, p: seq<F>, f: seq<F>, x: F)
    requires lg <= 32 && |values| == |active| == |v| == |p| == Pow2(lg) && Clear(active) < |active|
    requires Vanishes(v, active, Root(lg)) && Matches(f, values, active, lg)
    requires forall i :: 0 <= i < |values| ==> Eval(p, Domain(lg)[i]) == Mul(values[i], Eval(v, Domain(lg)[i]))
    ensures Eval(p, x) == Mul(Eval(f, x), Eval(v, x))
  {
    hide Mul, Pow, Eval, Root, Pow2, Product, Clear, Distinct, Trimmed, Domain;
    var n, c := |values|, Clear(active);
    forall i | 0 <= i < n
      ensures Eval(p, Domain(lg)[i]) == Mul(Eval(f, Domain(lg)[i]), Eval(v, Domain(lg)[i]))
    {
      var y := Domain(lg)[i];
      if !active[i] {
        VanishesAt(v, active, Root(lg), y);
        assert y == Pow(Root(lg), i);
        MulUnit(values[i]); MulUnit(Eval(f, y));
      }
    }
    var a, b := f[..n - c], Trimmed(v, c);
    forall i | 0 <= i < n
      ensures Eval(p, Domain(lg)[i]) == Mul(Eval(a, Domain(lg)[i]), Eval(b, Domain(lg)[i]))
    {
      LowCoefficients(f, n - c, Domain(lg)[i]);
      TrimmedSame(v, c, Domain(lg)[i]);
    }
    DomainDistinct(lg);
    ProductThroughDomain(a, b, p, Domain(lg));
    EvalPaddedProduct(a, b, |p| + 1 - |a| - |b|, x);
    LowCoefficients(f, n - c, x);
    TrimmedSame(v, c, x);
  }

  lemma LowCoefficients(f: seq<F>, n: nat, x: F)
    requires n <= |f| && forall j :: n <= j < |f| ==> f[j] == 0
    ensures Eval(f[..n], x) == Eval(f, x)
  {
    hide Eval;
    assert f == f[..n] + f[n..];
    EvalPad(f[..n], f[n..], x);
  }

  /** Recovery, in one column. */
  lemma RecoverColumn(values: seq<F>, active: Bitmap, lg: nat, v: seq<F>, p: seq<F>, r: seq<F>, f: seq<F>)
    requires lg <= 32 && |values| == |active| == |v| == |p| == |r| == Pow2(lg) && Clear(active) < |active|
    requires Vanishes(v, active, Root(lg)) && Matches(f, values, active, lg)
    requires forall i :: 0 <= i < |values| ==> Eval(p, Domain(lg)[i]) == Mul(values[i], Eval(v, Domain(lg)[i]))
    requires forall x :: x in Domain(lg) ==>
      Eval(r, Mul(NOT_ROOT_OF_UNITY, x)) ==
        Mul(Eval(p, Mul(NOT_ROOT_OF_UNITY, x)), Inv(Eval(v, Mul(NOT_ROOT_OF_UNITY, x))))
    ensures r == f
  {
    hide Mul, Eval, Root, Vanishes, Distinct, Inv, Pow2, Domain, Clear;
    SkewedDistinct(lg);
    forall i | 0 <= i < |r|
      ensures Eval(r, Skewed(lg)[i]) == Eval(f, Skewed(lg)[i])
    {
      var x := Domain(lg)[i];
      var y := Mul(NOT_ROOT_OF_UNITY, x);
      MultipliedColumn(values, active, lg, v, p, f, y);
      SkewedNotZero(v, active, lg, x);
      InvCorrect(Eval(v, y));
      MulAssoc(Eval(f, y), Eval(v, y), Inv(Eval(v, y)));
      MulUnit(Eval(f, y));
    }
    Unique(r, f, Skewed(lg));
  }
}
