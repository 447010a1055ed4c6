/** The vanishing-polynomial builder: an in-place, bottom-up tree of products over sections of
    one vector of bit-reversed coefficients. */
module Vanishing {
  import opened Bits
  import opened Goldilocks
  import opened FieldTheory
  import opened Polynomials
  import opened Transform
  import opened RootProducts
  import opened Ntt
  import opened Wrappers

  // ---------- Stored polynomials ----------

  /** The polynomial stored, in bit-reversed order, by a column of 2^lg entries. */
  function Stored(s: seq<F>, lg: nat): (f: seq<F>)
    requires |s| == Pow2(lg)
    ensures |f| == |s|
  {
    BitReversed(s, lg)
  }

  /** Stored coefficients at even positions, zeros at odd positions. */
  function Spread(s: seq<F>): (r: seq<F>)
    ensures |r| == 2 * |s|
    ensures forall i :: 0 <= i < |r| ==> r[i] == if i % 2 == 0 then s[i / 2] else 0
  {
    seq(2 * |s|, i requires 0 <= i < 2 * |s| => if i % 2 == 0 then s[i / 2] else 0)
  }

  /** Spreading a stored polynomial stores it with as many zero coefficients added. */
  lemma SpreadPads(s: seq<F>, lg: nat)
    requires |s| == Pow2(lg)
    ensures |Spread(s)| == Pow2(lg + 1) && Stored(Spread(s), lg + 1) == Stored(s, lg) + Zeros(|s|)
  {
    hide BitReversed, Rev;
    var f := Stored(s, lg) + Zeros(|s|);
    forall j | 0 <= j < 2 * |s|
      ensures Stored(Spread(s), lg + 1)[j] == f[j]
    {
      BitReversedFrom(Spread(s), lg + 1, j);
      var top := j >= |s|;
      var r := if top then j - |s| else j;
      RevTop(lg + 1, top, r);
      BitReversedFrom(s, lg, r);
    }
  }

  // ---------- Moving the roots, in place ----------

  /** Stored coefficient i multiplied by factor^i, in every column of the window. */
  method DivideRoots(m: Matrix, lo: nat, lg: nat, factor: F)
    requires lg <= 64 && lo + Pow2(lg) <= m.Length0
    modifies m
    ensures forall k :: 0 <= k < m.Length1 ==>
      Stored(Col(m, lo, Pow2(lg), k), lg) == Twist(Stored(old(Col(m, lo, Pow2(lg), k)), lg), factor)
    ensures SameOutside(m, lo, lo + Pow2(lg))
  {
    hide Mul, Pow, Pow2, Rev, BitReversed, ReverseBits;
    var rows := Pow2(lg);
    var factorI: F := 1;
    PowOnce(factor);
    for i := 0 to rows
      invariant factorI == Pow(factor, i)
      invariant forall p, k :: lo <= p < lo + rows && 0 <= k < m.Length1 ==>
        m[p, k] == if Rev(lg, p - lo) < i then Mul(old(m[p, k]), Pow(factor, Rev(lg, p - lo))) else old(m[p, k])
      invariant SameOutside(m, lo, lo + rows)
    {
      ReverseBitsInRange(lg, i);
      var index := lo + ReverseBits(lg, i);
      RevInjective(lg, i);
      ScaleRow(m, index, factorI);
      PowNext(factor, i);
      factorI := Mul(factorI, factor);
    }
    forall k | 0 <= k < m.Length1
      ensures Stored(Col(m, lo, rows, k), lg) == Twist(Stored(old(Col(m, lo, rows, k)), lg), factor)
    {
      ghost var s, t := Stored(Col(m, lo, rows, k), lg), Twist(Stored(old(Col(m, lo, rows, k)), lg), factor);
      forall i | 0 <= i < rows
        ensures s[i] == t[i]
      {
        RevRev(lg, i);
        BitReversedFrom(Col(m, lo, rows, k), lg, i);
        BitReversedFrom(old(Col(m, lo, rows, k)), lg, i);
      }
    }
  }

  lemma RevInjective(lg: nat, i: nat)
    requires i < Pow2(lg)
    ensures Rev(lg, Rev(lg, i)) == i
    ensures forall p :: 0 <= p < Pow2(lg) && Rev(lg, p) == i ==> p == Rev(lg, i)
  {
    hide Rev;
    RevRev(lg, i);
    forall p | 0 <= p < Pow2(lg) && Rev(lg, p) == i
      ensures p == Rev(lg, i)
    {
      RevRev(lg, p);
    }
  }

  method ScaleRow(m: Matrix, row: nat, c: F)
    requires row < m.Length0
    modifies m
    ensures forall k :: 0 <= k < m.Length1 ==> m[row, k] == Mul(old(m[row, k]), c)
    ensures SameOutside(m, row, row + 1)
  {
    hide Mul;
    for k := 0 to m.Length1
      invariant forall j :: 0 <= j < k ==> m[row, j] == Mul(old(m[row, j]), c)
      invariant forall j :: k <= j < m.Length1 ==> m[row, j] == old(m[row, j])
      invariant SameOutside(m, row, row + 1)
    {
      m[row, k] := Mul(m[row, k], c);
    }
  }

  // ---------- Spreading a half of a section over the whole, in place ----------

  method SwapRows(m: Matrix, i: nat, j: nat)
    requires m.Length1 == 1 && i < m.Length0 && j < m.Length0
    modifies m
    ensures m[i, 0] == old(m[j, 0]) && m[j, 0] == old(m[i, 0])
    ensures forall p :: 0 <= p < m.Length0 && p != i && p != j ==> m[p, 0] == old(m[p, 0])
  {
    m[i, 0], m[j, 0] := m[j, 0], m[i, 0];
  }

  /** Entry p after entries lo to hi of s have been moved to twice their position, and the rest cleared. */
  function PartlySpread(s: seq<F>, lo: nat, hi: nat, p: int): F
    requires lo <= hi <= |s|
  {
    if p % 2 == 0 && lo <= p / 2 < hi then s[p / 2] else 0
  }

  lemma PartlySpreadUp(s: seq<F>, lo: nat, hi: nat, p: int)
    requires lo <= hi < |s|
    ensures PartlySpread(s, lo, hi + 1, p) == if p == 2 * hi then s[hi] else PartlySpread(s, lo, hi, p)
  {}

  lemma PartlySpreadEnds(s: seq<F>)
    ensures forall p :: PartlySpread(s, 0, 0, p) == 0 && PartlySpread(s, |s|, |s|, p) == 0
    ensures forall p :: 0 <= p < 2 * |s| ==> PartlySpread(s, 0, |s|, p) == Spread(s)[p]
  {}

  function Swapped(t: seq<F>, i: nat, j: nat): (r: seq<F>)
    requires i < |t| && j < |t|
    ensures |r| == |t|
  {
    t[i := t[j]][j := t[i]]
  }

  method SwapInSection(m: Matrix, start: nat, len: nat, i: nat, j: nat)
    requires m.Length1 == 1 && start + len <= m.Length0 && i < len && j < len
    modifies m
    ensures Col(m, start, len, 0) == Swapped(old(Col(m, start, len, 0)), i, j)
    ensures SameOutside(m, start, start + len)
  {
    SwapRows(m, start + i, start + j);
  }

  /** A section while its left half moves out, from the end. */
  function LeftMoved(s: seq<F>, j: nat): (r: seq<F>)
    requires j <= |s|
    ensures |r| == 2 * |s|
  {
    seq(2 * |s|, p requires 0 <= p < 2 * |s| => if p < j then s[p] else PartlySpread(s, j, |s|, p))
  }

  lemma LeftStep(s: seq<F>, j: nat)
    requires j < |s|
    ensures Swapped(LeftMoved(s, j + 1), j, 2 * j) == LeftMoved(s, j)
  {}

  method SpreadLeft(m: Matrix, start: nat, size: nat)
    requires m.Length1 == 1 && start + 2 * size <= m.Length0
    requires IsZero(Col(m, start + size, size, 0))
    modifies m
    ensures Col(m, start, 2 * size, 0) == Spread(old(Col(m, start, size, 0)))
    ensures SameOutside(m, start, start + 2 * size)
  {
    hide Spread, Swapped, LeftMoved, Col, IsZero;
    ghost var left := Col(m, start, size, 0);
    LeftStart(m, start, size);
    LeftEnd(left);
    for j := size downto 0
      invariant Col(m, start, 2 * size, 0) == LeftMoved(left, j)
      invariant SameOutside(m, start, start + 2 * size)
    {
      LeftStep(left, j);
      SwapInSection(m, start, 2 * size, j, 2 * j);
    }
  }

  lemma LeftStart(m: Matrix, start: nat, size: nat)
    requires m.Length1 == 1 && start + 2 * size <= m.Length0 && IsZero(Col(m, start + size, size, 0))
    ensures Col(m, start, 2 * size, 0) == LeftMoved(Col(m, start, size, 0), size)
  {
    var left, right := Col(m, start, size, 0), Col(m, start + size, size, 0);
    forall p | 0 <= p < 2 * size
      ensures Col(m, start, 2 * size, 0)[p] == LeftMoved(left, size)[p]
    {
      if p >= size { assert right[p - size] == 0; }
    }
  }

  lemma LeftEnd(s: seq<F>)
    ensures LeftMoved(s, 0) == Spread(s)
  {}

  /** A section while its right half moves out, from the start. */
  function RightMoved(s: seq<F>, j: nat): (r: seq<F>)
    requires j <= |s|
    ensures |r| == 2 * |s|
  {
    seq(2 * |s|, p requires 0 <= p < 2 * |s| => if p < |s| + j then PartlySpread(s, 0, j, p) else s[p - |s|])
  }

  lemma RightStep(s: seq<F>, j: nat)
    requires j < |s|
    ensures Swapped(RightMoved(s, j), |s| + j, 2 * j) == RightMoved(s, j + 1)
  {}

  lemma RightStart(m: Matrix, start: nat, size: nat)
    requires m.Length1 == 1 && start + 2 * size <= m.Length0 && IsZero(Col(m, start, size, 0))
    ensures Col(m, start, 2 * size, 0) == RightMoved(Col(m, start + size, size, 0), 0)
  {
    var left, right := Col(m, start, size, 0), Col(m, start + size, size, 0);
    forall p | 0 <= p < 2 * size
      ensures Col(m, start, 2 * size, 0)[p] == RightMoved(right, 0)[p]
    {
      if p < size { assert left[p] == 0; } else { assert right[p - size] == m[start + p, 0]; }
    }
  }

  lemma RightEnd(s: seq<F>)
    ensures RightMoved(s, |s|) == Spread(s)
  {}

  method SpreadRight(m: Matrix, start: nat, size: nat)
    requires m.Length1 == 1 && start + 2 * size <= m.Length0
    requires IsZero(Col(m, start, size, 0))
    modifies m
    ensures Col(m, start, 2 * size, 0) == Spread(old(Col(m, start + size, size, 0)))
    ensures SameOutside(m, start, start + 2 * size)
  {
    hide Spread, Swapped, RightMoved, Col, IsZero;
    ghost var right := Col(m, start + size, size, 0);
    RightStart(m, start, size);
    RightEnd(right);
    for j := 0 to size
      invariant Col(m, start, 2 * size, 0) == RightMoved(right, j)
      invariant SameOutside(m, start, start + 2 * size)
    {
      RightStep(right, j);
      SwapInSection(m, start, 2 * size, size + j, 2 * j);
    }
  }

  /** Moves a cell to the scratch column and leaves a zero. */
  method TakeCell(m: Matrix, row: nat, scratch: Matrix, to: nat)
    requires m != scratch && row < m.Length0 && m.Length1 == 1 && to < scratch.Length0 && scratch.Length1 == 1
    modifies m, scratch
    ensures scratch[to, 0] == old(m[row, 0]) && m[row, 0] == 0
    ensures forall p :: 0 <= p < scratch.Length0 && p != to ==> scratch[p, 0] == old(scratch[p, 0])
    ensures forall p :: 0 <= p < m.Length0 && p != row ==> m[p, 0] == old(m[p, 0])
  {
    scratch[to, 0] := m[row, 0];
    m[row, 0] := 0;
  }

  /** Move the right half into a fresh vector, spread out, and clear it. */
  method TakeRight(m: Matrix, start: nat, size: nat) returns (scratch: Matrix)
    requires m.Length1 == 1 && start + 2 * size <= m.Length0
    modifies m
    ensures fresh(scratch) && scratch.Length0 == 2 * size && scratch.Length1 == 1
    ensures Col(scratch, 0, 2 * size, 0) == Spread(old(Col(m, start + size, size, 0)))
    ensures IsZero(Col(m, start + size, size, 0))
    ensures SameOutside(m, start + size, start + 2 * size)
  {
    ghost var right := Col(m, start + size, size, 0);
    hide PartlySpread, Spread;
    scratch := new F[2 * size, 1]((_, _) => 0);
    PartlySpreadEnds(right);
    for j := 0 to size
      invariant forall p :: 0 <= p < 2 * size ==> scratch[p, 0] == PartlySpread(right, 0, j, p)
      invariant forall p :: start + size <= p < start + size + j ==> m[p, 0] == 0
      invariant forall p :: start + size + j <= p < start + 2 * size ==> m[p, 0] == right[p - start - size]
      invariant SameOutside(m, start + size, start + 2 * size)
    {
      TakeCell(m, start + size + j, scratch, 2 * j);
      forall p | 0 <= p < 2 * size
        ensures scratch[p, 0] == PartlySpread(right, 0, j + 1, p)
      {
        PartlySpreadUp(right, 0, j, p);
      }
    }
    assert Col(scratch, 0, 2 * size, 0) == Spread(right);
  }

  // ---------- Combining two sections ----------

  /** The pointwise product of the two transforms, transformed back. */
  lemma ProductOnDomain(left: seq<F>, right: seq<F>, lg: nat, product: seq<F>, i: nat)
    requires lg < 32 && |left| == |right| == Pow2(lg) && |product| == Pow2(lg + 1) && i < |product|
    requires product[i] == Mul(Transformed(true, Spread(left), lg + 1)[i], Transformed(true, Spread(right), lg + 1)[i])
    ensures Eval(Stored(Transformed(false, product, lg + 1), lg + 1), Domain(lg + 1)[i]) ==
            Mul(Eval(Stored(left, lg), Domain(lg + 1)[i]), Eval(Stored(right, lg), Domain(lg + 1)[i]))
  {
    hide Mul, Eval, BitReversed, Transformed, Spread, Domain;
    var x := Domain(lg + 1)[i];
    TransformInterpolates(product, lg + 1, i);
    TransformEvaluates(Spread(left), lg + 1, i);
    TransformEvaluates(Spread(right), lg + 1, i);
    SpreadPads(left, lg);
    SpreadPads(right, lg);
    EvalPad(Stored(left, lg), Zeros(|left|), x);
    EvalPad(Stored(right, lg), Zeros(|right|), x);
  }

  method MultiplySections(m: Matrix, start: nat, lg: nat, wInv: F)
    requires lg < 32 && m.Length1 == 1 && start + Pow2(lg + 1) <= m.Length0
    modifies m
    ensures forall x :: x in Domain(lg + 1) ==>
      Eval(Stored(Col(m, start, Pow2(lg + 1), 0), lg + 1), x) ==
      Mul(Eval(Stored(old(Col(m, start, Pow2(lg), 0)), lg), x),
          Eval(Twist(Stored(old(Col(m, start + Pow2(lg), Pow2(lg), 0)), lg), wInv), x))
    ensures SameOutside(m, start, start + Pow2(lg + 1))
  {
    hide Mul, Eval, Stored, Transformed, Domain, Spread, Twist, Pow2;
    var size := Pow2(lg);
    Pow2Next(lg);
    ghost var left := Col(m, start, size, 0);
    DivideRoots(m, start + size, lg, wInv);
    ghost var right := Col(m, start + size, size, 0);
    assert Col(m, start, size, 0) == left;
    var scratch := TakeRight(m, start, size);
    assert Col(m, start, size, 0) == left;
    SpreadLeft(m, start, size);
    InPlace(true, scratch, 0, lg + 1);
    InPlace(true, m, start, lg + 1);
    ghost var a, b := Col(m, start, 2 * size, 0), Col(scratch, 0, 2 * size, 0);
    MultiplyRows(m, start, scratch);
    ghost var product := Col(m, start, 2 * size, 0);
    InPlace(false, m, start, lg + 1);
    forall x | x in Domain(lg + 1)
      ensures Eval(Stored(Col(m, start, Pow2(lg + 1), 0), lg + 1), x) ==
              Mul(Eval(Stored(left, lg), x), Eval(Stored(right, lg), x))
    {
      ghost var i :| 0 <= i < Pow2(lg + 1) && Domain(lg + 1)[i] == x;
      ProductOnDomain(left, right, lg, product, i);
    }
  }

  method MultiplyRows(m: Matrix, start: nat, scratch: Matrix)
    requires m.Length1 == scratch.Length1 == 1 && m != scratch && start + scratch.Length0 <= m.Length0
    modifies m
    ensures forall i :: 0 <= i < scratch.Length0 ==>
      Col(m, start, scratch.Length0, 0)[i] ==
        Mul(old(Col(m, start, scratch.Length0, 0))[i], Col(scratch, 0, scratch.Length0, 0)[i])
    ensures SameOutside(m, start, start + scratch.Length0)
  {
    hide Mul;
    for i := 0 to scratch.Length0
      invariant forall p :: start <= p < start + i ==> m[p, 0] == Mul(old(m[p, 0]), scratch[p - start, 0])
      invariant forall p :: start + i <= p < start + scratch.Length0 ==> m[p, 0] == old(m[p, 0])
      invariant SameOutside(m, start, start + scratch.Length0)
    {
      m[start + i, 0] := Mul(m[start + i, 0], scratch[i, 0]);
    }
  }

  /** A section holds the vanishing polynomial of its part of the bitmap, or zeros when its
      part has no clear bit. */
  ghost predicate Section(f: seq<F>, bits: Bitmap, w: F, active: bool) {
    (active <==> Clear(bits) > 0) && if active then Vanishes(f, bits, w) else IsZero(f)
  }

  lemma TwistDegree(g: seq<F>, n: nat, inv: F)
    requires Degree(g, n) && inv != 0
    ensures Degree(Twist(g, inv), n)
  {
    hide Mul, Pow;
    NonZeroPow(inv, n);
    NonZeroProduct(g[n], Pow(inv, n));
    forall j | n < j < |g|
      ensures Twist(g, inv)[j] == 0
    {
      MulUnit(Pow(inv, j));
    }
  }

  /** Values on enough points pin down the product of two polynomials, and its degree. */
  lemma CombineProduct(f: seq<F>, h: seq<F>, r: seq<F>, m: nat, n: nat, points: seq<F>)
    requires Degree(f, m) && Degree(h, n) && m + n < |r| == |points| && Distinct(points)
    requires forall i :: 0 <= i < |points| ==> Eval(r, points[i]) == Mul(Eval(f, points[i]), Eval(h, points[i]))
    ensures Degree(r, m + n) && forall x: F :: Eval(r, x) == Mul(Eval(f, x), Eval(h, x))
  {
    hide Mul, Eval, Product, Distinct, Trimmed;
    var s, t := Trimmed(f, m), Trimmed(h, n);
    TrimmedSame(f, m, 0);
    TrimmedSame(h, n, 0);
    hide Degree;
    forall i | 0 <= i < |r|
      ensures Eval(r, points[i]) == Mul(Eval(s, points[i]), Eval(t, points[i]))
    {
      TrimmedSame(f, m, points[i]);
      TrimmedSame(h, n, points[i]);
    }
    ProductThroughDomain(s, t, r, points);
    ProductDegree(s, t, |r| + 1 - |s| - |t|);
    forall x: F
      ensures Eval(r, x) == Mul(Eval(f, x), Eval(h, x))
    {
      EvalPaddedProduct(s, t, |r| + 1 - |s| - |t|, x);
      TrimmedSame(f, m, x);
      TrimmedSame(h, n, x);
    }
  }

  /** Both halves active: the product on the domain is the vanishing polynomial. */
  lemma CombineBoth(f: seq<F>, g: seq<F>, r: seq<F>, a: Bitmap, b: Bitmap, w: F, inv: F, points: seq<F>)
    requires |a| == |b| && |f| == |g| && |r| == |points| && 2 * |a| < |r| && Distinct(points)
    requires Mul(w, inv) == 1 && inv != 0
    requires Vanishes(f, a, Mul(w, w)) && Vanishes(g, b, Mul(w, w))
    requires forall x :: x in points ==> Eval(r, x) == Mul(Eval(f, x), Eval(Twist(g, inv), x))
    ensures Vanishes(r, Interleave(a, b), w)
  {
    hide Mul, Eval, Product, Twist, Distinct, Interleave, Clear, Trimmed;
    var m, n, h := Clear(a), Clear(b), Twist(g, inv);
    TwistDegree(g, n, inv);
    CombineProduct(f, h, r, m, n, points);
    forall x: F
      ensures Eval(r, x) == Mul(Eval(f, x), Eval(g, Mul(inv, x)))
    {
      EvalTwist(g, inv, x);
    }
    VanishesProduct(f, g, r, a, b, w, inv);
  }

  lemma UnitVanishesNowhere(bits: Bitmap, w: F)
    requires Clear(bits) == 0
    ensures Vanishes([1], bits, w)
    ensures forall x: F :: Eval([1], x) == 1
  {
    hide Mul;
    VanishesNowhere([1], bits, w);
    forall x: F
      ensures Eval([1], x) == 1
    {
      EvalConstant(1, x);
    }
  }

  /** Only the left half active. */
  lemma CombineLeft(f: seq<F>, n: nat, a: Bitmap, b: Bitmap, w: F, inv: F)
    requires |a| == |b| && Mul(w, inv) == 1 && inv != 0
    requires Vanishes(f, a, Mul(w, w)) && Clear(b) == 0
    ensures Vanishes(f + Zeros(n), Interleave(a, b), w)
  {
    hide Mul, Eval, Interleave, Clear;
    var r := f + Zeros(n);
    UnitVanishesNowhere(b, Mul(w, w));
    forall x: F
      ensures Eval(r, x) == Mul(Eval(f, x), Eval([1], Mul(inv, x)))
    {
      EvalPad(f, Zeros(n), x);
      MulUnit(Eval(f, x));
    }
    VanishesProduct(f, [1], r, a, b, w, inv);
  }

  /** Only the right half active. */
  lemma CombineRight(g: seq<F>, n: nat, a: Bitmap, b: Bitmap, w: F, inv: F)
    requires |a| == |b| && Mul(w, inv) == 1 && inv != 0
    requires Clear(a) == 0 && Vanishes(g, b, Mul(w, w))
    ensures Vanishes(Twist(g, inv) + Zeros(n), Interleave(a, b), w)
  {
    hide Mul, Eval, Interleave, Clear, Twist;
    var h := Twist(g, inv);
    var r := h + Zeros(n);
    TwistDegree(g, Clear(b), inv);
    UnitVanishesNowhere(a, Mul(w, w));
    forall x: F
      ensures Eval(r, x) == Mul(Eval([1], x), Eval(g, Mul(inv, x)))
    {
      EvalPad(h, Zeros(n), x);
      EvalTwist(g, inv, x);
      MulUnit(Eval(r, x));
    }
    VanishesProduct([1], g, r, a, b, w, inv);
  }

  lemma BothZero(m: Matrix, start: nat, lg: nat)
    requires lg <= 32 && m.Length1 == 1 && start + Pow2(lg + 1) <= m.Length0
    requires IsZero(Col(m, start, Pow2(lg), 0)) && IsZero(Col(m, start + Pow2(lg), Pow2(lg), 0))
    ensures IsZero(Stored(Col(m, start, Pow2(lg + 1), 0), lg + 1))
  {
    hide Stored, IsZero;
    var size := Pow2(lg);
    var left, right := Col(m, start, size, 0), Col(m, start + size, size, 0);
    assert Col(m, start, 2 * size, 0) == left + right;
    ZeroAppend(left, right);
    ZeroStored(Col(m, start, 2 * size, 0), lg + 1);
  }

  /** The left section is zero, and the right one is moved to its place. */
  method OnlyRight(m: Matrix, start: nat, lg: nat, wInv: F, ghost a: Bitmap, ghost b: Bitmap, ghost w: F)
    requires 1 <= lg <= 32 && m.Length1 == 1 && start + Pow2(lg + 1) <= m.Length0
    requires |a| == |b| == Pow2(lg - 1) && Mul(w, wInv) == 1 && wInv != 0
    requires IsZero(Col(m, start, Pow2(lg), 0)) && Clear(a) == 0
    requires Vanishes(Stored(Col(m, start + Pow2(lg), Pow2(lg), 0), lg), b, Mul(w, w))
    modifies m
    ensures Vanishes(Stored(Col(m, start, Pow2(lg + 1), 0), lg + 1), Interleave(a, b), w)
    ensures SameOutside(m, start, start + Pow2(lg + 1))
  {
    hide Mul, Eval, Stored, Domain, Spread, Twist, Clear, Interleave, Vanishes, IsZero;
    var size := Pow2(lg);
    ghost var left, right := Col(m, start, size, 0), Col(m, start + size, size, 0);
    DivideRoots(m, start + size, lg, wInv);
    assert Col(m, start, size, 0) == left;
    ghost var moved := Col(m, start + size, size, 0);
    SpreadRight(m, start, size);
    SpreadPads(moved, lg);
    CombineRight(Stored(right, lg), size, a, b, w, wInv);
  }

  method CombineSections(m: Matrix, start: nat, lg: nat, hasLeft: bool, hasRight: bool, wInv: F,
                         ghost a: Bitmap, ghost b: Bitmap, ghost w: F)
    requires 1 <= lg <= 32 && (lg < 32 || !hasLeft || !hasRight)
    requires m.Length1 == 1 && start + Pow2(lg + 1) <= m.Length0
    requires |a| == |b| == Pow2(lg - 1) && Mul(w, wInv) == 1 && wInv != 0
    requires Section(Stored(Col(m, start, Pow2(lg), 0), lg), a, Mul(w, w), hasLeft)
    requires Section(Stored(Col(m, start + Pow2(lg), Pow2(lg), 0), lg), b, Mul(w, w), hasRight)
    modifies m
    ensures Section(Stored(Col(m, start, Pow2(lg + 1), 0), lg + 1), Interleave(a, b), w, hasLeft || hasRight)
    ensures SameOutside(m, start, start + Pow2(lg + 1))
  {
    hide Mul, Eval, Stored, Domain, Spread, Twist, Clear, Interleave, Vanishes, IsZero;
    var size := Pow2(lg);
    ghost var left, right := Col(m, start, size, 0), Col(m, start + size, size, 0);
    InterleaveSplits(a, b);
    ClearSplit(Interleave(a, b));
    if hasLeft && hasRight {
      MultiplySections(m, start, lg, wInv);
      DomainDistinct(lg + 1);
      CombineBoth(Stored(left, lg), Stored(right, lg), Stored(Col(m, start, 2 * size, 0), lg + 1), a, b, w, wInv,
                  Domain(lg + 1));
    } else if hasRight {
      StoredZero(left, lg);
      OnlyRight(m, start, lg, wInv, a, b, w);
    } else if hasLeft {
      StoredZero(right, lg);
      SpreadLeft(m, start, size);
      SpreadPads(left, lg);
      CombineLeft(Stored(left, lg), size, a, b, w, wInv);
    } else {
      StoredZero(left, lg);
      StoredZero(right, lg);
      BothZero(m, start, lg);
    }
  }

  lemma ZeroAppend(s: seq<F>, t: seq<F>)
    requires IsZero(s) && IsZero(t)
    ensures IsZero(s + t)
  {}

  lemma StoredZero(s: seq<F>, lg: nat)
    requires |s| == Pow2(lg) && IsZero(Stored(s, lg))
    ensures IsZero(s)
  {
    hide BitReversed, Rev;
    forall i | 0 <= i < |s|
      ensures s[i] == 0
    {
      BitReversedAt(s, lg, i);
    }
  }

  lemma ZeroStored(s: seq<F>, lg: nat)
    requires |s| == Pow2(lg) && IsZero(s)
    ensures IsZero(Stored(s, lg))
  {
    hide BitReversed, Rev;
    forall i | 0 <= i < |s|
      ensures Stored(s, lg)[i] == 0
    {
      BitReversedFrom(s, lg, i);
    }
  }

  // ---------- The parts of the bitmap ----------

  /** The bitmap split j times into even and odd positions. */
  function Parts(bits: Bitmap, j: nat): (r: seq<Bitmap>)
    ensures |r| == Pow2(j)
    decreases j
  {
    if j == 0 then [bits] else Parts(Evens(bits), j - 1) + Parts(Odds(bits), j - 1)
  }

  lemma {:induction false} PartsLength(bits: Bitmap, lg: nat, j: nat, i: nat)
    requires |bits| == Pow2(lg) && j <= lg && i < Pow2(j)
    ensures |Parts(bits, j)[i]| == Pow2(lg - j)
    decreases j
  {
    hide Evens, Odds;
    if j > 0 {
      var h := Pow2(j - 1);
      assert |Evens(bits)| == |Odds(bits)| == Pow2(lg - 1);
      if i < h { PartsLength(Evens(bits), lg - 1, j - 1, i); } else { PartsLength(Odds(bits), lg - 1, j - 1, i - h); }
    }
  }

  /** Parts 2i and 2i + 1 are the even and odd positions of part i one level up. */
  lemma {:induction false} PartsSplit(bits: Bitmap, j: nat, i: nat)
    requires i < Pow2(j)
    ensures Parts(bits, j + 1)[2 * i] == Evens(Parts(bits, j)[i])
    ensures Parts(bits, j + 1)[2 * i + 1] == Odds(Parts(bits, j)[i])
    decreases j
  {
    hide Evens, Odds;
    if j > 0 {
      var h := Pow2(j - 1);
      if i < h { PartsSplit(Evens(bits), j - 1, i); } else { PartsSplit(Odds(bits), j - 1, i - h); }
    } else {
      assert Parts(bits, 1) == Parts(Evens(bits), 0) + Parts(Odds(bits), 0);
    }
  }

  /** At the bottom, part i is bit Rev(i). */
  lemma {:induction false} PartsLeaf(bits: Bitmap, lg: nat, i: nat)
    requires |bits| == Pow2(lg) && i < Pow2(lg)
    ensures Rev(lg, i) < |bits| && Parts(bits, lg)[i] == [bits[Rev(lg, i)]]
  {
    PartsReversed(bits, lg, i);
    BitReversedFrom(bits, lg, i);
  }

  lemma {:induction false} PartsReversed(bits: Bitmap, lg: nat, i: nat)
    requires |bits| == Pow2(lg) && i < Pow2(lg)
    ensures Parts(bits, lg)[i] == [BitReversed(bits, lg)[i]]
    decreases lg
  {
    hide Evens, Odds;
    if lg > 0 {
      var h := Pow2(lg - 1);
      if i < h { PartsReversed(Evens(bits), lg - 1, i); } else { PartsReversed(Odds(bits), lg - 1, i - h); }
    }
  }

  lemma {:induction false} InterleaveParts<T>(s: seq<T>, h: nat)
    requires |s| == 2 * h
    ensures Interleave(Evens(s), Odds(s)) == s
    decreases h
  {
    if h > 0 {
      var rest := s[2..];
      InterleaveParts(rest, h - 1);
      assert s[1..][1..] == rest;
      assert Evens(s)[1..] == Evens(rest) && Odds(s)[1..] == Odds(rest);
      assert s == [s[0], s[1]] + rest;
    }
  }

  // ---------- The tree of products ----------

  function Offset(size: nat, i: nat): nat { size * i }

  lemma {:induction false} OffsetMonotone(size: nat, i: nat, j: nat)
    requires i <= j
    ensures Offset(size, i) <= Offset(size, j)
    decreases j
  {}

  lemma OffsetNext(size: nat, i: nat)
    ensures Offset(size, i + 1) == Offset(size, i) + size
    ensures Offset(size, 2 * i) == Offset(2 * size, i)
    ensures Offset(size, 2 * i + 1) == Offset(2 * size, i) + size
  {}

  /** Section i, of size coefficients. */
  function Slice(s: seq<F>, size: nat, i: nat): (r: seq<F>)
    requires Offset(size, i) + size <= |s|
    ensures |r| == size
  {
    s[Offset(size, i)..Offset(size, i) + size]
  }

  /** The vector s at the level whose sections have 2^lgSize coefficients. */
  ghost predicate SectionAt(s: seq<F>, lgSize: nat, i: nat, bits: Bitmap, w: F, active: bool) {
    Offset(Pow2(lgSize), i) + Pow2(lgSize) <= |s| && Section(Stored(Slice(s, Pow2(lgSize), i), lgSize), bits, w, active)
  }

  /** Sections lo to hi of level t, where each section covers 2^t bits. */
  ghost predicate Level(s: seq<F>, active: seq<bool>, bits: Bitmap, lg: nat, t: nat, lo: nat, hi: nat)
    requires t <= lg <= 32 && hi <= Pow2(lg - t) && hi <= |active|
  {
    forall i :: lo <= i < hi ==> SectionAt(s, t + 1, i, Parts(bits, lg - t)[i], Root(t), active[i])
  }

  /** A run of sections outside the entries that changed is kept. */
  lemma LevelSame(s: seq<F>, s': seq<F>, lo: nat, hi: nat, active: seq<bool>, bits: Bitmap, lg: nat, t: nat,
                  first: nat, end: nat)
    requires t <= lg <= 32 && first <= end <= Pow2(lg - t) && end <= |active|
    requires |s| == |s'| && forall p :: 0 <= p < |s| && !(lo <= p < hi) ==> s[p] == s'[p]
    requires Offset(Pow2(t + 1), end) <= lo || hi <= Offset(Pow2(t + 1), first)
    requires Level(s, active, bits, lg, t, first, end)
    ensures Level(s', active, bits, lg, t, first, end)
  {
    hide Parts, Root, Offset, Pow2, Section, Stored;
    var size := Pow2(t + 1);
    forall i | first <= i < end
      ensures SectionAt(s', t + 1, i, Parts(bits, lg - t)[i], Root(t), active[i])
    {
      assert SectionAt(s, t + 1, i, Parts(bits, lg - t)[i], Root(t), active[i]);
      OffsetNext(size, i);
      OffsetMonotone(size, first, i);
      OffsetMonotone(size, i + 1, end);
      assert Slice(s, size, i) == Slice(s', size, i);
    }
  }

  /** The whole vector. */
  ghost function Whole(m: Matrix): (s: seq<F>)
    requires m.Length1 == 1
    reads m
    ensures |s| == m.Length0
  {
    Col(m, 0, m.Length0, 0)
  }

  lemma RootSquared(t: nat)
    requires t < 32
    ensures Mul(Root(t + 1), Root(t + 1)) == Root(t)
  {
    hide Mul, Pow, Pow2;
    PowAdd(ROOT_OF_UNITY, Pow2(31 - t), Pow2(31 - t));
    Pow2Next(31 - t);
  }

  /** Combine each pair of sections of level t into one of level t + 1.  Two active sections need a transform of
      2^(t + 2) rows: there is none for the last pair of 2^32 rows. */
  method NextLevel(m: Matrix, active: seq<bool>, wInv: F, lg: nat, t: nat, ghost bits: Bitmap)
    returns (r: Option<seq<bool>>)
    requires t < lg <= 32 && m.Length1 == 1 && m.Length0 == Pow2(lg + 1)
    requires |bits| == |active| == Pow2(lg)
    requires Mul(Root(t + 1), wInv) == 1 && wInv != 0
    requires Pow2(lg - t) <= |active| && Level(Whole(m), active, bits, lg, t, 0, Pow2(lg - t))
    modifies m
    ensures r.None? <==> t == 31 && Clear(Evens(bits)) > 0 && Clear(Odds(bits)) > 0
    ensures r.Some? ==> |r.value| == |active| && Pow2(lg - t - 1) <= |active|
    ensures r.Some? ==> Level(Whole(m), r.value, bits, lg, t + 1, 0, Pow2(lg - t - 1))
  {
    hide Mul, Root, Parts, Clear, Section, Stored, Offset, Evens, Odds, Pow2, SectionAt;
    var count := Pow2(lg - t - 1);
    Pow2Next(lg - t - 1);
    var active' := active;
    Pow2Small();
    if t == 31 { LastPair(Whole(m), bits, active); }
    for i := 0 to count
      invariant |active'| == |active|
      invariant Level(Whole(m), active', bits, lg, t + 1, 0, i)
      invariant Level(Whole(m), active', bits, lg, t, 2 * i, 2 * count)
      invariant i == 0 ==> active' == active
      invariant t == 31 && i > 0 ==> Clear(Evens(bits)) == 0 || Clear(Odds(bits)) == 0
    {
      ghost var before := Whole(m);
      var hasLeft, hasRight := active'[2 * i], active'[2 * i + 1];
      if hasLeft && hasRight {
        var root := RootOfUnity(t + 2);
        if root.None? {
          return None;
        }
      }
      CombinePair(m, wInv, lg, t, i, hasLeft, hasRight, bits);
      PairOutside(before, Whole(m), active', bits, lg, t, i, count);
      active' := active'[i := hasLeft || hasRight];
    }
    r := Some(active');
  }

  /** The last pair of the largest tree is the even and the odd bits. */
  lemma LastPair(s: seq<F>, bits: Bitmap, active: seq<bool>)
    requires |bits| == Pow2(32) && |active| == Pow2(32) && Pow2(1) == 2 <= |active|
    requires Level(s, active, bits, 32, 31, 0, Pow2(1))
    ensures Pow2(0) == 1
    ensures active[0] <==> Clear(Evens(bits)) > 0
    ensures active[1] <==> Clear(Odds(bits)) > 0
  {
    hide Clear, Evens, Odds, Stored, Root, Offset;
    Pow2Zero();
    PartsPair(bits);
    assert SectionAt(s, 32, 0, Parts(bits, 1)[0], Root(31), active[0]);
    assert SectionAt(s, 32, 1, Parts(bits, 1)[1], Root(31), active[1]);
  }

  lemma PartsPair(bits: Bitmap)
    ensures Parts(bits, 1) == [Evens(bits), Odds(bits)]
  {
    hide Evens, Odds;
    PartsTop(Evens(bits));
    PartsTop(Odds(bits));
  }

  lemma PairOutside(s: seq<F>, s': seq<F>, active: seq<bool>, bits: Bitmap, lg: nat, t: nat, i: nat, count: nat)
    requires t < lg <= 32 && count == Pow2(lg - t - 1) && i < count && 2 * count <= |active|
    requires |s| == |s'|
    requires forall p :: 0 <= p < |s| && !(Offset(Pow2(t + 2), i) <= p < Offset(Pow2(t + 2), i + 1)) ==> s[p] == s'[p]
    requires Level(s, active, bits, lg, t + 1, 0, i)
    requires 2 * count <= Pow2(lg - t) && Level(s, active, bits, lg, t, 2 * i, 2 * count)
    ensures Level(s', active, bits, lg, t + 1, 0, i)
    ensures Level(s', active, bits, lg, t, 2 * i + 2, 2 * count)
  {
    hide Parts, Root, Offset, SectionAt;
    var lo, hi := Offset(Pow2(t + 2), i), Offset(Pow2(t + 2), i + 1);
    LevelSame(s, s', lo, hi, active, bits, lg, t + 1, 0, i);
    OffsetNext(Pow2(t + 1), i + 1);
    LevelSame(s, s', lo, hi, active, bits, lg, t, 2 * i + 2, 2 * count);
  }

  method CombinePair(m: Matrix, wInv: F, lg: nat, t: nat, i: nat, hasLeft: bool, hasRight: bool, ghost bits: Bitmap)
    requires t < lg <= 32 && m.Length1 == 1 && |bits| == Pow2(lg)
    requires i < Pow2(lg - t - 1) && 2 * i + 1 < Pow2(lg - t) && (t + 2 <= 32 || !hasLeft || !hasRight)
    requires Mul(Root(t + 1), wInv) == 1 && wInv != 0
    requires SectionAt(Whole(m), t + 1, 2 * i, Parts(bits, lg - t)[2 * i], Root(t), hasLeft)
    requires SectionAt(Whole(m), t + 1, 2 * i + 1, Parts(bits, lg - t)[2 * i + 1], Root(t), hasRight)
    modifies m
    ensures SectionAt(Whole(m), t + 2, i, Parts(bits, lg - t - 1)[i], Root(t + 1), hasLeft || hasRight)
    ensures forall p :: 0 <= p < m.Length0 && !(Offset(Pow2(t + 2), i) <= p < Offset(Pow2(t + 2), i + 1)) ==>
      Whole(m)[p] == old(Whole(m))[p]
  {
    hide Mul, Root, Parts, Clear, Stored, Offset, Evens, Odds, Pow2, Vanishes, IsZero;
    Pow2Next(t + 1);
    var size, newSize := Pow2(t + 1), Pow2(t + 2);
    var start := Offset(newSize, i);
    ghost var a, b := Parts(bits, lg - t)[2 * i], Parts(bits, lg - t)[2 * i + 1];
    OffsetNext(size, i);
    OffsetNext(newSize, i);
    assert Slice(Whole(m), size, 2 * i) == Col(m, start, size, 0);
    assert Slice(Whole(m), size, 2 * i + 1) == Col(m, start + size, size, 0);
    RootSquared(t);
    PartsLength(bits, lg, lg - t, 2 * i);
    PartsLength(bits, lg, lg - t, 2 * i + 1);
    CombineSections(m, start, t + 1, hasLeft, hasRight, wInv, a, b, Root(t + 1));
    JoinParts(bits, lg, t, i);
    assert Slice(Whole(m), newSize, i) == Col(m, start, newSize, 0);
  }

  lemma JoinParts(bits: Bitmap, lg: nat, t: nat, i: nat)
    requires t < lg && |bits| == Pow2(lg) && i < Pow2(lg - t - 1) && 2 * i + 1 < Pow2(lg - t)
    requires |Parts(bits, lg - t)[2 * i]| == |Parts(bits, lg - t)[2 * i + 1]|
    ensures Interleave(Parts(bits, lg - t)[2 * i], Parts(bits, lg - t)[2 * i + 1]) == Parts(bits, lg - t - 1)[i]
  {
    hide Parts, Interleave, Evens, Odds;
    PartsSplit(bits, lg - t - 1, i);
    PartsLength(bits, lg, lg - t - 1, i);
    InterleaveParts(Parts(bits, lg - t - 1)[i], Pow2(t));
  }

  lemma PartsTop(bits: Bitmap)
    ensures Parts(bits, 0) == [bits]
  {}

  // ---------- The bottom and the top of the tree ----------

  lemma LeafSection(s: seq<F>, bit: bool, i: nat)
    requires 2 * i + 2 <= |s|
    requires if bit then s[2 * i] == 0 && s[2 * i + 1] == 0 else s[2 * i] == MINUS_ONE && s[2 * i + 1] == 1
    ensures SectionAt(s, 1, i, [bit], Root(0), !bit)
  {
    hide Mul, Root, Vanishes;
    assert Offset(Pow2(1), i) == 2 * i;
    var r := Slice(s, Pow2(1), i);
    assert r == [s[2 * i], s[2 * i + 1]];
    StoredPair(r[0], r[1]);
    RootIsRoot(0);
    assert Clear([bit]) == if bit then 0 else 1;
    if !bit { VanishesAtOne(r); }
  }

  lemma StoredPair(x: F, y: F)
    ensures Stored([x, y], 1) == [x, y]
  {}

  method Leaves(except: Bitmap, lg: nat) returns (m: Matrix, active: seq<bool>)
    requires lg <= 32 && |except| == Pow2(lg)
    ensures fresh(m) && m.Length0 == Pow2(lg + 1) && m.Length1 == 1 && |active| == Pow2(lg)
    ensures Level(Whole(m), active, except, lg, 0, 0, Pow2(lg))
  {
    hide Root, Parts, Rev, ReverseBits, SectionAt, Pow2, Offset;
    var count := Pow2(lg);
    Pow2Next(lg);
    m := new F[2 * count, 1]((_, _) => 0);
    active := [];
    for i := 0 to count
      invariant |active| == i
      invariant forall p :: 2 * i <= p < 2 * count ==> m[p, 0] == 0
      invariant Level(Whole(m), active, except, lg, 0, 0, i)
    {
      ReverseBitsInRange(lg, i);
      var revI := ReverseBits(lg, i);
      ghost var before := Whole(m);
      if !except[revI] {
        m[2 * i, 0] := Neg(1);
        m[2 * i + 1, 0] := 1;
        active := active + [true];
      } else {
        active := active + [false];
      }
      LeafOffset(i);
      LevelSame(before, Whole(m), 2 * i, 2 * i + 2, active, except, lg, 0, 0, i);
      LeafSection(Whole(m), except[revI], i);
      PartsLeaf(except, lg, i);
    }
  }

  lemma LeafOffset(i: nat)
    ensures Offset(Pow2(1), i) == 2 * i
  {}

  /** The inverse roots by which the right halves move, from the bottom level up. */
  method InverseRoots(lg: nat) returns (r: Option<seq<F>>)
    ensures r.None? <==> lg > 32
    ensures r.Some? ==> |r.value| == lg
    ensures r.Some? ==> forall t :: 0 <= t < lg ==> Mul(Root(t + 1), r.value[t]) == 1 && r.value[t] != 0
  {
    hide Mul, Pow, Pow2, Root;
    var root := RootOfUnity(lg);
    if root.None? {
      return None;
    }
    var wInv := root.value;
    Pow2Bound(lg);
    wInv := Exp(wInv, [Pow2(lg) - 1]);
    LimbsOne(Pow2(lg) - 1);
    ghost var inv := wInv;
    PowOnce(inv);
    Pow2Zero();
    var pushed: seq<F> := [];
    for i := 0 to lg
      invariant |pushed| == i && wInv == Pow(inv, Pow2(i))
      invariant forall t :: 0 <= t < i ==> pushed[t] == Pow(inv, Pow2(t))
    {
      pushed := pushed + [wInv];
      Pow2Next(i);
      PowAdd(inv, Pow2(i), Pow2(i));
      wInv := Mul(wInv, wInv);
    }
    var out := seq(lg, t requires 0 <= t < lg => pushed[lg - 1 - t]);
    forall t | 0 <= t < lg
      ensures Mul(Root(t + 1), out[t]) == 1 && out[t] != 0
    {
      InverseRootAt(lg, t);
    }
    r := Some(out);
  }

  lemma InverseRootAt(lg: nat, t: nat)
    requires t < lg <= 32
    ensures Mul(Root(t + 1), Pow(RootInv(lg), Pow2(lg - 1 - t))) == 1
    ensures Pow(RootInv(lg), Pow2(lg - 1 - t)) != 0
  {
    hide Mul, Pow, Pow2, RootInv;
    var n := Pow2(lg - 1 - t);
    RootInvCorrect(lg);
    PowMul(ROOT_OF_UNITY, Pow2(32 - lg), n);
    Pow2Add(32 - lg, lg - 1 - t);
    MulPow(Root(lg), RootInv(lg), n);
    PowOne(n);
    MulUnit(Root(t + 1));
  }

  lemma TopSection(s: seq<F>, active: seq<bool>, bits: Bitmap, lg: nat)
    requires lg <= 32 && |s| == Pow2(lg + 1) && |active| >= 1 && 1 <= Pow2(0)
    requires Level(s, active, bits, lg, lg, 0, 1)
    ensures Section(Stored(s, lg + 1), bits, Root(lg), active[0])
  {
    hide Root, Section, Stored, Pow2;
    PartsTop(bits);
    assert SectionAt(s, lg + 1, 0, Parts(bits, 0)[0], Root(lg), active[0]);
    assert Slice(s, Pow2(lg + 1), 0) == s;
  }

  /** Dropping the odd positions of a stored polynomial keeps the lower half of its coefficients. */
  lemma TruncateStored(s: seq<F>, r: seq<F>, lg: nat)
    requires |s| == Pow2(lg + 1) && |r| == Pow2(lg) && forall p :: 0 <= p < |r| ==> r[p] == s[2 * p]
    ensures forall j :: 0 <= j < |r| ==> Stored(r, lg)[j] == Stored(s, lg + 1)[j]
  {
    hide BitReversed, Rev;
    forall j | 0 <= j < |r|
      ensures Stored(r, lg)[j] == Stored(s, lg + 1)[j]
    {
      BitReversedFrom(r, lg, j);
      BitReversedFrom(s, lg + 1, j);
      RevTop(lg + 1, false, j);
    }
  }

  lemma TruncateVanishes(f: seq<F>, g: seq<F>, bits: Bitmap, w: F)
    requires Vanishes(f, bits, w) && Clear(bits) < |g| <= |f| && forall j :: 0 <= j < |g| ==> g[j] == f[j]
    ensures Vanishes(g, bits, w)
  {
    hide Mul, Eval, RootProduct, Clear;
    var n := Clear(bits);
    var c: F :| Proportional(f, bits, w, c);
    assert Trimmed(f, n) == Trimmed(g, n);
    forall x: F
      ensures Eval(g, x) == Mul(c, RootProduct(bits, w, 1, x))
    {
      TrimmedSame(f, n, x);
      TrimmedSame(g, n, x);
    }
    assert Proportional(g, bits, w, c);
  }

  method Truncate(m: Matrix) returns (out: Matrix)
    requires m.Length1 == 1 && m.Length0 % 2 == 0
    modifies m
    ensures fresh(out) && out.Length0 == m.Length0 / 2 && out.Length1 == 1
    ensures forall p :: 0 <= p < out.Length0 ==> out[p, 0] == old(m[2 * p, 0])
  {
    var rows := m.Length0 / 2;
    for i := 0 to rows
      invariant forall p :: 0 <= p < i ==> m[p, 0] == old(m[2 * p, 0])
      invariant forall p :: 2 * i <= p < 2 * rows ==> m[p, 0] == old(m[p, 0])
    {
      SwapRows(m, i, 2 * i);
    }
    out := new F[rows, 1]((i, _) requires 0 <= i < rows reads m => m[i, 0]);
  }

  /** Some bit is set, and all the transforms exist: over 2^32 rows, one of the halves has no clear bit. */
  ghost predicate Computable(except: Bitmap)
    requires |except| > 0
  {
    Clear(except) < |except| && Log2(|except|) <= 32 &&
    (Log2(|except|) < 32 || Clear(Evens(except)) == 0 || Clear(Odds(except)) == 0)
  }

  /** The promised result: a polynomial, with as many coefficients as the bitmap has bits, that is
      zero at w^i exactly when bit i is clear, and of degree the number of clear bits. */
  method VanishingPolynomial(except: Bitmap) returns (r: Option<Matrix>)
    requires |except| > 0 && |except| == Pow2(Log2(|except|))
    ensures r.Some? <==> Computable(except)
    ensures r.Some? ==> fresh(r.value) && r.value.Length0 == |except| && r.value.Length1 == 1
    ensures r.Some? ==> Vanishes(Stored(Whole(r.value), Log2(|except|)), except, Root(Log2(|except|)))
  {
    hide Mul, Root, Parts, Clear, Section, Stored, Evens, Odds, Pow2, Vanishes, Log2, Level;
    if Clear(except) >= |except| {
      return None;
    }
    var lg := Log2(|except|);
    var roots := InverseRoots(lg);
    if roots.None? {
      return None;
    }
    var wInvs := roots.value;
    var m, active := Leaves(except, lg);
    Pow2Zero();
    Pow2Next(lg);
    for t := 0 to lg
      invariant |active| == Pow2(lg) && Pow2(lg - t) <= |active|
      invariant Level(Whole(m), active, except, lg, t, 0, Pow2(lg - t))
      invariant t == 32 ==> Clear(Evens(except)) == 0 || Clear(Odds(except)) == 0
    {
      var next := NextLevel(m, active, wInvs[t], lg, t, except);
      if next.None? {
        return None;
      }
      active := next.value;
    }
    ghost var s := Whole(m);
    TopSection(s, active, except, lg);
    TopActive(s, except, lg, active[0]);
    var out;
    if !active[0] {
      out := new F[|except|, 1]((_, _) => 0);
      out[0, 0] := 1;
      ConstantOne(Whole(out), except, lg);
    } else {
      out := Truncate(m);
      TruncateStored(s, Whole(out), lg);
      TruncateVanishes(Stored(s, lg + 1), Stored(Whole(out), lg), except, Root(lg));
    }
    r := Some(out);
  }

  lemma TopActive(s: seq<F>, bits: Bitmap, lg: nat, active: bool)
    requires lg <= 32 && |s| == Pow2(lg + 1) && Section(Stored(s, lg + 1), bits, Root(lg), active)
    ensures if active then Vanishes(Stored(s, lg + 1), bits, Root(lg)) else Clear(bits) == 0
  {}

  lemma ConstantOne(s: seq<F>, bits: Bitmap, lg: nat)
    requires lg <= 32 && |s| == Pow2(lg) && s[0] == 1 && IsZero(s[1..]) && Clear(bits) == 0
    ensures Vanishes(Stored(s, lg), bits, Root(lg))
  {
    hide BitReversed, Rev, Root;
    var f := Stored(s, lg);
    RevZero(lg);
    BitReversedFrom(s, lg, 0);
    forall j | 1 <= j < |f|
      ensures f[j] == 0
    {
      BitReversedFrom(s, lg, j);
      RevRev(lg, j);
      assert Rev(lg, j) != 0;
      assert s[Rev(lg, j)] == s[1..][Rev(lg, j) - 1];
    }
    VanishesNowhere(f, bits, Root(lg));
  }
}
