/** The number-theoretic transform on one column: the staged algorithm as a function of the
    column, the polynomial evaluation it performs, and its inverse. */
module Transform {
  import opened Bits
  import opened Goldilocks
  import opened FieldTheory
  import opened Polynomials

  // ---------- Bit-reversed order ----------

  /** s with entry i moved to position Rev(d, i). */
  function BitReversed<T>(s: seq<T>, d: nat): (r: seq<T>)
    requires |s| == Pow2(d)
    ensures |r| == |s|
    decreases d
  {
    if d == 0 then s else BitReversed(Evens(s), d - 1) + BitReversed(Odds(s), d - 1)
  }

  lemma {:induction false} BitReversedAt<T>(s: seq<T>, d: nat, i: nat)
    requires |s| == Pow2(d) && i < |s|
    ensures Rev(d, i) < |s| && BitReversed(s, d)[Rev(d, i)] == s[i]
    decreases d
  {
    hide Evens, Odds, Rev;
    RevBound(d, i);
    if d > 0 {
      RevStep(d, i);
      RevBound(d - 1, i / 2);
      if i % 2 == 0 {
        BitReversedAt(Evens(s), d - 1, i / 2);
      } else {
        BitReversedAt(Odds(s), d - 1, i / 2);
      }
    }
  }

  lemma BitReversedFrom<T>(s: seq<T>, d: nat, i: nat)
    requires |s| == Pow2(d) && i < |s|
    ensures Rev(d, i) < |s| && BitReversed(s, d)[i] == s[Rev(d, i)]
  {
    hide Rev, BitReversed;
    RevRev(d, i);
    BitReversedAt(s, d, Rev(d, i));
  }

  lemma BitReversedTwice<T>(s: seq<T>, d: nat)
    requires |s| == Pow2(d)
    ensures BitReversed(BitReversed(s, d), d) == s
  {
    hide Rev, BitReversed;
    forall i | 0 <= i < |s|
      ensures BitReversed(BitReversed(s, d), d)[i] == s[i]
    {
      BitReversedFrom(BitReversed(s, d), d, i);
      BitReversedAt(s, d, i);
    }
  }

  // ---------- One butterfly, and one stage ----------

  function Half(a: F): F {
    Div2Exact(a);
    Div2(a)
  }

  function Butterfly(forward: bool, a: F, b: F, wj: F): (F, F) {
    if forward then (Add(a, Mul(wj, b)), Sub(a, Mul(wj, b)))
    else (Half(Add(a, b)), Half(Mul(Sub(a, b), wj)))
  }

  lemma HalfDouble(a: F, b: F)
    requires Add(b, b) == a
    ensures Half(a) == b
  {}

  lemma HalfSum(x: F, y: F)
    ensures Add(Half(Add(x, y)), Half(Sub(x, y))) == x
    ensures Sub(Half(Add(x, y)), Half(Sub(x, y))) == y
  {
    Div2Exact(Add(x, y));
    Div2Exact(Sub(x, y));
  }

  lemma Doubled(a: F, t: F)
    ensures Add(Add(a, t), Sub(a, t)) == Add(a, a)
    ensures Sub(Add(a, t), Sub(a, t)) == Add(t, t)
  {}

  lemma ButterflyUndone(a: F, b: F, c: F, inv: F)
    requires Mul(c, inv) == 1
    ensures Butterfly(false, Butterfly(true, a, b, c).0, Butterfly(true, a, b, c).1, inv) == (a, b)
  {
    hide Mul, Add, Sub, Half;
    var t := Mul(c, b);
    Doubled(a, t);
    HalfDouble(Add(a, a), a);
    MulAdd(inv, t, t);
    MulComm(c, b); MulAssoc(b, c, inv); MulUnit(b);
    HalfDouble(Add(b, b), b);
  }

  lemma ButterflyRedone(x: F, y: F, c: F, inv: F)
    requires Mul(c, inv) == 1
    ensures Butterfly(true, Butterfly(false, x, y, inv).0, Butterfly(false, x, y, inv).1, c) == (x, y)
  {
    hide Mul, Add, Sub, Half;
    var t := Sub(x, y);
    var b := Half(Mul(t, inv));
    HalfIsHalf(Mul(t, inv));
    MulAdd(c, b, b);
    MulComm(t, inv); MulAssoc(c, inv, t); MulUnit(t);
    HalfDouble(t, Mul(c, b));
    HalfSum(x, y);
  }

  lemma HalfIsHalf(a: F)
    ensures Add(Half(a), Half(a)) == a
  {}

  /** Combine the two halves of a block of 2h entries, entry j of each half with w^j. */
  function Block(forward: bool, s: seq<F>, h: nat, w: F): (r: seq<F>)
    requires |s| == 2 * h
    ensures |r| == |s|
  {
    seq(2 * h, i requires 0 <= i < 2 * h =>
      if i < h then Butterfly(forward, s[i], s[i + h], Pow(w, i)).0
      else Butterfly(forward, s[i - h], s[i], Pow(w, i - h)).1)
  }

  lemma BlockAt(forward: bool, s: seq<F>, h: nat, w: F, j: nat)
    requires |s| == 2 * h && j < h
    ensures Block(forward, s, h, w)[j] == Butterfly(forward, s[j], s[j + h], Pow(w, j)).0
    ensures Block(forward, s, h, w)[j + h] == Butterfly(forward, s[j], s[j + h], Pow(w, j)).1
  {
    hide Butterfly, Pow;
  }

  lemma BlockUndoneAt(s: seq<F>, h: nat, w: F, inv: F, j: nat)
    requires |s| == 2 * h && j < h && Mul(w, inv) == 1
    ensures Block(false, Block(true, s, h, w), h, inv)[j] == s[j]
    ensures Block(false, Block(true, s, h, w), h, inv)[j + h] == s[j + h]
    ensures Block(true, Block(false, s, h, inv), h, w)[j] == s[j]
    ensures Block(true, Block(false, s, h, inv), h, w)[j + h] == s[j + h]
  {
    hide Mul, Pow, Butterfly, Block;
    MulPow(w, inv, j);
    PowOne(j);
    BlockAt(true, s, h, w, j);
    BlockAt(false, Block(true, s, h, w), h, inv, j);
    BlockAt(false, s, h, inv, j);
    BlockAt(true, Block(false, s, h, inv), h, w, j);
    ButterflyUndone(s[j], s[j + h], Pow(w, j), Pow(inv, j));
    ButterflyRedone(s[j], s[j + h], Pow(w, j), Pow(inv, j));
  }

  lemma BlockUndone(s: seq<F>, h: nat, w: F, inv: F)
    requires |s| == 2 * h && Mul(w, inv) == 1
    ensures Block(false, Block(true, s, h, w), h, inv) == s
    ensures Block(true, Block(false, s, h, inv), h, w) == s
  {
    hide Mul, Block;
    forall i | 0 <= i < 2 * h
      ensures Block(false, Block(true, s, h, w), h, inv)[i] == s[i]
      ensures Block(true, Block(false, s, h, inv), h, w)[i] == s[i]
    {
      BlockUndoneAt(s, h, w, inv, if i < h then i else i - h);
    }
  }

  /** Every block of a column of blocks of 2h entries. */
  function Stage(forward: bool, s: seq<F>, h: nat, w: F): (r: seq<F>)
    requires h > 0
  {
    if |s| < 2 * h then [] else Block(forward, s[..2 * h], h, w) + Stage(forward, s[2 * h..], h, w)
  }

  predicate Multiple(n: nat, m: nat)
    requires m > 0
  {
    n == 0 || (n >= m && Multiple(n - m, m))
  }

  lemma MultipleSmall(m: nat)
    requires m > 0
    ensures Multiple(0, m) && Multiple(m, m)
  {
    assert Multiple(0, m);
  }

  lemma MultipleLess(n: nat, m: nat)
    requires m > 0 && n > 0 && Multiple(n, m)
    ensures n >= m && Multiple(n - m, m)
  {}

  lemma {:induction false} MultipleSum(a: nat, b: nat, m: nat)
    requires m > 0 && Multiple(a, m) && Multiple(b, m)
    ensures Multiple(a + b, m)
    decreases a
  {
    if a > 0 { MultipleSum(a - m, b, m); }
  }

  lemma {:induction false} MultiplePow2(d: nat, t: nat)
    requires t <= d
    ensures Multiple(Pow2(d), Pow2(t))
    decreases d
  {
    if t < d {
      MultiplePow2(d - 1, t);
      MultipleSum(Pow2(d - 1), Pow2(d - 1), Pow2(t));
    } else {
      assert Multiple(0, Pow2(t));
    }
  }

  lemma {:induction false} StageLength(forward: bool, s: seq<F>, h: nat, w: F)
    requires h > 0 && Multiple(|s|, 2 * h)
    ensures |Stage(forward, s, h, w)| == |s|
    decreases |s|
  {
    if s != [] { StageLength(forward, s[2 * h..], h, w); }
  }

  lemma {:induction false} StageAppend(forward: bool, a: seq<F>, b: seq<F>, h: nat, w: F)
    requires h > 0 && Multiple(|a|, 2 * h)
    ensures Stage(forward, a + b, h, w) == Stage(forward, a, h, w) + Stage(forward, b, h, w)
    decreases |a|
  {
    hide Block;
    if a == [] {
      assert a + b == b;
    } else {
      assert (a + b)[..2 * h] == a[..2 * h];
      assert (a + b)[2 * h..] == a[2 * h..] + b;
      StageAppend(forward, a[2 * h..], b, h, w);
    }
  }

  lemma StageOne(forward: bool, s: seq<F>, h: nat, w: F)
    requires h > 0 && |s| == 2 * h
    ensures Stage(forward, s, h, w) == Block(forward, s, h, w)
  {}

  lemma {:induction false} StageUndone(s: seq<F>, h: nat, w: F, inv: F)
    requires h > 0 && Multiple(|s|, 2 * h) && Mul(w, inv) == 1
    ensures Stage(false, Stage(true, s, h, w), h, inv) == s
    ensures Stage(true, Stage(false, s, h, inv), h, w) == s
    decreases |s|
  {
    hide Mul, Block;
    if s != [] {
      var a, b := s[..2 * h], s[2 * h..];
      StageUndone(b, h, w, inv);
      BlockUndone(a, h, w, inv);
      assert Multiple(2 * h, 2 * h) by { assert Multiple(0, 2 * h); }
      StageAppend(false, Block(true, a, h, w), Stage(true, b, h, w), h, inv);
      StageAppend(true, Block(false, a, h, inv), Stage(false, b, h, inv), h, w);
      StageOne(false, Block(true, a, h, w), h, inv);
      StageOne(true, Block(false, a, h, inv), h, w);
      assert a + b == s;
    }
  }

  // ---------- All stages ----------

  /** The root of the stage that builds blocks of 2^(t+1) entries. */
  function StageRoot(w: F, d: nat, t: nat): F
    requires t < d
  {
    Pow(w, Pow2(d - 1 - t))
  }

  /** The column after the first t stages of the forward algorithm. */
  function Up(s: seq<F>, d: nat, w: F, t: nat): (r: seq<F>)
    requires |s| == Pow2(d) && t <= d
    ensures |r| == |s|
  {
    if t == 0 then s
    else
      var before := Up(s, d, w, t - 1);
      MultiplePow2(d, t);
      StageLength(true, before, Pow2(t - 1), StageRoot(w, d, t - 1));
      Stage(true, before, Pow2(t - 1), StageRoot(w, d, t - 1))
  }

  /** The column after the inverse algorithm has undone the stages from t up. */
  function Down(s: seq<F>, d: nat, inv: F, t: nat): (r: seq<F>)
    requires |s| == Pow2(d) && t <= d
    ensures |r| == |s|
    decreases d - t
  {
    if t == d then s
    else
      var before := Down(s, d, inv, t + 1);
      MultiplePow2(d, t + 1);
      StageLength(false, before, Pow2(t), StageRoot(inv, d, t));
      Stage(false, before, Pow2(t), StageRoot(inv, d, t))
  }

  lemma StageRootInverse(w: F, inv: F, d: nat, t: nat)
    requires t < d && Mul(w, inv) == 1
    ensures Mul(StageRoot(w, d, t), StageRoot(inv, d, t)) == 1
  {
    hide Mul, Pow;
    MulPow(w, inv, Pow2(d - 1 - t));
    PowOne(Pow2(d - 1 - t));
  }

  lemma {:induction false} DownUndoesUp(s: seq<F>, d: nat, w: F, inv: F, t: nat)
    requires |s| == Pow2(d) && t <= d && Mul(w, inv) == 1
    ensures Down(Up(s, d, w, d), d, inv, t) == Up(s, d, w, t)
    decreases d - t
  {
    hide Mul, Stage, StageRoot;
    if t < d {
      DownUndoesUp(s, d, w, inv, t + 1);
      StageRootInverse(w, inv, d, t);
      MultiplePow2(d, t + 1);
      StageUndone(Up(s, d, w, t), Pow2(t), StageRoot(w, d, t), StageRoot(inv, d, t));
    }
  }

  lemma {:induction false} UpUndoesDown(s: seq<F>, d: nat, w: F, inv: F, t: nat)
    requires |s| == Pow2(d) && t <= d && Mul(w, inv) == 1
    ensures Up(Down(s, d, inv, 0), d, w, t) == Down(s, d, inv, t)
    decreases t
  {
    hide Mul, Stage, StageRoot;
    if t > 0 {
      UpUndoesDown(s, d, w, inv, t - 1);
      StageRootInverse(w, inv, d, t - 1);
      MultiplePow2(d, t);
      StageUndone(Down(s, d, inv, t), Pow2(t - 1), StageRoot(w, d, t - 1), StageRoot(inv, d, t - 1));
    }
  }

  /** The inverse transform undoes the forward transform, and the other way round. */
  lemma RoundTrip(s: seq<F>, d: nat, w: F, inv: F)
    requires |s| == Pow2(d) && Mul(w, inv) == 1
    ensures Down(Up(s, d, w, d), d, inv, 0) == s
    ensures Up(Down(s, d, inv, 0), d, w, d) == s
  {
    DownUndoesUp(s, d, w, inv, 0);
    UpUndoesDown(s, d, w, inv, d);
  }

  // ---------- The recursive transform ----------

  function Forward(s: seq<F>, d: nat, w: F): (r: seq<F>)
    requires |s| == Pow2(d)
    ensures |r| == |s|
  {
    if d == 0 then s
    else
      var h := Pow2(d - 1);
      Block(true, Forward(s[..h], d - 1, Mul(w, w)) + Forward(s[h..], d - 1, Mul(w, w)), h, w)
  }

  /** Transforms of the blocks of 2^t entries of a column of 2^d. */
  function Partial(s: seq<F>, d: nat, w: F, t: nat): (r: seq<F>)
    requires |s| == Pow2(d) && t <= d
    ensures |r| == |s|
    decreases d
  {
    if t == d then Forward(s, d, w)
    else
      var h := Pow2(d - 1);
      Partial(s[..h], d - 1, Mul(w, w), t) + Partial(s[h..], d - 1, Mul(w, w), t)
  }

  lemma {:induction false} PartialStart(s: seq<F>, d: nat, w: F)
    requires |s| == Pow2(d)
    ensures Partial(s, d, w, 0) == s
    decreases d
  {
    hide Mul, Partial, Pow2;
    if d == 0 {
      PartialOne(s, w);
    } else {
      var h := Pow2(d - 1);
      Pow2Next(d - 1);
      PartialStep(s, d, w, 0);
      PartialStart(s[..h], d - 1, Mul(w, w));
      PartialStart(s[h..], d - 1, Mul(w, w));
      assert s == s[..h] + s[h..];
    }
  }

  lemma PartialOne(s: seq<F>, w: F)
    requires |s| == Pow2(0)
    ensures Partial(s, 0, w, 0) == s
  {}

  lemma PartialStep(s: seq<F>, d: nat, w: F, t: nat)
    requires |s| == Pow2(d) && t < d
    ensures var h := Pow2(d - 1);
      Partial(s, d, w, t) == Partial(s[..h], d - 1, Mul(w, w), t) + Partial(s[h..], d - 1, Mul(w, w), t)
  {}

  lemma {:induction false} PartialNext(s: seq<F>, d: nat, w: F, t: nat)
    requires |s| == Pow2(d) && t < d
    ensures Stage(true, Partial(s, d, w, t), Pow2(t), StageRoot(w, d, t)) == Partial(s, d, w, t + 1)
    decreases d
  {
    hide Mul, Stage, Block, Pow;
    var h, w2 := Pow2(d - 1), Mul(w, w);
    var a, b := Partial(s[..h], d - 1, w2, t), Partial(s[h..], d - 1, w2, t);
    if t + 1 == d {
      PowOnce(w);
      StageOne(true, a + b, h, w);
    } else {
      PowSquare(w, Pow2(d - 2 - t));
      assert StageRoot(w2, d - 1, t) == StageRoot(w, d, t);
      PartialNext(s[..h], d - 1, w2, t);
      PartialNext(s[h..], d - 1, w2, t);
      MultiplePow2(d - 1, t + 1);
      StageAppend(true, a, b, Pow2(t), StageRoot(w, d, t));
    }
  }

  /** The stages, run from the bottom up, compute the recursive transform. */
  lemma {:induction false} UpIsPartial(s: seq<F>, d: nat, w: F, t: nat)
    requires |s| == Pow2(d) && t <= d
    ensures Up(s, d, w, t) == Partial(s, d, w, t)
    decreases t
  {
    hide Mul, Stage, StageRoot;
    if t == 0 {
      PartialStart(s, d, w);
    } else {
      UpIsPartial(s, d, w, t - 1);
      PartialNext(s, d, w, t - 1);
    }
  }

  // ---------- The transform evaluates ----------

  lemma NegatedPoint(w: F, d: nat, j: nat)
    requires d > 0 && IsRoot(w, d)
    ensures Pow(w, j + Pow2(d - 1)) == Neg(Pow(w, j))
    ensures Mul(Neg(Pow(w, j)), Neg(Pow(w, j))) == Mul(Pow(w, j), Pow(w, j))
  {
    hide Mul, Pow, Neg;
    var y := Pow(w, j);
    PowAdd(w, Pow2(d - 1), j);
    MinusOneSquared();
    MulSwap(MINUS_ONE, y, MINUS_ONE, y);
    MulUnit(Mul(y, y));
  }

  lemma AddNegated(a: F, b: F)
    ensures Add(a, Neg(b)) == Sub(a, b)
  {}

  /** One butterfly turns the values of the two halves at (w^2)^j into values at w^j and -w^j. */
  lemma ButterflyEvaluates(f: seq<F>, d: nat, w: F, j: nat)
    requires d > 0 && IsRoot(w, d)
    ensures Butterfly(true, Eval(Evens(f), Pow(Mul(w, w), j)), Eval(Odds(f), Pow(Mul(w, w), j)), Pow(w, j)) ==
            (Eval(f, Pow(w, j)), Eval(f, Pow(w, j + Pow2(d - 1))))
  {
    hide Mul, Add, Sub, Neg, IsRoot, Pow, Eval, Evens, Odds;
    var y := Pow(w, j);
    var e, o := Eval(Evens(f), Mul(y, y)), Eval(Odds(f), Mul(y, y));
    PowSquare(w, j);
    PowAdd(w, j, j);
    EvalSplit(f, y);
    NegatedPoint(w, d, j);
    EvalSplit(f, Neg(y));
    MulNeg(y, o);
    AddNegated(e, Mul(y, o));
  }

  /** On bit-reversed coefficients, entry i of the recursive transform is f(w^i). */
  lemma {:induction false} ForwardEvaluates(f: seq<F>, d: nat, w: F, i: nat)
    requires |f| == Pow2(d) && IsRoot(w, d) && i < |f|
    ensures Forward(BitReversed(f, d), d, w)[i] == Eval(f, Pow(w, i))
    decreases d
  {
    hide Mul, IsRoot, Pow, Eval, Butterfly, Evens, Odds, Block, BitReversed;
    BitReversedHalves(f, d);
    if d == 0 {
      EvalConstant(f[0], Pow(w, i));
      assert f == [f[0]];
    } else {
      var h, w2 := Pow2(d - 1), Mul(w, w);
      var j := if i < h then i else i - h;
      RootProperties(w, d);
      ForwardEvaluates(Evens(f), d - 1, w2, j);
      ForwardEvaluates(Odds(f), d - 1, w2, j);
      ButterflyEvaluates(f, d, w, j);
      var a, b := Forward(BitReversed(Evens(f), d - 1), d - 1, w2), Forward(BitReversed(Odds(f), d - 1), d - 1, w2);
      BlockAt(true, a + b, h, w, j);
    }
  }

  lemma BitReversedHalves<T>(s: seq<T>, d: nat)
    requires |s| == Pow2(d)
    ensures d == 0 ==> BitReversed(s, d) == s
    ensures d > 0 ==> BitReversed(s, d)[..Pow2(d - 1)] == BitReversed(Evens(s), d - 1)
    ensures d > 0 ==> BitReversed(s, d)[Pow2(d - 1)..] == BitReversed(Odds(s), d - 1)
  {}

  /** The forward algorithm evaluates the polynomial at every power of the root. */
  lemma UpEvaluates(f: seq<F>, d: nat, w: F, i: nat)
    requires |f| == Pow2(d) && IsRoot(w, d) && i < |f|
    ensures Up(BitReversed(f, d), d, w, d)[i] == Eval(f, Pow(w, i))
  {
    hide Up, Partial, IsRoot;
    UpIsPartial(BitReversed(f, d), d, w, d);
    PartialEnd(BitReversed(f, d), d, w);
    ForwardEvaluates(f, d, w, i);
  }

  lemma PartialEnd(s: seq<F>, d: nat, w: F)
    requires |s| == Pow2(d)
    ensures Partial(s, d, w, d) == Forward(s, d, w)
  {}
}
