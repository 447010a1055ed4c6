/** The in-place transform of the rows of a matrix, column by column.

    A matrix is an `array2`.  The transform works on a window of rows, `lo` to `lo + 2^lg`:
    a whole matrix is the window at 0, and a slice of a longer vector is a window of a
    one-column matrix. */
module Ntt {
  import opened Bits
  import opened Goldilocks
  import opened FieldTheory
  import opened Polynomials
  import opened Transform
  import Algebra

  type Matrix = array2<F>

  /** Rows lo to lo + n of column k. */
  ghost function Col(m: Matrix, lo: nat, n: nat, k: nat): (s: seq<F>)
    requires lo + n <= m.Length0 && k < m.Length1
    reads m
    ensures |s| == n && forall i :: 0 <= i < n ==> s[i] == m[lo + i, k]
  {
    seq(n, i requires 0 <= i < n reads m => m[lo + i, k])
  }

  /** Apart from rows lo to hi, nothing changed. */
  twostate predicate SameOutside(m: Matrix, lo: nat, hi: nat)
    reads m
  {
    forall i, k :: 0 <= i < m.Length0 && 0 <= k < m.Length1 && !(lo <= i < hi) ==> m[i, k] == old(m[i, k])
  }

  /** `w^(2^lg - 1)`, the inverse of the 2^lg-th root. */
  function RootInv(lg: nat): F
    requires lg <= 32
  {
    Pow(Root(lg), Pow2(lg) - 1)
  }

  lemma RootInvCorrect(lg: nat)
    requires lg <= 32
    ensures Mul(Root(lg), RootInv(lg)) == 1
  {
    hide Mul, Pow, IsRoot, Root;
    RootIsRoot(lg);
    RootProperties(Root(lg), lg);
    PowAdd(Root(lg), 1, Pow2(lg) - 1);
    PowOnce(Root(lg));
  }

  /** What the transform does to a column. */
  ghost function Transformed(forward: bool, s: seq<F>, lg: nat): (r: seq<F>)
    requires lg <= 32 && |s| == Pow2(lg)
    ensures |r| == |s|
  {
    if forward then Up(s, lg, Root(lg), lg) else Down(s, lg, RootInv(lg), 0)
  }

  /** The powers of the 2^lg-th root of unity. */
  function Domain(lg: nat): (s: seq<F>)
    requires lg <= 32
    ensures |s| == Pow2(lg)
    ensures forall i :: 0 <= i < |s| ==> s[i] == Pow(Root(lg), i)
  {
    seq(Pow2(lg), i requires 0 <= i < Pow2(lg) => Pow(Root(lg), i))
  }

  lemma DomainDistinct(lg: nat)
    requires lg <= 32
    ensures Distinct(Domain(lg))
  {
    hide Pow, Root, IsRoot;
    RootIsRoot(lg);
    forall i, j | 0 <= i < j < |Domain(lg)|
      ensures Domain(lg)[i] != Domain(lg)[j]
    {
      RootPowersDistinct(Root(lg), lg, i, j);
    }
  }

  /** The forward transform evaluates the stored polynomial over the domain. */
  lemma TransformEvaluates(s: seq<F>, lg: nat, i: nat)
    requires lg <= 32 && |s| == Pow2(lg) && i < |s|
    ensures Transformed(true, s, lg)[i] == Eval(BitReversed(s, lg), Domain(lg)[i])
  {
    hide Pow, Root, IsRoot, BitReversed, Up, Eval;
    RootIsRoot(lg);
    BitReversedTwice(s, lg);
    UpEvaluates(BitReversed(s, lg), lg, Root(lg), i);
  }

  /** The inverse transform stores the polynomial with the given values over the domain. */
  lemma TransformInterpolates(s: seq<F>, lg: nat, i: nat)
    requires lg <= 32 && |s| == Pow2(lg) && i < |s|
    ensures Eval(BitReversed(Transformed(false, s, lg), lg), Domain(lg)[i]) == s[i]
  {
    hide Mul, Pow, Root, RootInv, BitReversed, Up, Down, Eval;
    RootInvCorrect(lg);
    RoundTrip(s, lg, Root(lg), RootInv(lg));
    TransformEvaluates(Transformed(false, s, lg), lg, i);
  }

  /** Each direction of the transform undoes the other, on every column. */
  lemma TransformRoundTrip(s: seq<F>, lg: nat)
    requires lg <= 32 && |s| == Pow2(lg)
    ensures Transformed(false, Transformed(true, s, lg), lg) == s
    ensures Transformed(true, Transformed(false, s, lg), lg) == s
  {
    hide Mul, Root, RootInv, Up, Down;
    RootInvCorrect(lg);
    RoundTrip(s, lg, Root(lg), RootInv(lg));
  }

  method ButterflyRows(forward: bool, m: Matrix, a: nat, b: nat, wj: F)
    requires a < m.Length0 && b < m.Length0 && a != b
    modifies m
    ensures forall k :: 0 <= k < m.Length1 ==> m[a, k] == Butterfly(forward, old(m[a, k]), old(m[b, k]), wj).0
    ensures forall k :: 0 <= k < m.Length1 ==> m[b, k] == Butterfly(forward, old(m[a, k]), old(m[b, k]), wj).1
    ensures forall i, k :: 0 <= i < m.Length0 && 0 <= k < m.Length1 && i != a && i != b ==> m[i, k] == old(m[i, k])
  {
    hide Mul, Add, Sub, Half;
    for k := 0 to m.Length1
      invariant forall c :: 0 <= c < k ==> m[a, c] == Butterfly(forward, old(m[a, c]), old(m[b, c]), wj).0
      invariant forall c :: 0 <= c < k ==> m[b, c] == Butterfly(forward, old(m[a, c]), old(m[b, c]), wj).1
      invariant forall c :: k <= c < m.Length1 ==> m[a, c] == old(m[a, c]) && m[b, c] == old(m[b, c])
      invariant forall i, c :: 0 <= i < m.Length0 && 0 <= c < m.Length1 && i != a && i != b ==> m[i, c] == old(m[i, c])
    {
      var x, y := m[a, k], m[b, k];
      if forward {
        m[a, k] := Add(x, Mul(wj, y));
        m[b, k] := Sub(x, Mul(wj, y));
      } else {
        m[a, k] := Half(Add(x, y));
        m[b, k] := Half(Mul(Sub(x, y), wj));
      }
    }
  }

  /** Butterflies of the rows of a block, cell by cell. */
  method BlockRows(forward: bool, m: Matrix, lo: nat, skip: nat, w: F)
    requires lo + 2 * skip <= m.Length0
    modifies m
    ensures forall r, k :: lo <= r < lo + skip && 0 <= k < m.Length1 ==>
                             m[r, k] == Butterfly(forward, old(m[r, k]), old(m[r + skip, k]), Pow(w, r - lo)).0
    ensures forall r, k :: lo + skip <= r < lo + 2 * skip && 0 <= k < m.Length1 ==>
                             m[r, k] == Butterfly(forward, old(m[r - skip, k]), old(m[r, k]), Pow(w, r - skip - lo)).1
    ensures SameOutside(m, lo, lo + 2 * skip)
  {
    hide Mul, Pow, Butterfly;
    var wj: F := 1;
    PowOnce(w);
    for j := 0 to skip
      invariant wj == Pow(w, j)
      invariant forall r, k :: lo <= r < lo + j && 0 <= k < m.Length1 ==>
        m[r, k] == Butterfly(forward, old(m[r, k]), old(m[r + skip, k]), Pow(w, r - lo)).0
      invariant forall r, k :: lo + skip <= r < lo + skip + j && 0 <= k < m.Length1 ==>
        m[r, k] == Butterfly(forward, old(m[r - skip, k]), old(m[r, k]), Pow(w, r - skip - lo)).1
      invariant forall r, k :: 0 <= r < m.Length0 && 0 <= k < m.Length1 &&
                               !(lo <= r < lo + j) && !(lo + skip <= r < lo + skip + j) ==>
        m[r, k] == old(m[r, k])
    {
      ButterflyRows(forward, m, lo + j, lo + j + skip, wj);
      PowNext(w, j);
      wj := Mul(wj, w);
    }
  }

  lemma BlockFromCells(forward: bool, before: seq<F>, after: seq<F>, skip: nat, w: F)
    requires |before| == |after| == 2 * skip
    requires forall i :: 0 <= i < skip ==> after[i] == Butterfly(forward, before[i], before[i + skip], Pow(w, i)).0
    requires forall i :: skip <= i < 2 * skip ==>
      after[i] == Butterfly(forward, before[i - skip], before[i], Pow(w, i - skip)).1
    ensures after == Block(forward, before, skip, w)
  {}

  method BlockPass(forward: bool, m: Matrix, lo: nat, skip: nat, w: F)
    requires lo + 2 * skip <= m.Length0
    modifies m
    ensures forall k :: 0 <= k < m.Length1 ==>
      Col(m, lo, 2 * skip, k) == Block(forward, old(Col(m, lo, 2 * skip, k)), skip, w)
    ensures SameOutside(m, lo, lo + 2 * skip)
  {
    hide Pow, Butterfly, Block, SameOutside;
    BlockRows(forward, m, lo, skip, w);
    forall k | 0 <= k < m.Length1
      ensures Col(m, lo, 2 * skip, k) == Block(forward, old(Col(m, lo, 2 * skip, k)), skip, w)
    {
      ghost var before, after := old(Col(m, lo, 2 * skip, k)), Col(m, lo, 2 * skip, k);
      forall i | 0 <= i < skip
        ensures after[i] == Butterfly(forward, before[i], before[i + skip], Pow(w, i)).0
      {
        ghost var r := lo + i;
        assert m[r, k] == Butterfly(forward, old(m[r, k]), old(m[r + skip, k]), Pow(w, r - lo)).0;
      }
      forall i | skip <= i < 2 * skip
        ensures after[i] == Butterfly(forward, before[i - skip], before[i], Pow(w, i - skip)).1
      {
        ghost var r := lo + i;
        assert m[r, k] == Butterfly(forward, old(m[r - skip, k]), old(m[r, k]), Pow(w, r - skip - lo)).1;
      }
      BlockFromCells(forward, before, after, skip, w);
    }
  }

  /** A block that follows the first i rows. */
  method NextBlock(forward: bool, m: Matrix, lo: nat, i: nat, skip: nat, w: F)
    requires skip > 0 && lo + i + 2 * skip <= m.Length0
    modifies m
    ensures forall k :: 0 <= k < m.Length1 ==>
      Col(m, lo, i + 2 * skip, k) == old(Col(m, lo, i, k)) + Block(forward, old(Col(m, lo + i, 2 * skip, k)), skip, w)
    ensures SameOutside(m, lo + i, lo + i + 2 * skip)
  {
    hide Block;
    BlockPass(forward, m, lo + i, skip, w);
    forall k | 0 <= k < m.Length1
      ensures Col(m, lo, i + 2 * skip, k) == old(Col(m, lo, i, k)) + Col(m, lo + i, 2 * skip, k)
    {}
  }

  method StagePass(forward: bool, m: Matrix, lo: nat, rows: nat, skip: nat, w: F)
    requires skip > 0 && Multiple(rows, 2 * skip) && lo + rows <= m.Length0
    modifies m
    ensures forall k :: 0 <= k < m.Length1 ==> Col(m, lo, rows, k) == Stage(forward, old(Col(m, lo, rows, k)), skip, w)
    ensures SameOutside(m, lo, lo + rows)
  {
    hide Block, Stage, Multiple;
    var i := 0;
    MultipleSmall(2 * skip);
    StageEmpty(forward, skip, w);
    while i < rows
      invariant i <= rows && Multiple(i, 2 * skip) && Multiple(rows - i, 2 * skip)
      invariant forall k :: 0 <= k < m.Length1 ==> Col(m, lo, i, k) == Stage(forward, old(Col(m, lo, i, k)), skip, w)
      invariant SameOutside(m, lo, lo + i)
    {
      label Before:
      var next := i + 2 * skip;
      MultipleSum(i, 2 * skip, 2 * skip);
      MultipleLess(rows - i, 2 * skip);
      NextBlock(forward, m, lo, i, skip, w);
      forall k | 0 <= k < m.Length1
        ensures Col(m, lo, next, k) == Stage(forward, old(Col(m, lo, next, k)), skip, w)
      {
        ghost var a, b := old(Col(m, lo, i, k)), old(Col(m, lo + i, 2 * skip, k));
        assert old(Col(m, lo, next, k)) == a + b;
        assert old@Before(Col(m, lo + i, 2 * skip, k)) == b;
        StageAppend(forward, a, b, skip, w);
        StageOne(forward, b, skip, w);
      }
      i := next;
    }
  }

  lemma StageEmpty(forward: bool, h: nat, w: F)
    requires h > 0
    ensures Stage(forward, [], h, w) == []
  {}

  /** The stages in the order they run, each with its root. */
  method Stages(forward: bool, lg: nat, w: F) returns (stages: seq<(nat, F)>)
    ensures |stages| == lg
    ensures forward ==> forall t :: 0 <= t < lg ==> stages[t] == (t, StageRoot(w, lg, t))
    ensures !forward ==> forall t :: 0 <= t < lg ==> stages[t] == (lg - 1 - t, StageRoot(w, lg, lg - 1 - t))
  {
    hide Mul, Pow, Pow2;
    var zero: F := 0;
    var out := seq(lg, _ => (0, zero));
    var wi := w;
    PowOnce(w);
    Pow2Zero();
    for i := lg downto 0
      invariant |out| == lg
      invariant wi == Pow(w, Pow2(lg - i))
      invariant forall t :: i <= t < lg ==> out[t] == (t, StageRoot(w, lg, t))
    {
      out := out[i := (i, wi)];
      Pow2Next(lg - 1 - i);
      PowAdd(w, Pow2(lg - 1 - i), Pow2(lg - 1 - i));
      wi := Mul(wi, wi);
    }
    stages := if forward then out else seq(lg, t requires 0 <= t < lg => out[lg - 1 - t]);
  }

  /** The transform, in place, of the window of 2^lg rows at lo. */
  method InPlace(forward: bool, m: Matrix, lo: nat, lg: nat)
    requires lg <= 32 && lo + Pow2(lg) <= m.Length0
    modifies m
    ensures forall k :: 0 <= k < m.Length1 ==>
      Col(m, lo, Pow2(lg), k) == Transformed(forward, old(Col(m, lo, Pow2(lg), k)), lg)
    ensures SameOutside(m, lo, lo + Pow2(lg))
  {
    hide Mul, Pow, Pow2, Up, Down, Stage, StageRoot, Root;
    var rows := Pow2(lg);
    var root := RootOfUnity(lg);
    var w := root.value;
    if !forward {
      Pow2Bound(lg);
      w := Exp(w, [rows - 1]);
      LimbsOne(rows - 1);
    }
    var stages := Stages(forward, lg, w);
    UpDownStart(m, lo, lg, w);
    for n := 0 to lg
      invariant forward ==> forall k :: 0 <= k < m.Length1 ==>
        Col(m, lo, rows, k) == Up(old(Col(m, lo, rows, k)), lg, w, n)
      invariant !forward ==> forall k :: 0 <= k < m.Length1 ==>
        Col(m, lo, rows, k) == Down(old(Col(m, lo, rows, k)), lg, w, lg - n)
      invariant SameOutside(m, lo, lo + rows)
    {
      label Before:
      var (stage, ws) := stages[n];
      MultiplePow2(lg, stage + 1);
      Pow2Next(stage);
      StagePass(forward, m, lo, rows, Pow2(stage), ws);
      forall k | 0 <= k < m.Length1
        ensures forward ==> Col(m, lo, rows, k) == Up(old(Col(m, lo, rows, k)), lg, w, n + 1)
        ensures !forward ==> Col(m, lo, rows, k) == Down(old(Col(m, lo, rows, k)), lg, w, lg - n - 1)
      {
        StepUpDown(old(Col(m, lo, rows, k)), lg, w, stage);
      }
    }
  }

  lemma Pow2Bound(lg: nat)
    requires lg <= 32
    ensures Pow2(lg) < WORD
  {
    hide Pow2;
    Pow2Monotone(lg, 32);
    Pow2Values();
  }

  lemma LimbsOne(x: U64)
    ensures Algebra.LimbsValue([x]) == x
  {}

  lemma UpDownStart(m: Matrix, lo: nat, lg: nat, w: F)
    requires lo + Pow2(lg) <= m.Length0
    ensures forall k :: 0 <= k < m.Length1 ==>
      Col(m, lo, Pow2(lg), k) == Up(Col(m, lo, Pow2(lg), k), lg, w, 0) == Down(Col(m, lo, Pow2(lg), k), lg, w, lg)
  {}

  lemma StepUpDown(s: seq<F>, lg: nat, w: F, t: nat)
    requires |s| == Pow2(lg) && t < lg
    ensures Up(s, lg, w, t + 1) == Stage(true, Up(s, lg, w, t), Pow2(t), StageRoot(w, lg, t))
    ensures Down(s, lg, w, t) == Stage(false, Down(s, lg, w, t + 1), Pow2(t), StageRoot(w, lg, t))
  {}
}
