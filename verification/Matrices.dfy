/** Building matrices from a stream of elements, flattening them back, and multiplying them. */
module Matrices {
  import opened Goldilocks
  import opened Ntt
  import opened Combinations
  import Bits

  /** A vector of 64-bit elements takes at most `isize::MAX` bytes. */
  const MAX_ELEMENTS: nat := 0x0FFF_FFFF_FFFF_FFFF

  /** Otherwise making the matrix panics, because the product or the capacity overflows. */
  predicate Allocatable(rows: nat, cols: nat): (r: bool)
    ensures r <==> 8 * (rows * cols) < 0x8000_0000_0000_0000
  {
    rows * cols <= MAX_ELEMENTS
  }

  /** Entry (i, k) of a stream laid out in rows of that many columns; what is not supplied is 0. */
  function Cell(s: seq<F>, cols: nat, i: nat, k: nat): F {
    if i * cols + k < |s| then s[i * cols + k] else 0
  }

  lemma CellOrder(cols: nat, i: nat, k: nat, i': nat, k': nat)
    requires k < cols && k' < cols && (i < i' || (i == i' && k <= k'))
    ensures i * cols + k <= i' * cols + k'
  {
    if i < i' { Bits.MulGap(cols, i, i'); }
  }

  /** Before entry (i, k) in row-major order. */
  predicate Before(r: int, c: int, i: nat, k: nat) {
    r < i || (r == i && c < k)
  }

  /** Any extra data is ignored, any data not supplied is treated as 0. */
  method Init(rows: nat, cols: nat, data: seq<F>) returns (m: Matrix)
    ensures fresh(m) && m.Length0 == rows && m.Length1 == cols
    ensures forall i, k :: 0 <= i < rows && 0 <= k < cols ==> m[i, k] == Cell(data, cols, i, k)
    ensures forall i, k :: 0 <= i < rows && 0 <= k < cols ==>
      m[i, k] == if i * cols + k < |data| then data[i * cols + k] else 0
  {
    m := new F[rows, cols]((_, _) => 0);
    var next := 0;
    for i := 0 to rows
      invariant next == i * cols
      invariant forall r, c :: 0 <= r < rows && 0 <= c < cols ==> m[r, c] == if r < i then Cell(data, cols, r, c) else 0
    {
      for k := 0 to cols
        invariant next == i * cols + k
        invariant forall r, c :: 0 <= r < rows && 0 <= c < cols ==>
          m[r, c] == if Before(r, c, i, k) then Cell(data, cols, r, c) else 0
      {
        if next >= |data| {
          RestZero(data, cols, i, k);
          return;
        }
        m[i, k] := data[next];
        next := next + 1;
      }
    }
  }

  lemma RestZero(data: seq<F>, cols: nat, i: nat, k: nat)
    requires k < cols && i * cols + k >= |data|
    ensures forall r: nat, c: nat :: c < cols && !Before(r, c, i, k) ==> Cell(data, cols, r, c) == 0
  {
    forall r: nat, c: nat | c < cols && !Before(r, c, i, k)
      ensures Cell(data, cols, r, c) == 0
    {
      CellOrder(cols, i, k, r, c);
    }
  }

  /** The entries of a matrix in row-major order. */
  method Flatten(m: Matrix) returns (s: seq<F>)
    ensures |s| == m.Length0 * m.Length1
    ensures forall i, k :: 0 <= i < m.Length0 && 0 <= k < m.Length1 ==> m[i, k] == Cell(s, m.Length1, i, k)
  {
    hide Cell;
    var cols := m.Length1;
    s := [];
    for i := 0 to m.Length0
      invariant |s| == i * cols
      invariant forall r, c :: 0 <= r < i && 0 <= c < cols ==> m[r, c] == Cell(s, cols, r, c)
    {
      for k := 0 to cols
        invariant |s| == i * cols + k
        invariant forall r, c :: 0 <= r <= i && 0 <= c < cols && Before(r, c, i, k) ==> m[r, c] == Cell(s, cols, r, c)
      {
        CellAppend(s, cols, i, k, m[i, k]);
        s := s + [m[i, k]];
      }
    }
  }

  lemma CellAppend(s: seq<F>, cols: nat, i: nat, k: nat, x: F)
    requires k < cols && |s| == i * cols + k
    ensures Cell(s + [x], cols, i, k) == x
    ensures forall r: nat, c: nat :: c < cols && Before(r, c, i, k) ==> Cell(s + [x], cols, r, c) == Cell(s, cols, r, c)
  {
    forall r: nat, c: nat | c < cols && Before(r, c, i, k)
      ensures Cell(s + [x], cols, r, c) == Cell(s, cols, r, c)
    {
      if r < i { Bits.MulGap(cols, r, i); }
    }
  }

  // ---------- Products ----------

  ghost function Row(m: Matrix, i: nat): (s: seq<F>)
    requires i < m.Length0
    reads m
    ensures |s| == m.Length1 && forall k :: 0 <= k < |s| ==> s[k] == m[i, k]
  {
    seq(m.Length1, k requires 0 <= k < m.Length1 reads m => m[i, k])
  }

  ghost function Column(m: Matrix, k: nat): (s: seq<F>)
    requires k < m.Length1
    reads m
    ensures |s| == m.Length0 && forall i :: 0 <= i < |s| ==> s[i] == m[i, k]
  {
    Col(m, 0, m.Length0, k)
  }

  /** Entry (i, k) of the product is row i of the left times column k of the right. */
  method Multiply(a: Matrix, b: Matrix) returns (out: Matrix)
    requires a.Length1 == b.Length0
    ensures fresh(out) && out.Length0 == a.Length0 && out.Length1 == b.Length1
    ensures forall i, k :: 0 <= i < out.Length0 && 0 <= k < out.Length1 ==>
      out[i, k] == Dot(Row(a, i), Column(b, k), a.Length1)
  {
    hide Add, Mul, Dot;
    DotEmpty();
    out := new F[a.Length0, b.Length1]((_, _) => 0);
    for i := 0 to a.Length0
      invariant forall r, k :: 0 <= r < i && 0 <= k < b.Length1 ==> out[r, k] == Dot(Row(a, r), Column(b, k), a.Length1)
      invariant forall r, k :: i <= r < a.Length0 && 0 <= k < b.Length1 ==> out[r, k] == 0
    {
      for j := 0 to a.Length1
        invariant forall r, k :: 0 <= r < i && 0 <= k < b.Length1 ==>
          out[r, k] == Dot(Row(a, r), Column(b, k), a.Length1)
        invariant forall k :: 0 <= k < b.Length1 ==> out[i, k] == Dot(Row(a, i), Column(b, k), j)
        invariant forall r, k :: i < r < a.Length0 && 0 <= k < b.Length1 ==> out[r, k] == 0
      {
        AddScaledRow(out, i, a, b, j);
      }
    }
  }

  method AddScaledRow(out: Matrix, i: nat, a: Matrix, b: Matrix, j: nat)
    requires out != a && out != b && i < out.Length0 == a.Length0 && j < a.Length1 == b.Length0
    requires out.Length1 == b.Length1
    requires forall k :: 0 <= k < b.Length1 ==> out[i, k] == Dot(Row(a, i), Column(b, k), j)
    modifies out
    ensures forall k :: 0 <= k < b.Length1 ==> out[i, k] == Dot(Row(a, i), Column(b, k), j + 1)
    ensures SameOutside(out, i, i + 1)
  {
    hide Add, Mul, Dot;
    var c := a[i, j];
    for k := 0 to b.Length1
      invariant forall q :: 0 <= q < k ==> out[i, q] == Dot(Row(a, i), Column(b, q), j + 1)
      invariant forall q :: k <= q < b.Length1 ==> out[i, q] == Dot(Row(a, i), Column(b, q), j)
      invariant SameOutside(out, i, i + 1)
    {
      DotNext(Row(a, i), Column(b, k), j);
      out[i, k] := Add(out[i, k], Mul(c, b[j, k]));
    }
  }
}
