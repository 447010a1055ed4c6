/** The prime field of 64-bit elements, P = 2^64 - 2^32 + 1.

    `Add`, `Sub`, `Neg` and `Mul` are arithmetic in Z/P.  The `...Inner` and `Reduce...`
    functions follow the machine arithmetic on wrapping 64- and 128-bit words, and are
    related to Z/P here. */
module Goldilocks {
  const P: int := 0xFFFF_FFFF_0000_0001
  const WORD: int := 0x1_0000_0000_0000_0000

  type F = x: int | 0 <= x < P
  type U64 = x: int | 0 <= x < WORD
  type U128 = x: int | 0 <= x < 0x1_0000_0000_0000_0000_0000_0000_0000_0000

  // ---------- Arithmetic in Z/P ----------

  /** The residue of an integer. */
  function Z(n: int): F { n % P }

  function Add(a: F, b: F): F {
    if a + b < P then a + b else a + b - P
  }

  function Sub(a: F, b: F): F {
    if a >= b then a - b else a - b + P
  }

  function Neg(a: F): F { Sub(0, a) }

  /** The b-fold sum of a.  `MulIsMod` gives the closed form. */
  function Mul(a: F, b: F): F
    decreases b
  {
    if b == 0 then 0 else Add(a, Mul(a, b - 1))
  }

  lemma ZId(a: F)
    ensures Z(a) == a
  {}

  lemma ModAddMultiple(a: int, k: int)
    ensures (a + k * P) % P == a % P
  {}

  lemma AddResidue(a: F, m: int)
    ensures Add(a, m % P) == (m + a) % P
  {}

  lemma {:induction false} MulIsMod(a: F, b: F)
    ensures Mul(a, b) == (a * b) % P
    decreases b
  {
    if b > 0 {
      MulIsMod(a, b - 1);
      AddResidue(a, a * (b - 1));
      assert a * b == a * (b - 1) + a;
    }
  }

  // Taking residues is a ring homomorphism from the integers.

  lemma ZAdd(m: int, n: int)
    ensures Add(Z(m), Z(n)) == Z(m + n)
  {}

  lemma ZSub(m: int, n: int)
    ensures Sub(Z(m), Z(n)) == Z(m - n)
  {}

  lemma ZMul(m: int, n: int)
    ensures Mul(Z(m), Z(n)) == Z(m * n)
  {
    hide Mul;
    MulIsMod(Z(m), Z(n));
    var a, b, r, s := m / P, n / P, m % P, n % P;
    assert m * n == r * s + (a * s + b * r + a * b * P) * P by {
      assert m == r + a * P && n == s + b * P;
    }
    ModAddMultiple(r * s, a * s + b * r + a * b * P);
  }

  lemma AddComm(a: F, b: F)
    ensures Add(a, b) == Add(b, a)
  {}

  lemma AddAssoc(a: F, b: F, c: F)
    ensures Add(Add(a, b), c) == Add(a, Add(b, c))
  {}

  lemma AddCancel(a: F, b: F)
    ensures Sub(Add(a, b), b) == a && Add(Sub(a, b), b) == a
    ensures Sub(a, b) == 0 <==> a == b
  {}

  lemma MulComm(a: F, b: F)
    ensures Mul(a, b) == Mul(b, a)
  {
    hide Mul;
    MulIsMod(a, b);
    MulIsMod(b, a);
  }

  lemma MulAssoc(a: F, b: F, c: F)
    ensures Mul(Mul(a, b), c) == Mul(a, Mul(b, c))
  {
    hide Mul, Z;
    ZId(a); ZId(b); ZId(c);
    ZMul(a, b); ZMul(b, c);
    ZMul(a * b, c); ZMul(a, b * c);
    assert (a * b) * c == a * (b * c);
  }

  lemma MulUnit(a: F)
    ensures Mul(1, a) == Mul(a, 1) == a
    ensures Mul(0, a) == Mul(a, 0) == 0
  {}

  lemma MulAdd(a: F, b: F, c: F)
    ensures Mul(a, Add(b, c)) == Add(Mul(a, b), Mul(a, c))
    ensures Mul(Add(b, c), a) == Add(Mul(b, a), Mul(c, a))
  {
    hide Mul, Add, Z;
    ZId(a); ZId(b); ZId(c);
    MulComm(a, Add(b, c)); MulComm(a, b); MulComm(a, c);
    ZAdd(b, c); ZMul(a, b + c); ZMul(a, b); ZMul(a, c); ZAdd(a * b, a * c);
    assert a * (b + c) == a * b + a * c;
  }

  lemma MulSub(a: F, b: F, c: F)
    ensures Mul(a, Sub(b, c)) == Sub(Mul(a, b), Mul(a, c))
    ensures Mul(Sub(b, c), a) == Sub(Mul(b, a), Mul(c, a))
  {
    hide Mul, Sub, Z;
    ZId(a); ZId(b); ZId(c);
    MulComm(a, Sub(b, c)); MulComm(a, b); MulComm(a, c);
    ZSub(b, c); ZMul(a, b - c); ZMul(a, b); ZMul(a, c); ZSub(a * b, a * c);
    assert a * (b - c) == a * b - a * c;
  }

  lemma MulNeg(a: F, b: F)
    ensures Mul(a, Neg(b)) == Mul(Neg(a), b) == Neg(Mul(a, b))
  {
    hide Mul, Sub;
    MulSub(a, 0, b); MulSub(b, 0, a);
    MulUnit(a); MulUnit(b);
  }

  /** (ab)(cd) = (ac)(bd) */
  lemma MulSwap(a: F, b: F, c: F, d: F)
    ensures Mul(Mul(a, b), Mul(c, d)) == Mul(Mul(a, c), Mul(b, d))
  {
    hide Mul;
    MulAssoc(a, b, Mul(c, d)); MulAssoc(b, c, d);
    MulComm(b, c);
    MulAssoc(c, b, d); MulAssoc(a, c, Mul(b, d));
  }

  // ---------- Machine arithmetic ----------

  function OverflowingAdd(a: U64, b: U64): (U64, bool) {
    if a + b < WORD then (a + b, false) else (a + b - WORD, true)
  }

  function OverflowingSub(a: U64, b: U64): (U64, bool) {
    if a >= b then (a - b, false) else (a - b + WORD, true)
  }

  function AddInner(a: U64, b: U64): U64 {
    var (addition, overflow) := OverflowingAdd(a, b);
    var (subtraction, underflow) := OverflowingSub(addition, P);
    if overflow || !underflow then subtraction else addition
  }

  function SubInner(a: U64, b: U64): U64 {
    var (subtraction, underflow) := OverflowingSub(a, b);
    if underflow then OverflowingAdd(subtraction, P).0 else subtraction
  }

  function Reduce64(x: U64): U64 {
    var (subtraction, underflow) := OverflowingSub(x, P);
    if underflow then x else subtraction
  }

  function Reduce128(x: U128): U64 {
    var a: U64 := x % WORD;
    var b := (x / WORD) % 0x1_0000_0000;
    var c := x / (WORD * 0x1_0000_0000);
    AddInner(SubInner(a, c), b * 0x1_0000_0000 - b)
  }

  function MulInner(a: U64, b: U64): U64 {
    ProductFits(a, b);
    Reduce128(a * b)
  }

  lemma MulMonotone(a: nat, b: nat, c: nat)
    requires b <= c
    ensures 0 <= a * b <= a * c
  {}

  lemma ProductFits(a: U64, b: U64)
    ensures 0 <= a * b < WORD * WORD
  {
    MulMonotone(a, b, WORD - 1);
    MulMonotone(WORD - 1, a, WORD - 1);
  }

  function Div2(a: U64): U64 {
    if a % 2 == 0 then a / 2
    else
      var (addition, carry) := OverflowingAdd(a, P);
      (if carry then 0x8000_0000_0000_0000 else 0) + addition / 2
  }

  lemma ReduceOnce(x: U64)
    ensures Reduce64(x) == Z(x)
  {}

  /** Adding two words reduces their sum exactly when the sum is below 2P: one subtraction
      is not enough for two arbitrary 64-bit words. */
  lemma AddInnerExact(a: U64, b: U64)
    ensures AddInner(a, b) == Z(a + b) <==> a + b < 2 * P
  {}

  lemma AddInnerNotReduced()
    ensures AddInner(WORD - 1, WORD - 1) != Z(2 * (WORD - 1))
  {}

  lemma SubInnerExact(a: F, b: F)
    ensures SubInner(a, b) == Sub(a, b)
  {}

  /** 2^64 = P + 2^32 - 1 and 2^96 = (2^32 + 1) P - 1. */
  lemma FoldWords(a: int, b: int, c: int)
    ensures a + b * WORD + c * (WORD * 0x1_0000_0000) ==
            (a - c + b * 0x1_0000_0000 - b) + (b + c * 0x1_0000_0000 + c) * P
  {}

  /** Reducing a 128-bit word is exact, for every word: the final addition stays below 2P. */
  lemma Reduce128Exact(x: U128)
    ensures Reduce128(x) == Z(x)
  {
    var t := x / WORD;
    var a: U64, b, c := x % WORD, t % 0x1_0000_0000, t / 0x1_0000_0000;
    assert c == x / (WORD * 0x1_0000_0000);
    var d := b * 0x1_0000_0000 - b;
    var s := SubInner(a, c);
    AddInnerExact(s, d);
    FoldWords(a, b, c);
    var k := b + c * 0x1_0000_0000 + c;
    ModAddMultiple(s + d, if a >= c then k else k - 1);
  }

  lemma MulInnerExact(a: F, b: F)
    ensures MulInner(a, b) == Mul(a, b)
  {
    hide Mul, Reduce128;
    ProductFits(a, b);
    Reduce128Exact(a * b);
    MulIsMod(a, b);
  }

  lemma Div2Exact(a: F)
    ensures Div2(a) < P && Add(Div2(a), Div2(a)) == a
  {}

  /** Halving is the only inverse of doubling. */
  lemma Div2Unique(a: F, b: F)
    requires Add(b, b) == a
    ensures b == Div2(a)
  {}
}
