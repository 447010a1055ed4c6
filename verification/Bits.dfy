/** Powers of two, bit lengths, and the reversal of the low bits of a 64-bit word. */
module Bits {
  function Pow2(n: nat): (r: nat)
    ensures r >= 1
  {
    if n == 0 then 1 else 2 * Pow2(n - 1)
  }

  lemma {:induction false} Pow2Add(m: nat, n: nat)
    ensures Pow2(m + n) == Pow2(m) * Pow2(n)
  {
    if m > 0 {
      Pow2Add(m - 1, n);
      var a, b := Pow2(m - 1), Pow2(n);
      assert Pow2(m) == 2 * a && Pow2(m + n) == 2 * Pow2(m - 1 + n);
      hide Pow2;
      DoubleTimes(a, b);
    }
  }

  lemma Pow2Next(n: nat)
    ensures Pow2(n + 1) == Pow2(n) + Pow2(n)
  {}

  lemma {:induction false} Pow2Monotone(m: nat, n: nat)
    requires m <= n
    ensures Pow2(m) <= Pow2(n)
    decreases n
  {
    if m < n { Pow2Monotone(m, n - 1); }
  }

  lemma Pow2Values()
    ensures Pow2(31) == 0x8000_0000 && Pow2(32) == 0x1_0000_0000 && Pow2(64) == 0x1_0000_0000_0000_0000
  {
    Pow2Small();
    hide Pow2;
    Pow2Add(8, 8); Pow2Add(16, 16); Pow2Add(32, 32);
    Pow2Add(1, 31);
  }

  lemma Pow2Small()
    ensures Pow2(1) == 2 && Pow2(7) == 128 && Pow2(8) == 256
  {}

  /** The number of significant bits. */
  function BitLen(x: nat): nat {
    if x == 0 then 0 else 1 + BitLen(x / 2)
  }

  lemma {:induction false} BitLenBounds(x: nat)
    ensures x < Pow2(BitLen(x))
    ensures x > 0 ==> BitLen(x) >= 1 && Pow2(BitLen(x) - 1) <= x
  {
    if x > 1 { BitLenBounds(x / 2); }
  }

  lemma {:induction false} BitLenUnique(x: nat, n: nat)
    requires n >= 1 && Pow2(n - 1) <= x < Pow2(n)
    ensures BitLen(x) == n
    decreases n
  {
    if n > 1 { BitLenUnique(x / 2, n - 1); }
  }

  /** The logarithm, rounded down. */
  function Log2(n: nat): nat
    requires n >= 1
  {
    BitLen(n) - 1
  }

  lemma {:induction false} Log2Pow2(k: nat)
    ensures BitLen(Pow2(k)) == k + 1 && Log2(Pow2(k)) == k
  {
    if k > 0 { Log2Pow2(k - 1); }
  }

  lemma MulGap(m: nat, a: nat, b: nat)
    requires a < b
    ensures m * b >= m * a + m
    decreases b
  {
    if a + 1 < b { MulGap(m, a, b - 1); }
    assert m * b == m * (b - 1) + m;
  }

  lemma DivModUnique(x: nat, m: nat, q: nat, r: nat)
    requires x == m * q + r && r < m
    ensures x / m == q && x % m == r
  {
    var q' := x / m;
    assert x == m * q' + x % m;
    if q' < q { MulGap(m, q', q); }
    if q < q' { MulGap(m, q, q'); }
  }

  // ---------- Bit reversal ----------

  /** The n low bits of x in the opposite order. */
  function Rev(n: nat, x: nat): nat {
    if n == 0 then 0 else (if x % 2 == 1 then Pow2(n - 1) else 0) + Rev(n - 1, x / 2)
  }

  lemma {:induction false} RevBound(n: nat, x: nat)
    ensures Rev(n, x) < Pow2(n)
  {
    if n > 0 { RevBound(n - 1, x / 2); }
  }

  lemma {:induction false} RevZero(n: nat)
    ensures Rev(n, 0) == 0
  {
    if n > 0 { RevZero(n - 1); }
  }

  lemma DivDiv(x: nat, a: nat, b: nat)
    requires a > 0 && b > 0
    ensures a * b > 0 && x / a / b == x / (a * b)
  {
    DivMod(x, a);
    DivMod(x / a, b);
    DivTwice(x, a, b, x / a, x % a, x / a / b, x / a % b);
  }

  lemma DivMod(x: nat, m: nat)
    requires m > 0
    ensures x == m * (x / m) + x % m && 0 <= x % m < m
  {}

  lemma DivTwice(x: nat, a: nat, b: nat, q: nat, r: nat, q': nat, r': nat)
    requires x == a * q + r && q == b * q' + r' && r < a && r' < b
    ensures a * b > 0 && x / (a * b) == q'
  {
    Distribute(a, b, q', r');
    MulGap(a, r', b);
    DivModUnique(x, a * b, q', a * r' + r);
  }

  lemma Distribute(a: nat, b: nat, q: nat, r: nat)
    ensures a * (b * q + r) == (a * b) * q + a * r
  {}

  /** Bit j of the reversal is bit n - 1 - j. */
  lemma {:induction false} RevBits(n: nat, x: nat, j: nat)
    requires j < n
    ensures Rev(n, x) / Pow2(j) % 2 == x / Pow2(n - 1 - j) % 2
    decreases n
  {
    hide Rev, Pow2;
    RevStep(n, x);
    RevBound(n - 1, x / 2);
    var low := Rev(n - 1, x / 2);
    if j == n - 1 {
      Pow2Zero();
      TopBit(Pow2(n - 1), x % 2, low);
    } else {
      RevBits(n - 1, x / 2, j);
      Pow2Next(n - 2 - j);
      Pow2Add(n - 1 - j, j);
      LowerBit(x, Rev(n, x), low, Pow2(n - 2 - j), Pow2(j));
    }
  }

  lemma TopBit(h: nat, b: nat, low: nat)
    requires low < h && b < 2
    ensures ((if b == 1 then h else 0) + low) / h % 2 == b
  {
    DivModUnique((if b == 1 then h else 0) + low, h, b, low);
  }

  lemma LowerBit(x: nat, r: nat, low: nat, e: nat, m: nat)
    requires e > 0 && m > 0 && low / m % 2 == x / 2 / e % 2
    requires r == (if x % 2 == 1 then (2 * e) * m else 0) + low
    ensures r / m % 2 == x / (2 * e) % 2
  {
    DivDiv(x, 2, e);
    HighBit(e, m, low);
  }

  /** Adding an even multiple keeps the parity of the quotient. */
  lemma HighBit(e: nat, m: nat, low: nat)
    requires m > 0
    ensures ((2 * e) * m + low) / m % 2 == low / m % 2
  {
    var q, r := low / m, low % m;
    assert low == m * q + r;
    assert (2 * e) * m + low == m * (2 * e + q) + r by { Distribute(m, 1, 2 * e + q, r); FactorOut(e, m, q); }
    DivModUnique((2 * e) * m + low, m, 2 * e + q, r);
  }

  lemma FactorOut(e: nat, m: nat, q: nat)
    ensures (2 * e) * m + m * q == m * (2 * e + q)
  {}

  /** Bits from n up do not matter. */
  lemma {:induction false} RevHigh(n: nat, x: nat, q: nat)
    ensures Rev(n, x + Pow2(n) * q) == Rev(n, x)
  {
    if n > 0 {
      RevHigh(n - 1, x / 2, q);
      var h := Pow2(n - 1) * q;
      assert Pow2(n) * q == 2 * h by { DoubleTimes(Pow2(n - 1), q); }
      hide Rev, Pow2;
      HalfSum(h, x);
      RevStep(n, 2 * h + x);
      RevStep(n, x);
    }
  }

  lemma DoubleTimes(a: nat, b: nat)
    ensures (2 * a) * b == 2 * (a * b) && b * (2 * a) == 2 * (b * a)
  {}

  lemma RevMod(n: nat, x: nat)
    ensures Rev(n, x % Pow2(n)) == Rev(n, x)
  {
    hide Rev, Pow2;
    var m := Pow2(n);
    var q, r := x / m, x % m;
    assert x == r + m * q;
    RevHigh(n, r, q);
  }

  lemma {:induction false} RevShift(n: nat, k: nat, x: nat)
    ensures Rev(n + k, x * Pow2(k)) == Rev(n, x)
  {
    if k > 0 {
      RevShift(n, k - 1, x);
      var h := x * Pow2(k - 1);
      assert x * Pow2(k) == 2 * h by { DoubleTimes(Pow2(k - 1), x); }
      hide Rev, Pow2;
      HalfSum(h, 0);
      RevStep(n + k, 2 * h);
    }
  }

  /** The top bit of the argument becomes the bottom bit of the reversal. */
  lemma {:induction false} RevTop(n: nat, top: bool, r: nat)
    requires n > 0 && r < Pow2(n - 1)
    ensures Rev(n, (if top then Pow2(n - 1) else 0) + r) == 2 * Rev(n - 1, r) + (if top then 1 else 0)
  {
    if n > 1 {
      RevTop(n - 1, top, r / 2);
      var h := if top then Pow2(n - 2) else 0;
      hide Rev;
      HalfSum(h, r);
      RevStep(n, 2 * h + r);
      RevStep(n - 1, r);
    }
  }

  lemma RevStep(n: nat, x: nat)
    requires n > 0
    ensures Rev(n, x) == (if x % 2 == 1 then Pow2(n - 1) else 0) + Rev(n - 1, x / 2)
  {}

  lemma HalfSum(h: nat, r: nat)
    ensures (2 * h + r) / 2 == h + r / 2 && (2 * h + r) % 2 == r % 2
  {}

  /** Reversing twice gives the word back. */
  lemma {:induction false} RevRev(n: nat, x: nat)
    requires x < Pow2(n)
    ensures Rev(n, x) < Pow2(n) && Rev(n, Rev(n, x)) == x
  {
    RevBound(n, x);
    if n > 0 {
      RevBound(n - 1, x / 2);
      RevTop(n, x % 2 == 1, Rev(n - 1, x / 2));
      RevRev(n - 1, x / 2);
    }
  }

  const WORD_BITS: nat := 64

  /** `u64::wrapping_shl`: the shift amount is taken modulo the word size. */
  function WrappingShl(x: nat, k: nat): nat {
    (x * Pow2(k % WORD_BITS)) % Pow2(WORD_BITS)
  }

  function ReverseBits(width: nat, i: nat): nat
    requires width <= WORD_BITS && i < Pow2(WORD_BITS)
  {
    Rev(WORD_BITS, WrappingShl(i, WORD_BITS - width))
  }

  /** For a positive width, exactly the low `width` bits are reversed and the others erased.
      At width 0 the shift wraps to nothing, so nothing is erased. */
  lemma ReverseBitsMeaning(width: nat, i: nat)
    requires width <= WORD_BITS && i < Pow2(WORD_BITS)
    ensures width > 0 ==> ReverseBits(width, i) == Rev(width, i % Pow2(width))
    ensures width == 0 ==> ReverseBits(width, i) == Rev(WORD_BITS, i)
  {
    hide Rev, Pow2, ReverseBits;
    ReverseBitsShifts(width, i, if width > 0 then WORD_BITS - width else 0);
    if width > 0 {
      RevShifted(width, WORD_BITS - width, i);
    } else {
      Pow2Zero();
      RevMod(WORD_BITS, i);
    }
  }

  lemma ReverseBitsShifts(width: nat, i: nat, k: nat)
    requires width <= WORD_BITS && i < Pow2(WORD_BITS) && k == if width > 0 then WORD_BITS - width else 0
    ensures ReverseBits(width, i) == Rev(WORD_BITS, (i * Pow2(k)) % Pow2(WORD_BITS))
  {
    hide Rev, Pow2;
    assert (WORD_BITS - width) % WORD_BITS == k;
  }

  lemma RevShifted(n: nat, k: nat, i: nat)
    ensures Rev(n + k, (i * Pow2(k)) % Pow2(n + k)) == Rev(n, i % Pow2(n))
  {
    hide Rev, Pow2;
    RevMod(n + k, i * Pow2(k));
    RevShift(n, k, i);
    RevMod(n, i);
  }

  lemma Pow2Zero()
    ensures Pow2(0) == 1
  {}

  /** The promise "any bits beyond that width will be erased" holds exactly when the width is
      positive or there is no bit to erase. */
  lemma ReverseBitsErases(width: nat, i: nat)
    requires width <= WORD_BITS && i < Pow2(WORD_BITS)
    ensures ReverseBits(width, i) == Rev(width, i % Pow2(width)) <==> width > 0 || i == 0
  {
    hide Rev, Pow2, ReverseBits;
    ReverseBitsMeaning(width, i);
    if width == 0 {
      Pow2Zero();
      RevRev(WORD_BITS, i);
      RevZero(WORD_BITS);
      RevZero(0);
    }
  }

  /** In range, the source's reversal is `Rev`. */
  lemma ReverseBitsInRange(width: nat, i: nat)
    requires width <= WORD_BITS && i < Pow2(width)
    ensures i < Pow2(WORD_BITS) && ReverseBits(width, i) == Rev(width, i) < Pow2(width)
  {
    hide Rev, Pow2, ReverseBits;
    Pow2Monotone(width, WORD_BITS);
    if width == 0 { Pow2Zero(); }
    ReverseBitsErases(width, i);
    RevBound(width, i);
    DivModUnique(i, Pow2(width), 0, i);
  }
}
