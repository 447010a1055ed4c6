/** The dyadic ceiling of a binary logarithm, in integer arithmetic only. */
module Rational {
  import opened Bits

  /** x to the n. */
  ghost function Power(x: real, n: nat): real {
    if n == 0 then 1.0 else x * Power(x, n - 1)
  }

  /** 2 to the n, for any integer n. */
  ghost function TwoTo(n: int): real {
    if n >= 0 then Pow2(n) as real else 1.0 / Pow2(-n) as real
  }

  lemma TwoToNext(n: int)
    ensures TwoTo(n) > 0.0 && TwoTo(n + 1) == 2.0 * TwoTo(n)
  {}

  lemma {:induction false} TwoToAddNat(m: int, k: nat)
    ensures TwoTo(m + k) == TwoTo(m) * Pow2(k) as real
    decreases k
  {
    hide TwoTo;
    if k > 0 {
      TwoToAddNat(m, k - 1);
      TwoToNext(m + k - 1);
      Twice(TwoTo(m), Pow2(k - 1));
    }
  }

  lemma Twice(t: real, p: nat)
    ensures 2.0 * (t * p as real) == t * (2 * p) as real
  {}

  lemma TwoToAdd(m: int, n: int)
    ensures TwoTo(m + n) == TwoTo(m) * TwoTo(n)
  {
    TwoToSign(n);
    hide TwoTo, Pow2;
    if n >= 0 {
      TwoToAddNat(m, n);
    } else {
      TwoToAddNat(m + n, -n);
      CancelFactor(TwoTo(m), TwoTo(m + n), Pow2(-n) as real);
    }
  }

  lemma TwoToSign(n: int)
    ensures n >= 0 ==> TwoTo(n) == Pow2(n) as real
    ensures n < 0 ==> TwoTo(n) == 1.0 / Pow2(-n) as real
  {}

  lemma CancelFactor(a: real, b: real, p: real)
    requires p > 0.0 && a == b * p
    ensures b == a * (1.0 / p)
  {}

  lemma {:induction false} PowerAdd(x: real, m: nat, n: nat)
    ensures Power(x, m + n) == Power(x, m) * Power(x, n)
  {
    if m > 0 {
      PowerAdd(x, m - 1, n);
      RealAssoc(x, Power(x, m - 1), Power(x, n));
    }
  }

  lemma RealAssoc(a: real, b: real, c: real)
    ensures (a * b) * c == a * (b * c)
  {}

  /** N is the ceiling of 2^k log2(x): 2^(N-1) < x^(2^k) <= 2^N. */
  ghost predicate IsLog2Ceil(x: real, k: nat, N: int) {
    TwoTo(N - 1) < Power(x, Pow2(k)) <= TwoTo(N)
  }

  lemma {:induction false} Log2CeilExists(x: real, k: nat, N: int, steps: nat)
    requires steps >= 1 && TwoTo(N - steps) < Power(x, Pow2(k)) <= TwoTo(N)
    ensures exists M :: IsLog2Ceil(x, k, M)
    decreases steps
  {
    hide TwoTo, Power, Pow2;
    if Power(x, Pow2(k)) > TwoTo(N - 1) {
      assert IsLog2Ceil(x, k, N);
    } else {
      Log2CeilExists(x, k, N - 1, steps - 1);
    }
  }

  /** numer / denom = 2^M * nn / nd with nn / nd in [1, 2): the integer part of the logarithm is M. */
  ghost predicate Normalized(y: real, M: int, nn: nat, nd: nat) {
    0 < nd <= nn < 2 * nd && y == TwoTo(M) * (nn as real / nd as real)
  }

  function Shifted(x: nat, bits: nat): nat { x * Pow2(bits) }

  /** Align the leading bits, and shift once more if needed. */
  method Normalize(numer: nat, denom: nat) returns (M: int, nn: nat, nd: nat)
    requires numer > 0 && denom > 0
    ensures Normalized(numer as real / denom as real, M, nn, nd)
  {
    hide Shifted, BitLen, TwoTo;
    var numerBits: int, denomBits: int := BitLen(numer), BitLen(denom);
    M := numerBits - denomBits;
    nn, nd := numer, denom;
    if denomBits > numerBits { nn := Shifted(nn, denomBits - numerBits); }
    if numerBits > denomBits { nd := Shifted(nd, numerBits - denomBits); }
    AlignedBits(numer, denom, M, nn, nd);
    AlignedRatio(numer, denom, M, nn, nd);
    if nn < nd {
      TwoToNext(M - 1);
      Doubled(TwoTo(M - 1), nn, nd);
      nn := nn * 2;
      M := M - 1;
    }
  }

  lemma Doubled(t: real, nn: nat, nd: nat)
    requires nd > 0
    ensures (2.0 * t) * (nn as real / nd as real) == t * ((nn * 2) as real / nd as real)
  {}

  lemma AlignedRatio(numer: nat, denom: nat, M: int, nn: nat, nd: nat)
    requires numer > 0 && denom > 0 && nn > 0 && nd > 0
    requires nn == (if M < 0 then Shifted(numer, -M) else numer)
    requires nd == (if M > 0 then Shifted(denom, M) else denom)
    ensures numer as real / denom as real == TwoTo(M) * (nn as real / nd as real)
  {
    TwoToSign(M);
    hide TwoTo, Pow2;
    if M < 0 {
      FoldOut(numer, denom, Pow2(-M));
    } else if M > 0 {
      FoldIn(numer, denom, Pow2(M));
    } else {
      Pow2Zero();
    }
  }

  lemma AlignedBits(numer: nat, denom: nat, M: int, nn: nat, nd: nat)
    requires numer > 0 && denom > 0 && M == BitLen(numer) - BitLen(denom)
    requires nn == (if M < 0 then Shifted(numer, -M) else numer)
    requires nd == (if M > 0 then Shifted(denom, M) else denom)
    ensures 0 < nd < 2 * nn && nn < 2 * nd
  {
    hide BitLen, Pow2, Shifted;
    var a, b := BitLen(numer), BitLen(denom);
    BitLenBounds(numer);
    BitLenBounds(denom);
    Pow2Next(a - 1);
    Pow2Next(b - 1);
    if M < 0 {
      ShiftedBits(numer, a, -M);
    } else if M > 0 {
      ShiftedBits(denom, b, M);
    }
  }

  /** Shifting moves the leading bit. */
  lemma ShiftedBits(x: nat, a: nat, k: nat)
    requires a >= 1 && Pow2(a - 1) <= x < Pow2(a)
    ensures Pow2(a + k - 1) <= Shifted(x, k) < Pow2(a + k)
  {
    hide Pow2;
    Pow2Add(a - 1, k);
    Pow2Add(a, k);
    ShiftBounds(x, Pow2(a - 1), Pow2(a), Pow2(k));
  }

  lemma ShiftBounds(v: nat, lo: nat, hi: nat, p: nat)
    requires lo <= v < hi && p > 0
    ensures lo * p <= v * p < hi * p
  {}

  lemma FoldOut(x: nat, y: nat, p: nat)
    requires y > 0 && p > 0
    ensures x as real / y as real == (1.0 / p as real) * ((x * p) as real / y as real)
  {}

  lemma FoldIn(x: nat, y: nat, p: nat)
    requires y > 0 && p > 0
    ensures x as real / y as real == p as real * (x as real / (y * p) as real)
  {}

  /** Squaring the value doubles the exponent, plus one when the squared ratio reaches 2. */
  lemma SquareStep(y: real, M: int, nn: nat, nd: nat)
    requires Normalized(y, M, nn, nd)
    ensures nn * nn >= 2 * (nd * nd) ==> Normalized(y * y, 2 * M + 1, nn * nn, 2 * (nd * nd))
    ensures nn * nn < 2 * (nd * nd) ==> Normalized(y * y, 2 * M, nn * nn, nd * nd)
  {
    hide TwoTo;
    var r, t := nn as real / nd as real, TwoTo(M);
    TwoToAdd(M, M);
    SquareBounds(nn, nd);
    assert y * y == (t * t) * (r * r);
    RatioSquared(nn, nd);
    TwoToNext(2 * M);
    Halved(t * t, r * r);
  }

  lemma Halved(t: real, q: real)
    ensures t * q == (2.0 * t) * (q / 2.0)
  {}

  lemma SquareBounds(nn: nat, nd: nat)
    requires 0 < nd <= nn < 2 * nd
    ensures 0 < nd * nd <= nn * nn < 4 * (nd * nd)
  {}

  lemma RatioSquared(nn: nat, nd: nat)
    requires nd > 0
    ensures (nn * nn) as real / (nd * nd) as real == (nn as real / nd as real) * (nn as real / nd as real)
    ensures (nn * nn) as real / (2 * (nd * nd)) as real == ((nn as real / nd as real) * (nn as real / nd as real)) / 2.0
  {}

  lemma {:induction false} PowerTwoTo(M: int, n: nat)
    ensures Power(TwoTo(M), n) == TwoTo(M * n)
    decreases n
  {
    hide TwoTo;
    if n == 0 {
      TwoToSign(0);
      Pow2Zero();
    } else {
      PowerTwoTo(M, n - 1);
      TwoToAdd(M, M * (n - 1));
      assert M * n == M + M * (n - 1);
    }
  }

  lemma RoundUp(y: real, M: int, nn: nat, nd: nat)
    requires Normalized(y, M, nn, nd)
    ensures nn == nd ==> y == TwoTo(M)
    ensures nn > nd ==> TwoTo(M) < y <= TwoTo(M + 1)
  {
    TwoToNext(M);
    hide TwoTo;
    RatioBounds(nn as real, nd as real);
    ScaleBounds(TwoTo(M), nn as real / nd as real);
  }

  lemma RatioBounds(a: real, b: real)
    requires 0.0 < b <= a < 2.0 * b
    ensures a == b ==> a / b == 1.0
    ensures a > b ==> 1.0 < a / b < 2.0
  {
    var r := a / b;
    assert r * b == a;
    if a > b {
      PositiveFactor(r - 1.0, b);
      PositiveFactor(2.0 - r, b);
    }
  }

  lemma PositiveFactor(x: real, b: real)
    requires b > 0.0 && x * b > 0.0
    ensures x > 0.0
  {}

  lemma ScaleBounds(t: real, r: real)
    requires t > 0.0
    ensures r == 1.0 ==> t * r == t
    ensures 1.0 < r < 2.0 ==> t < t * r < 2.0 * t
  {}

  /** One more binary digit. */
  lemma DigitStep(x: real, i: nat, integerPart: int, bits: nat, nn: nat, nd: nat)
    requires Normalized(Power(x, Pow2(i)), integerPart * Pow2(i) + bits, nn, nd)
    ensures nn * nn >= 2 * (nd * nd) ==>
      Normalized(Power(x, Pow2(i + 1)), integerPart * Pow2(i + 1) + (bits * 2 + 1), nn * nn, 2 * (nd * nd))
    ensures nn * nn < 2 * (nd * nd) ==>
      Normalized(Power(x, Pow2(i + 1)), integerPart * Pow2(i + 1) + bits * 2, nn * nn, nd * nd)
  {
    hide Pow2, TwoTo, Normalized, Power;
    var y, M := Power(x, Pow2(i)), integerPart * Pow2(i) + bits;
    SquareStep(y, M, nn, nd);
    PowerAdd(x, Pow2(i), Pow2(i));
    Pow2Next(i);
    assert Power(x, Pow2(i + 1)) == y * y;
    assert integerPart * Pow2(i + 1) + bits * 2 == 2 * M;
    Distribute(integerPart, Pow2(i), Pow2(i + 1));
  }

  /** The returned fraction is log2(numer / denom) rounded up to a multiple of 2^-binaryDigits, exactly,
      for every positive rational and every precision. */
  method Log2Ceil(numer: nat, denom: nat, binaryDigits: nat) returns (numerator: int, denominator: nat)
    requires numer > 0 && denom > 0
    ensures denominator == Pow2(binaryDigits)
    ensures IsLog2Ceil(numer as real / denom as real, binaryDigits, numerator)
  {
    hide Pow2, TwoTo, Normalized, Power;
    ghost var x := numer as real / denom as real;
    denominator := Pow2(binaryDigits);
    var integerPart, normalizedNumer, normalizedDenom := Normalize(numer, denom);
    Pow2Zero();
    if normalizedNumer == normalizedDenom {
      numerator := integerPart * denominator;
      RoundUp(x, integerPart, normalizedNumer, normalizedDenom);
      PowerTwoTo(integerPart, denominator);
      TwoToNext(numerator - 1);
      return;
    }
    var fractionalBits: nat := 0;
    PowerOnce(x);
    for i := 0 to binaryDigits
      invariant Normalized(Power(x, Pow2(i)), integerPart * Pow2(i) + fractionalBits, normalizedNumer, normalizedDenom)
    {
      var numerSquared, denomSquared := normalizedNumer * normalizedNumer, normalizedDenom * normalizedDenom;
      DigitStep(x, i, integerPart, fractionalBits, normalizedNumer, normalizedDenom);
      fractionalBits := fractionalBits * 2;
      if numerSquared >= 2 * denomSquared {
        fractionalBits := fractionalBits + 1;
        normalizedNumer, normalizedDenom := numerSquared, 2 * denomSquared;
      } else {
        normalizedNumer, normalizedDenom := numerSquared, denomSquared;
      }
    }
    numerator := integerPart * denominator + fractionalBits;
    RoundUp(Power(x, denominator), numerator, normalizedNumer, normalizedDenom);
    TwoToNext(numerator - 1);
    NormalizedOrder(Power(x, denominator), numerator, normalizedNumer, normalizedDenom);
    if normalizedNumer > normalizedDenom {
      numerator := numerator + 1;
    }
  }

  lemma NormalizedOrder(y: real, M: int, nn: nat, nd: nat)
    requires Normalized(y, M, nn, nd)
    ensures nn >= nd
  {}

  lemma PowerOnce(x: real)
    ensures Power(x, 1) == x
  {}

  lemma Distribute(m: int, p: nat, q: nat)
    requires q == p + p
    ensures m * q == 2 * (m * p)
  {}

  /** There is only one such fraction. */
  lemma Log2CeilUnique(x: real, k: nat, M: int, N: int)
    requires IsLog2Ceil(x, k, M) && IsLog2Ceil(x, k, N)
    ensures M == N
  {
    hide TwoTo, Power;
    if M < N { TwoToMonotone(M, N - 1); }
    if N < M { TwoToMonotone(N, M - 1); }
  }

  lemma {:induction false} TwoToMonotone(m: int, n: int)
    requires m <= n
    ensures TwoTo(m) <= TwoTo(n)
    decreases n - m
  {
    hide TwoTo;
    if m < n {
      TwoToMonotone(m, n - 1);
      TwoToNext(n - 1);
    }
  }

  const U128_MAX: nat := 0xFFFF_FFFF_FFFF_FFFF_FFFF_FFFF_FFFF_FFFF

  /** The ceiling of numer / denom, 0 for negative values and saturating at the top. */
  function CeilToU128(numer: int, denom: nat): (r: nat)
    requires denom > 0
    ensures numer < 0 ==> r == 0
    ensures r < U128_MAX && numer >= 0 ==> (r - 1) * denom < numer <= r * denom
    ensures r <= U128_MAX && (r == U128_MAX ==> numer > (U128_MAX - 1) * denom)
  {
    if numer < 0 then 0
    else
      var quot, rem := numer / denom, numer % denom;
      var result := if quot > U128_MAX then U128_MAX else quot;
      CeilBounds(numer, denom, quot, rem);
      if rem != 0 && result < U128_MAX then result + 1 else result
  }

  lemma CeilBounds(numer: nat, denom: nat, quot: nat, rem: nat)
    requires denom > 0 && quot == numer / denom && rem == numer % denom
    ensures numer == quot * denom + rem && rem < denom
    ensures (quot - 1) * denom == quot * denom - denom && (quot + 1) * denom == quot * denom + denom
    ensures quot >= U128_MAX ==> numer > (U128_MAX - 1) * denom
  {}
}
