/** Exponentiation in an arbitrary monoid by square-and-multiply over 64-bit limbs. */
module Algebra {
  import opened Bits
  import opened Goldilocks

  ghost predicate IsMonoid<T(!new)>(zero: T, op: (T, T) -> T) {
    && (forall a :: op(zero, a) == a && op(a, zero) == a)
    && (forall a, b, c :: op(op(a, b), c) == op(a, op(b, c)))
  }

  /** x combined with itself n times. */
  function MonoidPow<T>(zero: T, op: (T, T) -> T, x: T, n: nat): T {
    if n == 0 then zero else op(x, MonoidPow(zero, op, x, n - 1))
  }

  /** Exponents add. */
  lemma {:induction false} MonoidPowAdd<T(!new)>(zero: T, op: (T, T) -> T, x: T, m: nat, n: nat)
    requires IsMonoid(zero, op)
    ensures MonoidPow(zero, op, x, m + n) == op(MonoidPow(zero, op, x, m), MonoidPow(zero, op, x, n))
    decreases m
  {
    if m > 0 { MonoidPowAdd(zero, op, x, m - 1, n); }
  }

  lemma {:induction false} MonoidPowSquare<T(!new)>(zero: T, op: (T, T) -> T, x: T, n: nat)
    requires IsMonoid(zero, op)
    ensures MonoidPow(zero, op, op(x, x), n) == MonoidPow(zero, op, x, 2 * n)
    decreases n
  {
    if n > 0 {
      MonoidPowSquare(zero, op, x, n - 1);
      var rest := MonoidPow(zero, op, x, 2 * n - 2);
      assert MonoidPow(zero, op, x, 2 * n - 1) == op(x, rest);
      assert op(op(x, x), rest) == op(x, op(x, rest));
    }
  }

  // ---------- Bits of an exponent ----------

  function Bit(x: nat, i: nat): bool { (x / Pow2(i)) % 2 != 0 }

  function YieldBitsLe(x: U64): seq<bool> {
    seq(64, i requires i >= 0 => Bit(x, i))
  }

  function YieldBitsLeUntilZeroes(x: U64): seq<bool> {
    seq(BitLen(x), i requires i >= 0 => Bit(x, i))
  }

  function YieldAll(xs: seq<U64>): seq<bool> {
    if xs == [] then [] else YieldBitsLe(xs[0]) + YieldAll(xs[1..])
  }

  function YieldBitsLeArr(xs: seq<U64>): seq<bool> {
    if xs == [] then YieldBitsLeUntilZeroes(0)
    else YieldAll(xs[..|xs| - 1]) + YieldBitsLeUntilZeroes(xs[|xs| - 1])
  }

  function BitsValue(bits: seq<bool>): nat {
    if bits == [] then 0 else (if bits[0] then 1 else 0) + 2 * BitsValue(bits[1..])
  }

  /** The number whose 64-bit limbs, least significant first, are xs. */
  function LimbsValue(xs: seq<U64>): nat {
    if xs == [] then 0 else xs[0] + WORD * LimbsValue(xs[1..])
  }

  lemma {:induction false} BitsOf(x: nat, n: nat)
    requires x < Pow2(n)
    ensures BitsValue(seq(n, i requires i >= 0 => Bit(x, i))) == x
    decreases n
  {
    if n > 0 {
      var bits := seq(n, i requires i >= 0 => Bit(x, i));
      var rest := seq(n - 1, i requires i >= 0 => Bit(x / 2, i));
      forall i | 0 <= i < n - 1
        ensures bits[1..][i] == rest[i]
      {
        HalfThenShift(x, i);
      }
      assert bits[1..] == rest;
      BitsOf(x / 2, n - 1);
    }
  }

  lemma HalfThenShift(x: nat, i: nat)
    ensures (x / 2) / Pow2(i) == x / Pow2(i + 1)
  {
    var m := Pow2(i);
    var q, r := (x / 2) / m, (x / 2) % m;
    assert x / 2 == m * q + r;
    assert x == (2 * m) * q + (2 * r + x % 2);
    DivModUnique(x, 2 * m, q, 2 * r + x % 2);
  }

  lemma DoubleProduct(p: nat, v: nat)
    ensures (2 * p) * v == 2 * (p * v)
  {}

  lemma {:induction false} BitsValueAppend(a: seq<bool>, b: seq<bool>)
    ensures BitsValue(a + b) == BitsValue(a) + Pow2(|a|) * BitsValue(b)
  {
    if a == [] {
      assert a + b == b;
    } else {
      assert (a + b)[1..] == a[1..] + b;
      BitsValueAppend(a[1..], b);
      DoubleProduct(Pow2(|a| - 1), BitsValue(b));
    }
  }

  lemma {:induction false} YieldAllThen(xs: seq<U64>, tail: seq<bool>, v: U64)
    requires BitsValue(tail) == v
    ensures BitsValue(YieldAll(xs) + tail) == LimbsValue(xs + [v])
  {
    if xs == [] {
      assert YieldAll(xs) + tail == tail;
    } else {
      var head := YieldBitsLe(xs[0]);
      assert YieldAll(xs) + tail == head + (YieldAll(xs[1..]) + tail);
      Pow2Values();
      BitsOf(xs[0], 64);
      BitsValueAppend(head, YieldAll(xs[1..]) + tail);
      YieldAllThen(xs[1..], tail, v);
      assert (xs + [v])[1..] == xs[1..] + [v];
    }
  }

  lemma EmptyValues()
    ensures YieldBitsLeUntilZeroes(0) == [] && BitsValue([]) == 0 && LimbsValue([]) == 0
  {}

  /** The bits yielded, which stop at the top set bit of the last limb, spell the whole number. */
  lemma YieldedBitsValue(xs: seq<U64>)
    ensures BitsValue(YieldBitsLeArr(xs)) == LimbsValue(xs)
  {
    hide BitsValue, LimbsValue, YieldAll, BitLen, Pow2;
    if xs == [] {
      EmptyValues();
    } else {
      var last := xs[|xs| - 1];
      BitLenBounds(last);
      BitsOf(last, BitLen(last));
      YieldAllThen(xs[..|xs| - 1], YieldBitsLeUntilZeroes(last), last);
      assert xs[..|xs| - 1] + [last] == xs;
    }
  }

  // ---------- Square and multiply ----------

  lemma ExpStep<T(!new)>(zero: T, op: (T, T) -> T, acc: T, w: T, bit: bool, rest: nat)
    requires IsMonoid(zero, op)
    ensures op(if bit then op(acc, w) else acc, MonoidPow(zero, op, op(w, w), rest)) ==
            op(acc, MonoidPow(zero, op, w, (if bit then 1 else 0) + 2 * rest))
  {
    MonoidPowSquare(zero, op, w, rest);
  }

  /** For every monoid and every list of limbs, the loop computes the power by the limbs' value. */
  method MonoidExp<T(!new)>(zero: T, op: (T, T) -> T, selfOp: T -> T, x: T, bitsLe: seq<U64>) returns (acc: T)
    requires IsMonoid(zero, op)
    requires forall a :: selfOp(a) == op(a, a)
    ensures acc == MonoidPow(zero, op, x, LimbsValue(bitsLe))
  {
    hide MonoidPow, YieldBitsLeArr;
    acc := zero;
    var w := x;
    var bits := YieldBitsLeArr(bitsLe);
    for i := 0 to |bits|
      invariant op(acc, MonoidPow(zero, op, w, BitsValue(bits[i..]))) == MonoidPow(zero, op, x, BitsValue(bits))
    {
      assert bits[i..][0] == bits[i] && bits[i..][1..] == bits[i + 1..];
      ExpStep(zero, op, acc, w, bits[i], BitsValue(bits[i + 1..]));
      if bits[i] {
        acc := op(acc, w);
      }
      w := selfOp(w);
    }
    YieldedBitsValue(bitsLe);
    MonoidPowZero(zero, op, w);
  }

  lemma MonoidPowZero<T>(zero: T, op: (T, T) -> T, x: T)
    ensures MonoidPow(zero, op, x, 0) == zero
  {}
}
