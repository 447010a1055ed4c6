/** Bytes, 64-bit words and 63-bit field elements as digits of the same number. */
module Packing {
  import opened Bits
  import opened Goldilocks
  import opened Topology
  import opened Wrappers

  /** Every entry has at most b bits. */
  ghost predicate Digits(b: nat, s: seq<nat>) {
    forall i :: 0 <= i < |s| ==> s[i] < Pow2(b)
  }

  /** The number with these b-bit digits, least significant first. */
  function Value(b: nat, s: seq<nat>): nat {
    if s == [] then 0 else s[0] + Pow2(b) * Value(b, s[1..])
  }

  lemma Pow2Times(b: nat, n: nat)
    ensures b * (n + 1) == b + b * n
    ensures Pow2(b * (n + 1)) == Pow2(b) * Pow2(b * n)
  {
    Pow2Add(b, b * n);
  }

  lemma {:induction false} ValueBound(b: nat, s: seq<nat>)
    requires Digits(b, s)
    ensures Value(b, s) < Pow2(b * |s|)
  {
    if s != [] {
      ValueBound(b, s[1..]);
      Pow2Times(b, |s| - 1);
      hide Pow2, Value;
      DigitBound(Pow2(b), s[0], Value(b, s[1..]), Pow2(b * (|s| - 1)));
      ValueHead(b, s);
    } else {
      Pow2Zero();
    }
  }

  lemma ValueHead(b: nat, s: seq<nat>)
    requires s != []
    ensures Value(b, s) == s[0] + Pow2(b) * Value(b, s[1..])
  {}

  lemma DigitBound(p: nat, d: nat, v: nat, q: nat)
    requires d < p && v < q
    ensures d + p * v < p * q
  {
    MulGap(p, v, q);
  }

  lemma {:induction false} ValueUnique(b: nat, s: seq<nat>, t: seq<nat>)
    requires Digits(b, s) && Digits(b, t) && |s| == |t| && Value(b, s) == Value(b, t)
    ensures s == t
  {
    hide Pow2;
    if s != [] {
      DivModUnique(Value(b, s), Pow2(b), Value(b, s[1..]), s[0]);
      DivModUnique(Value(b, t), Pow2(b), Value(b, t[1..]), t[0]);
      ValueUnique(b, s[1..], t[1..]);
      assert s == [s[0]] + s[1..] && t == [t[0]] + t[1..];
    }
  }

  lemma ValueEmpty(b: nat)
    ensures Value(b, []) == 0
  {}

  lemma {:induction false} ValueAppend(b: nat, s: seq<nat>, t: seq<nat>)
    ensures Value(b, s + t) == Value(b, s) + Pow2(b * |s|) * Value(b, t)
  {
    hide Pow2, Value;
    if s == [] {
      assert s + t == t;
      Pow2Zero();
      ValueEmpty(b);
    } else {
      ValueAppend(b, s[1..], t);
      Pow2Times(b, |s| - 1);
      ValueHead(b, s);
      ValueHead(b, s + t);
      assert (s + t)[1..] == s[1..] + t;
      Regroup(s[0], Pow2(b), Value(b, s[1..]), Pow2(b * (|s| - 1)), Value(b, t));
    }
  }

  lemma Regroup(d: nat, p: nat, v: nat, q: nat, w: nat)
    ensures d + p * (v + q * w) == (d + p * v) + (p * q) * w
  {}

  lemma {:induction false} ValueZero(b: nat, s: seq<nat>)
    requires forall i :: 0 <= i < |s| ==> s[i] == 0
    ensures Value(b, s) == 0
  {
    if s != [] { ValueZero(b, s[1..]); }
  }

  /** Dropping the digits from n on leaves the remainder. */
  lemma ValueTruncate(b: nat, s: seq<nat>, n: nat)
    requires Digits(b, s) && n <= |s|
    ensures Value(b, s[..n]) == Value(b, s) % Pow2(b * n)
  {
    hide Pow2, Value;
    assert s == s[..n] + s[n..];
    ValueAppend(b, s[..n], s[n..]);
    ValueBound(b, s[..n]);
    DivModUnique(Value(b, s), Pow2(b * n), Value(b, s[n..]), Value(b, s[..n]));
  }

  /** The first n entries of s, padded with zeros. */
  function Fitted(s: seq<nat>, n: nat): (r: seq<nat>)
    ensures |r| == n
    ensures forall i :: 0 <= i < n ==> r[i] == if i < |s| then s[i] else 0
  {
    seq(n, i requires 0 <= i < n => if i < |s| then s[i] else 0)
  }

  lemma ValueFitted(b: nat, s: seq<nat>, n: nat)
    requires Digits(b, s) && Value(b, s) < Pow2(b * n)
    ensures Value(b, Fitted(s, n)) == Value(b, s) && Digits(b, Fitted(s, n))
  {
    hide Pow2, Value;
    Positive(b);
    if n <= |s| {
      assert Fitted(s, n) == s[..n];
      ValueTruncate(b, s, n);
      Remainder(Value(b, s), Pow2(b * n));
    } else {
      var z := seq(n - |s|, _ => 0);
      assert Fitted(s, n) == s + z;
      ValueAppend(b, s, z);
      ValueZero(b, z);
    }
  }

  lemma Positive(b: nat)
    ensures Pow2(b) > 0
  {}

  // ---------- Changing the digit size ----------

  /** An iterator over the outBits-bit digits of the number whose inBits-bit digits it is given. */
  class Repacker {
    const inBits: nat
    const outBits: nat
    var acc: nat
    var accBits: nat
    var inner: seq<nat>

    ghost predicate Valid()
      reads this
    {
      0 < inBits && 0 < outBits && acc < Pow2(accBits) && accBits < inBits + outBits && Digits(inBits, inner)
    }

    /** What is still to come, as a number and in bits. */
    ghost function Pending(): nat
      reads this
    {
      acc + Pow2(accBits) * Value(inBits, inner)
    }

    ghost function PendingBits(): nat
      reads this
    {
      accBits + inBits * |inner|
    }

    constructor (inBits: nat, outBits: nat, inner: seq<nat>)
      requires 0 < inBits && 0 < outBits && Digits(inBits, inner)
      ensures this.inBits == inBits && this.outBits == outBits
      ensures Valid() && Pending() == Value(inBits, inner) && PendingBits() == inBits * |inner|
    {
      this.inBits, this.outBits, this.inner := inBits, outBits, inner;
      acc, accBits := 0, 0;
      new;
      Pow2Zero();
    }

    method Next() returns (r: Option<nat>)
      requires Valid()
      modifies this
      ensures Valid()
      ensures r.None? <==> old(PendingBits()) == 0
      ensures r.None? ==> Pending() == old(Pending()) && PendingBits() == 0
      ensures r.Some? ==> r.value < Pow2(outBits) && old(Pending()) == r.value + Pow2(outBits) * Pending()
      ensures PendingBits() == if old(PendingBits()) < outBits then 0 else old(PendingBits()) - outBits
    {
      hide Pow2, Value;
      Pull();
      BitsLeft(inBits, |inner|);
      if accBits > 0 {
        var p := Pow2(outBits);
        Positive(outBits);
        if accBits < outBits { EmitLast(acc, accBits, outBits, inBits); }
        else { EmitMore(acc, accBits, outBits, Value(inBits, inner)); }
        var out := acc % p;
        acc := acc / p;
        accBits := if accBits < outBits then 0 else accBits - outBits;
        return Some(out);
      }
      return None;
    }

    /** Read digits until there are enough bits. */
    method Pull()
      requires Valid()
      modifies this`acc, this`accBits, this`inner
      ensures Valid() && (accBits >= outBits || inner == [])
      ensures Pending() == old(Pending()) && PendingBits() == old(PendingBits())
    {
      hide Pow2, Value;
      while accBits < outBits && inner != []
        invariant Valid() && Pending() == old(Pending()) && PendingBits() == old(PendingBits())
        decreases |inner|
      {
        var x := inner[0];
        Append(acc, accBits, inBits, inner);
        acc := acc + x * Pow2(accBits);
        accBits := accBits + inBits;
        inner := inner[1..];
      }
    }
  }

  lemma BitsLeft(b: nat, n: nat)
    ensures b > 0 && n > 0 ==> b * n > 0
    ensures n == 0 ==> b * n == 0
  {}

  lemma Append(acc: nat, bits: nat, b: nat, inner: seq<nat>)
    requires acc < Pow2(bits) && inner != [] && inner[0] < Pow2(b)
    ensures acc + inner[0] * Pow2(bits) < Pow2(bits + b)
    ensures acc + Pow2(bits) * Value(b, inner) ==
            (acc + inner[0] * Pow2(bits)) + Pow2(bits + b) * Value(b, inner[1..])
    ensures bits + b * |inner| == (bits + b) + b * |inner[1..]|
  {
    ValueHead(b, inner);
    Pow2Add(bits, b);
    hide Pow2, Value;
    AppendDigit(acc, Pow2(bits), inner[0], Pow2(b), Value(b, inner[1..]), Pow2(bits + b));
    OneMore(b, |inner|);
  }

  lemma OneMore(b: nat, n: nat)
    requires n > 0
    ensures b * n == b + b * (n - 1)
  {}

  lemma AppendDigit(acc: nat, p: nat, d: nat, q: nat, v: nat, pq: nat)
    requires acc < p && d < q && pq == p * q
    ensures acc + d * p < pq
    ensures acc + p * (d + q * v) == (acc + d * p) + pq * v
  {
    DigitBound(p, acc, d, q);
    Spread(p, d, q, v);
  }

  lemma Spread(p: nat, d: nat, q: nat, v: nat)
    ensures p * (d + q * v) == p * d + (p * q) * v
  {}

  /** The last digit takes all the bits that are left. */
  lemma EmitLast(acc: nat, bits: nat, out: nat, b: nat)
    requires acc < Pow2(bits) && bits < out
    ensures acc % Pow2(out) == acc && acc / Pow2(out) == 0 < Pow2(0) && Value(b, []) == 0
  {
    Pow2Monotone(bits, out);
    Pow2Zero();
    hide Pow2;
    DivModUnique(acc, Pow2(out), 0, acc);
  }

  lemma EmitMore(acc: nat, bits: nat, out: nat, v: nat)
    requires acc < Pow2(bits) && bits >= out
    ensures acc / Pow2(out) < Pow2(bits - out)
    ensures acc + Pow2(bits) * v == acc % Pow2(out) + Pow2(out) * (acc / Pow2(out) + Pow2(bits - out) * v)
  {
    Pow2Add(out, bits - out);
    hide Pow2;
    DivMod(acc, Pow2(out));
    EmitDigit(acc, Pow2(out), acc / Pow2(out), acc % Pow2(out), Pow2(bits - out), v, Pow2(bits));
  }

  lemma EmitDigit(acc: nat, p: nat, q: nat, r: nat, s: nat, v: nat, ps: nat)
    requires acc == p * q + r && ps == p * s && acc < ps
    ensures q < s
    ensures acc + ps * v == r + p * (q + s * v)
  {}

  lemma ProductMonotone(p: nat, s: nat, q: nat)
    requires s <= q
    ensures p * s <= p * q
  {}

  /** Run the iterator to its end: the same number in digits of the other size, as many as its bits need. */
  method Repack(inBits: nat, outBits: nat, digits: seq<nat>) returns (out: seq<nat>)
    requires 0 < inBits && 0 < outBits && Digits(inBits, digits)
    ensures Digits(outBits, out) && Value(outBits, out) == Value(inBits, digits)
    ensures |out| == DivCeil(inBits * |digits|, outBits)
  {
    hide Pow2, Value, DivCeil;
    var iter := new Repacker(inBits, outBits, digits);
    ghost var bits := inBits * |digits|;
    out := [];
    RepackStart(outBits, iter.Pending());
    while true
      invariant iter.Valid() && iter.inBits == inBits && iter.outBits == outBits
      invariant Digits(outBits, out)
      invariant Value(outBits, out) + Pow2(outBits * |out|) * iter.Pending() == Value(inBits, digits)
      invariant if iter.PendingBits() > 0 then outBits * |out| + iter.PendingBits() == bits
                else bits <= outBits * |out| && (|out| > 0 ==> outBits * |out| < bits + outBits)
      decreases iter.PendingBits()
    {
      ghost var pending := iter.Pending();
      var next := iter.Next();
      if next.None? {
        break;
      }
      RepackStep(outBits, out, next.value, pending, iter.Pending());
      out := out + [next.value];
    }
    RepackEnd(iter.acc, iter.accBits, iter.inner, inBits);
    RepackCount(outBits, |out|, bits);
  }

  lemma RepackStart(b: nat, pending: nat)
    ensures Value(b, []) + Pow2(b * 0) * pending == pending
  {}

  lemma RepackStep(b: nat, out: seq<nat>, x: nat, pending: nat, rest: nat)
    requires pending == x + Pow2(b) * rest
    ensures Value(b, out) + Pow2(b * |out|) * pending == Value(b, out + [x]) + Pow2(b * (|out| + 1)) * rest
    ensures b * |out + [x]| == b * |out| + b
  {
    hide Pow2, Value;
    ValueAppend(b, out, [x]);
    ValueSingle(b, x);
    Pow2Times(b, |out|);
    StepArithmetic(Value(b, out), Pow2(b * |out|), x, Pow2(b), rest, Pow2(b * (|out| + 1)));
  }

  lemma ValueSingle(b: nat, x: nat)
    ensures Value(b, [x]) == x
  {}

  lemma StepArithmetic(v: nat, q: nat, x: nat, p: nat, rest: nat, pq: nat)
    requires pq == p * q
    ensures v + q * (x + p * rest) == (v + q * x) + pq * rest
  {}

  lemma RepackEnd(acc: nat, accBits: nat, inner: seq<nat>, b: nat)
    requires b > 0 && acc < Pow2(accBits) && accBits + b * |inner| == 0
    ensures acc + Pow2(accBits) * Value(b, inner) == 0
  {}

  lemma RepackCount(b: nat, n: nat, bits: nat)
    requires b > 0 && bits <= b * n && (n > 0 ==> b * n < bits + b)
    ensures n == DivCeil(bits, b)
  {
    hide DivCeil;
    var q := DivCeil(bits, b);
    if q < n { MulGap(b, q, n); }
    if n < q { CeilOrder(n, q, b); }
  }

  // ---------- Bytes, words and elements ----------

  lemma BytesAreDigits(data: seq<Byte>)
    ensures Digits(8, data)
  {}

  /** `u64::from_le_bytes`. */
  function FromLeBytes(chunk: seq<Byte>): (x: nat)
    requires |chunk| == 8
    ensures x < Pow2(64)
  {
    BytesAreDigits(chunk);
    ValueBound(8, chunk);
    Value(8, chunk)
  }

  /** `u64::to_le_bytes`, on n bytes. */
  function ToLeBytes(x: nat, n: nat): (r: seq<Byte>)
    ensures |r| == n
  {
    if n == 0 then [] else [x % 256] + ToLeBytes(x / 256, n - 1)
  }

  lemma {:induction false} ToLeBytesValue(x: nat, n: nat)
    requires x < Pow2(8 * n)
    ensures Value(8, ToLeBytes(x, n)) == x
    decreases n
  {
    if n > 0 {
      assert Pow2(8) == 256;
      Pow2Add(8, 8 * (n - 1));
      ToLeBytesValue(x / 256, n - 1);
      assert ToLeBytes(x, n)[1..] == ToLeBytes(x / 256, n - 1);
    }
  }

  /** `iter_u64_le`: whole words, then the tail padded with zeros. */
  method IterU64Le(data: seq<Byte>) returns (out: seq<nat>)
    ensures Digits(64, out) && Value(64, out) == Value(8, data)
    ensures |out| == DivCeil(|data|, 8)
  {
    hide Pow2, Value, DivCeil;
    var remainingU64s: nat, tail: nat := |data| / 8, |data| % 8;
    ghost var pos := 0;
    out := [];
    RepackStart(64, Value(8, data));
    assert data[0..] == data;
    while remainingU64s > 0
      invariant pos == 8 * |out| && pos + 8 * remainingU64s + tail == |data| && tail < 8
      invariant Digits(64, out)
      invariant Value(64, out) + Pow2(64 * |out|) * Value(8, data[pos..]) == Value(8, data)
    {
      var chunk := data[8 * |out|..8 * |out| + 8];
      remainingU64s := remainingU64s - 1;
      WordStep(data[pos..], chunk, data[pos + 8..]);
      RepackStep(64, out, FromLeBytes(chunk), Value(8, data[pos..]), Value(8, data[pos + 8..]));
      out := out + [FromLeBytes(chunk)];
      pos := pos + 8;
    }
    if tail > 0 {
      var zeros: seq<Byte> := seq(8 - tail, _ => 0);
      var chunk := data[8 * |out|..] + zeros;
      TailStep(data[pos..], zeros);
      RepackStep(64, out, FromLeBytes(chunk), Value(8, data[pos..]), 0);
      out := out + [FromLeBytes(chunk)];
    } else {
      NothingLeft(data[pos..]);
    }
    RepackCount(8, |out|, |data|);
  }

  lemma WordStep(rest: seq<Byte>, chunk: seq<Byte>, rest': seq<Byte>)
    requires |chunk| == 8 && rest == chunk + rest'
    ensures Value(8, rest) == FromLeBytes(chunk) + Pow2(64) * Value(8, rest')
  {
    hide Pow2, Value;
    ValueAppend(8, chunk, rest');
  }

  lemma TailStep(rest: seq<Byte>, zeros: seq<Byte>)
    requires |rest| + |zeros| == 8 && forall i :: 0 <= i < |zeros| ==> zeros[i] == 0
    ensures Value(8, rest) == FromLeBytes(rest + zeros)
  {
    hide Pow2, Value;
    ValueAppend(8, rest, zeros);
    ValueZero(8, zeros);
  }

  lemma NothingLeft(rest: seq<Byte>)
    requires rest == []
    ensures Value(8, rest) == 0
  {}

  /** `collect_u64_le`: the bytes of the words, cut at the given length. */
  method CollectU64Le(maxLength: nat, data: seq<nat>) returns (out: seq<Byte>)
    requires Digits(64, data)
    ensures |out| == if 8 * |data| < maxLength then 8 * |data| else maxLength
    ensures Value(8, out) == Value(64, data) % Pow2(8 * |out|)
  {
    hide Pow2, Value;
    out := [];
    EmptyValues();
    for i := 0 to |data|
      invariant |out| == 8 * i && Value(8, out) == Value(64, data[..i])
    {
      LimbStep(out, data[..i], data[i]);
      assert data[..i] + [data[i]] == data[..i + 1];
      out := out + ToLeBytes(data[i], 8);
    }
    assert data[..|data|] == data;
    BytesAreDigits(out);
    if maxLength < |out| {
      ValueTruncate(8, out, maxLength);
      out := out[..maxLength];
    } else {
      ValueBound(8, out);
      Remainder(Value(8, out), Pow2(8 * |out|));
    }
  }

  lemma EmptyValues()
    ensures Value(8, []) == Value(64, []) == 0
  {}

  lemma LimbStep(out: seq<Byte>, done: seq<nat>, x: nat)
    requires |out| == 8 * |done| && Value(8, out) == Value(64, done) && x < Pow2(64)
    ensures Value(8, out + ToLeBytes(x, 8)) == Value(64, done + [x])
  {
    hide Pow2, Value, ToLeBytes;
    ToLeBytesValue(x, 8);
    ValueAppend(8, out, ToLeBytes(x, 8));
    ValueAppend(64, done, [x]);
    ValueSingle(64, x);
  }

  /** `stream_from_u64s`: 63-bit elements, all below P. */
  method StreamFromU64s(words: seq<nat>) returns (out: seq<F>)
    requires Digits(64, words)
    ensures Digits(63, out) && Value(63, out) == Value(64, words)
    ensures |out| == DivCeil(64 * |words|, 63)
  {
    hide Value, DivCeil;
    var digits := Repack(64, 63, words);
    SixtyThree();
    out := digits;
  }

  lemma SixtyThree()
    ensures Pow2(63) < P
  {
    Pow2Values();
    Pow2Next(63);
  }

  function LowBits(x: nat): nat {
    Positive(63);
    x % Pow2(63)
  }

  /** The low 63 bits of every element. */
  function Masked(elements: seq<nat>): (r: seq<nat>)
    ensures |r| == |elements|
  {
    seq(|elements|, i requires 0 <= i < |elements| => LowBits(elements[i]))
  }

  lemma MaskedDigits(elements: seq<nat>)
    ensures Digits(63, Masked(elements)) && (Digits(63, elements) ==> Masked(elements) == elements)
  {
    hide Pow2;
    var masked := Masked(elements);
    Positive(63);
    forall i | 0 <= i < |masked|
      ensures masked[i] < Pow2(63) && (elements[i] < Pow2(63) ==> masked[i] == elements[i])
    {
      Remainder(elements[i], Pow2(63));
    }
  }

  lemma Remainder(x: nat, m: nat)
    requires m > 0
    ensures 0 <= x % m < m && (x < m ==> x % m == x)
  {}

  /** `stream_to_u64s`: back to words; upper bits of an element are ignored. */
  method StreamToU64s(elements: seq<F>) returns (out: seq<nat>)
    ensures Digits(64, out) && |out| == DivCeil(63 * |elements|, 64)
    ensures Value(64, out) == Value(63, Masked(elements))
  {
    hide Value, DivCeil, Pow2;
    MaskedDigits(elements);
    hide Digits;
    out := Repack(63, 64, Masked(elements));
  }

  method BytesToElements(data: seq<Byte>) returns (elements: seq<F>)
    ensures Digits(63, elements) && Value(63, elements) == Value(8, data)
  {
    hide Value;
    var words := IterU64Le(data);
    elements := StreamFromU64s(words);
  }

  /** So many bytes, with the low bits of the elements' number. */
  ghost predicate Spells(bytes: seq<Byte>, elements: seq<F>, dataBytes: nat) {
    |bytes| == dataBytes && Value(8, bytes) == Value(63, Masked(elements)) % Pow2(8 * dataBytes)
  }

  method ElementsToBytes(dataBytes: nat, elements: seq<F>) returns (out: seq<Byte>)
    ensures 63 * |elements| >= 8 * dataBytes ==> Spells(out, elements, dataBytes)
  {
    hide Value, DivCeil, Pow2, Masked;
    var words := StreamToU64s(elements);
    out := CollectU64Le(dataBytes, words);
  }

  /** Any number of elements that can hold the data, cut or padded with zeros to that number, give the
      bytes back. */
  lemma BytesRoundTrip(data: seq<Byte>, elements: seq<F>, count: nat, out: seq<Byte>)
    requires Digits(63, elements) && Value(63, elements) == Value(8, data)
    requires 63 * count >= 8 * |data| && Spells(out, Fitted(elements, count), |data|)
    ensures out == data
  {
    hide Value, Pow2, Masked;
    BytesAreDigits(data);
    BytesAreDigits(out);
    ValueBound(8, data);
    Pow2Monotone(8 * |data|, 63 * count);
    ValueFitted(63, elements, count);
    MaskedDigits(Fitted(elements, count));
    Remainder(Value(8, data), Pow2(8 * |data|));
    ValueUnique(8, out, data);
  }
}
