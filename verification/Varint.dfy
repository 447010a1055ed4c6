/** Variable-length integers: seven data bits a byte, least significant first, one encoding a value. */
module Varint {
  import opened Bits
  import opened Wrappers

  datatype Error = EndOfBuffer | InvalidVarint(size: nat)

  // ---------- Bitwise operations ----------

  function BitOr(a: nat, b: nat): nat {
    if a == 0 && b == 0 then 0
    else 2 * BitOr(a / 2, b / 2) + if a % 2 == 1 || b % 2 == 1 then 1 else 0
  }

  function BitXor(a: nat, b: nat): nat {
    if a == 0 && b == 0 then 0
    else 2 * BitXor(a / 2, b / 2) + if a % 2 != b % 2 then 1 else 0
  }

  /** Low bits pass through an or with a shifted value; the bits above are or-ed. */
  lemma {:induction false} BitOrSplit(a: nat, c: nat, d: nat, k: nat)
    requires a < Pow2(k)
    ensures BitOr(a + c * Pow2(k), d * Pow2(k)) == a + BitOr(c, d) * Pow2(k)
    decreases k
  {
    hide BitOr;
    if k > 0 {
      BitOrSplit(a / 2, c, d, k - 1);
      var m := Pow2(k - 1);
      hide Pow2;
      Double(c, m);
      Double(d, m);
      Double(BitOr(c, d), m);
      BitOrStep(a, c * m, d * m);
    }
  }

  lemma Double(x: nat, m: nat)
    ensures x * (2 * m) == 2 * (x * m)
  {}

  lemma BitOrStep(a: nat, c: nat, d: nat)
    ensures BitOr(a + 2 * c, 2 * d) == 2 * BitOr(a / 2 + c, d) + a % 2
  {}

  lemma BitOrSmall(d: nat)
    ensures BitOr(0, d) == d && BitOr(1, 1) == 1
  {}

  lemma {:induction false} XorZero(a: nat)
    ensures BitXor(a, 0) == a
  {
    if a > 0 { XorZero(a / 2); }
  }

  /** Exclusive or with all ones is complement. */
  lemma {:induction false} XorOnes(a: nat, w: nat)
    requires a < Pow2(w)
    ensures BitXor(a, Pow2(w) - 1) == Pow2(w) - 1 - a
    decreases w
  {
    hide BitXor, Pow2;
    if w == 0 {
      Pow2Zero();
      XorZero(0);
    } else {
      Pow2Next(w - 1);
      XorOnes(a / 2, w - 1);
      XorStep(a, Pow2(w - 1) - 1);
    }
  }

  lemma XorStep(a: nat, b: nat)
    ensures BitXor(a, 2 * b + 1) == 2 * BitXor(a / 2, b) + 1 - a % 2
  {
    assert (2 * b + 1) / 2 == b && (2 * b + 1) % 2 == 1;
  }

  // ---------- The encoding ----------

  /** The bytes of v. */
  function Encode(v: nat): (r: seq<Byte>)
    ensures r != [] && r[|r| - 1] < 128
  {
    if v < 128 then [v] else [128 + v % 128] + Encode(v / 128)
  }

  ghost predicate Continues(fed: seq<Byte>) {
    forall i :: 0 <= i < |fed| ==> fed[i] >= 128
  }

  /** The value whose low digits are in fed and whose remaining part is u. */
  function Join(fed: seq<Byte>, u: nat): nat {
    if fed == [] then u else fed[0] % 128 + 128 * Join(fed[1..], u)
  }

  lemma {:induction false} JoinValue(fed: seq<Byte>, u: nat)
    ensures Join(fed, u) == Join(fed, 0) + u * Pow2(7 * |fed|)
    ensures Join(fed, 0) < Pow2(7 * |fed|)
  {
    if fed != [] {
      var rest := fed[1..];
      JoinValue(rest, u);
      hide Pow2, Join;
      JoinFront(fed, u);
      JoinFront(fed, 0);
      Pow2Seven(7 * |rest|);
      assert 7 * |fed| == 7 * |rest| + 7;
      Spread(u, Pow2(7 * |rest|));
    }
  }

  lemma Spread(u: nat, m: nat)
    ensures u * (128 * m) == 128 * (u * m)
  {}

  lemma Pow2Seven(n: nat)
    ensures Pow2(n + 7) == 128 * Pow2(n) && Pow2(n + 8) == 256 * Pow2(n)
  {
    Pow2Add(n, 7);
    Pow2Add(n, 8);
    assert Pow2(7) == 128 && Pow2(8) == 256;
  }

  lemma {:induction false} JoinAppend(fed: seq<Byte>, b: Byte, u: nat)
    ensures Join(fed + [b], u) == Join(fed, b % 128 + 128 * u)
  {
    if fed == [] {
      assert ([] + [b])[1..] == [];
    } else {
      assert (fed + [b])[1..] == fed[1..] + [b];
      JoinAppend(fed[1..], b, u);
    }
  }

  /** Bytes that all continue are the low digits of every value with a non-zero rest. */
  lemma {:induction false} EncodeJoin(fed: seq<Byte>, u: nat)
    requires Continues(fed) && (fed == [] || u > 0)
    ensures Encode(Join(fed, u)) == fed + Encode(u)
  {
    hide Encode, Join;
    if fed == [] {
      JoinEmpty(u);
      assert [] + Encode(u) == Encode(u);
    } else {
      var rest := fed[1..];
      JoinPositive(rest, u);
      EncodeJoin(rest, u);
      JoinFront(fed, u);
      Digits128(fed[0], Join(rest, u));
      EncodeLong(Join(fed, u));
      FrontAppend(fed, Encode(u));
    }
  }

  lemma Digits128(b: Byte, j: nat)
    requires b >= 128 && j > 0
    ensures var v := b % 128 + 128 * j; v >= 128 && v / 128 == j && 128 + v % 128 == b
  {}

  lemma {:induction false} JoinPositive(fed: seq<Byte>, u: nat)
    requires u > 0
    ensures Join(fed, u) > 0
  {
    if fed != [] { JoinPositive(fed[1..], u); }
  }

  /** Conversely, what an encoding starts with are its low digits. */
  lemma {:induction false} EncodeSplit(fed: seq<Byte>, v: nat) returns (u: nat)
    requires fed < Encode(v)
    ensures Continues(fed) && (fed == [] || u > 0)
    ensures v == Join(fed, u) && Encode(v) == fed + Encode(u)
    decreases |fed|
  {
    hide Encode, Join;
    if fed == [] {
      u := v;
      JoinEmpty(v);
      assert [] + Encode(v) == Encode(v);
    } else {
      if v < 128 { EncodeShort(v); }
      EncodeLong(v);
      TailPrefix(fed, 128 + v % 128, Encode(v / 128));
      u := EncodeSplit(fed[1..], v / 128);
      SplitStep(fed, v, u);
    }
  }

  lemma TailPrefix(s: seq<Byte>, head: Byte, tail: seq<Byte>)
    requires s != [] && s < [head] + tail
    ensures s[0] == head && s[1..] < tail
  {}

  lemma SplitStep(fed: seq<Byte>, v: nat, u: nat)
    requires fed != [] && v >= 128 && fed[0] == 128 + v % 128
    requires Continues(fed[1..]) && (fed[1..] == [] || u > 0)
    requires v / 128 == Join(fed[1..], u) && Encode(v / 128) == fed[1..] + Encode(u)
    ensures Continues(fed) && u > 0 && v == Join(fed, u) && Encode(v) == fed + Encode(u)
  {
    hide Encode, Join;
    var rest := fed[1..];
    ContinuesFront(fed);
    JoinFront(fed, u);
    JoinEmpty(u);
    hide Continues;
    Recompose(v);
    EncodeLong(v);
    FrontAppend(fed, Encode(u));
  }

  lemma ContinuesFront(fed: seq<Byte>)
    requires fed != [] && fed[0] >= 128 && Continues(fed[1..])
    ensures Continues(fed)
  {
    assert fed == [fed[0]] + fed[1..];
  }

  lemma FrontAppend(s: seq<Byte>, t: seq<Byte>)
    requires s != []
    ensures [s[0]] + (s[1..] + t) == s + t
  {}

  lemma Recompose(v: nat)
    ensures (128 + v % 128) % 128 + 128 * (v / 128) == v
  {}

  lemma JoinEmpty(u: nat)
    ensures Join([], u) == u
  {}

  lemma JoinFront(fed: seq<Byte>, u: nat)
    requires fed != []
    ensures Join(fed, u) == fed[0] % 128 + 128 * Join(fed[1..], u)
  {}

  lemma EncodeHead(u: nat)
    ensures Encode(u)[0] < 128 ==> u == Encode(u)[0] && |Encode(u)| == 1
    ensures Encode(u)[0] >= 128 ==> u >= 128
    ensures Encode(u)[0] % 128 == u % 128
  {}

  /** No encoding starts another: a value is determined by any text its encoding starts. */
  lemma PrefixFree(v: nat, u: nat)
    requires Encode(v) <= Encode(u)
    ensures v == u
  {
    var last := |Encode(v)| - 1;
    var fed := Encode(v)[..last];
    assert fed < Encode(v) && fed < Encode(u);
    var a := EncodeSplit(fed, v);
    var b := EncodeSplit(fed, u);
    assert Encode(v)[last] == Encode(a)[0] && Encode(u)[last] == Encode(b)[0];
    EncodeHead(a);
    EncodeHead(b);
  }

  // ---------- Writing ----------

  lemma ContinuationByte(b: Byte)
    ensures BitOr(b, 128) == 128 + b % 128
  {
    assert Pow2(7) == 128;
    BitOrSplit(b % 128, b / 128, 1, 7);
    BitOrSmall(1);
    assert b / 128 == 0 || b / 128 == 1;
  }

  /** Appends the encoding to the buffer. */
  method Write(value: nat, buf: seq<Byte>) returns (out: seq<Byte>)
    ensures out == buf + Encode(value)
  {
    hide Encode, BitOr;
    if value < 128 {
      EncodeShort(value);
      return buf + [value];
    }
    var val := value;
    out := buf;
    while val >= 128
      invariant out + Encode(val) == buf + Encode(value)
    {
      ContinuationByte(val % 256);
      LowBits(val);
      EncodeLong(val);
      out := out + [BitOr(val % 256, 128)];
      val := val / 128;
    }
    EncodeShort(val);
    out := out + [val];
  }

  lemma LowBits(v: nat)
    ensures v % 256 % 128 == v % 128
  {}

  lemma EncodeShort(v: nat)
    requires v < 128
    ensures Encode(v) == [v]
  {}

  lemma EncodeLong(v: nat)
    requires v >= 128
    ensures Encode(v) == [128 + v % 128] + Encode(v / 128)
  {}

  /** Byte i holds bits 7 i to 7 i + 6, and all bytes but the last are marked. */
  lemma {:induction false} EncodeDigits(v: nat, i: nat)
    requires i < |Encode(v)|
    ensures Encode(v)[i] == v / Pow2(7 * i) % 128 + if i + 1 < |Encode(v)| then 128 else 0
    decreases v
  {
    hide Encode, Pow2;
    Pow2Zero();
    if v < 128 {
      EncodeShort(v);
    } else {
      EncodeLong(v);
      if i > 0 {
        EncodeDigits(v / 128, i - 1);
        Pow2Seven(7 * (i - 1));
        DivDiv(v, 128, Pow2(7 * (i - 1)));
        assert 7 * i == 7 * (i - 1) + 7;
      }
    }
  }

  /** No byte too few and none too many. */
  lemma {:induction false} EncodeRange(v: nat)
    ensures v < Pow2(7 * |Encode(v)|) && (|Encode(v)| > 1 ==> v >= Pow2(7 * (|Encode(v)| - 1)))
  {
    hide Encode, Pow2;
    Pow2Zero();
    Pow2Seven(0);
    if v < 128 {
      EncodeShort(v);
    } else {
      EncodeLong(v);
      EncodeRange(v / 128);
      var n := |Encode(v / 128)|;
      Pow2Seven(7 * n);
      assert 7 * (n + 1) == 7 * n + 7;
      if n > 1 {
        Pow2Seven(7 * (n - 1));
        assert 7 * n == 7 * (n - 1) + 7;
      }
    }
  }

  lemma {:induction false} BitLenSeven(v: nat)
    requires v >= 128
    ensures BitLen(v) == BitLen(v / 128) + 7
  {
    hide BitLen, Pow2;
    var n := BitLen(v / 128);
    BitLenBounds(v / 128);
    Pow2Seven(n);
    Pow2Seven(n - 1);
    BitLenUnique(v, n + 7);
  }

  /** The number of bytes, from the number of significant bits. */
  function Size(value: nat): nat {
    var dataBits := BitLen(value);
    if (dataBits + 6) / 7 > 1 then (dataBits + 6) / 7 else 1
  }

  lemma {:induction false} SizeIsLength(v: nat)
    ensures Size(v) == |Encode(v)|
  {
    if v < 128 {
      BitLenSmall(v, 7);
    } else {
      SizeIsLength(v / 128);
      BitLenSeven(v);
      assert BitLen(v / 128) >= 1;
    }
  }

  lemma {:induction false} BitLenSmall(v: nat, n: nat)
    ensures BitLen(v) <= n <==> v < Pow2(n)
    decreases n
  {
    if n > 0 && v > 0 { BitLenSmall(v / 2, n - 1); }
  }

  // ---------- Reading ----------

  /** Some value of at most w bits has an encoding that starts with s. */
  ghost predicate Starts(s: seq<Byte>, w: nat) {
    exists v: nat :: v < Pow2(w) && s <= Encode(v)
  }

  class Decoder {
    const width: nat
    var result: nat
    var bitsRead: nat
    ghost var fed: seq<Byte>

    /** Between bytes: every byte so far asked for another and fits, with a bit to spare. */
    ghost predicate Valid() reads this {
      width >= 8 && Continues(fed) && bitsRead == 7 * |fed| && bitsRead < width && result == Join(fed, 0)
    }

    constructor (w: nat)
      requires w >= 8
      ensures Valid() && width == w && fed == []
    {
      width, result, bitsRead, fed := w, 0, 0, [];
    }

    /** Accepts a byte exactly as long as some value's encoding can still come out of it. */
    method Feed(byte: Byte) returns (r: Result<Option<nat>, Error>)
      requires Valid()
      modifies this
      ensures r.Ok? <==> Starts(old(fed) + [byte], width)
      ensures r.Ok? && r.value.Some? ==> r.value.value < Pow2(width) && old(fed) + [byte] == Encode(r.value.value)
      ensures r.Ok? && r.value.None? ==> byte >= 128 && Valid() && fed == old(fed) + [byte]
      ensures r.Err? ==> r.error == InvalidVarint(width / 8) && Valid() && fed == old(fed)
    {
      hide Encode, Join, Starts, Pow2, BitLen, BitOr;
      if byte == 0 && bitsRead > 0 {
        ZeroRefused(fed, width);
        return Err(InvalidVarint(width / 8));
      }
      var remainingBits := width - bitsRead;
      if remainingBits <= 7 {
        var relevantBits := BitLen(byte);
        if relevantBits > remainingBits {
          TooLarge(fed, byte, width);
          return Err(InvalidVarint(width / 8));
        }
      }
      DataFits(fed, byte, width);
      result := BitOr(result, ((byte % 128) * Pow2(bitsRead)) % Pow2(width));
      if byte < 128 {
        Completes(fed, byte, width);
        return Ok(Some(result));
      }
      Goes(fed, byte, width);
      bitsRead := bitsRead + 7;
      fed := fed + [byte];
      r := Ok(None);
    }
  }

  lemma ZeroRefused(fed: seq<Byte>, w: nat)
    requires fed != []
    ensures !Starts(fed + [0], w)
  {
    hide Encode, Join, Pow2;
    forall v: nat | v < Pow2(w)
      ensures !(fed + [0] <= Encode(v))
    {
      if fed + [0] <= Encode(v) {
        assert fed < Encode(v);
        var u := EncodeSplit(fed, v);
        assert Encode(v)[|fed|] == Encode(u)[0];
        EncodeHead(u);
        assert false;
      }
    }
  }

  /** A last byte with bits beyond the width, or a byte too many, belongs to no value of the width. */
  lemma TooLarge(fed: seq<Byte>, byte: Byte, w: nat)
    requires 7 * |fed| < w <= 7 * |fed| + 7 && BitLen(byte) > w - 7 * |fed|
    ensures !Starts(fed + [byte], w)
  {
    hide Encode, Join, Pow2, BitLen;
    var k, remaining := 7 * |fed|, w - 7 * |fed|;
    forall v: nat | v < Pow2(w)
      ensures !(fed + [byte] <= Encode(v))
    {
      if fed + [byte] <= Encode(v) {
        assert fed < Encode(v);
        var u := EncodeSplit(fed, v);
        assert Encode(v)[|fed|] == Encode(u)[0];
        EncodeHead(u);
        JoinValue(fed, u);
        BitLenSmall(byte, remaining);
        Pow2Monotone(remaining, 7);
        Pow2Small();
        assert u >= Pow2(remaining);
        Pow2Add(remaining, k);
        Scale(Pow2(remaining), u, Pow2(k));
        assert false;
      }
    }
  }

  lemma Scale(a: nat, b: nat, m: nat)
    requires a <= b
    ensures a * m <= b * m
  {}

  /** The data bits land above what was read, below the width, and are simply added. */
  lemma DataFits(fed: seq<Byte>, byte: Byte, w: nat)
    requires 7 * |fed| < w && (w <= 7 * |fed| + 7 ==> BitLen(byte) <= w - 7 * |fed|)
    ensures Join(fed, byte % 128) < Pow2(w)
    ensures BitOr(Join(fed, 0), (byte % 128 * Pow2(7 * |fed|)) % Pow2(w)) == Join(fed, byte % 128)
  {
    hide Encode, Join, Pow2, BitLen, BitOr;
    var k := 7 * |fed|;
    var data := byte % 128;
    JoinValue(fed, data);
    var top := if w <= k + 7 then w - k else 7;
    Pow2Small();
    if w <= k + 7 { BitLenSmall(byte, w - k); }
    assert data < Pow2(top);
    Pow2Add(top, k);
    Pow2Monotone(top + k, w);
    Fits(Join(fed, 0), data, Pow2(k), Pow2(top));
    BitOrSplit(Join(fed, 0), 0, data, k);
    BitOrSmall(data);
    ModSmall(data * Pow2(k), Pow2(w));
  }

  lemma ModSmall(a: nat, m: nat)
    requires a < m
    ensures a % m == a
  {}

  lemma Fits(x: nat, data: nat, m: nat, n: nat)
    requires x < m && data < n
    ensures x + data * m < n * m
  {
    Scale(data + 1, n, m);
  }

  lemma Completes(fed: seq<Byte>, byte: Byte, w: nat)
    requires Continues(fed) && byte < 128 && (byte == 0 ==> fed == []) && Join(fed, byte) < Pow2(w)
    ensures Encode(Join(fed, byte)) == fed + [byte] && Starts(fed + [byte], w)
  {
    hide Join, Pow2;
    EncodeJoin(fed, byte);
    assert Encode(byte) == [byte];
    assert fed + [byte] <= Encode(Join(fed, byte));
  }

  lemma Goes(fed: seq<Byte>, byte: Byte, w: nat)
    requires Continues(fed) && byte >= 128 && 7 * |fed| < w && (w <= 7 * |fed| + 7 ==> BitLen(byte) <= w - 7 * |fed|)
    ensures Starts(fed + [byte], w) && 7 * |fed| + 7 < w
    ensures Join(fed + [byte], 0) == Join(fed, byte % 128)
  {
    hide Join, Pow2, BitLen, Starts;
    Pow2Small();
    BitLenSmall(byte, 7);
    JoinAppend(fed, byte, 0);
    var next := fed + [byte];
    assert 7 * |next| == 7 * |fed| + 7;
    StartsMore(next, w);
  }

  lemma StartsMore(fed: seq<Byte>, w: nat)
    requires fed != [] && Continues(fed) && 7 * |fed| < w
    ensures Starts(fed, w)
  {
    hide Join, Pow2, Encode;
    var n := 7 * |fed|;
    EncodeJoin(fed, 1);
    JoinValue(fed, 1);
    Pow2Next(n);
    Pow2Monotone(n + 1, w);
    assert fed <= Encode(Join(fed, 1));
  }

  /** Reads an encoding from the front of the buffer. */
  method Read(w: nat, buf: seq<Byte>) returns (r: Result<nat, Error>, rest: seq<Byte>)
    requires w >= 8
    ensures r.Ok? ==> r.value < Pow2(w) && buf == Encode(r.value) + rest
    ensures r.Err? ==> forall v: nat :: v < Pow2(w) ==> !(Encode(v) <= buf)
    ensures r == Err(EndOfBuffer) <==> Starts(buf, w) && forall v: nat :: v < Pow2(w) ==> !(Encode(v) <= buf)
    ensures r.Err? ==> r.error in {EndOfBuffer, InvalidVarint(w / 8)}
  {
    hide Encode, Starts, Pow2;
    var decoder := new Decoder(w);
    var i := 0;
    EmptyStarts(w);
    while true
      invariant 0 <= i <= |buf| && decoder.Valid() && decoder.width == w && decoder.fed == buf[..i]
      invariant Starts(buf[..i], w)
      invariant fresh(decoder)
      decreases |buf| - i
    {
      if i == |buf| {
        assert buf[..i] == buf;
        Unfinished(buf, w);
        return Err(EndOfBuffer), [];
      }
      var byte := buf[i];
      assert buf[..i + 1] == buf[..i] + [byte];
      i := i + 1;
      var fed := decoder.Feed(byte);
      if fed.Err? {
        Malformed(buf, i, w);
        return Err(fed.error), buf[i..];
      }
      if fed.value.Some? {
        var v := fed.value.value;
        assert buf == Encode(v) + buf[i..];
        assert Encode(v) <= buf;
        return Ok(v), buf[i..];
      }
    }
  }

  lemma EmptyStarts(w: nat)
    ensures Starts([], w)
  {
    assert [] <= Encode(0);
  }

  /** An encoding goes past bytes that all continue. */
  lemma PastContinued(v: nat, buf: seq<Byte>, n: nat)
    requires n <= |buf| && Continues(buf[..n]) && Encode(v) <= buf
    ensures |Encode(v)| > n
  {}

  lemma Unfinished(buf: seq<Byte>, w: nat)
    requires Continues(buf)
    ensures forall v: nat :: v < Pow2(w) ==> !(Encode(v) <= buf)
  {}

  lemma StartsShorter(s: seq<Byte>, t: seq<Byte>, w: nat)
    requires s <= t && Starts(t, w)
    ensures Starts(s, w)
  {}

  lemma Malformed(buf: seq<Byte>, i: nat, w: nat)
    requires 0 < i <= |buf| && Continues(buf[..i - 1]) && !Starts(buf[..i], w)
    ensures !Starts(buf, w) && forall v: nat :: v < Pow2(w) ==> !(Encode(v) <= buf)
  {
    hide Pow2, Encode, Starts;
    var fed, n := buf[..i], i - 1;
    if Starts(buf, w) { StartsShorter(fed, buf, w); }
    forall v: nat | v < Pow2(w)
      ensures !(Encode(v) <= buf)
    {
      if Encode(v) <= buf {
        PastContinued(v, buf, n);
        StartsItself(fed, v, buf, w);
      }
    }
  }

  lemma StartsItself(s: seq<Byte>, v: nat, buf: seq<Byte>, w: nat)
    requires s <= buf && Encode(v) <= buf && |s| <= |Encode(v)| && v < Pow2(w)
    ensures Starts(s, w)
  {}

  /** Written values are read back, whatever follows, and their size is what was written. */
  method RoundTrip(w: nat, value: nat, after: seq<Byte>)
    returns (written: seq<Byte>, r: Result<nat, Error>, rest: seq<Byte>)
    requires w >= 8 && value < Pow2(w)
    ensures |written| == Size(value) && r == Ok(value) && rest == after
  {
    hide Encode, Size, Pow2;
    written := Write(value, []);
    assert [] + Encode(value) == written;
    SizeIsLength(value);
    r, rest := Read(w, written + after);
    assert Encode(value) <= written + after;
    SameStart(value, r.value, written + after);
    assert rest == (written + after)[|written|..];
  }

  /** A buffer starts with the encoding of one value at most. */
  lemma SameStart(v: nat, u: nat, buf: seq<Byte>)
    requires Encode(v) <= buf && Encode(u) <= buf
    ensures v == u
  {
    hide Encode;
    if |Encode(v)| <= |Encode(u)| {
      assert Encode(v) <= Encode(u);
      PrefixFree(v, u);
    } else {
      assert Encode(u) <= Encode(v);
      PrefixFree(u, v);
    }
  }

  // ---------- Signed values ----------

  /** The bits of a signed number of w bits, as an unsigned number. */
  function Pattern(n: int, w: nat): nat { n % Pow2(w) }

  function FromPattern(p: nat, w: nat): int
    requires w >= 1
  {
    if p < Pow2(w - 1) then p else p - Pow2(w)
  }

  ghost predicate FitsSigned(n: int, w: nat)
    requires w >= 1
  {
    0 <= n + Pow2(w - 1) && n < Pow2(w - 1)
  }

  function AsZigzag(n: int, w: nat): nat
    requires w >= 1
  {
    BitXor(Pattern(2 * n, w), Pattern(n / Pow2(w - 1), w))
  }

  function UnZigzag(value: nat, w: nat): int
    requires w >= 1
  {
    FromPattern(BitXor(Pattern(value / 2, w), Pattern(-(value % 2), w)), w)
  }

  /** Zigzag order: 0, -1, 1, -2, 2, ... */
  lemma ZigzagOrder(n: int, w: nat)
    requires w >= 1 && FitsSigned(n, w)
    ensures AsZigzag(n, w) == if n >= 0 then 2 * n else -2 * n - 1
    ensures AsZigzag(n, w) < Pow2(w)
  {
    hide BitXor, Pattern, Pow2, AsZigzag;
    Pow2Next(w - 1);
    ShiftedOut(n, w);
    if n >= 0 {
      PatternSmall(2 * n, w);
      PatternSmall(0, w);
      XorZero(2 * n);
    } else {
      PatternNegative(2 * n, w);
      PatternNegative(-1, w);
      XorOnes(2 * n + Pow2(w), w);
    }
  }

  /** The right operand: the sign in every bit. */
  lemma ShiftedOut(n: int, w: nat)
    requires w >= 1 && FitsSigned(n, w)
    ensures AsZigzag(n, w) == BitXor(Pattern(2 * n, w), Pattern(if n >= 0 then 0 else -1, w))
  {
    hide BitXor, Pattern, Pow2;
    SignOf(n, Pow2(w - 1));
  }

  lemma SignOf(n: int, m: nat)
    requires 0 <= n + m && n < m
    ensures n / m == if n >= 0 then 0 else -1
  {}

  lemma PatternSmall(n: nat, w: nat)
    requires n < Pow2(w)
    ensures Pattern(n, w) == n
  {
    hide Pow2;
    ModSmall(n, Pow2(w));
  }

  lemma PatternNegative(n: int, w: nat)
    requires 0 <= n + Pow2(w) && n < 0
    ensures Pattern(n, w) == n + Pow2(w)
  {
    hide Pow2;
    var m := Pow2(w);
    assert n == m * (-1) + (n + m);
    assert n % m == (n + m) % m by { ModPeriod(n, m); }
  }

  lemma ModPeriod(n: int, m: nat)
    requires m > 0
    ensures (n + m) % m == n % m
  {
    var q, r, q', r' := n / m, n % m, (n + m) / m, (n + m) % m;
    assert n == m * q + r && n + m == m * q' + r';
    assert m * (q + 1 - q') == r' - r;
    SmallMultiple(m, q + 1 - q', r' - r);
  }

  lemma SmallMultiple(m: int, k: int, d: int)
    requires m > 0 && m * k == d && -m < d < m
    ensures d == 0
  {}

  lemma UnZigzagOrder(value: nat, w: nat)
    requires w >= 1 && value < Pow2(w)
    ensures UnZigzag(value, w) == if value % 2 == 0 then value / 2 else -(value / 2) - 1
    ensures FitsSigned(UnZigzag(value, w), w)
  {
    hide BitXor, Pattern, Pow2, UnZigzag;
    Pow2Next(w - 1);
    var half := value / 2;
    assert half < Pow2(w - 1);
    PatternSmall(half, w);
    if value % 2 == 0 {
      Unshifted(value, w, 0);
      PatternSmall(0, w);
      XorZero(half);
    } else {
      Unshifted(value, w, -1);
      PatternNegative(-1, w);
      XorOnes(half, w);
    }
  }

  lemma Unshifted(value: nat, w: nat, sign: int)
    requires w >= 1 && sign == -(value % 2)
    ensures UnZigzag(value, w) == FromPattern(BitXor(Pattern(value / 2, w), Pattern(sign, w)), w)
  {}

  /** Zigzag is a bijection between the signed and the unsigned numbers of w bits. */
  lemma ZigzagBijection(n: int, value: nat, w: nat)
    requires w >= 1 && FitsSigned(n, w) && value < Pow2(w)
    ensures AsZigzag(n, w) == value <==> UnZigzag(value, w) == n
  {
    hide AsZigzag, UnZigzag;
    ZigzagOrder(n, w);
    UnZigzagOrder(value, w);
  }

  method WriteSigned(w: nat, value: int, buf: seq<Byte>) returns (out: seq<Byte>)
    requires w >= 8 && FitsSigned(value, w)
    ensures out == buf + Encode(AsZigzag(value, w))
  {
    hide Encode, AsZigzag;
    out := Write(AsZigzag(value, w), buf);
  }

  function SizeSigned(w: nat, value: int): nat
    requires w >= 8
  {
    Size(AsZigzag(value, w))
  }

  method ReadSigned(w: nat, buf: seq<Byte>) returns (r: Result<int, Error>, rest: seq<Byte>)
    requires w >= 8
    ensures r.Ok? ==> FitsSigned(r.value, w) && buf == Encode(AsZigzag(r.value, w)) + rest
    ensures r.Err? ==> forall n :: FitsSigned(n, w) ==> !(Encode(AsZigzag(n, w)) <= buf)
    ensures r == Err(EndOfBuffer) <==> Starts(buf, w) && forall v: nat :: v < Pow2(w) ==> !(Encode(v) <= buf)
    ensures r.Err? ==> r.error in {EndOfBuffer, InvalidVarint(w / 8)}
  {
    hide Encode, AsZigzag, UnZigzag, Pow2;
    var u, after := Read(w, buf);
    if u.Err? {
      forall n | FitsSigned(n, w)
        ensures !(Encode(AsZigzag(n, w)) <= buf)
      {
        ZigzagOrder(n, w);
      }
      return Err(u.error), after;
    }
    UnZigzagOrder(u.value, w);
    ZigzagBijection(UnZigzag(u.value, w), u.value, w);
    return Ok(UnZigzag(u.value, w)), after;
  }

  /** Written signed values are read back, whatever follows, and their size is what was written. */
  method RoundTripSigned(w: nat, value: int, after: seq<Byte>)
    returns (written: seq<Byte>, r: Result<int, Error>, rest: seq<Byte>)
    requires w >= 8 && FitsSigned(value, w)
    ensures |written| == SizeSigned(w, value) && r == Ok(value) && rest == after
  {
    hide Encode, Size, Pow2, AsZigzag, UnZigzag;
    var zigzag := AsZigzag(value, w);
    ZigzagOrder(value, w);
    written := WriteSigned(w, value, []);
    assert [] + Encode(zigzag) == written;
    SizeIsLength(zigzag);
    r, rest := ReadSigned(w, written + after);
    assert Encode(zigzag) <= written + after;
    ZigzagOrder(r.value, w);
    SameStart(zigzag, AsZigzag(r.value, w), written + after);
    assert rest == (written + after)[|written|..];
    ZigzagBijection(value, zigzag, w);
    ZigzagBijection(r.value, zigzag, w);
  }
}
