/** The sizes of the objects of the coding scheme, and the search for them. */
module Topology {
  import opened Bits
  import opened Rational
  import opened Wrappers

  const SECURITY_BITS: int := 126
  /** 2^7 = 128 is the next power of two above `SECURITY_BITS`. */
  const LOG2_PRECISION: nat := 7

  function DivCeil(a: nat, b: nat): (q: nat)
    requires b > 0
    ensures q * b >= a && (a > 0 ==> q >= 1 && (q - 1) * b < a)
    ensures a == 0 ==> q == 0
  {
    DivCeilBounds(a, b);
    (a + b - 1) / b
  }

  lemma DivCeilBounds(a: nat, b: nat)
    requires b > 0
    ensures var q := (a + b - 1) / b;
      q * b >= a && (a > 0 ==> q >= 1 && (q - 1) * b < a) && (a == 0 ==> q == 0)
  {}

  /** The least power of two that is at least n. */
  function NextPow2(n: nat): nat {
    if n <= 1 then 1 else Pow2(BitLen(n - 1))
  }

  lemma NextPow2Bounds(n: nat)
    requires n >= 1
    ensures n <= NextPow2(n) < 2 * n
    ensures NextPow2(n) == Pow2(Log2(NextPow2(n)))
  {
    if n > 1 {
      BitLenBounds(n - 1);
      Log2Pow2(BitLen(n - 1));
    } else {
      Log2Pow2(0);
    }
  }

  lemma NextPow2Same(n: nat)
    requires n >= 1 && n == Pow2(Log2(n))
    ensures NextPow2(n) == n
  {
    NextPow2Bounds(n);
    var a, b := Log2(n), Log2(NextPow2(n));
    hide NextPow2, Log2;
    if a < b {
      Pow2Monotone(a + 1, b);
      Pow2Next(a);
    } else {
      Pow2Monotone(b, a);
    }
  }

  /** How many 63-bit elements hold that many bits. */
  function BitsToElements(bits: nat): (els: nat)
    ensures 63 * els >= bits && (bits > 0 ==> 63 * (els - 1) < bits) && (bits == 0 ==> els == 0)
  {
    DivCeil(bits, 63)
  }

  const USIZE_MAX: nat := 0xFFFF_FFFF_FFFF_FFFF
  /** The largest power of two in a machine word. */
  const TOP_BIT: nat := 0x8000_0000_0000_0000

  /** A number of samples, or that no number is enough. */
  datatype Samples = Unlimited | Finite(count: nat)

  /** As a machine word: the largest one when no number is enough. */
  function Word(r: Samples): nat {
    match r
    case Unlimited => USIZE_MAX
    case Finite(count) => count
  }

  datatype Topology = Topology(
    dataBytes: nat,
    dataCols: nat,
    dataRows: nat,
    encodedRows: nat,
    samples: nat,
    columnSamples: nat,
    minShards: nat,
    totalShards: nat)

  function WithCols(dataBytes: nat, n: nat, k: nat, cols: nat): Topology
    requires n >= 1 && cols >= 1
  {
    var dataEls := BitsToElements(8 * dataBytes);
    var dataRows := DivCeil(dataEls, cols);
    var samples := DivCeil(dataRows, n);
    Topology(dataBytes, cols, dataRows, NextPow2((n + k) * samples), samples, 0, n, n + k)
  }

  /** What the protocol relies on. */
  ghost predicate Sized(t: Topology) {
    && t.dataRows >= 1 && t.dataCols >= 1 && t.minShards >= 1 && t.minShards <= t.totalShards
    && t.encodedRows >= 1 && t.encodedRows == Pow2(Log2(t.encodedRows))
    && t.dataRows <= t.encodedRows
    && t.totalShards * t.samples <= t.encodedRows
    && t.minShards * t.samples >= t.dataRows
  }

  lemma WithColsSized(dataBytes: nat, n: nat, k: nat, cols: nat)
    requires dataBytes >= 1 && n >= 1 && cols >= 1
    ensures Sized(WithCols(dataBytes, n, k, cols))
    ensures WithCols(dataBytes, n, k, cols).dataRows * cols >= BitsToElements(8 * dataBytes)
    ensures WithCols(dataBytes, n, k, cols).encodedRows < 2 * ((n + k) * WithCols(dataBytes, n, k, cols).samples)
    // room for all the bits, and no row and no sample more than needed
    ensures 63 * (WithCols(dataBytes, n, k, cols).dataRows * cols) >= 8 * dataBytes
    ensures (WithCols(dataBytes, n, k, cols).dataRows - 1) * cols < BitsToElements(8 * dataBytes)
    ensures 63 * ((WithCols(dataBytes, n, k, cols).dataRows - 1) * cols) < 8 * dataBytes
    ensures (WithCols(dataBytes, n, k, cols).samples - 1) * n < WithCols(dataBytes, n, k, cols).dataRows
  {
    hide DivCeil, NextPow2, Pow2, Log2;
    var t := WithCols(dataBytes, n, k, cols);
    var s := t.samples;
    assert (n + k) * s == n * s + k * s && k * s >= 0;
    assert n * s >= 1 by { assert s * n == n * s; }
    NextPow2Bounds((n + k) * s);
  }

  // ---------- Required samples ----------

  /** One minus (k + 1) / (2 m), for m encoded rows of which k are redundant. */
  ghost function Miss(encodedRows: nat, dataRows: nat): real
    requires encodedRows >= 1
  {
    (encodedRows + dataRows - 1) as real / (2 * encodedRows) as real
  }

  /** The number of samples for a logarithm of N / 128. */
  function SamplesFor(N: int): Samples {
    if N >= 0 then Unlimited else Finite(DivCeil(SECURITY_BITS * 128, -N))
  }

  ghost predicate IsRequired(encodedRows: nat, dataRows: nat, r: Samples)
    requires encodedRows >= 1
  {
    exists N :: IsLog2Ceil(Miss(encodedRows, dataRows), LOG2_PRECISION, N) && r == SamplesFor(N)
  }

  lemma RequiredUnique(m: nat, d: nat, r: Samples, r': Samples)
    requires m >= 1 && IsRequired(m, d, r) && IsRequired(m, d, r')
    ensures r == r'
  {
    hide IsLog2Ceil, SamplesFor, Miss;
    var N :| IsLog2Ceil(Miss(m, d), LOG2_PRECISION, N) && r == SamplesFor(N);
    var N' :| IsLog2Ceil(Miss(m, d), LOG2_PRECISION, N') && r' == SamplesFor(N');
    Log2CeilUnique(Miss(m, d), LOG2_PRECISION, N, N');
  }

  method RequiredSamples(t: Topology) returns (r: Samples)
    requires 1 <= t.dataRows <= t.encodedRows
    ensures IsRequired(t.encodedRows, t.dataRows, r)
  {
    hide IsLog2Ceil, Pow2;
    var k, m := t.encodedRows - t.dataRows, t.encodedRows;
    // 1 - (k + 1) / (2 m)
    var numerator, denominator := Log2Ceil(2 * m - (k + 1), 2 * m, LOG2_PRECISION);
    assert IsLog2Ceil(Miss(m, t.dataRows), LOG2_PRECISION, numerator);
    if numerator >= 0 {
      return Unlimited;
    }
    // 126 / -(numerator / denominator)
    Pow2Small();
    var required := CeilToU128(SECURITY_BITS * denominator, -numerator);
    CeilIsDivCeil(SECURITY_BITS * 128, -numerator);
    r := Finite(required);
  }

  lemma CeilIsDivCeil(a: nat, b: nat)
    requires 0 < a < U128_MAX && b > 0
    ensures CeilToU128(a, b) == DivCeil(a, b)
  {
    hide CeilToU128, DivCeil;
    var p, q := CeilToU128(a, b), DivCeil(a, b);
    if p < q { CeilOrder(p, q, b); }
    if q < p { CeilOrder(q, p, b); }
  }

  lemma CeilOrder(p: nat, q: nat, b: nat)
    requires p < q
    ensures p * b <= (q - 1) * b
  {}

  // ---------- What the required samples guarantee ----------

  lemma {:induction false} PowerPositive(x: real, n: nat)
    requires x > 0.0
    ensures Power(x, n) > 0.0
  {
    if n > 0 { PowerPositive(x, n - 1); }
  }

  lemma {:induction false} PowerMonotone(x: real, y: real, n: nat)
    requires 0.0 < x <= y
    ensures Power(x, n) <= Power(y, n)
    ensures n > 0 && x < y ==> Power(x, n) < Power(y, n)
  {
    if n > 0 {
      PowerMonotone(x, y, n - 1);
      PowerPositive(x, n - 1);
      PowerPositive(y, n - 1);
      ProductOrder(x, y, Power(x, n - 1), Power(y, n - 1));
    }
  }

  lemma ProductOrder(x: real, y: real, a: real, b: real)
    requires 0.0 < x <= y && 0.0 < a <= b
    ensures x * a <= y * b && (x < y ==> x * a < y * b)
  {}

  lemma {:induction false} PowerPower(x: real, m: nat, n: nat)
    ensures Power(Power(x, m), n) == Power(x, m * n)
    decreases n
  {
    if n > 0 {
      PowerPower(x, m, n - 1);
      assert m * n == m + m * (n - 1);
      PowerAdd(x, m, m * (n - 1));
    }
  }

  lemma MissBounds(m: nat, d: nat)
    requires 1 <= d <= m
    ensures 0.5 <= Miss(m, d) < 1.0
  {
    var a, b := (m + d - 1) as real, (2 * m) as real;
    var r := a / b;
    assert r * b == a && b <= 2.0 * a && a < b;
    NonNegativeFactor(r - 0.5, b);
    PositiveFactor(1.0 - r, b);
  }

  lemma NonNegativeFactor(x: real, b: real)
    requires b > 0.0 && x * b >= 0.0
    ensures x >= 0.0
  {}

  /** The logarithm lies between -128/128 and 0. */
  lemma LogRange(m: nat, d: nat, N: int)
    requires 1 <= d <= m && IsLog2Ceil(Miss(m, d), LOG2_PRECISION, N)
    ensures -128 <= N <= 0
  {
    hide TwoTo, Power, Pow2, Miss;
    var x := Miss(m, d);
    MissBounds(m, d);
    Pow2Small();
    PowerMonotone(0.5, x, 128);
    PowerMonotone(x, 1.0, 128);
    TwoToSmall();
    PowerTwoTo(-1, 128);
    PowerTwoTo(0, 128);
    if N < -128 { TwoToMonotone(N + 1, -128); TwoToNext(N); }
    if N > 0 { TwoToMonotone(0, N - 1); }
  }

  lemma TwoToSmall()
    ensures TwoTo(0) == 1.0 && TwoTo(-1) == 0.5
  {}

  /** A finite requirement is between 126 and 126 * 128, so its conversion to a machine word is exact,
      and that many samples bring the miss below 2^-126.  There is no finite requirement exactly when
      the miss is so close to 1 that its 128th power exceeds one half. */
  lemma RequiredMeaning(m: nat, d: nat, r: Samples)
    requires 1 <= d <= m && IsRequired(m, d, r)
    ensures r.Unlimited? <==> Power(Miss(m, d), 128) > 0.5
    ensures r.Finite? ==> SECURITY_BITS <= r.count <= SECURITY_BITS * 128
    ensures r.Finite? ==> Power(Miss(m, d), r.count) <= TwoTo(-126)
    ensures r.Finite? ==> exists N: int :: IsLog2Ceil(Miss(m, d), 7, N) && Fewest(r.count, -N)
  {
    hide TwoTo, Power, Pow2, Miss, DivCeil;
    var x := Miss(m, d);
    var N :| IsLog2Ceil(x, LOG2_PRECISION, N) && r == SamplesFor(N);
    LogRange(m, d, N);
    MissBounds(m, d);
    Pow2Small();
    TwoToSmall();
    if N >= 0 {
      TwoToMonotone(-1, N - 1);
    } else {
      TwoToMonotone(N, -1);
      CountRange(r.count, -N);
      ManySamples(x, N, r.count);
    }
  }

  /** The fewest samples that, each worth b / 128 bits, are worth 126. */
  ghost predicate Fewest(samples: nat, b: int) {
    samples * b >= 126 * 128 && (samples - 1) * b < 126 * 128
  }

  lemma CountRange(q: nat, b: nat)
    requires 1 <= b <= 128 && q == DivCeil(SECURITY_BITS * 128, b)
    ensures SECURITY_BITS <= q <= SECURITY_BITS * 128
    ensures q * b >= SECURITY_BITS * 128 && Fewest(q, b)
  {
    hide DivCeil;
    TimesMonotone(q, b, 128);
    TimesMonotone(q - 1, 1, b);
  }

  lemma TimesMonotone(a: nat, b: nat, c: nat)
    requires b <= c
    ensures a * b <= a * c
  {}

  lemma ManySamples(x: real, N: int, R: nat)
    requires 0.0 < x && N < 0 && Power(x, 128) <= TwoTo(N) && R * -N >= SECURITY_BITS * 128
    ensures Power(x, R) <= TwoTo(-SECURITY_BITS)
  {
    hide TwoTo, Power;
    var y, b := Power(x, R), TwoTo(-SECURITY_BITS);
    PowerPower(x, R, 128);
    PowerPower(x, 128, R);
    PowerPositive(x, R);
    PowerPositive(x, 128);
    PowerMonotone(Power(x, 128), TwoTo(N), R);
    PowerTwoTo(N, R);
    TwoToMonotone(N * R, -SECURITY_BITS * 128);
    PowerTwoTo(-SECURITY_BITS, 128);
    TwoToNext(-SECURITY_BITS);
    assert Power(y, 128) <= Power(b, 128);
    if y > b {
      PowerMonotone(b, y, 128);
      assert false;
    }
  }

  // ---------- Good numbers of columns ----------

  /** This many columns leave room for the required samples of every shard. */
  ghost predicate Good(dataBytes: nat, n: nat, k: nat, cols: nat)
    requires n >= 1 && cols >= 1 && dataBytes >= 1
  {
    WithColsSized(dataBytes, n, k, cols);
    var t := WithCols(dataBytes, n, k, cols);
    exists r :: IsRequired(t.encodedRows, t.dataRows, r) && Fits(r, n + k, t.encodedRows)
  }

  predicate Fits(r: Samples, shards: nat, encodedRows: nat) {
    r.Finite? && r.count * shards <= encodedRows
  }

  /** A good number of columns is below the number of elements, so the search stops. */
  lemma GoodBounded(dataBytes: nat, n: nat, k: nat, cols: nat)
    requires n >= 1 && cols >= 1 && dataBytes >= 1 && Good(dataBytes, n, k, cols)
    ensures cols < BitsToElements(8 * dataBytes)
  {
    hide WithCols, Good;
    GoodSamples(dataBytes, n, k, cols);
    ColsSmall(dataBytes, n, k, cols);
  }

  lemma SizedRows(t: Topology)
    requires Sized(t)
    ensures 1 <= t.dataRows <= t.encodedRows
  {}

  lemma SamplesLarge(shards: nat, samples: nat, required: nat, encodedRows: nat)
    requires required >= SECURITY_BITS && required * shards <= encodedRows < 2 * (shards * samples)
    ensures samples > 63
  {
    TimesMonotone(shards, SECURITY_BITS, required);
    TimesComm(shards, required);
    if samples <= 63 { TimesMonotone(shards, samples, 63); }
  }

  lemma ColsSmall(dataBytes: nat, n: nat, k: nat, cols: nat)
    requires n >= 1 && cols >= 1 && WithCols(dataBytes, n, k, cols).samples > 63
    ensures cols < BitsToElements(8 * dataBytes)
  {
    hide DivCeil, NextPow2;
    var els := BitsToElements(8 * dataBytes);
    var rows := DivCeil(els, cols);
    var s := DivCeil(rows, n);
    FactorsBelow(s - 1, n);
    FactorsBelow(rows - 1, cols);
  }

  lemma FactorsBelow(a: nat, b: nat)
    requires a >= 1 && b >= 1
    ensures a <= a * b && b <= a * b
  {}

  // ---------- Machine words ----------

  /** Every size for these columns is a machine word: `8 * data_bytes`, the rows of all shards, and the power of two
      above them. */
  ghost predicate Representable(dataBytes: nat, n: nat, k: nat, cols: nat)
    requires n >= 1 && cols >= 1
  {
    8 * dataBytes <= USIZE_MAX && (n + k) * WithCols(dataBytes, n, k, cols).samples <= TOP_BIT
  }

  /** A machine word; with overflow checks anything larger panics. */
  function Checked(x: nat): (r: Option<nat>)
    ensures if x < 0x1_0000_0000_0000_0000 then r == Some(x) else r == None
  {
    if x <= USIZE_MAX then Some(x) else None
  }

  /** `with_cols`: none when a size is no machine word. */
  method TryCols(dataBytes: nat, n: nat, k: nat, cols: nat) returns (r: Option<Topology>)
    requires n >= 1 && cols >= 1
    ensures r.Some? <==> Representable(dataBytes, n, k, cols)
    ensures r.Some? ==> r.value == WithCols(dataBytes, n, k, cols)
    ensures r.Some? <==>
      8 * dataBytes < 0x1_0000_0000_0000_0000 &&
      (n + k) * WithCols(dataBytes, n, k, cols).samples <= 0x8000_0000_0000_0000
  {
    hide DivCeil, NextPow2, BitsToElements;
    var bits := Checked(8 * dataBytes);
    if bits.None? {
      return None;
    }
    var dataRows := DivCeil(BitsToElements(bits.value), cols);
    var samples := DivCeil(dataRows, n);
    var rows := Checked((n + k) * samples);
    if rows.None? {
      TopBitWord((n + k) * samples);
      return None;
    }
    TopBitWord(rows.value);
    var encodedRows := Checked(NextPow2(rows.value));
    if encodedRows.None? {
      return None;
    }
    r := Some(Topology(dataBytes, cols, dataRows, encodedRows.value, samples, 0, n, n + k));
  }

  /** The next power of two is a machine word exactly up to the top bit. */
  lemma TopBitWord(x: nat)
    ensures NextPow2(x) <= USIZE_MAX <==> x <= TOP_BIT
  {
    Pow2Values();
    Pow2Next(63);
    if 1 < x <= TOP_BIT {
      BitLenBounds(x - 1);
      var b := BitLen(x - 1);
      hide Pow2, BitLen;
      if b > 63 { Pow2Monotone(63, b - 1); }
      Pow2Monotone(if b <= 63 then b else 63, 63);
    } else if x > TOP_BIT {
      NextPow2Bounds(x);
      var lg := Log2(NextPow2(x));
      hide Pow2, NextPow2, Log2;
      if lg < 64 { Pow2Monotone(lg, 63); } else { Pow2Monotone(64, lg); }
    }
  }

  lemma DivCeilMonotone(a: nat, b: nat, n: nat)
    requires a <= b && n >= 1
    ensures DivCeil(a, n) <= DivCeil(b, n) && DivCeil(a, n) <= a
  {
    hide DivCeil;
    var p, q := DivCeil(a, n), DivCeil(b, n);
    if p > q { TimesMonotone(n, q, p - 1); }
    if p > a { TimesMonotone(p - 1, 1, n); }
  }

  /** More columns never need larger words. */
  lemma RepresentableMore(dataBytes: nat, n: nat, k: nat, cols: nat)
    requires n >= 1 && cols >= 1 && Representable(dataBytes, n, k, 1)
    ensures Representable(dataBytes, n, k, cols)
  {
    hide DivCeil, NextPow2;
    var els := BitsToElements(8 * dataBytes);
    DivCeilMonotone(els, els, cols);
    var one := DivCeil(els, 1);
    assert one >= els;
    DivCeilMonotone(DivCeil(els, cols), one, n);
    TimesMonotone(n + k, DivCeil(DivCeil(els, cols), n), DivCeil(one, n));
  }

  /** Two columns for each time that the samples of a shard go into those required; the product is checked. */
  function ColumnSamples(required: Samples, samples: nat): Option<nat>
    requires samples >= 1
  {
    var product := BitsToElements(SECURITY_BITS) * DivCeil(Word(required), samples);
    if product <= USIZE_MAX then Some(product) else None
  }

  /** The product overflows exactly when no number of samples is enough and a shard has one or two. */
  lemma ColumnsOverflow(r: Samples, samples: nat)
    requires samples >= 1 && (r.Finite? ==> r.count <= SECURITY_BITS * 128)
    ensures ColumnSamples(r, samples).None? <==> r.Unlimited? && samples <= 2
  {
    TwoElements();
    var w := Word(r);
    var q := DivCeil(w, samples);
    DivCeilMonotone(w, w, samples);
    hide DivCeil;
    if r.Unlimited? && samples >= 3 { TimesMonotone(q - 1, 3, samples); }
    if r.Unlimited? && samples <= 2 { TimesMonotone(q, samples, 2); }
  }

  lemma TwoElements()
    ensures BitsToElements(SECURITY_BITS) == 2
  {}

  /** The fewest columns, two at a time, that reach the samples required. */
  ghost predicate Reaches(columns: nat, samples: nat, required: nat) {
    columns % 2 == 0 && samples * (columns / 2) >= required && (required > 0 ==> samples * (columns / 2 - 1) < required)
  }

  lemma ColumnsReach(required: nat, samples: nat)
    requires samples >= 1 && required <= SECURITY_BITS * 128
    ensures ColumnSamples(Finite(required), samples).Some?
    ensures Reaches(ColumnSamples(Finite(required), samples).value, samples, required)
    ensures ColumnSamples(Finite(required), samples).value <= 2 * required
    ensures 1 <= required <= samples ==> ColumnSamples(Finite(required), samples).value == 2
  {
    ColumnsOverflow(Finite(required), samples);
    TwoElements();
    var q := DivCeil(required, samples);
    DivCeilMonotone(required, required, samples);
    hide DivCeil, BitsToElements;
    assert ColumnSamples(Finite(required), samples) == Some(2 * q);
    hide ColumnSamples;
    FewestReach(2 * q, q, samples, required);
  }

  lemma FewestReach(columns: nat, q: nat, samples: nat, required: nat)
    requires columns == 2 * q && samples >= 1 && q * samples >= required
    requires if required == 0 then q == 0 else q >= 1 && (q - 1) * samples < required
    ensures Reaches(columns, samples, required) && (1 <= required <= samples ==> columns == 2)
  {
    TimesComm(q, samples);
    TimesComm(q - 1, samples);
    assert columns % 2 == 0 && columns / 2 == q;
    if q >= 2 { TimesMonotone(samples, 1, q - 1); }
  }

  // ---------- What the search finds ----------

  /** The sizes for these columns, with the samples raised to those required beyond the first column. */
  ghost predicate Chosen(t: Topology, dataBytes: nat, n: nat, k: nat)
    requires n >= 1
  {
    t.dataCols >= 1 && t.minShards == n && t.totalShards == n + k &&
    var base := WithCols(dataBytes, n, k, t.dataCols);
    t.dataRows == base.dataRows && t.encodedRows == base.encodedRows >= 1 &&
    if t.dataCols == 1 then t.samples == base.samples
    else exists r: nat :: IsRequired(t.encodedRows, t.dataRows, Finite(r)) && t.samples == Larger(r, base.samples)
  }

  function Larger(a: nat, b: nat): nat { if a > b then a else b }

  /** From two columns on, all are good up to this number, and the next is not. */
  ghost predicate LongestRun(dataBytes: nat, n: nat, k: nat, cols: nat)
    requires n >= 1 && dataBytes >= 1
  {
    cols >= 1 && (forall c :: 2 <= c <= cols ==> Good(dataBytes, n, k, c)) && !Good(dataBytes, n, k, cols + 1)
  }

  /** The columns taken are those that leave room for the samples required, and the next column does not. */
  lemma RunMeaning(dataBytes: nat, n: nat, k: nat, cols: nat)
    requires n >= 1 && dataBytes >= 1 && LongestRun(dataBytes, n, k, cols)
    ensures forall c, r :: 2 <= c <= cols && IsRequiredFor(dataBytes, n, k, c, r) ==>
      r.Finite? && r.count * (n + k) <= WithCols(dataBytes, n, k, c).encodedRows
    ensures forall r :: IsRequiredFor(dataBytes, n, k, cols + 1, r) ==>
      r.Unlimited? || r.count * (n + k) > WithCols(dataBytes, n, k, cols + 1).encodedRows
  {
    hide WithCols, IsRequired, Good;
    forall c, r | 2 <= c <= cols + 1 && IsRequiredFor(dataBytes, n, k, c, r)
      ensures Good(dataBytes, n, k, c) <==> Fits(r, n + k, WithCols(dataBytes, n, k, c).encodedRows)
    {
      GoodTest(dataBytes, n, k, c, r);
    }
    assert 2 <= cols + 1;
  }

  /** The number of samples required with so many columns. */
  ghost predicate IsRequiredFor(dataBytes: nat, n: nat, k: nat, cols: nat, r: Samples)
    requires n >= 1
  {
    cols >= 1 && WithCols(dataBytes, n, k, cols).encodedRows >= 1 &&
    IsRequired(WithCols(dataBytes, n, k, cols).encodedRows, WithCols(dataBytes, n, k, cols).dataRows, r)
  }

  lemma RunUnique(dataBytes: nat, n: nat, k: nat, c: nat, d: nat)
    requires n >= 1 && dataBytes >= 1 && LongestRun(dataBytes, n, k, c) && LongestRun(dataBytes, n, k, d)
    ensures c == d
  {
    hide Good;
  }

  ghost predicate HasColumns(t: Topology) {
    t.encodedRows >= 1 && t.samples >= 1 &&
    exists r :: IsRequired(t.encodedRows, t.dataRows, r) && ColumnSamples(r, t.samples) == Some(t.columnSamples)
  }

  /** The search starts from at least one byte. */
  function Corrected(dataBytes: nat): nat { if dataBytes == 0 then 1 else dataBytes }

  /** The sizes that the configuration and the length of the data lead to. */
  ghost predicate IsReckoned(t: Topology, dataBytes: nat, n: nat, k: nat)
    requires n >= 1
  {
    var bytes := Corrected(dataBytes);
    Representable(bytes, n, k, 1) && t.dataBytes == dataBytes &&
    LongestRun(bytes, n, k, t.dataCols) && Chosen(t, bytes, n, k) && HasColumns(t)
  }

  lemma ReckonedUnique(t: Topology, u: Topology, dataBytes: nat, n: nat, k: nat)
    requires n >= 1 && IsReckoned(t, dataBytes, n, k) && IsReckoned(u, dataBytes, n, k)
    ensures t == u
  {
    hide WithCols, IsRequired, Good, Representable, ColumnSamples;
    RunUnique(Corrected(dataBytes), n, k, t.dataCols, u.dataCols);
    RequiredEqual(t.encodedRows, t.dataRows);
  }

  lemma RequiredEqual(m: nat, d: nat)
    requires m >= 1
    ensures forall r, r' :: IsRequired(m, d, r) && IsRequired(m, d, r') ==> r == r'
  {
    hide IsRequired;
    forall r, r' | IsRequired(m, d, r) && IsRequired(m, d, r')
      ensures r == r'
    {
      RequiredUnique(m, d, r, r');
    }
  }

  /** What reckoning the sizes yields; none when it overflows. */
  ghost function Reckoned(dataBytes: nat, n: nat, k: nat): (r: Option<Topology>)
    requires n >= 1
    ensures r.Some? ==> IsReckoned(r.value, dataBytes, n, k)
  {
    if exists t :: IsReckoned(t, dataBytes, n, k) then var t :| IsReckoned(t, dataBytes, n, k); Some(t) else None
  }

  lemma ReckonedIs(t: Topology, dataBytes: nat, n: nat, k: nat)
    requires n >= 1 && IsReckoned(t, dataBytes, n, k)
    ensures Reckoned(dataBytes, n, k) == Some(t)
  {
    hide IsReckoned;
    ReckonedUnique(Reckoned(dataBytes, n, k).value, t, dataBytes, n, k);
  }

  /** No number of samples is enough with one column, and two columns are not good: the data rows are so close to the
      encoded rows that the 128th power of the miss exceeds one half. */
  ghost predicate Unreachable(dataBytes: nat, n: nat, k: nat)
    requires n >= 1 && dataBytes >= 1
  {
    var t := WithCols(dataBytes, n, k, 1);
    t.encodedRows >= 1 && !Good(dataBytes, n, k, 2) && Power(Miss(t.encodedRows, t.dataRows), 128) > 0.5
  }

  ghost function NatPower(b: nat, n: nat): nat {
    if n == 0 then 1 else b * NatPower(b, n - 1)
  }

  /** The condition on whole numbers. */
  lemma MissInteger(m: nat, d: nat)
    requires 1 <= d <= m
    ensures Power(Miss(m, d), 128) > 0.5 <==> 2 * NatPower(m + d - 1, 128) > NatPower(2 * m, 128)
  {
    hide Power, NatPower;
    var a, b := m + d - 1, 2 * m;
    PowerRatio(Miss(m, d), a, b, 128);
    NatPowerPositive(b, 128);
    var x, y, z := Power(Miss(m, d), 128), NatPower(a, 128) as real, NatPower(b, 128) as real;
    assert x * z == y && z > 0.0;
    HalfOrder(x, y, z);
  }

  lemma HalfOrder(x: real, y: real, z: real)
    requires x * z == y && z > 0.0
    ensures x > 0.5 <==> 2.0 * y > z
  {
    if x > 0.5 { RealProduct(x - 0.5, z); } else { RealProduct(0.5 - x, z); }
  }

  lemma {:induction false} PowerRatio(x: real, a: nat, b: nat, n: nat)
    requires x * b as real == a as real
    ensures Power(x, n) * NatPower(b, n) as real == NatPower(a, n) as real
  {
    if n > 0 {
      PowerRatio(x, a, b, n - 1);
      var z, p, q := Power(x, n - 1), NatPower(a, n - 1), NatPower(b, n - 1);
      assert Power(x, n) == x * z && NatPower(a, n) == a * p && NatPower(b, n) == b * q;
      hide Power, NatPower;
      RatioStep(x, z, a, p, b, q);
    }
  }

  lemma RatioStep(x: real, z: real, a: nat, p: nat, b: nat, q: nat)
    requires x * b as real == a as real && z * q as real == p as real
    ensures (x * z) * (b * q) as real == (a * p) as real
  {
    RealOfProduct(a, p);
    RealOfProduct(b, q);
    Paired(x, z, b as real, q as real);
  }

  lemma RealOfProduct(a: nat, b: nat)
    ensures (a * b) as real == a as real * b as real
  {}

  lemma Paired(x: real, z: real, y: real, w: real)
    ensures (x * z) * (y * w) == (x * y) * (z * w)
  {}

  lemma {:induction false} NatPowerPositive(b: nat, n: nat)
    requires b > 0
    ensures NatPower(b, n) > 0
  {
    if n > 0 { NatPowerPositive(b, n - 1); }
  }

  lemma UnreachableMeaning(t: Topology, dataBytes: nat, n: nat, k: nat, r: Samples)
    requires n >= 1 && dataBytes >= 1 && LongestRun(dataBytes, n, k, t.dataCols) && Chosen(t, dataBytes, n, k)
    requires IsRequired(t.encodedRows, t.dataRows, r)
    ensures r.Unlimited? <==> Unreachable(dataBytes, n, k)
    ensures r.Unlimited? ==> t.dataCols == 1
    ensures r.Finite? ==> SECURITY_BITS <= r.count <= SECURITY_BITS * 128
  {
    hide WithCols, IsRequired, Good, Miss, Power;
    Candidate(dataBytes, n, k, t.dataCols);
    RequiredMeaning(t.encodedRows, t.dataRows, r);
    if t.dataCols > 1 {
      assert Good(dataBytes, n, k, 2);
      RequiredEqual(t.encodedRows, t.dataRows);
    }
  }

  /** The sizes are consistent, and there is room for all the data. */
  lemma ReckonedSized(t: Topology, dataBytes: nat, n: nat, k: nat)
    requires n >= 1 && IsReckoned(t, dataBytes, n, k)
    ensures Sized(t) && t.dataRows * t.dataCols >= BitsToElements(8 * dataBytes)
    ensures 63 * (t.dataRows * t.dataCols) >= 8 * dataBytes
    ensures 63 * ((t.dataRows - 1) * t.dataCols) < if dataBytes == 0 then 8 else 8 * dataBytes
    ensures t.dataBytes == dataBytes && t.minShards == n && t.totalShards == n + k
  {
    hide WithCols, IsRequired, Good, Representable, Sized, BitsToElements;
    var bytes := Corrected(dataBytes);
    var base := WithCols(bytes, n, k, t.dataCols);
    Candidate(bytes, n, k, t.dataCols);
    WithColsSized(bytes, n, k, t.dataCols);
    CoversStill(base, dataBytes);
    if t.dataCols == 1 {
      SizedOnly(base, t);
    } else {
      var r: nat :| IsRequired(t.encodedRows, t.dataRows, Finite(r)) && t.samples == Larger(r, base.samples);
      assert Good(bytes, n, k, t.dataCols);
      GoodTest(bytes, n, k, t.dataCols, Finite(r));
      Widened(base, r);
      SizedOnly(base.(samples := t.samples), t);
    }
  }

  /** What the columns of check samples are worth.  With a finite requirement they are the fewest that reach it, and
      two once a shard has all the samples required.  Without one, the checksum is too large for any machine word. */
  lemma ReckonedColumns(t: Topology, dataBytes: nat, n: nat, k: nat)
    requires n >= 1 && IsReckoned(t, dataBytes, n, k)
    ensures !Unreachable(Corrected(dataBytes), n, k) ==>
              exists r: nat :: IsRequired(t.encodedRows, t.dataRows, Finite(r)) &&
                Reaches(t.columnSamples, t.samples, r)
    ensures !Unreachable(Corrected(dataBytes), n, k) ==> t.columnSamples <= 2 * SECURITY_BITS * 128
    ensures !Unreachable(Corrected(dataBytes), n, k) && t.dataCols > 1 ==> t.columnSamples == 2 <= t.encodedRows
    ensures Unreachable(Corrected(dataBytes), n, k) ==> t.dataCols == 1 && t.dataRows * t.columnSamples > USIZE_MAX
  {
    hide WithCols, IsRequired, Good, Representable, ColumnSamples, Reaches, Unreachable;
    var bytes := Corrected(dataBytes);
    var r :| IsRequired(t.encodedRows, t.dataRows, r) && ColumnSamples(r, t.samples) == Some(t.columnSamples);
    UnreachableMeaning(t, bytes, n, k, r);
    if r.Finite? {
      ColumnsReach(r.count, t.samples);
      if t.dataCols > 1 {
        RequiredEqual(t.encodedRows, t.dataRows);
        ReckonedSized(t, dataBytes, n, k);
        ManyRows(t, r.count);
      }
    } else {
      OneColumnSamples(t, bytes, n, k);
      TooWide(t.dataRows, t.samples, t.columnSamples);
    }
  }

  lemma ManyRows(t: Topology, required: nat)
    requires Sized(t) && SECURITY_BITS <= required <= t.samples
    ensures t.encodedRows >= 2
  {
    TimesMonotone(t.samples, 1, t.totalShards);
    TimesComm(t.samples, t.totalShards);
  }

  lemma OneColumnSamples(t: Topology, dataBytes: nat, n: nat, k: nat)
    requires n >= 1 && t.dataCols == 1 && Chosen(t, dataBytes, n, k)
    ensures t.samples <= t.dataRows
  {
    hide DivCeil, NextPow2;
    DivCeilMonotone(t.dataRows, t.dataRows, n);
  }

  lemma TooWide(rows: nat, samples: nat, columns: nat)
    requires 1 <= samples <= rows && ColumnSamples(Unlimited, samples) == Some(columns)
    ensures rows * columns > USIZE_MAX
  {
    TwoElements();
    var q := DivCeil(USIZE_MAX, samples);
    hide DivCeil;
    TimesMonotone(q, samples, rows);
    assert rows * (2 * q) == 2 * (q * rows);
  }

  /** Reckoning overflows exactly when a size is no machine word, or when no number of samples is enough and a shard
      has at most two. */
  lemma ReckonedWhen(t: Topology, dataBytes: nat, n: nat, k: nat, r: Samples)
    requires n >= 1 && t.dataBytes == dataBytes && t.samples >= 1
    requires LongestRun(Corrected(dataBytes), n, k, t.dataCols) && Chosen(t, Corrected(dataBytes), n, k)
    requires Representable(Corrected(dataBytes), n, k, 1) && IsRequired(t.encodedRows, t.dataRows, r)
    ensures var columns := ColumnSamples(r, t.samples);
            Reckoned(dataBytes, n, k) == (if columns.Some? then Some(t.(columnSamples := columns.value)) else None) &&
            (columns.None? <==> Unreachable(Corrected(dataBytes), n, k) && t.samples <= 2)
    ensures Unreachable(Corrected(dataBytes), n, k) ==>
              t.samples == WithCols(Corrected(dataBytes), n, k, 1).samples
  {
    hide WithCols, IsRequired, Good, Representable, ColumnSamples, Unreachable;
    var bytes := Corrected(dataBytes);
    UnreachableMeaning(t, bytes, n, k, r);
    ColumnsOverflow(r, t.samples);
    var columns := ColumnSamples(r, t.samples);
    if columns.Some? {
      var u := t.(columnSamples := columns.value);
      ChosenStill(t, u, bytes, n, k);
      ReckonedIs(u, dataBytes, n, k);
    } else if exists u :: IsReckoned(u, dataBytes, n, k) {
      var u :| IsReckoned(u, dataBytes, n, k);
      NoColumns(t, u, dataBytes, n, k, r);
    }
  }

  lemma NoColumns(t: Topology, u: Topology, dataBytes: nat, n: nat, k: nat, r: Samples)
    requires n >= 1 && t.samples >= 1 && IsReckoned(u, dataBytes, n, k)
    requires LongestRun(Corrected(dataBytes), n, k, t.dataCols) && Chosen(t, Corrected(dataBytes), n, k)
    requires IsRequired(t.encodedRows, t.dataRows, r)
    ensures ColumnSamples(r, t.samples) == Some(u.columnSamples)
  {
    hide WithCols, IsRequired, Good, Representable, ColumnSamples;
    RunUnique(Corrected(dataBytes), n, k, t.dataCols, u.dataCols);
    RequiredEqual(t.encodedRows, t.dataRows);
  }

  lemma ChosenStill(t: Topology, u: Topology, dataBytes: nat, n: nat, k: nat)
    requires n >= 1 && Chosen(t, dataBytes, n, k) && u == t.(columnSamples := u.columnSamples, dataBytes := u.dataBytes)
    ensures Chosen(u, dataBytes, n, k)
  {
    hide WithCols, IsRequired;
  }

  // ---------- Reckoning the sizes ----------

  /** `Topology::reckon`: take columns as long as they are good. */
  method Reckon(minimumShards: nat, extraShards: nat, dataBytes: nat) returns (r: Option<Topology>)
    requires minimumShards >= 1
    ensures r == Reckoned(dataBytes, minimumShards, extraShards)
    ensures r.None? <==> Overflows(dataBytes, minimumShards, extraShards)
  {
    hide WithCols, IsRequired, Good, Chosen, Representable, Reckoned, LongestRun, Unreachable, ColumnSamples;
    var bytes := Corrected(dataBytes);
    OverflowsWhen(bytes, minimumShards, extraShards);
    var search := Search(bytes, minimumShards, extraShards);
    if search.None? {
      NotReckoned(dataBytes, minimumShards, extraShards);
      return None;
    }
    var out := search.value;
    var required := RequiredSamples(out);
    var columns := ColumnSamples(required, out.samples);
    var found := out.(dataBytes := dataBytes);
    ChosenStill(out, found, bytes, minimumShards, extraShards);
    ReckonedWhen(found, dataBytes, minimumShards, extraShards, required);
    if columns.None? {
      return None;
    }
    r := Some(out.(columnSamples := columns.value, dataBytes := dataBytes));
  }

  /** Reckoning overflows: a size is no machine word, or no number of samples is enough and a shard has at most two. */
  ghost predicate Overflows(dataBytes: nat, n: nat, k: nat)
    requires n >= 1
  {
    var bytes := Corrected(dataBytes);
    8 * bytes >= 0x1_0000_0000_0000_0000 || (n + k) * WithCols(bytes, n, k, 1).samples > 0x8000_0000_0000_0000 ||
    (Unreachable(bytes, n, k) && WithCols(bytes, n, k, 1).samples <= 2)
  }

  lemma OverflowsWhen(bytes: nat, n: nat, k: nat)
    requires n >= 1
    ensures Representable(bytes, n, k, 1) <==>
      8 * bytes < 0x1_0000_0000_0000_0000 && (n + k) * WithCols(bytes, n, k, 1).samples <= 0x8000_0000_0000_0000
  {
    hide WithCols;
  }

  lemma NotReckoned(dataBytes: nat, n: nat, k: nat)
    requires n >= 1 && !Representable(Corrected(dataBytes), n, k, 1)
    ensures Reckoned(dataBytes, n, k) == None
  {
    hide Representable, Chosen, LongestRun, HasColumns;
  }

  /** One column more at a time, as long as the samples required fit. */
  method Search(dataBytes: nat, n: nat, k: nat) returns (r: Option<Topology>)
    requires n >= 1 && dataBytes >= 1
    ensures r.Some? <==> Representable(dataBytes, n, k, 1)
    ensures r.Some? ==> LongestRun(dataBytes, n, k, r.value.dataCols) && Chosen(r.value, dataBytes, n, k)
    ensures r.Some? ==> 1 <= r.value.dataRows <= r.value.encodedRows && r.value.samples >= 1
  {
    hide WithCols, IsRequired, Good, BitsToElements, Representable;
    var first := TryCols(dataBytes, n, k, 1);
    if first.None? {
      return None;
    }
    var out := first.value;
    Candidate(dataBytes, n, k, 1);
    while true
      invariant out.dataCols >= 1 && 1 <= out.dataRows <= out.encodedRows && out.samples >= 1
      invariant forall c :: 2 <= c <= out.dataCols ==> Good(dataBytes, n, k, c)
      invariant Chosen(out, dataBytes, n, k)
      decreases BitsToElements(8 * dataBytes) - out.dataCols
    {
      RepresentableMore(dataBytes, n, k, out.dataCols + 1);
      var next := TryCols(dataBytes, n, k, out.dataCols + 1);
      var attempt := next.value;
      Candidate(dataBytes, n, k, out.dataCols + 1);
      var required := RequiredSamples(attempt);
      GoodTest(dataBytes, n, k, out.dataCols + 1, required);
      if Fits(required, n + k, attempt.encodedRows) {
        GoodBounded(dataBytes, n, k, out.dataCols + 1);
        out := attempt.(samples := Larger(required.count, attempt.samples));
      } else {
        return Some(out);
      }
    }
  }

  /** There is room for every element of the data. */
  ghost predicate Covers(t: Topology, dataBytes: nat) {
    t.dataRows * t.dataCols >= BitsToElements(8 * dataBytes)
  }

  lemma CoversStill(t: Topology, dataBytes: nat)
    requires Covers(t, Corrected(dataBytes))
    ensures Covers(t, dataBytes)
  {}

  lemma Candidate(dataBytes: nat, n: nat, k: nat, cols: nat)
    requires n >= 1 && cols >= 1 && dataBytes >= 1
    ensures var t := WithCols(dataBytes, n, k, cols);
            t.dataCols == cols && t.minShards == n && t.totalShards == n + k &&
            Sized(t) && Covers(t, dataBytes) && 1 <= t.dataRows <= t.encodedRows && t.samples >= 1
  {
    WithColsSized(dataBytes, n, k, cols);
    WithColsFields(dataBytes, n, k, cols);
    hide WithCols, BitsToElements;
    RowsPositive(WithCols(dataBytes, n, k, cols));
  }

  lemma WithColsFields(dataBytes: nat, n: nat, k: nat, cols: nat)
    requires n >= 1 && cols >= 1
    ensures var t := WithCols(dataBytes, n, k, cols);
      t.dataCols == cols && t.minShards == n && t.totalShards == n + k && t.dataBytes == dataBytes
  {}

  lemma GoodTest(dataBytes: nat, n: nat, k: nat, cols: nat, r: Samples)
    requires n >= 1 && cols >= 1 && dataBytes >= 1
    requires WithCols(dataBytes, n, k, cols).encodedRows >= 1
    requires IsRequired(WithCols(dataBytes, n, k, cols).encodedRows, WithCols(dataBytes, n, k, cols).dataRows, r)
    ensures Good(dataBytes, n, k, cols) <==> Fits(r, n + k, WithCols(dataBytes, n, k, cols).encodedRows)
  {
    hide WithCols, IsRequired;
    var t := WithCols(dataBytes, n, k, cols);
    RequiredEqual(t.encodedRows, t.dataRows);
  }

  lemma SizedOnly(t: Topology, u: Topology)
    requires Sized(t) && u == t.(columnSamples := u.columnSamples, dataBytes := u.dataBytes)
    ensures Sized(u)
  {}

  lemma Widened(attempt: Topology, r: nat)
    requires Sized(attempt) && r * attempt.totalShards <= attempt.encodedRows
    ensures Sized(attempt.(samples := Larger(r, attempt.samples)))
  {
    hide Pow2, Log2;
    TimesComm(r, attempt.totalShards);
    if r > attempt.samples { TimesMonotone(attempt.minShards, attempt.samples, r); }
  }

  lemma TimesComm(a: int, b: int)
    ensures a * b == b * a
  {}

  lemma RowsPositive(t: Topology)
    requires Sized(t)
    ensures 1 <= t.dataRows <= t.encodedRows && t.samples >= 1
  {}

  // ---------- Configurations for which no number of samples is enough ----------

  lemma {:induction false} Bernoulli(x: real, n: nat)
    requires 0.0 < x < 1.0
    ensures Power(1.0 - x, n) >= 1.0 - n as real * x
    ensures n >= 2 ==> Power(1.0 - x, n) > 1.0 - n as real * x
  {
    if n > 0 {
      Bernoulli(x, n - 1);
      BernoulliStep(x, n - 1, Power(1.0 - x, n - 1));
    }
  }

  lemma BernoulliStep(x: real, n: nat, p: real)
    requires 0.0 < x < 1.0 && p >= 1.0 - n as real * x
    ensures (1.0 - x) * p >= 1.0 - (n + 1) as real * x
    ensures n >= 1 ==> (1.0 - x) * p > 1.0 - (n + 1) as real * x
  {
    var m, c := n as real, 1.0 - x;
    var mx := m * x;
    var least := 1.0 - mx;
    RealScale(c, least, p);
    RealProduct(m, x);
    RealProduct(x, mx);
    Expanded(x, mx);
    var prod, mid, left := x * mx, c * least, c * p;
    assert left >= mid;
    assert mid == 1.0 - x - mx + prod;
    assert prod >= 0.0 && (n >= 1 ==> prod > 0.0);
    assert (n + 1) as real * x == mx + x;
  }

  lemma Expanded(x: real, y: real)
    ensures (1.0 - x) * (1.0 - y) == 1.0 - x - y + x * y
  {}

  lemma RealScale(c: real, p: real, q: real)
    requires c > 0.0 && p <= q
    ensures c * p <= c * q
  {}

  lemma RealProduct(x: real, y: real)
    ensures x >= 0.0 && y >= 0.0 ==> x * y >= 0.0
    ensures x > 0.0 && y > 0.0 ==> x * y > 0.0
  {}

  /** Without redundancy, 128 rows or more are too many. */
  lemma FullRows(m: nat)
    requires m >= 128
    ensures Power(Miss(m, m), 128) > 0.5
  {
    var x := 1.0 / (2 * m) as real;
    assert Miss(m, m) == 1.0 - x;
    assert x * (2 * m) as real == 1.0;
    assert 0.0 < x <= 1.0 / 256.0;
    Bernoulli(x, 128);
    hide Power;
  }

  lemma GoodSamples(dataBytes: nat, n: nat, k: nat, cols: nat)
    requires n >= 1 && cols >= 1 && dataBytes >= 1 && Good(dataBytes, n, k, cols)
    ensures WithCols(dataBytes, n, k, cols).samples > 63
  {
    hide WithCols, IsRequired, Sized;
    WithColsSized(dataBytes, n, k, cols);
    var t := WithCols(dataBytes, n, k, cols);
    SizedRows(t);
    var r :| IsRequired(t.encodedRows, t.dataRows, r) && Fits(r, n + k, t.encodedRows);
    RequiredMeaning(t.encodedRows, t.dataRows, r);
    SamplesLarge(n + k, t.samples, r.count, t.encodedRows);
  }

  /** As many shards as elements, all of them needed: with a power of two of them from 128 on there are no sizes. */
  lemma NoSpareShards(dataBytes: nat, n: nat)
    requires dataBytes >= 1 && n >= 128 && n == Pow2(Log2(n)) && BitsToElements(8 * dataBytes) == n
    ensures Unreachable(dataBytes, n, 0) && Reckoned(dataBytes, n, 0) == None
  {
    hide IsRequired, Power, Miss, Good, WithCols, IsReckoned, BitsToElements;
    OneRowEach(dataBytes, n);
    FullRows(n);
    if Good(dataBytes, n, 0, 2) { GoodSamples(dataBytes, n, 0, 2); }
    forall t
      ensures !IsReckoned(t, dataBytes, n, 0)
    {
      if IsReckoned(t, dataBytes, n, 0) { OneSample(t, dataBytes, n); }
    }
  }

  lemma OneRowEach(dataBytes: nat, n: nat)
    requires dataBytes >= 1 && n >= 128 && n == Pow2(Log2(n)) && BitsToElements(8 * dataBytes) == n
    ensures var t := WithCols(dataBytes, n, 0, 1); t.dataRows == n && t.samples == 1 && t.encodedRows == n
    ensures WithCols(dataBytes, n, 0, 2).samples <= 1
  {
    NextPow2Same(n);
    hide BitsToElements, NextPow2, Pow2, Log2;
    DivideExactly(n);
  }

  lemma DivideExactly(n: nat)
    requires n >= 1
    ensures DivCeil(n, 1) == n && DivCeil(n, n) == 1 && DivCeil(DivCeil(n, 2), n) <= 1
  {
    hide DivCeil;
    var h, q := DivCeil(n, 2), DivCeil(n, n);
    DivCeilMonotone(n, n, 2);
    DivCeilMonotone(h, n, n);
    if q >= 2 { TimesMonotone(n, 1, q - 1); }
  }

  lemma OneSample(t: Topology, dataBytes: nat, n: nat)
    requires dataBytes >= 1 && n >= 1 && Unreachable(dataBytes, n, 0) && WithCols(dataBytes, n, 0, 1).samples == 1
    ensures !IsReckoned(t, dataBytes, n, 0)
  {
    hide IsRequired, Good, Representable, Unreachable, ColumnSamples, WithCols;
    if IsReckoned(t, dataBytes, n, 0) {
      var r :| IsRequired(t.encodedRows, t.dataRows, r) && ColumnSamples(r, t.samples) == Some(t.columnSamples);
      UnreachableMeaning(t, dataBytes, n, 0, r);
      ColumnsOverflow(r, t.samples);
    }
  }

  /** 128 shards, all of them needed, and 1008 bytes. */
  lemma NoSizesFor128(dataBytes: nat, n: nat)
    requires dataBytes == 1008 && n == 128
    ensures Unreachable(dataBytes, n, 0) && Reckoned(dataBytes, n, 0) == None
  {
    hide Unreachable, Reckoned;
    Pow2Small();
    Log2Pow2(7);
    assert BitsToElements(8 * dataBytes) == n;
    NoSpareShards(dataBytes, n);
  }

  // ---------- A configuration whose encoded rows number 2^32 ----------

  /** There always is a number of samples required, if only `Unlimited`. */
  lemma RequiredExists(m: nat, d: nat)
    requires 1 <= d <= m
    ensures exists r :: IsRequired(m, d, r)
  {
    hide TwoTo, Power, Pow2, Miss, IsLog2Ceil, SamplesFor;
    var x := Miss(m, d);
    MissBounds(m, d);
    Pow2Small();
    PowerMonotone(0.5, x, 128);
    PowerMonotone(x, 1.0, 128);
    TwoToSmall();
    PowerTwoTo(-1, 128);
    PowerTwoTo(0, 128);
    TwoToNext(-129);
    Log2CeilExists(x, LOG2_PRECISION, 0, 129);
    var N :| IsLog2Ceil(x, LOG2_PRECISION, N);
    assert IsRequired(m, d, SamplesFor(N));
  }

  lemma NextPow2Is(n: nat, j: nat)
    requires j >= 1 && Pow2(j - 1) < n <= Pow2(j)
    ensures NextPow2(n) == Pow2(j)
  {
    BitLenUnique(n - 1, j);
  }

  /** Three quarters of the encoded rows hold data: finitely many samples are enough. */
  lemma QuarterSpare(m: nat, d: nat)
    requires 1 <= d <= m && 4 * d <= 3 * m
    ensures Power(Miss(m, d), 128) <= 0.5
  {
    var x := Miss(m, d);
    MissBounds(m, d);
    SevenEighths(m, d);
    var y := Power(0.875, 6);
    assert y <= 0.5;
    hide Power, Miss;
    PowerMonotone(x, 0.875, 128);
    PowerAdd(0.875, 6, 122);
    PowerMonotone(0.875, 1.0, 122);
    TwoToSmall();
    PowerTwoTo(0, 122);
    PowerPositive(0.875, 122);
    ProductOrder(y, 0.5, Power(0.875, 122), 1.0);
  }

  lemma SevenEighths(m: nat, d: nat)
    requires 1 <= d <= m && 4 * d <= 3 * m
    ensures Miss(m, d) <= 0.875
  {
    var a, b := (m + d - 1) as real, (2 * m) as real;
    var r := a / b;
    assert r * b == a && 8.0 * a <= 7.0 * b;
    NonNegativeFactor(0.875 - r, b);
  }

  lemma DivCeilIs(a: nat, b: nat, q: nat)
    requires b >= 1 && a == q * b
    ensures DivCeil(a, b) == q
  {
    hide DivCeil;
    var p := DivCeil(a, b);
    if p > q { TimesMonotone(b, q, p - 1); }
    if p < q { MulGap(b, p, q); }
  }

  /** The sizes for elements that fill the rows of every shard. */
  lemma EvenSizes(dataBytes: nat, n: nat, cols: nat, samples: nat, j: nat)
    requires n >= 1 && cols >= 1 && 8 * dataBytes == 63 * (n * samples * cols)
    requires j >= 1 && Pow2(j - 1) < n * samples <= Pow2(j)
    ensures WithCols(dataBytes, n, 0, cols) == Topology(dataBytes, cols, n * samples, Pow2(j), samples, 0, n, n)
  {
    DivCeilIs(8 * dataBytes, 63, n * samples * cols);
    DivCeilIs(n * samples * cols, cols, n * samples);
    TimesComm(n, samples);
    DivCeilIs(n * samples, n, samples);
    NextPow2Is(n * samples, j);
    hide DivCeil, NextPow2, Pow2;
  }

  lemma GoodWhen(dataBytes: nat, n: nat, k: nat, cols: nat)
    requires n >= 1 && cols >= 1 && dataBytes >= 1
    requires 4 * WithCols(dataBytes, n, k, cols).dataRows <= 3 * WithCols(dataBytes, n, k, cols).encodedRows
    requires SECURITY_BITS * 128 * (n + k) <= WithCols(dataBytes, n, k, cols).encodedRows
    ensures Good(dataBytes, n, k, cols)
  {
    hide WithCols, IsRequired, Power, Miss, Good, Fewest, IsLog2Ceil, Sized, Covers;
    Candidate(dataBytes, n, k, cols);
    var m, d := WithCols(dataBytes, n, k, cols).encodedRows, WithCols(dataBytes, n, k, cols).dataRows;
    RequiredExists(m, d);
    var r :| IsRequired(m, d, r);
    RequiredMeaning(m, d, r);
    QuarterSpare(m, d);
    TimesMonotone(n + k, r.count, SECURITY_BITS * 128);
    TimesComm(n + k, r.count);
    GoodTest(dataBytes, n, k, cols, r);
  }

  lemma NotGoodWhen(dataBytes: nat, n: nat, k: nat, cols: nat)
    requires n >= 1 && cols >= 1 && dataBytes >= 1
    requires WithCols(dataBytes, n, k, cols).dataRows == WithCols(dataBytes, n, k, cols).encodedRows >= 128
    ensures !Good(dataBytes, n, k, cols)
  {
    hide WithCols, IsRequired, Power, Miss;
    if Good(dataBytes, n, k, cols) {
      var m := WithCols(dataBytes, n, k, cols).encodedRows;
      var r :| IsRequired(m, m, r) && Fits(r, n + k, m);
      RequiredMeaning(m, m, r);
      FullRows(m);
    }
  }

  lemma TwoColumns(dataBytes: nat, n: nat, k: nat)
    requires n >= 1 && dataBytes >= 1 && Representable(dataBytes, n, k, 1)
    requires Good(dataBytes, n, k, 2) && !Good(dataBytes, n, k, 3)
    requires WithCols(dataBytes, n, k, 2).samples >= SECURITY_BITS * 128
    ensures !Unreachable(dataBytes, n, k)
    ensures Reckoned(dataBytes, n, k) == Some(WithCols(dataBytes, n, k, 2).(columnSamples := 2))
  {
    hide WithCols, IsRequired, Power, Miss, Representable, ColumnSamples, Reckoned;
    Candidate(dataBytes, n, k, 2);
    WithColsFields(dataBytes, n, k, 2);
    var base := WithCols(dataBytes, n, k, 2);
    var r :| IsRequired(base.encodedRows, base.dataRows, r) && Fits(r, n + k, base.encodedRows);
    hide Good;
    RequiredMeaning(base.encodedRows, base.dataRows, r);
    ColumnsReach(r.count, base.samples);
    var t := base.(columnSamples := 2);
    assert Larger(r.count, base.samples) == t.samples;
    assert Chosen(t, dataBytes, n, k);
    assert LongestRun(dataBytes, n, k, 2);
    ReckonedIs(t, dataBytes, n, k);
  }

  /** The sizes of that many bytes in 32768 shards, all of them needed: two columns are good, three are not, and the
      encoded rows are 2^32, a quarter of them in no shard. */
  lemma SizesFor32768(dataBytes: nat, n: nat)
    requires dataBytes == 50_734_301_184 && n == 0x8000
    ensures !Unreachable(dataBytes, n, 0)
    ensures Reckoned(dataBytes, n, 0) == Some(Topology(dataBytes, 2, 0xC000_0000, 0x1_0000_0000, 0x1_8000, 2, n, n))
  {
    hide Pow2, Good, WithCols, Reckoned, Unreachable;
    Pow2Values();
    Pow2Next(32);
    Pow2Next(30);
    EvenSizes(dataBytes, n, 1, 0x3_0000, 33);
    EvenSizes(dataBytes, n, 2, 0x1_8000, 32);
    EvenSizes(dataBytes, n, 3, 0x1_0000, 31);
    GoodWhen(dataBytes, n, 0, 2);
    NotGoodWhen(dataBytes, n, 0, 3);
    TwoColumns(dataBytes, n, 0);
  }
}
