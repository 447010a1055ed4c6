/** The coding scheme: encoding data into shards with a checksum, checking a shard against the
    checksum, and decoding from enough shards. */
module Zoda {
  import opened Bits
  import opened Goldilocks
  import opened Polynomials
  import opened RootProducts
  import opened Ntt
  import opened Matrices
  import opened Combinations
  import opened Topology
  import opened Packing
  import opened Recovery
  import opened Vanishing
  import opened Wrappers

  datatype Error =
    | InvalidShard
    | InvalidReShard
    | InvalidIndex(index: nat)
    | InsufficientShards(given: nat, needed: nat)
    | InsufficientUniqueRows(filled: nat, needed: nat)

  // ---------- Reed-Solomon encoding of the columns of a matrix ----------

  /** Column k of a matrix as a polynomial with n coefficients. */
  ghost function ColumnPoly(m: Matrix, k: nat, n: nat): (f: seq<F>)
    requires k < m.Length1
    reads m
    ensures |f| == n && forall i :: 0 <= i < n ==> f[i] == if i < m.Length0 then m[i, k] else 0
  {
    seq(n, i requires 0 <= i < n reads m => if i < m.Length0 then m[i, k] else 0)
  }

  /** `Matrix::as_polynomials`: nothing when coefficients would be lost. */
  method AsPolynomials(m: Matrix, minCoefficients: nat) returns (r: Option<PolynomialVector>)
    requires 0 < minCoefficients && Log2(NextPow2(minCoefficients)) <= 64
    ensures r.None? <==> minCoefficients < m.Length0
    ensures r.Some? ==> fresh(r.value) && fresh(r.value.data) && r.value.Valid()
    ensures r.Some? ==> r.value.data.Length0 == NextPow2(minCoefficients) && r.value.data.Length1 == m.Length1
    ensures r.Some? ==> forall k :: 0 <= k < m.Length1 ==>
      r.value.Poly(k) == ColumnPoly(m, k, NextPow2(minCoefficients))
  {
    hide Cell, NextPow2, Log2, Pow2;
    if minCoefficients < m.Length0 {
      return None;
    }
    NextPow2Bounds(minCoefficients);
    var flat := Flatten(m);
    var p := new PolynomialVector.FromCoefficients(minCoefficients, m.Length1, flat);
    forall k | 0 <= k < m.Length1
      ensures p.Poly(k) == ColumnPoly(m, k, NextPow2(minCoefficients))
    {
      forall i | 0 <= i < NextPow2(minCoefficients)
        ensures p.Poly(k)[i] == ColumnPoly(m, k, NextPow2(minCoefficients))[i]
      {
        if i >= m.Length0 { CellBeyond(flat, m.Length0, m.Length1, i, k); }
      }
    }
    return Some(p);
  }

  lemma CellBeyond(s: seq<F>, rows: nat, cols: nat, i: nat, k: nat)
    requires |s| == rows * cols && i >= rows
    ensures Cell(s, cols, i, k) == 0
  {}

  /** The values of every column over the domain. */
  method EncodeColumns(m: Matrix, encodedRows: nat) returns (out: Matrix)
    requires HasDomain(encodedRows) && m.Length0 <= encodedRows
    ensures fresh(out) && out.Length0 == encodedRows && out.Length1 == m.Length1
    ensures forall i, k :: 0 <= i < encodedRows && 0 <= k < m.Length1 ==>
      out[i, k] == Eval(ColumnPoly(m, k, encodedRows), Domain(Log2(encodedRows))[i])
  {
    hide Eval, Domain, NextPow2, Log2, Pow2;
    NextPow2Same(encodedRows);
    var polynomials := AsPolynomials(m, encodedRows);
    var evaluated := polynomials.value.Evaluate();
    out := evaluated.data;
  }

  // ---------- Encoding ----------

  ghost predicate IsPermutation(s: seq<nat>, n: nat) {
    |s| == n && (forall i :: 0 <= i < n ==> s[i] < n) && forall i, j :: 0 <= i < j < n ==> s[i] != s[j]
  }

  /** A topology for which the transform exists, and the shuffled row indices. */
  ghost predicate Setup(t: Topology, shuffled: seq<nat>) {
    Sized(t) && HasDomain(t.encodedRows) && IsPermutation(shuffled, t.encodedRows)
  }

  /** Position j of shard i in the shuffled order. */
  function Position(t: Topology, i: nat, j: nat): nat { i * t.samples + j }

  lemma PositionInRange(t: Topology, i: nat, j: nat)
    requires Sized(t) && i < t.totalShards && j < t.samples
    ensures Position(t, i, j) < t.encodedRows
    ensures i * t.samples + t.samples <= t.encodedRows
  {
    hide Pow2, Log2;
    ShardEnd(i, t.samples, t.totalShards);
  }

  lemma ShardEnd(i: nat, samples: nat, shards: nat)
    requires i < shards
    ensures i * samples + samples <= shards * samples
  {
    MulGap(samples, i, shards);
  }

  lemma PositionsDiffer(t: Topology, i: nat, j: nat, i': nat, j': nat)
    requires j < t.samples && j' < t.samples && (i != i' || j != j')
    ensures Position(t, i, j) != Position(t, i', j')
  {
    if i < i' { MulGap(t.samples, i, i'); }
    if i' < i { MulGap(t.samples, i', i); }
  }

  /** The encoded row that is row j of shard i. */
  ghost function ShuffledRow(t: Topology, shuffled: seq<nat>, i: nat, j: nat): (row: nat)
    requires Sized(t) && IsPermutation(shuffled, t.encodedRows) && i < t.totalShards && j < t.samples
    ensures row < t.encodedRows
  {
    PositionInRange(t, i, j);
    shuffled[Position(t, i, j)]
  }

  lemma ShuffledAt(t: Topology, shuffled: seq<nat>, i: nat, j: nat)
    requires Sized(t) && IsPermutation(shuffled, t.encodedRows) && i < t.totalShards && j < t.samples
    ensures i * t.samples + j < |shuffled| && shuffled[i * t.samples + j] == ShuffledRow(t, shuffled, i, j)
  {
    hide Log2, Pow2;
    PositionInRange(t, i, j);
  }

  /** The polynomials of the columns: data coefficients first, then zeros. */
  ghost predicate DataPolys(polys: seq<seq<F>>, t: Topology) {
    |polys| == t.dataCols &&
    forall k :: 0 <= k < |polys| ==>
      |polys[k]| == t.encodedRows && forall i :: t.dataRows <= i < t.encodedRows ==> polys[k][i] == 0
  }

  /** The coefficients are the elements, row by row. */
  ghost predicate Holds(polys: seq<seq<F>>, t: Topology, elements: seq<F>)
    requires DataPolys(polys, t) && t.dataRows <= t.encodedRows
  {
    forall i, k :: 0 <= i < t.dataRows && 0 <= k < t.dataCols ==> polys[k][i] == Cell(elements, t.dataCols, i, k)
  }

  /** The rows of shard `index` are the values of the polynomials at its shuffled positions. */
  ghost predicate Honest(shard: Matrix, index: nat, polys: seq<seq<F>>, t: Topology, shuffled: seq<nat>)
    requires Setup(t, shuffled) && DataPolys(polys, t)
    reads shard
  {
    index < t.totalShards && shard.Length0 == t.samples && shard.Length1 == t.dataCols &&
    forall j, k :: 0 <= j < t.samples && 0 <= k < t.dataCols ==>
      shard[j, k] == Eval(polys[k], Domain(Log2(t.encodedRows))[ShuffledRow(t, shuffled, index, j)])
  }

  /** The checksum of the data: its rows times the checking matrix. */
  ghost predicate IsChecksum(checksum: Matrix, polys: seq<seq<F>>, t: Topology, checkingMatrix: Matrix)
    requires DataPolys(polys, t) && t.dataRows <= t.encodedRows && checkingMatrix.Length0 == t.dataCols
    reads checksum, checkingMatrix
  {
    checksum.Length0 == t.dataRows && checksum.Length1 == checkingMatrix.Length1 &&
    forall i, k :: 0 <= i < t.dataRows && 0 <= k < checksum.Length1 ==>
      checksum[i, k] == Dot(Coefficients(polys, i), Column(checkingMatrix, k), t.dataCols)
  }

  /** The listed rows, in order. */
  method GatherRows(m: Matrix, indices: seq<nat>) returns (out: Matrix)
    requires forall j :: 0 <= j < |indices| ==> indices[j] < m.Length0
    ensures fresh(out) && out.Length0 == |indices| && out.Length1 == m.Length1
    ensures forall j, k :: 0 <= j < |indices| && 0 <= k < m.Length1 ==> out[j, k] == m[indices[j], k]
  {
    hide Cell;
    var cols := m.Length1;
    var flat: seq<F> := [];
    for i := 0 to |indices|
      invariant |flat| == i * cols
      invariant forall r, c :: 0 <= r < i && 0 <= c < cols ==> m[indices[r], c] == Cell(flat, cols, r, c)
    {
      for k := 0 to cols
        invariant |flat| == i * cols + k
        invariant forall r, c :: 0 <= r <= i && 0 <= c < cols && Before(r, c, i, k) ==>
          m[indices[r], c] == Cell(flat, cols, r, c)
      {
        CellAppend(flat, cols, i, k, m[indices[i], k]);
        flat := flat + [m[indices[i], k]];
      }
    }
    out := Init(|indices|, cols, flat);
  }

  /** The values of the polynomials at every row of the domain. */
  ghost predicate IsEncoded(encoded: Matrix, polys: seq<seq<F>>, t: Topology)
    requires DataPolys(polys, t) && HasDomain(t.encodedRows)
    reads encoded
  {
    encoded.Length0 == t.encodedRows && encoded.Length1 == t.dataCols &&
    forall i, k :: 0 <= i < t.encodedRows && 0 <= k < t.dataCols ==>
      encoded[i, k] == Eval(polys[k], Domain(Log2(t.encodedRows))[i])
  }

  method MakeShard(encoded: Matrix, t: Topology, shuffled: seq<nat>, i: nat, ghost polys: seq<seq<F>>)
    returns (rows: Matrix)
    requires Setup(t, shuffled) && DataPolys(polys, t) && i < t.totalShards && IsEncoded(encoded, polys, t)
    ensures fresh(rows) && Honest(rows, i, polys, t, shuffled)
  {
    hide Eval, Domain, Log2, Pow2;
    RowsPositive(t);
    PositionInRange(t, i, 0);
    var start := i * t.samples;
    var indices := shuffled[start..start + t.samples];
    rows := GatherRows(encoded, indices);
    forall j, k | 0 <= j < t.samples && 0 <= k < t.dataCols
      ensures rows[j, k] == Eval(polys[k], Domain(Log2(t.encodedRows))[ShuffledRow(t, shuffled, i, j)])
    {
      assert indices[j] == ShuffledRow(t, shuffled, i, j);
    }
  }

  method EncodeData(m: Matrix, t: Topology) returns (encoded: Matrix, ghost polys: seq<seq<F>>)
    requires HasDomain(t.encodedRows) && t.dataRows <= t.encodedRows && m.Length0 == t.dataRows
    requires m.Length1 == t.dataCols
    ensures fresh(encoded) && DataPolys(polys, t) && IsEncoded(encoded, polys, t)
    ensures forall i, k :: 0 <= i < t.dataRows && 0 <= k < t.dataCols ==> polys[k][i] == m[i, k]
  {
    hide Eval, Domain, Log2, Pow2;
    encoded := EncodeColumns(m, t.encodedRows);
    polys := seq(t.dataCols, k requires 0 <= k < t.dataCols reads m => ColumnPoly(m, k, t.encodedRows));
    assert forall k :: 0 <= k < t.dataCols ==> polys[k] == ColumnPoly(m, k, t.encodedRows);
  }

  method MakeShards(encoded: Matrix, t: Topology, shuffled: seq<nat>, ghost polys: seq<seq<F>>)
    returns (shards: seq<Matrix>)
    requires Setup(t, shuffled) && DataPolys(polys, t) && IsEncoded(encoded, polys, t)
    ensures |shards| == t.totalShards
    ensures forall i :: 0 <= i < |shards| ==> Honest(shards[i], i, polys, t, shuffled)
  {
    hide Honest, IsEncoded, Sized, IsPermutation, DataPolys;
    shards := [];
    for i := 0 to t.totalShards
      invariant |shards| == i && IsEncoded(encoded, polys, t)
      invariant forall r :: 0 <= r < i ==> Honest(shards[r], r, polys, t, shuffled)
    {
      var rows := MakeShard(encoded, t, shuffled, i, polys);
      shards := shards + [rows];
    }
  }

  method EncodeWith(t: Topology, data: seq<Byte>, checkingMatrix: Matrix, shuffled: seq<nat>)
    returns (checksum: Matrix, shards: seq<Matrix>, ghost polys: seq<seq<F>>, ghost elements: seq<F>)
    requires Setup(t, shuffled) && checkingMatrix.Length0 == t.dataCols
    ensures Digits(63, elements) && Value(63, elements) == Value(8, data)
    ensures DataPolys(polys, t) && Holds(polys, t, elements)
    ensures fresh(checksum) && IsChecksum(checksum, polys, t, checkingMatrix)
    ensures |shards| == t.totalShards
    ensures forall i :: 0 <= i < |shards| ==> Honest(shards[i], i, polys, t, shuffled)
  {
    hide Eval, Domain, Log2, Pow2, Cell, Value, Digits, Dot, Honest, IsEncoded, IsPermutation;
    var els := BytesToElements(data);
    elements := els;
    var m := Init(t.dataRows, t.dataCols, els);
    var encoded;
    encoded, polys := EncodeData(m, t);
    checksum := Multiply(m, checkingMatrix);
    forall i | 0 <= i < t.dataRows
      ensures Coefficients(polys, i) == Row(m, i)
    {}
    shards := MakeShards(encoded, t, shuffled, polys);
  }

  /** The transform exists, and every matrix that encoding makes can be allocated. */
  predicate EncodeFits(t: Topology)
    requires t.encodedRows >= 1
  {
    Log2(t.encodedRows) <= 32 && Allocatable(t.encodedRows, t.dataCols) &&
    Allocatable(t.dataCols, t.columnSamples) && Allocatable(t.dataRows, t.columnSamples)
  }

  /** Likewise for the encoded checksum. */
  predicate ChecksumFits(t: Topology)
    requires t.encodedRows >= 1
  {
    Log2(t.encodedRows) <= 32 && Allocatable(t.encodedRows, t.columnSamples)
  }

  /** When encoding succeeds: the sizes are machine words, some number of samples is enough, and the encoded data have
      a transform and can be allocated. */
  ghost predicate Encodable(dataBytes: nat, n: nat, k: nat)
    requires n >= 1
  {
    var t := Reckoned(dataBytes, n, k);
    t.Some? && !Unreachable(Corrected(dataBytes), n, k) && t.value.encodedRows >= 1 &&
    Log2(t.value.encodedRows) <= 32 && Allocatable(t.value.encodedRows, t.value.dataCols)
  }

  /** The other matrices fit exactly when some number of samples is enough: otherwise the checksum overflows. */
  lemma FitsWhen(t: Topology, dataBytes: nat, n: nat, k: nat)
    requires n >= 1 && Reckoned(dataBytes, n, k) == Some(t) && t.encodedRows >= 1 && t.dataRows <= t.encodedRows
    requires t.encodedRows == Pow2(Log2(t.encodedRows))
    ensures EncodeFits(t) <==> Encodable(dataBytes, n, k)
    ensures EncodeFits(t) ==> ChecksumFits(t)
  {
    hide IsReckoned, Unreachable, Reckoned, Pow2, Log2, IsRequired, Reaches;
    ReckonedColumns(t, dataBytes, n, k);
    if !Unreachable(Corrected(dataBytes), n, k) && Log2(t.encodedRows) <= 32 {
      Pow2Monotone(Log2(t.encodedRows), 32);
      Pow2Values();
      SmallProduct(t.dataRows, t.columnSamples);
      SmallProduct(t.encodedRows, t.columnSamples);
      if t.dataCols > 1 { WideProduct(t.dataCols, t.encodedRows); }
    }
  }

  lemma SmallProduct(rows: nat, columns: nat)
    requires rows <= 0x1_0000_0000 && columns <= 2 * SECURITY_BITS * 128
    ensures Allocatable(rows, columns)
  {
    TimesMonotone(rows, columns, 2 * SECURITY_BITS * 128);
  }

  lemma WideProduct(cols: nat, rows: nat)
    requires rows >= 2
    ensures Allocatable(rows, cols) ==> Allocatable(cols, 2)
  {
    TimesMonotone(cols, 2, rows);
    TimesComm(rows, cols);
  }

  datatype Encoding = Encoding(topology: Topology, checksum: Matrix, shards: seq<Matrix>)

  /** The shuffle of the rows, for any number of them. */
  ghost predicate Shuffles(shuffle: nat -> seq<nat>) {
    forall n: nat :: IsPermutation(shuffle(n), n)
  }

  /** Every element of the checking matrix comes from the randomness, in order. */
  ghost predicate Drawn(checkingMatrix: Matrix, t: Topology, randomness: seq<F>)
    reads checkingMatrix
  {
    checkingMatrix.Length0 == t.dataCols && checkingMatrix.Length1 == t.columnSamples &&
    forall i, k :: 0 <= i < t.dataCols && 0 <= k < t.columnSamples ==>
      checkingMatrix[i, k] == Cell(randomness, t.columnSamples, i, k)
  }

  /** `encode`: none when it panics. */
  method Encode(minimumShards: nat, extraShards: nat, data: seq<Byte>, randomness: seq<F>, shuffle: nat -> seq<nat>)
    returns (r: Option<Encoding>, ghost checkingMatrix: Matrix, ghost polys: seq<seq<F>>, ghost elements: seq<F>)
    requires minimumShards >= 1 && Shuffles(shuffle)
    ensures r.Some? <==> Encodable(|data|, minimumShards, extraShards)
    ensures Reckoned(|data|, minimumShards, extraShards).None? <==> Overflows(|data|, minimumShards, extraShards)
    ensures r.Some? ==> Reckoned(|data|, minimumShards, extraShards) == Some(r.value.topology)
    ensures r.Some? ==> Setup(r.value.topology, shuffle(r.value.topology.encodedRows)) && ChecksumFits(r.value.topology)
    ensures r.Some? ==> Digits(63, elements) && Value(63, elements) == Value(8, data)
    ensures r.Some? ==> DataPolys(polys, r.value.topology) && Holds(polys, r.value.topology, elements)
    ensures r.Some? ==> Drawn(checkingMatrix, r.value.topology, randomness)
    ensures r.Some? ==> IsChecksum(r.value.checksum, polys, r.value.topology, checkingMatrix)
    ensures r.Some? ==> |r.value.shards| == r.value.topology.totalShards
    ensures r.Some? ==> forall i :: 0 <= i < |r.value.shards| ==>
      Honest(r.value.shards[i], i, polys, r.value.topology, shuffle(r.value.topology.encodedRows))
  {
    hide Eval, Domain, Log2, Pow2, Cell, Value, Digits, Honest, IsPermutation, Reckoned, Unreachable, Overflows;
    hide IsChecksum, Holds, DataPolys, EncodeFits, ChecksumFits;
    checkingMatrix, polys, elements := new F[0, 0], [], [];
    var reckoned := Reckon(minimumShards, extraShards, |data|);
    if reckoned.None? {
      return None, checkingMatrix, polys, elements;
    }
    var t := reckoned.value;
    ReckonedSized(t, |data|, minimumShards, extraShards);
    FitsWhen(t, |data|, minimumShards, extraShards);
    if !EncodeFits(t) {
      return None, checkingMatrix, polys, elements;
    }
    assert HasDomain(t.encodedRows) by { DomainFits(t); }
    var drawn := Init(t.dataCols, t.columnSamples, randomness);
    var checksum, shards;
    checksum, shards, polys, elements := EncodeWith(t, data, drawn, shuffle(t.encodedRows));
    checkingMatrix := drawn;
    r := Some(Encoding(t, checksum, shards));
  }

  lemma DomainFits(t: Topology)
    requires Sized(t) && EncodeFits(t)
    ensures HasDomain(t.encodedRows)
  {}

  // ---------- Checking ----------

  /** A shard that has been checked for integrity. */
  datatype CheckedShard = CheckedShard(index: nat, shard: Matrix)

  method SameRow(a: Matrix, i: nat, b: Matrix, j: nat) returns (same: bool)
    requires i < a.Length0 && j < b.Length0 && a.Length1 == b.Length1
    ensures same <==> forall k :: 0 <= k < a.Length1 ==> a[i, k] == b[j, k]
  {
    for k := 0 to a.Length1
      invariant forall c :: 0 <= c < k ==> a[i, c] == b[j, c]
    {
      if a[i, k] != b[j, k] {
        return false;
      }
    }
    return true;
  }

  class CheckingData {
    const topology: Topology
    const checkingMatrix: Matrix
    const encodedChecksum: Matrix
    const shuffledIndices: seq<nat>

    ghost predicate Valid() {
      Setup(topology, shuffledIndices) &&
      checkingMatrix.Length0 == topology.dataCols &&
      encodedChecksum.Length0 == topology.encodedRows && encodedChecksum.Length1 == checkingMatrix.Length1
    }

    constructor (topology: Topology, checkingMatrix: Matrix, encodedChecksum: Matrix, shuffledIndices: seq<nat>)
      requires Setup(topology, shuffledIndices) && checkingMatrix.Length0 == topology.dataCols
      requires encodedChecksum.Length0 == topology.encodedRows && encodedChecksum.Length1 == checkingMatrix.Length1
      ensures this.topology == topology && this.checkingMatrix == checkingMatrix
      ensures this.encodedChecksum == encodedChecksum && this.shuffledIndices == shuffledIndices && Valid()
    {
      this.topology, this.checkingMatrix := topology, checkingMatrix;
      this.encodedChecksum, this.shuffledIndices := encodedChecksum, shuffledIndices;
    }

    /** Row j of the shard, times column k of the checking matrix, is the encoded checksum at its row. */
    ghost predicate RowPasses(shard: Matrix, index: nat, j: nat)
      requires Valid() && index < topology.totalShards && j < topology.samples
      requires shard.Length0 == topology.samples && shard.Length1 == topology.dataCols
      reads shard, checkingMatrix, encodedChecksum
    {
      forall k :: 0 <= k < checkingMatrix.Length1 ==>
        Dot(Row(shard, j), Column(checkingMatrix, k), topology.dataCols) ==
        encodedChecksum[ShuffledRow(topology, shuffledIndices, index, j), k]
    }

    ghost predicate Passes(shard: Matrix, index: nat, included: bool)
      requires Valid()
      reads shard, checkingMatrix, encodedChecksum
    {
      shard.Length0 == topology.samples && shard.Length1 == topology.dataCols &&
      index < topology.totalShards && included &&
      forall j :: 0 <= j < topology.samples ==> RowPasses(shard, index, j)
    }

    /** A shard is accepted exactly when its index, shape, inclusion proof and checksum rows are right. */
    method Check(index: nat, shard: Matrix, included: bool) returns (r: Result<CheckedShard, Error>)
      requires Valid()
      ensures r.Ok? <==> Passes(shard, index, included)
      ensures r.Ok? ==> r.value == CheckedShard(index, shard)
      ensures r.Err? ==> r.error == if index < topology.totalShards then InvalidReShard else InvalidIndex(index)
    {
      hide Dot, Sized, Log2, Pow2;
      if index >= topology.totalShards {
        return Err(InvalidIndex(index));
      }
      if shard.Length0 != topology.samples || shard.Length1 != topology.dataCols || !included {
        return Err(InvalidReShard);
      }
      var shardChecksum := Multiply(shard, checkingMatrix);
      for j := 0 to topology.samples
        invariant forall i, k :: 0 <= i < topology.samples && 0 <= k < checkingMatrix.Length1 ==>
          shardChecksum[i, k] == Dot(Row(shard, i), Column(checkingMatrix, k), topology.dataCols)
        invariant forall r :: 0 <= r < j ==> RowPasses(shard, index, r)
      {
        PositionInRange(topology, index, j);
        var row := shuffledIndices[index * topology.samples + j];
        assert row == ShuffledRow(topology, shuffledIndices, index, j);
        var same := SameRow(shardChecksum, j, encodedChecksum, row);
        assert same <==> RowPasses(shard, index, j);
        if !same {
          return Err(InvalidReShard);
        }
      }
      return Ok(CheckedShard(index, shard));
    }
  }

  /** Checking data from a checksum; `committed` says that the commitment covers the root and the size.  None when it
      panics. */
  method ReckonChecking(minimumShards: nat, extraShards: nat, dataBytes: nat, committed: bool, checksum: Matrix,
                        randomness: seq<F>, shuffle: nat -> seq<nat>) returns (r: Option<Result<CheckingData, Error>>)
    requires minimumShards >= 1 && Shuffles(shuffle)
    ensures var reckoned := Reckoned(dataBytes, minimumShards, extraShards);
            if reckoned.None? then r.None?
            else
              var t := reckoned.value;
              if !committed then r == Some(Err(InvalidShard))
              else if !Allocatable(t.dataCols, t.columnSamples) then r.None?
              else if checksum.Length0 != t.dataRows || checksum.Length1 != t.columnSamples
              then r == Some(Err(InvalidShard))
              else t.encodedRows >= 1 && if !ChecksumFits(t) then r.None? else r.Some? && r.value.Ok?
    ensures r.Some? && r.value.Ok? ==>
              var data, t := r.value.value, r.value.value.topology;
              Reckoned(dataBytes, minimumShards, extraShards) == Some(t) && data.Valid() &&
              data.shuffledIndices == shuffle(t.encodedRows) && Drawn(data.checkingMatrix, t, randomness) &&
              EncodesChecksum(data, checksum)
  {
    hide Eval, Domain, Log2, Pow2, IsPermutation, Reckoned, Overflows, Cell, ChecksumFits;
    var reckoned := Reckon(minimumShards, extraShards, dataBytes);
    if reckoned.None? {
      return None;
    }
    var t := reckoned.value;
    ReckonedSized(t, dataBytes, minimumShards, extraShards);
    if !committed {
      return Some(Err(InvalidShard));
    }
    if !Allocatable(t.dataCols, t.columnSamples) {
      return None;
    }
    var checkingMatrix := Init(t.dataCols, t.columnSamples, randomness);
    if checksum.Length0 != t.dataRows || checksum.Length1 != t.columnSamples {
      return Some(Err(InvalidShard));
    }
    if !ChecksumFits(t) {
      return None;
    }
    assert HasDomain(t.encodedRows) by { ChecksumDomain(t); }
    var encodedChecksum := EncodeColumns(checksum, t.encodedRows);
    var data := new CheckingData(t, checkingMatrix, encodedChecksum, shuffle(t.encodedRows));
    return Some(Ok(data));
  }

  lemma ChecksumDomain(t: Topology)
    requires Sized(t) && ChecksumFits(t)
    ensures HasDomain(t.encodedRows)
  {}

  /** The encoded checksum holds the values of the checksum's columns over the domain. */
  ghost predicate EncodesChecksum(data: CheckingData, checksum: Matrix)
    requires data.Valid()
    reads data.encodedChecksum, checksum
  {
    checksum.Length1 == data.encodedChecksum.Length1 &&
    forall i, k :: 0 <= i < data.topology.encodedRows && 0 <= k < checksum.Length1 ==>
      data.encodedChecksum[i, k] ==
      Eval(ColumnPoly(checksum, k, data.topology.encodedRows), Domain(Log2(data.topology.encodedRows))[i])
  }

  /** Encoding commutes with multiplication by the checking matrix: at every point, the encoded checksum is
      the encoded data times the checking matrix. */
  lemma ChecksumCommutes(checksum: Matrix, polys: seq<seq<F>>, t: Topology, checkingMatrix: Matrix, k: nat, x: F)
    requires DataPolys(polys, t) && t.dataRows <= t.encodedRows && checkingMatrix.Length0 == t.dataCols
    requires IsChecksum(checksum, polys, t, checkingMatrix) && k < checksum.Length1
    ensures Eval(ColumnPoly(checksum, k, t.encodedRows), x) ==
      Dot(Values(polys, x), Column(checkingMatrix, k), t.dataCols)
  {
    hide Eval, Dot;
    var r, h := ColumnPoly(checksum, k, t.encodedRows), Column(checkingMatrix, k);
    forall i | 0 <= i < t.encodedRows
      ensures r[i] == Dot(Coefficients(polys, i), h, t.dataCols)
    {
      if i >= t.dataRows { DotPrefixZero(Coefficients(polys, i), h, t.dataCols); }
    }
    EvalCombination(r, polys, h, t.dataCols, x);
  }

  /** Every honest shard passes the check made from the honest checksum. */
  lemma HonestPasses(data: CheckingData, checksum: Matrix, polys: seq<seq<F>>, shard: Matrix, index: nat)
    requires data.Valid() && DataPolys(polys, data.topology)
    requires IsChecksum(checksum, polys, data.topology, data.checkingMatrix)
    requires EncodesChecksum(data, checksum)
    requires Honest(shard, index, polys, data.topology, data.shuffledIndices)
    ensures data.Passes(shard, index, true)
  {
    hide Eval, Dot, Domain, Log2, Pow2, IsPermutation;
    var t := data.topology;
    forall j | 0 <= j < t.samples
      ensures data.RowPasses(shard, index, j)
    {
      var row := ShuffledRow(t, data.shuffledIndices, index, j);
      var x := Domain(Log2(t.encodedRows))[row];
      assert Row(shard, j) == Values(polys, x);
      forall k | 0 <= k < checksum.Length1
        ensures Dot(Row(shard, j), Column(data.checkingMatrix, k), t.dataCols) == data.encodedChecksum[row, k]
      {
        ChecksumCommutes(checksum, polys, t, data.checkingMatrix, k, x);
      }
    }
  }

  // ---------- The rows covered by a list of shards ----------

  /** The first n encoded rows of shard i. */
  ghost function Chunk(t: Topology, shuffled: seq<nat>, i: nat, n: nat): (rows: set<nat>)
    requires Sized(t) && IsPermutation(shuffled, t.encodedRows) && i < t.totalShards && n <= t.samples
    ensures forall r :: r in rows ==> r < t.encodedRows
  {
    if n == 0 then {} else Chunk(t, shuffled, i, n - 1) + {ShuffledRow(t, shuffled, i, n - 1)}
  }

  lemma RowsDiffer(t: Topology, shuffled: seq<nat>, i: nat, j: nat, i': nat, j': nat)
    requires Sized(t) && IsPermutation(shuffled, t.encodedRows)
    requires i < t.totalShards && j < t.samples && i' < t.totalShards && j' < t.samples && (i != i' || j != j')
    ensures ShuffledRow(t, shuffled, i, j) != ShuffledRow(t, shuffled, i', j')
  {
    hide Position, Log2, Pow2;
    PositionInRange(t, i, j);
    PositionInRange(t, i', j');
    PositionsDiffer(t, i, j, i', j');
  }

  lemma {:induction false} ChunkFresh(t: Topology, shuffled: seq<nat>, i: nat, j: nat, i': nat, n: nat)
    requires Sized(t) && IsPermutation(shuffled, t.encodedRows)
    requires i < t.totalShards && j < t.samples && i' < t.totalShards && n <= t.samples && (i != i' || j >= n)
    ensures ShuffledRow(t, shuffled, i, j) !in Chunk(t, shuffled, i', n)
    decreases n
  {
    hide ShuffledRow, Sized, IsPermutation;
    if n > 0 {
      ChunkFresh(t, shuffled, i, j, i', n - 1);
      RowsDiffer(t, shuffled, i, j, i', n - 1);
    }
  }

  lemma {:induction false} ChunkSize(t: Topology, shuffled: seq<nat>, i: nat, n: nat)
    requires Sized(t) && IsPermutation(shuffled, t.encodedRows) && i < t.totalShards && n <= t.samples
    ensures |Chunk(t, shuffled, i, n)| == n
    decreases n
  {
    hide ShuffledRow, Sized, IsPermutation;
    if n > 0 {
      ChunkSize(t, shuffled, i, n - 1);
      ChunkFresh(t, shuffled, i, n - 1, i, n - 1);
    }
  }

  lemma {:induction false} ChunksDisjoint(t: Topology, shuffled: seq<nat>, i: nat, n: nat, i': nat, n': nat)
    requires Sized(t) && IsPermutation(shuffled, t.encodedRows)
    requires i < t.totalShards && i' < t.totalShards && i != i' && n <= t.samples && n' <= t.samples
    ensures Chunk(t, shuffled, i, n) !! Chunk(t, shuffled, i', n')
    decreases n
  {
    hide ShuffledRow, Sized, IsPermutation;
    if n > 0 {
      ChunksDisjoint(t, shuffled, i, n - 1, i', n');
      ChunkFresh(t, shuffled, i, n - 1, i', n');
    }
  }

  ghost predicate InRange(t: Topology, indices: seq<nat>) {
    forall i :: 0 <= i < |indices| ==> indices[i] < t.totalShards
  }

  /** The encoded rows of all the listed shards. */
  ghost function Covered(t: Topology, shuffled: seq<nat>, indices: seq<nat>): (rows: set<nat>)
    requires Sized(t) && IsPermutation(shuffled, t.encodedRows) && InRange(t, indices)
    ensures forall r :: r in rows ==> r < t.encodedRows
  {
    if indices == [] then {}
    else
      var last := |indices| - 1;
      Covered(t, shuffled, indices[..last]) + Chunk(t, shuffled, indices[last], t.samples)
  }

  function DistinctIndices(indices: seq<nat>): set<nat> {
    set i | i in indices
  }

  lemma {:induction false} CoveredContains(t: Topology, shuffled: seq<nat>, indices: seq<nat>, i: nat)
    requires Sized(t) && IsPermutation(shuffled, t.encodedRows) && InRange(t, indices) && i < t.totalShards
    ensures i in indices ==> Chunk(t, shuffled, i, t.samples) <= Covered(t, shuffled, indices)
    ensures i !in indices ==> Chunk(t, shuffled, i, t.samples) !! Covered(t, shuffled, indices)
  {
    hide Chunk, Sized, IsPermutation;
    if indices != [] {
      var last := |indices| - 1;
      assert indices == indices[..last] + [indices[last]];
      CoveredContains(t, shuffled, indices[..last], i);
      if i != indices[last] { ChunksDisjoint(t, shuffled, i, t.samples, indices[last], t.samples); }
    }
  }

  /** The number of covered rows counts each shard once, however often it is listed. */
  lemma {:induction false} CoveredSize(t: Topology, shuffled: seq<nat>, indices: seq<nat>)
    requires Sized(t) && IsPermutation(shuffled, t.encodedRows) && InRange(t, indices)
    ensures |Covered(t, shuffled, indices)| == t.samples * |DistinctIndices(indices)|
  {
    hide Chunk, Sized, IsPermutation;
    if indices == [] {
      assert DistinctIndices(indices) == {};
    } else {
      var last := |indices| - 1;
      var front, i := indices[..last], indices[last];
      assert indices == front + [i];
      CoveredSize(t, shuffled, front);
      CoveredContains(t, shuffled, front, i);
      var rows, chunk := Covered(t, shuffled, front), Chunk(t, shuffled, i, t.samples);
      ChunkSize(t, shuffled, i, t.samples);
      DistinctNext(front, i);
      hide Covered, DistinctIndices;
      assert Covered(t, shuffled, indices) == rows + chunk by { CoveredNext(t, shuffled, front, i); }
      if i in front {
        assert rows + chunk == rows;
      } else {
        DisjointSize(rows, chunk);
        OneMore(t.samples, |DistinctIndices(front)| + 1);
      }
    }
  }

  lemma CoveredNext(t: Topology, shuffled: seq<nat>, front: seq<nat>, i: nat)
    requires Sized(t) && IsPermutation(shuffled, t.encodedRows) && InRange(t, front) && i < t.totalShards
    ensures InRange(t, front + [i])
    ensures Covered(t, shuffled, front + [i]) == Covered(t, shuffled, front) + Chunk(t, shuffled, i, t.samples)
  {
    hide Chunk, Sized, IsPermutation;
    assert (front + [i])[..|front|] == front;
  }

  lemma DistinctNext(front: seq<nat>, i: nat)
    ensures |DistinctIndices(front + [i])| == |DistinctIndices(front)| + if i in front then 0 else 1
  {
    assert DistinctIndices(front + [i]) == DistinctIndices(front) + {i};
    if i in front { assert DistinctIndices(front) + {i} == DistinctIndices(front); }
  }

  lemma DisjointSize(a: set<nat>, b: set<nat>)
    requires a !! b
    ensures |a + b| == |a| + |b|
  {}

  /** Enough different shards cover enough rows. */
  lemma EnoughShards(t: Topology, indices: seq<nat>)
    requires Sized(t) && |DistinctIndices(indices)| >= t.minShards
    ensures t.samples * |DistinctIndices(indices)| >= t.dataRows
  {}

  lemma {:induction false} ClearUpdate(bits: Bitmap, i: nat)
    requires i < |bits| && bits[i]
    ensures Clear(bits[i := false]) == Clear(bits) + 1
  {
    var c := bits[i := false];
    if i == 0 {
      assert c[1..] == bits[1..];
    } else {
      assert c[1..] == bits[1..][i - 1 := false];
      ClearUpdate(bits[1..], i - 1);
    }
  }

  lemma {:induction false} ClearAll(bits: Bitmap)
    requires forall i :: 0 <= i < |bits| ==> !bits[i]
    ensures Clear(bits) == |bits|
  {
    if bits != [] { ClearAll(bits[1..]); }
  }

  /** The set bits are counted by any set that lists them. */
  lemma {:induction false} ActiveCount(bits: Bitmap, rows: set<nat>)
    requires forall r :: r in rows ==> r < |bits|
    requires forall r :: 0 <= r < |bits| ==> (bits[r] <==> r in rows)
    ensures Clear(bits) == |bits| - |rows|
    decreases |rows|
  {
    hide Clear;
    if rows == {} {
      ClearAll(bits);
    } else {
      var x :| x in rows;
      ActiveCount(bits[x := false], rows - {x});
      ClearUpdate(bits, x);
    }
  }

  // ---------- Decoding ----------

  function Indices(shards: seq<CheckedShard>): (r: seq<nat>)
    ensures |r| == |shards|
  {
    seq(|shards|, i requires 0 <= i < |shards| => shards[i].index)
  }

  /** What checking guarantees about a shard. */
  ghost predicate WellFormed(t: Topology, shards: seq<CheckedShard>) {
    forall i :: 0 <= i < |shards| ==>
      shards[i].index < t.totalShards && shards[i].shard.Length0 == t.samples && shards[i].shard.Length1 == t.dataCols
  }

  ghost predicate AllHonest(shards: seq<CheckedShard>, polys: seq<seq<F>>, t: Topology, shuffled: seq<nat>)
    requires Setup(t, shuffled) && DataPolys(polys, t)
    reads set s | s in shards :: s.shard
  {
    forall i :: 0 <= i < |shards| ==> Honest(shards[i].shard, shards[i].index, polys, t, shuffled)
  }

  /** Some shard has these values in this encoded row. */
  ghost predicate Gives(shards: seq<CheckedShard>, t: Topology, shuffled: seq<nat>, row: nat, values: seq<F>)
    requires Setup(t, shuffled) && WellFormed(t, shards)
    reads set s | s in shards :: s.shard
  {
    exists i, j :: 0 <= i < |shards| && 0 <= j < t.samples &&
      ShuffledRow(t, shuffled, shards[i].index, j) == row && Row(shards[i].shard, j) == values
  }

  /** Exactly these rows are active, each with values that are allowed there. */
  ghost predicate Fills(e: EvaluationVector, rows: set<nat>, allowed: iset<(nat, seq<F>)>)
    reads e, e.data
  {
    |e.activeRows| == e.data.Length0 &&
    forall r :: 0 <= r < |e.activeRows| ==>
      (e.activeRows[r] <==> r in rows) && (r in rows ==> (r, Row(e.data, r)) in allowed)
  }

  method PutRow(e: EvaluationVector, row: nat, values: seq<F>, ghost rows: set<nat>, ghost allowed: iset<(nat, seq<F>)>)
    requires e.Valid() && row < e.data.Length0 && |values| == e.data.Length1
    requires Fills(e, rows, allowed) && (row, values) in allowed
    modifies e, e.data
    ensures e.Valid() && Fills(e, rows + {row}, allowed)
  {
    hide PowerOfTwo;
    e.FillRow(row, values);
    forall r | 0 <= r < e.data.Length0
      ensures Row(e.data, r) == if r == row then values else old(Row(e.data, r))
    {}
  }

  method FillShard(e: EvaluationVector, s: CheckedShard, t: Topology, shuffled: seq<nat>,
                   ghost rows: set<nat>, ghost allowed: iset<(nat, seq<F>)>)
    requires Setup(t, shuffled) && e.Valid() && e.data != s.shard
    requires e.data.Length0 == t.encodedRows && e.data.Length1 == t.dataCols
    requires s.index < t.totalShards && s.shard.Length0 == t.samples && s.shard.Length1 == t.dataCols
    requires Fills(e, rows, allowed)
    requires forall j :: 0 <= j < t.samples ==> (ShuffledRow(t, shuffled, s.index, j), Row(s.shard, j)) in allowed
    modifies e, e.data
    ensures e.Valid() && Fills(e, rows + Chunk(t, shuffled, s.index, t.samples), allowed)
  {
    hide Log2, Pow2, Sized, IsPermutation, ShuffledRow, Fills;
    assert rows + Chunk(t, shuffled, s.index, 0) == rows;
    for j := 0 to t.samples
      invariant e.Valid() && Fills(e, rows + Chunk(t, shuffled, s.index, j), allowed)
      invariant forall i :: 0 <= i < t.samples ==> (ShuffledRow(t, shuffled, s.index, i), Row(s.shard, i)) in allowed
    {
      ShuffledAt(t, shuffled, s.index, j);
      var row := shuffled[s.index * t.samples + j];
      var values := seq(t.dataCols, k requires 0 <= k < t.dataCols reads s.shard => s.shard[j, k]);
      assert values == Row(s.shard, j);
      PutRow(e, row, values, rows + Chunk(t, shuffled, s.index, j), allowed);
      assert rows + Chunk(t, shuffled, s.index, j) + {row} == rows + Chunk(t, shuffled, s.index, j + 1);
    }
  }

  lemma GivenRows(shards: seq<CheckedShard>, t: Topology, shuffled: seq<nat>, i: nat)
    requires Setup(t, shuffled) && WellFormed(t, shards) && i < |shards|
    ensures forall j :: 0 <= j < t.samples ==>
      Gives(shards, t, shuffled, ShuffledRow(t, shuffled, shards[i].index, j), Row(shards[i].shard, j))
  {
    hide ShuffledRow, Sized, IsPermutation;
  }

  /** Fill the rows of all the shards. */
  method FillShards(t: Topology, shuffled: seq<nat>, shards: seq<CheckedShard>) returns (e: EvaluationVector)
    requires Setup(t, shuffled) && WellFormed(t, shards)
    ensures fresh(e) && fresh(e.data) && e.Valid() && e.data.Length0 == t.encodedRows && e.data.Length1 == t.dataCols
    ensures InRange(t, Indices(shards))
    ensures forall r :: 0 <= r < t.encodedRows ==> (e.activeRows[r] <==> r in Covered(t, shuffled, Indices(shards)))
    ensures forall r :: r in Covered(t, shuffled, Indices(shards)) ==> Gives(shards, t, shuffled, r, Row(e.data, r))
  {
    hide Log2, Pow2, Sized, Chunk, IsPermutation, ShuffledRow, Gives;
    e := new EvaluationVector.Empty(Log2(t.encodedRows), t.dataCols);
    ghost var allowed := iset p: (nat, seq<F>) | Gives(shards, t, shuffled, p.0, p.1);
    ghost var indices := Indices(shards);
    assert Fills(e, {}, allowed);
    hide Fills;
    for i := 0 to |shards|
      invariant fresh(e) && fresh(e.data) && e.Valid() && e.data.Length0 == t.encodedRows
      invariant e.data.Length1 == t.dataCols
      invariant Fills(e, Covered(t, shuffled, indices[..i]), allowed)
      invariant allowed == iset p: (nat, seq<F>) | Gives(shards, t, shuffled, p.0, p.1)
    {
      GivenRows(shards, t, shuffled, i);
      FillShard(e, shards[i], t, shuffled, Covered(t, shuffled, indices[..i]), allowed);
      assert indices[..i + 1][..i] == indices[..i];
    }
    assert indices[..|shards|] == indices;
    FilledBy(e, Covered(t, shuffled, indices), allowed);
  }

  lemma FilledBy(e: EvaluationVector, rows: set<nat>, allowed: iset<(nat, seq<F>)>)
    requires Fills(e, rows, allowed)
    ensures |e.activeRows| == e.data.Length0 && forall r :: 0 <= r < |e.activeRows| ==> (e.activeRows[r] <==> r in rows)
    ensures forall r :: 0 <= r < e.data.Length0 && r in rows ==> (r, Row(e.data, r)) in allowed
  {}

  /** Rows one after the other. */
  function Joined(rows: seq<seq<F>>): seq<F> {
    if rows == [] then [] else Joined(rows[..|rows| - 1]) + rows[|rows| - 1]
  }

  method FlattenRows(rows: seq<seq<F>>) returns (flat: seq<F>)
    ensures flat == Joined(rows)
  {
    flat := [];
    for i := 0 to |rows|
      invariant flat == Joined(rows[..i])
    {
      assert rows[..i + 1][..i] == rows[..i];
      flat := flat + rows[i];
    }
    assert rows[..|rows|] == rows;
  }

  lemma {:induction false} JoinedCells(rows: seq<seq<F>>, cols: nat)
    requires forall i :: 0 <= i < |rows| ==> |rows[i]| == cols
    ensures |Joined(rows)| == |rows| * cols
    ensures forall i, k :: 0 <= i < |rows| && 0 <= k < cols ==> Cell(Joined(rows), cols, i, k) == rows[i][k]
  {
    hide Cell;
    if rows != [] {
      var last := |rows| - 1;
      JoinedCells(rows[..last], cols);
      CellRows(Joined(rows[..last]), rows[last], cols, last);
    }
  }

  lemma CellRows(flat: seq<F>, row: seq<F>, cols: nat, i: nat)
    requires |flat| == i * cols && |row| == cols
    ensures |flat + row| == (i + 1) * cols
    ensures forall k :: 0 <= k < cols ==> Cell(flat + row, cols, i, k) == row[k]
    ensures forall r: nat, k: nat :: r < i && k < cols ==> Cell(flat + row, cols, r, k) == Cell(flat, cols, r, k)
  {
    forall r: nat, k: nat | r < i && k < cols
      ensures Cell(flat + row, cols, r, k) == Cell(flat, cols, r, k)
    {
      MulGap(cols, r, i);
    }
  }

  lemma FlatIsFitted(flat: seq<F>, elements: seq<F>, rows: nat, cols: nat)
    requires |flat| == rows * cols
    requires forall i, k :: 0 <= i < rows && 0 <= k < cols ==> Cell(flat, cols, i, k) == Cell(elements, cols, i, k)
    ensures flat == Fitted(elements, rows * cols)
  {
    forall p | 0 <= p < |flat|
      ensures flat[p] == Fitted(elements, rows * cols)[p]
    {
      var i, k := p / cols, p % cols;
      assert p == i * cols + k;
      assert i < rows by { if i >= rows { ProductMonotone(cols, rows, i); } }
      assert Cell(flat, cols, i, k) == flat[p];
    }
  }

  /** The bytes of the original data, as coefficients of the polynomials. */
  ghost predicate Original(data: seq<Byte>, elements: seq<F>, polys: seq<seq<F>>, t: Topology)
    requires DataPolys(polys, t) && t.dataRows <= t.encodedRows
  {
    |data| == t.dataBytes && Digits(63, elements) && Value(63, elements) == Value(8, data) && Holds(polys, t, elements)
  }

  lemma ElementsEnough(t: Topology)
    requires t.dataRows * t.dataCols >= BitsToElements(8 * t.dataBytes)
    ensures 63 * (t.dataRows * t.dataCols) >= 8 * t.dataBytes
  {}

  /** One polynomial a column. */
  ghost predicate Shaped(found: seq<seq<F>>, t: Topology) {
    |found| == t.dataCols && forall k :: 0 <= k < |found| ==> |found[k]| == t.encodedRows
  }

  /** The data matrix, row by row. */
  ghost function DataRows(found: seq<seq<F>>, t: Topology): (rows: seq<seq<F>>)
    requires Shaped(found, t) && t.dataRows <= t.encodedRows
    ensures |rows| == t.dataRows && forall i :: 0 <= i < |rows| ==> rows[i] == Coefficients(found, i)
  {
    seq(t.dataRows, i requires 0 <= i < t.dataRows => Coefficients(found, i))
  }

  /** From the filled rows to polynomials through them, and to the bytes that their coefficients spell. */
  method RecoverData(e: EvaluationVector, t: Topology) returns (r: Option<seq<Byte>>, ghost found: seq<seq<F>>)
    requires Sized(t) && HasDomain(t.encodedRows)
    requires t.dataRows * t.dataCols >= BitsToElements(8 * t.dataBytes)
    requires e.Valid() && e.data.Length0 == t.encodedRows && e.data.Length1 == t.dataCols
    modifies e.data
    ensures r.Some? <==> Computable(e.activeRows)
    ensures r.Some? ==> Shaped(found, t) && Spells(r.value, Joined(DataRows(found, t)), t.dataBytes)
    ensures r.Some? ==> forall k :: 0 <= k < t.dataCols ==>
      Matches(found[k], old(Col(e.data, 0, t.encodedRows, k)), e.activeRows, Log2(t.encodedRows))
  {
    hide Log2, Pow2, Joined, Matches, Spells, DivCeil, Computable;
    ElementsEnough(t);
    found := [];
    var recovery := e.Recover();
    if recovery.None? {
      return None, found;
    }
    var recovered := recovery.value;
    found := seq(t.dataCols, k requires 0 <= k < t.dataCols reads recovered.data => recovered.Poly(k));
    var rows := recovered.CoefficientsUpTo(t.dataRows);
    forall i | 0 <= i < t.dataRows
      ensures rows[i] == Coefficients(found, i)
    {
      assert forall k :: 0 <= k < t.dataCols ==> rows[i][k] == recovered.Poly(k)[i];
    }
    assert rows == DataRows(found, t);
    JoinedCells(rows, t.dataCols);
    var flat := FlattenRows(rows);
    var bytes := ElementsToBytes(t.dataBytes, flat);
    r := Some(bytes);
  }

  /** The transforms that recovery needs exist: over 2^32 rows, all the even rows or all the odd rows are there. */
  ghost predicate Recoverable(t: Topology, rows: set<nat>)
    requires t.encodedRows >= 1
  {
    Log2(t.encodedRows) < 32 ||
    (forall r :: 0 <= r < t.encodedRows && r % 2 == 0 ==> r in rows) ||
    (forall r :: 0 <= r < t.encodedRows && r % 2 == 1 ==> r in rows)
  }

  lemma {:induction false} NoneClear(bits: Bitmap)
    ensures Clear(bits) == 0 <==> forall i :: 0 <= i < |bits| ==> bits[i]
  {
    if bits != [] {
      NoneClear(bits[1..]);
      assert bits == [bits[0]] + bits[1..];
    }
  }

  lemma ParityClear(bits: Bitmap)
    ensures Clear(Evens(bits)) == 0 <==> forall i :: 0 <= i < |bits| && i % 2 == 0 ==> bits[i]
    ensures Clear(Odds(bits)) == 0 <==> forall i :: 0 <= i < |bits| && i % 2 == 1 ==> bits[i]
  {
    hide Clear, Evens, Odds;
    NoneClear(Evens(bits));
    NoneClear(Odds(bits));
    EveryOther(bits, Evens(bits), 0);
    EveryOther(bits, Odds(bits), 1);
  }

  lemma EveryOther(bits: Bitmap, part: Bitmap, start: nat)
    requires start <= 1 && |part| == (|bits| + 1 - start) / 2
    requires forall j :: 0 <= j < |part| ==> part[j] == bits[2 * j + start]
    ensures (forall j :: 0 <= j < |part| ==> part[j]) <==> forall i :: 0 <= i < |bits| && i % 2 == start ==> bits[i]
  {
    forall i | 0 <= i < |bits| && i % 2 == start
      ensures i / 2 < |part| && part[i / 2] == bits[i]
    {
      assert 2 * (i / 2) + start == i;
    }
    if forall i :: 0 <= i < |bits| && i % 2 == start ==> bits[i] {
      forall j | 0 <= j < |part|
        ensures part[j]
      {
        assert bits[2 * j + start];
      }
    }
  }

  lemma ComputableRows(bits: Bitmap, t: Topology, rows: set<nat>)
    requires t.encodedRows >= 1 && |bits| == t.encodedRows && Log2(t.encodedRows) <= 32 && Clear(bits) < |bits|
    requires forall r :: 0 <= r < |bits| ==> (bits[r] <==> r in rows)
    ensures Computable(bits) <==> Recoverable(t, rows)
  {
    hide Clear, Evens, Odds, Log2;
    ParityClear(bits);
  }

  lemma BytesBack(polys: seq<seq<F>>, t: Topology, elements: seq<F>, original: seq<Byte>, bytes: seq<Byte>)
    requires DataPolys(polys, t) && t.dataRows <= t.encodedRows && Original(original, elements, polys, t)
    requires t.dataRows * t.dataCols >= BitsToElements(8 * t.dataBytes)
    requires Spells(bytes, Joined(DataRows(polys, t)), t.dataBytes)
    ensures bytes == original
  {
    hide Pow2, Value, Digits, Cell, Spells, Joined, DivCeil;
    var flat := Joined(DataRows(polys, t));
    ElementsEnough(t);
    JoinedCells(DataRows(polys, t), t.dataCols);
    forall i, k | 0 <= i < t.dataRows && 0 <= k < t.dataCols
      ensures Cell(flat, t.dataCols, i, k) == Cell(elements, t.dataCols, i, k)
    {
      assert DataRows(polys, t)[i][k] == polys[k][i];
    }
    FlatIsFitted(flat, elements, t.dataRows, t.dataCols);
    BytesRoundTrip(original, elements, |flat|, bytes);
  }

  // ---------- What decoding finds ----------

  /** The polynomials have no more coefficients than there are rows, and each row has values that some shard gives. */
  ghost predicate Through(found: seq<seq<F>>, shards: seq<CheckedShard>, t: Topology, shuffled: seq<nat>,
                          rows: set<nat>)
    requires Setup(t, shuffled) && WellFormed(t, shards) && forall r :: r in rows ==> r < t.encodedRows
    reads set s | s in shards :: s.shard
  {
    Shaped(found, t) && (forall k, i :: 0 <= k < |found| && |rows| <= i < t.encodedRows ==> found[k][i] == 0) &&
    forall r :: r in rows ==> Gives(shards, t, shuffled, r, Values(found, Domain(Log2(t.encodedRows))[r]))
  }

  lemma {:induction false} BoundedSize(rows: set<nat>, n: nat)
    requires forall r :: r in rows ==> r < n
    ensures |rows| <= n
    decreases n
  {
    if n == 0 {
      assert rows == {};
    } else {
      BoundedSize(rows - {n - 1}, n - 1);
    }
  }

  /** The elements of a set, each once. */
  ghost function Enumerated(rows: set<nat>): (s: seq<nat>)
    ensures |s| == |rows| && (forall q :: 0 <= q < |s| ==> s[q] in rows)
    ensures forall p, q :: 0 <= p < q < |s| ==> s[p] != s[q]
    decreases |rows|
  {
    if rows == {} then []
    else
      var r :| r in rows;
      Enumerated(rows - {r}) + [r]
  }

  /** Two polynomials with no more coefficients than there are rows, and the same values there, are the same. */
  lemma SamePolynomial(f: seq<F>, g: seq<F>, rows: set<nat>, lg: nat)
    requires lg <= 32 && |f| == |g| == Pow2(lg) && forall r :: r in rows ==> r < Pow2(lg)
    requires forall i :: |rows| <= i < |f| ==> f[i] == g[i] == 0
    requires forall r :: r in rows ==> Eval(f, Domain(lg)[r]) == Eval(g, Domain(lg)[r])
    ensures f == g
  {
    hide Eval, Domain, Pow2, Enumerated;
    BoundedSize(rows, Pow2(lg));
    var n, places := |rows|, Enumerated(rows);
    var points := seq(n, q requires 0 <= q < n => Domain(lg)[places[q]]);
    DomainDistinct(lg);
    assert Distinct(points);
    forall q | 0 <= q < n
      ensures Eval(f[..n], points[q]) == Eval(g[..n], points[q])
    {
      LowCoefficients(f, n, points[q]);
      LowCoefficients(g, n, points[q]);
    }
    Unique(f[..n], g[..n], points);
    assert forall i :: 0 <= i < n ==> f[i] == f[..n][i] && g[i] == g[..n][i];
  }

  /** Honest shards leave no choice. */
  lemma ThroughHonest(found: seq<seq<F>>, polys: seq<seq<F>>, shards: seq<CheckedShard>, t: Topology,
                      shuffled: seq<nat>, rows: set<nat>)
    requires Setup(t, shuffled) && WellFormed(t, shards) && forall r :: r in rows ==> r < t.encodedRows
    requires Through(found, shards, t, shuffled, rows) && DataPolys(polys, t) && t.dataRows <= |rows|
    requires AllHonest(shards, polys, t, shuffled)
    ensures found == polys
  {
    hide Eval, Domain, Log2, Pow2, IsPermutation, ShuffledRow;
    var lg := Log2(t.encodedRows);
    forall k | 0 <= k < t.dataCols
      ensures found[k] == polys[k]
    {
      forall r | r in rows
        ensures Eval(found[k], Domain(lg)[r]) == Eval(polys[k], Domain(lg)[r])
      {
        assert Gives(shards, t, shuffled, r, Values(found, Domain(lg)[r]));
        var i, j :| 0 <= i < |shards| && 0 <= j < t.samples &&
          ShuffledRow(t, shuffled, shards[i].index, j) == r && Row(shards[i].shard, j) == Values(found, Domain(lg)[r]);
        assert shards[i].shard[j, k] == Values(found, Domain(lg)[r])[k];
      }
      SamePolynomial(found[k], polys[k], rows, lg);
    }
  }

  ghost predicate AllPass(data: CheckingData, shards: seq<CheckedShard>)
    requires data.Valid()
    reads data.checkingMatrix, data.encodedChecksum, set s | s in shards :: s.shard
  {
    forall i :: 0 <= i < |shards| ==> data.Passes(shards[i].shard, shards[i].index, true)
  }

  /** The checking data come from this checksum, and it has a row for each row of the data. */
  ghost predicate Committed(data: CheckingData, checksum: Matrix)
    requires data.Valid()
    reads data.encodedChecksum, checksum
  {
    EncodesChecksum(data, checksum) && checksum.Length0 == data.topology.dataRows
  }

  /** The rows of the decoded matrix times the checking matrix are the checksum. */
  ghost predicate Commits(checksum: Matrix, found: seq<seq<F>>, data: CheckingData)
    requires data.Valid() && Shaped(found, data.topology)
    reads checksum, data.checkingMatrix
  {
    checksum.Length0 == data.topology.dataRows <= data.topology.encodedRows &&
    checksum.Length1 == data.checkingMatrix.Length1 &&
    forall i, c :: 0 <= i < checksum.Length0 && 0 <= c < checksum.Length1 ==>
      Dot(DataRows(found, data.topology)[i], Column(data.checkingMatrix, c), data.topology.dataCols) == checksum[i, c]
  }

  /** What passes the check and is decoded has the committed checksum, whoever made the shards. */
  lemma ThroughChecked(data: CheckingData, checksum: Matrix, shards: seq<CheckedShard>, found: seq<seq<F>>,
                       rows: set<nat>)
    requires data.Valid() && WellFormed(data.topology, shards) && AllPass(data, shards)
    requires Committed(data, checksum) && data.topology.dataRows <= |rows|
    requires forall r :: r in rows ==> r < data.topology.encodedRows
    requires Through(found, shards, data.topology, data.shuffledIndices, rows)
    ensures Commits(checksum, found, data)
  {
    hide Eval, Domain, Log2, Pow2, IsPermutation, Dot, Gives, AllPass;
    forall c | 0 <= c < checksum.Length1
      ensures forall i :: 0 <= i < checksum.Length0 ==>
        Dot(Coefficients(found, i), Column(data.checkingMatrix, c), data.topology.dataCols) == checksum[i, c]
    {
      ColumnChecked(data, checksum, shards, found, rows, c);
    }
  }

  lemma ColumnChecked(data: CheckingData, checksum: Matrix, shards: seq<CheckedShard>, found: seq<seq<F>>,
                      rows: set<nat>, c: nat)
    requires data.Valid() && WellFormed(data.topology, shards) && AllPass(data, shards)
    requires Committed(data, checksum) && data.topology.dataRows <= |rows|
    requires forall r :: r in rows ==> r < data.topology.encodedRows
    requires Through(found, shards, data.topology, data.shuffledIndices, rows) && c < checksum.Length1
    ensures forall i :: 0 <= i < checksum.Length0 ==>
      Dot(Coefficients(found, i), Column(data.checkingMatrix, c), data.topology.dataCols) == checksum[i, c]
  {
    hide Eval, Domain, Log2, Pow2, IsPermutation, Dot, ShuffledRow;
    var t, lg := data.topology, Log2(data.topology.encodedRows);
    var h := Column(data.checkingMatrix, c);
    var combined := seq(t.encodedRows, i requires 0 <= i < t.encodedRows => Dot(Coefficients(found, i), h, t.dataCols));
    var column := ColumnPoly(checksum, c, t.encodedRows);
    forall i | |rows| <= i < t.encodedRows
      ensures combined[i] == 0
    {
      DotPrefixZero(Coefficients(found, i), h, t.dataCols);
    }
    forall r | r in rows
      ensures Eval(combined, Domain(lg)[r]) == Eval(column, Domain(lg)[r])
    {
      var x := Domain(lg)[r];
      assert Gives(shards, t, data.shuffledIndices, r, Values(found, x));
      var i, j :| 0 <= i < |shards| && 0 <= j < t.samples &&
        ShuffledRow(t, data.shuffledIndices, shards[i].index, j) == r && Row(shards[i].shard, j) == Values(found, x);
      assert data.RowPasses(shards[i].shard, shards[i].index, j);
      EvalCombination(combined, found, h, t.dataCols, x);
    }
    SamePolynomial(combined, column, rows, lg);
  }

  /** Decoding fails exactly when there are too few shards, or too few different ones, and panics exactly when the rows
      cannot be allocated or recovery has no transform.  Otherwise the bytes are spelled by polynomials through the
      shards' rows: shards that all come from the encoding of some data give that data back, in any order and with any
      repetition, and shards that all pass the check give a matrix with the committed checksum, whoever made them. */
  method Decode(data: CheckingData, shards: seq<CheckedShard>, ghost checksum: Matrix,
                ghost polys: seq<seq<F>>, ghost elements: seq<F>, ghost original: seq<Byte>)
    returns (r: Option<Result<seq<Byte>, Error>>, ghost found: seq<seq<F>>)
    requires data.Valid() && WellFormed(data.topology, shards)
    requires data.topology.dataRows * data.topology.dataCols >= BitsToElements(8 * data.topology.dataBytes)
    ensures InRange(data.topology, Indices(shards))
    ensures var t, distinct := data.topology, |DistinctIndices(Indices(shards))|;
      if |shards| < t.minShards then r == Some(Err(InsufficientShards(|shards|, t.minShards)))
      else if !Allocatable(t.encodedRows, t.dataCols) then r.None?
      else if t.samples * distinct < t.dataRows
      then r == Some(Err(InsufficientUniqueRows(t.samples * distinct, t.dataRows)))
      else if Recoverable(t, Covered(t, data.shuffledIndices, Indices(shards))) then r.Some? && r.value.Ok?
      else r.None?
    ensures r.Some? && r.value.Ok? ==>
      Through(found, shards, data.topology, data.shuffledIndices,
              Covered(data.topology, data.shuffledIndices, Indices(shards))) &&
      data.topology.dataRows <= data.topology.encodedRows &&
      Spells(r.value.value, Joined(DataRows(found, data.topology)), data.topology.dataBytes)
    ensures r.Some? && r.value.Ok? && DataPolys(polys, data.topology) &&
            AllHonest(shards, polys, data.topology, data.shuffledIndices) &&
            Original(original, elements, polys, data.topology) ==>
      r.value.value == original
    ensures r.Some? && r.value.Ok? && AllPass(data, shards) && Committed(data, checksum) ==>
      Commits(checksum, found, data)
  {
    hide Log2, Pow2, Sized, Honest, IsPermutation, Covered, DistinctIndices, Indices, Clear, Original, DataPolys;
    hide Recoverable, Computable, Through, Spells, Joined, Matches, Gives, AllHonest, AllPass, EncodesChecksum, Commits;
    var t := data.topology;
    found := [];
    assert InRange(t, Indices(shards)) by { IndicesInRange(t, shards); }
    if |shards| < t.minShards {
      return Some(Err(InsufficientShards(|shards|, t.minShards))), found;
    }
    if !Allocatable(t.encodedRows, t.dataCols) {
      return None, found;
    }
    var e := FillShards(t, data.shuffledIndices, shards);
    ghost var rows := Covered(t, data.shuffledIndices, Indices(shards));
    CoveredSize(t, data.shuffledIndices, Indices(shards));
    ActiveCount(e.activeRows, rows);
    var filledRows := |e.activeRows| - Clear(e.activeRows);
    if filledRows < t.dataRows {
      return Some(Err(InsufficientUniqueRows(filledRows, t.dataRows))), found;
    }
    SizedRows(t);
    ComputableRows(e.activeRows, t, rows);
    ghost var filled := seq(t.encodedRows, i requires 0 <= i < t.encodedRows reads e.data => Row(e.data, i));
    ghost var columns :=
      seq(t.dataCols, k requires 0 <= k < t.dataCols reads e.data => Col(e.data, 0, t.encodedRows, k));
    var bytes;
    bytes, found := RecoverData(e, t);
    if bytes.None? {
      return None, found;
    }
    FoundThrough(found, shards, t, data.shuffledIndices, rows, e.activeRows, filled, columns);
    r := Some(Ok(bytes.value));
    if DataPolys(polys, t) && AllHonest(shards, polys, t, data.shuffledIndices) &&
       Original(original, elements, polys, t) {
      ThroughHonest(found, polys, shards, t, data.shuffledIndices, rows);
      BytesBack(polys, t, elements, original, bytes.value);
    }
    if AllPass(data, shards) && Committed(data, checksum) {
      ThroughChecked(data, checksum, shards, found, rows);
    }
  }

  lemma FoundThrough(found: seq<seq<F>>, shards: seq<CheckedShard>, t: Topology, shuffled: seq<nat>, rows: set<nat>,
                     active: Bitmap, filled: seq<seq<F>>, columns: seq<seq<F>>)
    requires Setup(t, shuffled) && WellFormed(t, shards) && Shaped(found, t) && |active| == t.encodedRows
    requires |filled| == t.encodedRows && forall i :: 0 <= i < |filled| ==> |filled[i]| == t.dataCols
    requires |columns| == t.dataCols && forall k :: 0 <= k < |columns| ==> |columns[k]| == t.encodedRows
    requires forall i, k :: 0 <= i < t.encodedRows && 0 <= k < t.dataCols ==> filled[i][k] == columns[k][i]
    requires forall k :: 0 <= k < t.dataCols ==> Matches(found[k], columns[k], active, Log2(t.encodedRows))
    requires Clear(active) == |active| - |rows| && forall r :: r in rows ==> r < t.encodedRows && active[r]
    requires forall r :: r in rows ==> Gives(shards, t, shuffled, r, filled[r])
    ensures Through(found, shards, t, shuffled, rows)
  {
    hide Eval, Domain, Log2, Pow2, IsPermutation, Gives, Clear, Sized;
    forall r | r in rows
      ensures Gives(shards, t, shuffled, r, Values(found, Domain(Log2(t.encodedRows))[r]))
    {
      assert filled[r] == Values(found, Domain(Log2(t.encodedRows))[r]);
    }
  }

  lemma IndicesInRange(t: Topology, shards: seq<CheckedShard>)
    requires WellFormed(t, shards)
    ensures InRange(t, Indices(shards))
  {}

  lemma {:induction false} DistinctBound(indices: seq<nat>)
    ensures |DistinctIndices(indices)| <= |indices|
  {
    if indices == [] {
      assert DistinctIndices(indices) == {};
    } else {
      var last := |indices| - 1;
      DistinctBound(indices[..last]);
      assert indices == indices[..last] + [indices[last]];
      assert DistinctIndices(indices) == DistinctIndices(indices[..last]) + {indices[last]};
    }
  }

  /** Checking and decoding the picked shards of any honest encoding.  Any picks with enough different shards, in any
      order and with repetitions, all pass the check and give the data back, if recovery has its transforms. */
  method RoundTrip(checking: CheckingData, shards: seq<Matrix>, picks: seq<nat>, ghost checksum: Matrix,
                   ghost polys: seq<seq<F>>, ghost elements: seq<F>, ghost data: seq<Byte>)
    returns (r: Option<Result<seq<Byte>, Error>>)
    requires checking.Valid() && DataPolys(polys, checking.topology)
    requires IsChecksum(checksum, polys, checking.topology, checking.checkingMatrix)
    requires EncodesChecksum(checking, checksum)
    requires |shards| == checking.topology.totalShards
    requires forall i :: 0 <= i < |shards| ==> Honest(shards[i], i, polys, checking.topology, checking.shuffledIndices)
    requires Original(data, elements, polys, checking.topology)
    requires checking.topology.dataRows * checking.topology.dataCols >= BitsToElements(8 * checking.topology.dataBytes)
    requires InRange(checking.topology, picks) && |DistinctIndices(picks)| >= checking.topology.minShards
    ensures var t := checking.topology;
            r == if Allocatable(t.encodedRows, t.dataCols) &&
                    Recoverable(t, Covered(t, checking.shuffledIndices, picks))
                 then Some(Ok(data)) else None
  {
    hide Eval, Domain, Log2, Pow2, DivCeil, Value, Digits, Sized, IsPermutation, DataPolys, Honest, DistinctIndices;
    hide Holds, IsChecksum, EncodesChecksum, Recoverable, Covered, Original;
    var checked := CheckAll(checking, checksum, polys, shards, picks);
    assert Indices(checked) == picks;
    DistinctBound(picks);
    EnoughShards(checking.topology, picks);
    ghost var found;
    r, found := Decode(checking, checked, checksum, polys, elements, data);
  }

  /** The whole protocol, from a configuration: encode, reckon the checking data from what was sent, check the picked
      shards and decode.  It succeeds exactly when the data can be encoded and recovery has its transforms; then any
      picks with the required number of different shards give the data back. */
  method Protocol(minimumShards: nat, extraShards: nat, data: seq<Byte>, randomness: seq<F>, shuffle: nat -> seq<nat>,
                  picks: seq<nat>) returns (r: Option<Result<seq<Byte>, Error>>)
    requires minimumShards >= 1 && Shuffles(shuffle)
    requires |DistinctIndices(picks)| >= minimumShards
    requires forall i :: 0 <= i < |picks| ==> picks[i] < minimumShards + extraShards
    ensures r == if Encodable(|data|, minimumShards, extraShards) &&
                    Retrievable(Reckoned(|data|, minimumShards, extraShards).value, shuffle, picks)
                 then Some(Ok(data)) else None
    ensures Reckoned(|data|, minimumShards, extraShards).None? <==> Overflows(|data|, minimumShards, extraShards)
  {
    hide Eval, Domain, Log2, Pow2, Cell, Value, Digits, Honest, IsPermutation, Reckoned, Overflows, IsChecksum, Holds;
    hide DataPolys, DistinctIndices, EncodesChecksum, ChecksumFits, Covered, Encodable, Sized, DivCeil;
    var sent, drawn, polys, elements := Encode(minimumShards, extraShards, data, randomness, shuffle);
    if sent.None? {
      return None;
    }
    var t := sent.value.topology;
    ReckonedSized(t, |data|, minimumShards, extraShards);
    SentFits(t, |data|, minimumShards, extraShards);
    ChecksumShape(sent.value.checksum, polys, t, drawn);
    var reckoned := ReckonChecking(minimumShards, extraShards, |data|, true, sent.value.checksum, randomness, shuffle);
    var checking := reckoned.value.value;
    ChecksumSame(sent.value.checksum, polys, t, drawn, checking.checkingMatrix, randomness);
    r := RoundTrip(checking, sent.value.shards, picks, sent.value.checksum, polys, elements, data);
  }

  /** Recovery has its transforms for the rows of the picked shards. */
  ghost predicate Retrievable(t: Topology, shuffle: nat -> seq<nat>, picks: seq<nat>)
  {
    Sized(t) && IsPermutation(shuffle(t.encodedRows), t.encodedRows) && InRange(t, picks) &&
    Recoverable(t, Covered(t, shuffle(t.encodedRows), picks))
  }

  // ---------- Where recovery has no transform ----------

  /** The numbers below n of one parity. */
  ghost function Parity(n: nat, start: nat): set<nat> {
    set r: nat | r < n && r % 2 == start
  }

  lemma {:induction false} ParitySize(h: nat, start: nat)
    requires start <= 1
    ensures |Parity(2 * h, start)| == h
    decreases h
  {
    if h == 0 {
      assert Parity(2 * h, start) == {};
    } else {
      ParitySize(h - 1, start);
      assert Parity(2 * h, start) == Parity(2 * (h - 1), start) + {2 * (h - 1) + start};
    }
  }

  lemma SubsetSize(a: set<nat>, b: set<nat>)
    requires a <= b
    ensures |a| <= |b|
  {
    DisjointSize(a, b - a);
    assert a + (b - a) == b;
  }

  lemma HalfThere(t: Topology, rows: set<nat>, half: nat)
    requires t.encodedRows == 2 * half >= 1 && Log2(t.encodedRows) == 32 && Recoverable(t, rows)
    ensures |rows| >= half
  {
    hide Log2;
    ParitySize(half, 0);
    ParitySize(half, 1);
    if forall r :: 0 <= r < t.encodedRows && r % 2 == 0 ==> r in rows {
      SubsetSize(Parity(2 * half, 0), rows);
    } else {
      SubsetSize(Parity(2 * half, 1), rows);
    }
  }

  /** Over 2^32 rows, fewer than half of them never recover, whatever the shuffle. */
  lemma HalfNeeded(t: Topology, shuffle: nat -> seq<nat>, picks: seq<nat>)
    requires t.encodedRows >= 1 && Log2(t.encodedRows) == 32 && t.samples * |DistinctIndices(picks)| < 0x8000_0000
    ensures !Retrievable(t, shuffle, picks)
  {
    hide IsPermutation, Covered, DistinctIndices, Recoverable, Log2, Pow2;
    Pow2Values();
    if Retrievable(t, shuffle, picks) {
      CoveredSize(t, shuffle(t.encodedRows), picks);
      HalfThere(t, Covered(t, shuffle(t.encodedRows), picks), 0x8000_0000);
    }
  }

  /** The shuffle that moves nothing. */
  function Unshuffled(n: nat): (s: seq<nat>)
    ensures IsPermutation(s, n) && forall i :: 0 <= i < n ==> s[i] == i
  {
    seq(n, i requires 0 <= i < n => i)
  }

  lemma {:induction false} ChunkBelow(t: Topology, i: nat, n: nat)
    requires Sized(t) && i < t.totalShards && n <= t.samples
    ensures forall r :: r in Chunk(t, Unshuffled(t.encodedRows), i, n) ==> r < t.totalShards * t.samples
    decreases n
  {
    hide Sized, IsPermutation;
    if n > 0 {
      ChunkBelow(t, i, n - 1);
      PositionInRange(t, i, n - 1);
      ShardEnd(i, t.samples, t.totalShards);
    }
  }

  lemma {:induction false} CoveredBelow(t: Topology, picks: seq<nat>)
    requires Sized(t) && InRange(t, picks)
    ensures forall r :: r in Covered(t, Unshuffled(t.encodedRows), picks) ==> r < t.totalShards * t.samples
  {
    hide Sized, IsPermutation, Chunk;
    if picks != [] {
      var last := |picks| - 1;
      CoveredBelow(t, picks[..last]);
      ChunkBelow(t, picks[last], t.samples);
    }
  }

  /** Over 2^32 rows of which the shards leave out the last two, the shuffle that moves nothing never recovers, not even
      from all the shards. */
  lemma SpareRowsNeeded(t: Topology, picks: seq<nat>)
    requires t.encodedRows >= 2 && Log2(t.encodedRows) == 32 && t.totalShards * t.samples <= t.encodedRows - 2
    ensures !Retrievable(t, Unshuffled, picks)
  {
    hide Log2, Pow2, IsPermutation, Covered;
    if Retrievable(t, Unshuffled, picks) {
      CoveredBelow(t, picks);
      LastRows(t.encodedRows, Covered(t, Unshuffled(t.encodedRows), picks));
    }
  }

  lemma LastRows(n: nat, rows: set<nat>)
    requires n >= 2 && forall r :: r in rows ==> r < n - 2
    ensures !(forall r :: 0 <= r < n && r % 2 == 0 ==> r in rows)
    ensures !(forall r :: 0 <= r < n && r % 2 == 1 ==> r in rows)
  {
    assert n - 1 !in rows && n - 2 !in rows;
  }

  /** 32768 shards, all of them needed, and that many bytes: encoding succeeds, and decoding panics whatever shards
      there are, for the shuffle that moves nothing. */
  lemma NoRecoveryFor32768(dataBytes: nat, n: nat, picks: seq<nat>)
    requires dataBytes == 50_734_301_184 && n == 0x8000
    ensures Shuffles(Unshuffled) && Encodable(dataBytes, n, 0)
    ensures !Retrievable(Reckoned(dataBytes, n, 0).value, Unshuffled, picks)
  {
    hide Reckoned, Unreachable, Log2, Pow2, Retrievable, IsPermutation;
    SizesFor32768(dataBytes, n);
    Pow2Values();
    Log2Pow2(32);
    SpareRowsNeeded(Reckoned(dataBytes, n, 0).value, picks);
  }

  // ---------- Shards from anyone ----------

  datatype Received = Received(index: nat, shard: Matrix, included: bool)

  /** Those received shards that passed, in order. */
  function Accepted(received: seq<Received>, passed: seq<bool>): seq<CheckedShard>
    requires |received| == |passed|
  {
    if received == [] then []
    else
      var last := |received| - 1;
      Accepted(received[..last], passed[..last]) +
      if passed[last] then [CheckedShard(received[last].index, received[last].shard)] else []
  }

  lemma {:induction false} AcceptedOrigin(received: seq<Received>, passed: seq<bool>, j: nat) returns (i: nat)
    requires |received| == |passed| && j < |Accepted(received, passed)|
    ensures i < |received| && passed[i]
    ensures Accepted(received, passed)[j] == CheckedShard(received[i].index, received[i].shard)
  {
    i := |received| - 1;
    if j < |Accepted(received[..i], passed[..i])| {
      i := AcceptedOrigin(received[..i], passed[..i], j);
    }
  }

  method CheckReceived(checking: CheckingData, received: seq<Received>)
    returns (checked: seq<CheckedShard>, ghost passed: seq<bool>)
    requires checking.Valid()
    ensures |passed| == |received| && checked == Accepted(received, passed)
    ensures forall i :: 0 <= i < |received| ==>
      (passed[i] <==> checking.Passes(received[i].shard, received[i].index, received[i].included))
    ensures WellFormed(checking.topology, checked) && AllPass(checking, checked)
  {
    hide Setup;
    checked, passed := [], [];
    for i := 0 to |received|
      invariant |passed| == i && checked == Accepted(received[..i], passed)
      invariant forall j :: 0 <= j < i ==>
        (passed[j] <==> checking.Passes(received[j].shard, received[j].index, received[j].included))
    {
      var c := checking.Check(received[i].index, received[i].shard, received[i].included);
      assert received[..i + 1][..i] == received[..i] && (passed + [c.Ok?])[..i] == passed;
      passed := passed + [c.Ok?];
      if c.Ok? {
        checked := checked + [c.value];
      }
    }
    assert received[..|received|] == received;
    forall j | 0 <= j < |checked|
      ensures checking.Passes(checked[j].shard, checked[j].index, true)
    {
      var i := AcceptedOrigin(received, passed, j);
    }
  }

  /** The data matrix times the checking matrix drawn from the randomness is the checksum. */
  ghost predicate HasChecksum(rows: seq<seq<F>>, checksum: Matrix, t: Topology, randomness: seq<F>)
    reads checksum
  {
    |rows| == checksum.Length0 == t.dataRows && checksum.Length1 == t.columnSamples &&
    (forall i :: 0 <= i < |rows| ==> |rows[i]| == t.dataCols) &&
    forall i, c :: 0 <= i < t.dataRows && 0 <= c < t.columnSamples ==>
      Dot(rows[i], seq(t.dataCols, k requires 0 <= k < t.dataCols => Cell(randomness, t.columnSamples, k, c)),
          t.dataCols)
      == checksum[i, c]
  }

  /** Decoding those shards that pass the check. */
  method DecodeAccepted(checking: CheckingData, received: seq<Received>, ghost checksum: Matrix,
                        ghost randomness: seq<F>)
    returns (r: Option<Result<seq<Byte>, Error>>, ghost rows: seq<seq<F>>)
    requires checking.Valid() && Committed(checking, checksum)
    requires Drawn(checking.checkingMatrix, checking.topology, randomness)
    requires checking.topology.dataRows * checking.topology.dataCols >= BitsToElements(8 * checking.topology.dataBytes)
    ensures r.Some? && r.value.Ok? ==>
      HasChecksum(rows, checksum, checking.topology, randomness) &&
      Spells(r.value.value, Joined(rows), checking.topology.dataBytes)
  {
    hide Pow2, Log2, Spells, Joined, Gives, AllPass, EncodesChecksum, Recoverable, Covered, Setup, Accepted, Drawn;
    hide DistinctIndices, DataPolys, AllHonest, Original, Commits, DivCeil, HasChecksum, Allocatable;
    rows := [];
    var checked;
    ghost var passed, found;
    checked, passed := CheckReceived(checking, received);
    r, found := Decode(checking, checked, checksum, [], [], []);
    if r.Some? && r.value.Ok? {
      rows := CommittedRows(checking, checksum, found, randomness);
    }
  }

  /** Checking and decoding shards from anyone, against a commitment to a checksum: whatever bytes come out are those
      of a matrix with that checksum. */
  method DecodeReceived(minimumShards: nat, extraShards: nat, dataBytes: nat, committed: bool, checksum: Matrix,
                        randomness: seq<F>, shuffle: nat -> seq<nat>, received: seq<Received>)
    returns (r: Option<Result<seq<Byte>, Error>>, ghost rows: seq<seq<F>>)
    requires minimumShards >= 1 && Shuffles(shuffle)
    ensures r.Some? && r.value.Ok? ==>
      committed && Reckoned(dataBytes, minimumShards, extraShards).Some? &&
      HasChecksum(rows, checksum, Reckoned(dataBytes, minimumShards, extraShards).value, randomness) &&
      Spells(r.value.value, Joined(rows), dataBytes)
  {
    hide Reckoned, Pow2, Log2, Spells, Joined, EncodesChecksum, IsPermutation, Sized, ChecksumFits, Drawn, HasChecksum;
    hide DivCeil;
    rows := [];
    var reckoned := ReckonChecking(minimumShards, extraShards, dataBytes, committed, checksum, randomness, shuffle);
    if reckoned.None? {
      return None, rows;
    }
    if reckoned.value.Err? {
      return Some(Err(reckoned.value.error)), rows;
    }
    ReckonedSized(reckoned.value.value.topology, dataBytes, minimumShards, extraShards);
    r, rows := DecodeAccepted(reckoned.value.value, received, checksum, randomness);
  }

  lemma CommittedRows(checking: CheckingData, checksum: Matrix, found: seq<seq<F>>, randomness: seq<F>)
    returns (rows: seq<seq<F>>)
    requires checking.Valid() && Shaped(found, checking.topology) && Commits(checksum, found, checking)
    requires Drawn(checking.checkingMatrix, checking.topology, randomness)
    ensures rows == DataRows(found, checking.topology) && HasChecksum(rows, checksum, checking.topology, randomness)
  {
    hide Cell, Dot, Sized, IsPermutation;
    rows := DataRows(found, checking.topology);
    forall c | 0 <= c < checking.topology.columnSamples
      ensures Column(checking.checkingMatrix, c) ==
        seq(checking.topology.dataCols, k requires 0 <= k < checking.topology.dataCols =>
          Cell(randomness, checking.topology.columnSamples, k, c))
    {}
  }

  lemma SentFits(t: Topology, dataBytes: nat, n: nat, k: nat)
    requires n >= 1 && Reckoned(dataBytes, n, k) == Some(t) && Encodable(dataBytes, n, k) && Sized(t)
    ensures t.encodedRows >= 1 && t.dataRows <= t.encodedRows && ChecksumFits(t)
    ensures Allocatable(t.dataCols, t.columnSamples) && Allocatable(t.encodedRows, t.dataCols)
  {
    hide Reckoned, Encodable, ChecksumFits, Pow2, Log2;
    FitsWhen(t, dataBytes, n, k);
  }

  lemma ChecksumSame(checksum: Matrix, polys: seq<seq<F>>, t: Topology, a: Matrix, b: Matrix, randomness: seq<F>)
    requires DataPolys(polys, t) && t.dataRows <= t.encodedRows && Drawn(a, t, randomness) && Drawn(b, t, randomness)
    requires IsChecksum(checksum, polys, t, a)
    ensures IsChecksum(checksum, polys, t, b)
  {
    hide Dot, Cell;
    forall k | 0 <= k < t.columnSamples
      ensures Column(a, k) == Column(b, k)
    {}
  }

  method CheckAll(checking: CheckingData, ghost checksum: Matrix, ghost polys: seq<seq<F>>, shards: seq<Matrix>,
                  picks: seq<nat>)
    returns (checked: seq<CheckedShard>)
    requires checking.Valid() && DataPolys(polys, checking.topology)
    requires IsChecksum(checksum, polys, checking.topology, checking.checkingMatrix)
    requires EncodesChecksum(checking, checksum)
    requires |shards| == checking.topology.totalShards && InRange(checking.topology, picks)
    requires forall i :: 0 <= i < |shards| ==> Honest(shards[i], i, polys, checking.topology, checking.shuffledIndices)
    ensures |checked| == |picks|
    ensures forall j :: 0 <= j < |picks| ==> checked[j] == CheckedShard(picks[j], shards[picks[j]])
    ensures WellFormed(checking.topology, checked)
    ensures AllHonest(checked, polys, checking.topology, checking.shuffledIndices)
  {
    hide Eval, Domain, Log2, Pow2, DataPolys, Honest, IsChecksum, Sized, IsPermutation;
    checked := [];
    for i := 0 to |picks|
      invariant |checked| == i
      invariant forall j :: 0 <= j < i ==> checked[j] == CheckedShard(picks[j], shards[picks[j]])
      invariant WellFormed(checking.topology, checked)
    {
      HonestPasses(checking, checksum, polys, shards[picks[i]], picks[i]);
      var c := checking.Check(picks[i], shards[picks[i]], true);
      checked := checked + [c.value];
    }
  }

  lemma ChecksumShape(checksum: Matrix, polys: seq<seq<F>>, t: Topology, checkingMatrix: Matrix)
    requires DataPolys(polys, t) && t.dataRows <= t.encodedRows && checkingMatrix.Length0 == t.dataCols
    requires IsChecksum(checksum, polys, t, checkingMatrix)
    ensures checksum.Length0 == t.dataRows && checksum.Length1 == checkingMatrix.Length1
  {}
}
