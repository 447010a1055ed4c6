/** Random bytes drawn from an endless stream of hash output, through a buffer of one block. */
module Noise {
  import opened Wrappers

  const BLOCK_LEN: nat := 64

  class Rng {
    const stream: nat -> Byte
    var position: nat
    const buf: array<Byte>
    var start: nat

    /** The unread part of the buffer is the last part of the stream that was read. */
    ghost predicate Valid() reads this, buf {
      buf.Length == BLOCK_LEN && start <= BLOCK_LEN && BLOCK_LEN - start <= position &&
      forall i :: start <= i < BLOCK_LEN ==> buf[i] == stream(position - BLOCK_LEN + i)
    }

    /** How many bytes have been handed out. */
    ghost function Consumed(): nat
      requires Valid()
      reads this, buf
    {
      position - (BLOCK_LEN - start)
    }

    constructor (inner: nat -> Byte)
      ensures Valid() && Consumed() == 0 && stream == inner && fresh(buf)
    {
      stream, position, start := inner, 0, BLOCK_LEN;
      buf := new Byte[BLOCK_LEN](_ => 0);
    }

    /** The inner reader writes the next bytes of the stream to a[lo..hi]. */
    method Fill(a: array<Byte>, lo: nat, hi: nat)
      requires lo <= hi <= a.Length
      modifies this`position, a
      ensures position == old(position) + (hi - lo)
      ensures forall i :: lo <= i < hi ==> a[i] == stream(old(position) + i - lo)
      ensures forall i :: 0 <= i < a.Length && !(lo <= i < hi) ==> a[i] == old(a[i])
    {
      var from := position;
      forall i | lo <= i < hi {
        a[i] := stream(from + i - lo);
      }
      position := position + (hi - lo);
    }

    /** Copies the next n unread bytes of the buffer to the front of dest. */
    method CopyOut(dest: array<Byte>, n: nat)
      requires Valid() && dest != buf && n <= dest.Length && n <= BLOCK_LEN - start
      modifies this`start, dest
      ensures Valid() && start == old(start) + n
      ensures forall i :: 0 <= i < n ==> dest[i] == stream(old(Consumed()) + i)
    {
      forall i | 0 <= i < n {
        dest[i] := buf[start + i];
      }
      start := start + n;
    }

    /** Whole blocks go straight from the stream to dest. */
    method CopyBlocks(dest: array<Byte>, from: nat) returns (done: nat)
      requires Valid() && start == BLOCK_LEN && dest != buf && from <= dest.Length
      modifies this`position, dest
      ensures Valid() && from <= done <= dest.Length < done + BLOCK_LEN && position == old(position) + (done - from)
      ensures forall i :: from <= i < done ==> dest[i] == stream(old(position) + (i - from))
      ensures forall i :: 0 <= i < from ==> dest[i] == old(dest[i])
    {
      done := from;
      while dest.Length - done >= BLOCK_LEN
        invariant from <= done <= dest.Length && position == old(position) + (done - from)
        invariant forall i :: from <= i < done ==> dest[i] == stream(old(position) + (i - from))
        invariant forall i :: 0 <= i < from ==> dest[i] == old(dest[i])
      {
        Fill(dest, done, done + BLOCK_LEN);
        done := done + BLOCK_LEN;
      }
    }

    /** The rest comes from a new block, whose tail stays buffered. */
    method CopyTail(dest: array<Byte>, done: nat)
      requires Valid() && start == BLOCK_LEN && dest != buf && done < dest.Length < done + BLOCK_LEN
      modifies this, buf, dest
      ensures Valid() && Consumed() == old(position) + (dest.Length - done)
      ensures forall i :: done <= i < dest.Length ==> dest[i] == stream(old(position) + (i - done))
      ensures forall i :: 0 <= i < done ==> dest[i] == old(dest[i])
    {
      Fill(buf, 0, BLOCK_LEN);
      forall i | done <= i < dest.Length {
        dest[i] := buf[i - done];
      }
      start := dest.Length - done;
    }

    /** The next bytes of the stream, whatever the length asked for. */
    method FillBytes(dest: array<Byte>)
      requires Valid() && dest != buf
      modifies this, buf, dest
      ensures Valid() && Consumed() == old(Consumed()) + dest.Length
      ensures forall i :: 0 <= i < dest.Length ==> dest[i] == stream(old(Consumed()) + i)
    {
      var remaining := BLOCK_LEN - start;
      if remaining >= dest.Length {
        CopyOut(dest, dest.Length);
        return;
      }
      CopyOut(dest, remaining);
      var done := CopyBlocks(dest, remaining);
      if dest.Length > done {
        CopyTail(dest, done);
      }
    }
  }

  function Total(lengths: seq<nat>): nat {
    if lengths == [] then 0 else Total(lengths[..|lengths| - 1]) + lengths[|lengths| - 1]
  }

  /** However the requests are cut, together they are the stream: nothing lost, nothing repeated. */
  method FillMany(rng: Rng, lengths: seq<nat>) returns (out: seq<Byte>)
    requires rng.Valid()
    modifies rng, rng.buf
    ensures rng.Valid() && rng.Consumed() == old(rng.Consumed()) + Total(lengths)
    ensures |out| == Total(lengths) && forall i :: 0 <= i < |out| ==> out[i] == rng.stream(old(rng.Consumed()) + i)
  {
    ghost var from := rng.Consumed();
    out := [];
    for n := 0 to |lengths|
      invariant rng.Valid() && rng.Consumed() == from + |out| && |out| == Total(lengths[..n])
      invariant forall i :: 0 <= i < |out| ==> out[i] == rng.stream(from + i)
    {
      var dest := new Byte[lengths[n]](_ => 0);
      ghost var before := |out|;
      rng.FillBytes(dest);
      out := out + dest[..];
      assert lengths[..n + 1][..n] == lengths[..n];
      assert forall i :: before <= i < |out| ==> out[i] == dest[i - before];
    }
    assert lengths[..|lengths|] == lengths;
  }
}
