/**
  Buffers and buffer sequences (include/asio/buffer.hpp).

  Memory is one array of bytes and a pointer is an index into it. A buffer sequence is meant as the flat list
  of its bytes; `Flat` gives the address of each one, in order.
 */
module Buffers {
  import opened Wrappers

  /**
    `mutable_buffer` and `const_buffer`: a pointer and a size. The conversion from the first to the second copies
    both fields, so one type stands for the two.
   */
  datatype Buffer = Buffer(data: nat, size: nat) {
    /** `operator+` and `operator+=`: moves the start, by at most the size. */
    function Plus(n: nat): Buffer {
      var offset := if n < size then n else size;
      Buffer(data + offset, size - offset)
    }

    /** `buffer(b, max_size_in_bytes)` */
    function Limited(max: nat): Buffer {
      Buffer(data, if size < max then size else max)
    }

    /** The addresses that the buffer covers. */
    ghost function Addresses(): (r: seq<nat>)
      ensures |r| == size
      ensures forall i :: 0 <= i < size ==> r[i] == data + i
    {
      seq(size, i requires 0 <= i < size => data + i)
    }

    ghost predicate Within(length: nat) {
      data + size <= length
    }

    /** The bytes that the buffer shows of memory `m`. */
    ghost function Bytes(m: seq<Byte>): seq<Byte>
      requires Within(|m|)
    {
      m[data..data + size]
    }
  }

  /** Number of bytes in the first `i` buffers. */
  ghost function Start(bs: seq<Buffer>, i: nat): nat
    requires i <= |bs|
  {
    if i == 0 then 0 else Start(bs, i - 1) + bs[i - 1].size
  }

  /** Number of bytes in the whole sequence. */
  ghost function Total(bs: seq<Buffer>): nat {
    Start(bs, |bs|)
  }

  ghost function FlatUpTo(bs: seq<Buffer>, i: nat): seq<nat>
    requires i <= |bs|
  {
    if i == 0 then [] else FlatUpTo(bs, i - 1) + bs[i - 1].Addresses()
  }

  /** The addresses of the sequence's bytes, in order. */
  ghost function Flat(bs: seq<Buffer>): seq<nat> {
    FlatUpTo(bs, |bs|)
  }

  ghost predicate AllWithin(bs: seq<Buffer>, length: nat) {
    forall i :: 0 <= i < |bs| ==> bs[i].Within(length)
  }

  ghost function BytesUpTo(m: seq<Byte>, bs: seq<Buffer>, i: nat): seq<Byte>
    requires i <= |bs| && AllWithin(bs, |m|)
  {
    if i == 0 then [] else BytesUpTo(m, bs, i - 1) + bs[i - 1].Bytes(m)
  }

  /** The concatenation of what the buffers show of memory `m`. */
  ghost function Bytes(m: seq<Byte>, bs: seq<Buffer>): seq<Byte>
    requires AllWithin(bs, |m|)
  {
    BytesUpTo(m, bs, |bs|)
  }

  lemma {:induction false} StartMonotone(bs: seq<Buffer>, i: nat, j: nat)
    requires i <= j <= |bs|
    ensures Start(bs, i) <= Start(bs, j)
    ensures i < j ==> Start(bs, i) + bs[i].size <= Start(bs, j)
    decreases j
  {
    if i < j {
      StartMonotone(bs, i, j - 1);
    }
  }

  lemma {:induction false} FlatUpToLength(bs: seq<Buffer>, i: nat)
    requires i <= |bs|
    ensures |FlatUpTo(bs, i)| == Start(bs, i)
  {
    if i > 0 {
      FlatUpToLength(bs, i - 1);
    }
  }

  lemma FlatLength(bs: seq<Buffer>)
    ensures |Flat(bs)| == Total(bs)
  {
    FlatUpToLength(bs, |bs|);
  }

  /** Byte `k` of buffer `i` is byte `Start(bs, i) + k` of the sequence. */
  lemma {:induction false} FlatUpToAt(bs: seq<Buffer>, n: nat, i: nat, k: nat)
    requires i < n <= |bs| && k < bs[i].size
    ensures Start(bs, i) + k < |FlatUpTo(bs, n)|
    ensures FlatUpTo(bs, n)[Start(bs, i) + k] == bs[i].data + k
    decreases n
  {
    FlatUpToLength(bs, n - 1);
    if i < n - 1 {
      FlatUpToAt(bs, n - 1, i, k);
    }
  }

  lemma FlatAt(bs: seq<Buffer>, i: nat, k: nat)
    requires i < |bs| && k < bs[i].size
    ensures Start(bs, i) + k < |Flat(bs)|
    ensures Flat(bs)[Start(bs, i) + k] == bs[i].data + k
  {
    FlatUpToAt(bs, |bs|, i, k);
  }

  /** Reading through the flat address list is reading the concatenation of the buffers. */
  lemma {:induction false} BytesUpToAt(m: seq<Byte>, bs: seq<Buffer>, n: nat)
    requires n <= |bs| && AllWithin(bs, |m|)
    ensures |BytesUpTo(m, bs, n)| == |FlatUpTo(bs, n)|
    ensures forall k :: 0 <= k < |FlatUpTo(bs, n)| ==>
              FlatUpTo(bs, n)[k] < |m| && BytesUpTo(m, bs, n)[k] == m[FlatUpTo(bs, n)[k]]
  {
    if n > 0 {
      BytesUpToAt(m, bs, n - 1);
      FlatUpToLength(bs, n - 1);
      assert bs[n - 1].Within(|m|);
      var b := bs[n - 1];
      assert FlatUpTo(bs, n) == FlatUpTo(bs, n - 1) + b.Addresses();
      assert forall k :: 0 <= k < b.size ==> b.Bytes(m)[k] == m[b.Addresses()[k]];
    }
  }

  lemma BytesAt(m: seq<Byte>, bs: seq<Buffer>)
    requires AllWithin(bs, |m|)
    ensures |Bytes(m, bs)| == |Flat(bs)| == Total(bs)
    ensures forall k :: 0 <= k < |Flat(bs)| ==> Flat(bs)[k] < |m| && Bytes(m, bs)[k] == m[Flat(bs)[k]]
  {
    BytesUpToAt(m, bs, |bs|);
    FlatLength(bs);
  }

  /** A one-buffer sequence is flat already. */
  lemma Singleton(b: Buffer)
    ensures Flat([b]) == b.Addresses()
    ensures Total([b]) == b.size
  {
    assert FlatUpTo([b], 1) == FlatUpTo([b], 0) + b.Addresses();
    assert Start([b], 1) == Start([b], 0) + b.size;
  }

  /** `buffer_size` over several buffers */
  method BufferSize(bs: seq<Buffer>) returns (total: nat)
    ensures total == |Flat(bs)|
    ensures forall m: seq<Byte> | AllWithin(bs, |m|) :: total == |Bytes(m, bs)|
  {
    total := 0;
    var iter := 0;
    while iter != |bs|
      invariant iter <= |bs|
      invariant total == Start(bs, iter)
      decreases |bs| - iter
    {
      total := total + bs[iter].size;
      iter := iter + 1;
    }
    FlatLength(bs);
    forall m: seq<Byte> | AllWithin(bs, |m|)
      ensures total == |Bytes(m, bs)|
    {
      BytesAt(m, bs);
    }
  }
}
