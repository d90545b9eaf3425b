/**
  The `buffer_copy` family (include/asio/buffer.hpp). Every overload meets one specification: with `n` the least of
  the two sizes and the limit, the first `n` bytes of the flattened source replace the first `n` of the flattened target.
 */
module BufferCopy {
  import opened Wrappers
  import opened Buffers

  /** What `buffer_sequence_cardinality` tells apart. */
  datatype BufferSequence = One(b: Buffer) | Many(bs: seq<Buffer>) {
    function List(): seq<Buffer> {
      if One? then [b] else bs
    }
  }

  /** Target bytes do not overlap each other, nor any source byte. Source buffers may overlap. */
  ghost predicate Disjoint(at: seq<nat>, from: seq<nat>) {
    && (forall j, k :: 0 <= j < k < |at| ==> at[j] != at[k])
    && (forall j, k :: 0 <= j < |at| && 0 <= k < |from| ==> at[j] != from[k])
  }

  ghost predicate Copyable(length: nat, target: seq<Buffer>, source: seq<Buffer>) {
    && AllWithin(target, length)
    && AllWithin(source, length)
    && Disjoint(Flat(target), Flat(source))
  }

  /** Memory `after` is `before` with the first `n` source bytes stored at the first `n` target addresses. */
  ghost predicate Copied(before: seq<Byte>, after: seq<Byte>, at: seq<nat>, from: seq<nat>, n: nat) {
    && n <= |at| && n <= |from|
    && |after| == |before|
    && (forall k :: 0 <= k < n ==> at[k] < |after| && from[k] < |before| && after[at[k]] == before[from[k]])
    && (forall a :: 0 <= a < |before| && a !in at[..n] ==> after[a] == before[a])
  }

  /** How many bytes a copy moves: the least of the two sizes and the limit, if there is one. */
  ghost function Count(target: seq<Buffer>, source: seq<Buffer>, max: Option<nat>): nat {
    var n := Min(Total(target), Total(source));
    if max.None? then n else Min(n, max.value)
  }

  ghost function Overwritten(m: seq<Byte>, target: nat, source: nat, n: nat): seq<Byte>
    requires target + n <= |m| && source + n <= |m|
  {
    m[..target] + m[source..source + n] + m[target + n..]
  }

  /** Buffer `b` is the run of flat addresses that starts at place `start`. */
  ghost predicate Block(flat: seq<nat>, start: nat, b: Buffer) {
    && start + b.size <= |flat|
    && forall k :: start <= k < start + b.size ==> flat[k] == b.data + (k - start)
  }

  lemma BlockHas(flat: seq<nat>, start: nat, b: Buffer, a: nat)
    requires Block(flat, start, b)
    ensures a in flat[start..start + b.size] <==> b.data <= a < b.data + b.size
  {
    if b.data <= a < b.data + b.size {
      assert flat[start..start + b.size][a - b.data] == flat[start + (a - b.data)];
    }
  }

  lemma BlockRest(flat: seq<nat>, start: nat, b: Buffer, n: nat)
    requires Block(flat, start, b) && n <= b.size
    ensures Block(flat, start + n, b.Plus(n))
  {
  }

  /** One more block copied. */
  lemma CopiedExtends(before: seq<Byte>, mid: seq<Byte>, at: seq<nat>, from: seq<nat>,
                      done: nat, target: nat, source: nat, n: nat)
    requires Disjoint(at, from)
    requires Copied(before, mid, at, from, done)
    requires target + n <= |mid| && source + n <= |mid|
    requires Block(at, done, Buffer(target, n)) && Block(from, done, Buffer(source, n))
    ensures Copied(before, Overwritten(mid, target, source, n), at, from, done + n)
  {
    var after := Overwritten(mid, target, source, n);
    assert at[..done + n] == at[..done] + at[done..done + n];
    forall k | 0 <= k < done + n
      ensures at[k] < |after| && from[k] < |before| && after[at[k]] == before[from[k]]
    {
      if k < done {
        assert at[k] !in at[done..done + n];
        BlockHas(at, done, Buffer(target, n), at[k]);
      } else {
        assert at[k] == target + (k - done) && from[k] == source + (k - done);
        assert from[k] !in at[..done];
      }
    }
    forall a | 0 <= a < |before| && a !in at[..done + n]
      ensures after[a] == before[a]
    {
      BlockHas(at, done, Buffer(target, n), a);
    }
  }

  /** `memcpy` */
  method MemCpy(mem: array<Byte>, target: nat, source: nat, n: nat)
    requires target + n <= mem.Length && source + n <= mem.Length
    requires target + n <= source || source + n <= target || n == 0
    modifies mem
    ensures mem[..] == Overwritten(old(mem[..]), target, source, n)
  {
    forall i | 0 <= i < n {
      mem[target + i] := mem[source + i];
    }
    ghost var after := Overwritten(old(mem[..]), target, source, n);
    assert forall i :: 0 <= i < mem.Length ==> mem[i] == after[i];
  }

  /** `buffer_copy_1` */
  method BufferCopy1(mem: array<Byte>, target: Buffer, source: Buffer) returns (n: nat)
    requires target.Within(mem.Length) && source.Within(mem.Length)
    requires Disjoint(target.Addresses(), source.Addresses())
    modifies mem
    ensures n == Min(target.size, source.size)
    ensures mem[..] == Overwritten(old(mem[..]), target.data, source.data, n)
  {
    n := if target.size < source.size then target.size else source.size;
    if n > 0 {
      BlockHas(target.Addresses(), 0, target, source.data);
      BlockHas(source.Addresses(), 0, source, target.data);
      assert target.Addresses()[0] == target.data && target.data !in source.Addresses();
      assert source.Addresses()[0] == source.data && source.data !in target.Addresses();
      MemCpy(mem, target.data, source.data, n);
    }
  }

  /** The unread part of buffer `i` from `offset` on lies in the flat list at `Start(bs, i) + offset`. */
  lemma RestInFlat(bs: seq<Buffer>, i: nat, offset: nat)
    requires i < |bs| && offset <= bs[i].size
    ensures Block(Flat(bs), Start(bs, i) + offset, bs[i].Plus(offset))
  {
    StartMonotone(bs, i, |bs|);
    FlatLength(bs);
    var start := Start(bs, i) + offset;
    forall k | start <= k < start + bs[i].Plus(offset).size
      ensures Flat(bs)[k] == bs[i].data + offset + (k - start)
    {
      FlatAt(bs, i, k - Start(bs, i));
    }
  }

  /** Copies one block between two places of the flat lists. */
  method CopyBlock(mem: array<Byte>, ghost before: seq<Byte>, ghost at: seq<nat>, ghost from: seq<nat>,
                   ghost done: nat, target: Buffer, source: Buffer) returns (n: nat)
    requires Disjoint(at, from)
    requires Copied(before, mem[..], at, from, done)
    requires target.Within(mem.Length) && source.Within(mem.Length)
    requires Block(at, done, target) && Block(from, done, source)
    modifies mem
    ensures n == Min(target.size, source.size)
    ensures Copied(before, mem[..], at, from, done + n)
  {
    assert Disjoint(target.Addresses(), source.Addresses()) by {
      forall j, k | 0 <= j < target.size && 0 <= k < source.size
        ensures target.Addresses()[j] != source.Addresses()[k]
      {
        assert at[done + j] == target.data + j && from[done + k] == source.data + k;
      }
    }
    ghost var mid := mem[..];
    n := BufferCopy1(mem, target, source);
    CopiedExtends(before, mid, at, from, done, target.data, source.data, n);
  }

  /** one buffer to one buffer, with or without a limit (`max` is None) */
  method CopyOneOne(mem: array<Byte>, target: Buffer, source: Buffer, max: Option<nat>) returns (total: nat)
    requires Copyable(mem.Length, [target], [source])
    modifies mem
    ensures total == Count([target], [source], max)
    ensures Copied(old(mem[..]), mem[..], Flat([target]), Flat([source]), total)
  {
    Singleton(target);
    Singleton(source);
    assert [target][0].Within(mem.Length) && [source][0].Within(mem.Length);
    total := CopyBlock(mem, mem[..], Flat([target]), Flat([source]), 0, target,
                       if max.None? then source else source.Limited(max.value));
  }

  /** `rest` is what is left of the single buffer after `done` of its `size` bytes. */
  ghost predicate Left(length: nat, flat: seq<nat>, rest: Buffer, done: nat, size: nat) {
    rest.Within(length) && Block(flat, done, rest) && done + rest.size == size
  }

  method CopyOneManyRound(mem: array<Byte>, ghost before: seq<Byte>, ghost target: Buffer, source: seq<Buffer>,
                          targetBuffer: Buffer, sourceIter: nat, ghost done: nat, ghost size: nat)
    returns (bytesCopied: nat, rest: Buffer)
    requires Copyable(mem.Length, [target], source) && sourceIter < |source|
    requires Left(mem.Length, Flat([target]), targetBuffer, done, size)
    requires done == Min(size, Start(source, sourceIter)) && targetBuffer.size > 0
    requires Copied(before, mem[..], Flat([target]), Flat(source), done)
    modifies mem
    ensures Left(mem.Length, Flat([target]), rest, done + bytesCopied, size)
    ensures done + bytesCopied == Min(size, Start(source, sourceIter + 1))
    ensures Copied(before, mem[..], Flat([target]), Flat(source), done + bytesCopied)
  {
    RestInFlat(source, sourceIter, 0);
    var sourceBuffer := source[sourceIter];
    bytesCopied := CopyBlock(mem, before, Flat([target]), Flat(source), done, targetBuffer, sourceBuffer);
    BlockRest(Flat([target]), done, targetBuffer, bytesCopied);
    rest := targetBuffer.Plus(bytesCopied);
  }

  /** one buffer from several */
  method CopyOneMany(mem: array<Byte>, target: Buffer, source: seq<Buffer>, max: nat) returns (total: nat)
    requires Copyable(mem.Length, [target], source)
    modifies mem
    ensures total == Count([target], source, Some(max))
    ensures Copied(old(mem[..]), mem[..], Flat([target]), Flat(source), total)
  {
    Singleton(target);
    assert [target][0].Within(mem.Length);
    total := 0;
    var sourceIter := 0;
    var targetBuffer := target.Limited(max);
    ghost var size := targetBuffer.size;
    while targetBuffer.size != 0 && sourceIter != |source|
      invariant sourceIter <= |source|
      invariant Left(mem.Length, Flat([target]), targetBuffer, total, size)
      invariant total == Min(size, Start(source, sourceIter))
      invariant Copied(old(mem[..]), mem[..], Flat([target]), Flat(source), total)
      decreases |source| - sourceIter
    {
      var bytesCopied;
      bytesCopied, targetBuffer := CopyOneManyRound(mem, old(mem[..]), target, source, targetBuffer, sourceIter,
                                                    total, size);
      total := total + bytesCopied;
      sourceIter := sourceIter + 1;
    }
    StartMonotone(source, sourceIter, |source|);
  }

  method CopyManyOneRound(mem: array<Byte>, ghost before: seq<Byte>, target: seq<Buffer>, ghost source: Buffer,
                          sourceBuffer: Buffer, targetIter: nat, ghost done: nat, ghost size: nat)
    returns (bytesCopied: nat, rest: Buffer)
    requires Copyable(mem.Length, target, [source]) && targetIter < |target|
    requires Left(mem.Length, Flat([source]), sourceBuffer, done, size)
    requires done == Min(size, Start(target, targetIter)) && sourceBuffer.size > 0
    requires Copied(before, mem[..], Flat(target), Flat([source]), done)
    modifies mem
    ensures Left(mem.Length, Flat([source]), rest, done + bytesCopied, size)
    ensures done + bytesCopied == Min(size, Start(target, targetIter + 1))
    ensures Copied(before, mem[..], Flat(target), Flat([source]), done + bytesCopied)
  {
    RestInFlat(target, targetIter, 0);
    var targetBuffer := target[targetIter];
    bytesCopied := CopyBlock(mem, before, Flat(target), Flat([source]), done, targetBuffer, sourceBuffer);
    BlockRest(Flat([source]), done, sourceBuffer, bytesCopied);
    rest := sourceBuffer.Plus(bytesCopied);
  }

  /** several buffers from one */
  method CopyManyOne(mem: array<Byte>, target: seq<Buffer>, source: Buffer, max: nat) returns (total: nat)
    requires Copyable(mem.Length, target, [source])
    modifies mem
    ensures total == Count(target, [source], Some(max))
    ensures Copied(old(mem[..]), mem[..], Flat(target), Flat([source]), total)
  {
    Singleton(source);
    assert [source][0].Within(mem.Length);
    total := 0;
    var targetIter := 0;
    var sourceBuffer := source.Limited(max);
    ghost var size := sourceBuffer.size;
    while sourceBuffer.size != 0 && targetIter != |target|
      invariant targetIter <= |target|
      invariant Left(mem.Length, Flat([source]), sourceBuffer, total, size)
      invariant total == Min(size, Start(target, targetIter))
      invariant Copied(old(mem[..]), mem[..], Flat(target), Flat([source]), total)
      decreases |target| - targetIter
    {
      var bytesCopied;
      bytesCopied, sourceBuffer := CopyManyOneRound(mem, old(mem[..]), target, source, sourceBuffer, targetIter,
                                                    total, size);
      total := total + bytesCopied;
      targetIter := targetIter + 1;
    }
    StartMonotone(target, targetIter, |target|);
  }

  /** The walk over two segmented sequences is `done` bytes in, at `offset` of buffer `iter`. */
  ghost predicate Walking(bs: seq<Buffer>, iter: nat, offset: nat, done: nat) {
    && iter <= |bs|
    && (if iter == |bs| then offset == 0 else offset <= bs[iter].size)
    && Start(bs, iter) + offset == done
  }

  lemma WalksOn(bs: seq<Buffer>, iter: nat, offset: nat, done: nat, n: nat)
    requires Walking(bs, iter, offset, done) && iter < |bs|
    requires n <= bs[iter].Plus(offset).size
    ensures if n == bs[iter].Plus(offset).size then Walking(bs, iter + 1, 0, done + n)
            else Walking(bs, iter, offset + n, done + n)
  {
  }

  /** A walk never passes the end, and is there once every buffer is. */
  lemma WalkBounded(bs: seq<Buffer>, iter: nat, offset: nat, done: nat)
    requires Walking(bs, iter, offset, done)
    ensures done <= Total(bs)
    ensures iter == |bs| ==> done == Total(bs)
  {
    StartMonotone(bs, iter, |bs|);
  }

  /** One round of the walk over two sequences: copy what both current buffers allow, then move on in each. */
  method CopyRound(mem: array<Byte>, ghost before: seq<Byte>, target: seq<Buffer>, source: seq<Buffer>,
                   targetIter: nat, targetOffset: nat, sourceIter: nat, sourceOffset: nat,
                   ghost done: nat, room: Option<nat>)
    returns (bytesCopied: nat, targetNext: nat, targetNextOffset: nat, sourceNext: nat, sourceNextOffset: nat)
    requires Copyable(mem.Length, target, source)
    requires Walking(target, targetIter, targetOffset, done) && targetIter < |target|
    requires Walking(source, sourceIter, sourceOffset, done) && sourceIter < |source|
    requires Copied(before, mem[..], Flat(target), Flat(source), done)
    modifies mem
    ensures Walking(target, targetNext, targetNextOffset, done + bytesCopied)
    ensures Walking(source, sourceNext, sourceNextOffset, done + bytesCopied)
    ensures Copied(before, mem[..], Flat(target), Flat(source), done + bytesCopied)
    ensures targetIter <= targetNext && sourceIter <= sourceNext
    ensures room.Some? ==> bytesCopied <= room.value
    ensures targetIter < targetNext || sourceIter < sourceNext || (room.Some? && bytesCopied == room.value)
  {
    RestInFlat(target, targetIter, targetOffset);
    RestInFlat(source, sourceIter, sourceOffset);
    var targetBuffer := target[targetIter].Plus(targetOffset);
    var sourceBuffer := source[sourceIter].Plus(sourceOffset);
    bytesCopied := CopyBlock(mem, before, Flat(target), Flat(source), done, targetBuffer,
                             if room.None? then sourceBuffer else sourceBuffer.Limited(room.value));
    WalksOn(target, targetIter, targetOffset, done, bytesCopied);
    WalksOn(source, sourceIter, sourceOffset, done, bytesCopied);
    if bytesCopied == targetBuffer.size {
      targetNext, targetNextOffset := targetIter + 1, 0;
    } else {
      targetNext, targetNextOffset := targetIter, targetOffset + bytesCopied;
    }
    if bytesCopied == sourceBuffer.size {
      sourceNext, sourceNextOffset := sourceIter + 1, 0;
    } else {
      sourceNext, sourceNextOffset := sourceIter, sourceOffset + bytesCopied;
    }
  }

  /** several buffers from several */
  method CopyManyMany(mem: array<Byte>, target: seq<Buffer>, source: seq<Buffer>) returns (total: nat)
    requires Copyable(mem.Length, target, source)
    modifies mem
    ensures total == Count(target, source, None)
    ensures Copied(old(mem[..]), mem[..], Flat(target), Flat(source), total)
  {
    total := 0;
    var targetIter, targetOffset := 0, 0;
    var sourceIter, sourceOffset := 0, 0;
    while targetIter != |target| && sourceIter != |source|
      invariant Walking(target, targetIter, targetOffset, total)
      invariant Walking(source, sourceIter, sourceOffset, total)
      invariant Copied(old(mem[..]), mem[..], Flat(target), Flat(source), total)
      decreases |target| - targetIter + |source| - sourceIter
    {
      var bytesCopied;
      bytesCopied, targetIter, targetOffset, sourceIter, sourceOffset :=
        CopyRound(mem, old(mem[..]), target, source, targetIter, targetOffset, sourceIter, sourceOffset, total, None);
      total := total + bytesCopied;
    }
    WalkBounded(target, targetIter, targetOffset, total);
    WalkBounded(source, sourceIter, sourceOffset, total);
  }

  /** several buffers from several, at most `max` bytes */
  method CopyManyManyLimited(mem: array<Byte>, target: seq<Buffer>, source: seq<Buffer>, max: nat)
    returns (total: nat)
    requires Copyable(mem.Length, target, source)
    modifies mem
    ensures total == Count(target, source, Some(max))
    ensures Copied(old(mem[..]), mem[..], Flat(target), Flat(source), total)
  {
    total := 0;
    var targetIter, targetOffset := 0, 0;
    var sourceIter, sourceOffset := 0, 0;
    while total != max && targetIter != |target| && sourceIter != |source|
      invariant total <= max
      invariant Walking(target, targetIter, targetOffset, total)
      invariant Walking(source, sourceIter, sourceOffset, total)
      invariant Copied(old(mem[..]), mem[..], Flat(target), Flat(source), total)
      decreases |target| - targetIter + |source| - sourceIter, max - total
    {
      var bytesCopied;
      bytesCopied, targetIter, targetOffset, sourceIter, sourceOffset :=
        CopyRound(mem, old(mem[..]), target, source, targetIter, targetOffset, sourceIter, sourceOffset, total,
                  Some(max - total));
      total := total + bytesCopied;
    }
    WalkBounded(target, targetIter, targetOffset, total);
    WalkBounded(source, sourceIter, sourceOffset, total);
  }

  /** In terms of contents: a prefix of the source replaces the same number of target bytes, and nothing else changes. */
  lemma CopiedBytes(before: seq<Byte>, after: seq<Byte>, target: seq<Buffer>, source: seq<Buffer>, n: nat)
    requires Copyable(|before|, target, source)
    requires Copied(before, after, Flat(target), Flat(source), n)
    ensures |Bytes(before, source)| >= n && |Bytes(before, target)| >= n
    ensures Bytes(after, target) == Bytes(before, source)[..n] + Bytes(before, target)[n..]
    ensures Bytes(after, source) == Bytes(before, source)
    ensures forall a :: 0 <= a < |before| && a !in Flat(target) ==> after[a] == before[a]
  {
    BytesAt(before, target);
    BytesAt(after, target);
    BytesAt(before, source);
    BytesAt(after, source);
    forall k | n <= k < |Flat(target)|
      ensures Flat(target)[k] !in Flat(target)[..n]
    {
    }
    forall k | 0 <= k < |Flat(source)|
      ensures Flat(source)[k] !in Flat(target)[..n]
    {
    }
  }

  /** The result depends on the flattened sequences only, not on how they are cut up nor on which overload ran. */
  lemma CopiedUnique(before: seq<Byte>, after1: seq<Byte>, after2: seq<Byte>, at: seq<nat>, from: seq<nat>, n: nat)
    requires Copied(before, after1, at, from, n) && Copied(before, after2, at, from, n)
    ensures after1 == after2
  {
    forall a | 0 <= a < |before|
      ensures after1[a] == after2[a]
    {
      if a in at[..n] {
        var k :| 0 <= k < n && at[..n][k] == a;
        assert at[k] == a;
      }
    }
  }

  /** Byte `k` of a whole copy into one buffer of the sequence's size. */
  lemma CopiedWhole(before: seq<Byte>, after: seq<Byte>, whole: Buffer, source: seq<Buffer>, k: nat)
    requires k < Total(source) == whole.size && AllWithin(source, |before|)
    requires Copied(before, after, Flat([whole]), Flat(source), Count([whole], source, None))
    ensures k < |Bytes(before, source)| && whole.data + k < |after|
    ensures after[whole.data + k] == Bytes(before, source)[k]
  {
    Singleton(whole);
    BytesAt(before, source);
    assert Flat([whole])[k] == whole.data + k;
  }

  /** Gathering a sequence into one buffer of its size and scattering that over any other cutting is the identity. */
  lemma GatherThenScatter(start: seq<Byte>, gathered: seq<Byte>, scattered: seq<Byte>,
                          source: seq<Buffer>, whole: Buffer, target: seq<Buffer>)
    requires whole.size == Total(source) == Total(target)
    requires Copyable(|start|, [whole], source)
    requires Copied(start, gathered, Flat([whole]), Flat(source), Count([whole], source, None))
    requires Copyable(|start|, target, [whole])
    requires Copied(gathered, scattered, Flat(target), Flat([whole]), Count(target, [whole], None))
    ensures Bytes(scattered, target) == Bytes(start, source)
  {
    Singleton(whole);
    CopiedBytes(start, gathered, [whole], source, whole.size);
    CopiedBytes(gathered, scattered, target, [whole], whole.size);
    BytesAt(start, source);
    BytesAt(gathered, [whole]);
    BytesAt(gathered, target);
    BytesAt(start, [whole]);
  }

  /** Both public forms: dispatch on the cardinalities; `max` is None in the two-argument form. */
  method BufferCopy(mem: array<Byte>, target: BufferSequence, source: BufferSequence, max: Option<nat>)
    returns (total: nat)
    requires mem.Length <= SIZE_MAX
    requires Copyable(mem.Length, target.List(), source.List())
    modifies mem
    ensures total == Count(target.List(), source.List(), max)
    ensures Copied(old(mem[..]), mem[..], Flat(target.List()), Flat(source.List()), total)
    ensures total <= |Bytes(old(mem[..]), source.List())| && total <= |Bytes(old(mem[..]), target.List())|
    ensures max.Some? ==> total <= max.value
    ensures total == |Bytes(old(mem[..]), source.List())| || total == |Bytes(old(mem[..]), target.List())|
            || max == Some(total)
    ensures Bytes(mem[..], target.List())
         == Bytes(old(mem[..]), source.List())[..total] + Bytes(old(mem[..]), target.List())[total..]
    ensures Bytes(mem[..], source.List()) == Bytes(old(mem[..]), source.List())
  {
    var limit := if max.None? then SIZE_MAX else max.value;
    match (target, source) {
      case (One(t), One(s)) =>
        total := CopyOneOne(mem, t, s, max);
      case (One(t), Many(ss)) =>
        Singleton(t);
        assert [t][0].Within(mem.Length);
        total := CopyOneMany(mem, t, ss, limit);
      case (Many(ts), One(s)) =>
        Singleton(s);
        assert [s][0].Within(mem.Length);
        total := CopyManyOne(mem, ts, s, limit);
      case (Many(ts), Many(ss)) =>
        if max.None? {
          total := CopyManyMany(mem, ts, ss);
        } else {
          total := CopyManyManyLimited(mem, ts, ss, max.value);
        }
    }
    CopiedBytes(old(mem[..]), mem[..], target.List(), source.List(), total);
    BytesAt(old(mem[..]), source.List());
    BytesAt(old(mem[..]), target.List());
  }
}
