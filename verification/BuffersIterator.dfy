/**
  The random-access iterator over the bytes of a buffer sequence (include/asio/buffers_iterator.hpp).

  An iterator stands at a place: a buffer, an offset in it and a position in the whole sequence. Each position from 0
  to the total size has exactly one canonical place, and the iterator is always at one.
 */
module BuffersIterator {
  import opened Wrappers
  import opened Buffers
  import opened BufferCopy

  datatype Place = Place(current: nat, offset: nat, position: nat)

  /** The place is inside a non-empty buffer, or at the end with offset 0; its position counts the bytes before it. */
  ghost predicate Canonical(bs: seq<Buffer>, p: Place) {
    && p.current <= |bs|
    && p.position == Start(bs, p.current) + p.offset
    && (if p.current == |bs| then p.offset == 0 else p.offset < bs[p.current].size)
  }

  /** The first buffer from `i` on that is not empty, or the end. */
  function SkipEmpty(bs: seq<Buffer>, i: nat): (r: nat)
    requires i <= |bs|
    ensures i <= r <= |bs|
    ensures r < |bs| ==> bs[r].size > 0
    ensures forall j :: i <= j < r ==> bs[j].size == 0
    decreases |bs| - i
  {
    if i == |bs| || bs[i].size > 0 then i else SkipEmpty(bs, i + 1)
  }

  /** The last buffer before `i` that is not empty. */
  ghost function LastNonEmpty(bs: seq<Buffer>, i: nat): (r: nat)
    requires i <= |bs| && Start(bs, i) > 0
    ensures r < i && bs[r].size > 0
    ensures forall j :: r < j < i ==> bs[j].size == 0
  {
    if bs[i - 1].size > 0 then i - 1 else LastNonEmpty(bs, i - 1)
  }

  /** One byte forward. */
  ghost function Next(bs: seq<Buffer>, p: Place): Place
    requires Canonical(bs, p) && p.current < |bs|
  {
    if p.offset + 1 != bs[p.current].size then Place(p.current, p.offset + 1, p.position + 1)
    else Place(SkipEmpty(bs, p.current + 1), 0, p.position + 1)
  }

  /** One byte back. */
  ghost function Prev(bs: seq<Buffer>, p: Place): Place
    requires Canonical(bs, p) && p.position > 0
  {
    if p.offset != 0 then Place(p.current, p.offset - 1, p.position - 1)
    else
      var i := LastNonEmpty(bs, p.current);
      Place(i, bs[i].size - 1, p.position - 1)
  }

  /** Empty buffers do not move the position. */
  lemma {:induction false} StartOverEmpty(bs: seq<Buffer>, i: nat, j: nat)
    requires i <= j <= |bs|
    requires forall k :: i <= k < j ==> bs[k].size == 0
    ensures Start(bs, j) == Start(bs, i)
    decreases j
  {
    if i < j {
      StartOverEmpty(bs, i, j - 1);
    }
  }

  /** Equal positions are equal places. */
  lemma CanonicalUnique(bs: seq<Buffer>, p: Place, q: Place)
    requires Canonical(bs, p) && Canonical(bs, q) && p.position == q.position
    ensures p == q
  {
    if p.current < q.current {
      StartMonotone(bs, p.current, q.current);
    } else if q.current < p.current {
      StartMonotone(bs, q.current, p.current);
    }
  }

  /** A canonical place is at the end exactly when its position is the total size. */
  lemma AtEnd(bs: seq<Buffer>, p: Place)
    requires Canonical(bs, p)
    ensures p.position <= Total(bs)
    ensures p.current == |bs| <==> p.position == Total(bs)
  {
    StartMonotone(bs, p.current, |bs|);
  }

  lemma NextCanonical(bs: seq<Buffer>, p: Place)
    requires Canonical(bs, p) && p.current < |bs|
    ensures Canonical(bs, Next(bs, p))
  {
    var i := SkipEmpty(bs, p.current + 1);
    StartOverEmpty(bs, p.current + 1, i);
  }

  lemma PrevCanonical(bs: seq<Buffer>, p: Place)
    requires Canonical(bs, p) && p.position > 0
    ensures Canonical(bs, Prev(bs, p))
  {
    if p.offset == 0 {
      var i := LastNonEmpty(bs, p.current);
      StartOverEmpty(bs, i + 1, p.current);
    }
  }

  /** Increment and decrement undo each other, on buffer, offset and position. */
  lemma PrevOfNext(bs: seq<Buffer>, p: Place)
    requires Canonical(bs, p) && p.current < |bs|
    ensures Canonical(bs, Next(bs, p)) && Prev(bs, Next(bs, p)) == p
  {
    NextCanonical(bs, p);
    PrevCanonical(bs, Next(bs, p));
    CanonicalUnique(bs, Prev(bs, Next(bs, p)), p);
  }

  lemma NextOfPrev(bs: seq<Buffer>, p: Place)
    requires Canonical(bs, p) && p.position > 0
    ensures Canonical(bs, Prev(bs, p)) && Prev(bs, p).current < |bs| && Next(bs, Prev(bs, p)) == p
  {
    PrevCanonical(bs, p);
    AtEnd(bs, p);
    AtEnd(bs, Prev(bs, p));
    NextCanonical(bs, Prev(bs, p));
    CanonicalUnique(bs, Next(bs, Prev(bs, p)), p);
  }

  /** `n` single steps: forward for positive `n`, back for negative `n`. */
  ghost function Steps(bs: seq<Buffer>, p: Place, n: int): (r: Place)
    requires Canonical(bs, p) && 0 <= p.position + n <= Total(bs)
    ensures Canonical(bs, r) && r.position == p.position + n
    decreases if n < 0 then -n else n
  {
    AtEnd(bs, p);
    if n == 0 then p
    else if n > 0 then
      NextCanonical(bs, p);
      Steps(bs, Next(bs, p), n - 1)
    else
      PrevCanonical(bs, p);
      Steps(bs, Prev(bs, p), n + 1)
  }

  /** Going there and coming back, in any split of the way. */
  lemma StepsCompose(bs: seq<Buffer>, p: Place, m: int, n: int)
    requires Canonical(bs, p) && 0 <= p.position + m <= Total(bs) && 0 <= p.position + m + n <= Total(bs)
    ensures Steps(bs, Steps(bs, p, m), n) == Steps(bs, p, m + n)
  {
    CanonicalUnique(bs, Steps(bs, Steps(bs, p, m), n), Steps(bs, p, m + n));
  }

  /** The byte at a place, in the buffer it points into, is the byte of the concatenation at its position. */
  lemma PlaceReads(bs: seq<Buffer>, p: Place, m: seq<Byte>)
    requires Canonical(bs, p) && p.current < |bs| && AllWithin(bs, |m|)
    ensures bs[p.current].data + p.offset < |m| && p.position < |Bytes(m, bs)|
    ensures m[bs[p.current].data + p.offset] == Bytes(m, bs)[p.position]
  {
    FlatAt(bs, p.current, p.offset);
    BytesAt(m, bs);
    assert bs[p.current].Within(|m|);
  }

  class BuffersIterator {
    // begin_ is index 0 and end_ is index |buffers|
    const buffers: seq<Buffer>
    var currentBuffer: Buffer
    var currentBufferPosition: nat
    var current: nat
    var position: nat

    ghost function Here(): Place
      reads this
    {
      Place(current, currentBufferPosition, position)
    }

    /** At the end the cached buffer is not looked at: it is stale after `Increment` and null after `Advance`. */
    ghost predicate Valid()
      reads this
    {
      && Canonical(buffers, Here())
      && (current < |buffers| ==> currentBuffer == buffers[current])
    }

    /** `begin(buffers)` */
    constructor Begin(buffers: seq<Buffer>)
      ensures Valid() && this.buffers == buffers && position == 0
    {
      this.buffers := buffers;
      currentBuffer, currentBufferPosition, current, position := Buffer(0, 0), 0, 0, 0;
      new;
      while current != |buffers|
        invariant this.buffers == buffers && currentBufferPosition == 0 && position == 0
        invariant current <= |buffers|
        invariant forall j :: 0 <= j < current ==> buffers[j].size == 0
        decreases |buffers| - current
      {
        currentBuffer := buffers[current];
        if currentBuffer.size > 0 {
          break;
        }
        current := current + 1;
      }
      StartOverEmpty(buffers, 0, current);
    }

    /** `end(buffers)` */
    constructor End(buffers: seq<Buffer>)
      ensures Valid() && this.buffers == buffers && position == Total(buffers)
    {
      this.buffers := buffers;
      currentBuffer, currentBufferPosition, current, position := Buffer(0, 0), 0, 0, 0;
      new;
      while current != |buffers|
        invariant this.buffers == buffers && currentBufferPosition == 0
        invariant current <= |buffers| && position == Start(buffers, current)
        decreases |buffers| - current
      {
        var buffer := buffers[current];
        position := position + buffer.size;
        current := current + 1;
      }
    }

    /** The implicit copy, `tmp(*this)` */
    constructor Copy(other: BuffersIterator)
      ensures buffers == other.buffers && Here() == other.Here() && currentBuffer == other.currentBuffer
    {
      buffers := other.buffers;
      currentBuffer, currentBufferPosition := other.currentBuffer, other.currentBufferPosition;
      current, position := other.current, other.position;
    }

    method Increment()
      requires Valid() && current != |buffers|
      modifies this
      ensures Valid() && Here() == Next(buffers, old(Here()))
    {
      NextCanonical(buffers, Here());
      position := position + 1;

      currentBufferPosition := currentBufferPosition + 1;
      if currentBufferPosition != currentBuffer.size {
        return;
      }

      current := current + 1;
      currentBufferPosition := 0;
      while current != |buffers|
        invariant old(current) < current <= |buffers|
        invariant currentBufferPosition == 0 && position == old(position) + 1
        invariant SkipEmpty(buffers, current) == SkipEmpty(buffers, old(current) + 1)
        decreases |buffers| - current
      {
        currentBuffer := buffers[current];
        if currentBuffer.size > 0 {
          return;
        }
        current := current + 1;
      }
    }

    method Decrement()
      requires Valid() && position > 0
      modifies this
      ensures Valid() && Here() == Prev(buffers, old(Here()))
    {
      PrevCanonical(buffers, Here());
      position := position - 1;

      if currentBufferPosition != 0 {
        currentBufferPosition := currentBufferPosition - 1;
        return;
      }

      // Some bytes lie before this place, so the search ends at a buffer that holds them.
      var iter: nat := current;
      while iter != 0
        invariant iter <= current == old(current)
        invariant currentBufferPosition == 0 && position == old(position) - 1
        invariant Start(buffers, iter) > 0
        invariant LastNonEmpty(buffers, iter) == LastNonEmpty(buffers, old(current))
        decreases iter
      {
        iter := iter - 1;
        var buffer := buffers[iter];
        if buffer.size > 0 {
          current := iter;
          currentBuffer := buffer;
          currentBufferPosition := buffer.size - 1;
          return;
        }
      }
      assert false;
    }

    /** The branch `n > 0` of `advance` */
    method AdvanceForward(n: nat)
      requires Valid() && n > 0 && position + n <= Total(buffers)
      modifies this
      ensures Valid() && position == old(position) + n
    {
      AtEnd(buffers, Here());
      var left: nat := n;
      while true
        invariant current < |buffers| && currentBuffer == buffers[current]
        invariant currentBufferPosition <= currentBuffer.size
        invariant position == Start(buffers, current) + currentBufferPosition
        invariant position + left == old(position) + n
        decreases |buffers| - current
      {
        var balance := currentBuffer.size - currentBufferPosition;

        if balance > left {
          position := position + left;
          currentBufferPosition := currentBufferPosition + left;
          return;
        }

        StartMonotone(buffers, current, |buffers|);
        left := left - balance;
        position := position + balance;

        // An empty buffer here costs one more round, in which nothing is left to pass over.
        current := current + 1;
        if current == |buffers| {
          assert left == 0;
          currentBuffer := Buffer(0, 0);
          currentBufferPosition := 0;
          return;
        }
        currentBuffer := buffers[current];
        currentBufferPosition := 0;
      }
    }

    /** The branch `n < 0` of `advance` */
    method AdvanceBack(n: nat)
      requires Valid() && 0 < n <= position
      modifies this
      ensures Valid() && position == old(position) - n
    {
      var left: nat := n;
      while true
        invariant current <= |buffers| && left > 0
        invariant current == |buffers| ==> currentBufferPosition == 0
        invariant current < |buffers| ==> currentBuffer == buffers[current] && currentBufferPosition <= currentBuffer.size
        invariant position == Start(buffers, current) + currentBufferPosition
        invariant position - left == old(position) - n
        decreases current
      {
        if currentBufferPosition >= left {
          position := position - left;
          currentBufferPosition := currentBufferPosition - left;
          return;
        }

        left := left - currentBufferPosition;
        position := position - currentBufferPosition;

        // There are bytes left to go back over, so this is not the first buffer.
        if current == 0 {
          assert false;
        }
        FindPrevious();
      }
    }

    /** The inner loop of the backward branch: stands at the end of the last non-empty buffer before this one. */
    method FindPrevious()
      requires current <= |buffers| && Start(buffers, current) > 0
      modifies `current, `currentBuffer, `currentBufferPosition
      ensures current == LastNonEmpty(buffers, old(current))
      ensures currentBuffer == buffers[current] && currentBufferPosition == currentBuffer.size
      ensures Start(buffers, current) + currentBufferPosition == Start(buffers, old(current))
    {
      var iter: nat := current;
      while iter != 0
        invariant iter <= current == old(current)
        invariant Start(buffers, iter) == Start(buffers, current) > 0
        invariant LastNonEmpty(buffers, iter) == LastNonEmpty(buffers, current)
        decreases iter
      {
        iter := iter - 1;
        var buffer := buffers[iter];
        if buffer.size > 0 {
          current := iter;
          currentBuffer := buffer;
          currentBufferPosition := buffer.size;
          return;
        }
      }
      assert false;
    }

    /** `advance(n)` ends exactly where `n` single steps end. */
    method Advance(n: int)
      requires Valid() && 0 <= position + n <= Total(buffers)
      modifies this
      ensures Valid() && Here() == Steps(buffers, old(Here()), n)
    {
      AtEnd(buffers, Here());
      if n > 0 {
        AdvanceForward(n);
      } else if n < 0 {
        AdvanceBack(-n);
      }
      CanonicalUnique(buffers, Here(), Steps(buffers, old(Here()), n));
    }

    /** `operator+(iter, n)`; `operator-(iter, n)` is `Plus(-n)` */
    method Plus(n: int) returns (r: BuffersIterator)
      requires Valid() && 0 <= position + n <= Total(buffers)
      ensures fresh(r) && r.Valid() && r.buffers == buffers && r.Here() == Steps(buffers, Here(), n)
    {
      r := new BuffersIterator.Copy(this);
      r.Advance(n);
    }

    /** `operator*`: reads through the cached buffer */
    method Dereference(mem: array<Byte>) returns (b: Byte)
      requires Valid() && AllWithin(buffers, mem.Length) && current != |buffers|
      ensures position < |Bytes(mem[..], buffers)| && b == Bytes(mem[..], buffers)[position]
    {
      PlaceReads(buffers, Here(), mem[..]);
      b := mem[currentBuffer.data + currentBufferPosition];
    }

    /** `operator[](n)` */
    method At(mem: array<Byte>, n: int) returns (b: Byte)
      requires Valid() && AllWithin(buffers, mem.Length) && 0 <= position + n < Total(buffers)
      ensures position + n < |Bytes(mem[..], buffers)| && b == Bytes(mem[..], buffers)[position + n]
    {
      var tmp := new BuffersIterator.Copy(this);
      tmp.Advance(n);
      AtEnd(buffers, tmp.Here());
      b := tmp.Dereference(mem);
    }

    function DistanceTo(other: BuffersIterator): int
      reads this, other
    {
      other.position - position
    }

    predicate Equal(other: BuffersIterator)
      reads this, other
    {
      position == other.position
    }

    predicate Less(other: BuffersIterator)
      reads this, other
    {
      DistanceTo(other) > 0
    }
  }

  /** `begin` and `end` lie a whole sequence apart. */
  method BeginToEnd(bs: seq<Buffer>) returns (first: BuffersIterator, last: BuffersIterator)
    ensures first.Valid() && last.Valid() && first.buffers == last.buffers == bs
    ensures first.position == 0 && first.DistanceTo(last) == Total(bs)
    ensures Steps(bs, first.Here(), Total(bs)) == last.Here()
  {
    first := new BuffersIterator.Begin(bs);
    last := new BuffersIterator.End(bs);
    CanonicalUnique(bs, Steps(bs, first.Here(), Total(bs)), last.Here());
  }

  /** Iterators over one sequence: `a + (b - a)` is `b`; `==` is equality of buffer and offset; `<` is reachability forward. */
  lemma RandomAccessLaws(a: BuffersIterator, b: BuffersIterator)
    requires a.Valid() && b.Valid() && a.buffers == b.buffers
    ensures 0 <= a.position + a.DistanceTo(b) <= Total(a.buffers)
    ensures Steps(a.buffers, a.Here(), a.DistanceTo(b)) == b.Here()
    ensures a.Equal(b) <==> a.current == b.current && a.currentBufferPosition == b.currentBufferPosition
    ensures a.Less(b) <==> exists n: nat :: 0 < n && a.position + n <= Total(a.buffers) && Steps(a.buffers, a.Here(), n) == b.Here()
  {
    AtEnd(b.buffers, b.Here());
    CanonicalUnique(a.buffers, Steps(a.buffers, a.Here(), a.DistanceTo(b)), b.Here());
    if a.Equal(b) {
      CanonicalUnique(a.buffers, a.Here(), b.Here());
    }
    if a.Less(b) {
      var n: nat := a.DistanceTo(b);
      assert Steps(a.buffers, a.Here(), n) == b.Here();
    }
  }

  /** Walking from the beginning by single steps reads the concatenation of the buffers, byte by byte. */
  lemma WalkReads(bs: seq<Buffer>, first: Place, k: nat, m: seq<Byte>)
    requires Canonical(bs, first) && first.position == 0 && AllWithin(bs, |m|)
    requires k < Total(bs)
    ensures var p := Steps(bs, first, k);
            && p.current < |bs| && bs[p.current].data + p.offset < |m| && k < |Bytes(m, bs)|
            && m[bs[p.current].data + p.offset] == Bytes(m, bs)[k]
  {
    var p := Steps(bs, first, k);
    AtEnd(bs, p);
    PlaceReads(bs, p, m);
  }

  /** Iterating reads the same bytes that `buffer_copy` puts into one buffer of the sequence's size. */
  lemma WalkReadsCopy(bs: seq<Buffer>, first: Place, k: nat, whole: Buffer, before: seq<Byte>, after: seq<Byte>)
    requires Canonical(bs, first) && first.position == 0 && k < Total(bs) == whole.size
    requires Copyable(|before|, [whole], bs)
    requires Copied(before, after, Flat([whole]), Flat(bs), Count([whole], bs, None))
    ensures whole.data + k < |after|
    ensures var p := Steps(bs, first, k);
            && p.current < |bs| && bs[p.current].data + p.offset < |before|
            && before[bs[p.current].data + p.offset] == after[whole.data + k]
  {
    WalkReads(bs, first, k, before);
    CopiedWhole(before, after, whole, bs, k);
  }
}
