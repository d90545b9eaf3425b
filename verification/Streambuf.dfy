/**
  `basic_streambuf` (include/asio/basic_streambuf.hpp): a byte queue in one vector. The readable bytes lie from the get
  pointer to the put pointer, and room for more from there to the end of the put area.
 */
module Streambuf {
  import opened Wrappers
  import opened Buffers

  const BUFFER_DELTA: nat := 128

  /**
    The readable bytes after a failed `reserve`: `memmove` has shifted the storage by `shift`, but the pointers stay.
   */
  ghost function Slipped(contents: seq<Byte>, shift: nat): seq<Byte> {
    if shift >= |contents| then contents else contents[shift..] + contents[|contents| - shift..]
  }

  /** A failed `reserve` spares the contents exactly when they repeat with period `shift`... */
  lemma SlippedSame(contents: seq<Byte>, shift: nat)
    ensures Slipped(contents, shift) == contents
            <==> forall i :: 0 <= i < |contents| - shift ==> contents[i] == contents[i + shift]
  {
    var after := Slipped(contents, shift);
    assert forall i :: 0 <= i < |contents| - shift ==> after[i] == contents[i + shift];
    assert forall i :: 0 <= i < |contents| && i >= |contents| - shift ==> after[i] == contents[i];
  }

  /** ... and spares every contents of a size exactly when nothing moves or the move does not reach them. */
  lemma SlippedHarmless(size: nat, shift: nat)
    ensures (forall contents: seq<Byte> | |contents| == size :: Slipped(contents, shift) == contents)
            <==> shift == 0 || size <= shift
  {
    if 0 < shift < size {
      var sample := seq(size, i => if i == 0 then 1 as Byte else 0);
      assert Slipped(sample, shift)[0] == sample[shift];
      assert Slipped(sample, shift) != sample;
    } else {
      forall contents: seq<Byte> | |contents| == size
        ensures Slipped(contents, shift) == contents
      {
        SlippedSame(contents, shift);
      }
    }
  }

  /** `memmove(&buffer[0], &buffer[0] + get, put - get)` */
  function Moved(buffer: seq<Byte>, get: nat, put: nat): (r: seq<Byte>)
    requires get <= put <= |buffer|
    ensures |r| == |buffer|
  {
    buffer[get..put] + buffer[put - get..]
  }

  lemma MovedContents(buffer: seq<Byte>, get: nat, put: nat)
    requires get <= put <= |buffer|
    ensures Moved(buffer, get, put)[..put - get] == buffer[get..put]
    ensures Moved(buffer, get, put)[get..put] == Slipped(buffer[get..put], get)
    ensures get == 0 ==> Moved(buffer, get, put) == buffer
  {
    var contents, moved := buffer[get..put], Moved(buffer, get, put);
    var slipped := Slipped(contents, get);
    forall i | 0 <= i < |contents|
      ensures moved[get..put][i] == slipped[i]
    {
      assert moved[get..put][i] == moved[get + i];
      if get + i < |contents| {
        assert moved[get + i] == contents[get + i] == slipped[i];
      } else {
        assert moved[get + i] == buffer[get + i] == contents[i] == slipped[i];
      }
    }
  }

  lemma ResizedKeeps(buffer: seq<Byte>, size: nat, put: nat)
    requires put <= |buffer| && put <= size
    ensures Resized(buffer, size)[..put] == buffer[..put]
  {
  }

  class Streambuf {
    const maxSize: nat
    var buffer: seq<Byte>
    // The stream pointers, as offsets into the buffer; eback is always 0.
    var gptr: nat
    var egptr: nat
    var pptr: nat
    var epptr: nat

    ghost predicate Valid()
      reads this
    {
      && gptr <= egptr <= pptr <= epptr <= maxSize
      && |buffer| == Max(epptr, 1)
    }

    /** The input sequence, `data()` */
    function Contents(): (r: seq<Byte>)
      requires Valid()
      reads this
      ensures |r| == Size() <= maxSize
    {
      buffer[gptr..pptr]
    }

    function Size(): nat
      requires Valid()
      reads this
    {
      pptr - gptr
    }

    constructor (maximumSize: nat)
      ensures Valid() && maxSize == maximumSize
      ensures gptr == egptr == pptr == 0 && epptr == Min(maximumSize, 128)
    {
      var pend := Min(maximumSize, BUFFER_DELTA);
      maxSize := maximumSize;
      buffer := Resized([], Max(pend, 1));
      gptr, egptr, pptr, epptr := 0, 0, 0, pend;
    }

    /** Moves the readable bytes to the front of the storage. The pointers are left for the caller to move. */
    method Shift()
      requires Valid()
      modifies `buffer
      ensures Valid() && buffer == Moved(old(buffer), gptr, pptr)
      ensures buffer[..pptr - gptr] == old(Contents())
      ensures Contents() == Slipped(old(Contents()), gptr)
      ensures gptr == 0 ==> buffer == old(buffer)
    {
      ghost var before := buffer;
      MovedContents(before, gptr, pptr);
      if gptr > 0 {
        buffer := Moved(buffer, gptr, pptr);
      }
      assert buffer == Moved(before, gptr, pptr);
      assert buffer[..pptr - gptr] == before[gptr..pptr];
      assert buffer[gptr..pptr] == Slipped(before[gptr..pptr], gptr);
    }

    /** The slow path of `reserve`, when the put area is too small. */
    method ShiftAndGrow(n: nat) returns (ok: bool)
      requires Valid() && n > epptr - pptr
      modifies this
      ensures Valid()
      ensures ok <==> old(Size()) + n <= maxSize
      ensures ok ==> gptr == 0 && egptr == pptr == old(Size()) && epptr == Max(old(epptr), old(Size()) + n)
      ensures ok ==> Contents() == old(Contents())
      ensures !ok ==> gptr == old(gptr) && egptr == old(egptr) && pptr == old(pptr) && epptr == old(epptr)
      ensures !ok ==> buffer == Moved(old(buffer), old(gptr), old(pptr))
      ensures !ok ==> Contents() == Slipped(old(Contents()), old(gptr))
      ensures !ok && gptr == 0 ==> buffer == old(buffer)
    {
      // pnext is where the put pointer will be after the shift
      var pnext, pend := pptr - gptr, epptr;
      Shift();

      if n > pend - pnext {
        if n <= maxSize && pnext <= maxSize - n {
          pend := pnext + n;
          ResizedKeeps(buffer, Max(pend, 1), pnext);
          buffer := Resized(buffer, Max(pend, 1));
        } else {
          return false;
        }
      }

      gptr, egptr := 0, pnext;
      pptr, epptr := pnext, pend;
      assert buffer[0..pnext] == buffer[..pnext];
      return true;
    }

    /** Makes room for `n` more bytes; false is the length_error. */
    method Reserve(n: nat) returns (ok: bool)
      requires Valid()
      modifies this
      ensures Valid()
      ensures ok <==> old(Size()) + n <= maxSize
      ensures ok ==> Contents() == old(Contents()) && epptr - pptr >= n
      ensures n <= old(epptr - pptr) ==> unchanged(this)
      ensures ok && n > old(epptr - pptr) ==>
                gptr == 0 && egptr == pptr == old(Size()) && epptr == Max(old(epptr), old(Size()) + n)
      ensures !ok ==> gptr == old(gptr) && egptr == old(egptr) && pptr == old(pptr) && epptr == old(epptr)
      ensures !ok ==> buffer == Moved(old(buffer), old(gptr), old(pptr))
      ensures !ok && gptr == 0 ==> buffer == old(buffer)
      ensures !ok ==> Contents() == Slipped(old(Contents()), old(gptr))
    {
      if n <= epptr - pptr {
        return true;
      }
      ok := ShiftAndGrow(n);
    }

    /** The output sequence of size `n`, or None for the length_error. */
    method Prepare(n: nat) returns (r: Option<Buffer>)
      requires Valid()
      modifies this
      ensures Valid()
      ensures r == if old(Size()) + n <= maxSize then Some(Buffer(pptr, n)) else None
      ensures r.Some? ==> Contents() == old(Contents()) && epptr - pptr >= n
      ensures r.None? ==> gptr == old(gptr) && Contents() == Slipped(old(Contents()), old(gptr))
    {
      var ok := Reserve(n);
      r := if ok then Some(Buffer(pptr, n)) else None;
    }

    /** What the caller does with a prepared buffer: writes to its start. */
    method Store(target: Buffer, data: seq<Byte>)
      requires Valid() && target.data == pptr && |data| <= target.size <= epptr - pptr
      modifies `buffer
      ensures Valid() && Contents() == old(Contents())
      ensures buffer == old(buffer)[..pptr] + data + old(buffer)[pptr + |data|..]
    {
      buffer := buffer[..pptr] + data + buffer[pptr + |data|..];
    }

    method Commit(n: nat)
      requires Valid()
      modifies `pptr, `egptr
      ensures Valid()
      ensures pptr == egptr == old(pptr) + Min(n, old(epptr - pptr))
      ensures Contents() == old(Contents()) + buffer[old(pptr)..pptr]
    {
      var m := Min(n, epptr - pptr);
      pptr := pptr + m;
      egptr := pptr;
    }

    method Consume(n: nat)
      requires Valid()
      modifies `gptr, `egptr
      ensures Valid()
      ensures gptr == old(gptr) + Min(n, old(Size())) && egptr == pptr
      ensures Contents() == old(Contents())[Min(n, old(Size()))..]
    {
      var m := n;
      if egptr < pptr {
        egptr := pptr;
      }
      if gptr + m > pptr {
        m := pptr - gptr;
      }
      gptr := gptr + m;
    }

    /** The next byte to read, or None for eof; the whole input sequence becomes the get area. */
    method Underflow() returns (r: Option<Byte>)
      requires Valid()
      modifies `egptr
      ensures Valid() && Contents() == old(Contents())
      ensures r == if Contents() == [] then None else Some(Contents()[0])
      ensures egptr == pptr
    {
      if gptr < pptr {
        egptr := pptr;
        r := Some(buffer[gptr]);
      } else {
        r := None;
      }
    }

    /** The growth choices of `overflow`: room for one more at least, and 128 more where the maximum allows it. */
    method MakeRoom() returns (ok: bool)
      requires Valid() && pptr == epptr
      modifies this
      ensures Valid()
      ensures ok <==> old(Size()) < maxSize
      ensures ok ==> Contents() == old(Contents()) && pptr < epptr
      ensures ok ==> epptr == Max(old(epptr), Min(maxSize, old(Size()) + BUFFER_DELTA))
      ensures !ok ==>
                buffer == old(buffer) && gptr == old(gptr) && egptr == old(egptr) && pptr == old(pptr) && epptr == old(epptr)
    {
      // A full buffer, the only one to fail, has its get pointer at the base, so that nothing moves.
      var bufferSize := pptr - gptr;
      if bufferSize < maxSize && maxSize - bufferSize < BUFFER_DELTA {
        ok := Reserve(maxSize - bufferSize);
      } else {
        ok := Reserve(BUFFER_DELTA);
      }
    }

    /** Stores a character at the put pointer, and moves on. */
    method Place(c: Byte)
      requires Valid() && pptr < epptr
      modifies `buffer, `pptr
      ensures Valid() && pptr == old(pptr) + 1
      ensures Contents() == old(Contents()) + [c]
    {
      buffer := buffer[pptr := c];
      pptr := pptr + 1;
    }

    /** Appends a character; None is eof, which appends nothing. False is the length_error. */
    method Overflow(c: Option<Byte>) returns (ok: bool)
      requires Valid()
      modifies this
      ensures Valid()
      ensures ok <==> c.None? || old(Size()) < maxSize
      ensures ok && c.Some? ==> Contents() == old(Contents()) + [c.value]
      ensures ok && c.Some? && old(pptr == epptr) ==>
                epptr == Max(old(epptr), Min(maxSize, old(Size()) + BUFFER_DELTA))
      ensures ok && c.Some? && old(pptr < epptr) ==> epptr == old(epptr) && gptr == old(gptr)
      ensures !ok || c.None? ==>
                buffer == old(buffer) && gptr == old(gptr) && egptr == old(egptr) && pptr == old(pptr) && epptr == old(epptr)
    {
      if c.Some? {
        if pptr == epptr {
          ok := MakeRoom();
          if !ok {
            return;
          }
        }
        Place(c.value);
      }
      ok := true;
    }

    /** `sputc`: stores into the put area, or overflows when there is no room. False is the length_error. */
    method Put(c: Byte) returns (ok: bool)
      requires Valid()
      modifies this
      ensures Valid()
      ensures ok <==> old(Size()) < maxSize
      ensures Contents() == if ok then old(Contents()) + [c] else old(Contents())
    {
      if pptr < epptr {
        Place(c);
        return true;
      }
      ok := Overflow(Some(c));
    }

    /** `sbumpc`: takes the next character; None is eof. */
    method Take() returns (c: Option<Byte>)
      requires Valid()
      modifies `gptr, `egptr
      ensures Valid()
      ensures c == if old(Contents()) == [] then None else Some(old(Contents())[0])
      ensures Contents() == if c.None? then old(Contents()) else old(Contents())[1..]
    {
      if gptr < egptr {
        c := Some(buffer[gptr]);
      } else {
        c := Underflow();
        if c.None? {
          return;
        }
      }
      gptr := gptr + 1;
    }

    /** `read_size_helper`: the most that is allowed. The vector's capacity is at least its size. */
    function ReadSizeHelper(capacity: nat, m: nat): (n: nat)
      requires Valid() && capacity >= |buffer|
      reads this
      ensures n <= m && Size() + n <= maxSize && (n <= 512 || Size() + n <= capacity)
      ensures n == m || Size() + n == maxSize || (n >= 512 && Size() + n >= capacity)
      ensures n == 0 <==> m == 0 || Size() == maxSize
    {
      assert Size() <= capacity;
      Min(Max(512, capacity - Size()), Min(m, maxSize - Size()))
    }
  }

  /** A buffer of 3, filled with 1, 2, 3. */
  method Filled() returns (sb: Streambuf)
    ensures fresh(sb) && sb.Valid() && sb.maxSize == 3
    ensures sb.gptr == 0 && sb.Contents() == [1, 2, 3]
  {
    sb := new Streambuf(3);
    var r := sb.Prepare(3);
    sb.Store(r.value, [1, 2, 3]);
    ghost var stored := sb.buffer;
    assert stored[0..3] == [1, 2, 3];
    sb.Commit(3);
  }

  /** A reachable case of the fault: one of three bytes in a full buffer is consumed, then `prepare(2)` fails. */
  method FailedPrepareScrambles() returns (before: seq<Byte>, after: seq<Byte>)
    ensures before == [2, 3] && after == [3, 3]
  {
    var sb := Filled();
    sb.Consume(1);
    before := sb.Contents();
    assert before == [2, 3];
    var r := sb.Prepare(2);
    after := sb.Contents();
    assert after == before[1..] + before[1..];
  }
}
