/**
  The two adapters that give a byte string the DynamicBuffer interface (include/asio/buffer.hpp): one over
  `std::string`, one over `std::vector<char>`. They hold a reference to a store that the user owns. Their code is the
  same but for one expression in `consume`.
 */
module DynamicBuffers {
  import opened Wrappers
  import opened Buffers

  /** The referenced `std::string` or `std::vector<char>` */
  class ByteStore {
    var bytes: seq<Byte>

    constructor (bytes: seq<Byte>)
      ensures this.bytes == bytes
    {
      this.bytes := bytes;
    }
  }

  /** `dynamic_string_buffer` or `dynamic_vector_buffer` */
  datatype Backing = StringStore | VectorStore

  function Zeros(n: nat): (r: seq<Byte>)
    ensures |r| == n
  {
    seq(n, _ => 0)
  }

  /** `data(pos, n)` on a store of `length` bytes: at most `n` bytes from `pos` on, of those within the maximum. */
  function Window(length: nat, pos: nat, n: nat, max: nat): (b: Buffer)
    ensures b.data == Min(pos, Min(length, max))
    ensures b.size == Min(n, Min(length, max) - b.data)
  {
    Buffer(0, length).Limited(max).Plus(pos).Limited(n)
  }

  class DynamicBuffer {
    const backing: Backing
    const store: ByteStore
    const maxSize: nat
    // None is the sentinel SIZE_MAX, which no stored length can equal: DynamicBuffer_v1 was not used yet.
    var size: Option<nat>

    constructor (backing: Backing, store: ByteStore, maximumSize: nat)
      ensures this.backing == backing && this.store == store && maxSize == maximumSize && size == None
      ensures Valid() && (Fits() <==> |store.bytes| <= maxSize)
    {
      this.backing := backing;
      this.store := store;
      maxSize := maximumSize;
      size := None;
    }

    ghost predicate Valid()
      reads this, store
    {
      size.Some? ==> size.value <= |store.bytes|
    }

    /** The mode invariant: what is in use never exceeds the maximum. It holds from an initial length within it. */
    ghost predicate Fits()
      reads this, store
    {
      Valid() && |store.bytes| <= maxSize
    }

    function Size(): nat
      reads this, store
    {
      if size.Some? then size.value else Min(|store.bytes|, maxSize)
    }

    /** The input sequence, `data()`: `buffer(store, size_)` */
    function Contents(): seq<Byte>
      requires Valid()
      reads this, store
    {
      if size.Some? then store.bytes[..size.value] else store.bytes
    }

    /** The output sequence of size `n`, or None for the length_error. */
    method Prepare(n: nat) returns (r: Option<Buffer>)
      requires Valid()
      modifies `size, store
      ensures Valid() && (old(Fits()) ==> Fits())
      ensures r.Some? <==> old(Size()) <= maxSize && old(Size()) + n <= maxSize
      ensures r.None? ==> size == old(size) && store.bytes == old(store.bytes)
      ensures r.Some? ==> size == Some(|old(Contents())|) && r.value == Buffer(size.value, n)
      ensures r.Some? ==> store.bytes == Resized(old(store.bytes), size.value + n) && Contents() == old(Contents())
    {
      if Size() > maxSize || maxSize - Size() < n {
        return None;
      }
      if size == None {
        size := Some(|store.bytes|);
      }
      store.bytes := Resized(store.bytes, size.value + n);
      return Some(Buffer(size.value, n));
    }

    /** What the caller does with a prepared buffer: writes to its start. */
    method Store(target: Buffer, data: seq<Byte>)
      requires Valid() && size.Some? && target.data == size.value
      requires |data| <= target.size && target.Within(|store.bytes|)
      modifies store
      ensures Valid() && (old(Fits()) ==> Fits()) && Contents() == old(Contents())
      ensures store.bytes == old(store.bytes)[..size.value] + data + old(store.bytes)[size.value + |data|..]
    {
      store.bytes := store.bytes[..size.value] + data + store.bytes[size.value + |data|..];
    }

    /** After `commit` the rest of the output sequence is gone. */
    method Commit(n: nat)
      requires Valid() && size.Some?
      modifies `size, store
      ensures Valid() && (old(Fits()) ==> Fits())
      ensures size == Some(Min(old(size.value) + n, |old(store.bytes)|))
      ensures store.bytes == Contents() == old(store.bytes)[..size.value]
    {
      size := Some(size.value + Min(n, |store.bytes| - size.value));
      store.bytes := Resized(store.bytes, size.value);
    }

    /**
      DynamicBuffer_v2: appends `n` zeros to the bytes within the maximum, if they fit; the bytes beyond it are lost.
      False is the length_error, which changes nothing.
     */
    method Grow(n: nat) returns (ok: bool)
      requires size.None?
      modifies store
      ensures var used := Min(|old(store.bytes)|, maxSize);
              && (ok <==> used + n <= maxSize)
              && store.bytes == if ok then old(store.bytes)[..used] + Zeros(n) else old(store.bytes)
      ensures ok ==> |store.bytes| <= maxSize
    {
      if Size() > maxSize || maxSize - Size() < n {
        return false;
      }
      store.bytes := Resized(store.bytes, Size() + n);
      return true;
    }

    /** DynamicBuffer_v2: keeps all but the last `n` of the bytes within the maximum, or none if there are fewer. */
    method Shrink(n: nat)
      requires size.None?
      modifies store
      ensures var used := Min(|old(store.bytes)|, maxSize);
              store.bytes == old(store.bytes)[..Max(used - n, 0)]
      ensures |store.bytes| <= maxSize
    {
      store.bytes := Resized(store.bytes, if n > Size() then 0 else Size() - n);
    }

    /** DynamicBuffer_v2: writes to `data(pos, n)` as much of `data` as it holds. */
    method Write(pos: nat, data: seq<Byte>)
      modifies store
      ensures |store.bytes| == |old(store.bytes)|
      ensures var p := Min(pos, Min(|store.bytes|, maxSize));
              var k := Min(|data|, Min(|store.bytes|, maxSize) - p);
              && store.bytes[p..p + k] == data[..k]
              && store.bytes[..p] == old(store.bytes)[..p]
              && store.bytes[p + k..] == old(store.bytes)[p + k..]
    {
      var window := Window(|store.bytes|, pos, |data|, maxSize);
      store.bytes := store.bytes[..window.data] + data[..window.size] + store.bytes[window.data + window.size..];
    }

    /** The two backings differ only here: before any `prepare`, the vector's erasing stops at the maximum. */
    method Consume(n: nat)
      requires Valid()
      modifies `size, store
      ensures Valid() && (old(Fits()) ==> Fits())
      ensures size == if old(size).Some? then Some(old(size.value) - Min(n, old(size.value))) else None
      ensures var erasable := if old(size).Some? then old(size.value)
                              else if backing.StringStore? then |old(store.bytes)| else Min(|old(store.bytes)|, maxSize);
              store.bytes == old(store.bytes)[Min(n, erasable)..]
    {
      if size.Some? {
        var consumeLength := Min(n, size.value);
        store.bytes := store.bytes[consumeLength..];
        size := Some(size.value - consumeLength);
        return;
      }
      match backing
      case StringStore => store.bytes := store.bytes[Min(n, |store.bytes|)..];
      case VectorStore => store.bytes := store.bytes[Min(Size(), n)..];
    }
  }
}
