/** Types and arithmetic shared by every component. */
module Wrappers {
  datatype Option<+T> = None | Some(value: T)

  /** One element of a buffer: `char` / `unsigned char`. */
  newtype Byte = x: int | 0 <= x < 256

  /** `std::numeric_limits<std::size_t>::max()` on a 64-bit platform. */
  const SIZE_MAX: nat := 0xFFFF_FFFF_FFFF_FFFF

  /** `std::min` */
  function Min(a: int, b: int): int {
    if a < b then a else b
  }

  /** `std::max` */
  function Max(a: int, b: int): int {
    if a < b then b else a
  }

  /** `resize(n)` on a `std::vector` or `std::string`: truncates, or appends value-initialised elements. */
  function Resized(s: seq<Byte>, n: nat): (r: seq<Byte>)
    ensures |r| == n
    ensures forall i :: 0 <= i < n && i < |s| ==> r[i] == s[i]
    ensures forall i :: |s| <= i < n ==> r[i] == 0
  {
    if n <= |s| then s[..n] else s + seq(n - |s|, _ => 0)
  }

  /** The associativity that growing a sequence one element at a time needs. */
  lemma Regrouped<T>(front: seq<T>, x: T, rest: seq<T>)
    ensures front + [x] + rest == front + ([x] + rest)
  {
  }

  /** Places below `n`, in order and each once. */
  ghost predicate Increasing(places: seq<nat>, n: nat) {
    && (forall k :: 0 <= k < |places| ==> places[k] < n)
    && (forall j, k :: 0 <= j < k < |places| ==> places[j] < places[k])
  }

  /** The places of the flags that are set, in order. */
  ghost function Chosen(flags: seq<bool>): seq<nat> {
    if |flags| == 0 then []
    else
      var last := |flags| - 1;
      if flags[last] then Chosen(flags[..last]) + [last] else Chosen(flags[..last])
  }

  lemma {:induction false} ChosenExact(flags: seq<bool>)
    ensures Increasing(Chosen(flags), |flags|)
    ensures forall i: nat :: i in Chosen(flags) <==> i < |flags| && flags[i]
  {
    if |flags| > 0 {
      ChosenExact(flags[..|flags| - 1]);
    }
  }

  lemma ChosenNext(flags: seq<bool>, flag: bool)
    ensures Chosen(flags + [flag]) == if flag then Chosen(flags) + [|flags|] else Chosen(flags)
  {
    assert (flags + [flag])[..|flags|] == flags;
  }
}
