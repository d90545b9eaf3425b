/**
  The protocol that three byte queues share, DynamicBuffer_v1: `prepare` a region, `commit` what was written to it,
  `consume` from the front. Its meaning is one bounded first-in first-out queue of bytes.
 */
module BoundedFifo {
  import opened Wrappers

  /** `Commit(data)` writes `data` to the start of the prepared region, then commits that many bytes. */
  datatype Op = Prepare(n: nat) | Commit(data: seq<Byte>) | Consume(n: nat)

  /** `prepared` is the size of the output region when the last operation was a successful `prepare`. */
  datatype Fifo = Fifo(readable: seq<Byte>, prepared: Option<nat>, maxSize: nat) {
    /** None is the length_error. */
    function Step(op: Op): (r: Option<Fifo>) {
      match op
      case Prepare(n) => if |readable| + n <= maxSize then Some(this.(prepared := Some(n))) else None
      case Commit(data) => Some(Fifo(readable + data, None, maxSize))
      case Consume(n) => Some(Fifo(readable[Min(n, |readable|)..], None, maxSize))
    }

    /** Each commit directly follows a successful prepare of at least its size. */
    ghost predicate Legal(ops: seq<Op>)
      decreases |ops|
    {
      ops != [] ==>
        && (ops[0].Commit? ==> prepared.Some? && |ops[0].data| <= prepared.value)
        && (Step(ops[0]).Some? ==> Step(ops[0]).value.Legal(ops[1..]))
    }

    /** The readable bytes after each step, up to the first step that fails. */
    ghost function Run(ops: seq<Op>): seq<Option<seq<Byte>>>
      decreases |ops|
    {
      if ops == [] then []
      else
        match Step(ops[0])
        case None => [None]
        case Some(next) => [Some(next.readable)] + next.Run(ops[1..])
    }

    /** The queue after a run in which no step fails. */
    ghost function Final(ops: seq<Op>): Option<Fifo>
      decreases |ops|
    {
      if ops == [] then Some(this)
      else if Step(ops[0]).None? then None
      else Step(ops[0]).value.Final(ops[1..])
    }

    ghost predicate Bounded() {
      |readable| + (if prepared.Some? then prepared.value else 0) <= maxSize
    }
  }

  predicate Tail(left: seq<Byte>, all: seq<Byte>) {
    |left| <= |all| && left == all[|all| - |left|..]
  }

  lemma TailExtended(left: seq<Byte>, all: seq<Byte>, more: seq<Byte>)
    requires Tail(left, all)
    ensures Tail(left + more, all + more)
  {
  }

  lemma TailOfTail(left: seq<Byte>, middle: seq<Byte>, all: seq<Byte>)
    requires Tail(left, middle) && Tail(middle, all)
    ensures Tail(left, all)
  {
  }

  function Data(op: Op): seq<Byte> {
    if op.Commit? then op.data else []
  }

  lemma StepOrder(f: Fifo, op: Op)
    requires f.Step(op).Some?
    ensures Tail(f.Step(op).value.readable, f.readable + Data(op))
  {
  }

  ghost function Committed(ops: seq<Op>): seq<Byte> {
    if ops == [] then [] else Data(ops[0]) + Committed(ops[1..])
  }

  /** First in, first out: what is readable at the end is the tail of what was there and was committed, in order. */
  lemma {:induction false} Order(f: Fifo, ops: seq<Op>)
    requires f.Final(ops).Some?
    ensures Tail(f.Final(ops).value.readable, f.readable + Committed(ops))
    decreases |ops|
  {
    if ops != [] {
      var next, rest := f.Step(ops[0]).value, Committed(ops[1..]);
      Order(next, ops[1..]);
      StepOrder(f, ops[0]);
      TailExtended(next.readable, f.readable + Data(ops[0]), rest);
      assert f.readable + Committed(ops) == f.readable + Data(ops[0]) + rest;
      TailOfTail(f.Final(ops).value.readable, next.readable + rest, f.readable + Committed(ops));
    }
  }

  /** The bound holds after every step of every legal run, and only `prepare` can fail. */
  lemma {:induction false} RunBounded(f: Fifo, ops: seq<Op>)
    requires f.Bounded() && f.Legal(ops)
    ensures |f.Run(ops)| <= |ops|
    ensures forall i :: 0 <= i < |f.Run(ops)| && f.Run(ops)[i].Some? ==> |f.Run(ops)[i].value| <= f.maxSize
    ensures forall i :: 0 <= i < |f.Run(ops)| && f.Run(ops)[i].None? ==> ops[i].Prepare? && i == |f.Run(ops)| - 1
    decreases |ops|
  {
    if ops != [] && f.Step(ops[0]).Some? {
      var next := f.Step(ops[0]).value;
      RunBounded(next, ops[1..]);
      assert forall i :: 0 < i < |f.Run(ops)| ==> f.Run(ops)[i] == next.Run(ops[1..])[i - 1] && ops[i] == ops[1..][i - 1];
    }
  }

  /** Step `i` of a run is not a commit, or directly follows a `prepare` of at least its size. */
  predicate PreparedAt(f: Fifo, ops: seq<Op>, i: nat)
    requires i < |ops|
  {
    ops[i].Commit? ==>
      if i == 0 then f.prepared.Some? && |ops[0].data| <= f.prepared.value
      else ops[i - 1].Prepare? && |ops[i].data| <= ops[i - 1].n
  }

  lemma PreparedLater(f: Fifo, ops: seq<Op>, i: nat)
    requires i + 1 < |ops| && f.Step(ops[0]).Some?
    ensures PreparedAt(f, ops, i + 1) <==> PreparedAt(f.Step(ops[0]).value, ops[1..], i)
  {
  }

  /** A history is legal exactly when every step that its run comes to is so prepared. */
  lemma {:induction false} LegalIff(f: Fifo, ops: seq<Op>)
    ensures |f.Run(ops)| <= |ops|
    ensures f.Legal(ops) <==> forall i :: 0 <= i < |f.Run(ops)| ==> PreparedAt(f, ops, i)
    decreases |ops|
  {
    if ops != [] && f.Step(ops[0]).Some? {
      var next, run := f.Step(ops[0]).value, f.Run(ops);
      LegalIff(next, ops[1..]);
      assert f.Legal(ops) <==> PreparedAt(f, ops, 0) && next.Legal(ops[1..]);
      forall i | 0 <= i < |run| - 1
        ensures PreparedAt(f, ops, i + 1) <==> PreparedAt(next, ops[1..], i)
      {
        PreparedLater(f, ops, i);
      }
      forall i | 0 < i < |run|
        ensures PreparedAt(f, ops, i) <==> PreparedAt(next, ops[1..], i - 1)
      {
        PreparedLater(f, ops, i - 1);
      }
    }
  }

  /** A run comes to an end state exactly when all its steps are there and the last one has not failed. */
  lemma {:induction false} FinalIff(f: Fifo, ops: seq<Op>)
    ensures |f.Run(ops)| <= |ops|
    ensures f.Final(ops).Some? <==> (|f.Run(ops)| == |ops| && (ops != [] ==> f.Run(ops)[|ops| - 1].Some?))
    decreases |ops|
  {
    if ops != [] && f.Step(ops[0]).Some? {
      FinalIff(f.Step(ops[0]).value, ops[1..]);
    }
  }
}
