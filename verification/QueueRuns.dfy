/**
  Whole runs of the byte queues. Each method performs a history of calls on a fresh queue and returns what a caller
  observes, step by step, up to the first length_error; its contract equates that with the run of the abstract queue.
 */
module QueueRuns {
  import opened Wrappers
  import opened BoundedFifo
  import opened Streambuf
  import opened DynamicBuffers
  import opened Buffers

  type Trace = seq<Option<seq<Byte>>>

  lemma RunUnfolds(f: Fifo, ops: seq<Op>, i: nat)
    requires i < |ops| && f.Legal(ops[i..])
    ensures f.Legal([ops[i]])
    ensures f.Step(ops[i]).None? ==> f.Run(ops[i..]) == [None]
    ensures f.Step(ops[i]).Some? ==>
              f.Run(ops[i..]) == [Some(f.Step(ops[i]).value.readable)] + f.Step(ops[i]).value.Run(ops[i + 1..])
              && f.Step(ops[i]).value.Legal(ops[i + 1..])
  {
    assert ops[i..][0] == ops[i] && ops[i..][1..] == ops[i + 1..];
  }

  /** The queue shows the same bytes as the abstract one, and `region` is its prepared output sequence. */
  ghost predicate ModelsStreambuf(q: Streambuf, f: Fifo, region: Buffer)
    reads q
  {
    && q.Valid() && q.maxSize == f.maxSize && q.Contents() == f.readable
    && (f.prepared.Some? ==> region == Buffer(q.pptr, f.prepared.value) && region.size <= q.epptr - q.pptr)
  }

  lemma FreshStreambuf(q: Streambuf, region: Buffer)
    requires q.Valid() && q.gptr == q.pptr
    ensures ModelsStreambuf(q, Fifo([], None, q.maxSize), region)
  {
    assert |q.Contents()| == 0;
  }

  /** One call on the queue. */
  method StepStreambuf(q: Streambuf, ghost f: Fifo, region: Buffer, op: Op) returns (ok: bool, next: Buffer)
    requires ModelsStreambuf(q, f, region) && f.Legal([op])
    modifies q
    ensures ok <==> f.Step(op).Some?
    ensures ok ==> ModelsStreambuf(q, f.Step(op).value, next)
  {
    ok, next := true, region;
    match op {
      case Prepare(n) =>
        var r := q.Prepare(n);
        ok := r.Some?;
        next := if ok then r.value else region;
      case Commit(data) =>
        q.Store(region, data);
        q.Commit(|data|);
      case Consume(n) =>
        q.Consume(n);
    }
  }

  /** The streambuf has two faces: the queue operations, and the stream operations `sputc` and `sbumpc`. */
  datatype StreamOp = Queue(op: Op) | Put(c: Byte) | Take

  function StreamStep(f: Fifo, op: StreamOp): Option<Fifo> {
    match op
    case Queue(op) => f.Step(op)
    case Put(c) => if |f.readable| < f.maxSize then Some(Fifo(f.readable + [c], None, f.maxSize)) else None
    case Take => Some(Fifo(f.readable[Min(1, |f.readable|)..], None, f.maxSize))
  }

  ghost predicate StreamLegal(f: Fifo, ops: seq<StreamOp>)
    decreases |ops|
  {
    ops != [] ==>
      && (ops[0].Queue? ==> f.Legal([ops[0].op]))
      && (StreamStep(f, ops[0]).Some? ==> StreamLegal(StreamStep(f, ops[0]).value, ops[1..]))
  }

  ghost function StreamTrace(f: Fifo, ops: seq<StreamOp>): Trace
    decreases |ops|
  {
    if ops == [] then []
    else
      match StreamStep(f, ops[0])
      case None => [None]
      case Some(next) => [Some(next.readable)] + StreamTrace(next, ops[1..])
  }

  lemma StreamUnfolds(f: Fifo, ops: seq<StreamOp>, i: nat)
    requires i < |ops| && StreamLegal(f, ops[i..])
    ensures ops[i].Queue? ==> f.Legal([ops[i].op])
    ensures var next := StreamStep(f, ops[i]);
            if next.None? then StreamTrace(f, ops[i..]) == [None]
            else StreamTrace(f, ops[i..]) == [Some(next.value.readable)] + StreamTrace(next.value, ops[i + 1..])
                 && StreamLegal(next.value, ops[i + 1..])
  {
    assert ops[i..][0] == ops[i] && ops[i..][1..] == ops[i + 1..];
  }

  method StreamCall(q: Streambuf, ghost f: Fifo, region: Buffer, op: StreamOp) returns (ok: bool, next: Buffer)
    requires ModelsStreambuf(q, f, region) && (op.Queue? ==> f.Legal([op.op]))
    modifies q
    ensures ok <==> StreamStep(f, op).Some?
    ensures ok ==> ModelsStreambuf(q, StreamStep(f, op).value, next)
  {
    ok, next := true, region;
    match op {
      case Queue(op) => ok, next := StepStreambuf(q, f, region, op);
      case Put(c) => ok := q.Put(c);
      case Take =>
        var c := q.Take();
        assert f.readable == [] ==> f.readable[0..] == f.readable;
    }
  }

  /** Any mixture of queue and stream operations is still one bounded queue. */
  method RunStream(maxSize: nat, ops: seq<StreamOp>) returns (trace: Trace)
    requires StreamLegal(Fifo([], None, maxSize), ops)
    ensures trace == StreamTrace(Fifo([], None, maxSize), ops)
  {
    var q := new Streambuf(maxSize);
    ghost var f := Fifo([], None, maxSize);
    var region := Buffer(0, 0);
    FreshStreambuf(q, region);
    trace := [];
    assert ops[0..] == ops;
    for i := 0 to |ops|
      invariant fresh(q) && ModelsStreambuf(q, f, region)
      invariant StreamLegal(f, ops[i..])
      invariant trace + StreamTrace(f, ops[i..]) == StreamTrace(Fifo([], None, maxSize), ops)
    {
      StreamUnfolds(f, ops, i);
      var ok, next := StreamCall(q, f, region, ops[i]);
      if !ok {
        return trace + [None];
      }
      region := next;
      f := StreamStep(f, ops[i]).value;
      Regrouped(trace, Some(f.readable), StreamTrace(f, ops[i + 1..]));
      trace := trace + [Some(q.Contents())];
    }
  }

  function Wrapped(ops: seq<Op>): (r: seq<StreamOp>)
    ensures |r| == |ops|
  {
    seq(|ops|, i requires 0 <= i < |ops| => Queue(ops[i]))
  }

  lemma {:induction false} WrappedRun(f: Fifo, ops: seq<Op>)
    requires f.Legal(ops)
    ensures StreamLegal(f, Wrapped(ops)) && StreamTrace(f, Wrapped(ops)) == f.Run(ops)
    decreases |ops|
  {
    if ops != [] {
      RunUnfolds(f, ops, 0);
      assert Wrapped(ops)[1..] == Wrapped(ops[1..]);
      assert ops[0..] == ops;
      if f.Step(ops[0]).Some? {
        WrappedRun(f.Step(ops[0]).value, ops[1..]);
      }
    }
  }

  /** `basic_streambuf`, which starts empty */
  method RunStreambuf(maxSize: nat, ops: seq<Op>) returns (trace: Trace)
    requires Fifo([], None, maxSize).Legal(ops)
    ensures trace == Fifo([], None, maxSize).Run(ops)
  {
    WrappedRun(Fifo([], None, maxSize), ops);
    trace := RunStream(maxSize, Wrapped(ops));
  }

  /**
    The queue shows the same bytes as the abstract one, and `region` is its prepared output sequence. The contents may
    exceed the maximum, but only once `prepare` has been used.
   */
  ghost predicate ModelsDynamic(q: DynamicBuffer, f: Fifo, region: Buffer)
    reads q, q.store
  {
    && q.Valid() && q.maxSize == f.maxSize && q.Contents() == f.readable
    && (q.size.None? ==> |f.readable| <= f.maxSize)
    && (f.prepared.Some? ==>
          q.size.Some? && region == Buffer(q.size.value, f.prepared.value) && region.Within(|q.store.bytes|))
  }

  method StepDynamic(q: DynamicBuffer, ghost f: Fifo, region: Buffer, op: Op) returns (ok: bool, next: Buffer)
    requires ModelsDynamic(q, f, region) && f.Legal([op])
    modifies q, q.store
    ensures ok <==> f.Step(op).Some?
    ensures ok ==> ModelsDynamic(q, f.Step(op).value, next)
  {
    ok, next := true, region;
    match op {
      case Prepare(n) =>
        var r := q.Prepare(n);
        ok := r.Some?;
        next := if ok then r.value else region;
      case Commit(data) =>
        q.Store(region, data);
        q.Commit(|data|);
      case Consume(n) =>
        q.Consume(n);
    }
  }

  method AllDynamic(q: DynamicBuffer, ghost start: Fifo, first: Buffer, ops: seq<Op>) returns (trace: Trace)
    requires ModelsDynamic(q, start, first) && start.Legal(ops)
    modifies q, q.store
    ensures trace == start.Run(ops)
  {
    ghost var f := start;
    var region := first;
    trace := [];
    assert ops[0..] == ops;
    for i := 0 to |ops|
      invariant ModelsDynamic(q, f, region)
      invariant f.Legal(ops[i..])
      invariant trace + f.Run(ops[i..]) == start.Run(ops)
    {
      RunUnfolds(f, ops, i);
      var ok, next := StepDynamic(q, f, region, ops[i]);
      if !ok {
        return trace + [None];
      }
      region := next;
      f := f.Step(ops[i]).value;
      Regrouped(trace, Some(f.readable), f.Run(ops[i + 1..]));
      trace := trace + [Some(q.Contents())];
    }
  }

  /** Either adapter, over a store with `initial` contents within the maximum */
  method RunDynamic(backing: Backing, initial: seq<Byte>, maxSize: nat, ops: seq<Op>) returns (trace: Trace)
    requires |initial| <= maxSize
    requires Fifo(initial, None, maxSize).Legal(ops)
    ensures trace == Fifo(initial, None, maxSize).Run(ops)
  {
    var store := new ByteStore(initial);
    var q := new DynamicBuffer(backing, store, maxSize);
    trace := AllDynamic(q, Fifo(initial, None, maxSize), Buffer(0, 0), ops);
  }

  /**
    `prepare(0)` takes the length uncapped, and always succeeds as the first call. From then on either adapter is the
    bounded queue with the initial contents, whatever their length: over the maximum, no `prepare` succeeds until enough
    is consumed.
   */
  method RunPrepared(backing: Backing, initial: seq<Byte>, maxSize: nat, ops: seq<Op>) returns (size: nat, trace: Trace)
    requires Fifo(initial, Some(0), maxSize).Legal(ops)
    ensures size == |initial|
    ensures trace == Fifo(initial, Some(0), maxSize).Run(ops)
  {
    var store := new ByteStore(initial);
    var q := new DynamicBuffer(backing, store, maxSize);
    var r := q.Prepare(0);
    size := q.Size();
    trace := AllDynamic(q, Fifo(initial, Some(0), maxSize), r.value, ops);
  }

  /** Three implementations, one queue: the same bytes readable after every step, and the same first failure. */
  method QueuesAgree(maxSize: nat, ops: seq<Op>) returns (streambuf: Trace, str: Trace, vector: Trace)
    requires Fifo([], None, maxSize).Legal(ops)
    ensures streambuf == str == vector == Fifo([], None, maxSize).Run(ops)
  {
    streambuf := RunStreambuf(maxSize, ops);
    str := RunDynamic(StringStore, [], maxSize, ops);
    vector := RunDynamic(VectorStore, [], maxSize, ops);
  }

  /** The DynamicBuffer_v2 operations, on plain contents */
  datatype Edit = Grow(n: nat) | Shrink(n: nat) | Write(pos: nat, data: seq<Byte>) | Erase(n: nat)

  function Edited(s: seq<Byte>, e: Edit, max: nat): Option<seq<Byte>> {
    match e
    case Grow(n) => if |s| + n <= max then Some(s + Zeros(n)) else None
    case Shrink(n) => Some(s[..Max(|s| - n, 0)])
    case Write(pos, data) =>
      var p := Min(pos, |s|);
      var k := Min(|data|, |s| - p);
      Some(s[..p] + data[..k] + s[p + k..])
    case Erase(n) => Some(s[Min(n, |s|)..])
  }

  ghost function Edits(s: seq<Byte>, edits: seq<Edit>, max: nat): Trace
    decreases |edits|
  {
    if edits == [] then []
    else
      match Edited(s, edits[0], max)
      case None => [None]
      case Some(next) => [Some(next)] + Edits(next, edits[1..], max)
  }

  lemma EditsUnfold(s: seq<Byte>, edits: seq<Edit>, i: nat, max: nat)
    requires i < |edits|
    ensures var next := Edited(s, edits[i], max);
            Edits(s, edits[i..], max) == if next.None? then [None] else [next] + Edits(next.value, edits[i + 1..], max)
  {
    assert edits[i..][0] == edits[i] && edits[i..][1..] == edits[i + 1..];
  }

  method WriteOnce(q: DynamicBuffer, pos: nat, data: seq<Byte>)
    requires |q.store.bytes| <= q.maxSize
    modifies q.store
    ensures Some(q.store.bytes) == Edited(old(q.store.bytes), Write(pos, data), q.maxSize)
  {
    ghost var p := Min(pos, |q.store.bytes|);
    ghost var k := Min(|data|, |q.store.bytes| - p);
    q.Write(pos, data);
    assert q.store.bytes == q.store.bytes[..p] + q.store.bytes[p..p + k] + q.store.bytes[p + k..];
  }

  method EditOnce(q: DynamicBuffer, e: Edit) returns (ok: bool)
    requires q.size == None && |q.store.bytes| <= q.maxSize
    modifies q, q.store
    ensures q.size == None && |q.store.bytes| <= q.maxSize
    ensures ok <==> Edited(old(q.store.bytes), e, q.maxSize).Some?
    ensures ok ==> q.store.bytes == Edited(old(q.store.bytes), e, q.maxSize).value
  {
    ok := true;
    match e {
      case Grow(n) => ok := q.Grow(n);
      case Shrink(n) => q.Shrink(n);
      case Write(pos, data) => WriteOnce(q, pos, data);
      case Erase(n) => q.Consume(n);
    }
  }

  /** Either adapter under DynamicBuffer_v2: plain edits of the contents, which stay within the maximum */
  method RunEdits(backing: Backing, initial: seq<Byte>, maxSize: nat, edits: seq<Edit>) returns (trace: Trace)
    requires |initial| <= maxSize
    ensures trace == Edits(initial, edits, maxSize)
    ensures forall i :: 0 <= i < |trace| && trace[i].Some? ==> |trace[i].value| <= maxSize
  {
    var store := new ByteStore(initial);
    var q := new DynamicBuffer(backing, store, maxSize);
    trace := [];
    assert edits[0..] == edits;
    for i := 0 to |edits|
      invariant fresh(q) && q.size == None && |store.bytes| <= maxSize
      invariant trace + Edits(store.bytes, edits[i..], maxSize) == Edits(initial, edits, maxSize)
      invariant forall k :: 0 <= k < |trace| && trace[k].Some? ==> |trace[k].value| <= maxSize
    {
      ghost var before := store.bytes;
      EditsUnfold(before, edits, i, maxSize);
      var ok := EditOnce(q, edits[i]);
      if !ok {
        assert Edits(before, edits[i..], maxSize) == [None];
        return trace + [None];
      }
      Regrouped(trace, Some(store.bytes), Edits(store.bytes, edits[i + 1..], maxSize));
      trace := trace + [Some(store.bytes)];
    }
  }

  /** From an initial length within the maximum, the two adapters cannot be told apart. */
  method EditsAgree(initial: seq<Byte>, maxSize: nat, edits: seq<Edit>) returns (str: Trace, vector: Trace)
    requires |initial| <= maxSize
    ensures str == vector == Edits(initial, edits, maxSize)
  {
    str := RunEdits(StringStore, initial, maxSize, edits);
    vector := RunEdits(VectorStore, initial, maxSize, edits);
  }

  /** Growing and then shrinking by the same amount restores the contents exactly when they were within the maximum. */
  method GrowThenShrink(backing: Backing, initial: seq<Byte>, maxSize: nat, n: nat) returns (ok: bool, after: seq<Byte>)
    ensures ok <==> n <= maxSize - Min(|initial|, maxSize)
    ensures ok ==> (after == initial <==> |initial| <= maxSize)
  {
    var store := new ByteStore(initial);
    var q := new DynamicBuffer(backing, store, maxSize);
    ok := q.Grow(n);
    if ok {
      q.Shrink(n);
    }
    after := store.bytes;
  }

  /** Before any `prepare`, the adapters consume alike exactly when the amount or the length is within the maximum. */
  method EraseBoth(initial: seq<Byte>, maxSize: nat, n: nat) returns (str: seq<Byte>, vector: seq<Byte>)
    ensures str == initial[Min(n, |initial|)..]
    ensures vector == initial[Min(n, Min(|initial|, maxSize))..]
    ensures str == vector <==> n <= maxSize || |initial| <= maxSize
  {
    var stringStore := new ByteStore(initial);
    var s := new DynamicBuffer(StringStore, stringStore, maxSize);
    s.Consume(n);
    str := stringStore.bytes;
    var vectorStore := new ByteStore(initial);
    var v := new DynamicBuffer(VectorStore, vectorStore, maxSize);
    v.Consume(n);
    vector := vectorStore.bytes;
    assert |str| == |initial| - Min(n, |initial|);
  }
}
