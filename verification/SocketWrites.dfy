/**
  Whole runs of writes to a socket stream buffer. What every call does, what was sent and what is pending are functions
  of the calls and the socket's answers; and from these it follows when bytes are sent twice.
 */
module SocketWrites {
  import opened Wrappers
  import opened SocketAnswers
  import opened SocketStreambuf

  datatype WriteOp = Put(c: Byte, rounds: seq<SendRound>) | Sync(rounds: seq<SendRound>) | Unbuffer

  /** A writer: the characters still to be sent, whether there is a put buffer, all that was sent, and all written. */
  datatype Writer = Writer(pending: seq<Byte>, buffered: bool, sent: seq<Byte>, written: seq<Byte>) {
    ghost predicate Fits() {
      |pending| <= BUFFER_SIZE && (!buffered ==> |pending| == 0)
    }

    /** What a call has to send before it completes. */
    function Due(op: WriteOp): seq<Byte> {
      match op
      case Put(c, _) => if !buffered then [c] else if |pending| < BUFFER_SIZE then [] else pending
      case Sync(_) => pending
      case Unbuffer => []
    }

    ghost predicate Completes(op: WriteOp) {
      if op.Unbuffer? then |pending| == 0 else |Due(op)| <= Offered(op.rounds)
    }

    ghost function OutcomeOf(op: WriteOp): Outcome {
      if Completes(op) then Done
      else if op.Unbuffer? || exists i :: 0 <= i < |op.rounds| && GivesUp(op.rounds[i]) then Failed
      else Waiting
    }

    /** The call is offered something, but not all that is due. */
    ghost predicate Repeats(op: WriteOp) {
      !op.Unbuffer? && 0 < Offered(op.rounds) < |Due(op)|
    }

    ghost function After(op: WriteOp): Writer {
      if Completes(op) then
        match op
        case Put(c, _) =>
          var kept := if !buffered then [] else if |pending| < BUFFER_SIZE then pending + [c] else [c];
          Writer(kept, buffered, sent + Due(op), written + [c])
        case Sync(_) => Writer([], buffered, sent + pending, written)
        case Unbuffer => Writer([], false, sent, written)
      else if op.Unbuffer? then this
      else this.(sent := sent + Due(op)[..Offered(op.rounds)])
    }

    /** What was sent, followed by what is still to be sent. */
    function Stream(): seq<Byte> {
      sent + pending
    }

    /** Pending are the last characters written. */
    ghost predicate Recent() {
      |pending| <= |written| && written[|written| - |pending|..] == pending
    }
  }

  /** A call that completes sends what is due, which is all that was pending and what it adds, but for what it keeps. */
  lemma CompleteCall(w: Writer, op: WriteOp)
    requires w.Fits() && w.Completes(op)
    ensures w.After(op).sent == w.sent + w.Due(op)
    ensures w.Due(op) + w.After(op).pending == w.pending + if op.Put? then [op.c] else []
  {
  }

  lemma Exchanged(front: seq<Byte>, due: seq<Byte>, kept: seq<Byte>, pending: seq<Byte>, added: seq<Byte>)
    requires due + kept == pending + added
    ensures front + due + kept == front + pending + added
  {
    assert front + due + kept == front + (due + kept);
  }

  lemma CompleteStream(w: Writer, op: WriteOp)
    requires w.Fits() && w.Completes(op)
    ensures w.After(op).Stream() == w.Stream() + if op.Put? then [op.c] else []
  {
    CompleteCall(w, op);
    Exchanged(w.sent, w.Due(op), w.After(op).pending, w.pending, if op.Put? then [op.c] else []);
  }

  /** A call that does not complete leaves all that is pending, but repeats what it has sent of it: a proper prefix. */
  lemma IncompleteCall(w: Writer, op: WriteOp)
    requires w.Fits() && !w.Completes(op)
    ensures !w.Repeats(op) ==> w.After(op) == w
    ensures w.Repeats(op) ==>
              Offered(op.rounds) < |w.pending|
              && w.After(op) == w.(sent := w.sent + w.pending[..Offered(op.rounds)])
  {
  }

  lemma TailGrows(written: seq<Byte>, pending: seq<Byte>, c: Byte)
    requires |pending| <= |written| && written[|written| - |pending|..] == pending
    ensures (written + [c])[|written| - |pending|..] == pending + [c]
    ensures (written + [c])[|written|..] == [c]
  {
  }

  lemma StaysRecent(w: Writer, op: WriteOp)
    requires w.Fits() && w.Recent()
    ensures w.After(op).Fits() && w.After(op).Recent()
  {
    if op.Put? {
      TailGrows(w.written, w.pending, op.c);
    }
  }

  /** Once more is in the stream than was written, that remains so; it comes to that when a call repeats. */
  lemma StreamStep(w: Writer, op: WriteOp)
    requires w.Fits()
    ensures var after := w.After(op);
            && (|w.Stream()| > |w.written| ==> |after.Stream()| > |after.written|)
            && (w.Stream() == w.written ==>
                  if w.Repeats(op) then |after.Stream()| > |after.written| else after.Stream() == after.written)
  {
    if w.Completes(op) { CompleteStream(w, op); } else { IncompleteCall(w, op); }
  }

  /** The writer before call `n`. */
  ghost function WriterAt(ops: seq<WriteOp>, n: nat): Writer
    requires n <= |ops|
  {
    if n == 0 then Writer([], true, [], []) else WriterAt(ops, n - 1).After(ops[n - 1])
  }

  ghost function OutcomeAt(ops: seq<WriteOp>, i: nat): Outcome
    requires i < |ops|
  {
    WriterAt(ops, i).OutcomeOf(ops[i])
  }

  ghost predicate RepeatsAt(ops: seq<WriteOp>, i: nat)
    requires i < |ops|
  {
    WriterAt(ops, i).Repeats(ops[i])
  }

  ghost predicate SoundAt(ops: seq<WriteOp>, n: nat)
    requires n <= |ops|
  {
    WriterAt(ops, n).Stream() == WriterAt(ops, n).written
  }

  ghost predicate SurplusAt(ops: seq<WriteOp>, n: nat)
    requires n <= |ops|
  {
    |WriterAt(ops, n).Stream()| > |WriterAt(ops, n).written|
  }

  lemma {:induction false} RecentAt(ops: seq<WriteOp>, n: nat)
    requires n <= |ops|
    ensures WriterAt(ops, n).Fits() && WriterAt(ops, n).Recent() && |WriterAt(ops, n).pending| <= 512
  {
    if n > 0 {
      RecentAt(ops, n - 1);
      StaysRecent(WriterAt(ops, n - 1), ops[n - 1]);
    }
  }

  lemma StreamStepAt(ops: seq<WriteOp>, i: nat)
    requires i < |ops|
    ensures SurplusAt(ops, i) ==> SurplusAt(ops, i + 1)
    ensures SoundAt(ops, i) ==> if RepeatsAt(ops, i) then SurplusAt(ops, i + 1) else SoundAt(ops, i + 1)
  {
    RecentAt(ops, i);
    StreamStep(WriterAt(ops, i), ops[i]);
  }

  ghost predicate NoneRepeats(ops: seq<WriteOp>, n: nat)
    requires n <= |ops|
  {
    n == 0 || (NoneRepeats(ops, n - 1) && !RepeatsAt(ops, n - 1))
  }

  lemma {:induction false} NoneRepeatsIff(ops: seq<WriteOp>, n: nat)
    requires n <= |ops|
    ensures NoneRepeats(ops, n) <==> forall i :: 0 <= i < n ==> !RepeatsAt(ops, i)
  {
    if n > 0 {
      NoneRepeatsIff(ops, n - 1);
    }
  }

  lemma {:induction false} SoundWhile(ops: seq<WriteOp>, n: nat)
    requires n <= |ops|
    ensures if NoneRepeats(ops, n) then SoundAt(ops, n) else SurplusAt(ops, n)
  {
    if n > 0 {
      SoundWhile(ops, n - 1);
      StreamStepAt(ops, n - 1);
    }
  }

  /**
    What was sent followed by what is pending is what was written, in order, exactly when no call was offered something,
    but not all that was due.
   */
  lemma Conserved(ops: seq<WriteOp>, n: nat)
    requires n <= |ops|
    ensures SoundAt(ops, n) <==> forall i :: 0 <= i < n ==> !RepeatsAt(ops, i)
  {
    SoundWhile(ops, n);
    NoneRepeatsIff(ops, n);
  }

  /** What the calls that completed have sent; the others among the first `n` have sent what was to be sent again. */
  ghost function Settled(ops: seq<WriteOp>, n: nat): seq<Byte>
    requires n <= |ops|
  {
    if n == 0 then []
    else
      var w, op := WriterAt(ops, n - 1), ops[n - 1];
      Settled(ops, n - 1) + if w.Completes(op) then w.Due(op) else []
  }

  lemma SettledGrows(settled: seq<Byte>, w: Writer, op: WriteOp)
    requires w.Fits() && settled + w.pending == w.written
    ensures settled + (if w.Completes(op) then w.Due(op) else []) + w.After(op).pending == w.After(op).written
  {
    if w.Completes(op) {
      CompleteCall(w, op);
      Exchanged(settled, w.Due(op), w.After(op).pending, w.pending, if op.Put? then [op.c] else []);
    } else {
      IncompleteCall(w, op);
      assert settled + [] == settled;
    }
  }

  /** In every history: but for the calls that did not complete, what was sent and what is pending is what was written. */
  lemma {:induction false} SettledConserved(ops: seq<WriteOp>, n: nat)
    requires n <= |ops|
    ensures Settled(ops, n) + WriterAt(ops, n).pending == WriterAt(ops, n).written
  {
    if n > 0 {
      SettledConserved(ops, n - 1);
      RecentAt(ops, n - 1);
      SettledGrows(Settled(ops, n - 1), WriterAt(ops, n - 1), ops[n - 1]);
    }
  }

  /** The object is where the answers so far put it. */
  ghost predicate Tracks(s: SocketStreambuf, w: Writer)
    reads s, s.putBuffer, s.getBuffer, s.socket
  {
    && s.Valid()
    && w.Fits()
    && s.socket.accepted == w.sent
    && s.Pending() == w.pending
    && (s.putBuffer.Length == 0 <==> !w.buffered)
  }

  method PutStep(s: SocketStreambuf, ghost w: Writer, op: WriteOp) returns (outcome: Outcome)
    requires op.Put? && Tracks(s, w)
    modifies s, s.putBuffer, s.socket
    ensures s.putBuffer == old(s.putBuffer)
    ensures Tracks(s, w.After(op)) && outcome == w.OutcomeOf(op)
  {
    FlushSends(|w.Due(op)|, op.rounds, s.ec);
    var sent;
    outcome, sent := s.Put(op.c, op.rounds);
  }

  method SyncStep(s: SocketStreambuf, ghost w: Writer, op: WriteOp) returns (outcome: Outcome)
    requires op.Sync? && Tracks(s, w)
    modifies s, s.putBuffer, s.socket
    ensures s.putBuffer == old(s.putBuffer)
    ensures Tracks(s, w.After(op)) && outcome == w.OutcomeOf(op)
  {
    FlushSends(|w.pending|, op.rounds, s.ec);
    var sent;
    outcome, sent := s.Sync(op.rounds);
  }

  method WriteStep(s: SocketStreambuf, ghost w: Writer, op: WriteOp) returns (outcome: Outcome)
    requires Tracks(s, w)
    modifies s, s.putBuffer, s.socket
    ensures fresh(s.putBuffer) || s.putBuffer == old(s.putBuffer)
    ensures Tracks(s, w.After(op)) && outcome == w.OutcomeOf(op)
  {
    match op
    case Put(_, _) => outcome := PutStep(s, w, op);
    case Sync(_) => outcome := SyncStep(s, w, op);
    case Unbuffer =>
      var ok := s.Unbuffer();
      outcome := if ok then Done else Failed;
  }

  method WriteNext(s: SocketStreambuf, ops: seq<WriteOp>, i: nat) returns (outcome: Outcome)
    requires i < |ops| && Tracks(s, WriterAt(ops, i))
    modifies s, s.putBuffer, s.socket
    ensures fresh(s.putBuffer) || s.putBuffer == old(s.putBuffer)
    ensures Tracks(s, WriterAt(ops, i + 1)) && outcome == OutcomeAt(ops, i)
  {
    outcome := WriteStep(s, WriterAt(ops, i), ops[i]);
  }

  ghost predicate Observed(ops: seq<WriteOp>, outcomes: seq<Outcome>) {
    |outcomes| <= |ops| && forall i :: 0 <= i < |outcomes| ==> outcomes[i] == OutcomeAt(ops, i)
  }

  lemma ObservedNext(ops: seq<WriteOp>, outcomes: seq<Outcome>)
    requires Observed(ops, outcomes) && |outcomes| < |ops|
    ensures Observed(ops, outcomes + [OutcomeAt(ops, |outcomes|)])
  {
  }

  /** The last call, and no other, is still waiting. */
  predicate Stuck(outcomes: seq<Outcome>) {
    outcomes != [] && outcomes[|outcomes| - 1] == Waiting && Waiting !in outcomes[..|outcomes| - 1]
  }

  method WriteAll(s: SocketStreambuf, ops: seq<WriteOp>) returns (outcomes: seq<Outcome>)
    requires Tracks(s, Writer([], true, [], []))
    modifies s, s.putBuffer, s.socket
    ensures Observed(ops, outcomes) && Tracks(s, WriterAt(ops, |outcomes|))
    ensures |outcomes| < |ops| || Waiting in outcomes ==> Stuck(outcomes)
  {
    outcomes := [];
    for i := 0 to |ops|
      invariant fresh(s.putBuffer) || s.putBuffer == old(s.putBuffer)
      invariant Tracks(s, WriterAt(ops, i))
      invariant |outcomes| == i && Observed(ops, outcomes) && Waiting !in outcomes
    {
      var outcome := WriteNext(s, ops, i);
      ObservedNext(ops, outcomes);
      outcomes := outcomes + [outcome];
      if outcome == Waiting {
        return;
      }
    }
  }

  /**
    Any run of writes, flushes and attempts to drop the put buffer, with any answers of the socket, up to the first
    call that is still waiting.
   */
  method WriteRun(ops: seq<WriteOp>) returns (accepted: seq<Byte>, pending: seq<Byte>, outcomes: seq<Outcome>)
    ensures Observed(ops, outcomes)
    ensures |outcomes| < |ops| || Waiting in outcomes ==> Stuck(outcomes)
    ensures var w := WriterAt(ops, |outcomes|);
            && accepted == w.sent && pending == w.pending && w.Recent()
            && (accepted + pending == w.written <==> forall i :: 0 <= i < |outcomes| ==> !RepeatsAt(ops, i))
  {
    var s := new SocketStreambuf();
    outcomes := WriteAll(s, ops);
    accepted, pending := s.socket.accepted, s.Pending();
    RecentAt(ops, |outcomes|);
    Conserved(ops, |outcomes|);
    assert SoundAt(ops, |outcomes|) <==> accepted + pending == WriterAt(ops, |outcomes|).written;
  }

  /** A flush that the socket ends half way: it takes one byte, then answers with an error. */
  const BREAKING: seq<SendRound> :=
    [SendRound(false, 1, Success, true, Success), SendRound(false, -1, Other(32), true, Success)]

  const TAKING: seq<SendRound> := [SendRound(false, 2, Success, true, Success)]

  lemma BreakingAnswers()
    ensures Offered(BREAKING) == 1 && GivesUp(BREAKING[1]) && Offered(TAKING) == 2
  {
    assert BREAKING[1..] == [BREAKING[1]];
    assert TAKING[1..] == [];
  }

  predicate BreakingOps(ops: seq<WriteOp>) {
    |ops| == 4 && ops[0] == Put(1, []) && ops[1] == Put(2, []) && ops[2] == Sync(BREAKING) && ops[3] == Sync(TAKING)
  }

  lemma BreakingWriters(ops: seq<WriteOp>)
    requires BreakingOps(ops)
    ensures OutcomeAt(ops, 0) == OutcomeAt(ops, 1) == OutcomeAt(ops, 3) == Done && OutcomeAt(ops, 2) == Failed
    ensures WriterAt(ops, 4) == Writer([], true, [1, 1, 2], [1, 2])
  {
    BreakingAnswers();
    assert WriterAt(ops, 1) == Writer([1], true, [], [1]);
    assert WriterAt(ops, 2) == Writer([1, 2], true, [], [1, 2]);
    assert WriterAt(ops, 3) == Writer([1, 2], true, [1], [1, 2]);
  }

  /** A failed flush forgets its progress: 1 and 2 are written, the flush breaks after 1, and the next one sends both. */
  method FailedFlushRepeats() returns (accepted: seq<Byte>, pending: seq<Byte>, outcomes: seq<Outcome>)
    ensures accepted == [1, 1, 2] && pending == []
    ensures outcomes == [Done, Done, Failed, Done]
  {
    var ops := [Put(1, []), Put(2, []), Sync(BREAKING), Sync(TAKING)];
    BreakingWriters(ops);
    accepted, pending, outcomes := WriteRun(ops);
  }
}
