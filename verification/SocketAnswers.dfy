/**
  What the clock, `send`, `recv` and `poll` answer to a socket stream buffer, one round of its loops each, and what
  becomes of a flush or a refill under a list of answers. A call whose list ends before it returns is still waiting.
 */
module SocketAnswers {
  import opened Wrappers

  datatype ErrorCode = Success | TimedOut | Eof | WouldBlock | TryAgain | Other(code: int)

  /** One round: has the expiry time passed; what did `send` or `recv` answer; was the poll then successful. */
  datatype SendRound = SendRound(expired: bool, bytes: int, ec: ErrorCode, ready: bool, pollEc: ErrorCode)
  datatype RecvRound = RecvRound(expired: bool, answer: RecvAnswer, ready: bool, pollEc: ErrorCode)
  datatype RecvAnswer = Data(bytes: seq<Byte>) | RecvError(ec: ErrorCode)

  datatype Outcome = Done | Failed | Waiting

  predicate Retriable(ec: ErrorCode) {
    ec == WouldBlock || ec == TryAgain
  }

  datatype Flushed = Flushed(outcome: Outcome, sent: nat, ec: ErrorCode)

  /** How the answers decide the flush of `n` bytes, `ec` being the error so far. */
  ghost function FlushOf(n: nat, rounds: seq<SendRound>, ec: ErrorCode): Flushed {
    if n == 0 then Flushed(Done, 0, ec)
    else if rounds == [] then Flushed(Waiting, 0, ec)
    else if rounds[0].expired then Flushed(Failed, 0, TimedOut)
    else if rounds[0].bytes > 0 then
      var k := Min(rounds[0].bytes, n);
      var rest := FlushOf(n - k, rounds[1..], rounds[0].ec);
      rest.(sent := k + rest.sent)
    else if !Retriable(rounds[0].ec) then Flushed(Failed, 0, rounds[0].ec)
    else if !rounds[0].ready then Flushed(Failed, 0, rounds[0].pollEc)
    else FlushOf(n, rounds[1..], rounds[0].pollEc)
  }

  /** The error of a round after which a flush gives up; None if it goes on. */
  function Broken(round: SendRound): Option<ErrorCode> {
    if round.expired then Some(TimedOut)
    else if round.bytes > 0 then None
    else if round.ec != WouldBlock && round.ec != TryAgain then Some(round.ec)
    else if round.ready then None
    else Some(round.pollEc)
  }

  predicate GivesUp(round: SendRound) {
    Broken(round).Some?
  }

  predicate Takes(round: SendRound) {
    !round.expired && round.bytes > 0
  }

  /** How many bytes the rounds would take before the first one that gives up. */
  ghost function Offered(rounds: seq<SendRound>): nat {
    if rounds == [] || GivesUp(rounds[0]) then 0 else Max(rounds[0].bytes, 0) + Offered(rounds[1..])
  }

  /**
    A flush sends what is offered, up to what there is to send. It is complete when that is everything; otherwise it
    has failed if some round gives up, and is still waiting if none does.
   */
  lemma {:induction false} FlushSends(n: nat, rounds: seq<SendRound>, ec: ErrorCode)
    ensures FlushOf(n, rounds, ec).sent == Min(n, Offered(rounds))
    ensures FlushOf(n, rounds, ec).outcome == Done <==> n <= Offered(rounds)
    ensures FlushOf(n, rounds, ec).outcome == Failed
            <==> n > Offered(rounds) && exists i :: 0 <= i < |rounds| && GivesUp(rounds[i])
    decreases |rounds|
  {
    if n > 0 && rounds != [] {
      if GivesUp(rounds[0]) {
      } else if rounds[0].bytes > 0 {
        FlushSends(n - Min(rounds[0].bytes, n), rounds[1..], rounds[0].ec);
      } else {
        FlushSends(n, rounds[1..], rounds[0].pollEc);
      }
      assert forall i :: 0 < i < |rounds| ==> rounds[i] == rounds[1..][i - 1];
    }
  }

  /** What the first round does to a flush: what it takes is sent, would-block and try-again are polled, all else fails. */
  lemma FlushFirstRound(n: nat, r: SendRound, rest: seq<SendRound>, ec: ErrorCode)
    requires n > 0
    ensures var f := FlushOf(n, [r] + rest, ec);
            && (r.expired ==> f == Flushed(Failed, 0, TimedOut))
            && (!r.expired && r.bytes >= n ==> f == Flushed(Done, n, r.ec))
            && (!r.expired && 0 < r.bytes < n ==>
                  var more := FlushOf(n - r.bytes, rest, r.ec);
                  f == Flushed(more.outcome, r.bytes + more.sent, more.ec))
            && (!r.expired && r.bytes <= 0 && (r.ec == WouldBlock || r.ec == TryAgain) ==>
                  f == if r.ready then FlushOf(n, rest, r.pollEc) else Flushed(Failed, 0, r.pollEc))
            && (!r.expired && r.bytes <= 0 && r.ec != WouldBlock && r.ec != TryAgain ==>
                  f == Flushed(Failed, 0, r.ec))
  {
    assert ([r] + rest)[1..] == rest;
  }

  /** The error that a round leaves when the flush goes on after it. */
  function Left(round: SendRound): ErrorCode {
    if round.bytes > 0 then round.ec else round.pollEc
  }

  /** The first round to give up is `i`. */
  ghost predicate GivesUpAt(rounds: seq<SendRound>, i: nat) {
    i < |rounds| && GivesUp(rounds[i]) && forall j :: 0 <= j < i ==> !GivesUp(rounds[j])
  }

  /** The flush of `n` bytes is complete with round `i`. */
  ghost predicate CompleteAt(n: nat, rounds: seq<SendRound>, i: nat) {
    i < |rounds| && Takes(rounds[i]) && Offered(rounds[..i]) < n <= Offered(rounds[..i + 1])
  }

  lemma OfferedFirst(rounds: seq<SendRound>, i: nat)
    requires 0 < i <= |rounds| && !GivesUp(rounds[0])
    ensures Offered(rounds[..i]) == Max(rounds[0].bytes, 0) + Offered(rounds[1..][..i - 1])
  {
    assert rounds[..i][1..] == rounds[1..][..i - 1];
  }

  lemma CompleteLater(n: nat, rounds: seq<SendRound>, i: nat)
    requires rounds != [] && !GivesUp(rounds[0]) && n > Max(rounds[0].bytes, 0)
    requires CompleteAt(n - Max(rounds[0].bytes, 0), rounds[1..], i)
    ensures CompleteAt(n, rounds, i + 1)
  {
    OfferedFirst(rounds, i + 1);
    OfferedFirst(rounds, i + 2);
  }

  lemma CompleteFirst(n: nat, rounds: seq<SendRound>)
    requires rounds != [] && Takes(rounds[0]) && 0 < n <= rounds[0].bytes
    ensures CompleteAt(n, rounds, 0)
  {
    OfferedFirst(rounds, 1);
  }

  /**
    The error that a flush ends with: that of the first round to give up if it has failed, that of the round that takes
    the last byte if it is complete, and what the last round left if it is waiting.
   */
  lemma {:induction false} FlushError(n: nat, rounds: seq<SendRound>, ec: ErrorCode)
    requires n > 0
    ensures var f := FlushOf(n, rounds, ec);
            match f.outcome
            case Failed => exists i: nat :: GivesUpAt(rounds, i) && Some(f.ec) == Broken(rounds[i])
            case Done => exists i: nat :: CompleteAt(n, rounds, i) && f.ec == rounds[i].ec
            case Waiting => f.ec == if rounds == [] then ec else Left(rounds[|rounds| - 1])
    decreases |rounds|
  {
    if rounds != [] {
      var taken, rest, f := Max(rounds[0].bytes, 0), rounds[1..], FlushOf(n, rounds, ec);
      if GivesUp(rounds[0]) {
        assert GivesUpAt(rounds, 0);
      } else if n <= taken {
        CompleteFirst(n, rounds);
      } else {
        FlushError(n - taken, rest, Left(rounds[0]));
        match f.outcome {
          case Failed =>
            var i: nat :| GivesUpAt(rest, i) && Some(f.ec) == Broken(rest[i]);
            assert forall j :: 0 < j < |rounds| ==> rounds[j] == rest[j - 1];
            assert GivesUpAt(rounds, i + 1);
          case Done =>
            var i: nat :| CompleteAt(n - taken, rest, i) && f.ec == rest[i].ec;
            CompleteLater(n, rounds, i);
          case Waiting =>
        }
      }
    }
  }

  /** Something is offered exactly when a round takes bytes and none before it gives up. */
  lemma {:induction false} OfferedSome(rounds: seq<SendRound>)
    ensures Offered(rounds) > 0
            <==> exists i :: 0 <= i < |rounds| && Takes(rounds[i]) && forall j :: 0 <= j < i ==> !GivesUp(rounds[j])
  {
    if rounds != [] && !GivesUp(rounds[0]) && !Takes(rounds[0]) {
      OfferedSome(rounds[1..]);
      assert forall i :: 0 < i < |rounds| ==> rounds[i] == rounds[1..][i - 1];
    }
  }

  datatype Refilled = Chunk(bytes: seq<Byte>, ec: ErrorCode) | Nothing(outcome: Outcome, ec: ErrorCode)

  /** How the answers decide a refill with room for `room` bytes. */
  ghost function RefillOf(room: nat, rounds: seq<RecvRound>, ec: ErrorCode): Refilled {
    if rounds == [] then Nothing(Waiting, ec)
    else if rounds[0].expired then Nothing(Failed, TimedOut)
    else
      match rounds[0].answer
      case Data(bytes) =>
        if bytes == [] then Nothing(Failed, Eof) else Chunk(bytes[..Min(room, |bytes|)], Success)
      case RecvError(error) =>
        if !Retriable(error) then Nothing(Failed, error)
        else if !rounds[0].ready then Nothing(Failed, rounds[0].pollEc)
        else RefillOf(room, rounds[1..], rounds[0].pollEc)
  }

  /** A round after which a refill tries again. */
  predicate Retries(round: RecvRound) {
    && !round.expired && round.answer.RecvError? && round.ready
    && (round.answer.ec == WouldBlock || round.answer.ec == TryAgain)
  }

  /** The bytes of the first round that does not try again; none if it failed, or if there is no such round. */
  ghost function Arrival(room: nat, rounds: seq<RecvRound>): (r: seq<Byte>)
    ensures |r| <= room
  {
    if rounds == [] then []
    else if Retries(rounds[0]) then Arrival(room, rounds[1..])
    else if !rounds[0].expired && rounds[0].answer.Data? then
      rounds[0].answer.bytes[..Min(room, |rounds[0].answer.bytes|)]
    else []
  }

  /** A refill gets what arrives; if that is nothing, it waits when every round tries again, and has failed otherwise. */
  lemma {:induction false} RefillGets(room: nat, rounds: seq<RecvRound>, ec: ErrorCode)
    requires room > 0
    ensures var r := RefillOf(room, rounds, ec);
            if Arrival(room, rounds) != [] then r.Chunk? && r.bytes == Arrival(room, rounds)
            else r.Nothing? && r.outcome == if forall i :: 0 <= i < |rounds| ==> Retries(rounds[i]) then Waiting else Failed
    decreases |rounds|
  {
    if rounds != [] && Retries(rounds[0]) {
      RefillGets(room, rounds[1..], rounds[0].pollEc);
      assert forall i :: 0 < i < |rounds| ==> rounds[i] == rounds[1..][i - 1];
    }
  }

  /** What the first round does to a refill: would-block and try-again are polled, and anything else ends it. */
  lemma RefillFirstRound(room: nat, r: RecvRound, rest: seq<RecvRound>, ec: ErrorCode)
    ensures var f := RefillOf(room, [r] + rest, ec);
            if r.expired then f == Nothing(Failed, TimedOut)
            else
              match r.answer
              case Data(bytes) =>
                if |bytes| == 0 then f == Nothing(Failed, Eof)
                else f.Chunk? && f.ec == Success && f.bytes <= bytes && |f.bytes| == Min(room, |bytes|)
              case RecvError(error) =>
                && (error == WouldBlock || error == TryAgain ==>
                      f == if r.ready then RefillOf(room, rest, r.pollEc) else Nothing(Failed, r.pollEc))
                && (error != WouldBlock && error != TryAgain ==> f == Nothing(Failed, error))
  {
    assert ([r] + rest)[1..] == rest;
  }

  /** The error of a round that ends a refill without a chunk. */
  function BrokenRefill(round: RecvRound): ErrorCode {
    if round.expired then TimedOut
    else
      match round.answer
      case Data(_) => Eof
      case RecvError(error) => if error == WouldBlock || error == TryAgain then round.pollEc else error
  }

  /** The first round that does not try again is `i`. */
  ghost predicate EndsAt(rounds: seq<RecvRound>, i: nat) {
    i < |rounds| && !Retries(rounds[i]) && forall j :: 0 <= j < i ==> Retries(rounds[j])
  }

  /**
    The error that a refill ends with: none with a chunk, that of the first round that does not try again if it has
    failed, and that of the last poll if it is waiting.
   */
  lemma {:induction false} RefillError(room: nat, rounds: seq<RecvRound>, ec: ErrorCode)
    ensures var f := RefillOf(room, rounds, ec);
            match f
            case Chunk(_, error) => error == Success
            case Nothing(outcome, error) =>
              && outcome != Done
              && (outcome == Failed ==> exists i: nat :: EndsAt(rounds, i) && error == BrokenRefill(rounds[i]))
              && (outcome == Waiting ==> error == if rounds == [] then ec else rounds[|rounds| - 1].pollEc)
    decreases |rounds|
  {
    if rounds != [] {
      if Retries(rounds[0]) {
        var rest, f := rounds[1..], RefillOf(room, rounds, ec);
        RefillError(room, rest, rounds[0].pollEc);
        if f.Nothing? && f.outcome == Failed {
          var i: nat :| EndsAt(rest, i) && f.ec == BrokenRefill(rest[i]);
          assert forall j :: 0 < j < |rounds| ==> rounds[j] == rest[j - 1];
          assert EndsAt(rounds, i + 1);
        }
      } else {
        assert EndsAt(rounds, 0);
      }
    }
  }
}
