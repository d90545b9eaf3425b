/**
  `basic_socket_streambuf` (include/asio/basic_socket_streambuf.hpp): a stream buffer that flushes to and refills from a
  socket. Each call is given the answers of the clock and the socket to its loop rounds.
 */
module SocketStreambuf {
  import opened Wrappers
  import opened SocketAnswers

  const BUFFER_SIZE: nat := 512
  const PUTBACK_MAX: nat := 8

  /** The native socket, with the record of what passed through it. */
  class Socket {
    var accepted: seq<Byte>
    var delivered: seq<Byte>

    constructor ()
      ensures accepted == [] && delivered == []
    {
      accepted, delivered := [], [];
    }

    /** `socket_ops::send`: takes a prefix of the data, or answers zero or less. */
    method Send(data: seq<Byte>, round: SendRound) returns (bytes: int)
      modifies `accepted
      ensures bytes == Min(round.bytes, |data|)
      ensures accepted == old(accepted) + data[..Max(bytes, 0)]
    {
      bytes := Min(round.bytes, |data|);
      accepted := accepted + data[..Max(bytes, 0)];
    }

    /** `socket_ops::recv`: delivers at most `room` bytes; an empty answer is the end of the stream. */
    method Recv(room: nat, answer: RecvAnswer) returns (chunk: seq<Byte>)
      requires answer.Data?
      modifies `delivered
      ensures chunk == answer.bytes[..Min(room, |answer.bytes|)]
      ensures delivered == old(delivered) + chunk
    {
      chunk := answer.bytes[..Min(room, |answer.bytes|)];
      delivered := delivered + chunk;
    }
  }

  lemma FirstOf(a: array<Byte>, lo: nat, hi: nat)
    requires lo < hi <= a.Length
    ensures a[lo..hi] == [a[lo]] + a[lo + 1..hi]
  {
  }

  class SocketStreambuf {
    const socket: Socket
    const getBuffer: array<Byte>
    var putBuffer: array<Byte>
    // Offsets into the two buffers; eback and pbase are always 0.
    var gptr: nat
    var egptr: nat
    var pptr: nat
    var epptr: nat
    var ec: ErrorCode

    ghost predicate Valid()
      reads this, getBuffer, putBuffer, socket
    {
      && getBuffer.Length == BUFFER_SIZE && getBuffer != putBuffer
      && (putBuffer.Length == 0 || putBuffer.Length == BUFFER_SIZE)
      && pptr <= epptr == putBuffer.Length
      && gptr <= egptr && PUTBACK_MAX <= egptr <= BUFFER_SIZE
      // nothing is ever put into the put-back area
      && (forall k :: 0 <= k < PUTBACK_MAX ==> getBuffer[k] == 0)
      // the bytes of the last refill are the last ones delivered
      && egptr - PUTBACK_MAX <= |socket.delivered|
      && getBuffer[PUTBACK_MAX..egptr] == socket.delivered[|socket.delivered| - (egptr - PUTBACK_MAX)..]
    }

    /** Written characters that are still to be sent. */
    function Pending(): seq<Byte>
      requires Valid()
      reads this, getBuffer, putBuffer, socket
    {
      putBuffer[..pptr]
    }

    /** The get area */
    function Window(): seq<Byte>
      requires Valid()
      reads this, getBuffer, putBuffer, socket
    {
      getBuffer[gptr..egptr]
    }

    constructor ()
      ensures Valid() && fresh(socket) && fresh(getBuffer) && fresh(putBuffer)
      ensures pptr == 0 && gptr == egptr == 8 && putBuffer.Length == getBuffer.Length == 512
      ensures socket.accepted == [] && socket.delivered == [] && ec == Success
    {
      socket := new Socket();
      getBuffer := new Byte[BUFFER_SIZE](_ => 0);
      putBuffer := new Byte[BUFFER_SIZE](_ => 0);
      gptr, egptr, pptr, epptr := PUTBACK_MAX, PUTBACK_MAX, 0, BUFFER_SIZE;
      ec := Success;
    }

    /** What `overflow(c)` has to send: the character itself when there is no put buffer. */
    function ToSend(c: Option<Byte>): seq<Byte>
      requires Valid()
      reads this, getBuffer, putBuffer, socket
    {
      if putBuffer.Length == 0 then (if c.Some? then [c.value] else []) else Pending()
    }

    /** The flush loop of `overflow` */
    method Flush(output: seq<Byte>, rounds: seq<SendRound>) returns (outcome: Outcome, sent: nat)
      modifies socket`accepted, `ec
      ensures sent <= |output|
      ensures socket.accepted == old(socket.accepted) + output[..sent]
      ensures outcome == Done <==> sent == |output|
      ensures FlushOf(|output|, rounds, old(ec)) == Flushed(outcome, sent, ec)
    {
      sent := 0;
      var i := 0;
      while sent < |output|
        invariant i <= |rounds| && sent <= |output|
        invariant socket.accepted == old(socket.accepted) + output[..sent]
        invariant var rest := FlushOf(|output| - sent, rounds[i..], ec);
                  FlushOf(|output|, rounds, old(ec)) == rest.(sent := sent + rest.sent)
        decreases |rounds| - i
      {
        if i == |rounds| {
          return Waiting, sent;
        }
        var round := rounds[i];
        assert rounds[i..][0] == round && rounds[i..][1..] == rounds[i + 1..];
        i := i + 1;

        if round.expired {
          ec := TimedOut;
          return Failed, sent;
        }

        var bytes := socket.Send(output[sent..], round);
        ec := round.ec;
        assert output[..sent] + output[sent..][..Max(bytes, 0)] == output[..sent + Max(bytes, 0)];

        if bytes > 0 {
          sent := sent + bytes;
          continue;
        }

        if !Retriable(ec) {
          return Failed, sent;
        }

        ec := round.pollEc;
        if !round.ready {
          return Failed, sent;
        }
      }
      outcome := Done;
    }

    /** `overflow(c)`; None is eof. `sent` counts the bytes that the socket took. */
    method Overflow(c: Option<Byte>, rounds: seq<SendRound>) returns (outcome: Outcome, sent: nat)
      requires Valid()
      modifies this`pptr, this`epptr, this`ec, putBuffer, socket`accepted
      ensures Valid() && sent <= |old(ToSend(c))|
      ensures socket.accepted == old(socket.accepted) + old(ToSend(c))[..sent]
      ensures outcome == Done <==> sent == |old(ToSend(c))|
      ensures outcome == Done && putBuffer.Length > 0 ==> Pending() == if c.Some? then [c.value] else []
      ensures outcome != Done || putBuffer.Length == 0 ==> Pending() == old(Pending())
      ensures FlushOf(|old(ToSend(c))|, rounds, old(ec)) == Flushed(outcome, sent, ec)
    {
      var output: seq<Byte>;
      if putBuffer.Length == 0 {
        if c.None? {
          return Done, 0;
        }
        output := [c.value];
      } else {
        output := putBuffer[..pptr];
      }

      outcome, sent := Flush(output, rounds);
      if outcome != Done {
        return;
      }

      if putBuffer.Length > 0 {
        pptr, epptr := 0, putBuffer.Length;
        if c.None? {
          return;
        }
        putBuffer[pptr] := c.value;
        pptr := pptr + 1;
      }
    }

    method Sync(rounds: seq<SendRound>) returns (outcome: Outcome, sent: nat)
      requires Valid()
      modifies this`pptr, this`epptr, this`ec, putBuffer, socket`accepted
      ensures Valid() && sent <= |old(Pending())|
      ensures socket.accepted == old(socket.accepted) + old(Pending())[..sent]
      ensures outcome == Done <==> sent == |old(Pending())|
      ensures Pending() == if outcome == Done then [] else old(Pending())
      ensures FlushOf(|old(Pending())|, rounds, old(ec)) == Flushed(outcome, sent, ec)
    {
      outcome, sent := Overflow(None, rounds);
    }

    /** `sputc`: stores into the put area, or overflows when there is no room. */
    method Put(c: Byte, rounds: seq<SendRound>) returns (outcome: Outcome, sent: nat)
      requires Valid()
      modifies this`pptr, this`epptr, this`ec, putBuffer, socket`accepted
      ensures Valid()
      ensures old(pptr < epptr) ==> outcome == Done && sent == 0 && ec == old(ec)
      ensures old(pptr < epptr) ==> socket.accepted == old(socket.accepted) && Pending() == old(Pending()) + [c]
      ensures old(pptr == epptr) ==> FlushOf(|old(ToSend(Some(c)))|, rounds, old(ec)) == Flushed(outcome, sent, ec)
      ensures old(pptr == epptr) ==>
                sent <= |old(ToSend(Some(c)))|
                && socket.accepted == old(socket.accepted) + old(ToSend(Some(c)))[..sent]
                && Pending() == if outcome == Done && putBuffer.Length > 0 then [c] else old(Pending())
    {
      if pptr < epptr {
        putBuffer[pptr] := c;
        pptr := pptr + 1;
        return Done, 0;
      }
      outcome, sent := Overflow(Some(c), rounds);
    }

    /** `setbuf(0, 0)`: gives up the put buffer, if nothing is pending. */
    method Unbuffer() returns (ok: bool)
      requires Valid()
      modifies this, socket`accepted
      ensures Valid() && socket.accepted == old(socket.accepted) && (fresh(putBuffer) || putBuffer == old(putBuffer))
      ensures ok <==> old(Pending()) == []
      ensures ec == old(ec)
      ensures Pending() == old(Pending()) && Window() == old(Window()) && gptr == old(gptr)
      ensures putBuffer.Length == if ok then 0 else old(putBuffer.Length)
    {
      if pptr != 0 {
        return false;
      }
      putBuffer := new Byte[0];
      pptr, epptr := 0, 0;
      var outcome, sent := Sync([]);
      return true;
    }

    /** The receive loop of `underflow` */
    method Receive(room: nat, rounds: seq<RecvRound>) returns (outcome: Outcome, chunk: seq<Byte>)
      requires room > 0
      modifies socket`delivered, `ec
      ensures socket.delivered == old(socket.delivered) + chunk
      ensures RefillOf(room, rounds, old(ec)) == if outcome == Done then Chunk(chunk, ec) else Nothing(outcome, ec)
      ensures if outcome == Done then 0 < |chunk| <= room else chunk == []
    {
      chunk := [];
      var i := 0;
      while true
        invariant i <= |rounds| && socket.delivered == old(socket.delivered) && chunk == []
        invariant RefillOf(room, rounds[i..], ec) == RefillOf(room, rounds, old(ec))
        decreases |rounds| - i
      {
        if i == |rounds| {
          return Waiting, [];
        }
        var round := rounds[i];
        assert rounds[i..][0] == round && rounds[i..][1..] == rounds[i + 1..];
        i := i + 1;

        if round.expired {
          ec := TimedOut;
          return Failed, [];
        }

        if round.answer.Data? {
          chunk := socket.Recv(room, round.answer);
          if |chunk| == 0 {
            ec := Eof;
            return Failed, [];
          }
          ec := Success;
          return Done, chunk;
        }

        ec := round.answer.ec;
        if !Retriable(ec) {
          return Failed, [];
        }

        ec := round.pollEc;
        if !round.ready {
          return Failed, [];
        }
      }
    }

    /** Puts what was received after the put-back area. */
    method Fill(chunk: seq<Byte>)
      requires getBuffer.Length == BUFFER_SIZE && |chunk| <= BUFFER_SIZE - PUTBACK_MAX
      modifies `gptr, `egptr, getBuffer
      ensures gptr == PUTBACK_MAX && egptr == PUTBACK_MAX + |chunk|
      ensures getBuffer[PUTBACK_MAX..egptr] == chunk
      ensures forall k :: 0 <= k < PUTBACK_MAX ==> getBuffer[k] == old(getBuffer[k])
    {
      forall k | 0 <= k < |chunk| {
        getBuffer[PUTBACK_MAX + k] := chunk[k];
      }
      gptr, egptr := PUTBACK_MAX, PUTBACK_MAX + |chunk|;
    }

    /** Refills an empty get area; the outcome says whether there is a character to read. */
    method Underflow(rounds: seq<RecvRound>) returns (outcome: Outcome)
      requires Valid()
      modifies this`gptr, this`egptr, this`ec, getBuffer, socket`delivered
      ensures Valid() && Pending() == old(Pending())
      ensures old(gptr != egptr) ==> outcome == Failed && ec == old(ec) && socket.delivered == old(socket.delivered)
      ensures old(gptr == egptr) ==>
                RefillOf(BUFFER_SIZE - PUTBACK_MAX, rounds, old(ec))
                == if outcome == Done then Chunk(Window(), ec) else Nothing(outcome, ec)
      ensures outcome == Done ==>
                gptr == PUTBACK_MAX && Window() != [] && socket.delivered == old(socket.delivered) + Window()
      ensures outcome != Done ==>
                gptr == old(gptr) && egptr == old(egptr) && Window() == old(Window())
                && socket.delivered == old(socket.delivered)
    {
      if gptr != egptr {
        return Failed;
      }
      var chunk;
      outcome, chunk := Receive(BUFFER_SIZE - PUTBACK_MAX, rounds);
      if outcome == Done {
        Fill(chunk);
      }
    }

    /** `sbumpc`: takes the next character, refilling first when there is none. */
    method Get(rounds: seq<RecvRound>) returns (outcome: Outcome, c: Byte)
      requires Valid()
      modifies this`gptr, this`egptr, this`ec, getBuffer, socket`delivered
      ensures Valid() && Pending() == old(Pending())
      ensures old(gptr < egptr) ==>
                outcome == Done && c == old(Window())[0] && ec == old(ec)
                && gptr == old(gptr) + 1 && egptr == old(egptr) && socket.delivered == old(socket.delivered)
      ensures old(gptr == egptr) ==>
                match RefillOf(BUFFER_SIZE - PUTBACK_MAX, rounds, old(ec))
                case Chunk(bytes, error) =>
                  outcome == Done && bytes != [] && c == bytes[0] && ec == error
                  && gptr == PUTBACK_MAX + 1 && egptr == PUTBACK_MAX + |bytes|
                  && socket.delivered == old(socket.delivered) + bytes
                case Nothing(o, error) =>
                  outcome == o && o != Done && ec == error
                  && gptr == old(gptr) && egptr == old(egptr) && socket.delivered == old(socket.delivered)
    {
      outcome, c := Done, 0;
      if gptr == egptr {
        outcome := Underflow(rounds);
        if outcome != Done {
          return;
        }
      }
      assert Window()[0] == getBuffer[gptr];
      c := getBuffer[gptr];
      gptr := gptr + 1;
    }

    /** `sgetc`: shows the next character, refilling first when there is none. */
    method Peek(rounds: seq<RecvRound>) returns (outcome: Outcome, c: Byte)
      requires Valid()
      modifies this`gptr, this`egptr, this`ec, getBuffer, socket`delivered
      ensures Valid() && Pending() == old(Pending())
      ensures old(gptr < egptr) ==>
                outcome == Done && c == old(Window())[0] && ec == old(ec)
                && gptr == old(gptr) && egptr == old(egptr) && socket.delivered == old(socket.delivered)
      ensures old(gptr == egptr) ==>
                match RefillOf(BUFFER_SIZE - PUTBACK_MAX, rounds, old(ec))
                case Chunk(bytes, error) =>
                  outcome == Done && bytes != [] && c == bytes[0] && ec == error
                  && gptr == PUTBACK_MAX && egptr == PUTBACK_MAX + |bytes|
                  && socket.delivered == old(socket.delivered) + bytes
                case Nothing(o, error) =>
                  outcome == o && o != Done && ec == error
                  && gptr == old(gptr) && egptr == old(egptr) && socket.delivered == old(socket.delivered)
    {
      outcome, c := Done, 0;
      if gptr == egptr {
        outcome := Underflow(rounds);
        if outcome != Done {
          return;
        }
      }
      assert Window()[0] == getBuffer[gptr];
      c := getBuffer[gptr];
    }

    /**
      `sungetc`: steps back in the get area, if it has room; None is the failure. Past the start of the last refill lies
      the put-back area, which no refill ever fills.
     */
    method Unget() returns (c: Option<Byte>)
      requires Valid()
      modifies this`gptr
      ensures Valid() && Pending() == old(Pending())
      ensures c.None? <==> old(gptr) == 0
      ensures c.None? ==> gptr == 0
      ensures c.Some? ==> gptr == old(gptr) - 1 && Window() == [c.value] + old(Window())
      ensures old(gptr) > PUTBACK_MAX ==> c == Some(socket.delivered[|socket.delivered| - (egptr - gptr)])
      ensures 0 < old(gptr) <= PUTBACK_MAX ==> c == Some(0)
    {
      if gptr > 0 {
        gptr := gptr - 1;
        c := Some(getBuffer[gptr]);
        FirstOf(getBuffer, gptr, egptr);
        assert gptr >= PUTBACK_MAX ==> getBuffer[gptr] == getBuffer[PUTBACK_MAX..egptr][gptr - PUTBACK_MAX];
      } else {
        c := None;
      }
    }
  }
}
