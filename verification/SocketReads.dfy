/**
  Whole runs of reads from a socket stream buffer. What every call gives, and what was delivered, are functions of the
  calls and the socket's answers; and from these it follows when stepping back gives back what was read.
 */
module SocketReads {
  import opened Wrappers
  import opened SocketAnswers
  import opened SocketStreambuf

  datatype ReadOp = Get(rounds: seq<RecvRound>) | Peek(rounds: seq<RecvRound>) | Unget

  const ROOM: nat := BUFFER_SIZE - PUTBACK_MAX

  /** What the caller holds after a call: a Get adds a byte and an Unget takes one off. */
  function Held(taken: seq<Byte>, op: ReadOp, given: Option<Byte>): seq<Byte> {
    if given.None? || op.Peek? then taken
    else if op.Get? then taken + [given.value]
    else if taken == [] then [] else taken[..|taken| - 1]
  }

  /**
    A reader: takes minus steps back since the last refill, how many bytes of the get area are still to be read, all
    that was delivered, and what the caller holds. A Get adds a byte to that and an Unget takes one off.
   */
  datatype Reader = Reader(depth: int, ahead: nat, delivered: seq<Byte>, taken: seq<Byte>) {
    ghost predicate Fits() {
      && depth + PUTBACK_MAX >= 0
      && 0 <= depth + ahead <= ROOM
      && depth + ahead <= |delivered|
    }

    /** Byte `k` of the get area: a zero where the put-back area was stepped into, or one of the last delivered. */
    ghost function Shown(k: nat): Byte
      requires Fits() && k < ahead
    {
      if depth + k < 0 then 0 else delivered[|delivered| - ahead + k]
    }

    ghost function Window(): (r: seq<Byte>)
      requires Fits()
      ensures |r| == ahead
      ensures forall k :: 0 <= k < ahead ==> r[k] == Shown(k)
    {
      seq(ahead, k requires 0 <= k < ahead => Shown(k))
    }

    /** What the call gets from the socket. */
    ghost function Gets(op: ReadOp): (r: seq<Byte>)
      ensures |r| <= ROOM
    {
      if op.Unget? || ahead > 0 then [] else Arrival(ROOM, op.rounds)
    }

    ghost predicate Waits(op: ReadOp) {
      !op.Unget? && ahead == 0 && Gets(op) == [] && forall i :: 0 <= i < |op.rounds| ==> Retries(op.rounds[i])
    }

    /** What the call gives; None when there is nothing to give. */
    ghost function Gives(op: ReadOp): Option<Byte>
      requires Fits()
    {
      if op.Unget? then
        if depth > 0 then Some(delivered[|delivered| - ahead - 1])
        else if depth + PUTBACK_MAX > 0 then Some(0) else None
      else if ahead > 0 then Some(Shown(0))
      else if Gets(op) != [] then Some(Gets(op)[0])
      else None
    }

    ghost function After(op: ReadOp): (r: Reader)
      requires Fits()
      ensures r.Fits()
    {
      match op
      case Get(_) =>
        if Gives(op).None? then this
        else if ahead > 0 then Reader(depth + 1, ahead - 1, delivered, taken + [Gives(op).value])
        else Reader(1, |Gets(op)| - 1, delivered + Gets(op), taken + [Gives(op).value])
      case Peek(_) =>
        if ahead > 0 || Gets(op) == [] then this else Reader(0, |Gets(op)|, delivered + Gets(op), taken)
      case Unget =>
        if Gives(op).None? then this
        else Reader(depth - 1, ahead + 1, delivered, if taken == [] then [] else taken[..|taken| - 1])
    }

    /** The last `depth` bytes taken are the delivered ones just before the get area. */
    ghost predicate Remembers()
      requires Fits()
    {
      depth > 0 ==>
        depth <= |taken| && taken[|taken| - depth..] == delivered[|delivered| - ahead - depth..|delivered| - ahead]
    }

    /** An Unget would give nothing, or what was last taken. */
    ghost predicate GivesBack()
      requires Fits()
    {
      Gives(Unget).Some? ==> taken != [] && Gives(Unget).value == taken[|taken| - 1]
    }

    /** All bytes in the caller's hands and still to be read. */
    ghost function Stream(): seq<Byte>
      requires Fits()
    {
      taken + Window()
    }
  }

  /** The shared last `k` elements of two sequences, when both move on by the same element. */
  lemma SuffixGrows(s: seq<Byte>, t: seq<Byte>, k: nat, at: nat)
    requires k <= |s| && k <= at < |t| && s[|s| - k..] == t[at - k..at]
    ensures (s + [t[at]])[|s| - k..] == t[at - k..at + 1]
  {
    assert (s + [t[at]])[|s| - k..] == s[|s| - k..] + [t[at]];
    assert t[at - k..at + 1] == t[at - k..at] + [t[at]];
  }

  lemma SuffixShrinks(s: seq<Byte>, t: seq<Byte>, k: nat, at: nat)
    requires 0 < k <= |s| && k <= at <= |t| && s[|s| - k..] == t[at - k..at]
    ensures s[..|s| - 1][|s| - k..] == t[at - k..at - 1]
  {
    assert s[..|s| - 1][|s| - k..] == s[|s| - k..][..k - 1];
    assert t[at - k..at - 1] == t[at - k..at][..k - 1];
  }

  lemma GetFirstRemembers(r: Reader, op: ReadOp)
    requires r.Fits() && op.Get? && r.Gives(op).Some? && (r.ahead == 0 || r.depth == 0)
    ensures r.After(op).Remembers()
  {
    var after := r.After(op);
    var at := |after.delivered| - after.ahead;
    assert after.taken[|after.taken| - 1..] == [r.Gives(op).value];
    assert after.delivered[at - 1..at] == [after.delivered[at - 1]];
  }

  lemma GetNextRemembers(r: Reader, op: ReadOp)
    requires r.Fits() && r.Remembers() && op.Get? && r.ahead > 0 && r.depth > 0
    ensures r.After(op).Remembers()
  {
    SuffixGrows(r.taken, r.delivered, r.depth, |r.delivered| - r.ahead);
  }

  lemma GetRemembers(r: Reader, op: ReadOp)
    requires r.Fits() && r.Remembers() && op.Get?
    ensures r.After(op).Remembers()
  {
    if r.Gives(op).Some? && (r.ahead == 0 || r.depth == 0) {
      GetFirstRemembers(r, op);
    } else if r.ahead > 0 && r.depth > 0 {
      GetNextRemembers(r, op);
    }
  }

  lemma UngetRemembers(r: Reader)
    requires r.Fits() && r.Remembers()
    ensures r.After(Unget).Remembers()
  {
    if r.depth > 1 {
      SuffixShrinks(r.taken, r.delivered, r.depth, |r.delivered| - r.ahead);
    }
  }

  /**
    An Unget gives nothing or what was last taken, exactly when more was taken than stepped back over since the last
    refill, or the put-back area is used up, or what was last taken happens to be a 0 as the put-back area holds.
   */
  lemma UngetGivesBack(r: Reader)
    requires r.Fits() && r.Remembers()
    ensures r.GivesBack() <==> r.depth > 0 || r.depth == -8
                               || (r.taken != [] && r.taken[|r.taken| - 1] == 0)
  {
    if r.depth > 0 {
      var d, at := r.delivered, |r.delivered| - r.ahead;
      assert r.taken[|r.taken| - r.depth..][r.depth - 1] == d[at - r.depth..at][r.depth - 1];
    }
  }

  lemma GetMoves(r: Reader, op: ReadOp)
    requires r.Fits() && op.Get? && r.ahead > 0
    ensures r.Window() == [r.Gives(op).value] + r.After(op).Window()
  {
    var after := r.After(op);
    assert forall k :: 0 <= k < after.ahead ==> after.Shown(k) == r.Shown(k + 1);
  }

  lemma RefillShows(r: Reader, op: ReadOp)
    requires r.Fits() && !op.Unget? && r.Gets(op) != []
    ensures r.After(op).Window() == if op.Get? then r.Gets(op)[1..] else r.Gets(op)
  {
    var after, chunk := r.After(op), r.Gets(op);
    var skipped := if op.Get? then 1 else 0;
    assert after.delivered == r.delivered + chunk;
    assert forall k :: 0 <= k < after.ahead ==> after.Shown(k) == chunk[skipped + k];
  }

  lemma NothingAhead(r: Reader)
    requires r.Fits() && r.ahead == 0
    ensures |r.Window()| == 0 && r.Stream() == r.taken
  {
  }

  lemma GetRefillStream(r: Reader, op: ReadOp)
    requires r.Fits() && op.Get? && r.Gets(op) != []
    ensures r.After(op).Stream() == r.taken + r.Gets(op)
  {
    RefillShows(r, op);
    var chunk := r.Gets(op);
    assert chunk == [chunk[0]] + chunk[1..];
    Regrouped(r.taken, chunk[0], chunk[1..]);
  }

  lemma PeekRefillStream(r: Reader, op: ReadOp)
    requires r.Fits() && op.Peek? && r.Gets(op) != []
    ensures r.After(op).Stream() == r.taken + r.Gets(op)
  {
    RefillShows(r, op);
  }

  lemma GetStream(r: Reader, op: ReadOp)
    requires r.Fits() && op.Get? && r.ahead > 0
    ensures r.After(op).Stream() == r.Stream()
  {
    GetMoves(r, op);
    Regrouped(r.taken, r.Gives(op).value, r.After(op).Window());
  }

  /** A Get or a Peek moves nothing in the stream: what arrives goes to its end. */
  lemma ReadKeepsStream(r: Reader, op: ReadOp)
    requires r.Fits() && !op.Unget?
    ensures r.After(op).Stream() == r.Stream() + r.Gets(op)
    ensures r.After(op).delivered == r.delivered + r.Gets(op)
  {
    if r.Gets(op) != [] {
      NothingAhead(r);
      if op.Get? { GetRefillStream(r, op); } else { PeekRefillStream(r, op); }
    } else if r.ahead > 0 && op.Get? {
      GetStream(r, op);
    }
  }

  /** An Unget puts the byte that it gives in the place of the last one taken. */
  lemma UngetMoves(r: Reader)
    requires r.Fits() && r.Gives(Unget).Some?
    ensures r.After(Unget).Window() == [r.Gives(Unget).value] + r.Window()
    ensures r.After(Unget).delivered == r.delivered
  {
    var after := r.After(Unget);
    assert forall k :: 0 <= k < r.ahead ==> after.Shown(k + 1) == r.Shown(k);
  }

  /** The stream has gained a byte that was never delivered, or shows a 0 in the place of another byte. */
  ghost predicate Spoilt(stream: seq<Byte>, delivered: seq<Byte>) {
    || |stream| > |delivered|
    || (|stream| == |delivered| && exists k :: 0 <= k < |stream| && stream[k] == 0 && delivered[k] != 0)
  }

  lemma SpoiltStays(stream: seq<Byte>, delivered: seq<Byte>, more: seq<Byte>)
    requires Spoilt(stream, delivered)
    ensures Spoilt(stream + more, delivered + more)
  {
    if |stream| <= |delivered| {
      var k :| 0 <= k < |stream| && stream[k] == 0 && delivered[k] != 0;
      assert (stream + more)[k] == 0 && (delivered + more)[k] != 0;
    }
  }

  lemma SpoiltByZero(stream: seq<Byte>, delivered: seq<Byte>, n: nat)
    requires Spoilt(stream, delivered) && n < |stream|
    ensures Spoilt(stream[n := 0], delivered)
  {
    if |stream| <= |delivered| {
      var k :| 0 <= k < |stream| && stream[k] == 0 && delivered[k] != 0;
      assert stream[n := 0][k] == 0;
    }
  }

  lemma UngetStream(r: Reader)
    requires r.Fits() && r.Gives(Unget).Some?
    ensures var n, after := |r.taken|, r.After(Unget).Stream();
            if n == 0 then after == [r.Gives(Unget).value] + r.Stream()
            else after == r.Stream()[n - 1 := r.Gives(Unget).value]
  {
    UngetMoves(r);
  }

  lemma UngetKeepsSpoilt(r: Reader)
    requires r.Fits() && r.Remembers() && Spoilt(r.Stream(), r.delivered)
    ensures Spoilt(r.After(Unget).Stream(), r.delivered)
  {
    if r.Gives(Unget).Some? {
      UngetStream(r);
      UngetGivesBack(r);
      var n := |r.taken|;
      if n > 0 {
        SpoiltByZero(r.Stream(), r.delivered, n - 1);
        assert r.Stream()[n - 1] == r.taken[n - 1];
        assert r.GivesBack() ==> r.After(Unget).Stream() == r.Stream();
      }
    }
  }

  lemma UngetSpoils(r: Reader)
    requires r.Fits() && r.Remembers() && r.Stream() == r.delivered
    ensures if r.GivesBack() then r.After(Unget).Stream() == r.delivered else Spoilt(r.After(Unget).Stream(), r.delivered)
  {
    if r.Gives(Unget).Some? {
      UngetStream(r);
      UngetGivesBack(r);
      var n := |r.taken|;
      if n > 0 {
        assert r.Stream()[n - 1] == r.taken[n - 1];
        if !r.GivesBack() {
          assert r.After(Unget).Stream()[n - 1] == 0 && r.delivered[n - 1] != 0;
        }
      }
    }
  }

  /** What one call makes of a stream that is sound, or spoilt. */
  lemma StreamStep(r: Reader, op: ReadOp)
    requires r.Fits() && r.Remembers()
    ensures var after := r.After(op);
            && (Spoilt(r.Stream(), r.delivered) ==> Spoilt(after.Stream(), after.delivered))
            && (r.Stream() == r.delivered ==>
                  if op.Unget? && !r.GivesBack() then Spoilt(after.Stream(), after.delivered)
                  else after.Stream() == after.delivered)
  {
    if op.Unget? {
      if r.Gives(op).Some? { UngetMoves(r); }
      if Spoilt(r.Stream(), r.delivered) { UngetKeepsSpoilt(r); }
      if r.Stream() == r.delivered { UngetSpoils(r); }
    } else {
      ReadKeepsStream(r, op);
      if Spoilt(r.Stream(), r.delivered) { SpoiltStays(r.Stream(), r.delivered, r.Gets(op)); }
    }
  }

  /** The reader before call `n`. */
  ghost function ReaderAt(ops: seq<ReadOp>, n: nat): (r: Reader)
    requires n <= |ops|
    ensures r.Fits()
  {
    if n == 0 then Reader(0, 0, [], []) else ReaderAt(ops, n - 1).After(ops[n - 1])
  }

  ghost function GivenAt(ops: seq<ReadOp>, i: nat): Option<Byte>
    requires i < |ops|
  {
    ReaderAt(ops, i).Gives(ops[i])
  }

  lemma {:induction false} RemembersAt(ops: seq<ReadOp>, n: nat)
    requires n <= |ops|
    ensures ReaderAt(ops, n).Remembers()
  {
    if n > 0 {
      RemembersAt(ops, n - 1);
      match ops[n - 1] {
        case Get(_) => GetRemembers(ReaderAt(ops, n - 1), ops[n - 1]);
        case Peek(_) =>
        case Unget => UngetRemembers(ReaderAt(ops, n - 1));
      }
    }
  }

  /** Call `i` is no Unget, or one that gives back what was last taken. */
  ghost predicate FaithfulAt(ops: seq<ReadOp>, i: nat)
    requires i < |ops|
  {
    ops[i].Unget? ==> ReaderAt(ops, i).GivesBack()
  }

  /** For every history: the condition of `UngetGivesBack` on what was taken and stepped back over so far. */
  lemma FaithfulIff(ops: seq<ReadOp>, i: nat)
    requires i < |ops| && ops[i].Unget?
    ensures var r := ReaderAt(ops, i);
            FaithfulAt(ops, i) <==> r.depth > 0 || r.depth == -8
                                    || (r.taken != [] && r.taken[|r.taken| - 1] == 0)
  {
    RemembersAt(ops, i);
    UngetGivesBack(ReaderAt(ops, i));
  }

  ghost predicate SoundAt(ops: seq<ReadOp>, n: nat)
    requires n <= |ops|
  {
    ReaderAt(ops, n).Stream() == ReaderAt(ops, n).delivered
  }

  ghost predicate SpoiltAt(ops: seq<ReadOp>, n: nat)
    requires n <= |ops|
  {
    Spoilt(ReaderAt(ops, n).Stream(), ReaderAt(ops, n).delivered)
  }

  lemma SpoiltNotSound(ops: seq<ReadOp>, n: nat)
    requires n <= |ops| && SoundAt(ops, n)
    ensures !SpoiltAt(ops, n)
  {
  }

  lemma StreamStepAt(ops: seq<ReadOp>, i: nat)
    requires i < |ops|
    ensures SpoiltAt(ops, i) ==> SpoiltAt(ops, i + 1)
    ensures SoundAt(ops, i) ==> if FaithfulAt(ops, i) then SoundAt(ops, i + 1) else SpoiltAt(ops, i + 1)
  {
    RemembersAt(ops, i);
    StreamStep(ReaderAt(ops, i), ops[i]);
  }

  ghost predicate AllFaithful(ops: seq<ReadOp>, n: nat)
    requires n <= |ops|
  {
    n == 0 || (AllFaithful(ops, n - 1) && FaithfulAt(ops, n - 1))
  }

  lemma {:induction false} AllFaithfulIff(ops: seq<ReadOp>, n: nat)
    requires n <= |ops|
    ensures AllFaithful(ops, n) <==> forall i :: 0 <= i < n ==> FaithfulAt(ops, i)
  {
    if n > 0 {
      AllFaithfulIff(ops, n - 1);
    }
  }

  ghost predicate Settled(ops: seq<ReadOp>, n: nat)
    requires n <= |ops|
  {
    if AllFaithful(ops, n) then SoundAt(ops, n) else SpoiltAt(ops, n)
  }

  lemma SettledStart(ops: seq<ReadOp>)
    ensures Settled(ops, 0)
  {
    NothingAhead(ReaderAt(ops, 0));
  }

  lemma SettledNext(ops: seq<ReadOp>, i: nat)
    requires i < |ops| && Settled(ops, i)
    ensures Settled(ops, i + 1)
  {
    StreamStepAt(ops, i);
  }

  lemma SettledAt(ops: seq<ReadOp>, n: nat)
    requires n <= |ops|
    ensures Settled(ops, n)
  {
    SettledStart(ops);
    for i := 0 to n
      invariant Settled(ops, i)
    {
      SettledNext(ops, i);
    }
  }

  /** What was taken followed by the get area is what was delivered, in order, exactly when every Unget gave back. */
  lemma Conserved(ops: seq<ReadOp>, n: nat)
    requires n <= |ops|
    ensures SoundAt(ops, n) <==> forall i :: 0 <= i < n ==> FaithfulAt(ops, i)
  {
    SettledAt(ops, n);
    AllFaithfulIff(ops, n);
    if SoundAt(ops, n) {
      SpoiltNotSound(ops, n);
    }
  }

  /** The object is where the answers so far put it. */
  ghost predicate Tracks(s: SocketStreambuf, r: Reader)
    reads s, s.putBuffer, s.getBuffer, s.socket
  {
    && s.Valid()
    && r.Fits()
    && s.socket.delivered == r.delivered
    && s.gptr == PUTBACK_MAX + r.depth
    && s.egptr == s.gptr + r.ahead
  }

  lemma WindowTracked(s: SocketStreambuf, r: Reader)
    requires Tracks(s, r)
    ensures s.Window() == r.Window()
  {
    var base := s.getBuffer[PUTBACK_MAX..s.egptr];
    forall k | 0 <= k < r.ahead
      ensures s.Window()[k] == r.Shown(k)
    {
      assert s.Window()[k] == s.getBuffer[s.gptr + k];
      if r.depth + k >= 0 {
        assert base[r.depth + k] == s.getBuffer[s.gptr + k];
      }
    }
  }

  method GetStep(s: SocketStreambuf, ghost r: Reader, op: ReadOp) returns (waits: bool, given: Option<Byte>)
    requires Tracks(s, r) && op.Get?
    modifies s`gptr, s`egptr, s`ec, s.getBuffer, s.socket
    ensures waits <==> r.Waits(op)
    ensures given == r.Gives(op)
    ensures Tracks(s, r.After(op))
  {
    WindowTracked(s, r);
    RefillGets(ROOM, op.rounds, s.ec);
    var outcome, c := s.Get(op.rounds);
    given := if outcome == Done then Some(c) else None;
    waits := outcome == Waiting;
  }

  method PeekStep(s: SocketStreambuf, ghost r: Reader, op: ReadOp) returns (waits: bool, given: Option<Byte>)
    requires Tracks(s, r) && op.Peek?
    modifies s`gptr, s`egptr, s`ec, s.getBuffer, s.socket
    ensures waits <==> r.Waits(op)
    ensures given == r.Gives(op)
    ensures Tracks(s, r.After(op))
  {
    WindowTracked(s, r);
    RefillGets(ROOM, op.rounds, s.ec);
    var outcome, c := s.Peek(op.rounds);
    given := if outcome == Done then Some(c) else None;
    waits := outcome == Waiting;
  }

  method ReadStep(s: SocketStreambuf, ghost r: Reader, op: ReadOp) returns (waits: bool, given: Option<Byte>)
    requires Tracks(s, r)
    modifies s`gptr, s`egptr, s`ec, s.getBuffer, s.socket
    ensures waits <==> r.Waits(op)
    ensures given == r.Gives(op)
    ensures Tracks(s, r.After(op))
  {
    match op
    case Get(_) =>
      waits, given := GetStep(s, r, op);
    case Peek(_) =>
      waits, given := PeekStep(s, r, op);
    case Unget =>
      given := s.Unget();
      waits := false;
  }

  lemma TakenAfter(r: Reader, op: ReadOp)
    requires r.Fits()
    ensures r.After(op).taken == Held(r.taken, op, r.Gives(op))
  {
  }

  method ReadNext(s: SocketStreambuf, ops: seq<ReadOp>, i: nat) returns (waits: bool, given: Option<Byte>)
    requires i < |ops| && Tracks(s, ReaderAt(ops, i))
    modifies s`gptr, s`egptr, s`ec, s.getBuffer, s.socket
    ensures waits <==> ReaderAt(ops, i).Waits(ops[i])
    ensures given == GivenAt(ops, i)
    ensures if waits then Tracks(s, ReaderAt(ops, i)) else Tracks(s, ReaderAt(ops, i + 1))
    ensures ReaderAt(ops, i + 1).taken == Held(ReaderAt(ops, i).taken, ops[i], given)
  {
    ghost var r := ReaderAt(ops, i);
    TakenAfter(r, ops[i]);
    waits, given := ReadStep(s, r, ops[i]);
  }

  ghost predicate Observed(ops: seq<ReadOp>, results: seq<Option<Byte>>) {
    |results| <= |ops| && forall i :: 0 <= i < |results| ==> results[i] == GivenAt(ops, i)
  }

  lemma ObservedNext(ops: seq<ReadOp>, results: seq<Option<Byte>>)
    requires Observed(ops, results) && |results| < |ops|
    ensures Observed(ops, results + [GivenAt(ops, |results|)])
  {
  }

  method ReadAll(s: SocketStreambuf, ops: seq<ReadOp>) returns (taken: seq<Byte>, results: seq<Option<Byte>>)
    requires Tracks(s, Reader(0, 0, [], []))
    modifies s`gptr, s`egptr, s`ec, s.getBuffer, s.socket
    ensures Observed(ops, results)
    ensures Tracks(s, ReaderAt(ops, |results|)) && taken == ReaderAt(ops, |results|).taken
    ensures |results| < |ops| ==> ReaderAt(ops, |results|).Waits(ops[|results|])
  {
    taken, results := [], [];
    for i := 0 to |ops|
      invariant |results| == i && Observed(ops, results)
      invariant taken == ReaderAt(ops, i).taken
      invariant Tracks(s, ReaderAt(ops, i))
    {
      ObservedNext(ops, results);
      var waits, given := ReadNext(s, ops, i);
      if waits {
        return;
      }
      taken, results := Held(taken, ops[i], given), results + [given];
    }
  }

  /** Any run of reads, peeks and steps back, with any answers of the socket, up to the first call still waiting. */
  method ReadRun(ops: seq<ReadOp>)
    returns (taken: seq<Byte>, window: seq<Byte>, delivered: seq<Byte>, results: seq<Option<Byte>>)
    ensures Observed(ops, results)
    ensures |results| < |ops| ==> ReaderAt(ops, |results|).Waits(ops[|results|])
    ensures taken == ReaderAt(ops, |results|).taken
    ensures window == ReaderAt(ops, |results|).Window()
    ensures delivered == ReaderAt(ops, |results|).delivered
    ensures taken + window == delivered <==> forall i :: 0 <= i < |results| ==> FaithfulAt(ops, i)
  {
    var s := new SocketStreambuf();
    taken, results := ReadAll(s, ops);
    WindowTracked(s, ReaderAt(ops, |results|));
    window, delivered := s.Window(), s.socket.delivered;
    Conserved(ops, |results|);
    assert SoundAt(ops, |results|) <==> taken + window == delivered;
  }

  function Arrives(c: Byte): seq<RecvRound> {
    [RecvRound(false, Data([c]), true, Success)]
  }

  predicate AcrossRefill(ops: seq<ReadOp>) {
    |ops| == 4 && ops[0] == Get(Arrives(1)) && ops[1] == Get(Arrives(2)) && ops[2] == Unget && ops[3] == Unget
  }

  lemma AcrossRefillReaders(ops: seq<ReadOp>)
    requires AcrossRefill(ops)
    ensures ReaderAt(ops, 1) == Reader(1, 0, [1], [1]) && ReaderAt(ops, 0).Gives(ops[0]) == Some(1)
    ensures ReaderAt(ops, 2) == Reader(1, 0, [1, 2], [1, 2]) && ReaderAt(ops, 1).Gives(ops[1]) == Some(2)
    ensures ReaderAt(ops, 3) == Reader(0, 1, [1, 2], [1]) && ReaderAt(ops, 2).Gives(ops[2]) == Some(2)
    ensures ReaderAt(ops, 3).Gives(ops[3]) == Some(0)
    ensures !ReaderAt(ops, 0).Waits(ops[0]) && !ReaderAt(ops, 1).Waits(ops[1])
  {
    assert Arrival(ROOM, Arrives(1)) == [1] && Arrival(ROOM, Arrives(2)) == [2];
    assert ReaderAt(ops, 1) == Reader(1, 0, [1], [1]);
    assert ReaderAt(ops, 2) == Reader(1, 0, [1, 2], [1, 2]);
  }

  /** 1 and 2 arrive in two chunks and are taken; the first step back gives 2 again, the second gives 0 and not 1. */
  method UngetAcrossRefill() returns (results: seq<Option<Byte>>)
    ensures results == [Some(1), Some(2), Some(2), Some(0)]
  {
    var ops := [Get(Arrives(1)), Get(Arrives(2)), Unget, Unget];
    var taken, window, delivered;
    AcrossRefillReaders(ops);
    taken, window, delivered, results := ReadRun(ops);
  }
}
