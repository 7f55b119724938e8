/**
 * One framed request of the process host: streamed input, a running worker, controls that arrive meanwhile, and
 * credited output.
 */
module FramedRequest {
  import opened Results
  import opened Streams
  import opened FrameCodec

  const LAST_SEQUENCE := 0xFFFF_FFFF
  const MAX_CREDIT := 0x7FFF_FFFF_FFFF_FFFF

  datatype HostError =
    | BadFrame(cause: FrameError) | ReadFailed(inner: FrameError) | TruncatedInput | TruncatedControl
    | DirectionInvalid | InputLengthMismatch | InvalidCredit | ControlCorrelationInvalid | RequestInvalid
    | CancelFailed

  datatype Event = Received(frame: Frame) | Sent(frame: Frame)

  /** Flags and bytes of one output frame. */
  datatype Piece = Piece(flags: nat, payload: seq<Byte>)

  // ----- what a trace adds up to

  /**
   * The balance of a trace: frames received and sent in order, output pieces sent, the requests they were sent for and
   * the credits received for them, requests received and responses sent, and the largest number of output pieces ever
   * sent ahead of their credits.
   */
  datatype Balance = Balance(received: seq<Frame>, sent: seq<Frame>, outputs: seq<Piece>, recipients: set<seq<Byte>>,
                             credits: seq<nat>, asked: seq<Frame>, answered: seq<Reply>, peak: int)

  /** Request id, flags and bytes of a response. */
  datatype Reply = Reply(requestId: seq<Byte>, flags: nat, payload: seq<Byte>)

  /** The answer to a request that arrives while another is active; None when the request is not well formed. */
  type Dispatch = Frame -> Option<seq<Byte>>

  const EMPTY := Balance([], [], [], {}, [], [], [], 0)

  function Max(a: int, b: int): int { if a > b then a else b }

  function Post(b: Balance, e: Event): Balance {
    match e
    case Received(f) =>
      b.(received := b.received + [f],
         credits := if f.kind == CREDIT then b.credits + [Value(f.payload)] else b.credits,
         asked := if f.kind == REQUEST_JSON then b.asked + [f] else b.asked)
    case Sent(f) =>
      var outputs := if f.kind == OUTPUT then b.outputs + [Piece(f.flags, f.payload)] else b.outputs;
      b.(sent := b.sent + [f],
         outputs := outputs,
         recipients := if f.kind == OUTPUT then b.recipients + {f.requestId} else b.recipients,
         answered := if f.kind == RESPONSE_JSON then b.answered + [Reply(f.requestId, f.flags, f.payload)]
                     else b.answered,
         peak := if f.kind == OUTPUT then Max(b.peak, |outputs| - |b.credits|) else b.peak)
  }

  function Total(trace: seq<Event>): Balance {
    if trace == [] then EMPTY else Post(Total(trace[..|trace| - 1]), trace[|trace| - 1])
  }

  lemma TotalAppend(log: seq<Event>, mark: nat, e: Event)
    requires mark <= |log|
    ensures Total((log + [e])[mark..]) == Post(Total(log[mark..]), e)
  {
    var trace := log[mark..];
    assert (log + [e])[mark..] == trace + [e];
    assert (trace + [e])[..|trace|] == trace;
  }

  /** The first n inbound frames. */
  function Consumed(inbound: seq<Result<Frame, FrameError>>, n: nat): seq<Frame>
    requires n <= |inbound| && forall i :: 0 <= i < n ==> inbound[i].Ok?
  {
    if n == 0 then [] else Consumed(inbound, n - 1) + [inbound[n - 1].value]
  }

  // ----- output pieces

  function OutputFrameCount(bytes: seq<Byte>): nat {
    if bytes == [] then 1 else (|bytes| + MAX_PAYLOAD - 1) / MAX_PAYLOAD
  }

  function PieceEnd(bytes: seq<Byte>, offset: nat): nat
    requires offset <= |bytes|
  {
    if |bytes| - offset < MAX_PAYLOAD then |bytes| else offset + MAX_PAYLOAD
  }

  /**
   * The pieces of one stream from offset on: full pieces, the last one marked, at least one even when there is nothing.
   */
  function Pieces(bytes: seq<Byte>, offset: nat, flag: nat): seq<Piece>
    requires offset <= |bytes|
    decreases |bytes| - offset
  {
    var end := PieceEnd(bytes, offset);
    if end == |bytes| then [Piece(flag + FLAG_EOF, bytes[offset..])]
    else [Piece(flag, bytes[offset..end])] + Pieces(bytes, end, flag)
  }

  /** Everything sent for a result: the pieces of stdout, then those of stderr. */
  function Plan(stdout: seq<Byte>, stderr: seq<Byte>): seq<Piece> {
    Pieces(stdout, 0, 0) + Pieces(stderr, 0, FLAG_STDERR)
  }

  function Joined(pieces: seq<Piece>): seq<Byte> {
    if pieces == [] then [] else pieces[0].payload + Joined(pieces[1..])
  }

  /** The credit due for each piece: the size of its frame. */
  function Sizes(pieces: seq<Piece>): seq<nat> {
    if pieces == [] then [] else Sizes(pieces[..|pieces| - 1]) + [HEADER_LENGTH + |pieces[|pieces| - 1].payload|]
  }

  lemma SizesAppend(pieces: seq<Piece>, p: Piece)
    ensures Sizes(pieces + [p]) == Sizes(pieces) + [HEADER_LENGTH + |p.payload|]
  {
    assert (pieces + [p])[..|pieces|] == pieces;
  }

  /**
   * Sent pieces carry the stream whole, mark its end exactly once, at the end, fit a frame, and are as many as counted.
   */
  lemma {:induction false} PiecesCarryTheStream(bytes: seq<Byte>, offset: nat, flag: nat)
    requires offset < |bytes| || offset == 0 == |bytes|
    ensures var pieces := Pieces(bytes, offset, flag);
            && Joined(pieces) == bytes[offset..]
            && |pieces| == OutputFrameCount(bytes[offset..])
            && (forall i :: 0 <= i < |pieces| ==> |pieces[i].payload| <= MAX_PAYLOAD)
            && (forall i :: 0 <= i < |pieces| ==>
                pieces[i].flags == if i == |pieces| - 1 then flag + FLAG_EOF else flag)
    decreases |bytes| - offset
  {
    var end := PieceEnd(bytes, offset);
    if end == |bytes| {
      var last := Piece(flag + FLAG_EOF, bytes[offset..]);
      assert [last][1..] == [];
      assert Joined([last]) == last.payload;
    } else {
      var rest := Pieces(bytes, end, flag);
      var head := Piece(flag, bytes[offset..end]);
      PiecesCarryTheStream(bytes, end, flag);
      assert ([head] + rest)[1..] == rest;
      assert bytes[offset..] == bytes[offset..end] + bytes[end..];
      CountStep(|bytes| - end);
    }
  }

  lemma CountStep(left: nat)
    requires left > 0
    ensures (left + MAX_PAYLOAD + MAX_PAYLOAD - 1) / MAX_PAYLOAD == 1 + (left + MAX_PAYLOAD - 1) / MAX_PAYLOAD
  {
  }

  /** How far the frames to come have led: to a value with so many taken and the next number to send, or to an error. */
  datatype Reached<T> = At(value: T, taken: nat, out: nat) | Stuck(error: HostError)

  // ----- the session

  /** How the worker ends: with both output streams, or with an error code; and the response then sent. */
  datatype WorkResult = Ran(stdout: seq<Byte>, stderr: seq<Byte>, response: seq<Byte>) | Failed(response: seq<Byte>)

  datatype Ending = Completed(stdout: seq<Byte>, stderr: seq<Byte>) | Canceled

  /**
   * The two directions of the pipe. What the peer sends is an arbitrary list of frames and malformed frames;
   * a read that has been started is pending, with the sequence number it was told to expect.
   */
  class Session {
    const inbound: seq<Result<Frame, FrameError>>
    const firstIn: nat
    const firstOut: nat
    const dispatch: Dispatch
    /** Whether inbound frame i is there once the host has sent so many frames, none of them output of the request. */
    const arrives: (nat, nat) -> bool
    var taken: nat
    var pending: Option<nat>
    var incomingSequence: nat
    var outgoingSequence: nat
    ghost var log: seq<Event>

    /**
     * Every inbound frame is consumed once, in order, under its own number; a pending read waits for the next number.
     */
    ghost predicate Valid()
      reads this
    {
      && taken <= |inbound|
      && (forall i :: 0 <= i < taken ==> inbound[i].Ok? && inbound[i].value.sequence == firstIn + i)
      && Total(log).received == Consumed(inbound, taken)
      && Numbered(firstIn, taken, incomingSequence)
      && Numbered(firstOut, |Total(log).sent|, outgoingSequence)
      && (forall i :: 0 <= i < |Total(log).sent| ==> Total(log).sent[i].sequence == firstOut + i)
      && (pending.Some? ==> pending.value == incomingSequence)
    }

    /** Neither counter has run out; once one has, the session is over. */
    ghost predicate Open()
      reads this
    {
      Valid() && incomingSequence > 0 && outgoingSequence > 0
    }

    // ----- what the frames to come lead to

    /**
     * What completing the read of inbound frame i comes to: that frame has to carry the number firstIn + i. What goes
     * wrong inside the read comes wrapped.
     */
    function Arrival(i: nat): Result<Frame, HostError> {
      if i >= |inbound| then Err(TruncatedControl)
      else match inbound[i]
        case Err(e) => Err(ReadFailed(e))
        case Ok(f) =>
          if f.sequence < firstIn + i then Err(ReadFailed(DuplicateSequence))
          else if f.sequence > firstIn + i then Err(ReadFailed(OutOfOrderSequence))
          else if f.sequence == LAST_SEQUENCE then Err(BadFrame(SequenceExhausted))
          else Ok(f)
    }

    /** The answer to a frame that may be a request of another id. */
    function Interleaving(frame: Frame, activeId: seq<Byte>, out: nat): Result<bool, HostError> {
      if !Interleaved(frame, activeId) then Ok(false)
      else match dispatch(frame)
        case None => Err(RequestInvalid)
        case Some(answer) => if Sending(out, |answer|).Some? then Err(Sending(out, |answer|).value) else Ok(true)
    }

    /** The first frame from i on that is no interleaved request, behind the answers to those before it. */
    function Controls(i: nat, out: nat, activeId: seq<Byte>): Reached<Frame>
      decreases |inbound| - i
    {
      match Arrival(i)
      case Err(e) => Stuck(e)
      case Ok(f) =>
        match Interleaving(f, activeId, out)
        case Err(e) => Stuck(e)
        case Ok(answered) => if answered then Controls(i + 1, out + 1, activeId) else At(f, i + 1, out)
    }

    /**
     * One piece sent as frame out, and the control that answers it: whether it was credited, and the counters
     * afterwards.
     */
    function OnePiece(i: nat, out: nat, activeId: seq<Byte>, piece: Piece): Reached<bool> {
      match Sending(out, |piece.payload|)
      case Some(e) => Stuck(e)
      case None =>
        match Controls(i, out + 1, activeId)
        case Stuck(e) => Stuck(e)
        case At(control, i', out') =>
          match Verdict(control, activeId, piece)
          case Err(e) => Stuck(e)
          case Ok(credited) => At(credited, i', out')
    }

    /** Pieces sent one by one until one is not credited. */
    function AllPieces(i: nat, out: nat, activeId: seq<Byte>, pieces: seq<Piece>): Reached<bool>
      decreases |pieces|, 0
    {
      if pieces == [] then At(true, i, out) else Then(OnePiece(i, out, activeId, pieces[0]), activeId, pieces[1..])
    }

    /** The pieces left to send behind one that was credited; none behind one that was not. */
    function Then(first: Reached<bool>, activeId: seq<Byte>, rest: seq<Piece>): Reached<bool>
      decreases |rest|, 1
    {
      if first.At? && first.value then AllPieces(first.taken, first.out, activeId, rest) else first
    }

    /** The input read from frame i on, each frame credited at once, until the end is marked. */
    function InputRead(i: nat, out: nat, activeId: seq<Byte>, expected: nat, collected: seq<Byte>)
      : Reached<seq<Byte>>
      decreases |inbound| - i
    {
      match Arrival(i)
      case Err(e) => Stuck(Unwrapped(e))
      case Ok(f) =>
        var more := collected + f.payload;
        if f.kind != INPUT || f.generation != 0 || f.requestId != activeId then Stuck(DirectionInvalid)
        else if |more| > expected || (HasEof(f.flags) && |more| != expected) then Stuck(InputLengthMismatch)
        else if Sending(out, 8).Some? then Stuck(Sending(out, 8).value)
        else if HasEof(f.flags) then At(more, i + 1, out + 1)
        else InputRead(i + 1, out + 1, activeId, expected, more)
    }

    /** A read of frame i can be found complete without waiting for it. */
    predicate Ready(i: nat, out: nat) {
      i >= |inbound| || (out >= firstOut && arrives(i, out - firstOut))
    }

    /** The n frames from i on came early and were interleaved requests, each answered. */
    predicate Passed(i: nat, out: nat, activeId: seq<Byte>, n: nat) {
      forall k :: 0 <= k < n ==> AnsweredEarly(i, out, activeId, k)
    }

    predicate AnsweredEarly(i: nat, out: nat, activeId: seq<Byte>, k: nat) {
      Ready(i + k, out + k) && EarlyControl(i + k, out + k, activeId) == Ok(true)
    }

    /** What a frame does to a running worker: a request that is answered, true, or else it has to be the cancel. */
    function EarlyControl(i: nat, out: nat, activeId: seq<Byte>): Result<bool, HostError> {
      match Arrival(i)
      case Err(e) => Err(e)
      case Ok(f) =>
        match Interleaving(f, activeId, out)
        case Err(e) => Err(e)
        case Ok(answered) =>
          if answered then Ok(true)
          else if CancelError(f, activeId).Some? then Err(CancelError(f, activeId).value)
          else Ok(false)
    }

    /** The output delivered and the request answered. */
    function Delivery(i: nat, out: nat, activeId: seq<Byte>, result: WorkResult, canceled: seq<Byte>)
      : Result<Ending, HostError> {
      match AllPieces(i, out, activeId, Plan(Stdout(result), Stderr(result)))
      case Stuck(e) => Err(e)
      case At(sent, _, out') =>
        if sent then Closing(out', |result.response|, Completed(Stdout(result), Stderr(result)))
        else Closing(out', |canceled|, Canceled)
    }

    /** Which outcome the frames from i on lead to, when so many early requests were answered while the worker ran. */
    ghost predicate Follows(i: nat, out: nat, activeId: seq<Byte>, inputLength: nat, work: seq<Byte> -> WorkResult,
                            canceled: seq<Byte>, stops: bool, early: nat, r: Result<Ending, HostError>)
    {
      if Sending(out, 8).Some? then r == Err(Sending(out, 8).value)
      else
        var input := InputRead(i, out + 1, activeId, inputLength, []);
        if input.Stuck? then r == Err(input.error)
        else Concludes(input.taken, input.out, activeId, work(input.value), canceled, stops, early, r)
    }

    /**
     * The part after the input: an undisturbed worker's result is delivered, and only an early frame that is no
     * answered request can disturb it.
     */
    ghost predicate Concludes(i: nat, out: nat, activeId: seq<Byte>, result: WorkResult,
                              canceled: seq<Byte>, stops: bool, early: nat, r: Result<Ending, HostError>)
    {
      && Passed(i, out, activeId, early)
      && (r == Delivery(i + early, out + early, activeId, result, canceled)
          || (Ready(i + early, out + early)
              && Disturbed(EarlyControl(i + early, out + early, activeId), out + early, |canceled|, stops, r)))
    }

    /**
     * An early frame ends the request with its error, or cancels it, for which the worker has to stop in time; an
     * answered request does neither.
     */
    ghost predicate Disturbed(control: Result<bool, HostError>, out: nat, length: nat, stops: bool,
                              r: Result<Ending, HostError>) {
      match control
      case Err(e) => r == Err(e)
      case Ok(answered) => !answered && r == if stops then Closing(out, length, Canceled) else Err(CancelFailed)
    }

    constructor (inbound: seq<Result<Frame, FrameError>>, firstIn: nat, firstOut: nat,
                 dispatch: Dispatch, arrives: (nat, nat) -> bool)
      requires 0 < firstIn <= LAST_SEQUENCE && 0 < firstOut <= LAST_SEQUENCE
      ensures this.inbound == inbound && this.firstIn == firstIn && this.firstOut == firstOut
      ensures this.dispatch == dispatch && this.arrives == arrives
      ensures Open() && pending.None? && log == [] && taken == 0 && outgoingSequence == firstOut
    {
      this.inbound, this.firstIn, this.firstOut, this.dispatch, this.arrives := inbound, firstIn, firstOut, dispatch,
        arrives;
      taken, pending, incomingSequence, outgoingSequence, log := 0, None, firstIn, firstOut, [];
    }

    /** Starting a read: never while another one is outstanding. */
    method StartFrameRead()
      requires Open() && pending.None?
      modifies this`pending
      ensures Open() && pending == Some(incomingSequence)
    {
      pending := Some(incomingSequence);
    }

    /** Waiting for the pending read: whatever happens, it is no longer outstanding. */
    method CompleteControlRead() returns (r: Result<Frame, HostError>)
      requires Open() && pending.Some?
      modifies this
      ensures Valid() && pending.None? && taken >= old(taken) && outgoingSequence == old(outgoingSequence)
      ensures r == Arrival(old(taken))
      ensures r.Ok? ==> Open() && taken == old(taken) + 1 && log == old(log) + [Received(r.value)]
      ensures r.Ok? ==> incomingSequence == old(incomingSequence) + 1 <= 0xFFFF_FFFF
      ensures log == old(log)
              || (|log| == |old(log)| + 1 && log[|log| - 1].Received? && log == old(log) + [log[|log| - 1]])
    {
      var expected := pending.value;
      pending := None;
      if taken == |inbound| { return Err(TruncatedControl); }
      if inbound[taken].Err? { return Err(ReadFailed(inbound[taken].error)); }
      var frame := inbound[taken].value;
      if frame.sequence != expected {
        return Err(ReadFailed(if frame.sequence < expected then DuplicateSequence else OutOfOrderSequence));
      }
      TotalAppend(log, 0, Received(frame));
      assert log[0..] == log && (log + [Received(frame)])[0..] == log + [Received(frame)];
      hide Total;
      hide Legal;
      taken := taken + 1;
      log := log + [Received(frame)];
      incomingSequence := Increment(incomingSequence);
      if incomingSequence == 0 { return Err(BadFrame(SequenceExhausted)); }
      return Ok(frame);
    }

    /** Writing one frame under the next outgoing number. */
    method Send(kind: nat, flags: nat, requestId: seq<Byte>, payload: seq<Byte>) returns (r: Result<(), HostError>)
      requires Open()
      modifies this
      ensures Valid() && pending == old(pending) && taken == old(taken) && incomingSequence == old(incomingSequence)
      ensures r == SendResult(old(outgoingSequence), |payload|)
      ensures r.Ok? ==> Open() && |payload| <= 65536 && outgoingSequence == old(outgoingSequence) + 1 <= 0xFFFF_FFFF
      ensures r.Ok? ==> log == old(log) + [Sent(Frame(kind, flags, old(outgoingSequence), requestId, 0, payload))]
      ensures r.Err? ==>
              log == old(log)
              || log == old(log) + [Sent(Frame(kind, flags, old(outgoingSequence), requestId, 0, payload))]
    {
      if |payload| > MAX_PAYLOAD { return Err(BadFrame(FrameTooLarge)); }
      var frame := Frame(kind, flags, outgoingSequence, requestId, 0, payload);
      TotalAppend(log, 0, Sent(frame));
      assert log[0..] == log && (log + [Sent(frame)])[0..] == log + [Sent(frame)];
      hide Total;
      log := log + [Sent(frame)];
      outgoingSequence := Increment(outgoingSequence);
      if outgoingSequence == 0 { return Err(BadFrame(SequenceExhausted)); }
      return Ok(());
    }

    /** A request of another id that arrives while this one is active is answered at once. */
    method HandleInterleavedRequest(frame: Frame, activeId: seq<Byte>) returns (r: Result<bool, HostError>)
      requires Open()
      modifies this
      ensures Valid() && pending == old(pending) && taken == old(taken) && incomingSequence == old(incomingSequence)
      ensures r == Interleaving(frame, activeId, old(outgoingSequence))
      ensures r.Ok? ==> (r.value <==> Interleaved(frame, activeId))
      ensures r.Ok? ==> Open() && outgoingSequence == old(outgoingSequence) + if r.value then 1 else 0
      ensures log == old(log)
              || (frame.kind == REQUEST_JSON && dispatch(frame).Some?
                  && log == old(log) + [Sent(Frame(RESPONSE_JSON, 0, old(outgoingSequence), frame.requestId, 0,
                                                   dispatch(frame).value))])
      ensures r.Ok? ==> (r.value <==> log != old(log))
    {
      if frame.kind != REQUEST_JSON || frame.requestId == activeId { return Ok(false); }
      var answer := dispatch(frame);
      if answer.None? { return Err(RequestInvalid); }
      var sent := Send(RESPONSE_JSON, 0, frame.requestId, answer.value);
      if sent.Err? { return Err(sent.error); }
      return Ok(true);
    }

    /**
     * The next control for the active request: interleaved requests before it are answered, each followed by a new
     * read. No read is outstanding afterwards.
     */
    method NextControl(activeId: seq<Byte>, ghost mark: nat) returns (r: Result<Frame, HostError>)
      requires Open() && pending.Some? && mark <= |log| && Settled(dispatch, Total(log[mark..]))
      modifies this
      ensures Valid() && pending.None? && taken >= old(taken) && mark <= |log| && old(log) <= log
      ensures SameOutput(old(Total(log[mark..])), Total(log[mark..])) && Replied(dispatch, Total(log[mark..]))
      ensures match Controls(old(taken), old(outgoingSequence), activeId)
              case Stuck(e) => r == Err(e)
              case At(control, i, out) => r == Ok(control) && taken == i && outgoingSequence == out
      ensures r.Ok? ==>
                var (before, after) := (old(Total(log[mark..])), Total(log[mark..]));
                && Open()
                && !Interleaved(r.value, activeId)
                && after.credits == before.credits + (if r.value.kind == CREDIT then [Value(r.value.payload)] else [])
                && (r.value.kind != REQUEST_JSON ==> Settled(dispatch, after))
                && Last(after.received) == Some(r.value)
    {
      hide Total, Controls, Arrival, Interleaving, Settled, Replied, JustReceived, Waiting, Post, SameOutput;
      ghost var start := Total(log[mark..]);
      SettledWaits(dispatch, start);
      FirstControl(taken, outgoingSequence, activeId);
      var control := ReadControl(mark);
      if control.Err? { return control; }
      NowReceived(dispatch, start, start, control.value);
      while true
        invariant Open() && pending.None? && taken > old(taken) && mark <= |log| && old(log) <= log
        invariant control == Arrival(taken - 1)
        invariant Controls(old(taken), old(outgoingSequence), activeId)
                  == Controls(taken - 1, outgoingSequence, activeId)
        invariant control.Ok? && JustReceived(dispatch, start, Total(log[mark..]), control.value)
        decreases |inbound| - taken
      {
        FirstControl(taken - 1, outgoingSequence, activeId);
        label Before:
        var handled := HandleInterleavedRequest(control.value, activeId);
        AnswerSettles(dispatch, start, old@Before(log), log, mark, control.value, old@Before(outgoingSequence));
        if handled.Err? { return Err(handled.error); }
        if !handled.value {
          ReceivedMeans(dispatch, start, Total(log[mark..]), control.value);
          return control;
        }
        FirstControl(taken, outgoingSequence, activeId);
        StartFrameRead();
        ghost var settled := Total(log[mark..]);
        WaitingReplied(dispatch, start, settled);
        control := ReadControl(mark);
        if control.Err? {
          SameOutputTwice(start, settled, Total(log[mark..]));
          return control;
        }
        NowReceived(dispatch, start, settled, control.value);
      }
    }

    /** Completing the pending read adds the frame to what was received and nothing else. */
    method ReadControl(ghost mark: nat) returns (r: Result<Frame, HostError>)
      requires Open() && pending.Some? && mark <= |log|
      modifies this
      ensures Valid() && pending.None? && taken >= old(taken) && mark <= |log| && old(log) <= log
      ensures SameOutput(old(Total(log[mark..])), Total(log[mark..]))
      ensures old(Replied(dispatch, Total(log[mark..]))) ==> Replied(dispatch, Total(log[mark..]))
      ensures r == Arrival(old(taken))
      ensures r.Ok? ==> Open() && taken == old(taken) + 1 && outgoingSequence == old(outgoingSequence)
      ensures r.Ok? ==>
              log == old(log) + [Received(r.value)]
              && Total(log[mark..]) == Post(old(Total(log[mark..])), Received(r.value))
    {
      hide Total;
      hide Replied;
      r := CompleteControlRead();
      if old(Replied(dispatch, Total(log[mark..]))) { ReceivedKeeps(dispatch, old(log), log, mark); }
      if log != old(log) {
        TotalAppend(old(log), mark, log[|log| - 1]);
      }
    }

    /** One piece and the control that answers it; its credit must be for exactly the size of the frame. */
    method SendPiece(activeId: seq<Byte>, piece: Piece, ghost mark: nat, ghost done: seq<Piece>)
      returns (r: Result<bool, HostError>)
      requires Open() && pending.Some? && mark <= |log| && Delivered(dispatch, activeId, Total(log[mark..]), done)
      modifies this
      ensures Valid() && mark <= |log| && old(log) <= log && Orderly(dispatch, activeId, Total(log[mark..]))
      ensures Total(log[mark..]).outputs == done || Total(log[mark..]).outputs == done + [piece]
      ensures match OnePiece(old(taken), old(outgoingSequence), activeId, piece)
              case Stuck(e) => r == Err(e)
              case At(credited, i, out) => r == Ok(credited) && taken == i && outgoingSequence == out
      ensures r.Ok? ==> Open() && pending.None? && Settled(dispatch, Total(log[mark..]))
      ensures r == Ok(true) ==> Delivered(dispatch, activeId, Total(log[mark..]), done + [piece])
      ensures r == Ok(false) ==> ReceivedCancel(Total(log[mark..]), activeId)
    {
      hide Total, Sizes, Value, Replies, Controls;
      label Sending:
      var written := Send(OUTPUT, piece.flags, activeId, piece.payload);
      PieceSent(dispatch, activeId, old@Sending(log), log, mark, piece, done);
      if written.Err? { return Err(written.error); }
      var next := NextControl(activeId, mark);
      if next.Err? { return Err(next.error); }
      var control := next.value;
      if control.generation != 0 || control.requestId != activeId { return Err(ControlCorrelationInvalid); }
      if control.kind == CANCEL { return Ok(false); }
      if control.kind != CREDIT { return Err(InvalidCredit); }
      if |control.payload| != 8 || Value(control.payload) == 0 || Value(control.payload) > MAX_CREDIT
         || Value(control.payload) != HEADER_LENGTH + |piece.payload| {
        return Err(InvalidCredit);
      }
      SizesAppend(done, piece);
      return Ok(true);
    }

    /** One stream: a piece, then its control, until the end of the stream has been sent. */
    method SendStream(activeId: seq<Byte>, bytes: seq<Byte>, flag: nat, remaining: nat, ghost mark: nat,
                      ghost done: seq<Piece>)
      returns (r: Result<bool, HostError>, left: int)
      requires Open() && pending.Some? && mark <= |log| && remaining >= |Pieces(bytes, 0, flag)|
      requires Delivered(dispatch, activeId, Total(log[mark..]), done)
      modifies this
      ensures Valid() && mark <= |log| && old(log) <= log && Orderly(dispatch, activeId, Total(log[mark..]))
      ensures Total(log[mark..]).outputs <= done + Pieces(bytes, 0, flag)
      ensures match AllPieces(old(taken), old(outgoingSequence), activeId, Pieces(bytes, 0, flag))
              case Stuck(e) => r == Err(e)
              case At(sent, i, out) => r == Ok(sent) && taken == i && outgoingSequence == out
      ensures r.Ok? ==> Open() && Settled(dispatch, Total(log[mark..]))
      ensures r == Ok(true) ==>
                && Delivered(dispatch, activeId, Total(log[mark..]), done + Pieces(bytes, 0, flag))
                && left == remaining - |Pieces(bytes, 0, flag)|
                && (pending.Some? <==> left > 0)
      ensures r == Ok(false) ==> pending.None? && ReceivedCancel(Total(log[mark..]), activeId)
    {
      hide Total;
      hide Sizes;
      hide Pieces;
      hide PieceEnd;
      hide ToSend;
      hide Consumed;
      hide Numbered;
      hide Settled, Orderly;
      hide AllPieces, OnePiece, Delivered, ReceivedCancel;
      var offset: nat, sent := 0, false;
      left := remaining;
      ghost var pieces: seq<Piece> := [];
      ghost var all := Pieces(bytes, 0, flag);
      assert done + [] == done && [] + all == all;
      NothingSent(bytes, flag);
      while !sent || offset < |bytes|
        invariant offset <= |bytes| && Open() && mark <= |log| && old(log) <= log
        invariant Delivered(dispatch, activeId, Total(log[mark..]), done + pieces)
        invariant left == remaining - |pieces| && (pending.Some? <==> left > 0)
        invariant all == pieces + ToSend(bytes, offset, flag, sent)
        invariant !sent ==> offset == 0
        invariant |pieces| <= |all|
        invariant AllPieces(old(taken), old(outgoingSequence), activeId, all)
               == AllPieces(taken, outgoingSequence, activeId, ToSend(bytes, offset, flag, sent))
        decreases !sent, |bytes| - offset
      {
        PieceNext(bytes, offset, flag, sent);
        var end := PieceEnd(bytes, offset);
        var payload := bytes[offset..end];
        var eof := end == |bytes|;
        var piece := Piece(if eof then flag + FLAG_EOF else flag, payload);
        ghost var rest := ToSend(bytes, end, flag, true);
        assert piece == NextPiece(bytes, offset, flag);
        MovePiece(pieces, piece, rest, all);
        FirstPiece(taken, outgoingSequence, activeId, piece, rest);
        offset, sent := end, true;
        left := left - 1;
        Regroup(done, pieces, piece, all);
        var credited := SendPiece(activeId, piece, mark, done + pieces);
        if credited.Err? || !credited.value { return credited, left; }
        pieces := pieces + [piece];
        if left > 0 { StartFrameRead(); }
      }
      AllSent(bytes, flag, pieces, all);
      NoPieces(taken, outgoingSequence, activeId);
      DeliveredMeans(dispatch, activeId, Total(log[mark..]), done + pieces);
      return Ok(true), left;
    }

    /**
     * Credited output: a successful run sends exactly the planned pieces, gets exactly one matching credit for each,
     * and never has more than one piece waiting for its credit.
     */
    method WriteFramedOutput(activeId: seq<Byte>, stdout: seq<Byte>, stderr: seq<Byte>, ghost mark: nat)
      returns (r: Result<bool, HostError>)
      requires Open() && pending.Some? && mark <= |log| && Delivered(dispatch, activeId, Total(log[mark..]), [])
      modifies this
      ensures Valid() && mark <= |log| && old(log) <= log && Orderly(dispatch, activeId, Total(log[mark..]))
      ensures Total(log[mark..]).outputs <= Plan(stdout, stderr)
      ensures match AllPieces(old(taken), old(outgoingSequence), activeId, Plan(stdout, stderr))
              case Stuck(e) => r == Err(e)
              case At(sent, i, out) => r == Ok(sent) && taken == i && outgoingSequence == out
      ensures r.Ok? ==> Open() && pending.None? && Settled(dispatch, Total(log[mark..]))
      ensures r == Ok(true) ==> Delivered(dispatch, activeId, Total(log[mark..]), Plan(stdout, stderr))
      ensures r == Ok(false) ==> ReceivedCancel(Total(log[mark..]), activeId)
    {
      hide Total;
      hide Sizes;
      hide Pieces;
      hide OutputFrameCount;
      var remaining := OutputFrameCount(stdout) + OutputFrameCount(stderr);
      PieceCounts(stdout, 0);
      PieceCounts(stderr, FLAG_STDERR);
      PiecesInTurn(taken, outgoingSequence, activeId, Pieces(stdout, 0, 0), Pieces(stderr, 0, FLAG_STDERR));
      var sentOut, left := SendStream(activeId, stdout, 0, remaining, mark, []);
      assert [] + Pieces(stdout, 0, 0) == Pieces(stdout, 0, 0);
      if sentOut.Err? || !sentOut.value { return sentOut; }
      var sentErr, none := SendStream(activeId, stderr, FLAG_STDERR, left, mark, Pieces(stdout, 0, 0));
      if sentErr.Err? || !sentErr.value { return sentErr; }
      return Ok(true);
    }

    /**
     * Streamed input: exactly the payloads of the declared length, one exact credit per frame, and only the last
     * frame marked as the end.
     */
    method ReadFramedInput(activeId: seq<Byte>, expectedLength: nat, ghost mark: nat)
      returns (r: Result<seq<Byte>, HostError>, ghost frames: seq<Frame>)
      requires Open() && pending.None? && mark <= |log| && Delivered(dispatch, activeId, Total(log[mark..]), [])
      modifies this
      ensures Valid() && pending.None? && mark <= |log| && Orderly(dispatch, activeId, Total(log[mark..]))
      ensures Total(log[mark..]).outputs == [] && old(log) <= log
      ensures match InputRead(old(taken), old(outgoingSequence), activeId, expectedLength, [])
              case Stuck(e) => r == Err(e)
              case At(input, i, out) => r == Ok(input) && taken == i && outgoingSequence == out
      ensures r.Ok? ==>
                && Open() && Delivered(dispatch, activeId, Total(log[mark..]), [])
                && InputFrames(frames, activeId, true) && r.value == InputBytes(frames) && |r.value| == expectedLength
                && log == old(log) + Credited(frames, activeId, old(outgoingSequence))
    {
      hide Total;
      hide LittleEndian;
      hide Consumed;
      hide Numbered;
      hide Credited;
      hide InputFrames;
      hide InputBytes;
      hide InputRead, Arrival, HasEof, Delivered, Orderly, Settled, Replied, JustReceived, Waiting, Post, SameOutput;
      DeliveredMeans(dispatch, activeId, Total(log[mark..]), []);
      var collected: seq<Byte> := [];
      var eof := false;
      frames := [];
      assert log + [] == log;
      NoInputYet(activeId, outgoingSequence);
      while !eof
        invariant Open() && pending.None? && mark <= |log| && Delivered(dispatch, activeId, Total(log[mark..]), [])
        invariant InputFrames(frames, activeId, eof) && collected == InputBytes(frames)
        invariant |collected| <= expectedLength && (eof ==> |collected| == expectedLength)
        invariant outgoingSequence == old(outgoingSequence) + |frames|
        invariant InputRead(old(taken), old(outgoingSequence), activeId, expectedLength, [])
               == if eof then At(collected, taken, outgoingSequence)
                  else InputRead(taken, outgoingSequence, activeId, expectedLength, collected)
        invariant log == old(log) + Credited(frames, activeId, old(outgoingSequence))
        decreases |inbound| - taken, !eof
      {
        OneInput(taken, outgoingSequence, activeId, expectedLength, collected);
        StartFrameRead();
        label Reading:
        ghost var start := Total(log[mark..]);
        DeliveredMeans(dispatch, activeId, start, []);
        SettledWaits(dispatch, start);
        var read := ReadControl(mark);
        StaysOrderly(dispatch, activeId, start, Total(log[mark..]));
        if read.Err? { return Err(Unwrapped(read.error)), frames; }
        var frame := read.value;
        NowReceived(dispatch, start, start, frame);
        ReceivedMeans(dispatch, start, Total(log[mark..]), frame);
        if frame.kind != INPUT || frame.generation != 0 || frame.requestId != activeId {
          return Err(DirectionInvalid), frames;
        }
        if |collected| + |frame.payload| > expectedLength { return Err(InputLengthMismatch), frames; }
        collected := collected + frame.payload;
        eof := HasEof(frame.flags);
        if eof && |collected| != expectedLength { return Err(InputLengthMismatch), frames; }
        label Crediting:
        ghost var grown := log;
        var written := Send(CREDIT, 0, activeId, LittleEndian(8, HEADER_LENGTH + |frame.payload|));
        CreditSent(dispatch, grown, log, mark);
        StaysOrderly(dispatch, activeId, Total(grown[mark..]), Total(log[mark..]));
        CreditedInput(dispatch, activeId, start, Total(grown[mark..]), Total(log[mark..]), frame);
        if written.Err? { return Err(written.error), frames; }
        InputStep(frames, frame, activeId);
        frames := frames + [frame];
      }
      DeliveredMeans(dispatch, activeId, Total(log[mark..]), []);
      return Ok(collected), frames;
    }

    /** A control for the active request that is not an interleaved request: it has to be a cancel. */
    method RequireCancel(control: Frame, activeId: seq<Byte>) returns (error: Option<HostError>)
      ensures error == CancelError(control, activeId)
      ensures error.None? <==> control.generation == 0 && control.requestId == activeId && control.kind == CANCEL
    {
      if control.generation != 0 || control.requestId != activeId { return Some(ControlCorrelationInvalid); }
      return if control.kind == CANCEL then None else Some(DirectionInvalid);
    }

    /**
     * A frame that came while the worker runs: an interleaved request, answered and followed by a new read, or the
     * cancel.
     */
    method TakeEarlyControl(activeId: seq<Byte>, ghost mark: nat) returns (r: Result<bool, HostError>)
      requires Open() && pending.Some? && mark <= |log| && Delivered(dispatch, activeId, Total(log[mark..]), [])
      modifies this
      ensures Valid() && mark <= |log| && old(log) <= log
      ensures Total(log[mark..]).outputs == [] && Orderly(dispatch, activeId, Total(log[mark..]))
      ensures r == EarlyControl(old(taken), old(outgoingSequence), activeId)
      ensures r.Ok? ==> Open() && taken == old(taken) + 1 && Settled(dispatch, Total(log[mark..]))
      ensures r.Ok? ==> outgoingSequence == old(outgoingSequence) + if r.value then 1 else 0
      ensures r == Ok(true) ==> pending.Some? && Delivered(dispatch, activeId, Total(log[mark..]), [])
      ensures r == Ok(false) ==> pending.None? && ReceivedCancel(Total(log[mark..]), activeId)
    {
      hide Total;
      hide Consumed;
      hide Numbered;
      hide Interleaving, Arrival, Delivered, Orderly, Settled, Replied, JustReceived, Waiting, Post, SameOutput;
      ghost var start := Total(log[mark..]);
      DeliveredMeans(dispatch, activeId, start, []);
      SettledWaits(dispatch, start);
      var control := ReadControl(mark);
      if control.Err? {
        StaysOrderly(dispatch, activeId, start, Total(log[mark..]));
        return Err(control.error);
      }
      NowReceived(dispatch, start, start, control.value);
      label Handling:
      var handled := HandleInterleavedRequest(control.value, activeId);
      AnswerSettles(dispatch, start, old@Handling(log), log, mark, control.value, old@Handling(outgoingSequence));
      StaysOrderly(dispatch, activeId, start, Total(log[mark..]));
      if handled.Err? { return Err(handled.error); }
      if handled.value {
        StaysDelivered(dispatch, activeId, start, Total(log[mark..]), []);
        StartFrameRead();
        return Ok(true);
      }
      var error := RequireCancel(control.value, activeId);
      if error.Some? { return Err(error.value); }
      ReceivedMeans(dispatch, start, Total(log[mark..]), control.value);
      return Ok(false);
    }

    /**
     * The controls taken while the worker runs; true when one of them was the cancel. Only a frame that came early is
     * taken; a worker that is not disturbed is waited for.
     */
    method WatchWorker(activeId: seq<Byte>, workTicks: nat, ghost mark: nat)
      returns (r: Result<bool, HostError>, ghost answered: nat)
      requires Open() && pending.Some? && mark <= |log| && Delivered(dispatch, activeId, Total(log[mark..]), [])
      modifies this
      ensures Valid() && mark <= |log| && old(log) <= log
      ensures Total(log[mark..]).outputs == [] && Orderly(dispatch, activeId, Total(log[mark..]))
      ensures Passed(old(taken), old(outgoingSequence), activeId, answered)
      ensures r == Ok(false) ==> taken == old(taken) + answered
      ensures r != Ok(false) ==> Ready(old(taken) + answered, old(outgoingSequence) + answered)
      ensures r != Ok(false) ==> EarlyControl(old(taken) + answered, old(outgoingSequence) + answered, activeId)
                                 == if r.Ok? then Ok(false) else r
      ensures r.Ok? ==> outgoingSequence == old(outgoingSequence) + answered
      ensures r == Ok(false) ==> Open() && pending.Some? && Delivered(dispatch, activeId, Total(log[mark..]), [])
      ensures r == Ok(true) ==>
              && Open() && pending.None?
              && Settled(dispatch, Total(log[mark..])) && ReceivedCancel(Total(log[mark..]), activeId)
    {
      hide Total;
      hide Consumed;
      hide Numbered;
      hide Delivered, Settled, Orderly, ReceivedCancel;
      hide Passed, Interleaving, Arrival, CancelError, Ready, EarlyControl;
      answered := 0;
      NonePassed(taken, outgoingSequence, activeId);
      var ticks := workTicks;
      while ticks > 0
        invariant Open() && pending.Some? && mark <= |log| && old(log) <= log
        invariant Delivered(dispatch, activeId, Total(log[mark..]), [])
        invariant taken == old(taken) + answered && outgoingSequence == old(outgoingSequence) + answered
        invariant Passed(old(taken), old(outgoingSequence), activeId, answered)
        decreases ticks
      {
        ticks := ticks - 1;
        var completed := *;
        if !completed || !Ready(taken, outgoingSequence) { continue; }
        EarlyStep(old(taken), old(outgoingSequence), activeId, answered);
        var handled := TakeEarlyControl(activeId, mark);
        if handled.Err? { return Err(handled.error), answered; }
        if !handled.value { return Ok(true), answered; }
        answered := answered + 1;
      }
      var completed := *;
      completed := completed && Ready(taken, outgoingSequence);
      while completed
        invariant Open() && pending.Some? && mark <= |log| && old(log) <= log
        invariant Delivered(dispatch, activeId, Total(log[mark..]), [])
        invariant taken == old(taken) + answered && outgoingSequence == old(outgoingSequence) + answered
        invariant Passed(old(taken), old(outgoingSequence), activeId, answered)
        invariant completed ==> Ready(taken, outgoingSequence)
        decreases |inbound| - taken, completed
      {
        EarlyStep(old(taken), old(outgoingSequence), activeId, answered);
        var handled := TakeEarlyControl(activeId, mark);
        if handled.Err? { return Err(handled.error), answered; }
        if !handled.value { return Ok(true), answered; }
        answered := answered + 1;
        completed := *;
        completed := completed && Ready(taken, outgoingSequence);
      }
      DeliveredMeans(dispatch, activeId, Total(log[mark..]), []);
      return Ok(false), answered;
    }

    lemma FirstControl(i: nat, out: nat, activeId: seq<Byte>)
      ensures Controls(i, out, activeId)
           == match Arrival(i)
              case Err(e) => Stuck(e)
              case Ok(f) =>
                match Interleaving(f, activeId, out)
                case Err(e) => Stuck(e)
                case Ok(answered) => if answered then Controls(i + 1, out + 1, activeId) else At(f, i + 1, out)
    {
    }

    /** What one input frame adds before the rest of the input is read. */
    lemma OneInput(i: nat, out: nat, activeId: seq<Byte>, expected: nat, collected: seq<Byte>)
      ensures InputRead(i, out, activeId, expected, collected)
           == match Arrival(i)
              case Err(e) => Stuck(Unwrapped(e))
              case Ok(f) =>
                var more := collected + f.payload;
                if f.kind != INPUT || f.generation != 0 || f.requestId != activeId then Stuck(DirectionInvalid)
                else if |more| > expected || (HasEof(f.flags) && |more| != expected) then Stuck(InputLengthMismatch)
                else if Sending(out, 8).Some? then Stuck(Sending(out, 8).value)
                else if HasEof(f.flags) then At(more, i + 1, out + 1)
                else InputRead(i + 1, out + 1, activeId, expected, more)
    {
    }

    lemma NonePassed(i: nat, out: nat, activeId: seq<Byte>)
      ensures Passed(i, out, activeId, 0)
    {
    }

    /** One more answered request that came early. */
    lemma EarlyStep(i: nat, out: nat, activeId: seq<Byte>, n: nat)
      requires Passed(i, out, activeId, n) && Ready(i + n, out + n)
      ensures EarlyControl(i + n, out + n, activeId) == Ok(true) ==> Passed(i, out, activeId, n + 1)
    {
      hide EarlyControl, Ready;
    }

    // ----- a peer that keeps to the protocol

    /** From frame i on the peer sends these payloads as input, the last one marked as the end. */
    predicate SendsInput(i: nat, activeId: seq<Byte>, payloads: seq<seq<Byte>>) {
      && payloads != [] && i + |payloads| <= |inbound|
      && forall k :: 0 <= k < |payloads| ==> IsInput(i, activeId, payloads, k)
    }

    predicate IsInput(i: nat, activeId: seq<Byte>, payloads: seq<seq<Byte>>, k: nat)
      requires k < |payloads| && i + k < |inbound|
    {
      inbound[i + k]
      == Ok(Frame(INPUT, if k == |payloads| - 1 then FLAG_EOF else 0, firstIn + i + k, activeId, 0, payloads[k]))
    }

    /** The n frames from i on are well-formed requests of other ids whose answers fit a frame. */
    predicate SendsRequests(i: nat, activeId: seq<Byte>, n: nat) {
      i + n <= |inbound| && forall k :: i <= k < i + n ==> IsRequest(k, activeId)
    }

    predicate IsRequest(k: nat, activeId: seq<Byte>)
      requires k < |inbound|
    {
      && inbound[k].Ok? && inbound[k].value.sequence == firstIn + k && Interleaved(inbound[k].value, activeId)
      && dispatch(inbound[k].value).Some? && |dispatch(inbound[k].value).value| <= MAX_PAYLOAD
    }

    /** From frame i on the peer credits each piece exactly, with so many requests of other ids before each credit. */
    predicate SendsCredits(i: nat, activeId: seq<Byte>, pieces: seq<Piece>, requests: seq<nat>)
      requires |requests| == |pieces|
      decreases |pieces|
    {
      pieces == [] || (
        var j := i + requests[0];
        && SendsRequests(i, activeId, requests[0])
        && j < |inbound|
        && inbound[j]
           == Ok(Frame(CREDIT, 0, firstIn + j, activeId, 0, LittleEndian(8, HEADER_LENGTH + |pieces[0].payload|)))
        && SendsCredits(j + 1, activeId, pieces[1..], requests[1..]))
    }

    lemma {:induction false} InputIsRead(i: nat, out: nat, activeId: seq<Byte>, payloads: seq<seq<Byte>>, expected: nat,
                                         collected: seq<Byte>)
      requires SendsInput(i, activeId, payloads) && |collected| + |Concat(payloads)| == expected
      requires firstIn + i + |payloads| <= LAST_SEQUENCE && out + |payloads| <= LAST_SEQUENCE
      ensures InputRead(i, out, activeId, expected, collected)
              == At(collected + Concat(payloads), i + |payloads|, out + |payloads|)
      decreases |payloads|
    {
      var rest := payloads[1..];
      FirstInput(i, out, activeId, payloads, expected, collected);
      assert collected + payloads[0] + Concat(rest) == collected + Concat(payloads);
      if rest == [] {
        assert collected + payloads[0] + [] == collected + payloads[0];
      } else {
        var next := i + 1;
        forall k | 0 <= k < |rest|
          ensures IsInput(next, activeId, rest, k)
        {
          assert IsInput(i, activeId, payloads, k + 1);
        }
        hide InputRead, IsInput;
        InputIsRead(i + 1, out + 1, activeId, rest, expected, collected + payloads[0]);
      }
    }

    lemma FirstInput(i: nat, out: nat, activeId: seq<Byte>, payloads: seq<seq<Byte>>, expected: nat,
                     collected: seq<Byte>)
      requires SendsInput(i, activeId, payloads) && |collected| + |Concat(payloads)| == expected
      requires firstIn + i < LAST_SEQUENCE && out < LAST_SEQUENCE
      ensures InputRead(i, out, activeId, expected, collected)
           == if |payloads| == 1 then At(collected + payloads[0], i + 1, out + 1)
              else InputRead(i + 1, out + 1, activeId, expected, collected + payloads[0])
    {
      assert IsInput(i, activeId, payloads, 0);
      if |payloads| == 1 { assert payloads[1..] == []; }
    }

    lemma {:induction false} RequestsAreAnswered(i: nat, out: nat, activeId: seq<Byte>, n: nat)
      requires SendsRequests(i, activeId, n) && firstIn + i + n <= LAST_SEQUENCE && out + n <= LAST_SEQUENCE
      ensures Controls(i, out, activeId) == Controls(i + n, out + n, activeId)
      decreases n
    {
      if n > 0 {
        assert IsRequest(i, activeId);
        RequestsAreAnswered(i + 1, out + 1, activeId, n - 1);
      }
    }

    lemma CreditIsTaken(i: nat, out: nat, activeId: seq<Byte>, piece: Piece)
      requires i < |inbound| && |piece.payload| <= MAX_PAYLOAD && firstIn + i < LAST_SEQUENCE
      requires inbound[i]
               == Ok(Frame(CREDIT, 0, firstIn + i, activeId, 0, LittleEndian(8, HEADER_LENGTH + |piece.payload|)))
      ensures Controls(i, out, activeId) == At(inbound[i].value, i + 1, out)
      ensures Verdict(inbound[i].value, activeId, piece) == Ok(true)
    {
      ExactCredit(piece, firstIn + i, activeId);
      hide Verdict, LittleEndian;
    }

    lemma {:induction false} PiecesAreCredited(i: nat, out: nat, activeId: seq<Byte>, pieces: seq<Piece>,
                                               requests: seq<nat>)
      requires |requests| == |pieces| && SendsCredits(i, activeId, pieces, requests)
      requires forall k :: 0 <= k < |pieces| ==> |pieces[k].payload| <= MAX_PAYLOAD
      requires var n := |pieces| + Sum(requests); firstIn + i + n <= LAST_SEQUENCE && out + n <= LAST_SEQUENCE
      ensures AllPieces(i, out, activeId, pieces)
              == At(true, i + |pieces| + Sum(requests), out + |pieces| + Sum(requests))
      decreases |pieces|
    {
      hide OnePiece, AllPieces, SendsRequests, SendsCredits, LittleEndian, Sum;
      if pieces == [] {
        NoPieces(i, out, activeId);
        SumOf(requests);
      } else {
        var n := requests[0];
        SumOf(requests);
        FirstCredit(i, activeId, pieces, requests);
        PieceIsCredited(i, out, activeId, pieces[0], n);
        FirstPiece(i, out, activeId, pieces[0], pieces[1..]);
        PiecesAreCredited(i + n + 1, out + 1 + n, activeId, pieces[1..], requests[1..]);
        assert [pieces[0]] + pieces[1..] == pieces;
      }
    }

    lemma FirstCredit(i: nat, activeId: seq<Byte>, pieces: seq<Piece>, requests: seq<nat>)
      requires |requests| == |pieces| > 0 && SendsCredits(i, activeId, pieces, requests)
      ensures var j := i + requests[0];
              && SendsRequests(i, activeId, requests[0]) && j < |inbound|
              && inbound[j]
                 == Ok(Frame(CREDIT, 0, firstIn + j, activeId, 0, LittleEndian(8, HEADER_LENGTH + |pieces[0].payload|)))
              && SendsCredits(j + 1, activeId, pieces[1..], requests[1..])
    {
      hide SendsRequests, LittleEndian;
    }

    lemma PieceIsCredited(i: nat, out: nat, activeId: seq<Byte>, piece: Piece, n: nat)
      requires SendsRequests(i, activeId, n) && i + n < |inbound| && |piece.payload| <= MAX_PAYLOAD
      requires inbound[i + n]
               == Ok(Frame(CREDIT, 0, firstIn + i + n, activeId, 0, LittleEndian(8, HEADER_LENGTH + |piece.payload|)))
      requires firstIn + i + n < LAST_SEQUENCE && out + n < LAST_SEQUENCE
      ensures OnePiece(i, out, activeId, piece) == At(true, i + n + 1, out + 1 + n)
    {
      RequestsAreAnswered(i, out + 1, activeId, n);
      CreditIsTaken(i + n, out + 1 + n, activeId, piece);
      hide Controls, Verdict, SendsRequests, LittleEndian;
    }

    /** Requests made before the credit may be answered early; the later ones are then left before it. */
    lemma SkipRequests(i: nat, activeId: seq<Byte>, pieces: seq<Piece>, requests: seq<nat>, n: nat)
      requires |requests| == |pieces| > 0 && n <= requests[0] && SendsCredits(i, activeId, pieces, requests)
      ensures SendsCredits(i + n, activeId, pieces, requests[0 := requests[0] - n])
      ensures Sum(requests[0 := requests[0] - n]) == Sum(requests) - n
    {
      var fewer := requests[0 := requests[0] - n];
      FirstCredit(i, activeId, pieces, requests);
      assert fewer[1..] == requests[1..];
      LaterRequests(i, activeId, requests[0], n);
      SumOf(requests);
      SumOf(fewer);
      hide SendsRequests, LittleEndian, Sum;
    }

    lemma LaterRequests(i: nat, activeId: seq<Byte>, n: nat, k: nat)
      requires SendsRequests(i, activeId, n) && k <= n
      ensures SendsRequests(i + k, activeId, n - k)
    {
      hide IsRequest;
    }

    lemma RequestIsAnsweredEarly(i: nat, out: nat, activeId: seq<Byte>, n: nat, k: nat)
      requires SendsRequests(i, activeId, n) && k < n && firstIn + i + k < LAST_SEQUENCE && out + k < LAST_SEQUENCE
      ensures EarlyControl(i + k, out + k, activeId) == Ok(true)
    {
      assert IsRequest(i + k, activeId);
    }

    lemma PassedAt(i: nat, out: nat, activeId: seq<Byte>, n: nat, k: nat)
      requires Passed(i, out, activeId, n) && k < n
      ensures Ready(i + k, out + k) && EarlyControl(i + k, out + k, activeId) == Ok(true)
    {
      hide Ready, EarlyControl;
      assert AnsweredEarly(i, out, activeId, k);
    }

    /**
     * Requests never disturb a running worker. With a frame behind them that is the cancel if it is there early, the
     * worker's result is delivered or that cancel is taken.
     */
    lemma RequestsDoNotDisturb(i: nat, out: nat, activeId: seq<Byte>, n: nat, result: WorkResult, canceled: seq<Byte>,
                               stops: bool, early: nat, r: Result<Ending, HostError>)
      requires SendsRequests(i, activeId, n) && firstIn + i + n <= LAST_SEQUENCE && out + n <= LAST_SEQUENCE
      requires Ready(i + n, out + n) ==> EarlyControl(i + n, out + n, activeId) == Ok(false)
      requires Concludes(i, out, activeId, result, canceled, stops, early, r)
      ensures early <= n
      ensures r == Delivery(i + early, out + early, activeId, result, canceled)
              || (Ready(i + n, out + n)
                  && r == if stops then Closing(out + n, |canceled|, Canceled) else Err(CancelFailed))
    {
      hide Delivery, EarlyControl, Ready, SendsRequests, Closing;
      if early > n { PassedAt(i, out, activeId, early, n); }
      if early < n { RequestIsAnsweredEarly(i, out, activeId, n, early); }
    }

    /**
     * A peer that keeps to the protocol is served: it sends input of the declared length with the end marked last,
     * then one exact credit for each piece, the first not before any output, with any requests of other ids before
     * each credit, whether or not the worker still runs; no counter runs out; the response fits a frame. The request
     * then completes with the worker's output.
     */
    lemma WellBehavedPeerIsServed(i: nat, out: nat, activeId: seq<Byte>, payloads: seq<seq<Byte>>,
                                  work: seq<Byte> -> WorkResult,
                                  requests: seq<nat>, canceled: seq<Byte>, stops: bool, early: nat,
                                  r: Result<Ending, HostError>)
      requires var result := work(Concat(payloads));
               var plan := Plan(Stdout(result), Stderr(result));
               var (j, sent, n) := (i + |payloads|, out + 1 + |payloads|, |plan| + Sum(requests));
               && SendsInput(i, activeId, payloads)
               && |requests| == |plan| && SendsCredits(j, activeId, plan, requests)
               && (requests != [] ==> !Ready(j + requests[0], sent + requests[0]))
               && firstIn + j + n <= LAST_SEQUENCE && sent + n < LAST_SEQUENCE && |result.response| <= MAX_PAYLOAD
      requires Follows(i, out, activeId, |Concat(payloads)|, work, canceled, stops, early, r)
      ensures r == Ok(match work(Concat(payloads))
                      case Ran(out, err, _) => Completed(out, err)
                      case Failed(_) => Completed([], []))
    {
      var input := Concat(payloads);
      var result := work(input);
      var plan := Plan(Stdout(result), Stderr(result));
      var j, sent := i + |payloads|, out + 1 + |payloads|;
      hide InputRead, AllPieces, Passed, Ready, SendsInput, SendsCredits, Plan, Concat, Sum, EarlyControl, Follows;
      hide Delivery, Concludes, SendsRequests, LittleEndian;
      PlanFits(Stdout(result), Stderr(result));
      SumOf(requests);
      FirstCredit(j, activeId, plan, requests);
      InputLeadsTo(i, out, activeId, payloads, work, canceled, stops, early, r);
      RequestsDoNotDisturb(j, sent, activeId, requests[0], result, canceled, stops, early, r);
      SkipRequests(j, activeId, plan, requests, early);
      PiecesAreCredited(j + early, sent + early, activeId, plan, requests[0 := requests[0] - early]);
      CreditedCompletes(j + early, sent + early, activeId, result, canceled);
    }

    /** Input sent whole is read whole, and what comes of the request is then settled behind it. */
    lemma InputLeadsTo(i: nat, out: nat, activeId: seq<Byte>, payloads: seq<seq<Byte>>, work: seq<Byte> -> WorkResult,
                       canceled: seq<Byte>, stops: bool, early: nat, r: Result<Ending, HostError>)
      requires SendsInput(i, activeId, payloads)
      requires firstIn + i + |payloads| <= LAST_SEQUENCE && out + 1 + |payloads| <= LAST_SEQUENCE
      requires Follows(i, out, activeId, |Concat(payloads)|, work, canceled, stops, early, r)
      ensures Concludes(i + |payloads|, out + 1 + |payloads|, activeId, work(Concat(payloads)), canceled, stops, early,
                        r)
    {
      hide InputRead, SendsInput, Concat, Concludes;
      InputIsRead(i, out + 1, activeId, payloads, |Concat(payloads)|, []);
      assert [] + Concat(payloads) == Concat(payloads);
    }

    // ----- a peer that cancels

    predicate IsCancel(k: nat, activeId: seq<Byte>) {
      && k < |inbound| && inbound[k].Ok? && inbound[k].value.sequence == firstIn + k
      && CancelError(inbound[k].value, activeId).None?
    }

    /** From frame i on the peer credits these pieces, then cancels, with so many requests before each of the two. */
    predicate SendsCancel(i: nat, activeId: seq<Byte>, pieces: seq<Piece>, requests: seq<nat>)
      requires |requests| == |pieces| + 1
      decreases |pieces|
    {
      var j := i + requests[0];
      && SendsRequests(i, activeId, requests[0])
      && j < |inbound|
      && if pieces == [] then IsCancel(j, activeId)
         else inbound[j]
              == Ok(Frame(CREDIT, 0, firstIn + j, activeId, 0, LittleEndian(8, HEADER_LENGTH + |pieces[0].payload|)))
              && SendsCancel(j + 1, activeId, pieces[1..], requests[1..])
    }

    lemma CancelIsTaken(i: nat, out: nat, activeId: seq<Byte>, piece: Piece)
      requires IsCancel(i, activeId) && firstIn + i < LAST_SEQUENCE
      ensures EarlyControl(i, out, activeId) == Ok(false)
      ensures Controls(i, out, activeId) == At(inbound[i].value, i + 1, out)
      ensures Verdict(inbound[i].value, activeId, piece) == Ok(false)
    {
    }

    lemma PieceIsCanceled(i: nat, out: nat, activeId: seq<Byte>, piece: Piece, n: nat)
      requires SendsRequests(i, activeId, n) && IsCancel(i + n, activeId) && |piece.payload| <= MAX_PAYLOAD
      requires firstIn + i + n < LAST_SEQUENCE && out + n < LAST_SEQUENCE
      ensures OnePiece(i, out, activeId, piece) == At(false, i + n + 1, out + 1 + n)
    {
      RequestsAreAnswered(i, out + 1, activeId, n);
      CancelIsTaken(i + n, out + 1 + n, activeId, piece);
      hide Controls, Verdict, SendsRequests, IsCancel, EarlyControl;
    }

    /** The cancel ends the output behind the credited pieces and the one that it answers. */
    lemma {:induction false} CancelEndsOutput(i: nat, out: nat, activeId: seq<Byte>, pieces: seq<Piece>,
                                              all: seq<Piece>, requests: seq<nat>)
      requires pieces < all && |requests| == |pieces| + 1 && SendsCancel(i, activeId, pieces, requests)
      requires forall k :: 0 <= k < |all| ==> |all[k].payload| <= MAX_PAYLOAD
      requires var n := |pieces| + Sum(requests); firstIn + i + n < LAST_SEQUENCE && out + n < LAST_SEQUENCE
      ensures AllPieces(i, out, activeId, all)
              == At(false, i + |pieces| + Sum(requests) + 1, out + |pieces| + Sum(requests) + 1)
      decreases |pieces|
    {
      hide OnePiece, AllPieces, SendsRequests, LittleEndian, Sum, IsCancel;
      var n := requests[0];
      SumOf(requests);
      assert [all[0]] + all[1..] == all;
      FirstPiece(i, out, activeId, all[0], all[1..]);
      if pieces == [] {
        SumOf(requests[1..]);
        PieceIsCanceled(i, out, activeId, all[0], n);
      } else {
        assert pieces[0] == all[0] && pieces[1..] < all[1..];
        PieceIsCredited(i, out, activeId, all[0], n);
        CancelEndsOutput(i + n + 1, out + 1 + n, activeId, pieces[1..], all[1..], requests[1..]);
      }
    }

    lemma SkipRequestsBeforeCancel(i: nat, activeId: seq<Byte>, pieces: seq<Piece>, requests: seq<nat>, n: nat)
      requires |requests| == |pieces| + 1 && n <= requests[0] && SendsCancel(i, activeId, pieces, requests)
      ensures SendsCancel(i + n, activeId, pieces, requests[0 := requests[0] - n])
      ensures Sum(requests[0 := requests[0] - n]) == Sum(requests) - n
    {
      var fewer := requests[0 := requests[0] - n];
      assert fewer[1..] == requests[1..];
      LaterRequests(i, activeId, requests[0], n);
      SumOf(requests);
      SumOf(fewer);
      hide SendsRequests, LittleEndian, Sum, IsCancel;
    }

    /** Where the cancel may be taken early it comes first; a credit does not come before any output. */
    lemma CancelMayComeEarly(i: nat, out: nat, activeId: seq<Byte>, pieces: seq<Piece>, requests: seq<nat>)
      requires |requests| == |pieces| + 1 && SendsCancel(i, activeId, pieces, requests)
      requires pieces != [] ==> !Ready(i + requests[0], out + requests[0])
      requires firstIn + i + requests[0] < LAST_SEQUENCE
      ensures SendsRequests(i, activeId, requests[0])
      ensures Ready(i + requests[0], out + requests[0]) ==>
              EarlyControl(i + requests[0], out + requests[0], activeId) == Ok(false)
    {
      if pieces == [] { CancelIsTaken(i + requests[0], out + requests[0], activeId, Piece(0, [])); }
      hide SendsRequests, EarlyControl, Ready, IsCancel, LittleEndian;
    }

    /**
     * A peer that cancels instead of crediting the next piece, early or not, gets its request cancelled; that fails
     * only for a cancel taken while the worker still runs and does not stop in time.
     */
    lemma CancelingPeerIsCanceled(i: nat, out: nat, activeId: seq<Byte>, payloads: seq<seq<Byte>>,
                                  work: seq<Byte> -> WorkResult, credited: seq<Piece>,
                                  requests: seq<nat>, canceled: seq<Byte>, stops: bool, early: nat,
                                  r: Result<Ending, HostError>)
      requires var result := work(Concat(payloads));
               var plan := Plan(Stdout(result), Stderr(result));
               var (j, sent, n) := (i + |payloads|, out + 1 + |payloads|, |credited| + 1 + Sum(requests));
               && SendsInput(i, activeId, payloads)
               && credited < plan && |requests| == |credited| + 1 && SendsCancel(j, activeId, credited, requests)
               && (credited != [] ==> !Ready(j + requests[0], sent + requests[0]))
               && firstIn + j + n <= LAST_SEQUENCE && sent + n < LAST_SEQUENCE && |canceled| <= MAX_PAYLOAD
      requires Follows(i, out, activeId, |Concat(payloads)|, work, canceled, stops, early, r)
      ensures r == Ok(Canceled)
              || (r == Err(CancelFailed) && !stops
                  && Ready(i + |payloads| + requests[0], out + 1 + |payloads| + requests[0]))
    {
      var input := Concat(payloads);
      var result := work(input);
      var j, sent := i + |payloads|, out + 1 + |payloads|;
      hide InputRead, Passed, Ready, SendsInput, SendsCancel, Plan, Concat, Sum, EarlyControl, Follows;
      hide Delivery, Concludes, SendsRequests;
      SumOf(requests);
      InputLeadsTo(i, out, activeId, payloads, work, canceled, stops, early, r);
      CancelMayComeEarly(j, sent, activeId, credited, requests);
      RequestsDoNotDisturb(j, sent, activeId, requests[0], result, canceled, stops, early, r);
      CancelDelivers(j, sent, activeId, result, credited, requests, canceled, early);
    }

    /** The output of a peer that cancels, so many of whose first requests have been answered already. */
    lemma CancelDelivers(j: nat, sent: nat, activeId: seq<Byte>, result: WorkResult, credited: seq<Piece>,
                         requests: seq<nat>, canceled: seq<Byte>, early: nat)
      requires credited < Plan(Stdout(result), Stderr(result)) && |requests| == |credited| + 1
      requires early <= requests[0] && SendsCancel(j, activeId, credited, requests) && |canceled| <= MAX_PAYLOAD
      requires var n := |credited| + 1 + Sum(requests); firstIn + j + n <= LAST_SEQUENCE && sent + n < LAST_SEQUENCE
      ensures Delivery(j + early, sent + early, activeId, result, canceled) == Ok(Canceled)
    {
      var plan := Plan(Stdout(result), Stderr(result));
      hide AllPieces, SendsCancel, Plan, Sum, Delivery;
      PlanFits(Stdout(result), Stderr(result));
      SkipRequestsBeforeCancel(j, activeId, credited, requests, early);
      CancelEndsOutput(j + early, sent + early, activeId, credited, plan, requests[0 := requests[0] - early]);
      CanceledCloses(j + early, sent + early, activeId, result, canceled);
    }

    lemma CanceledCloses(i: nat, out: nat, activeId: seq<Byte>, result: WorkResult, canceled: seq<Byte>)
      requires var sent := AllPieces(i, out, activeId, Plan(Stdout(result), Stderr(result)));
               sent.At? && !sent.value && sent.out < LAST_SEQUENCE && |canceled| <= MAX_PAYLOAD
      ensures Delivery(i, out, activeId, result, canceled) == Ok(Canceled)
    {
      hide AllPieces, Plan;
    }

    lemma CreditedCompletes(i: nat, out: nat, activeId: seq<Byte>, result: WorkResult, canceled: seq<Byte>)
      requires var sent := AllPieces(i, out, activeId, Plan(Stdout(result), Stderr(result)));
               sent.At? && sent.value && sent.out < LAST_SEQUENCE && |result.response| <= MAX_PAYLOAD
      ensures Delivery(i, out, activeId, result, canceled) == Ok(Completed(Stdout(result), Stderr(result)))
    {
      hide AllPieces, Plan;
    }

    lemma NoPieces(i: nat, out: nat, activeId: seq<Byte>)
      ensures AllPieces(i, out, activeId, []) == At(true, i, out)
    {
    }

    lemma FirstPiece(i: nat, out: nat, activeId: seq<Byte>, piece: Piece, rest: seq<Piece>)
      ensures AllPieces(i, out, activeId, [piece] + rest) == Then(OnePiece(i, out, activeId, piece), activeId, rest)
    {
      hide OnePiece, Then;
      assert ([piece] + rest)[1..] == rest;
    }

    /** Two lists of pieces, one after the other. */
    lemma {:induction false} PiecesInTurn(i: nat, out: nat, activeId: seq<Byte>, a: seq<Piece>, b: seq<Piece>)
      ensures AllPieces(i, out, activeId, a + b) == Then(AllPieces(i, out, activeId, a), activeId, b)
      decreases |a|
    {
      hide OnePiece;
      if a == [] {
        assert a + b == b;
      } else {
        assert (a + b)[0] == a[0] && (a + b)[1..] == a[1..] + b;
        var first := OnePiece(i, out, activeId, a[0]);
        if first.At? { PiecesInTurn(first.taken, first.out, activeId, a[1..], b); }
      }
    }

    /**
     * A whole framed request. The worker is any function of the streamed input that takes any number of ticks and
     * stops in time when cancelled, or does not; controls arrive at any time. When the request returns normally no
     * read is outstanding; every request received has been answered once with what it was dispatched to, this one
     * last, with the worker's response or the one for cancelled requests; and either every piece of the result was
     * sent and credited, or it was cancelled.
     */
    method HandleFramedRequest(request: Frame, inputLength: nat, work: seq<Byte> -> WorkResult, workTicks: nat,
                               canceledResponse: seq<Byte>, stops: bool)
      returns (r: Result<Ending, HostError>, ghost frames: seq<Frame>, ghost early: nat)
      requires Open() && pending.None?
      modifies this
      ensures Follows(old(taken), old(outgoingSequence), request.requestId, inputLength, work, canceledResponse,
                      stops, early, r)
      ensures Valid() && old(log) <= log && Total(log[|old(log)|..]).peak <= 1
      ensures Total(log[|old(log)|..]).recipients <= {request.requestId}
      ensures r.Ok? ==> Open() && pending.None?
      ensures r.Ok? ==>
                var due := if r.value.Canceled? then canceledResponse else work(InputBytes(frames)).response;
                && Answered(dispatch, request.requestId, Total(log[|old(log)|..]), due)
                && log[|log| - 1] == Sent(Frame(RESPONSE_JSON, 0, outgoingSequence - 1, request.requestId, 0, due))
      ensures r.Err? ==>
                var b := Total(log[|old(log)|..]);
                || Replied(dispatch, b)
                || Answered(dispatch, request.requestId, b, canceledResponse)
                || Answered(dispatch, request.requestId, b, work(InputBytes(frames)).response)
      ensures r.Ok? ==> old(log) + Opening(request, frames, old(outgoingSequence)) <= log
      ensures r.Ok? ==> InputFrames(frames, request.requestId, true) && |InputBytes(frames)| == inputLength
      ensures r.Ok? && r.value.Completed? ==>
                var (out, err) := match work(InputBytes(frames))
                  case Ran(stdout, stderr, _) => (stdout, stderr)
                  case Failed(_) => ([], []);
                && r.value == Completed(out, err)
                && Total(log[|old(log)|..]).outputs == Plan(out, err)
                && Total(log[|old(log)|..]).credits == Sizes(Plan(out, err))
      ensures r == Ok(Canceled) ==> ReceivedCancel(Total(log[|old(log)|..]), request.requestId)
    {
      ghost var mark := |log|;
      EmptyTrace(dispatch, request.requestId, log);
      hide Total, Sizes, Plan, InputFrames, InputBytes, Credited, Consumed, Numbered, LittleEndian, Replies;
      hide Delivered, Orderly, Settled, Replied, Answered, ReceivedCancel, Post, SameOutput;
      hide Concludes, Sending, InputRead;
      var activeId := request.requestId;
      ghost var start := Total(log[mark..]);
      DeliveredMeans(dispatch, activeId, start, []);
      frames, early := [], 0;
      label Crediting:
      var credit := Send(CREDIT, 0, activeId, LittleEndian(8, HEADER_LENGTH + |request.payload|));
      CreditSent(dispatch, old@Crediting(log), log, mark);
      CreditWaits(dispatch, start, Total(log[mark..]));
      StaysDelivered(dispatch, activeId, start, Total(log[mark..]), []);
      StaysOrderly(dispatch, activeId, start, Total(log[mark..]));
      OrderlyMeans(dispatch, activeId, Total(log[mark..]));
      if credit.Err? { return Err(credit.error), frames, early; }
      var input, inputFrames := ReadFramedInput(activeId, inputLength, mark);
      frames := inputFrames;
      OrderlyMeans(dispatch, activeId, Total(log[mark..]));
      if input.Err? { return Err(input.error), frames, early; }
      OpeningSent(old(log), log, request, frames, old(outgoingSequence));
      r, early := RunRequest(activeId, work(input.value), workTicks, canceledResponse, stops, mark);
    }

    /** The worker runs, and its result is delivered, or it is cancelled. */
    method RunRequest(activeId: seq<Byte>, result: WorkResult, workTicks: nat, canceledResponse: seq<Byte>,
                      stops: bool, ghost mark: nat)
      returns (r: Result<Ending, HostError>, ghost early: nat)
      requires Open() && pending.None? && mark <= |log| && Delivered(dispatch, activeId, Total(log[mark..]), [])
      modifies this
      ensures Concludes(old(taken), old(outgoingSequence), activeId, result, canceledResponse, stops, early, r)
      ensures Valid() && mark <= |log| && old(log) <= log
      ensures Total(log[mark..]).peak <= 1 && Total(log[mark..]).recipients <= {activeId}
      ensures r.Ok? ==>
                var due := if r.value.Canceled? then canceledResponse else result.response;
                && Open() && pending.None?
                && Answered(dispatch, activeId, Total(log[mark..]), due)
                && log[|log| - 1] == Sent(Frame(RESPONSE_JSON, 0, outgoingSequence - 1, activeId, 0, due))
      ensures r.Err? ==>
                || Replied(dispatch, Total(log[mark..]))
                || Answered(dispatch, activeId, Total(log[mark..]), canceledResponse)
                || Answered(dispatch, activeId, Total(log[mark..]), result.response)
      ensures r.Ok? && r.value.Completed? ==>
                && r.value == Completed(Stdout(result), Stderr(result))
                && Total(log[mark..]).outputs == Plan(Stdout(result), Stderr(result))
                && Total(log[mark..]).credits == Sizes(Plan(Stdout(result), Stderr(result)))
      ensures r == Ok(Canceled) ==> ReceivedCancel(Total(log[mark..]), activeId)
    {
      hide Total, Sizes, Plan, Consumed, Numbered, Replies, Delivered, Orderly, Settled, Replied, Answered, Post;
      hide SameOutput, Passed, Interleaving, Arrival, CancelError, Ready, EarlyControl, Sending, AllPieces;
      StartFrameRead();
      var canceled, answered := WatchWorker(activeId, workTicks, mark);
      early := answered;
      OrderlyMeans(dispatch, activeId, Total(log[mark..]));
      if canceled.Err? { return Err(canceled.error), early; }
      if canceled.value {
        if !stops { return Err(CancelFailed), early; }
        ghost var before := Total(log[mark..]);
        var closed := Answer(activeId, canceledResponse, mark);
        SameOutputMeans(before, Total(log[mark..]));
        if closed.Err? { return Err(closed.error), early; }
        return Ok(Canceled), early;
      }
      var sent := WriteFramedOutput(activeId, Stdout(result), Stderr(result), mark);
      OrderlyMeans(dispatch, activeId, Total(log[mark..]));
      if sent.Err? { return Err(sent.error), early; }
      ghost var before := Total(log[mark..]);
      DeliveredMeans(dispatch, activeId, before, Plan(Stdout(result), Stderr(result)));
      var closed := Answer(activeId, if sent.value then result.response else canceledResponse, mark);
      SameOutputMeans(before, Total(log[mark..]));
      if closed.Err? { return Err(closed.error), early; }
      return Ok(if sent.value then Completed(Stdout(result), Stderr(result)) else Canceled), early;
    }

    /** The response to the active request, after which nothing received is unanswered. */
    method Answer(activeId: seq<Byte>, payload: seq<Byte>, ghost mark: nat) returns (r: Result<(), HostError>)
      requires Open() && mark <= |log| && Settled(dispatch, Total(log[mark..]))
      modifies this
      ensures Valid() && mark <= |log| && pending == old(pending) && old(log) <= log
      ensures r == SendResult(old(outgoingSequence), |payload|)
      ensures SameOutput(old(Total(log[mark..])), Total(log[mark..]))
      ensures Total(log[mark..]).credits == old(Total(log[mark..])).credits
      ensures Total(log[mark..]).received == old(Total(log[mark..])).received
      ensures log == old(log)
              || (log == old(log) + [Sent(Frame(RESPONSE_JSON, 0, old(outgoingSequence), activeId, 0, payload))]
                  && Answered(dispatch, activeId, Total(log[mark..]), payload))
      ensures r.Ok? ==> Open() && log != old(log) && outgoingSequence == old(outgoingSequence) + 1
    {
      hide Total, Replies;
      r := Send(RESPONSE_JSON, 0, activeId, payload);
      if log != old(log) { ResponseAdds(old(log), mark, old(outgoingSequence), activeId, payload); }
    }
  }

  // ----- one run

  /** Empty input, a request of another id, and a credit for each of the two empty streams. */
  function Exchange(activeId: seq<Byte>, other: seq<Byte>): seq<Result<Frame, FrameError>> {
    [Ok(Frame(INPUT, FLAG_EOF, 2, activeId, 0, [])), Ok(Frame(REQUEST_JSON, 0, 3, other, 0, [])),
     Ok(Frame(CREDIT, 0, 4, activeId, 0, LittleEndian(8, HEADER_LENGTH))),
     Ok(Frame(CREDIT, 0, 5, activeId, 0, LittleEndian(8, HEADER_LENGTH)))]
  }

  function Silent(): seq<Byte> -> WorkResult {
    _ => Ran([], [], [])
  }

  function Nothing(): Dispatch {
    _ => Some([])
  }

  function RequestAtOnce(): (nat, nat) -> bool {
    (i: nat, sent: nat) => i == 1
  }

  /** A run from a new session whose peer makes a request of another id while the worker runs; it is served. */
  method ServedRun(activeId: seq<Byte>, other: seq<Byte>, workTicks: nat, stops: bool)
    returns (r: Result<Ending, HostError>)
    requires activeId != other
    ensures r == Ok(Completed([], []))
  {
    var session := new Session(Exchange(activeId, other), 2, 1, Nothing(), RequestAtOnce());
    var request := Frame(REQUEST_JSON, 0, 1, activeId, 0, []);
    ghost var frames, early;
    r, frames, early := session.HandleFramedRequest(request, 0, Silent(), workTicks, [], stops);
    ServedPeer(session, activeId, other, stops, early, r);
  }

  function EmptyPieces(): seq<Piece> {
    [Piece(FLAG_EOF, []), Piece(FLAG_STDERR + FLAG_EOF, [])]
  }

  ghost predicate Exchanging(session: Session, activeId: seq<Byte>, other: seq<Byte>) {
    && activeId != other && session.inbound == Exchange(activeId, other)
    && session.firstIn == 2 && session.firstOut == 1
    && session.dispatch == Nothing() && session.arrives == RequestAtOnce()
  }

  lemma ServedInput(session: Session, activeId: seq<Byte>, other: seq<Byte>)
    requires Exchanging(session, activeId, other)
    ensures session.SendsInput(0, activeId, [[]])
    ensures Concat([[]]) == []
  {
    var payloads: seq<seq<Byte>> := [[]];
    assert payloads[1..] == [];
    assert Concat(payloads) == [];
    hide LittleEndian, Concat;
  }

  lemma ServedRequest(session: Session, activeId: seq<Byte>, other: seq<Byte>)
    requires Exchanging(session, activeId, other)
    ensures session.SendsRequests(1, activeId, 1) && session.SendsRequests(3, activeId, 0)
  {
    hide LittleEndian;
    assert session.IsRequest(1, activeId);
  }

  lemma ServedCredits(session: Session, activeId: seq<Byte>, other: seq<Byte>)
    requires Exchanging(session, activeId, other)
    ensures session.SendsCredits(1, activeId, EmptyPieces(), [1, 0])
  {
    ServedRequest(session, activeId, other);
    hide LittleEndian, session.SendsRequests;
    var last := EmptyPieces()[1..];
    assert last[1..] == [] && [0][1..] == [] && [1, 0][1..] == [0];
    assert session.SendsCredits(3, activeId, last, [0]);
  }

  lemma ServedPeer(session: Session, activeId: seq<Byte>, other: seq<Byte>, stops: bool, early: nat,
                   r: Result<Ending, HostError>)
    requires Exchanging(session, activeId, other)
    requires session.Follows(0, 1, activeId, 0, Silent(), [], stops, early, r)
    ensures r == Ok(Completed([], []))
  {
    ServedInput(session, activeId, other);
    ServedCredits(session, activeId, other);
    NothingToSend();
    NoEarlyCredit(session, activeId, other);
    hide *;
    session.WellBehavedPeerIsServed(0, 1, activeId, [[]], Silent(), [1, 0], [], stops, early, r);
  }

  lemma NothingToSend()
    ensures var result := Silent()([]);
            && Stdout(result) == Stderr(result) == result.response == []
            && Plan(Stdout(result), Stderr(result)) == EmptyPieces() && |EmptyPieces()| == 2
    ensures Sum([1, 0]) == 1 && MAX_PAYLOAD > 0 && LAST_SEQUENCE > 10
  {
    SumOf([1, 0]);
    SumOf([0]);
    SumOf([0][1..]);
    hide Sum;
    assert Silent()([]) == Ran([], [], []);
  }

  lemma NoEarlyCredit(session: Session, activeId: seq<Byte>, other: seq<Byte>)
    requires Exchanging(session, activeId, other)
    ensures !session.Ready(2, 4) && session.firstIn == 2
  {
    hide LittleEndian;
  }

  /** Why the frame numbered out cannot be sent: its payload is too long, or there is no next number. */
  function Sending(out: nat, length: nat): Option<HostError> {
    if length > MAX_PAYLOAD then Some(BadFrame(FrameTooLarge))
    else if out == LAST_SEQUENCE then Some(BadFrame(SequenceExhausted))
    else None
  }

  /** A read that is not waited for through a task reports its own error. */
  function Unwrapped(e: HostError): HostError {
    match e
    case TruncatedControl => TruncatedInput
    case ReadFailed(inner) => BadFrame(inner)
    case _ => e
  }

  function SendResult(out: nat, length: nat): Result<(), HostError> {
    if Sending(out, length).Some? then Err(Sending(out, length).value) else Ok(())
  }

  predicate Interleaved(frame: Frame, activeId: seq<Byte>) {
    frame.kind == REQUEST_JSON && frame.requestId != activeId
  }

  /** What a control says about the piece before it: credited, cancelled, or out of place. */
  function Verdict(control: Frame, activeId: seq<Byte>, piece: Piece): Result<bool, HostError> {
    if control.generation != 0 || control.requestId != activeId then Err(ControlCorrelationInvalid)
    else if control.kind == CANCEL then Ok(false)
    else if control.kind != CREDIT || |control.payload| != 8 then Err(InvalidCredit)
    else if Value(control.payload) != HEADER_LENGTH + |piece.payload| || Value(control.payload) > MAX_CREDIT
      then Err(InvalidCredit)
    else Ok(true)
  }

  lemma ExactCredit(piece: Piece, sequence: nat, activeId: seq<Byte>)
    requires |piece.payload| <= MAX_PAYLOAD
    ensures Verdict(Frame(CREDIT, 0, sequence, activeId, 0, LittleEndian(8, HEADER_LENGTH + |piece.payload|)), activeId,
                    piece) == Ok(true)
  {
    Pow256Values();
    ValueOfLittleEndian(8, HEADER_LENGTH + |piece.payload|);
    hide Value, LittleEndian, Pow256;
  }

  function CancelError(control: Frame, activeId: seq<Byte>): Option<HostError> {
    if control.generation != 0 || control.requestId != activeId then Some(ControlCorrelationInvalid)
    else if control.kind == CANCEL then None
    else Some(DirectionInvalid)
  }

  /** The response sent as frame out ends the request. */
  function Closing(out: nat, length: nat, ending: Ending): Result<Ending, HostError> {
    if Sending(out, length).Some? then Err(Sending(out, length).value) else Ok(ending)
  }

  function Concat(payloads: seq<seq<Byte>>): seq<Byte> {
    if payloads == [] then [] else payloads[0] + Concat(payloads[1..])
  }

  function Sum(ns: seq<nat>): nat {
    if ns == [] then 0 else ns[0] + Sum(ns[1..])
  }

  lemma SumOf(ns: seq<nat>)
    ensures Sum(ns) == if ns == [] then 0 else ns[0] + Sum(ns[1..])
  {
  }

  lemma PlanFits(stdout: seq<Byte>, stderr: seq<Byte>)
    ensures var plan := Plan(stdout, stderr);
            plan != [] && forall k :: 0 <= k < |plan| ==> |plan[k].payload| <= MAX_PAYLOAD
  {
    PiecesCarryTheStream(stdout, 0, 0);
    PiecesCarryTheStream(stderr, 0, FLAG_STDERR);
  }

  function Stdout(result: WorkResult): seq<Byte> {
    if result.Ran? then result.stdout else []
  }

  function Stderr(result: WorkResult): seq<Byte> {
    if result.Ran? then result.stderr else []
  }

  lemma EmptyTrace(dispatch: Dispatch, activeId: seq<Byte>, log: seq<Event>)
    ensures Delivered(dispatch, activeId, Total(log[|log|..]), [])
  {
  }

  /** Every planned piece was sent and credited with its size, one at a time, and no request is left unanswered. */
  predicate Delivered(dispatch: Dispatch, activeId: seq<Byte>, b: Balance, pieces: seq<Piece>) {
    && b.outputs == pieces
    && b.credits == Sizes(pieces)
    && Orderly(dispatch, activeId, b)
    && Settled(dispatch, b)
  }

  lemma DeliveredMeans(dispatch: Dispatch, activeId: seq<Byte>, b: Balance, pieces: seq<Piece>)
    ensures Delivered(dispatch, activeId, b, pieces) ==>
            b.outputs == pieces && b.credits == Sizes(pieces) && Orderly(dispatch, activeId, b) && Settled(dispatch, b)
  {
  }

  lemma OrderlyMeans(dispatch: Dispatch, activeId: seq<Byte>, b: Balance)
    requires Orderly(dispatch, activeId, b)
    ensures b.peak <= 1 && b.recipients <= {activeId} && Replied(dispatch, b)
  {
  }

  lemma StaysOrderly(dispatch: Dispatch, activeId: seq<Byte>, start: Balance, b: Balance)
    requires Orderly(dispatch, activeId, start) && SameOutput(start, b) && Replied(dispatch, b)
    ensures Orderly(dispatch, activeId, b) && b.outputs == start.outputs
  {
  }

  lemma StaysDelivered(dispatch: Dispatch, activeId: seq<Byte>, start: Balance, b: Balance, pieces: seq<Piece>)
    requires Delivered(dispatch, activeId, start, pieces) && Waiting(dispatch, start, b)
    ensures Delivered(dispatch, activeId, b, pieces)
  {
  }

  /** Never two uncredited pieces, output for the active request alone, and nothing but the due replies, in order. */
  predicate Orderly(dispatch: Dispatch, activeId: seq<Byte>, b: Balance) {
    b.peak <= 1 && b.recipients <= {activeId} && Replied(dispatch, b)
  }

  predicate ReceivedCancel(b: Balance, activeId: seq<Byte>) {
    && b.received != []
    && var f := b.received[|b.received| - 1];
       f.kind == CANCEL && f.requestId == activeId && f.generation == 0
  }

  predicate HasEof(flags: nat) {
    (flags / FLAG_EOF) % 2 == 1
  }

  /** Input frames of one request; the last one, and only the last one, ends the input when ended. */
  predicate InputFrames(frames: seq<Frame>, activeId: seq<Byte>, ended: bool) {
    && (forall i :: 0 <= i < |frames| ==>
          && frames[i].kind == INPUT && frames[i].generation == 0 && frames[i].requestId == activeId
          && (HasEof(frames[i].flags) <==> ended && i == |frames| - 1))
    && (ended ==> frames != [])
  }

  function InputBytes(frames: seq<Frame>): seq<Byte> {
    if frames == [] then [] else InputBytes(frames[..|frames| - 1]) + frames[|frames| - 1].payload
  }

  /** Each input frame, and right after it the credit for its exact size. */
  function Credited(frames: seq<Frame>, activeId: seq<Byte>, sequence: nat): seq<Event> {
    if frames == [] then []
    else
      var n := |frames| - 1;
      Credited(frames[..n], activeId, sequence)
      + [Received(frames[n]),
         Sent(Frame(CREDIT, 0, sequence + n, activeId, 0, LittleEndian(8, HEADER_LENGTH + |frames[n].payload|)))]
  }

  lemma NoInputYet(activeId: seq<Byte>, sequence: nat)
    ensures InputFrames([], activeId, false) && InputBytes([]) == [] && Credited([], activeId, sequence) == []
  {
  }

  lemma InputStep(frames: seq<Frame>, frame: Frame, activeId: seq<Byte>)
    requires InputFrames(frames, activeId, false)
    requires frame.kind == INPUT && frame.generation == 0 && frame.requestId == activeId
    ensures InputFrames(frames + [frame], activeId, HasEof(frame.flags))
    ensures InputBytes(frames + [frame]) == InputBytes(frames) + frame.payload
    ensures forall sequence: nat ::
              Credited(frames + [frame], activeId, sequence) == Credited(frames, activeId, sequence)
              + [Received(frame),
                 Sent(Frame(CREDIT, 0, sequence + |frames|, activeId, 0,
                            LittleEndian(8, HEADER_LENGTH + |frame.payload|)))]
  {
    hide LittleEndian;
    assert (frames + [frame])[..|frames|] == frames;
  }

  /** A sent credit changes nothing in the balance but the frames sent. */
  lemma CreditSent(dispatch: Dispatch, before: seq<Event>, after: seq<Event>, mark: nat)
    requires mark <= |before|
    requires after == before || (|after| == |before| + 1 && after == before + [after[|before|]]
                                 && after[|before|].Sent? && after[|before|].frame.kind == CREDIT)
    ensures var (a, b) := (Total(before[mark..]), Total(after[mark..]));
            && mark <= |after| && SameOutput(a, b)
            && b.credits == a.credits && b.asked == a.asked && b.answered == a.answered
            && (Replied(dispatch, a) ==> Replied(dispatch, b))
  {
    hide Total;
    if after != before { TotalAppend(before, mark, after[|before|]); }
  }

  /** A credit for the peer leaves everything as it was. */
  lemma CreditWaits(dispatch: Dispatch, start: Balance, b: Balance)
    requires Settled(dispatch, start) && SameOutput(start, b)
    requires b.credits == start.credits && b.asked == start.asked && b.answered == start.answered
    ensures Waiting(dispatch, start, b) && Replied(dispatch, b)
  {
  }

  /** An input frame and its credit leave everything delivered. */
  lemma CreditedInput(dispatch: Dispatch, activeId: seq<Byte>, start: Balance, read: Balance, b: Balance, frame: Frame)
    requires Delivered(dispatch, activeId, start, []) && frame.kind == INPUT
    requires JustReceived(dispatch, start, read, frame)
    requires SameOutput(read, b) && b.credits == read.credits && b.asked == read.asked && b.answered == read.answered
    ensures Delivered(dispatch, activeId, b, [])
  {
    hide Replies, Sizes;
  }

  /** A sent piece is one output ahead of the credits. */
  lemma PieceSent(dispatch: Dispatch, activeId: seq<Byte>, before: seq<Event>, after: seq<Event>, mark: nat,
                  piece: Piece, pieces: seq<Piece>)
    requires mark <= |before| && Delivered(dispatch, activeId, Total(before[mark..]), pieces)
    requires after == before || (|after| == |before| + 1 && after == before + [after[|before|]]
                                 && after[|before|].Sent? && after[|before|].frame.kind == OUTPUT
                                 && after[|before|].frame.requestId == activeId
                                 && after[|before|].frame.flags == piece.flags
                                 && after[|before|].frame.payload == piece.payload)
    ensures var (a, b) := (Total(before[mark..]), Total(after[mark..]));
            && mark <= |after| && Orderly(dispatch, activeId, b) && Settled(dispatch, b) && b.credits == a.credits
            && b.outputs == (if after == before then pieces else pieces + [piece])
  {
    hide Total;
    SizesLength(pieces);
    if after != before { TotalAppend(before, mark, after[|before|]); }
  }

  lemma {:induction false} SizesLength(pieces: seq<Piece>)
    ensures |Sizes(pieces)| == |pieces|
  {
    if pieces != [] { SizesLength(pieces[..|pieces| - 1]); }
  }

  /** What the loop has left to send at offset. */
  function ToSend(bytes: seq<Byte>, offset: nat, flag: nat, sent: bool): seq<Piece>
    requires offset <= |bytes|
  {
    if sent && offset == |bytes| then [] else Pieces(bytes, offset, flag)
  }

  lemma NothingSent(bytes: seq<Byte>, flag: nat)
    ensures ToSend(bytes, 0, flag, false) == Pieces(bytes, 0, flag) != []
  {
  }

  lemma AllSent(bytes: seq<Byte>, flag: nat, pieces: seq<Piece>, all: seq<Piece>)
    requires all == pieces + ToSend(bytes, |bytes|, flag, true)
    ensures all == pieces
  {
  }

  /** The next piece is cut off the front of what is left to send. */
  lemma PieceNext(bytes: seq<Byte>, offset: nat, flag: nat, sent: bool)
    requires offset <= |bytes| && (!sent || offset < |bytes|) && (!sent ==> offset == 0)
    ensures offset <= PieceEnd(bytes, offset) <= |bytes| && PieceEnd(bytes, offset) - offset <= MAX_PAYLOAD
    ensures sent ==> offset < PieceEnd(bytes, offset)
    ensures ToSend(bytes, offset, flag, sent)
            == [NextPiece(bytes, offset, flag)] + ToSend(bytes, PieceEnd(bytes, offset), flag, true)
  {
    assert bytes[offset..|bytes|] == bytes[offset..];
  }

  function NextPiece(bytes: seq<Byte>, offset: nat, flag: nat): Piece
    requires offset <= |bytes|
  {
    var end := PieceEnd(bytes, offset);
    Piece(if end == |bytes| then flag + FLAG_EOF else flag, bytes[offset..end])
  }

  /** Moving the next piece from what is left to what is sent. */
  lemma MovePiece(pieces: seq<Piece>, piece: Piece, rest: seq<Piece>, all: seq<Piece>)
    requires all == pieces + ([piece] + rest)
    ensures all == (pieces + [piece]) + rest && |pieces + [piece]| <= |all|
  {
  }

  lemma Regroup(done: seq<Piece>, pieces: seq<Piece>, piece: Piece, all: seq<Piece>)
    requires pieces + [piece] <= all
    ensures done + pieces + [piece] == done + (pieces + [piece])
    ensures done + pieces <= done + all && done + pieces + [piece] <= done + all
  {
    assert pieces <= all;
  }

  lemma PieceCounts(bytes: seq<Byte>, flag: nat)
    ensures |Pieces(bytes, 0, flag)| == OutputFrameCount(bytes) > 0
  {
    PiecesCarryTheStream(bytes, 0, flag);
    assert bytes[0..] == bytes;
  }

  /** What each of these requests has to be answered with. */
  function Replies(dispatch: Dispatch, asked: seq<Frame>): seq<Reply> {
    if asked == [] then [] else Replies(dispatch, asked[..|asked| - 1]) + [ReplyTo(dispatch, asked[|asked| - 1])]
  }

  function ReplyTo(dispatch: Dispatch, request: Frame): Reply {
    Reply(request.requestId, 0, match dispatch(request) case None => [] case Some(answer) => answer)
  }

  lemma RepliesAppend(dispatch: Dispatch, asked: seq<Frame>, request: Frame)
    ensures Replies(dispatch, asked + [request]) == Replies(dispatch, asked) + [ReplyTo(dispatch, request)]
  {
    assert (asked + [request])[..|asked|] == asked;
  }

  /** Every request received has been answered with what it was dispatched to, in order. */
  predicate Settled(dispatch: Dispatch, b: Balance) {
    b.answered == Replies(dispatch, b.asked)
  }

  /** Settled, and the active request answered behind all others. */
  predicate Answered(dispatch: Dispatch, activeId: seq<Byte>, b: Balance, payload: seq<Byte>) {
    b.answered == Replies(dispatch, b.asked) + [Reply(activeId, 0, payload)]
  }

  /** The credit for the request itself, then each input frame with the credit for it. */
  function Opening(request: Frame, frames: seq<Frame>, sequence: nat): seq<Event> {
    [Sent(Frame(CREDIT, 0, sequence, request.requestId, 0, LittleEndian(8, HEADER_LENGTH + |request.payload|)))]
    + Credited(frames, request.requestId, sequence + 1)
  }

  lemma OpeningSent(before: seq<Event>, after: seq<Event>, request: Frame, frames: seq<Frame>, sequence: nat)
    requires after == before + [Sent(Frame(CREDIT, 0, sequence, request.requestId, 0,
                                           LittleEndian(8, HEADER_LENGTH + |request.payload|)))]
                      + Credited(frames, request.requestId, sequence + 1)
    ensures after == before + Opening(request, frames, sequence)
  {
    hide LittleEndian, Credited;
  }

  /** Requests received have been answered so far in order, each with what it was dispatched to. */
  predicate Replied(dispatch: Dispatch, b: Balance) {
    b.answered <= Replies(dispatch, b.asked)
  }

  predicate SameOutput(a: Balance, b: Balance) {
    a.outputs == b.outputs && a.peak == b.peak && a.recipients == b.recipients
  }

  function Last<T>(s: seq<T>): Option<T> {
    if s == [] then None else Some(s[|s| - 1])
  }

  /** Settled but for the frame just received. */
  predicate JustReceived(dispatch: Dispatch, start: Balance, b: Balance, frame: Frame) {
    && SameOutput(start, b)
    && b.credits == start.credits + (if frame.kind == CREDIT then [Value(frame.payload)] else [])
    && (if frame.kind == REQUEST_JSON
        then b.asked != [] && b.asked[|b.asked| - 1] == frame
             && b.answered == Replies(dispatch, b.asked[..|b.asked| - 1])
        else Settled(dispatch, b))
    && Last(b.received) == Some(frame)
  }

  /** Nothing has happened since start but requests, each received and answered. */
  predicate Waiting(dispatch: Dispatch, start: Balance, b: Balance) {
    Settled(dispatch, b) && SameOutput(start, b) && b.credits == start.credits
  }

  lemma SameOutputMeans(a: Balance, b: Balance)
    requires SameOutput(a, b)
    ensures b.outputs == a.outputs && b.peak == a.peak && b.recipients == a.recipients
  {
  }

  lemma SettledWaits(dispatch: Dispatch, b: Balance)
    requires Settled(dispatch, b)
    ensures Waiting(dispatch, b, b) && Replied(dispatch, b)
  {
  }

  lemma WaitingReplied(dispatch: Dispatch, start: Balance, b: Balance)
    requires Waiting(dispatch, start, b)
    ensures Replied(dispatch, b) && SameOutput(start, b)
  {
  }

  lemma SameOutputTwice(a: Balance, b: Balance, c: Balance)
    requires SameOutput(a, b) && SameOutput(b, c)
    ensures SameOutput(a, c)
  {
  }

  lemma NowReceived(dispatch: Dispatch, start: Balance, b: Balance, frame: Frame)
    requires Waiting(dispatch, start, b)
    ensures JustReceived(dispatch, start, Post(b, Received(frame)), frame)
  {
    hide Replies;
    assert (b.asked + [frame])[..|b.asked|] == b.asked;
  }

  lemma ReceivedMeans(dispatch: Dispatch, start: Balance, b: Balance, frame: Frame)
    requires JustReceived(dispatch, start, b, frame)
    ensures SameOutput(start, b) && Last(b.received) == Some(frame)
    ensures b.credits == start.credits + (if frame.kind == CREDIT then [Value(frame.payload)] else [])
    ensures frame.kind != REQUEST_JSON ==> Settled(dispatch, b)
  {
  }

  /** One response with this request id and payload, and no flags, adds that reply. */
  lemma ResponseAdds(before: seq<Event>, mark: nat, sequence: nat, requestId: seq<Byte>, payload: seq<Byte>)
    requires mark <= |before|
    ensures var (a, b) := (Total(before[mark..]),
                           Total((before + [Sent(Frame(RESPONSE_JSON, 0, sequence, requestId, 0, payload))])[mark..]));
            b == a.(sent := b.sent, answered := a.answered + [Reply(requestId, 0, payload)])
  {
    hide Total;
    TotalAppend(before, mark, Sent(Frame(RESPONSE_JSON, 0, sequence, requestId, 0, payload)));
  }

  /** Answering the request just received settles it; anything else leaves it as it was. */
  lemma AnswerSettles(dispatch: Dispatch, start: Balance, before: seq<Event>, after: seq<Event>, mark: nat,
                      request: Frame, sequence: nat)
    requires mark <= |before| && JustReceived(dispatch, start, Total(before[mark..]), request)
    requires after == before
             || (request.kind == REQUEST_JSON && dispatch(request).Some?
                 && after == before + [Sent(Frame(RESPONSE_JSON, 0, sequence, request.requestId, 0,
                                                  dispatch(request).value))])
    ensures mark <= |after| && Replied(dispatch, Total(after[mark..])) && SameOutput(start, Total(after[mark..]))
    ensures after != before ==> Waiting(dispatch, start, Total(after[mark..]))
  {
    hide Total, Replies;
    var b := Total(before[mark..]);
    if request.kind == REQUEST_JSON {
      RepliesAppend(dispatch, b.asked[..|b.asked| - 1], request);
      assert b.asked == b.asked[..|b.asked| - 1] + [request];
    }
    if after != before { ResponseAdds(before, mark, sequence, request.requestId, dispatch(request).value); }
  }

  lemma ReceivedKeeps(dispatch: Dispatch, before: seq<Event>, after: seq<Event>, mark: nat)
    requires mark <= |before| && Replied(dispatch, Total(before[mark..]))
    requires after == before || (|after| == |before| + 1 && after[|before|].Received?
                                 && after == before + [after[|before|]])
    ensures mark <= |after| && Replied(dispatch, Total(after[mark..]))
  {
    hide Total;
    if after != before {
      var f := after[|before|].frame;
      TotalAppend(before, mark, after[|before|]);
      RepliesAppend(dispatch, Total(before[mark..]).asked, f);
    }
  }

  function Increment(sequence: nat): nat {
    if sequence == LAST_SEQUENCE then 0 else sequence + 1
  }

  /** The counter after n increments of first, which wraps to zero once and then stops. */
  predicate Numbered(first: nat, n: nat, sequence: nat) {
    && first + n <= LAST_SEQUENCE + 1
    && sequence == if first + n == LAST_SEQUENCE + 1 then 0 else first + n
  }
}
