/** What is true of whole runs of a connection, however its bytes are cut into reads. */
module ConnectionRuns {
  import opened Prelude
  import opened Text
  import opened HttpLimits
  import opened HttpRequest
  import opened HttpResponse
  import opened Framing
  import opened Connection
  import opened ConnectionInvariants

  const NO_REPLY: Reply := Reply(DEFAULT, [])

  /** A new connection that has been started: nothing is buffered, so a read is under way. */
  function Begin(limits: Limits, id: nat): Conn {
    Start(Fresh(limits, id), NO_REPLY)
  }

  /** The events can happen one after another, starting in this state. */
  ghost predicate Runs(c: Conn, events: seq<Event>)
    decreases |events|
  {
    events == [] || (Fits(c) && Possible(c, events[0]) && Runs(Step(c, events[0]), events[1..]))
  }

  ghost function Run(c: Conn, events: seq<Event>): Conn
    requires Runs(c, events)
    decreases |events|
  {
    if events == [] then c else Run(Step(c, events[0]), events[1..])
  }

  lemma RunOne(c: Conn, e: Event)
    requires Fits(c) && Possible(c, e)
    ensures Runs(c, [e]) && Run(c, [e]) == Step(c, e)
  {
    hide Step, Fits, Possible;
    assert [e][1..] == [];
  }

  lemma RunMore(c: Conn, e: Event, rest: seq<Event>)
    requires Fits(c) && Possible(c, e) && Runs(Step(c, e), rest)
    ensures Runs(c, [e] + rest) && Run(c, [e] + rest) == Run(Step(c, e), rest)
  {
    hide Step, Fits, Possible;
    assert ([e] + rest)[1..] == rest;
  }

  lemma {:induction false} RunAppend(c: Conn, events: seq<Event>, more: seq<Event>)
    requires Runs(c, events) && Runs(Run(c, events), more)
    ensures Runs(c, events + more) && Run(c, events + more) == Run(Run(c, events), more)
    decreases |events|
  {
    hide Step, Fits, Possible;
    if events == [] {
      assert events + more == more;
    } else {
      RunAppend(Step(c, events[0]), events[1..], more);
      assert (events + more)[1..] == events[1..] + more;
    }
  }

  lemma {:induction false} RunKeeps(c: Conn, events: seq<Event>)
    requires Inv(c) && Runs(c, events)
    ensures Inv(Run(c, events))
    decreases |events|
  {
    hide Inv, Step, Possible;
    if events != [] {
      StepKeeps(c, events[0]);
      RunKeeps(Step(c, events[0]), events[1..]);
    }
  }

  /** The state at the end of a run from the start. */
  ghost predicate Reached(limits: Limits, id: nat, events: seq<Event>, c: Conn) {
    limits.Valid() && Runs(Begin(limits, id), events) && c == Run(Begin(limits, id), events)
  }

  lemma BeginKeeps(limits: Limits, id: nat)
    requires limits.Valid()
    ensures Inv(Begin(limits, id))
  {
    hide Inv, Start;
    assert NO_REPLY.Answers();
    StartKeeps(limits, id, NO_REPLY);
  }

  lemma ReachedKeeps(limits: Limits, id: nat, events: seq<Event>, c: Conn)
    requires Reached(limits, id, events, c)
    ensures Inv(c)
  {
    hide Inv, Begin;
    BeginKeeps(limits, id);
    RunKeeps(Begin(limits, id), events);
  }

  /** Limits and identity never change. */
  lemma {:induction false} RunConstants(c: Conn, events: seq<Event>)
    requires Runs(c, events)
    ensures Run(c, events).limits == c.limits && Run(c, events).id == c.id
    decreases |events|
  {
    hide ParseHeaders, FindBlank, NextFrame, SentFor, FailureSent;
    if events != [] {
      StepConstants(c, events[0]);
      RunConstants(Step(c, events[0]), events[1..]);
    }
  }

  /** Limits, identity and draining stay, and what has been dispatched stays dispatched. */
  ghost predicate Continues(c: Conn, d: Conn) {
    && d.limits == c.limits && d.id == c.id && d.draining == c.draining
    && (d.phase == Closed <==> c.phase == Closed)
    && c.history.frames <= d.history.frames
    && c.history.intact <= d.history.intact && c.history.shown <= d.history.shown
  }

  lemma PiecesConstants(c: Conn, reply: Reply)
    requires c.readPos + |c.window| <= c.capacity && reply.Answers()
    ensures Continues(c, ReadMore(c))
    ensures c.phase != Closed ==>
              c.headerSize + c.request.contentLength <= |c.window| ==> Continues(c, Dispatch(c, reply))
    ensures c.phase != Closed ==> forall status :: 200 <= status <= 599 ==> Continues(c, Fail(c, status))
  {
    hide SentFor, FailureSent, ViewsAfterRoom;
  }

  lemma ProcessConstants(c: Conn, reply: Reply)
    requires c.readPos + |c.window| <= c.capacity && reply.Answers()
    ensures Continues(c, ProcessInput(c, reply))
  {
    hide ParseHeaders, FindBlank, ReadMore, Dispatch, Fail;
    PiecesConstants(c, reply);
    if c.phase == Headers && FindBlank(c.window).Some? {
      var size := FindBlank(c.window).value + 4;
      PiecesConstants(c.(headerSize := size), reply);
      var parsed := ParseHeaders(c.window[..size], c.limits);
      if parsed.Ok? {
        PiecesConstants(Accept(c, size, parsed.value), reply);
      }
    }
  }

  lemma StepConstants(c: Conn, e: Event)
    requires Fits(c) && Possible(c, e)
    ensures Step(c, e).limits == c.limits && Step(c, e).id == c.id
  {
    hide ProcessInput;
    match e
    case Read(data, reply) =>
      if c.phase != Closed {
        ProcessConstants(Arrived(Done(c, true), data), reply);
      }
    case Written(reply) =>
      var cleared := Done(c, false).(headerPayload := "", bodyPayload := "");
      ProcessConstants(cleared.(phase := Headers, headerSize := 0, request := NO_REQUEST), reply);
    case _ =>
  }

  // ---------- safety of every run ----------

  /**
   Whatever happens: no byte is lost or read twice, a read always has room, and the buffer never exceeds
   65536 bytes or twice the largest incomplete request.
   */
  lemma EveryByteIsAccountedFor(limits: Limits, id: nat, events: seq<Event>, c: Conn)
    requires Reached(limits, id, events, c)
    ensures c.history.received == Bytes(c.history.frames) + c.window
    ensures c.readPos + |c.window| <= c.capacity
    ensures 65536 <= c.capacity <= Max(65536, 2 * (limits.maxHeaderBytes + limits.maxBodyBytes) - 2)
    ensures Listening(c) ==> AwaitsBytes(c)
  {
    hide FindBlank, ParseHeaders, FrameOk, AnsweredOk, OrderOk;
    ReachedKeeps(limits, id, events, c);
    BeginConstants(limits, id);
    RunConstants(Begin(limits, id), events);
  }

  lemma BeginConstants(limits: Limits, id: nat)
    ensures Begin(limits, id).limits == limits && Begin(limits, id).id == id && !Begin(limits, id).draining
    ensures Begin(limits, id).phase != Closed
  {
    hide ParseHeaders;
  }

  /**
   Between callbacks of an open connection exactly one operation is pending, a write exactly while writing and a read
   otherwise; after closing what is left of it, at most one. The close callback has run exactly once by then, with the
   connection's own id, and never before.
   */
  lemma OneOperationAtATime(limits: Limits, id: nat, events: seq<Event>, c: Conn)
    requires Reached(limits, id, events, c)
    ensures Listening(c) ==> AwaitsBytes(c)
    ensures c.phase == Writing ==> c.pending == [Sending]
    ensures c.phase == Closed ==> |c.pending| <= 1
    ensures c.history.closedIds == if c.phase == Closed then [id] else []
  {
    hide FindBlank, HeaderRead, HistoryOk, BufferOk;
    ReachedKeeps(limits, id, events, c);
    BeginConstants(limits, id);
    RunConstants(Begin(limits, id), events);
  }

  /** How many operations complete. */
  function Completions(events: seq<Event>): nat {
    if events == [] then 0 else (if events[0].StopRequested? then 0 else 1) + Completions(events[1..])
  }

  /**
   A closed connection does nothing any more: what was pending completes late, each operation once, and nothing is
   started.
   */
  lemma {:induction false} ClosedStaysClosed(c: Conn, events: seq<Event>)
    requires c.phase == Closed && Runs(c, events)
    ensures Run(c, events) == c.(draining := Run(c, events).draining, pending := Run(c, events).pending)
    ensures |c.pending| == |Run(c, events).pending| + Completions(events)
    decreases |events|
  {
    if events != [] {
      ClosedStep(c, events[0]);
      ClosedStaysClosed(Step(c, events[0]), events[1..]);
    }
  }

  lemma ClosedStep(c: Conn, e: Event)
    requires c.phase == Closed && Fits(c) && Possible(c, e)
    ensures Step(c, e) == c.(draining := Step(c, e).draining, pending := Step(c, e).pending)
    ensures |c.pending| == |Step(c, e).pending| + if e.StopRequested? then 0 else 1
  {
    hide ParseHeaders, FindBlank;
    if Reads(c.pending, 0) {
      var i :| 0 <= i < |c.pending| && c.pending[i].Reading? && 0 <= c.pending[i].room;
      CompletesOne(c.pending, i);
    }
    if Sending in c.pending {
      var i :| 0 <= i < |c.pending| && c.pending[i] == Sending;
      CompletesOne(c.pending, i);
    }
  }

  /** Of the pending operations exactly one is taken off, if there is one of the kind. */
  lemma {:induction false} CompletesOne(pending: seq<Operation>, i: nat)
    requires i < |pending|
    ensures |Completed(pending, pending[i].Reading?)| == |pending| - 1
  {
    if pending[0].Reading? != pending[i].Reading? {
      CompletesOne(pending[1..], i - 1);
    }
  }

  /**
   Responses answer requests one for one in the order of arrival, an error response can only come last, at most
   `max_requests_per_connection` responses are written, and nothing follows one that says close.
   */
  lemma ServiceIsOrderedAndBounded(limits: Limits, id: nat, events: seq<Event>, c: Conn)
    requires Reached(limits, id, events, c)
    ensures var h := c.history;
            && |h.frames| == |h.replies| <= |h.sent| <= limits.maxRequests
            && |h.sent| == |h.frames| + (if h.failure.Some? then 1 else 0)
            && (forall i :: 0 <= i < |h.frames| ==>
                  && h.replies[i].Answers()
                  && h.sent[i] == SentFor(h.replies[i], h.frames[i].close, IsHead(h.frames[i], limits)))
            && (h.failure.Some? ==> 200 <= h.failure.value <= 599 && h.sent[|h.frames|] == FailureSent(h.failure.value))
            && (forall i :: 0 <= i < |h.sent| - 1 ==> !h.sent[i].close)
            && (LastCloses(h) ==> c.phase == Closed || (c.phase == Writing && c.closeAfterWrite))
  {
    hide FindBlank, HeaderRead, BufferOk, ParseHeaders, Bytes, NextFrame, IsHead, FailureSent, HeaderBlockOf;
    ReachedKeeps(limits, id, events, c);
    BeginConstants(limits, id);
    RunConstants(Begin(limits, id), events);
    var h := c.history;
    if |h.sent| >= 2 {
      var i := |h.sent| - 2;
      assert !h.sent[i].close;
      assert h.sent[i] == SentFor(h.replies[i], h.frames[i].close, IsHead(h.frames[i], c.limits));
      assert FrameOk(h.frames[i], i, c.draining, c.limits);
    }
  }

  /**
   In every run: a forced stop closes whatever is under way, a graceful one exactly while waiting for a header block,
   and otherwise only marks the connection; a socket error closes. Closing reports the id, unless it has been.
   */
  lemma StopsAndErrorsClose(limits: Limits, id: nat, events: seq<Event>, c: Conn, e: Event)
    requires Reached(limits, id, events, c) && Possible(c, e)
    ensures Fits(c)
    ensures var next := Step(c, e);
            && (e == StopRequested(true) || e.ReadError? || e.WriteError? ==> next.phase == Closed)
            && (e == StopRequested(false) ==>
                  if c.phase == Headers || c.phase == Closed then next.phase == Closed
                  else next == c.(draining := true))
            && (next.phase == Closed ==> next.history.closedIds == [id])
            && (e.StopRequested? || e.ReadError? || e.WriteError? ==>
                  next.history == c.history.(closedIds := next.history.closedIds) && next.window == c.window)
  {
    hide Reached, Inv, OnRead, OnWritten, Completed, Reads, Fits;
    ReachedKeeps(limits, id, events, c);
    StepKeeps(c, e);
    IdOfReached(limits, id, events, c);
    StepConstants(c, e);
    ClosedReports(Step(c, e));
  }

  lemma IdOfReached(limits: Limits, id: nat, events: seq<Event>, c: Conn)
    requires Reached(limits, id, events, c)
    ensures c.id == id && c.limits == limits
  {
    hide Begin;
    BeginConstants(limits, id);
    RunConstants(Begin(limits, id), events);
  }

  lemma ClosedReports(c: Conn)
    requires Inv(c)
    ensures c.phase == Closed ==> c.history.closedIds == [c.id]
  {
    hide BufferOk, PhaseOk, HistoryOk;
  }

  // ---------- runs refine framing ----------

  /** No stop request and no socket error. */
  predicate Quiet(e: Event) {
    e.Read? || e.Written?
  }

  /** Nothing but a closing response has closed the connection. */
  predicate Undisturbed(c: Conn) {
    !c.draining && (c.phase == Closed ==> LastCloses(c.history))
  }

  lemma QuietStep(c: Conn, e: Event)
    requires Inv(c) && Possible(c, e) && Undisturbed(c) && Quiet(e)
    ensures Fits(c) && Undisturbed(Step(c, e))
  {
    hide ParseHeaders, FindBlank, BufferOk, DispatchedOk, AnsweredOk, HeaderRead, ViewsTrack, ProcessInput,
         ViewsAfterRoom, Overwritten, Completed, Reads;
    BoundsOf(c);
    match e
    case Read(data, reply) =>
      if c.phase != Closed {
        ReadFits(c, data);
        ProcessConstants(Arrived(Done(c, true), data), reply);
      }
    case Written(reply) =>
      var cleared := Done(c, false).(headerPayload := "", bodyPayload := "");
      ProcessConstants(cleared.(phase := Headers, headerSize := 0, request := NO_REQUEST), reply);
  }

  lemma ReadFits(c: Conn, data: string)
    requires Fits(c) && c.phase != Closed && Reads(c.pending, |data|)
    ensures c.readPos + |c.window| + |data| <= c.capacity
  {
  }

  lemma {:induction false} QuietRun(c: Conn, events: seq<Event>)
    requires Inv(c) && Runs(c, events) && Undisturbed(c)
    requires forall i :: 0 <= i < |events| ==> Quiet(events[i])
    ensures Undisturbed(Run(c, events))
    decreases |events|
  {
    hide Inv, Step, Possible, Undisturbed, Quiet;
    if events != [] {
      StepKeeps(c, events[0]);
      QuietStep(c, events[0]);
      QuietRun(Step(c, events[0]), events[1..]);
    }
  }

  lemma FramesAreServable(c: Conn)
    requires Inv(c) && !c.draining
    ensures Servable(c.history.frames, 0, c.limits)
    ensures LastCloses(c.history) <==>
              c.history.failure.Some? || (c.history.frames != [] && c.history.frames[|c.history.frames| - 1].close)
  {
    hide ParseHeaders, FindBlank, BufferOk, HeaderRead, NextFrame, IsHead, HeaderBlockOf, Bytes, PhaseOk;
    var h := c.history;
    forall i | 0 <= i < |h.frames|
      ensures WellFramed(h.frames[i], c.limits) && RightClose(h.frames[i], i, c.limits)
      ensures h.sent[i].close == h.frames[i].close
    {
      assert FrameOk(h.frames[i], i, c.draining, c.limits);
      assert h.replies[i].Answers();
    }
  }

  /** In any state of an undisturbed run, what has happened is the framing of the bytes received so far. */
  lemma FramedSoFar(c: Conn)
    requires Inv(c) && Undisturbed(c) && (c.phase == Closed || Listening(c))
    ensures FrameStream(c.history.received, 0, c.limits) ==
            Framed(c.history.frames, c.window,
                   if c.phase != Closed then Waiting
                   else if c.history.failure.Some? then Failed(c.history.failure.value)
                   else Closing)
  {
    hide ParseHeaders, FindBlank, HeaderRead, DispatchedOk, FrameStream, IsHead, SentFor, FailureSent;
    var h := c.history;
    FramesAreServable(c);
    ConsumedIsFrames(c);
    FramingIsComplete(h.frames, c.window, 0, c.limits);
    if c.phase != Closed {
      WaitingIsMore(c);
      PrependNothing(h.frames, c.window, |h.frames|, c.limits);
    } else if h.failure.Some? {
      FailedIsReject(c);
      PrependNothing(h.frames, c.window, |h.frames|, c.limits);
    }
  }

  lemma ConsumedIsFrames(c: Conn)
    requires Inv(c)
    ensures c.history.received == Bytes(c.history.frames) + c.window
  {
    hide ParseHeaders, FindBlank, PhaseOk, AnsweredOk, OrderOk, FrameOk;
  }

  lemma WaitingIsMore(c: Conn)
    requires Inv(c) && Listening(c)
    ensures NextFrame(c.window, |c.history.frames|, c.limits) == More
  {
    hide ParseHeaders, BufferOk, HistoryOk;
  }

  lemma FailedIsReject(c: Conn)
    requires Inv(c) && c.history.failure.Some?
    ensures NextFrame(c.window, |c.history.frames|, c.limits) == Reject(c.history.failure.value)
    ensures c.history.frames == [] || !c.history.frames[|c.history.frames| - 1].close
  {
    hide ParseHeaders, FindBlank, BufferOk, PhaseOk, HeaderBlockOf, IsHead, Bytes, FrameOk;
    var h := c.history;
    if h.frames != [] {
      var i := |h.frames| - 1;
      assert h.replies[i].Answers();
      assert h.sent[i] == SentFor(h.replies[i], h.frames[i].close, IsHead(h.frames[i], c.limits));
    }
  }

  lemma PrependNothing(frames: seq<Frame>, s: string, served: nat, limits: Limits)
    requires !NextFrame(s, served, limits).Got?
    ensures Prepend(frames, FrameStream(s, served, limits)) ==
            Framed(frames, s, match NextFrame(s, served, limits)
                              case Reject(status) => Failed(status)
                              case _ => Waiting)
  {
  }

  /** The connection has been given all of the stream, or as much of it as it will ever read. */
  ghost predicate Finished(c: Conn, stream: string) {
    && c.history.received <= stream
    && (c.phase == Closed || (Listening(c) && c.history.received == stream))
  }

  /**
   A run does not depend on how its bytes are cut into reads, nor on when writes complete: once a stream has
   been served, the requests handed to dispatch, their close decisions and the error answered, if any, are
   those of the framing of the stream.
   */
  lemma RunRefinesFraming(limits: Limits, id: nat, events: seq<Event>, c: Conn, stream: string)
    requires Reached(limits, id, events, c) && Finished(c, stream)
    requires forall i :: 0 <= i < |events| ==> Quiet(events[i])
    ensures var framed := FrameStream(stream, 0, limits);
            && c.history.frames == framed.frames
            && (c.phase == Closed <==> !framed.end.Waiting?)
            && c.history.failure == (if framed.end.Failed? then Some(framed.end.status) else None)
            && (c.phase != Closed ==> c.window == framed.rest)
  {
    hide Inv, Begin, FrameStream, AwaitsBytes;
    ReachedKeeps(limits, id, events, c);
    BeginConstants(limits, id);
    BeginKeeps(limits, id);
    RunConstants(Begin(limits, id), events);
    QuietRun(Begin(limits, id), events);
    FramedSoFar(c);
    NoFailureWhileOpen(c);
    if c.phase == Closed {
      var t := stream[|c.history.received|..];
      assert stream == c.history.received + t;
      EndIsStable(c.history.received, t, 0, limits);
    }
  }

  lemma NoFailureWhileOpen(c: Conn)
    requires Inv(c)
    ensures Listening(c) ==> c.history.failure.None?
  {
    hide ParseHeaders, FindBlank, BufferOk, DispatchedOk, AnsweredOk, HeaderRead;
  }

  /** Two connections under the same limits serve the same stream alike, however each read it. */
  lemma FragmentationDoesNotMatter(limits: Limits, stream: string,
      id: nat, events: seq<Event>, c: Conn, otherId: nat, otherEvents: seq<Event>, other: Conn)
    requires Reached(limits, id, events, c) && Finished(c, stream)
    requires Reached(limits, otherId, otherEvents, other) && Finished(other, stream)
    requires forall i :: 0 <= i < |events| ==> Quiet(events[i])
    requires forall i :: 0 <= i < |otherEvents| ==> Quiet(otherEvents[i])
    ensures c.history.frames == other.history.frames
    ensures c.history.failure == other.history.failure
    ensures c.phase == Closed <==> other.phase == Closed
  {
    hide Reached, Finished, FrameStream;
    RunRefinesFraming(limits, id, events, c, stream);
    RunRefinesFraming(limits, otherId, otherEvents, other, stream);
  }

  // ---------- every stream is served ----------

  /** How far a connection is from reading again or closing, when nothing more arrives. */
  function Rank(c: Conn): nat {
    if c.phase != Writing then 0 else if c.closeAfterWrite then 1 else 2
  }

  lemma ProcessProgress(c: Conn, reply: Reply)
    requires Ready(c) && c.phase == Headers && reply.Answers()
    ensures c.readPos + |c.window| <= c.capacity
    ensures var next := ProcessInput(c, reply);
            && next.history.received == c.history.received
            && (|next.window| < |c.window| || (|next.window| == |c.window| && Rank(next) <= 1))
  {
    hide ParseHeaders, FindBlank, DispatchedOk, AnsweredOk, SentFor, FailureSent, ViewsAfterRoom;
    if FindBlank(c.window).None? && |c.window| >= c.limits.maxHeaderBytes {
      FailureCloses(431);
    } else if FindBlank(c.window).Some? {
      var parsed := ParseHeaders(c.window[..FindBlank(c.window).value + 4], c.limits);
      if parsed.Rejected? {
        FailureCloses(parsed.status);
      }
    }
  }

  lemma WrittenProgress(c: Conn, reply: Reply)
    requires Inv(c) && c.phase == Writing && reply.Answers()
    ensures Fits(c) && Possible(c, Written(reply))
    ensures var next := Step(c, Written(reply));
            && next.history.received == c.history.received
            && (|next.window| < |c.window| || (|next.window| == |c.window| && Rank(next) < Rank(c)))
  {
    hide ParseHeaders, FindBlank, Inv, Ready, ProcessInput;
    BoundsOf(c);
    assert c.pending == [Sending] by {
      WritingSends(c);
    }
    if !c.closeAfterWrite && !c.draining && |c.window| > 0 {
      var cleared := Done(c, false).(headerPayload := "", bodyPayload := "");
      var next := cleared.(phase := Headers, headerSize := 0, request := NO_REQUEST);
      ReadyAfterWrite(c, next);
      ProcessProgress(next, reply);
    }
  }

  lemma WritingSends(c: Conn)
    requires Inv(c) && c.phase == Writing
    ensures c.pending == [Sending]
  {
    hide BufferOk, HistoryOk;
  }

  lemma ReadProgress(c: Conn, data: string, reply: Reply)
    requires Inv(c) && Listening(c) && |data| == 1 && reply.Answers()
    ensures Fits(c) && Possible(c, Read(data, reply)) && c.phase != Closed
    ensures Step(c, Read(data, reply)).history.received == c.history.received + data
  {
    hide ParseHeaders, FindBlank, HeaderRead, HistoryOk, SentFor, FailureSent, Reads;
    BoundsOf(c);
    ReadCanComplete(c, 1);
  }

  lemma EitherReadsOrWrites(c: Conn)
    requires Inv(c)
    ensures c.phase == Closed || c.phase == Writing || Listening(c)
  {
    hide BufferOk, HistoryOk, HeaderRead;
  }

  /** The byte that arrives next, or the end of the write under way. */
  function NextEvent(c: Conn, stream: string): Event
    requires c.phase == Writing || |c.history.received| < |stream|
  {
    if c.phase == Writing then Written(NO_REPLY) else Read([stream[|c.history.received|]], NO_REPLY)
  }

  lemma {:induction false} RestIsServed(c: Conn, stream: string) returns (events: seq<Event>)
    requires Inv(c) && c.history.received <= stream
    ensures Runs(c, events) && Finished(Run(c, events), stream)
    ensures forall i :: 0 <= i < |events| ==> Quiet(events[i])
    decreases |stream| - |c.history.received|, |c.window|, Rank(c)
  {
    hide Inv, Step, Possible, Fits;
    EitherReadsOrWrites(c);
    if c.phase == Closed || (c.phase != Writing && c.history.received == stream) {
      return [];
    }
    assert NO_REPLY.Answers();
    var e := NextEvent(c, stream);
    if c.phase == Writing {
      WrittenProgress(c, NO_REPLY);
    } else {
      ReadProgress(c, e.data, NO_REPLY);
    }
    StepKeeps(c, e);
    var rest := RestIsServed(Step(c, e), stream);
    RunMore(c, e, rest);
    events := [e] + rest;
  }

  /** Whatever the stream, some quiet run serves it, so that what is said of such runs is said of every stream. */
  lemma EveryStreamIsServed(limits: Limits, id: nat, stream: string) returns (events: seq<Event>, c: Conn)
    requires limits.Valid()
    ensures Reached(limits, id, events, c) && Finished(c, stream)
    ensures forall i :: 0 <= i < |events| ==> Quiet(events[i])
  {
    hide Inv, Begin, Finished;
    BeginKeeps(limits, id);
    BeginReceivedNothing(limits, id);
    events := RestIsServed(Begin(limits, id), stream);
    c := Run(Begin(limits, id), events);
  }

  lemma BeginReceivedNothing(limits: Limits, id: nat)
    ensures Begin(limits, id).history.received == ""
  {
    hide ParseHeaders;
    EmptyHasNoBlank();
  }
}
