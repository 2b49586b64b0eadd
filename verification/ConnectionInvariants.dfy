/** What every callback keeps, and so every run. */
module ConnectionInvariants {
  import opened Prelude
  import opened Text
  import opened HttpTypes
  import opened HttpLimits
  import opened HttpRequest
  import opened HttpResponse
  import opened Framing
  import opened Connection

  /** The largest buffer any run allocates. */
  function CapacityBound(limits: Limits): nat
    requires limits.Valid()
  {
    Max(BUFFER_SIZE, 2 * (limits.maxHeaderBytes + limits.maxBodyBytes) - 2)
  }

  /** The positions lie in the buffer, and no byte is lost: consumed and unread bytes are the bytes received. */
  ghost predicate BufferOk(c: Conn) {
    && c.limits.Valid()
    && c.readPos + |c.window| <= c.capacity
    && BUFFER_SIZE <= c.capacity <= CapacityBound(c.limits)
    && c.history.received == c.history.consumed + c.window
  }

  /** One read is pending, into all the free bytes, of which there is at least one; and nothing else is. */
  predicate AwaitsBytes(c: Conn) {
    c.readPos + |c.window| < c.capacity && c.pending == [Reading(c.capacity - c.readPos - |c.window|)]
  }

  /** A request whose header block has been read and accepted is at the front of the unread bytes. */
  ghost predicate HeaderRead(c: Conn) {
    && 4 <= c.headerSize <= |c.window|
    && FindBlank(c.window) == Some(c.headerSize - 4)
    && ParseHeaders(c.window[..c.headerSize], c.limits) == Ok(c.request)
  }

  /**
   The views of the request at the front: until its bytes are moved they look at it, and then they keep looking at the
   place it was moved from, over which the unread bytes may have been written.
   */
  predicate ViewsTrack(c: Conn)
    requires c.headerSize <= |c.window|
  {
    var head := c.window[..c.headerSize];
    match c.views
    case Lost => c.viewsMoved
    case At(pos, bytes) =>
      if c.viewsMoved
      then c.readPos == 0 < pos && pos + c.headerSize <= c.capacity && bytes == Overlay(head, pos, c.window, 0)
      else pos == c.readPos && bytes == head
  }

  /**
   One operation is pending and no other: a write when a response is being written, a read while more is needed.
   After closing, what was pending may still be.
   */
  ghost predicate PhaseOk(c: Conn) {
    match c.phase
    case Headers => FindBlank(c.window).None? && |c.window| < c.limits.maxHeaderBytes && AwaitsBytes(c)
    case Body => HeaderRead(c) && ViewsTrack(c) && |c.window| < c.headerSize + c.request.contentLength && AwaitsBytes(c)
    case Writing => c.pending == [Sending]
    case Closed => |c.pending| <= 1
  }

  /** The close callback has run once, with the connection's id, exactly when the connection is closed. */
  predicate CloseReported(c: Conn) {
    c.history.closedIds == if c.phase == Closed then [c.id] else []
  }

  predicate IsHead(f: Frame, limits: Limits) {
    ParseHeaders(f.head, limits).Ok? && ParseHeaders(f.head, limits).value.line.httpMethod == HEAD
  }

  /** A dispatched request: well framed, and closing where it must; before draining nowhere else. */
  ghost predicate FrameOk(f: Frame, index: nat, draining: bool, limits: Limits) {
    && WellFramed(f, limits)
    && (Closes(ParseHeaders(f.head, limits).value, index, limits) ==> f.close)
    && (f.close ==> draining || Closes(ParseHeaders(f.head, limits).value, index, limits))
  }

  /** The requests dispatched are the bytes consumed, and each has its reply. */
  ghost predicate DispatchedOk(h: History, draining: bool, limits: Limits) {
    && h.consumed == Bytes(h.frames)
    && |h.replies| == |h.frames| == |h.intact| == |h.shown|
    && (forall i :: 0 <= i < |h.frames| ==> FrameOk(h.frames[i], i, draining, limits))
    && (forall i :: 0 <= i < |h.frames| ==> h.replies[i].Answers())
    && (forall i :: 0 <= i < |h.frames| && h.intact[i] ==> h.shown[i] == Some(h.frames[i].head))
  }

  /** One response for each request, in order, and then at most one error response. */
  ghost predicate AnsweredOk(h: History, window: string, limits: Limits) {
    && |h.sent| == |h.frames| + (if h.failure.Some? then 1 else 0)
    && (forall i :: 0 <= i < |h.frames| && i < |h.replies| && h.replies[i].Answers() ==>
          h.sent[i] == SentFor(h.replies[i], h.frames[i].close, IsHead(h.frames[i], limits)))
    && (h.failure.Some? ==>
          && 200 <= h.failure.value <= 599
          && h.sent[|h.frames|] == FailureSent(h.failure.value)
          && NextFrame(window, |h.frames|, limits) == Reject(h.failure.value))
  }

  predicate LastCloses(h: History) {
    h.sent != [] && h.sent[|h.sent| - 1].close
  }

  /** Only the last response may announce closing, and then nothing but closing follows. */
  ghost predicate OrderOk(c: Conn) {
    var h := c.history;
    && (forall i :: 0 <= i < |h.sent| - 1 ==> !h.sent[i].close)
    && (c.phase == Writing ==>
          && h.sent != [] && c.closeAfterWrite == LastCloses(h)
          && c.headerPayload == h.sent[|h.sent| - 1].header && c.bodyPayload == h.sent[|h.sent| - 1].body)
    && (Listening(c) ==> !LastCloses(h))
    && (!LastCloses(h) ==> h.failure.None? && (c.phase != Closed ==> c.requests == |h.frames| < c.limits.maxRequests))
  }

  ghost predicate HistoryOk(c: Conn) {
    DispatchedOk(c.history, c.draining, c.limits) && AnsweredOk(c.history, c.window, c.limits) && OrderOk(c)
  }

  ghost predicate Inv(c: Conn) {
    BufferOk(c) && PhaseOk(c) && CloseReported(c) && HistoryOk(c)
  }

  // ---------- pieces of callbacks ----------

  /** About to process input: everything holds but nothing is pending yet. */
  ghost predicate Ready(c: Conn) {
    && BufferOk(c) && CloseReported(c) && c.pending == []
    && DispatchedOk(c.history, c.draining, c.limits) && AnsweredOk(c.history, c.window, c.limits)
    && !LastCloses(c.history) && (forall i :: 0 <= i < |c.history.sent| ==> !c.history.sent[i].close)
    && c.history.failure.None? && c.requests == |c.history.frames| < c.limits.maxRequests
  }

  lemma ReadMoreKeeps(c: Conn)
    requires BufferOk(c) && |c.window| < c.limits.maxHeaderBytes + c.limits.maxBodyBytes && c.pending == []
    ensures BufferOk(ReadMore(c)) && AwaitsBytes(ReadMore(c))
  {
  }

  lemma WaitsForHeader(c: Conn)
    requires Ready(c) && c.phase == Headers
    requires FindBlank(c.window).None? && |c.window| < c.limits.maxHeaderBytes
    ensures Inv(ReadMore(c))
  {
    hide FindBlank, ParseHeaders, NextFrame, FrameOk, SentFor, FailureSent, IsHead, BufferOk, Bytes;
    ReadMoreKeeps(c);
    assert BufferOk(c);
  }

  lemma RoomKeepsTrack(c: Conn)
    requires c.readPos + |c.window| <= c.capacity && c.headerSize <= |c.window| && ViewsTrack(c)
    ensures ViewsTrack(ReadMore(c))
  {
  }

  lemma OverlaysJoin(bytes: string, pos: nat, window: string, data: string)
    ensures Overlay(Overlay(bytes, pos, window, 0), pos, data, |window|) == Overlay(bytes, pos, window + data, 0)
  {
  }

  lemma ArrivalKeepsTrack(c: Conn, data: string)
    requires c.headerSize <= |c.window| && ViewsTrack(c)
    ensures ViewsTrack(Arrived(c, data))
  {
    hide Overlay;
    var head := c.window[..c.headerSize];
    assert (c.window + data)[..c.headerSize] == head;
    if c.views.At? {
      OverlaysJoin(head, c.views.pos, c.window, data);
    }
    OverlayBeyond(head, c.readPos, data, c.readPos + |c.window|);
  }

  lemma OverlayBeyond(bytes: string, pos: nat, data: string, place: nat)
    requires pos + |bytes| <= place
    ensures Overlay(bytes, pos, data, place) == bytes
  {
  }

  lemma WaitsForBody(c: Conn)
    requires Ready(c) && c.phase == Body && HeaderRead(c) && ViewsTrack(c)
    requires |c.window| < c.headerSize + c.request.contentLength
    ensures Inv(ReadMore(c))
  {
    hide ParseHeaders, FindBlank, NextFrame, FrameOk, SentFor, FailureSent, IsHead, Bytes, ViewsTrack;
    ReadMoreKeeps(c);
    RoomKeepsTrack(c);
  }

  lemma FailKeeps(c: Conn, status: int)
    requires Ready(c) && c.phase == Headers
    requires 200 <= status <= 599 && NextFrame(c.window, |c.history.frames|, c.limits) == Reject(status)
    ensures Inv(Fail(c, status))
  {
    hide FindBlank, ParseHeaders, NextFrame, FrameOk, SentFor, FailureSent, IsHead, Bytes;
    var d := Fail(c, status);
    assert d.history.sent[|c.history.sent|].close by {
      FailureCloses(status);
    }
  }

  lemma FailureCloses(status: int)
    requires 200 <= status <= 599
    ensures FailureSent(status).close
  {
  }

  /** The frame that dispatching takes off the window. */
  function TakenFrame(c: Conn, close: bool): Frame
    requires c.headerSize + c.request.contentLength <= |c.window|
  {
    Frame(c.window[..c.headerSize], c.window[c.headerSize..c.headerSize + c.request.contentLength], close)
  }

  lemma TakenFrameOk(c: Conn)
    requires HeaderRead(c) && c.headerSize + c.request.contentLength <= |c.window|
    requires c.requests == |c.history.frames|
    ensures FrameOk(TakenFrame(c, ClosesNow(c)), |c.history.frames|, c.draining, c.limits)
    ensures IsHead(TakenFrame(c, ClosesNow(c)), c.limits) == (c.request.line.httpMethod == HEAD)
  {
    hide ParseHeaders, FindBlank, BlankAt;
    BlankOfPrefix(c.window, c.headerSize - 4);
  }

  lemma DispatchBuffer(c: Conn, reply: Reply)
    requires BufferOk(c) && c.headerSize + c.request.contentLength <= |c.window| && reply.Answers()
    ensures BufferOk(Dispatch(c, reply))
  {
    hide SentFor;
    var total := c.headerSize + c.request.contentLength;
    assert c.window == c.window[..total] + c.window[total..];
    assert c.history.consumed + (c.window[..total] + c.window[total..])
        == (c.history.consumed + c.window[..total]) + c.window[total..];
  }

  lemma DispatchDispatches(c: Conn, reply: Reply)
    requires Ready(c) && HeaderRead(c) && ViewsTrack(c) && reply.Answers()
    requires c.headerSize + c.request.contentLength <= |c.window|
    ensures var d := Dispatch(c, reply); DispatchedOk(d.history, d.draining, d.limits)
  {
    hide ParseHeaders, FindBlank, NextFrame, FrameOk, HeaderRead, IsHead, SentFor, AnsweredOk, BufferOk, Bytes,
        LastCloses;
    var h, f := c.history, TakenFrame(c, ClosesNow(c));
    TakenFrameOk(c);
    BytesStep(h.frames, f);
    assert f.head + f.body == c.window[..c.headerSize + c.request.contentLength];
    assert Dispatch(c, reply).history.frames == h.frames + [f];
  }

  lemma DispatchAnswers(c: Conn, reply: Reply)
    requires Ready(c) && HeaderRead(c) && reply.Answers()
    requires c.headerSize + c.request.contentLength <= |c.window|
    ensures var d := Dispatch(c, reply); AnsweredOk(d.history, d.window, d.limits) && OrderOk(d)
  {
    hide ParseHeaders, FindBlank, NextFrame, FrameOk, HeaderRead, IsHead, BufferOk, HeaderBlockOf;
    TakenFrameOk(c);
    var h, d := c.history, Dispatch(c, reply);
    var f := TakenFrame(c, ClosesNow(c));
    assert d.history.frames == h.frames + [f];
    assert d.history.sent == h.sent + [SentFor(reply, f.close, IsHead(f, c.limits))];
  }

  lemma DispatchKeeps(c: Conn, reply: Reply)
    requires Ready(c) && HeaderRead(c) && ViewsTrack(c) && reply.Answers() && c.phase == Body
    requires c.headerSize + c.request.contentLength <= |c.window|
    ensures Inv(Dispatch(c, reply))
  {
    hide ParseHeaders, FindBlank, NextFrame, FrameOk, HeaderRead, IsHead, SentFor, BufferOk, DispatchedOk,
        AnsweredOk, OrderOk;
    DispatchBuffer(c, reply);
    DispatchDispatches(c, reply);
    DispatchAnswers(c, reply);
  }

  lemma BodyKeeps(c: Conn, reply: Reply)
    requires Ready(c) && c.phase == Body && HeaderRead(c) && ViewsTrack(c) && reply.Answers()
    ensures BufferOk(c) && Inv(ProcessBody(c, reply))
  {
    hide ParseHeaders, FindBlank, HeaderRead, Inv, ReadMore, Dispatch, DispatchedOk, AnsweredOk;
    if |c.window| < c.headerSize + c.request.contentLength {
      WaitsForBody(c);
    } else {
      DispatchKeeps(c, reply);
    }
  }

  lemma HeadersKeep(c: Conn, reply: Reply)
    requires Ready(c) && c.phase == Headers && reply.Answers()
    ensures BufferOk(c) && Inv(ProcessInput(c, reply))
  {
    hide ParseHeaders, FindBlank, Inv, ReadMore, ProcessBody, Fail, DispatchedOk, AnsweredOk;
    match FindBlank(c.window)
    case None =>
      if |c.window| >= c.limits.maxHeaderBytes {
        FailKeeps(c, 431);
      } else {
        WaitsForHeader(c);
      }
    case Some(e) =>
      match ParseHeaders(c.window[..e + 4], c.limits)
      case Rejected(status) =>
        FailKeeps(c.(headerSize := e + 4), status);
      case Ok(r) =>
        BodyKeeps(Accept(c, e + 4, r), reply);
  }

  // ---------- callbacks ----------

  lemma StartKeeps(limits: Limits, id: nat, reply: Reply)
    requires limits.Valid() && reply.Answers()
    ensures Inv(Start(Fresh(limits, id), reply))
  {
    hide ParseHeaders, FindBlank, Inv, ProcessInput;
    HeadersKeep(Fresh(limits, id), reply);
  }

  lemma ReadyAfterArrival(c: Conn, data: string)
    requires Inv(c) && Listening(c)
    requires c.readPos + |c.window| + |data| <= c.capacity
    ensures Ready(Arrived(Done(c, true), data))
  {
    hide ParseHeaders, FindBlank, NextFrame, FrameOk, HeaderRead, IsHead, SentFor, FailureSent, Bytes;
    assert c.history.consumed + c.window + data == c.history.consumed + (c.window + data);
  }

  lemma HeaderStaysRead(c: Conn, data: string)
    requires HeaderRead(c)
    ensures c.headerSize <= |c.window| && HeaderRead(Arrived(Done(c, true), data))
  {
    hide ParseHeaders, FindBlank;
    BlankIsStable(c.window, data);
    assert (c.window + data)[..c.headerSize] == c.window[..c.headerSize];
  }

  lemma ReadKeeps(c: Conn, data: string, reply: Reply)
    requires Inv(c) && Listening(c) && reply.Answers()
    requires c.readPos + |c.window| + |data| <= c.capacity
    ensures Inv(OnRead(Done(c, true), data, reply))
  {
    hide ParseHeaders, FindBlank, HeaderRead, HistoryOk, Ready, ProcessBody;
    ReadyAfterArrival(c, data);
    var d := Done(c, true);
    if c.phase == Headers {
      HeadersKeep(Arrived(d, data), reply);
    } else {
      HeaderStaysRead(c, data);
      ArrivalKeepsTrack(d, data);
      BodyKeeps(Arrived(d, data), reply);
    }
  }

  lemma ReadyAfterWrite(c: Conn, next: Conn)
    requires Inv(c) && c.phase == Writing && !c.closeAfterWrite
    requires next ==
      Done(c, false).(headerPayload := "", bodyPayload := "", phase := Headers, headerSize := 0, request := NO_REQUEST)
    ensures Ready(next)
  {
    hide ParseHeaders, FindBlank, NextFrame, FrameOk, HeaderRead, IsHead, SentFor, FailureSent, Bytes;
  }

  lemma ClosingChangesNoOther(h: History, ids: seq<nat>, draining: bool, window: string, limits: Limits)
    ensures DispatchedOk(h.(closedIds := ids), draining, limits) == DispatchedOk(h, draining, limits)
    ensures AnsweredOk(h.(closedIds := ids), window, limits) == AnsweredOk(h, window, limits)
  {
    hide ParseHeaders, NextFrame, FrameOk, IsHead, SentFor, FailureSent, Bytes;
  }

  lemma AtMostOnePending(c: Conn, read: bool)
    requires Inv(c)
    ensures |c.pending| <= 1 && |Completed(c.pending, read)| <= 1
  {
    hide BufferOk, HistoryOk, HeaderRead, ViewsTrack;
  }

  /** Closing, by whatever callback: `d` is what it has made of the connection before. */
  lemma CloseKeeps(c: Conn, d: Conn)
    requires Inv(c) && |d.pending| <= 1
    requires d == c.(pending := d.pending) || d == c.(pending := d.pending, headerPayload := "", bodyPayload := "")
    ensures Inv(Close(d))
  {
    hide ParseHeaders, FindBlank, HeaderRead, DispatchedOk, AnsweredOk;
    ClosingChangesNoOther(c.history, c.history.closedIds + [c.id], c.draining, c.window, c.limits);
  }

  lemma EmptyHasNoBlank()
    ensures FindBlank("").None?
  {
  }

  lemma WrittenKeeps(c: Conn, reply: Reply)
    requires Inv(c) && c.phase == Writing && reply.Answers()
    ensures c.readPos + |c.window| <= c.capacity && Inv(OnWritten(Done(c, false), reply))
  {
    hide ParseHeaders, FindBlank, Inv, Ready, ProcessInput, ReadMore, Close;
    assert c.readPos + |c.window| <= c.capacity && c.limits.Valid() by {
      BoundsOf(c);
    }
    AtMostOnePending(c, false);
    var cleared := Done(c, false).(headerPayload := "", bodyPayload := "");
    if c.closeAfterWrite || c.draining {
      CloseKeeps(c, cleared);
    } else {
      var next := cleared.(phase := Headers, headerSize := 0, request := NO_REQUEST);
      ReadyAfterWrite(c, next);
      if |c.window| > 0 {
        HeadersKeep(next, reply);
      } else {
        EmptyHasNoBlank();
        assert c.window == "";
        WaitsForHeader(next);
      }
    }
  }

  lemma ReadCanComplete(c: Conn, size: nat)
    requires AwaitsBytes(c) && c.readPos + |c.window| + size <= c.capacity
    ensures Reads(c.pending, size)
  {
    assert c.pending[0].Reading?;
  }

  lemma BoundsOf(c: Conn)
    requires Inv(c)
    ensures Fits(c) && c.limits.Valid()
  {
    hide ParseHeaders, FindBlank, HistoryOk, HeaderRead;
  }

  lemma DrainingAllowsMore(h: History, draining: bool, limits: Limits)
    requires DispatchedOk(h, draining, limits)
    ensures DispatchedOk(h, true, limits)
  {
    hide ParseHeaders, WellFramed, Closes, Bytes;
  }

  lemma DrainKeeps(c: Conn)
    requires Inv(c)
    ensures Inv(c.(draining := true))
  {
    hide ParseHeaders, FindBlank, HeaderRead, DispatchedOk, AnsweredOk;
    DrainingAllowsMore(c.history, c.draining, c.limits);
    assert HeaderRead(c) <==> HeaderRead(c.(draining := true)) by {
      SameHeader(c);
    }
  }

  lemma SameHeader(c: Conn)
    ensures HeaderRead(c) <==> HeaderRead(c.(draining := true))
  {
  }

  lemma StopKeeps(c: Conn, force: bool)
    requires Inv(c)
    ensures Inv(Stop(c, force))
  {
    hide ParseHeaders, FindBlank, Inv, Close;
    DrainKeeps(c);
    AtMostOnePending(c, true);
    CloseKeeps(c.(draining := true), c.(draining := true));
  }

  /** Every callback and every stop request, whatever arrives, keeps the invariant. */
  lemma StepKeeps(c: Conn, e: Event)
    requires Inv(c) && Possible(c, e)
    ensures Fits(c) && Inv(Step(c, e))
  {
    hide ParseHeaders, FindBlank, OnRead, OnWritten, Stop, BufferOk, HistoryOk, HeaderRead, Completed;
    BoundsOf(c);
    AtMostOnePending(c, true);
    AtMostOnePending(c, false);
    match e
    case Read(data, reply) =>
      if c.phase == Closed {
        CloseKeeps(c, Done(c, true));
      } else {
        ReadKeeps(c, data, reply);
      }
    case ReadError => CloseKeeps(c, Done(c, true));
    case Written(reply) =>
      if c.phase == Closed {
        ClosedIgnoresWritten(Done(c, false), reply);
        CloseKeeps(c, Done(c, false));
      } else {
        WrittenKeeps(c, reply);
      }
    case WriteError =>
      CloseKeeps(c, Done(c, false).(headerPayload := "", bodyPayload := ""));
      CloseKeeps(c, Done(c, false));
    case StopRequested(force) => StopKeeps(c, force);
  }

  lemma ClosedIgnoresWritten(c: Conn, reply: Reply)
    requires c.phase == Closed && reply.Answers() && c.readPos + |c.window| <= c.capacity
    ensures OnWritten(c, reply) == c
  {
  }
}
