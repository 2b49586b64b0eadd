/**
 The first request of a connection: what is answered first, in which runs its views show its header block, and runs
 that start with it in which something fails.
 */
module FirstRequest {
  import opened Prelude
  import opened Text
  import opened Decimal
  import opened HttpTypes
  import opened HttpLimits
  import opened HttpRequest
  import opened HeaderBlock
  import opened RequestRoundTrip
  import opened ResponseDecoding
  import opened Framing
  import opened Connection
  import opened ConnectionInvariants
  import opened ConnectionRuns
  import opened ViewStability
  import opened Pipeline
  import opened Wire

  // ---------- the first answer ----------

  /** What processing makes of a connection, judged by the framing of its unread bytes. */
  ghost predicate Follows(c: Conn, next: Conn) {
    && next.history.received == c.history.received
    && match NextFrame(c.window, |c.history.frames|, c.limits)
       case More => Listening(next) && next.window == c.window && next.history == c.history
       case Reject(status) =>
         next.phase == Writing && next.history.frames == c.history.frames && next.history.failure == Some(status)
       case Got(f) =>
         next.phase == Writing && next.history.frames == c.history.frames + [f] && next.history.failure == None
  }

  lemma BodyFollows(c: Conn, reply: Reply)
    requires Ready(c) && c.phase == Body && HeaderRead(c) && reply.Answers() && !c.draining
    ensures c.readPos + |c.window| <= c.capacity && Follows(c, ProcessBody(c, reply))
  {
    hide ParseHeaders, FindBlank, DispatchedOk, AnsweredOk, SentFor, FailureSent, ViewsAfterRoom;
  }

  lemma AcceptedIsReady(c: Conn, e: nat)
    requires Ready(c) && c.phase == Headers && FindBlank(c.window) == Some(e)
    requires ParseHeaders(c.window[..e + 4], c.limits).Ok?
    ensures var accepted := Accept(c, e + 4, ParseHeaders(c.window[..e + 4], c.limits).value);
            Ready(accepted) && HeaderRead(accepted) && ViewsTrack(accepted)
  {
    hide ParseHeaders, FindBlank, DispatchedOk, AnsweredOk;
  }

  lemma ProcessFollows(c: Conn, reply: Reply)
    requires Ready(c) && (c.phase == Headers || (c.phase == Body && HeaderRead(c))) && reply.Answers() && !c.draining
    ensures c.readPos + |c.window| <= c.capacity && Follows(c, ProcessInput(c, reply))
  {
    hide ParseHeaders, FindBlank, SentFor, FailureSent, ViewsAfterRoom, ProcessBody, DispatchedOk, AnsweredOk,
         HeaderRead;
    if c.phase == Body {
      BodyFollows(c, reply);
    } else if FindBlank(c.window).Some? {
      var size := FindBlank(c.window).value + 4;
      var parsed := ParseHeaders(c.window[..size], c.limits);
      if parsed.Ok? {
        AcceptedIsReady(c, size - 4);
        BodyFollows(Accept(c, size, parsed.value), reply);
      }
    }
  }

  lemma ReadFollows(c: Conn, data: string, reply: Reply)
    requires Inv(c) && Listening(c) && !c.draining && reply.Answers()
    requires 1 <= |data| && c.readPos + |c.window| + |data| <= c.capacity
    ensures Fits(c) && Possible(c, Read(data, reply))
    ensures Follows(Arrived(c, data), Step(c, Read(data, reply)))
    ensures !Step(c, Read(data, reply)).draining && Step(c, Read(data, reply)).limits == c.limits
  {
    hide ParseHeaders, FindBlank, HeaderRead, HistoryOk, Ready, NextFrame, ProcessInput, Reads, BufferOk, ViewsTrack;
    BoundsOf(c);
    ReadCanComplete(c, |data|);
    var d := Arrived(Done(c, true), data);
    assert Ready(d) by {
      ReadyAfterArrival(c, data);
    }
    if c.phase == Body {
      HeaderStaysRead(c, data);
    }
    ProcessFollows(d, reply);
    ProcessConstants(d, reply);
  }

  /** What a new connection has answered first: a request dispatched, or an error. */
  ghost predicate AnswersFirst(c: Conn, stream: string, limits: Limits) {
    && c.phase == Writing && !c.draining && c.history.received <= stream
    && match NextFrame(stream, 0, limits)
       case More => false
       case Reject(status) => c.history.frames == [] && c.history.failure == Some(status)
       case Got(f) => c.history.frames == [f] && c.history.failure == None
  }

  lemma UnreadIsReceived(c: Conn)
    requires Inv(c) && Listening(c) && c.history.frames == []
    ensures c.window == c.history.received && c.readPos + |c.window| < c.capacity
  {
    hide ParseHeaders, FindBlank, HeaderRead, ViewsTrack, AnsweredOk, OrderOk;
    assert "" + c.window == c.window;
  }

  lemma ShorterPrefix(s: string, t: string)
    requires s <= t && s != t
    ensures |s| < |t|
  {
    assert s == t[..|s|];
  }

  /** Byte by byte, until something is answered. */
  lemma {:induction false} ReadsUntilAnswer(c: Conn, stream: string) returns (events: seq<Event>)
    requires Inv(c) && Listening(c) && !c.draining && c.history.frames == []
    requires !NextFrame(stream, 0, c.limits).More? && c.window <= stream
    ensures Runs(c, events) && AnswersFirst(Run(c, events), stream, c.limits)
    ensures forall i :: 0 <= i < |events| ==> Quiet(events[i])
    decreases |stream| - |c.window|
  {
    hide Inv, Step, Possible, Fits, NextFrame;
    assert NO_REPLY.Answers();
    UnreadIsReceived(c);
    WaitingIsMore(c);
    ShorterPrefix(c.window, stream);
    var data := [stream[|c.window|]];
    var e := Read(data, NO_REPLY);
    assert stream == (c.window + data) + stream[|c.window| + 1..];
    ReadFollows(c, data, NO_REPLY);
    StepKeeps(c, e);
    var next := Step(c, e);
    if NextFrame(c.window + data, 0, c.limits).More? {
      var rest := ReadsUntilAnswer(next, stream);
      RunMore(c, e, rest);
      events := [e] + rest;
    } else {
      NextIsStable(c.window + data, stream[|c.window| + 1..], 0, c.limits);
      RunOne(c, e);
      events := [e];
    }
  }

  /** Every stream that starts with a request, or with something rejected, has a quiet run that answers that first. */
  lemma FirstAnswer(limits: Limits, id: nat, stream: string) returns (events: seq<Event>, c: Conn)
    requires limits.Valid() && !NextFrame(stream, 0, limits).More?
    ensures Reached(limits, id, events, c) && AnswersFirst(c, stream, limits)
    ensures forall i :: 0 <= i < |events| ==> Quiet(events[i])
  {
    hide Inv, Begin, AnswersFirst, NextFrame;
    BeginKeeps(limits, id);
    BeginReads(limits, id);
    events := ReadsUntilAnswer(Begin(limits, id), stream);
    c := Run(Begin(limits, id), events);
  }

  lemma BeginReads(limits: Limits, id: nat)
    requires limits.Valid()
    ensures Begin(limits, id) == Fresh(limits, id).(pending := [Reading(BUFFER_SIZE)])
  {
    hide ParseHeaders;
    EmptyHasNoBlank();
  }

  // ---------- its views ----------

  /** The first capacity, doubling from this one, that holds `n` bytes. */
  function Doubled(capacity: nat, n: nat): (r: nat)
    requires capacity > 0
    ensures n <= r && capacity <= r
    decreases n - capacity
  {
    if n <= capacity then capacity else Doubled(2 * capacity, n)
  }

  /** The buffer in which a header block of this size has been read, if nothing came before it. */
  function BufferFor(size: nat): nat {
    Doubled(BUFFER_SIZE, size)
  }

  lemma {:induction false} SameBuffer(capacity: nat, m: nat, n: nat)
    requires capacity > 0 && m <= n <= Doubled(capacity, m)
    ensures Doubled(capacity, n) == Doubled(capacity, m)
    decreases m - capacity
  {
    if m > capacity {
      SameBuffer(2 * capacity, m, n);
    }
  }

  lemma {:induction false} NextBuffer(capacity: nat, m: nat)
    requires capacity > 0
    ensures Doubled(capacity, Doubled(capacity, m) + 1) == 2 * Doubled(capacity, m)
    decreases m - capacity
  {
    if m > capacity {
      NextBuffer(2 * capacity, m);
    } else {
      assert Doubled(capacity, capacity + 1) == Doubled(2 * capacity, capacity + 1);
    }
  }

  /** The first request has been dispatched with views of its header block, or of a freed buffer if it did not fit. */
  ghost predicate FirstShown(h: History)
    requires h.frames != []
  {
    var f := h.frames[0];
    && h.intact != [] && h.shown != []
    && (if |f.head| + |f.body| > BufferFor(|f.head|) then !h.intact[0] && h.shown[0] == None
        else h.intact[0] && h.shown[0] == Some(f.head))
  }

  /** While the first request is read, it stays at the front of a buffer that has only been doubled for its header. */
  ghost predicate FirstOk(c: Conn) {
    if c.history.frames != [] then FirstShown(c.history)
    else if c.phase == Headers then c.readPos == 0 && c.capacity == BufferFor(|c.window| + 1)
    else c.phase == Body ==>
      && c.readPos == 0
      && (if c.viewsMoved then c.views.Lost? && Total(c) > BufferFor(c.headerSize)
          else c.capacity == BufferFor(c.headerSize))
  }

  lemma FirstBody(c: Conn, reply: Reply)
    requires Ready(c) && c.phase == Body && HeaderRead(c) && ViewsTrack(c) && reply.Answers()
    requires c.history.frames == [] && FirstOk(c)
    ensures c.readPos + |c.window| <= c.capacity && FirstOk(ProcessBody(c, reply))
  {
    hide ParseHeaders, FindBlank, AnsweredOk, SentFor, BufferFor, FrameOk, Bytes, Overlay;
    assert c.history.intact == [] && c.history.shown == [];
  }

  lemma FirstWait(c: Conn, seen: nat)
    requires c.phase == Headers && c.history.frames == [] && c.readPos + |c.window| <= c.capacity
    requires c.readPos == 0 && c.capacity == BufferFor(seen + 1) && seen <= |c.window|
    ensures FirstOk(ReadMore(c))
  {
    hide Doubled, ViewsAfterRoom;
    NextBuffer(BUFFER_SIZE, seen + 1);
    if |c.window| < c.capacity {
      SameBuffer(BUFFER_SIZE, seen + 1, |c.window| + 1);
    }
  }

  lemma FailIsFirst(c: Conn, status: int)
    requires c.history.frames == [] && 200 <= status <= 599
    ensures FirstOk(Fail(c, status))
  {
    hide FailureSent;
  }

  lemma FirstHeaders(c: Conn, seen: nat, reply: Reply)
    requires Ready(c) && c.phase == Headers && reply.Answers() && c.history.frames == []
    requires c.readPos == 0 && c.capacity == BufferFor(seen + 1) && seen <= |c.window|
    requires FindBlank(c.window).Some? ==> seen < FindBlank(c.window).value + 4
    ensures c.readPos + |c.window| <= c.capacity && FirstOk(ProcessInput(c, reply))
  {
    hide ParseHeaders, FindBlank, HeaderRead, Ready, ProcessBody, ReadMore, Fail, Doubled, ViewsTrack;
    assert c.readPos + |c.window| <= c.capacity by {
      ReadyFits(c);
    }
    match FindBlank(c.window)
    case None =>
      FirstWait(c, seen);
      FailIsFirst(c, 431);
    case Some(e) =>
      SameBuffer(BUFFER_SIZE, seen + 1, e + 4);
      var parsed := ParseHeaders(c.window[..e + 4], c.limits);
      if parsed.Ok? {
        AcceptedIsReady(c, e);
        FirstBody(Accept(c, e + 4, parsed.value), reply);
      } else {
        FailIsFirst(c.(headerSize := e + 4), parsed.status);
      }
  }

  lemma ReadyFits(c: Conn)
    requires Ready(c)
    ensures c.readPos + |c.window| <= c.capacity
  {
    hide DispatchedOk, AnsweredOk;
  }

  lemma FirstRead(c: Conn, data: string, reply: Reply)
    requires Inv(c) && Listening(c) && FirstOk(c) && c.history.frames == [] && reply.Answers()
    requires c.readPos + |c.window| + |data| <= c.capacity
    ensures FirstOk(OnRead(Done(c, true), data, reply))
  {
    hide ParseHeaders, FindBlank, HeaderRead, HistoryOk, Ready, ProcessBody, BufferFor, BufferOk, Overlay;
    var d := Arrived(Done(c, true), data);
    assert Ready(d) by {
      ReadyAfterArrival(c, data);
    }
    if c.phase == Headers {
      BlankIsStable(c.window, data);
      FirstHeaders(d, |c.window|, reply);
    } else {
      HeaderStaysRead(c, data);
      ArrivalKeepsTrack(Done(c, true), data);
      FirstBody(d, reply);
    }
  }

  lemma WrittenContinues(c: Conn, reply: Reply)
    requires c.readPos + |c.window| <= c.capacity && reply.Answers()
    ensures var d := OnWritten(c, reply).history;
            && c.history.frames <= d.frames && c.history.intact <= d.intact && c.history.shown <= d.shown
  {
    hide ProcessInput, ReadMore;
    var next := c.(headerPayload := "", bodyPayload := "", phase := Headers, headerSize := 0, request := NO_REQUEST);
    ProcessConstants(next, reply);
    PiecesConstants(next, reply);
  }

  lemma StepContinues(c: Conn, e: Event)
    requires Fits(c) && Possible(c, e)
    ensures var d := Step(c, e).history;
            && c.history.frames <= d.frames && c.history.intact <= d.intact && c.history.shown <= d.shown
  {
    hide ProcessInput, OnWritten, Completed, Reads, Overwritten;
    match e
    case Read(data, reply) =>
      if c.phase != Closed {
        ReadFits(c, data);
        ProcessConstants(Arrived(Done(c, true), data), reply);
      }
    case Written(reply) => WrittenContinues(Done(c, false), reply);
    case _ =>
  }

  /** A response that answers no request closes. */
  lemma ErrorCloses(c: Conn, reply: Reply)
    requires Inv(c) && c.phase == Writing && c.history.frames == [] && reply.Answers()
    ensures c.readPos + |c.window| <= c.capacity
    ensures var next := OnWritten(Done(c, false), reply); next.phase == Closed && next.history.frames == []
  {
    hide ParseHeaders, FindBlank, HeaderRead, BufferOk, DispatchedOk, ProcessInput, ReadMore;
    BoundsOf(c);
  }

  lemma FirstKept(c: Conn, e: Event)
    requires Inv(c) && Possible(c, e) && FirstOk(c)
    ensures Fits(c) && FirstOk(Step(c, e))
  {
    hide Inv, OnRead, OnWritten, BufferFor, Reads;
    BoundsOf(c);
    if c.history.frames != [] {
      StepContinues(c, e);
    } else {
      match e
      case Read(data, reply) =>
        if c.phase != Closed {
          ReadFits(c, data);
          OnlyListenersRead(c, e);
          FirstRead(c, data, reply);
        }
      case Written(reply) =>
        if c.phase == Writing {
          ErrorCloses(c, reply);
        } else if c.phase == Closed {
          ClosedIgnoresWritten(Done(c, false), reply);
        } else {
          NoWriteWhileListening(c);
        }
      case _ =>
    }
  }

  lemma OnlyListenersRead(c: Conn, e: Event)
    requires Inv(c) && c.phase != Closed && e.Read? && Possible(c, e)
    ensures Listening(c)
  {
    hide BufferOk, HistoryOk, HeaderRead, ViewsTrack;
  }

  lemma NoWriteWhileListening(c: Conn)
    requires Inv(c) && Listening(c)
    ensures Sending !in c.pending
  {
    hide BufferOk, HistoryOk, HeaderRead, ViewsTrack;
  }

  lemma {:induction false} FirstRun(c: Conn, events: seq<Event>)
    requires Inv(c) && FirstOk(c) && Runs(c, events)
    ensures FirstOk(Run(c, events))
    decreases |events|
  {
    hide Inv, FirstOk, Step, Possible;
    if events != [] {
      FirstKept(c, events[0]);
      StepKeeps(c, events[0]);
      FirstRun(Step(c, events[0]), events[1..]);
    }
  }

  /**
   In every run, the first request is dispatched with views of its header block exactly when the whole of it fits the
   buffer that its header block has been read into; and otherwise with views of a buffer that is gone.
   */
  lemma FirstViewsShowHeader(limits: Limits, id: nat, events: seq<Event>, c: Conn)
    requires Reached(limits, id, events, c) && c.history.frames != []
    ensures FirstShown(c.history)
    ensures var f, total := c.history.frames[0], |c.history.frames[0].head| + |c.history.frames[0].body|;
            && (total <= 65536 ==> c.history.intact[0] && c.history.shown[0] == Some(f.head))
            && (|f.head| <= 65536 < total ==> !c.history.intact[0] && c.history.shown[0] == None)
  {
    hide Inv, Begin;
    BeginKeeps(limits, id);
    BeginReads(limits, id);
    FirstRun(Begin(limits, id), events);
  }

  /** A sound first request is dispatched, in some quiet run. */
  lemma FirstRequestIsDispatched(limits: Limits, id: nat, r: Outgoing) returns (events: seq<Event>, c: Conn)
    requires limits.Valid() && r.Sound(limits)
    ensures Reached(limits, id, events, c) && c.phase == Writing && !c.draining
    ensures c.history.frames == [r.ToFrame(0, limits)] && c.history.failure == None
    ensures forall i :: 0 <= i < |events| ==> Quiet(events[i])
  {
    hide Reached, WellFramed, RightClose, NextFrame, Outgoing.Sound, Outgoing.Head;
    var f := r.ToFrame(0, limits);
    SoundIsWellFramed(r, 0, limits);
    NextOfWellFramed(f, "", 0, limits);
    events, c := FirstAnswer(limits, id, f.head + f.body + "");
  }

  /**
   A sound first request that does not fit the buffer its header block is read into is dispatched with views of a
   freed buffer.
   */
  lemma LongRequestLosesViews(limits: Limits, id: nat, r: Outgoing) returns (events: seq<Event>, c: Conn)
    requires limits.Valid() && r.Sound(limits) && |r.Head()| + |r.body| > BufferFor(|r.Head()|)
    ensures Reached(limits, id, events, c) && c.phase == Writing
    ensures c.history.frames == [r.ToFrame(0, limits)] && c.history.intact == [false] && c.history.shown == [None]
  {
    hide Reached, Outgoing.Sound, Outgoing.Head, Inv, BufferFor;
    events, c := FirstRequestIsDispatched(limits, id, r);
    FirstViewsShowHeader(limits, id, events, c);
    UnmovedViewsShowHeader(limits, id, events, c, 0);
  }

  // ---------- closing unannounced ----------

  /**
   Whenever a response that does not say close is being written, a graceful stop makes the connection close after it
   all the same.
   */
  lemma DrainingClosesUnannounced(limits: Limits, id: nat, events: seq<Event>, c: Conn, reply: Reply)
      returns (more: seq<Event>, d: Conn)
    requires Reached(limits, id, events, c) && c.phase == Writing && reply.Answers()
    ensures Reached(limits, id, more, d) && d == c.(draining := true)
    ensures Fits(d) && Possible(d, Written(reply)) && Step(d, Written(reply)).phase == Closed
  {
    hide Begin, Inv, Possible, Step, Fits, AnnouncesClose, EndsBlank;
    ReachedKeeps(limits, id, events, c);
    d := c.(draining := true);
    StopWhileWriting(c);
    RunOne(c, StopRequested(false));
    RunAppend(Begin(limits, id), events, [StopRequested(false)]);
    more := events + [StopRequested(false)];
    ClosesWhenAnnouncedOrDraining(limits, id, more, d, reply);
  }

  lemma StopWhileWriting(c: Conn)
    requires Inv(c) && c.phase == Writing
    ensures Fits(c) && Possible(c, StopRequested(false)) && Step(c, StopRequested(false)) == c.(draining := true)
  {
    hide Inv;
    BoundsOf(c);
  }

  // ---------- an error that answers HEAD ----------

  /** What answers a rejected request can be read if it was no HEAD request, and cannot if it was one. */
  lemma RejectedHeadIsMisread(limits: Limits, id: nat, stream: string) returns (events: seq<Event>, c: Conn)
    requires limits.Valid() && NextFrame(stream, 0, limits).Reject?
    ensures Reached(limits, id, events, c) && c.history.frames == [] && |c.history.sent| == 1
    ensures c.history.received <= stream && c.history.failure == Some(NextFrame(stream, 0, limits).status)
    ensures Decode(WireOf(c.history.sent), [true]) == None
    ensures Decode(WireOf(c.history.sent), [false]).Some?
  {
    hide Reached, NextFrame, WireOf, Decode, FailureSent;
    events, c := FirstAnswer(limits, id, stream);
    var status := c.history.failure.value;
    ServiceIsOrderedAndBounded(limits, id, events, c);
    FailureStatus(limits, id, events, c);
    assert c.history.sent == [FailureSent(status)];
    FailureReadsBack(status, true);
    FailureReadsBack(status, false);
  }

  // ---------- the requests ----------

  /** A request that asks for nothing special, and one with a body longer than a new buffer. */
  const PLAIN: Outgoing := Outgoing("GET", "/", "HTTP/1.1", [Field("Host", "x")], "")

  const LONG: Outgoing := Outgoing("POST", "/", "HTTP/1.1", [Field("Host", "x"), Field("Content-Length", "70000")],
                                   Repeated('x', 70000))

  lemma LengthOf(lines: seq<string>)
    requires 2 <= |lines| <= 3
    ensures |Join(lines)| == |lines[0]| + |lines[1]| + 4 + if |lines| == 3 then |lines[2]| + 2 else 0
  {
    JoinOne(lines[|lines| - 1]);
    assert lines[1..][1..] == lines[2..];
    assert lines[|lines| - 1..] == [lines[|lines| - 1]];
  }

  lemma NamesAreTokens()
    ensures Token("Host") && Token("Content-Length") && Token("GET") && Token("POST") && Token("HEAD")
  {
  }

  lemma PlainIsClean()
    ensures Clean("GET", "/", "HTTP/1.1", PLAIN.fields)
  {
    hide Token;
    NamesAreTokens();
  }

  lemma PlainIsSound()
    ensures PLAIN.Sound(DEFAULT_LIMITS) && !PLAIN.Last(0, DEFAULT_LIMITS) && |PLAIN.Head()| <= BUFFER_SIZE
  {
    hide Clean;
    PlainIsClean();
    LengthOf([RenderLine("GET", "/", "HTTP/1.1")] + RenderFields(PLAIN.fields));
    assert Fold("Host") == "host";
  }

  lemma SeventyThousand()
    ensures AllDigits("70000") && Value("70000") == 70000
  {
    PrintThenRead(70000);
    assert ToDecimal(7000) == ToDecimal(700) + "0" && ToDecimal(700) == ToDecimal(70) + "0";
    assert ToDecimal(70) == "70";
    assert ToDecimal(70000) == "70000";
  }

  lemma LongIsClean()
    ensures Clean("POST", "/", "HTTP/1.1", LONG.fields)
  {
    hide Token;
    NamesAreTokens();
  }

  lemma LongIsAcceptable()
    ensures Acceptable("POST", "/", "HTTP/1.1", LONG.fields, DEFAULT_LIMITS) && |LONG.Head()| <= BUFFER_SIZE
    ensures FirstValue(LONG.fields, "content-length") == "70000"
  {
    hide Value;
    LengthOf([RenderLine("POST", "/", "HTTP/1.1")] + RenderFields(LONG.fields));
    assert Fold("Host") == "host" && Fold("Content-Length") == "content-length";
    SeventyThousand();
  }

  lemma LongIsSound()
    ensures LONG.Sound(DEFAULT_LIMITS) && |LONG.Head()| <= BUFFER_SIZE < |LONG.body|
  {
    hide Clean, Acceptable, Value, FirstValue;
    LongIsClean();
    LongIsAcceptable();
    SeventyThousand();
  }

  /** Under the default limits, some run dispatches a request whose views point into a buffer that is gone. */
  lemma ViewsCanBeLost() returns (events: seq<Event>, c: Conn)
    ensures Reached(DEFAULT_LIMITS, 0, events, c) && c.phase == Writing
    ensures c.history.intact == [false] && c.history.shown == [None]
  {
    hide Outgoing.Sound, Outgoing.Head, Reached;
    LongIsSound();
    events, c := LongRequestLosesViews(DEFAULT_LIMITS, 0, LONG);
  }

  /** Under the default limits, some connection closes after a response that did not say so. */
  lemma ClosingCanBeUnannounced() returns (events: seq<Event>, c: Conn)
    ensures Reached(DEFAULT_LIMITS, 0, events, c) && c.phase == Writing
    ensures |c.history.sent| == 1 && EndsBlank(c.history.sent[0].header) && !AnnouncesClose(c.history.sent[0].header)
    ensures Fits(c) && Possible(c, Written(NO_REPLY)) && Step(c, Written(NO_REPLY)).phase == Closed
  {
    hide Outgoing.Sound, Outgoing.Head, Step, Fits, Possible, EndsBlank, AnnouncesClose, Reached, Inv;
    PlainIsSound();
    var before, b := FirstRequestIsDispatched(DEFAULT_LIMITS, 0, PLAIN);
    ServiceIsOrderedAndBounded(DEFAULT_LIMITS, 0, before, b);
    ReachedKeeps(DEFAULT_LIMITS, 0, before, b);
    SentAnnounces(b);
    events, c := DrainingClosesUnannounced(DEFAULT_LIMITS, 0, before, b, NO_REPLY);
  }

  /** A HEAD request without Host. */
  const BARE: Outgoing := Outgoing("HEAD", "/", "HTTP/1.1", [], "")

  lemma BareIsRejected()
    ensures NextFrame(BARE.Head(), 0, DEFAULT_LIMITS) == Reject(400)
  {
    hide ParseHeaders, FindBlank, Render, Token;
    NamesAreTokens();
    HeadEndsOnce(BARE);
    BareIsJudged();
    assert BARE.Head()[..|BARE.Head()|] == BARE.Head();
  }

  lemma BareIsJudged()
    ensures Clean("HEAD", "/", "HTTP/1.1", []) && ParseHeaders(BARE.Head(), DEFAULT_LIMITS) == Rejected(400)
  {
    hide ParseHeaders, Token;
    NamesAreTokens();
    JoinOne(RenderLine("HEAD", "/", "HTTP/1.1"));
    assert [RenderLine("HEAD", "/", "HTTP/1.1")] + RenderFields([]) == [RenderLine("HEAD", "/", "HTTP/1.1")];
    ParseOfRender("HEAD", "/", "HTTP/1.1", [], DEFAULT_LIMITS);
  }

  /** Under the default limits, some run answers a HEAD request with bytes that its client cannot read. */
  lemma HeadErrorIsMisread() returns (events: seq<Event>, c: Conn)
    ensures Reached(DEFAULT_LIMITS, 0, events, c) && c.history.failure == Some(400)
    ensures c.history.received <= BARE.Head() && BARE.httpMethod == "HEAD"
    ensures Decode(WireOf(c.history.sent), [true]) == None
  {
    hide Reached, Outgoing.Head, Decode, WireOf;
    BareIsRejected();
    events, c := RejectedHeadIsMisread(DEFAULT_LIMITS, 0, BARE.Head());
  }
}
