/**
 The connection object: a byte buffer that is compacted and grown in place, two positions in it, and a
 phase. Every callback is proved to do to the object what `Connection` says it does to its value.
 */
module TcpConnection {
  import opened Prelude
  import opened Text
  import opened HttpTypes
  import opened HttpLimits
  import opened HttpRequest
  import opened HttpParser
  import opened HttpResponse
  import opened Connection
  import opened ConnectionInvariants
  import opened ConnectionRuns

  lemma SliceOfSlice(s: string, a: nat, b: nat, i: nat, j: nat)
    requires a <= b <= |s| && i <= j <= b - a
    ensures s[a..b][i..j] == s[a + i..a + j]
  {
    assert forall k :: 0 <= k < j - i ==> s[a..b][i..j][k] == s[a + i..a + j][k];
  }

  /** What views are said to show is what stands in these bytes at their position. */
  predicate Show(views: Views, all: string) {
    views.At? ==>
      views.pos + |views.bytes| <= |all| && all[views.pos..views.pos + |views.bytes|] == views.bytes
  }

  lemma OverwrittenShow(views: Views, all: string, data: string, place: nat)
    requires Show(views, all)
    ensures Show(Overwritten(views, data, place), Overlay(all, 0, data, place))
  {
  }

  lemma OverlayData(all: string, from: nat, data: string, place: nat)
    requires from <= place && place + |data| <= |all|
    ensures |Overlay(all, 0, data, place)| == |all|
    ensures Overlay(all, 0, data, place)[from..place + |data|] == all[from..place] + data
  {
  }

  lemma TakeShape(c: Conn, reply: Reply)
    requires c.headerSize + c.request.contentLength <= |c.window|
    ensures Take(c, reply).closeAfterWrite == ClosesNow(c) && Take(c, reply).request == c.request
    ensures Take(c, reply).history.shown == c.history.shown + [c.views.Shown()]
    ensures Take(c, reply) ==
      c.(requests := if c.draining || !c.request.keepAlive then c.requests else c.requests + 1,
         closeAfterWrite := ClosesNow(c),
         readPos := if |c.window| == c.headerSize + c.request.contentLength then 0
                    else c.readPos + c.headerSize + c.request.contentLength,
         window := c.window[c.headerSize + c.request.contentLength..],
         history := Take(c, reply).history)
  {
  }

  lemma AcceptAgain(c: Conn, size: nat, r: Request)
    requires size <= |c.window|
    ensures Accept(c.(headerSize := size), size, r) == Accept(c, size, r)
  {
  }

  /**
   One connection: its buffer, the window of unread bytes between two positions in it, and where it stands with the
   request at the front. `Value()` is the value that `Connection` steps and `ConnectionRuns` runs.
   */
  class Object {
    const limits: Limits
    const id: nat

    var buffer: array<char>
    var readPos: nat
    var writePos: nat
    var headerPayload: string
    var bodyPayload: string
    var request: Request
    var headerSize: nat
    var requests: nat
    var phase: Phase
    var draining: bool
    var closeAfterWrite: bool

    ghost var pending: seq<Operation>
    ghost var viewsMoved: bool
    ghost var views: Views
    ghost var viewBuffer: array<char>
    ghost var history: History

    ghost predicate Valid()
      reads this
    {
      readPos <= writePos <= buffer.Length
    }

    ghost function Value(): Conn
      requires Valid()
      reads this, buffer
    {
      Conn(limits, id, buffer.Length, readPos, buffer[readPos..writePos], phase, headerSize, request, requests,
           draining, closeAfterWrite, pending, headerPayload, bodyPayload, viewsMoved, views, history)
    }

    /**
     The views of the request taken by the parser point into `viewBuffer`. Until that buffer is replaced, what they
     show is what stands in it at their position.
     */
    ghost predicate ViewsOk()
      reads this, buffer
    {
      phase == Body && views.At? ==> viewBuffer == buffer && Show(views, buffer[..])
    }

    constructor (limits: Limits, id: nat)
      ensures Valid() && ViewsOk() && Value() == Fresh(limits, id) && buffer.Length == 65536
      ensures fresh(buffer)
    {
      this.limits, this.id := limits, id;
      var bytes := new char[BUFFER_SIZE];
      buffer, readPos, writePos := bytes, 0, 0;
      headerPayload, bodyPayload := "", "";
      request, headerSize, requests := NO_REQUEST, 0, 0;
      phase, draining, closeAfterWrite, pending := Headers, false, false, [];
      viewsMoved, views, viewBuffer, history := false, Lost, bytes, NO_HISTORY;
    }

    method CloseSocket()
      requires Valid()
      modifies this
      ensures Valid() && buffer == old(buffer)
      ensures ViewsOk()
      ensures Value() == Close(old(Value()))
    {
      if phase == Closed {
        return;
      }
      phase := Closed;
      history := history.(closedIds := history.closedIds + [id]);
    }

    /** `memmove` of the unread bytes to the front of the buffer. */
    method MoveBytes()
      requires Valid()
      modifies buffer
      ensures buffer[..] == Overlay(old(buffer[..]), 0, old(buffer[readPos..writePos]), 0)
    {
      for i := 0 to writePos - readPos
        modifies buffer
        invariant forall j :: 0 <= j < i ==> buffer[j] == old(buffer[readPos + j])
        invariant forall j :: i <= j < buffer.Length ==> buffer[j] == old(buffer[j])
      {
        buffer[i] := buffer[readPos + i];
      }
    }

    method MoveToFront()
      requires Valid()
      modifies this`readPos, this`writePos, this`views, buffer
      ensures Valid() && readPos == 0 && writePos == old(writePos - readPos)
      ensures Value() == old(Value()).(readPos := 0, views := Overwritten(old(views), old(Value().window), 0))
      ensures old(ViewsOk()) ==> ViewsOk()
    {
      hide Overlay, Show;
      ghost var all, window := buffer[..], buffer[readPos..writePos];
      if Show(views, all) {
        OverwrittenShow(views, all, window, 0);
      }
      OverlayData(all, 0, window, 0);
      MoveBytes();
      views := Overwritten(views, window, 0);
      readPos, writePos := 0, writePos - readPos;
      assert buffer[..writePos] == buffer[..][..writePos] == window;
    }

    /** `resize` to twice the size: a new buffer with the old bytes in front. */
    method Grow()
      requires Valid() && readPos == 0 && writePos == buffer.Length
      modifies this`buffer, this`views
      ensures Valid() && fresh(buffer)
      ensures Value() == old(Value()).(capacity := 2 * old(buffer.Length), views := Lost)
    {
      var larger := new char[2 * buffer.Length];
      for i := 0 to buffer.Length
        modifies larger
        invariant forall j :: 0 <= j < i ==> larger[j] == buffer[j]
      {
        larger[i] := buffer[i];
      }
      buffer, views := larger, Lost;
      assert buffer[..writePos] == old(buffer[..writePos]);
    }

    /** Compacts the buffer when little room is left behind the unread bytes, and grows it when none is. */
    method MakeRoom()
      requires Valid()
      modifies this, buffer
      ensures Valid() && (buffer == old(buffer) || fresh(buffer))
      ensures old(ViewsOk()) ==> ViewsOk()
      ensures var c := old(Value());
              Value() == c.(readPos := RoomPos(c.capacity, c.readPos, |c.window|),
                            capacity := RoomCapacity(c.capacity, c.readPos, |c.window|),
                            views := ViewsAfterRoom(c.views, c.capacity, c.readPos, c.window))
    {
      hide Overwritten;
      if readPos > 0 && buffer.Length - writePos < 4096 {
        MoveToFront();
      }
      if buffer.Length == writePos {
        Grow();
      }
    }

    method IssueRead()
      requires Valid()
      modifies this, buffer
      ensures Valid() && (buffer == old(buffer) || fresh(buffer))
      ensures old(ViewsOk()) ==> ViewsOk()
      ensures Value() == ReadMore(old(Value()))
    {
      hide RoomPos, RoomCapacity, ViewsAfterRoom, MovesBytes;
      ghost var before := Value();
      MakeRoom();
      assert buffer[readPos..writePos] == before.window;
      viewsMoved := viewsMoved || MovesBytes(before.capacity, before.readPos, |before.window|);
      pending := pending + [Reading(buffer.Length - writePos)];
    }

    method StartWrite(sent: Sent)
      requires Valid()
      modifies this
      ensures Valid() && buffer == old(buffer) && ViewsOk()
      ensures Value() == Write(old(Value()), sent)
    {
      ghost var window := buffer[readPos..writePos];
      headerPayload, bodyPayload, closeAfterWrite := sent.header, sent.body, sent.close;
      phase := Writing;
      pending := pending + [Sending];
      history := history.(sent := history.sent + [sent]);
      assert buffer[readPos..writePos] == window;
    }

    /** Answers an error: a plain text response that closes. */
    method FailWith(status: int)
      requires Valid() && phase != Closed
      requires 200 <= status <= 599
      modifies this
      ensures Valid() && buffer == old(buffer) && ViewsOk()
      ensures Value() == Fail(old(Value()), status)
    {
      var response := new ResponseObject();
      response.Status(status);
      response.PlainText("Request failed");
      assert response.Value() == Failure(status);
      var header := response.SerializeHeaders(true, []);
      history := history.(failure := Some(status));
      StartWrite(Sent(header.value, response.body, true));
    }

    /** Takes the request at the front of the unread bytes out of the buffer. */
    method TakeRequest(ghost reply: Reply)
      requires Valid() && headerSize + request.contentLength <= writePos - readPos
      modifies this
      ensures Valid() && buffer == old(buffer) && phase == old(phase)
      ensures Value() == Take(old(Value()), reply)
    {
      hide Take, ClosesNow;
      ghost var before := Value();
      TakeShape(before, reply);
      CountRequest();
      history := Take(before, reply).history;
      Consume(headerSize + request.contentLength);
    }

    /** The unread bytes begin later, and at the front again once there are none. */
    method Consume(size: nat)
      requires Valid() && size <= writePos - readPos
      modifies this`readPos, this`writePos
      ensures Valid() && readPos == if old(writePos - readPos) == size then 0 else old(readPos) + size
      ensures buffer[readPos..writePos] == old(buffer[readPos..writePos][size..])
    {
      SliceOfSlice(buffer[..], readPos, writePos, size, writePos - readPos);
      readPos := readPos + size;
      if readPos == writePos {
        readPos, writePos := 0, 0;
      }
    }

    /** The request is counted unless the connection closes after it anyway. */
    method CountRequest()
      requires Valid()
      modifies this`requests, this`closeAfterWrite
      ensures closeAfterWrite == ClosesNow(old(Value()))
      ensures requests == if draining || !request.keepAlive then old(requests) else old(requests) + 1
    {
      if draining || !request.keepAlive {
        closeAfterWrite := true;
      } else {
        requests := requests + 1;
        closeAfterWrite := requests >= limits.maxRequests;
      }
    }

    /** Hands the request to the dispatcher, whose answer is `reply`, and writes the answer. */
    method DispatchRequest(reply: Reply)
      requires Valid() && reply.Answers() && phase == Body
      requires headerSize + request.contentLength <= writePos - readPos
      modifies this
      ensures Valid() && buffer == old(buffer) && ViewsOk()
      ensures Value() == Dispatch(old(Value()), reply)
      ensures old(ViewsOk() && views.At?) ==>
        history.shown == old(history.shown) + [Some(old(viewBuffer[views.pos..views.pos + |views.bytes|]))]
    {
      hide Take, HeaderBlockOf;
      ghost var before := Value();
      TakeShape(before, reply);
      TakeRequest(reply);
      var isHead := request.line.httpMethod == HEAD;
      var header := HeaderBlockOf(reply.response, closeAfterWrite, reply.order);
      var payload := "";
      if !isHead {
        payload := match reply.response.bodyType
          case Mapped => reply.response.mappedBody
          case Owned => reply.response.ownedBody
          case Dynamic => reply.response.body;
      }
      StartWrite(Sent(header, payload, closeAfterWrite));
    }

    /** The part of the loop body after the header block has been read. */
    method ProcessBodyPhase(reply: Reply)
      requires Valid() && reply.Answers() && phase == Body
      modifies this, buffer
      ensures Valid() && (buffer == old(buffer) || fresh(buffer))
      ensures old(ViewsOk()) ==> ViewsOk()
      ensures Value() == ProcessBody(old(Value()), reply)
    {
      hide ReadMore, Dispatch;
      if writePos - readPos < headerSize + request.contentLength {
        IssueRead();
      } else {
        DispatchRequest(reply);
      }
    }

    /** Remembers an accepted header block; the request's views now point at the unread bytes. */
    method AcceptHeader(accepted: Request)
      requires Valid() && headerSize <= writePos - readPos
      modifies this
      ensures Valid() && ViewsOk() && buffer == old(buffer) && phase == Body
      ensures headerSize == old(headerSize) && Value() == Accept(old(Value()), headerSize, accepted)
    {
      ghost var window := buffer[readPos..writePos];
      request := accepted;
      viewsMoved, views, viewBuffer := false, At(readPos, window[..headerSize]), buffer;
      phase := Body;
      assert buffer[readPos..writePos] == window;
    }

    /** No end of the header block is in sight. */
    method AwaitHeader()
      requires Valid() && phase == Headers
      modifies this, buffer
      ensures Valid() && (buffer == old(buffer) || fresh(buffer)) && ViewsOk()
      ensures Value() == if |old(Value()).window| >= limits.maxHeaderBytes then Fail(old(Value()), 431)
                         else ReadMore(old(Value()))
    {
      hide ReadMore, Fail;
      if writePos - readPos >= limits.maxHeaderBytes {
        FailWith(431);
      } else {
        IssueRead();
      }
    }

    /** The part of the loop body that looks for the end of the header block and parses it. */
    method ProcessHeadersPhase(reply: Reply)
      requires Valid() && reply.Answers() && phase == Headers
      modifies this, buffer
      ensures Valid() && (buffer == old(buffer) || fresh(buffer)) && ViewsOk()
      ensures Value() == ProcessInput(old(Value()), reply)
    {
      hide ParseHeaders, FindBlank, ReadMore, ProcessBody, Fail, Accept, Show;
      var unconsumed := buffer[readPos..writePos];
      var end := FindBlank(unconsumed);
      if end.None? {
        AwaitHeader();
        return;
      }
      headerSize := end.value + 4;
      assert buffer[readPos..writePos] == unconsumed;
      var parsed := ReadHeaders(unconsumed[..headerSize], limits);
      if parsed.Rejected? {
        FailWith(parsed.status);
        return;
      }
      AcceptAgain(old(Value()), headerSize, parsed.value);
      AcceptHeader(parsed.value);
      ProcessBodyPhase(reply);
    }

    /**
     Cuts the unread bytes into requests. Every path through the loop in `process_input` ends in a return, so
     its body runs at most once; here it is the body of an `if`.
     */
    method Process(reply: Reply)
      requires Valid() && reply.Answers()
      modifies this, buffer
      ensures Valid() && (buffer == old(buffer) || fresh(buffer))
      ensures old(ViewsOk()) ==> ViewsOk()
      ensures Value() == ProcessInput(old(Value()), reply)
    {
      hide ParseHeaders, FindBlank, ReadMore, ProcessBody, Fail;
      if phase != Closed && phase != Writing {
        if phase == Headers {
          ProcessHeadersPhase(reply);
        } else {
          ProcessBodyPhase(reply);
        }
      }
    }

    // ---------- callbacks ----------

    method BeginRequest(reply: Reply)
      requires Valid() && reply.Answers()
      modifies this, buffer
      ensures Valid() && (buffer == old(buffer) || fresh(buffer))
      ensures old(ViewsOk()) ==> ViewsOk()
      ensures Value() == Start(old(Value()), reply)
    {
      hide ProcessInput, Close;
      if phase == Closed {
        return;
      }
      if draining {
        CloseSocket();
        return;
      }
      ResetRequest();
      Process(reply);
    }

    method StopConnection(force: bool)
      requires Valid()
      modifies this
      ensures Valid() && buffer == old(buffer)
      ensures old(ViewsOk()) ==> ViewsOk()
      ensures Value() == Stop(old(Value()), force)
    {
      draining := true;
      if force || phase == Headers {
        CloseSocket();
      }
    }

    /** The socket has put `data` at the write position. */
    method ReadCompleted(data: string, reply: Reply)
      requires Valid() && reply.Answers()
      requires phase != Closed ==> |data| <= buffer.Length - writePos
      modifies this, buffer
      ensures Valid() && (buffer == old(buffer) || fresh(buffer))
      ensures old(ViewsOk()) ==> ViewsOk()
      ensures Value() == if old(phase) == Closed then old(Value()) else OnRead(old(Value()), data, reply)
    {
      hide ProcessInput, Arrived;
      if phase == Closed {
        return;
      }
      StoreBytes(data);
      Process(reply);
    }

    method StoreBytes(data: string)
      requires Valid() && |data| <= buffer.Length - writePos
      modifies this, buffer
      ensures Valid() && buffer == old(buffer) && phase == old(phase)
      ensures old(ViewsOk()) ==> ViewsOk()
      ensures Value() == Arrived(old(Value()), data)
    {
      hide Show, Overwritten;
      ghost var window := buffer[readPos..writePos];
      Fill(data);
      writePos := writePos + |data|;
      history := history.(received := history.received + data);
      assert buffer[readPos..writePos] == window + data;
    }

    /** The bytes are put behind the unread ones, over whatever views may look at. */
    method Fill(data: string)
      requires Valid() && |data| <= buffer.Length - writePos
      modifies this`views, buffer
      ensures buffer[readPos..writePos + |data|] == old(buffer[readPos..writePos]) + data
      ensures views == Overwritten(old(views), data, writePos)
      ensures old(ViewsOk()) ==> ViewsOk()
    {
      hide Overlay, Show;
      ghost var all := buffer[..];
      if Show(views, all) {
        OverwrittenShow(views, all, data, writePos);
      }
      OverlayData(all, readPos, data, writePos);
      CopyIn(data);
      views := Overwritten(views, data, writePos);
      assert buffer[readPos..writePos + |data|] == buffer[..][readPos..writePos + |data|];
    }

    method CopyIn(data: string)
      requires Valid() && |data| <= buffer.Length - writePos
      modifies buffer
      ensures buffer[..] == Overlay(old(buffer[..]), 0, data, writePos)
    {
      for i := 0 to |data|
        invariant forall j :: 0 <= j < writePos ==> buffer[j] == old(buffer[j])
        invariant forall j :: 0 <= j < i ==> buffer[writePos + j] == data[j]
        invariant forall j :: writePos + i <= j < buffer.Length ==> buffer[j] == old(buffer[j])
      {
        buffer[writePos + i] := data[i];
      }
    }

    method ReadFailed()
      requires Valid()
      modifies this
      ensures Valid() && buffer == old(buffer) && ViewsOk()
      ensures Value() == OnReadError(old(Value()))
    {
      CloseSocket();
    }

    /** Forgets the response just written, and the request it answered if another may follow. */
    method ClearPayloads()
      requires Valid()
      modifies this
      ensures Valid() && buffer == old(buffer) && phase == old(phase)
      ensures closeAfterWrite == old(closeAfterWrite) && draining == old(draining)
      ensures writePos == old(writePos) && readPos == old(readPos)
      ensures old(ViewsOk()) ==> ViewsOk()
      ensures Value() == old(Value()).(headerPayload := "", bodyPayload := "")
    {
      headerPayload, bodyPayload := "", "";
    }

    method ResetRequest()
      requires Valid()
      modifies this
      ensures Valid() && buffer == old(buffer) && phase == Headers && ViewsOk()
      ensures writePos == old(writePos) && readPos == old(readPos)
      ensures Value() == old(Value()).(phase := Headers, headerSize := 0, request := NO_REQUEST)
    {
      phase, headerSize, request := Headers, 0, NO_REQUEST;
    }

    method WriteCompleted(ok: bool, reply: Reply)
      requires Valid() && reply.Answers()
      modifies this, buffer
      ensures Valid() && (buffer == old(buffer) || fresh(buffer))
      ensures old(ViewsOk()) ==> ViewsOk()
      ensures Value() == if ok then OnWritten(old(Value()), reply) else OnWriteError(old(Value()))
    {
      hide ProcessInput, ReadMore, Close;
      if phase == Closed {
        return;
      }
      ClearPayloads();
      if !ok || closeAfterWrite || draining {
        CloseSocket();
        return;
      }
      ResetRequest();
      if writePos > readPos {
        Process(reply);
      } else {
        IssueRead();
      }
    }

    /** Views whose bytes have not been moved show the header block they were taken from. */
    lemma ViewsShowHeader()
      requires Valid() && ViewsOk() && Inv(Value()) && phase == Body && !viewsMoved
      ensures views.At? && viewBuffer == buffer && views.pos + headerSize <= buffer.Length
      ensures headerSize <= writePos - readPos
      ensures viewBuffer[views.pos..views.pos + headerSize] == Value().window[..headerSize]
    {
      hide ParseHeaders, FindBlank, HistoryOk, BufferOk;
    }

    /** What the event loop does with one event: the object takes the step its value takes, and stays sound. */
    method Handle(e: Event)
      requires Valid() && ViewsOk() && Inv(Value()) && Possible(Value(), e)
      modifies this, buffer
      ensures Valid() && ViewsOk() && (buffer == old(buffer) || fresh(buffer))
      ensures Fits(old(Value())) && Value() == Step(old(Value()), e) && Inv(Value())
    {
      hide Inv, OnRead, OnReadError, OnWritten, OnWriteError, Stop;
      StepKeeps(Value(), e);
      BoundsOf(Value());
      match e
      case Read(data, reply) =>
        pending := Completed(pending, true);
        ReadCompleted(data, reply);
      case ReadError =>
        pending := Completed(pending, true);
        ReadFailed();
      case Written(reply) =>
        pending := Completed(pending, false);
        WriteCompleted(true, reply);
      case WriteError =>
        pending := Completed(pending, false);
        WriteCompleted(false, NO_REPLY);
      case StopRequested(force) => StopConnection(force);
    }

    /** The event loop: whatever run the value can make, the object makes. */
    method HandleAll(events: seq<Event>)
      requires Valid() && ViewsOk() && Inv(Value()) && Runs(Value(), events)
      modifies this, buffer
      ensures Valid() && ViewsOk() && (buffer == old(buffer) || fresh(buffer))
      ensures Value() == Run(old(Value()), events) && Inv(Value())
    {
      hide Inv, Step, Possible, Fits, ViewsOk;
      ghost var start := Value();
      for i := 0 to |events|
        invariant Valid() && ViewsOk() && (buffer == old(buffer) || fresh(buffer))
        invariant Inv(Value()) && Runs(Value(), events[i..])
        invariant Run(Value(), events[i..]) == Run(start, events)
      {
        assert events[i..][1..] == events[i + 1..];
        Handle(events[i]);
      }
    }
  }

  /** A connection from its construction on, started and given one event after another: every run is the run of one. */
  method Serve(limits: Limits, id: nat, events: seq<Event>) returns (connection: Object)
    requires limits.Valid() && Runs(Begin(limits, id), events)
    ensures fresh(connection) && fresh(connection.buffer) && connection.Valid() && connection.ViewsOk()
    ensures Reached(limits, id, events, connection.Value())
  {
    hide Inv, Start, Runs, Run;
    connection := new Object(limits, id);
    assert NO_REPLY.Answers();
    connection.BeginRequest(NO_REPLY);
    assert connection.Value() == Begin(limits, id);
    BeginKeeps(limits, id);
    connection.HandleAll(events);
  }
}
