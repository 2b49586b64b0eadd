/**
 The connection as a state machine over values: what each callback does to a state whose buffer is seen only
 through its capacity, its read position and the bytes not yet consumed. `TcpConnection` refines it.

 A connection runs on one event loop, so callbacks never overlap. A callback dispatches at most one request;
 what the dispatcher returns for it is the `reply` the environment supplies.
 */
module Connection {
  import opened Prelude
  import opened Text
  import opened HttpTypes
  import opened HttpLimits
  import opened HttpRequest
  import opened HttpResponse
  import opened Framing

  const BUFFER_SIZE: nat := 65536
  const COMPACT_BELOW: nat := 4096

  datatype Phase = Headers | Body | Writing | Closed

  /** An asynchronous operation, from when it is started until it completes. */
  datatype Operation = Reading(room: nat) | Sending

  /** The operations that remain when the first of a kind completes. */
  function Completed(pending: seq<Operation>, read: bool): seq<Operation> {
    if pending == [] then []
    else if pending[0].Reading? == read then pending[1..]
    else [pending[0]] + Completed(pending[1..], read)
  }

  predicate Reads(pending: seq<Operation>, size: nat) {
    exists i :: 0 <= i < |pending| && pending[i].Reading? && size <= pending[i].room
  }

  /** What the dispatcher returned, and the order in which its header map is walked. */
  datatype Reply = Reply(response: Response, order: seq<string>)
  {
    /** The serializer throws on other statuses, and nothing catches that. */
    ghost predicate Answers() {
      200 <= response.status <= 599 && Enumerates(order, response.headers)
    }
  }

  /**
   What the views of the parsed request look at: the bytes from `pos` on in the buffer they were taken in, or
   nothing any more, once that buffer has been replaced by a larger one.
   */
  datatype Views = Lost | At(pos: nat, bytes: string)
  {
    function Shown(): Option<string> {
      if Lost? then None else Some(bytes)
    }
  }

  /** What stands at `pos` in place of `bytes` once `data` has been written at `place`. */
  function Overlay(bytes: string, pos: nat, data: string, place: nat): string {
    seq(|bytes|, i requires 0 <= i < |bytes| =>
      if place <= pos + i < place + |data| then data[pos + i - place] else bytes[i])
  }

  function Overwritten(views: Views, data: string, place: nat): Views {
    if views.Lost? then views else At(views.pos, Overlay(views.bytes, views.pos, data, place))
  }

  /** A response handed to the socket. */
  datatype Sent = Sent(header: string, body: string, close: bool)

  /**
   What has happened so far; nothing in it influences what happens next. For each request dispatched, `intact` says
   that its bytes had not been moved since they were parsed, and `shown` what its views showed.
   */
  datatype History = History(
    received: string,
    consumed: string,
    frames: seq<Frame>,
    replies: seq<Reply>,
    intact: seq<bool>,
    shown: seq<Option<string>>,
    failure: Option<int>,
    sent: seq<Sent>,
    closedIds: seq<nat>)

  datatype Conn = Conn(
    limits: Limits,
    id: nat,
    capacity: nat,
    readPos: nat,
    window: string,
    phase: Phase,
    headerSize: nat,
    request: Request,
    requests: nat,
    draining: bool,
    closeAfterWrite: bool,
    pending: seq<Operation>,
    headerPayload: string,
    bodyPayload: string,
    viewsMoved: bool,
    views: Views,
    history: History)

  const NO_REQUEST: Request :=
    Request(RequestLine(UNKNOWN, "", map[], "HTTP/1.1"), map[], map[], 0, true)

  const NO_HISTORY: History := History("", "", [], [], [], [], None, [], [])

  function Fresh(limits: Limits, id: nat): Conn {
    Conn(limits, id, BUFFER_SIZE, 0, "", Headers, 0, NO_REQUEST, 0, false, false, [], "", "", false, Lost,
         NO_HISTORY)
  }

  // ---------- pieces of callbacks ----------

  function Close(c: Conn): Conn {
    if c.phase == Closed then c
    else c.(phase := Closed, history := c.history.(closedIds := c.history.closedIds + [c.id]))
  }

  predicate Compacts(capacity: nat, readPos: nat, pending: nat) {
    readPos > 0 && capacity - (readPos + pending) < COMPACT_BELOW
  }

  /** Where the unread bytes begin once room has been made. */
  function RoomPos(capacity: nat, readPos: nat, pending: nat): nat {
    if Compacts(capacity, readPos, pending) then 0 else readPos
  }

  function RoomCapacity(capacity: nat, readPos: nat, pending: nat): nat {
    if capacity == RoomPos(capacity, readPos, pending) + pending then 2 * capacity else capacity
  }

  /** Making room moves the unread bytes, within the buffer or into a larger one. */
  predicate MovesBytes(capacity: nat, readPos: nat, pending: nat) {
    Compacts(capacity, readPos, pending) || capacity == RoomPos(capacity, readPos, pending) + pending
  }

  /** Making room writes the unread bytes over the front of the buffer, or replaces the buffer. */
  function ViewsAfterRoom(views: Views, capacity: nat, readPos: nat, window: string): Views {
    if capacity == RoomPos(capacity, readPos, |window|) + |window| then Lost
    else if Compacts(capacity, readPos, |window|) then Overwritten(views, window, 0)
    else views
  }

  function ReadMore(c: Conn): Conn
    requires c.readPos + |c.window| <= c.capacity
  {
    var readPos := RoomPos(c.capacity, c.readPos, |c.window|);
    var capacity := RoomCapacity(c.capacity, c.readPos, |c.window|);
    c.(readPos := readPos, capacity := capacity,
       viewsMoved := c.viewsMoved || MovesBytes(c.capacity, c.readPos, |c.window|),
       views := ViewsAfterRoom(c.views, c.capacity, c.readPos, c.window),
       pending := c.pending + [Reading(capacity - readPos - |c.window|)])
  }

  function Write(c: Conn, sent: Sent): Conn {
    c.(phase := Writing, pending := c.pending + [Sending], closeAfterWrite := sent.close,
       headerPayload := sent.header, bodyPayload := sent.body,
       history := c.history.(sent := c.history.sent + [sent]))
  }

  function Failure(status: int): Response {
    DEFAULT.(status := status, body := "Request failed")
  }

  function FailureSent(status: int): Sent
    requires 200 <= status <= 599
  {
    Sent(HeaderBlockOf(Failure(status), true, []), "Request failed", true)
  }

  function Fail(c: Conn, status: int): Conn
    requires 200 <= status <= 599
  {
    Write(c.(history := c.history.(failure := Some(status))), FailureSent(status))
  }

  /** The bytes written for a reply: no body answers HEAD. */
  function SentFor(reply: Reply, close: bool, isHead: bool): Sent
    requires reply.Answers()
  {
    Sent(HeaderBlockOf(reply.response, close, reply.order), if isHead then "" else reply.response.ActiveBody(), close)
  }

  /** The connection closes after the request at the front of the window. */
  predicate ClosesNow(c: Conn) {
    c.draining || !c.request.keepAlive || c.requests + 1 >= c.limits.maxRequests
  }

  /** Takes the request at the front of the window, and records what is dispatched and returned for it. */
  function Take(c: Conn, reply: Reply): Conn
    requires c.headerSize + c.request.contentLength <= |c.window|
  {
    var total := c.headerSize + c.request.contentLength;
    var frame := Frame(c.window[..c.headerSize], c.window[c.headerSize..total], ClosesNow(c));
    var h := c.history;
    c.(requests := if c.draining || !c.request.keepAlive then c.requests else c.requests + 1,
       closeAfterWrite := ClosesNow(c),
       readPos := if |c.window| == total then 0 else c.readPos + total,
       window := c.window[total..],
       history := h.(consumed := h.consumed + c.window[..total], frames := h.frames + [frame],
                     replies := h.replies + [reply], intact := h.intact + [!c.viewsMoved],
                     shown := h.shown + [c.views.Shown()]))
  }

  function Dispatch(c: Conn, reply: Reply): Conn
    requires c.headerSize + c.request.contentLength <= |c.window|
    requires reply.Answers()
  {
    Write(Take(c, reply), SentFor(reply, ClosesNow(c), c.request.line.httpMethod == HEAD))
  }

  function ProcessBody(c: Conn, reply: Reply): Conn
    requires c.readPos + |c.window| <= c.capacity && reply.Answers()
  {
    if |c.window| < c.headerSize + c.request.contentLength then ReadMore(c) else Dispatch(c, reply)
  }

  /** Remembers an accepted header block, and the views the parser has taken into it. */
  function Accept(c: Conn, size: nat, r: Request): Conn
    requires size <= |c.window|
  {
    c.(headerSize := size, request := r, phase := Body, viewsMoved := false, views := At(c.readPos, c.window[..size]))
  }

  function ProcessInput(c: Conn, reply: Reply): Conn
    requires c.readPos + |c.window| <= c.capacity && reply.Answers()
  {
    match c.phase
    case Closed => c
    case Writing => c
    case Body => ProcessBody(c, reply)
    case Headers =>
      match FindBlank(c.window)
      case None => if |c.window| >= c.limits.maxHeaderBytes then Fail(c, 431) else ReadMore(c)
      case Some(e) =>
        match ParseHeaders(c.window[..e + 4], c.limits)
        case Rejected(status) => Fail(c.(headerSize := e + 4), status)
        case Ok(r) => ProcessBody(Accept(c, e + 4, r), reply)
  }

  // ---------- callbacks ----------

  function Start(c: Conn, reply: Reply): Conn
    requires c.readPos + |c.window| <= c.capacity && reply.Answers()
  {
    if c.phase == Closed then c
    else if c.draining then Close(c)
    else ProcessInput(c.(phase := Headers, headerSize := 0, request := NO_REQUEST), reply)
  }

  function Stop(c: Conn, force: bool): Conn {
    if force || c.phase == Headers then Close(c.(draining := true)) else c.(draining := true)
  }

  function Arrived(c: Conn, data: string): Conn {
    c.(window := c.window + data, views := Overwritten(c.views, data, c.readPos + |c.window|),
       history := c.history.(received := c.history.received + data))
  }

  function OnRead(c: Conn, data: string, reply: Reply): Conn
    requires c.readPos + |c.window| + |data| <= c.capacity && reply.Answers()
  {
    if c.phase == Closed then c else ProcessInput(Arrived(c, data), reply)
  }

  function OnReadError(c: Conn): Conn {
    Close(c)
  }

  function OnWritten(c: Conn, reply: Reply): Conn
    requires c.readPos + |c.window| <= c.capacity && reply.Answers()
  {
    if c.phase == Closed then c
    else
      var cleared := c.(headerPayload := "", bodyPayload := "");
      if c.closeAfterWrite || c.draining then Close(cleared)
      else
        var next := cleared.(phase := Headers, headerSize := 0, request := NO_REQUEST);
        if |c.window| > 0 then ProcessInput(next, reply) else ReadMore(next)
  }

  function OnWriteError(c: Conn): Conn {
    if c.phase == Closed then c else Close(c.(headerPayload := "", bodyPayload := ""))
  }

  // ---------- runs ----------

  datatype Event =
    | Read(data: string, reply: Reply)
    | ReadError
    | Written(next: Reply)
    | WriteError
    | StopRequested(force: bool)

  /**
   What can happen in a state: a pending operation completes, a read with at least one byte and no more than it
   offered room for; or the server stops the connection. Operations that are pending when the connection closes
   still complete, late.
   */
  ghost predicate Possible(c: Conn, e: Event) {
    match e
    case Read(data, reply) => reply.Answers() && 1 <= |data| && Reads(c.pending, |data|)
    case ReadError => Reads(c.pending, 0)
    case Written(reply) => reply.Answers() && Sending in c.pending
    case WriteError => Sending in c.pending
    case StopRequested(_) => true
  }

  /** More of a request is needed. */
  predicate Listening(c: Conn) {
    c.phase == Headers || c.phase == Body
  }

  /** While the connection is open, a pending read offers the room that the buffer has. */
  predicate Fits(c: Conn) {
    && c.readPos + |c.window| <= c.capacity
    && (c.phase != Closed ==>
          forall i :: 0 <= i < |c.pending| && c.pending[i].Reading?
            ==> c.pending[i].room == c.capacity - c.readPos - |c.window|)
  }

  /** An operation completes: it is taken off before its handler is called. */
  function Done(c: Conn, read: bool): Conn {
    c.(pending := Completed(c.pending, read))
  }

  function Step(c: Conn, e: Event): Conn
    requires Fits(c) && Possible(c, e)
  {
    match e
    case Read(data, reply) => if c.phase == Closed then Done(c, true) else OnRead(Done(c, true), data, reply)
    case ReadError => OnReadError(Done(c, true))
    case Written(reply) => OnWritten(Done(c, false), reply)
    case WriteError => OnWriteError(Done(c, false))
    case StopRequested(force) => Stop(c, force)
  }
}
