/**
 From the text a client writes to the text it reads: what each request asks for and what each response says, with
 methods, close requests and statuses taken from the texts and not from the server's own parse.
 */
module Exchange {
  import opened Prelude
  import opened Text
  import opened Decimal
  import opened HttpTypes
  import opened HttpLimits
  import opened HttpRequest
  import opened HeaderBlock
  import opened RequestRoundTrip
  import opened RequestLaws
  import opened HttpResponse
  import opened ResponseDecoding
  import opened ResponseLaws
  import opened Framing
  import opened Connection
  import opened ConnectionInvariants
  import opened ConnectionRuns
  import opened RouteTable
  import opened TrieModel
  import opened RouterSpec
  import opened Pipeline
  import opened Wire

  // ---------- HEAD, by the text of the request ----------

  lemma LineStarts(line: string, m: string, t: string, v: string)
    requires IsRequestLine(line, m, t, v)
    ensures "HEAD " <= line <==> m == "HEAD"
  {
    TokenHas(m, ' ');
    assert line[..|m|] == m && line[|m|] == ' ';
    assert forall i :: 0 <= i < |m| ==> line[i] == m[i];
    if "HEAD " <= line {
      assert line[0] == 'H' && line[1] == 'E' && line[2] == 'A' && line[3] == 'D' && line[4] == ' ';
      assert |m| == 4;
    }
  }

  /** Whether a well-framed request is a HEAD request can be read off its first five bytes. */
  lemma HeadByText(f: Frame, limits: Limits)
    requires WellFramed(f, limits)
    ensures IsHead(f, limits) <==> "HEAD " <= f.head
  {
    hide FindBlank, ParseHeaders, Lines, ParseRequestLine, ToMethod, IsRequestLine, AllFields, Finish, Collect;
    assert EndsBlank(f.head) && |f.head| <= limits.maxHeaderBytes by {
      AcceptedShape(f.head, limits);
    }
    BlockIsItsLines(f.head, limits);
    var lines := Lines(f.head);
    FirstLineStarts(lines);
    RequestLineOfJudge(lines, limits);
    var m, t, v := SplitLine(lines[0]);
    LineStarts(lines[0], m, t, v);
    RequestLines(lines[0]);
    MethodsAreNames(m, "HEAD");
  }

  lemma AcceptedShape(head: string, limits: Limits)
    requires ParseHeaders(head, limits).Ok?
    ensures EndsBlank(head) && |head| <= limits.maxHeaderBytes
  {
  }

  lemma FirstLineStarts(lines: seq<string>)
    requires lines != []
    ensures "HEAD " <= Join(lines) + CRLF <==> "HEAD " <= lines[0]
  {
    var all, first := Join(lines) + CRLF, lines[0];
    assert all[..|first|] == first && all[|first|] == '\r';
    assert |first| < 5 ==> "HEAD "[|first|] != '\r';
  }

  lemma RequestLineOfJudge(lines: seq<string>, limits: Limits)
    requires lines != [] && Judge(lines, limits).Ok?
    ensures ParseRequestLine(lines[0]).Ok?
    ensures Judge(lines, limits).value.line == ParseRequestLine(lines[0]).value
  {
  }

  // ---------- what is written, in every run ----------

  /**
   In every run each request is answered with the status its handler gave, and with the body it gave unless the request
   begins with `HEAD `; and a rejected one with the status of the rule it breaks, and that only.
   */
  lemma AnswersSayTheirStatus(limits: Limits, id: nat, events: seq<Event>, c: Conn)
    requires Reached(limits, id, events, c)
    ensures var h := c.history;
            && |h.replies| == |h.frames| && |h.sent| == |h.frames| + (if h.failure.Some? then 1 else 0)
            && (forall i :: 0 <= i < |h.frames| ==>
                  && EndsBlank(h.sent[i].header) && ReadStatus(h.sent[i].header) == Some(h.replies[i].response.status)
                  && h.sent[i].body == if "HEAD " <= h.frames[i].head then "" else h.replies[i].response.ActiveBody())
            && (h.failure.Some? ==>
                  var last := h.sent[|h.frames|];
                  && EndsBlank(last.header) && ReadStatus(last.header) == Some(h.failure.value)
                  && AnnouncesClose(last.header) && last.body == "Request failed")
  {
    hide Reached, ReadStatus, EndsBlank, IsHead, SentFor, FailureSent, AnnouncesClose;
    ServiceIsOrderedAndBounded(limits, id, events, c);
    var h := c.history;
    forall i | 0 <= i < |h.frames|
      ensures EndsBlank(h.sent[i].header) && ReadStatus(h.sent[i].header) == Some(h.replies[i].response.status)
      ensures h.sent[i].body == if "HEAD " <= h.frames[i].head then "" else h.replies[i].response.ActiveBody()
    {
      FrameIsWellFramed(limits, id, events, c, i);
      HeadByText(h.frames[i], limits);
      ReplySays(h.replies[i], h.frames[i].close, IsHead(h.frames[i], limits));
    }
    if h.failure.Some? {
      FailureSays(h.failure.value);
    }
  }

  lemma FrameIsWellFramed(limits: Limits, id: nat, events: seq<Event>, c: Conn, i: nat)
    requires Reached(limits, id, events, c) && i < |c.history.frames|
    ensures WellFramed(c.history.frames[i], limits)
  {
    hide Reached, WellFramed, BufferOk, PhaseOk, AnsweredOk, OrderOk, Bytes;
    ReachedKeeps(limits, id, events, c);
    IdOfReached(limits, id, events, c);
    assert FrameOk(c.history.frames[i], i, c.draining, c.limits);
  }

  lemma ReplySays(reply: Reply, close: bool, isHead: bool)
    requires reply.Answers()
    ensures var sent := SentFor(reply, close, isHead);
            && EndsBlank(sent.header) && ReadStatus(sent.header) == Some(reply.response.status)
            && sent.body == if isHead then "" else reply.response.ActiveBody()
  {
    hide ReadStatus, HeaderBlockOf, EndsBlank;
    StatusReadsBack(reply.response, close, reply.order);
  }

  lemma FailureSays(status: int)
    requires 200 <= status <= 599
    ensures var sent := FailureSent(status);
            && EndsBlank(sent.header) && ReadStatus(sent.header) == Some(status)
            && AnnouncesClose(sent.header) && sent.body == "Request failed"
  {
    hide ReadStatus, HeaderBlockOf, EndsBlank, AnnouncesClose;
    StatusReadsBack(Failure(status), true, []);
    BlockAnnounces(Failure(status), true, []);
  }

  /** Line for line what answers a broken rule. */
  lemma ErrorText(status: int)
    requires status in {400, 413, 417, 431, 501, 505}
    ensures FailureSent(status).header ==
            Join(["HTTP/1.1 " + ToDecimal(status) + " " + Reason(status), "Content-Type: text/plain",
                  "Content-Length: 14", "Connection: close"]) + CRLF
  {
    hide Join, StatusLine, TypeLines, LengthLines, ConnectionText, KeptLines, Response.ActiveBody, ToDecimal, Reason;
    ErrorLines(status);
    var r := Failure(status);
    assert OwnLines(r, true, []) + KeptLines(r.headers, [])
        == ["HTTP/1.1 " + ToDecimal(status) + " " + Reason(status), "Content-Type: text/plain",
            "Content-Length: 14", "Connection: close"];
  }

  lemma ErrorLines(status: int)
    requires status in {400, 413, 417, 431, 501, 505}
    ensures var r := Failure(status);
            && StatusLine(status) == "HTTP/1.1 " + ToDecimal(status) + " " + Reason(status)
            && TypeLines(r, []) == ["Content-Type: text/plain"] && LengthLines(r) == ["Content-Length: 14"]
            && ConnectionText(true) == "Connection: close" && KeptLines(r.headers, []) == []
  {
    hide ToDecimal, Reason, StatusText;
    ReasonIsText(status);
    Fourteen();
    assert "Content-Type: " + "text/plain" == "Content-Type: text/plain";
    assert "Content-Length: " + "14" == "Content-Length: 14";
  }

  lemma Fourteen()
    ensures ToDecimal(|"Request failed"|) == "14"
  {
    assert ToDecimal(14) == ToDecimal(1) + [Digit(4)];
  }

  // ---------- a whole exchange ----------

  /** A client's requests, each with the elements of its Connection value. */
  datatype Call = Call(request: Outgoing, connection: seq<Element>)
  {
    ghost predicate Sound(limits: Limits) {
      && request.Sound(limits) && (forall i :: 0 <= i < |connection| ==> connection[i].Clean())
      && FirstValue(request.fields, "connection") == ListText(connection)
    }

    /** It is the last one that the connection serves, if `served` came before. */
    predicate Closing(served: nat, limits: Limits) {
      AsksToClose(request.version, connection) || served + 1 >= limits.maxRequests
    }

    predicate IsHeadCall() {
      request.httpMethod == "HEAD"
    }
  }

  /** What the client writes. */
  function TextOf(calls: seq<Call>): string {
    if calls == [] then ""
    else
      var last := calls[|calls| - 1].request;
      TextOf(calls[..|calls| - 1]) + (last.Head() + last.body)
  }

  function Requests(calls: seq<Call>): (requests: seq<Outgoing>)
    ensures |requests| == |calls|
    ensures forall i :: 0 <= i < |calls| ==> requests[i] == calls[i].request
  {
    seq(|calls|, i requires 0 <= i < |calls| => calls[i].request)
  }

  lemma ClosingIsLast(call: Call, served: nat, limits: Limits)
    requires call.Sound(limits)
    ensures call.request.Sound(limits)
    ensures call.Closing(served, limits) <==> call.request.Last(served, limits)
  {
    hide Clean, ListText, AsksToClose, KeepAlive, Render, FirstValue, Element.Clean;
    KeptExactlyUnlessAsked(call.request.version, call.connection);
  }

  lemma {:induction false} TextIsBytes(calls: seq<Call>, limits: Limits)
    ensures TextOf(calls) == Bytes(ToFrames(Requests(calls), limits))
  {
    hide Outgoing.Head, Outgoing.Last;
    if calls != [] {
      var n := |calls| - 1;
      TextIsBytes(calls[..n], limits);
      assert ToFrames(Requests(calls), limits)[..n] == ToFrames(Requests(calls[..n]), limits);
    }
  }

  /**
   Requests written one after another, of which none before the last asks to close and which are not too many, are
   dispatched as written; each is closing exactly when it asks to close or is the last that the limit allows, and
   after the last one the connection is closed exactly when that one is.
   */
  lemma CallsAreServed(limits: Limits, id: nat, events: seq<Event>, c: Conn, calls: seq<Call>)
    requires forall i :: 0 <= i < |calls| ==> calls[i].Sound(limits)
    requires forall i :: 0 <= i < |calls| - 1 ==> !calls[i].Closing(i, limits)
    requires Reached(limits, id, events, c) && Finished(c, TextOf(calls))
    requires forall i :: 0 <= i < |events| ==> Quiet(events[i])
    ensures |c.history.frames| == |calls| && c.history.failure == None
    ensures forall i :: 0 <= i < |calls| ==>
              && c.history.frames[i].head == calls[i].request.Head()
              && c.history.frames[i].body == calls[i].request.body
              && (c.history.frames[i].close <==> calls[i].Closing(i, limits))
    ensures c.phase == Closed <==> calls != [] && calls[|calls| - 1].Closing(|calls| - 1, limits)
  {
    hide Reached, Finished, Bytes, TextOf, Outgoing.Sound, Outgoing.Head, Outgoing.Last, Call.Closing,
         Call.Sound, ToFrames;
    forall i | 0 <= i < |calls|
      ensures calls[i].request.Sound(limits) && (calls[i].Closing(i, limits) <==> calls[i].request.Last(i, limits))
    {
      ClosingIsLast(calls[i], i, limits);
    }
    TextIsBytes(calls, limits);
    PipelinedRequestsAreServed(limits, id, events, c, Requests(calls));
  }

  // ---------- what the client reads ----------

  lemma HeadCall(call: Call, f: Frame, limits: Limits)
    requires call.Sound(limits) && f.head == call.request.Head() && WellFramed(f, limits)
    ensures IsHead(f, limits) <==> call.IsHeadCall()
  {
    hide Acceptable, WellFramed, FirstValue, ListText, Element.Clean, NoCrlf, Join;
    HeadByText(f, limits);
    var r := call.request;
    var line := RenderLine(r.httpMethod, r.target, r.version);
    FirstLineStarts([line] + RenderFields(r.fields));
    LineStarts(line, r.httpMethod, r.target, r.version);
  }

  /** Message by message: the status and the body of the reply, no body for HEAD, 204 and 304, and who closes. */
  ghost predicate Reads(messages: seq<Message>, calls: seq<Call>, h: History, limits: Limits)
    requires |h.replies| == |calls| == |h.sent|
  {
    && |messages| == |calls|
    && forall i :: 0 <= i < |calls| ==>
         && messages[i].block == h.sent[i].header && EndsBlank(messages[i].block)
         && ReadStatus(messages[i].block) == Some(h.replies[i].response.status)
         && (AnnouncesClose(messages[i].block) <==> calls[i].Closing(i, limits))
         && messages[i].body == (if calls[i].IsHeadCall() || h.replies[i].response.status in {204, 304} then ""
                                 else h.replies[i].response.ActiveBody())
  }

  function HeadCalls(calls: seq<Call>): (heads: seq<bool>)
    ensures |heads| == |calls|
    ensures forall i :: 0 <= i < |calls| ==> heads[i] == calls[i].IsHeadCall()
  {
    seq(|calls|, i requires 0 <= i < |calls| => calls[i].IsHeadCall())
  }

  /** The items of a history, when each frame answers the call at its place. */
  ghost predicate Answering(h: History, calls: seq<Call>, limits: Limits) {
    && |h.frames| == |h.replies| == |calls| == |h.sent| && h.failure == None
    && forall i :: 0 <= i < |calls| ==>
         && h.replies[i].Answers()
         && (h.frames[i].close <==> calls[i].Closing(i, limits))
         && (IsHead(h.frames[i], limits) <==> calls[i].IsHeadCall())
         && h.sent[i] == SentFor(h.replies[i], h.frames[i].close, IsHead(h.frames[i], limits))
  }

  lemma ItemIsRead(h: History, calls: seq<Call>, i: nat, limits: Limits)
    requires Answering(h, calls, limits) && i < |calls|
    ensures var item := ItemFor(h, i, limits);
            && item.Ok() && item.head == calls[i].IsHeadCall()
            && EndsBlank(h.sent[i].header)
            && ReadStatus(h.sent[i].header) == Some(h.replies[i].response.status)
            && (AnnouncesClose(h.sent[i].header) <==> calls[i].Closing(i, limits))
            && item.Message()
            == Message(h.sent[i].header, if calls[i].IsHeadCall() || h.replies[i].response.status in {204, 304} then ""
                                         else h.replies[i].response.ActiveBody())
  {
    hide IsHead, ReadStatus, AnnouncesClose, EndsBlank, HeaderBlockOf, Call.Closing;
    var reply := h.replies[i];
    StatusReadsBack(reply.response, h.frames[i].close, reply.order);
    BlockAnnounces(reply.response, h.frames[i].close, reply.order);
  }

  lemma MessagesAreMeanings(h: History, calls: seq<Call>, messages: seq<Message>, limits: Limits)
    requires Answering(h, calls, limits)
    ensures var items := Responses(h, false, limits);
            && AllOk(items) && Heads(items) == HeadCalls(calls)
            && (Reads(messages, calls, h, limits) <==> messages == Meanings(items))
  {
    hide IsHead, ReadStatus, AnnouncesClose, EndsBlank, SentFor, Call.Closing, Item.Ok, Item.Message, Call.IsHeadCall;
    var items := Responses(h, false, limits);
    forall i | 0 <= i < |items|
      ensures items[i].Ok() && items[i].head == HeadCalls(calls)[i] && EndsBlank(h.sent[i].header)
      ensures ReadStatus(h.sent[i].header) == Some(h.replies[i].response.status)
      ensures AnnouncesClose(h.sent[i].header) <==> calls[i].Closing(i, limits)
      ensures items[i].Message()
           == Message(h.sent[i].header, if calls[i].IsHeadCall() || h.replies[i].response.status in {204, 304} then ""
                                        else h.replies[i].response.ActiveBody())
    {
      ItemIsRead(h, calls, i, limits);
    }
    MeaningAt(items);
  }

  lemma {:induction false} MeaningAt(items: seq<Item>)
    requires AllOk(items)
    ensures |Meanings(items)| == |items| && forall i :: 0 <= i < |items| ==> Meanings(items)[i] == items[i].Message()
  {
    hide Item.Ok, Item.Message;
    if items != [] {
      MeaningAt(items[1..]);
      assert forall i :: 0 < i < |items| ==> items[i] == items[1..][i - 1];
    }
  }

  /**
   The exchange as a whole: from the bytes written a client that knows only which of its requests are HEAD requests
   reads, one for each request and in order, the status and body of its reply and whether the connection closes, if
   and only if every reply is delimitable.
   */
  lemma CallsAreAnswered(limits: Limits, id: nat, events: seq<Event>, c: Conn, calls: seq<Call>)
    requires forall i :: 0 <= i < |calls| ==> calls[i].Sound(limits)
    requires forall i :: 0 <= i < |calls| - 1 ==> !calls[i].Closing(i, limits)
    requires Reached(limits, id, events, c) && Finished(c, TextOf(calls))
    requires forall i :: 0 <= i < |events| ==> Quiet(events[i])
    ensures |c.history.replies| == |calls| == |c.history.sent|
    ensures forall i :: 0 <= i < |calls| ==> c.history.replies[i].Answers()
    ensures (exists messages ::
               && Decode(WireOf(c.history.sent), HeadCalls(calls)) == Some(messages)
               && Reads(messages, calls, c.history, limits))
       <==> forall i :: 0 <= i < |calls| ==> Delimitable(c.history.replies[i], calls[i].IsHeadCall())
  {
    hide Reached, Finished, TextOf, WellFramed, IsHead, SentFor, FailureSent, Delimitable, Decode, WireOf, Reads,
         Call.Sound, Call.Closing, Call.IsHeadCall, Outgoing.Head, Meanings;
    CallsAreServed(limits, id, events, c, calls);
    ServiceIsOrderedAndBounded(limits, id, events, c);
    var h := c.history;
    forall i | 0 <= i < |calls| ensures IsHead(h.frames[i], limits) <==> calls[i].IsHeadCall() {
      FrameIsWellFramed(limits, id, events, c, i);
      HeadCall(calls[i], h.frames[i], limits);
    }
    ClientReadsResponses(limits, id, events, c, false);
    var items := Responses(h, false, limits);
    MessagesAreMeanings(h, calls, Meanings(items), limits);
    if messages :| Decode(WireOf(h.sent), HeadCalls(calls)) == Some(messages) && Reads(messages, calls, h, limits) {
      MessagesAreMeanings(h, calls, messages, limits);
    }
  }

  // ---------- which handler answers a printed request ----------

  /** What a printed request resolves to. */
  ghost function Routed(regs: seq<Registration>, httpMethod: string, target: string, version: string,
      fields: seq<Field>, limits: Limits, params: map<string, string>): Found
    requires Parsed(httpMethod, target, version, fields, limits).Ok?
  {
    var line := Parsed(httpMethod, target, version, fields, limits).value.line;
    Resolve(regs, line.httpMethod, line.path, params)
  }

  /**
   A printed request is answered by the last route registered for its method name and its path, if that has no colon;
   and a route registered for another method name, whatever the two names are, changes nothing for it.
   */
  lemma PrintedRequestIsRouted(regs: seq<Registration>, r: Registration, httpMethod: string, path: string,
      query: Option<seq<Pair>>, version: string, fields: seq<Field>, limits: Limits, params: map<string, string>)
    requires CleanTarget(path, query) && Clean(httpMethod, RenderTarget(path, query), version, fields)
    requires Parsed(httpMethod, RenderTarget(path, query), version, fields, limits).Ok?
    ensures var target := RenderTarget(path, query);
            && (Known(httpMethod) && ExactFor(r, httpMethod, path) ==>
                  Routed(regs + [r], httpMethod, target, version, fields, limits, params)
                  == Found(Some(r.handler), params))
            && (!Known(httpMethod) ==>
                  Routed(regs, httpMethod, target, version, fields, limits, params) == Found(None, params))
            && (r.methodName != httpMethod ==>
                  Routed(regs + [r], httpMethod, target, version, fields, limits, params)
                  == Routed(regs, httpMethod, target, version, fields, limits, params))
  {
    hide ParseHeaders, Clean, RenderTarget, ParseTarget, Render, CleanTarget, FirstWins, ExactMap, Resolve, ToMethod,
         Known, ExactFor, QueryMeaning, Acceptable, Table, Segments, Preferred;
    WholeRequestRoundTrips(httpMethod, path, query, version, fields, limits);
    if r.methodName != httpMethod {
      OtherNamesUnaffected(regs, r, httpMethod, path, params);
    }
    var p := SelectedByName(regs + [r], httpMethod, path, params, |regs|);
    MethodsAreNames(httpMethod, httpMethod);
    NoMethodResolves(regs, path, params);
  }
}
