/** From one end to the other: what a client reads from the bytes a connection writes. */
module Wire {
  import opened Prelude
  import opened Text
  import opened HttpLimits
  import opened HttpRequest
  import opened HttpResponse
  import opened ResponseDecoding
  import opened Framing
  import opened Connection
  import opened ConnectionInvariants
  import opened ConnectionRuns

  function Payload(s: Sent): string {
    s.header + s.body
  }

  function WireOf(sent: seq<Sent>): string {
    if sent == [] then "" else Payload(sent[0]) + WireOf(sent[1..])
  }

  /**
   The transport writes what `serialize` prints, unless a handler gives a 204 or 304 a body: the transport
   suppresses the body only for HEAD.
   */
  lemma TransportPrints(reply: Reply, close: bool, isHead: bool)
    requires reply.Answers()
    ensures Payload(SentFor(reply, close, isHead)) == Printed(reply.response, close, isHead, reply.order)
            <==> isHead || !NoContent(reply.response.status) || reply.response.ActiveBody() == ""
  {
  }

  /**
   A reply whose payload a client can delimit: its headers leave the framing alone, and no body goes out on
   204 or 304.
   */
  ghost predicate Delimitable(reply: Reply, isHead: bool)
    requires reply.Answers()
  {
    && Delimits(reply.response, reply.order, isHead)
    && (isHead || !NoContent(reply.response.status) || reply.response.ActiveBody() == "")
  }

  // ---------- what the header block says about closing ----------

  /** The first Connection line of a block, which is the server's own, says close. */
  predicate AnnouncesClose(block: string)
    requires EndsBlank(block)
  {
    var lines := Lines(block);
    lines != [] && var values := ValuesOf(lines[1..], "connection"); values != [] && values[0] == "close"
  }

  lemma BlockAnnounces(r: Response, close: bool, order: seq<string>)
    requires Valid(r, order)
    ensures EndsBlank(HeaderBlockOf(r, close, order))
    ensures AnnouncesClose(HeaderBlockOf(r, close, order)) <==> close
  {
    hide HeaderBlockOf, Lines, ValuesOf, HandlerLines, FindBlank;
    ServerOwnsFraming(r, close, order, "connection");
    assert "close"[0] != "keep-alive"[0];
  }

  lemma SentAnnounces(c: Conn)
    requires Inv(c) && c.history.sent != []
    ensures var last := c.history.sent[|c.history.sent| - 1];
            EndsBlank(last.header) && (AnnouncesClose(last.header) <==> last.close)
  {
    hide HeaderBlockOf, EndsBlank, AnnouncesClose, NextFrame, FrameOk, IsHead, BufferOk, PhaseOk, Bytes;
    var h := c.history;
    var i := |h.sent| - 1;
    if i < |h.frames| {
      var reply := h.replies[i];
      assert reply.Answers();
      BlockAnnounces(reply.response, h.frames[i].close, reply.order);
    } else {
      BlockAnnounces(Failure(h.failure.value), true, []);
    }
  }

  lemma WrittenCloses(c: Conn, reply: Reply)
    requires Inv(c) && c.phase == Writing && reply.Answers()
    ensures Fits(c) && Possible(c, Written(reply)) && c.history.sent != []
    ensures Step(c, Written(reply)).phase == Closed <==> c.draining || c.history.sent[|c.history.sent| - 1].close
  {
    hide ParseHeaders, FindBlank, HeaderRead, BufferOk, DispatchedOk, AnsweredOk, SentFor, FailureSent;
    BoundsOf(c);
  }

  /**
   In every run, when the write of a response completes, the connection closes exactly when the header block
   written says close or a stop has been requested. Error responses are included.
   */
  lemma ClosesWhenAnnouncedOrDraining(limits: Limits, id: nat, events: seq<Event>, c: Conn, reply: Reply)
    requires Reached(limits, id, events, c) && c.phase == Writing && reply.Answers()
    ensures Fits(c) && Possible(c, Written(reply)) && c.history.sent != []
    ensures var last := c.history.sent[|c.history.sent| - 1];
            && EndsBlank(last.header)
            && (Step(c, Written(reply)).phase == Closed <==> c.draining || AnnouncesClose(last.header))
  {
    hide Reached, Inv, Step, Possible, Fits, EndsBlank, AnnouncesClose;
    ReachedKeeps(limits, id, events, c);
    WrittenCloses(c, reply);
    SentAnnounces(c);
  }

  /** Without a stop request, the connection closes exactly when the header block just written says close. */
  lemma UndisturbedClosesWhenAnnounced(limits: Limits, id: nat, events: seq<Event>, c: Conn, reply: Reply)
    requires Reached(limits, id, events, c) && c.phase == Writing && reply.Answers()
    requires forall i :: 0 <= i < |events| ==> Quiet(events[i])
    ensures Fits(c) && Possible(c, Written(reply)) && c.history.sent != []
    ensures var last := c.history.sent[|c.history.sent| - 1];
            EndsBlank(last.header) && (Step(c, Written(reply)).phase == Closed <==> AnnouncesClose(last.header))
  {
    hide Inv, Begin, Step, Possible, Fits, EndsBlank, AnnouncesClose;
    ClosesWhenAnnouncedOrDraining(limits, id, events, c, reply);
    BeginKeeps(limits, id);
    BeginConstants(limits, id);
    QuietRun(Begin(limits, id), events);
  }

  // ---------- the client ----------

  ghost function ItemFor(h: History, i: nat, limits: Limits): Item
    requires i < |h.frames| && i < |h.replies|
  {
    Item(h.replies[i].response, h.frames[i].close, IsHead(h.frames[i], limits), h.replies[i].order)
  }

  /**
   The responses a connection has handed to the socket: one for each request, and the error response, which for the
   client answers HEAD if what was rejected is a HEAD request.
   */
  ghost function Responses(h: History, rejectedHead: bool, limits: Limits): (items: seq<Item>)
    requires |h.replies| == |h.frames|
    ensures |items| == |h.frames| + if h.failure.Some? then 1 else 0
    ensures forall i :: 0 <= i < |h.frames| ==> items[i] == ItemFor(h, i, limits)
    ensures h.failure.Some? ==> items[|h.frames|] == Item(Failure(h.failure.value), true, rejectedHead, [])
  {
    seq(|h.frames|, i requires 0 <= i < |h.frames| => ItemFor(h, i, limits))
    + if h.failure.Some? then [Item(Failure(h.failure.value), true, rejectedHead, [])] else []
  }

  /** Each payload is the text of its item, or longer. */
  ghost predicate PayloadsFor(sent: seq<Sent>, items: seq<Item>) {
    && |sent| == |items| && AllOk(items)
    && forall i :: 0 <= i < |items| ==> |Payload(sent[i])| >= |items[i].Text()|
  }

  lemma {:induction false} WireAtLeast(sent: seq<Sent>, items: seq<Item>)
    requires PayloadsFor(sent, items)
    ensures |WireOf(sent)| >= |Stream(items)|
    ensures |WireOf(sent)| == |Stream(items)| ==>
              forall i :: 0 <= i < |items| ==> |Payload(sent[i])| == |items[i].Text()|
  {
    hide Payload, Printed, Valid;
    if items != [] {
      WireAtLeast(sent[1..], items[1..]);
      assert forall i :: 0 < i < |items| ==> items[i] == items[1..][i - 1] && sent[i] == sent[1..][i - 1];
    }
  }

  lemma {:induction false} WireIsStream(sent: seq<Sent>, items: seq<Item>)
    requires |sent| == |items| && AllOk(items)
    requires forall i :: 0 <= i < |items| ==> Payload(sent[i]) == items[i].Text()
    ensures WireOf(sent) == Stream(items)
  {
    hide Payload, Printed, Valid;
    if items != [] {
      WireIsStream(sent[1..], items[1..]);
    }
  }

  /** The bytes of a list of messages. */
  function Concatenated(messages: seq<Message>): string {
    if messages == [] then "" else messages[0].block + messages[0].body + Concatenated(messages[1..])
  }

  lemma {:induction false} DecodedIsAll(stream: string, heads: seq<bool>)
    requires Decode(stream, heads).Some?
    ensures stream == Concatenated(Decode(stream, heads).value)
    decreases |heads|
  {
    hide DecodeOne;
    if heads != [] {
      DecodeSplits(stream, heads[0]);
      var (m, rest) := DecodeOne(stream, heads[0]).value;
      DecodedIsAll(rest, heads[1..]);
      assert Decode(stream, heads).value[1..] == Decode(rest, heads[1..]).value;
    }
  }

  lemma {:induction false} MeaningsAreStream(items: seq<Item>)
    requires AllOk(items)
    ensures Concatenated(Meanings(items)) == Stream(items)
  {
    hide Meaning, Printed, Valid;
    if items != [] {
      MeaningsAreStream(items[1..]);
      TextOfMessage(items[0]);
      assert Meanings(items)[1..] == Meanings(items[1..]);
    }
  }

  /** A stream of payloads decodes to the items exactly when each payload is its item's text and delimits itself. */
  lemma PayloadsReadBack(sent: seq<Sent>, items: seq<Item>)
    requires PayloadsFor(sent, items)
    requires forall i :: 0 <= i < |items| && |Payload(sent[i])| == |items[i].Text()|
               ==> Payload(sent[i]) == items[i].Text()
    ensures Decode(WireOf(sent), Heads(items)) == Some(Meanings(items))
       <==> forall i :: 0 <= i < |items| ==> Payload(sent[i]) == items[i].Text() && items[i].Delimited()
  {
    hide Payload, Printed, Decode, Meanings, Delimits, Valid, Stream, WireOf;
    if Decode(WireOf(sent), Heads(items)) == Some(Meanings(items)) {
      DecodedIsAll(WireOf(sent), Heads(items));
      MeaningsAreStream(items);
      WireAtLeast(sent, items);
    }
    if forall i :: 0 <= i < |items| ==> Payload(sent[i]) == items[i].Text() {
      WireIsStream(sent, items);
      StreamReadsBack(items);
    }
  }

  /** A client that decodes the bytes sees exactly these responses. */
  ghost predicate DecodesTo(sent: seq<Sent>, items: seq<Item>)
    requires AllOk(items)
  {
    Decode(WireOf(sent), Heads(items)) == Some(Meanings(items))
  }

  lemma PayloadOfReply(reply: Reply, close: bool, isHead: bool)
    requires reply.Answers()
    ensures var payload := Payload(SentFor(reply, close, isHead));
            var text := Printed(reply.response, close, isHead, reply.order);
            |payload| >= |text| && (|payload| == |text| ==> payload == text)
  {
    hide HeaderBlockOf;
  }

  /** The error response delimits itself, unless it answers HEAD: it has a body all the same. */
  lemma FailureDelimits(status: int, head: bool)
    requires 200 <= status <= 599 && !NoContent(status)
    ensures Valid(Failure(status), []) && Delimits(Failure(status), [], head)
    ensures var payload, text := Payload(FailureSent(status)), Printed(Failure(status), true, head, []);
            if head then payload == text + "Request failed" else payload == text
  {
    hide HeaderBlockOf, HandlerLines, Delimits;
    PrintableDelimits(Failure(status), [], head, "content-length");
  }

  /** An error response that answers HEAD cannot be read; one that answers anything else can. */
  lemma FailureReadsBack(status: int, head: bool)
    requires 200 <= status <= 599 && !NoContent(status)
    ensures Decode(WireOf([FailureSent(status)]), [head]).Some? <==> !head
  {
    hide HeaderBlockOf, HandlerLines, Delimits, Printed, Meaning, DecodeOne, FailureSent, Failure, Payload;
    var sent := FailureSent(status);
    FailureDelimits(status, head);
    var rest := if head then "Request failed" else "";
    assert WireOf([sent]) == Payload(sent) + WireOf([]) && [sent][1..] == [];
    assert WireOf([sent]) == Printed(Failure(status), true, head, []) + rest;
    OneReadsBack(Failure(status), true, head, [], rest);
  }

  /**
   In every run, whatever else happens, the bytes handed to the socket so far, the response still being written
   included, decode to exactly the responses to the requests dispatched so far, in their order, and then the error
   response if there is one, if and only if every reply is delimitable and no HEAD request has been rejected: the
   error response has a body whatever it answers.
   */
  lemma ClientReadsResponses(limits: Limits, id: nat, events: seq<Event>, c: Conn, rejectedHead: bool)
    requires Reached(limits, id, events, c)
    ensures |c.history.replies| == |c.history.frames|
    ensures forall i :: 0 <= i < |c.history.replies| ==> c.history.replies[i].Answers()
    ensures AllOk(Responses(c.history, rejectedHead, limits))
    ensures DecodesTo(c.history.sent, Responses(c.history, rejectedHead, limits)) <==>
              && (forall i :: 0 <= i < |c.history.frames| ==>
                    Delimitable(c.history.replies[i], IsHead(c.history.frames[i], limits)))
              && (c.history.failure.Some? ==> !rejectedHead)
  {
    hide Reached, Payload, Printed, Delimits, SentFor, FailureSent, IsHead, NextFrame, Decode, Stream, Meanings,
         Failure, WireOf;
    ServiceIsOrderedAndBounded(limits, id, events, c);
    var h := c.history;
    var items := Responses(h, rejectedHead, limits);
    if h.failure.Some? {
      FailureStatus(limits, id, events, c);
      FailureDelimits(h.failure.value, rejectedHead);
    }
    forall i | 0 <= i < |items|
      ensures items[i].Ok() && |Payload(h.sent[i])| >= |items[i].Text()|
      ensures |Payload(h.sent[i])| == |items[i].Text()| ==> Payload(h.sent[i]) == items[i].Text()
      ensures Payload(h.sent[i]) == items[i].Text() && items[i].Delimited()
         <==> if i < |h.frames| then Delimitable(h.replies[i], IsHead(h.frames[i], limits)) else !rejectedHead
    {
      if i < |h.frames| {
        PayloadOfReply(h.replies[i], h.frames[i].close, IsHead(h.frames[i], limits));
        TransportPrints(h.replies[i], h.frames[i].close, IsHead(h.frames[i], limits));
      }
    }
    PayloadsReadBack(h.sent, items);
  }

  lemma FailureStatus(limits: Limits, id: nat, events: seq<Event>, c: Conn)
    requires Reached(limits, id, events, c) && c.history.failure.Some?
    ensures 200 <= c.history.failure.value <= 599 && !NoContent(c.history.failure.value)
  {
    hide Reached, ParseHeaders, FindBlank, BufferOk, HeaderRead, DispatchedOk, FailureSent, SentFor;
    ReachedKeeps(limits, id, events, c);
  }
}
