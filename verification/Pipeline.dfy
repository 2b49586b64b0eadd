/** From the client's requests to dispatch: printed, written one after another, cut into reads, and served. */
module Pipeline {
  import opened Prelude
  import opened Text
  import opened Decimal
  import opened HttpLimits
  import opened HttpRequest
  import opened HeaderBlock
  import opened RequestRoundTrip
  import opened Framing
  import opened Connection
  import opened ConnectionInvariants
  import opened ConnectionRuns

  /** A request a client prints. */
  datatype Outgoing = Outgoing(httpMethod: string, target: string, version: string, fields: seq<Field>, body: string)
  {
    function Head(): string {
      Render(httpMethod, target, version, fields)
    }

    /** Printable, acceptable, and with a body of the announced length. */
    ghost predicate Sound(limits: Limits) {
      && Clean(httpMethod, target, version, fields) && Acceptable(httpMethod, target, version, fields, limits)
      && |body| == Value(FirstValue(fields, "content-length"))
    }

    /** The connection must close after it, when it follows `served` others. */
    predicate Last(served: nat, limits: Limits) {
      !KeepAlive(version, FirstValue(fields, "connection")) || served + 1 >= limits.maxRequests
    }

    function ToFrame(served: nat, limits: Limits): Frame {
      Frame(Head(), body, Last(served, limits))
    }
  }

  lemma HeadEndsOnce(r: Outgoing)
    requires Clean(r.httpMethod, r.target, r.version, r.fields)
    ensures FindBlank(r.Head()) == Some(|r.Head()| - 4)
  {
    hide FindBlank, ParseField, RenderField, NoCrlf;
    var line, tail := RenderLine(r.httpMethod, r.target, r.version), RenderFields(r.fields);
    forall i | 0 <= i < |tail| ensures NoCrlf(tail[i]) && tail[i] != "" {
      FieldRoundTrip(r.fields[i]);
    }
    var lines := [line] + tail;
    assert forall i :: 0 <= i < |lines| ==> NoCrlf(lines[i]) && lines[i] != "";
    JoinFirstBlank(lines);
  }

  lemma SoundIsWellFramed(r: Outgoing, served: nat, limits: Limits)
    requires r.Sound(limits)
    ensures WellFramed(r.ToFrame(served, limits), limits) && RightClose(r.ToFrame(served, limits), served, limits)
  {
    hide Render, ParseHeaders, FindBlank, Clean, Acceptable, FirstValue, KeepAlive;
    HeadEndsOnce(r);
    RequestRoundTrips(r.httpMethod, r.target, r.version, r.fields, limits);
  }

  function ToFrames(requests: seq<Outgoing>, limits: Limits): (frames: seq<Frame>)
    ensures |frames| == |requests|
    ensures forall i :: 0 <= i < |requests| ==> frames[i] == requests[i].ToFrame(i, limits)
  {
    seq(|requests|, i requires 0 <= i < |requests| => requests[i].ToFrame(i, limits))
  }

  /**
   Acceptable requests written one after another, none but the last of which closes, are dispatched exactly as they
   were printed, each with its own body and close decision, however the stream is cut into reads; and the
   connection is closed afterwards exactly when the last of them closes.
   */
  lemma PipelinedRequestsAreServed(limits: Limits, id: nat, events: seq<Event>, c: Conn, requests: seq<Outgoing>)
    requires forall i :: 0 <= i < |requests| ==> requests[i].Sound(limits)
    requires forall i :: 0 <= i < |requests| - 1 ==> !requests[i].Last(i, limits)
    requires Reached(limits, id, events, c) && Finished(c, Bytes(ToFrames(requests, limits)))
    requires forall i :: 0 <= i < |events| ==> Quiet(events[i])
    ensures c.history.frames == ToFrames(requests, limits) && c.history.failure == None
    ensures c.phase == Closed <==> requests != [] && requests[|requests| - 1].Last(|requests| - 1, limits)
  {
    hide Reached, Finished, FrameStream, Bytes, WellFramed, RightClose, Outgoing.Sound, Outgoing.Head;
    var frames := ToFrames(requests, limits);
    forall i | 0 <= i < |frames| ensures WellFramed(frames[i], limits) && RightClose(frames[i], i, limits) {
      SoundIsWellFramed(requests[i], i, limits);
    }
    assert Servable(frames, 0, limits);
    FramingIsComplete(frames, "", 0, limits);
    assert Bytes(frames) + "" == Bytes(frames);
    NothingToFrame(|frames|, limits, id, events, c);
    RunRefinesFraming(limits, id, events, c, Bytes(frames));
    assert frames + [] == frames;
  }

  lemma NothingToFrame(served: nat, limits: Limits, id: nat, events: seq<Event>, c: Conn)
    requires Reached(limits, id, events, c)
    ensures FrameStream("", served, limits) == Framed([], "", Waiting)
  {
    hide Runs, Run, Begin;
    EmptyHasNoBlank();
  }
}
