/**
 The parsed request is a set of views into the buffer, and reading the rest of the body may move the bytes
 they look at, write over the place they look at, or replace the buffer. Exactly when can that happen?
 */
module ViewStability {
  import opened Prelude
  import opened Text
  import opened HttpLimits
  import opened HttpRequest
  import opened Connection
  import opened ConnectionInvariants
  import opened ConnectionRuns

  function Total(c: Conn): nat {
    c.headerSize + c.request.contentLength
  }

  /**
   The rest of the request cannot make the buffer compact or grow: the request is complete, or it starts at
   the front of a buffer that holds all of it, or it leaves the compaction margin free to its last byte.
   */
  predicate Roomy(c: Conn) {
    || |c.window| >= Total(c)
    || (c.readPos == 0 && Total(c) <= c.capacity)
    || (c.readPos > 0 && c.readPos + Total(c) - 1 + 4096 <= c.capacity)
  }

  /** Waiting for more of a body. */
  ghost predicate WaitingForBody(c: Conn) {
    && Inv(c) && c.phase == Body
    && (!c.viewsMoved ==> !MovesBytes(c.capacity, c.readPos, |c.window|))
  }

  predicate ReadOrDrain(e: Event) {
    e.Read? || e == StopRequested(false)
  }

  /** Reads of a body, and graceful stops between them, until the request is dispatched. */
  ghost predicate BodyReads(c: Conn, events: seq<Event>) {
    && (forall i :: 0 <= i < |events| ==> ReadOrDrain(events[i]))
    && Runs(c, events) && Run(c, events).phase == Writing
  }

  /** The bytes of the last request dispatched had not been moved since they were parsed. */
  predicate LastIntact(h: History) {
    h.intact != [] && h.intact[|h.intact| - 1]
  }

  /** What the views of the last request dispatched showed, `None` when they pointed into a freed buffer. */
  function LastShown(h: History): Option<string> {
    if h.shown == [] then None else h.shown[|h.shown| - 1]
  }

  /** The views of the last request dispatched showed its header block, which is what they were taken from. */
  predicate LastShowsHeader(h: History) {
    h.frames != [] && LastShown(h) == Some(h.frames[|h.frames| - 1].head)
  }

  /** What is dispatched once the last bytes of the body are there. */
  ghost predicate Dispatches(c: Conn, data: string, next: Conn)
    requires c.headerSize <= |c.window| && Total(c) <= |c.window + data|
  {
    && Inv(next) && next.phase == Writing && next.window == (c.window + data)[Total(c)..]
    && next.history.intact == c.history.intact + [!c.viewsMoved]
    && next.history.shown == c.history.shown + [Arrived(c, data).views.Shown()]
    && next.history.frames != []
    && next.history.frames[|next.history.frames| - 1].head == c.window[..c.headerSize]
  }

  lemma BodyRead(c: Conn, data: string, reply: Reply)
    requires WaitingForBody(c) && reply.Answers()
    requires 1 <= |data| && c.readPos + |c.window| + |data| <= c.capacity
    ensures Fits(c) && Possible(c, Read(data, reply))
    ensures c.headerSize <= |c.window| < Total(c) && ViewsTrack(c)
    ensures var next := Step(c, Read(data, reply));
            if |c.window| + |data| >= Total(c) then Dispatches(c, data, next)
            else
              && WaitingForBody(next) && next == ReadMore(Arrived(Done(c, true), data)) && Total(next) == Total(c)
  {
    hide ParseHeaders, FindBlank, HistoryOk, BufferOk, HeaderRead, SentFor, ViewsTrack, Overwritten, Reads;
    BoundsOf(c);
    HeaderInWindow(c);
    ReadCanComplete(c, |data|);
    StepKeeps(c, Read(data, reply));
    if !MovesBytes(c.capacity, c.readPos, |c.window| + |data|) {
      RoomDoesNotMove(c.capacity, c.readPos, |c.window| + |data|);
    }
    if |c.window| + |data| >= Total(c) {
      assert (c.window + data)[..c.headerSize] == c.window[..c.headerSize];
    }
  }

  lemma BodyReadFits(c: Conn, e: Event)
    requires Inv(c) && c.phase == Body && e.Read? && Possible(c, e)
    ensures e.reply.Answers() && 1 <= |e.data| && c.readPos + |c.window| + |e.data| <= c.capacity
  {
    hide BufferOk, HistoryOk, HeaderRead, ViewsTrack;
  }

  lemma HeaderInWindow(c: Conn)
    requires Inv(c) && c.phase == Body
    ensures c.headerSize <= |c.window| < Total(c) && ViewsTrack(c)
    ensures AwaitsBytes(c)
  {
    hide ParseHeaders, FindBlank, HistoryOk, BufferOk, ViewsTrack;
  }

  /** Right after making room without moving bytes, making room again would not move any either. */
  lemma RoomDoesNotMove(capacity: nat, readPos: nat, pending: nat)
    requires !MovesBytes(capacity, readPos, pending)
    ensures RoomPos(capacity, readPos, pending) == readPos && RoomCapacity(capacity, readPos, pending) == capacity
  {
  }

  /** While the response is being written no read can complete, and a graceful stop only sets the draining flag. */
  lemma {:induction false} WritingTakesNoReads(c: Conn, events: seq<Event>)
    requires Inv(c) && c.phase == Writing && Runs(c, events)
    requires forall i :: 0 <= i < |events| ==> ReadOrDrain(events[i])
    ensures Run(c, events) == c.(draining := Run(c, events).draining)
    decreases |events|
  {
    hide Inv, Possible;
    if events != [] {
      if events[0].Read? {
        NoReadWhileWriting(c, events[0]);
        assert false;
      }
      StopKeeps(c, false);
      WritingTakesNoReads(Step(c, events[0]), events[1..]);
    }
  }

  /** A graceful stop does not disturb a request whose body is being read. */
  lemma BodyStop(c: Conn)
    requires WaitingForBody(c)
    ensures Fits(c) && Possible(c, StopRequested(false))
    ensures Step(c, StopRequested(false)) == c.(draining := true) && WaitingForBody(c.(draining := true))
  {
    hide Inv;
    BoundsOf(c);
    StopKeeps(c, false);
  }

  lemma NoReadWhileWriting(c: Conn, e: Event)
    requires Inv(c) && c.phase == Writing && e.Read?
    ensures !Possible(c, e)
  {
    hide BufferOk, HistoryOk;
  }

  /** In every run, a request dispatched before its bytes were moved was dispatched with views of its header block. */
  lemma UnmovedViewsShowHeader(limits: Limits, id: nat, events: seq<Event>, c: Conn, i: nat)
    requires Reached(limits, id, events, c) && i < |c.history.frames|
    ensures |c.history.intact| == |c.history.shown| == |c.history.frames|
    ensures c.history.intact[i] ==> c.history.shown[i] == Some(c.history.frames[i].head)
  {
    hide Reached, BufferOk, PhaseOk, AnsweredOk, OrderOk, FrameOk;
    ReachedKeeps(limits, id, events, c);
  }

  // ---------- with room the bytes stay ----------

  /** A request with room is never moved, whatever reads bring the rest of it. */
  lemma {:induction false} RoomyKeepsViews(c: Conn, events: seq<Event>)
    requires WaitingForBody(c) && Roomy(c) && !c.viewsMoved && BodyReads(c, events)
    ensures LastIntact(Run(c, events).history)
    decreases |events|
  {
    hide Inv, Step, ReadMore, ViewsTrack;
    assert events != [] by {
      assert c.phase == Body;
    }
    var e, rest := events[0], events[1..];
    var next := Step(c, e);
    if e.StopRequested? {
      BodyStop(c);
      RoomyKeepsViews(next, rest);
      return;
    }
    BodyReadFits(c, e);
    BodyRead(c, e.data, e.reply);
    if next.phase == Writing {
      WritingTakesNoReads(next, rest);
    } else {
      RoomyStep(c, e.data);
      RoomyKeepsViews(next, rest);
    }
  }

  lemma RoomyStep(c: Conn, data: string)
    requires Roomy(c) && !c.viewsMoved && |c.window| + |data| < Total(c)
    requires c.readPos + |c.window| + |data| <= c.capacity
    ensures var next := ReadMore(Arrived(Done(c, true), data)); Roomy(next) && !next.viewsMoved
  {
  }

  // ---------- what overwrites the place the views look at ----------

  /** The header block stands a second time where it stood before the unread bytes were moved. */
  predicate Echo(window: string, pos: nat, size: nat) {
    size <= |window| && pos + size <= |window| && window[pos..pos + size] == window[..size]
  }

  /**
   Moving the request to the front does not change what its views show, if no more than `extra` bytes beyond it are
   read: it all fits before its old place, or its old place happens to receive the same bytes.
   */
  predicate Sheltered(c: Conn, pos: nat, extra: nat) {
    0 < pos && Total(c) <= c.capacity && (Total(c) + extra <= pos || Echo(c.window, pos, c.headerSize))
  }

  lemma OverlayAbove(head: string, pos: nat, window: string)
    requires |window| <= pos || (head <= window && Echo(window, pos, |head|))
    ensures Overlay(head, pos, window, 0) == head
  {
    if |window| > pos {
      assert forall i :: 0 <= i < |head| ==> head[i] == window[pos..pos + |head|][i];
    }
  }

  lemma EchoStays(window: string, data: string, pos: nat, size: nat)
    requires Echo(window, pos, size)
    ensures Echo(window + data, pos, size)
  {
    assert (window + data)[pos..pos + size] == window[pos..pos + size];
    assert (window + data)[..size] == window[..size];
  }

  /** Waiting, with views that will still show the header block when the rest has come. */
  ghost predicate Safe(c: Conn, extra: nat) {
    || (!c.viewsMoved && Roomy(c))
    || (c.views.At? && Sheltered(c, c.views.pos, extra))
  }

  lemma SafeAlike(c: Conn)
    ensures forall extra :: Safe(c.(draining := true), extra) <==> Safe(c, extra)
  {
  }

  lemma SafeStep(c: Conn, data: string, extra: nat)
    requires c.headerSize <= |c.window| && ViewsTrack(c) && Safe(c, extra)
    requires |c.window| + |data| < Total(c) && c.readPos + |c.window| + |data| <= c.capacity
    ensures Safe(ReadMore(Arrived(Done(c, true), data)), extra)
  {
    hide Overlay, Echo;
    if c.views.At? && Sheltered(c, c.views.pos, extra) && Echo(c.window, c.views.pos, c.headerSize) {
      EchoStays(c.window, data, c.views.pos, c.headerSize);
    }
  }

  lemma SafeDispatch(c: Conn, data: string, extra: nat)
    requires c.headerSize <= |c.window| && ViewsTrack(c) && Safe(c, extra)
    requires Total(c) <= |c.window| + |data| <= Total(c) + extra
    ensures Arrived(c, data).views.Shown() == Some(c.window[..c.headerSize])
  {
    hide Overlay, Echo;
    ArrivalKeepsTrack(c, data);
    var head := c.window[..c.headerSize];
    assert (c.window + data)[..c.headerSize] == head;
    if c.viewsMoved {
      if Echo(c.window, c.views.pos, c.headerSize) {
        EchoStays(c.window, data, c.views.pos, c.headerSize);
      }
      OverlayAbove(head, c.views.pos, c.window + data);
    }
  }

  lemma {:induction false} SafeKeepsShowing(c: Conn, events: seq<Event>, extra: nat)
    requires WaitingForBody(c) && Safe(c, extra)
    requires BodyReads(c, events) && |Run(c, events).window| <= extra
    ensures LastShowsHeader(Run(c, events).history)
    decreases |events|
  {
    hide Inv, Step, ReadMore, Arrived, LastIntact, ViewsTrack, Safe;
    assert events != [] by {
      assert c.phase == Body;
    }
    var e, rest := events[0], events[1..];
    var next := Step(c, e);
    if e.StopRequested? {
      BodyStop(c);
      SafeAlike(c);
      SafeKeepsShowing(next, rest, extra);
      return;
    }
    BodyReadFits(c, e);
    BodyRead(c, e.data, e.reply);
    if next.phase == Writing {
      WritingTakesNoReads(next, rest);
      SafeDispatch(c, e.data, extra);
    } else {
      SafeStep(c, e.data, extra);
      SafeKeepsShowing(next, rest, extra);
    }
  }

  // ---------- reads that move, and overwrite ----------

  /** `n` reads of one byte, and then a read of what is left. */
  function Slowly(d: char, n: nat, last: string): (events: seq<Event>)
    ensures forall i :: 0 <= i < |events| ==> events[i].Read? && events[i].reply == NO_REPLY
    decreases n
  {
    if n == 0 then [Read(last, NO_REPLY)] else [Read([d], NO_REPLY)] + Slowly(d, n - 1, last)
  }

  /** The buffer will be replaced before the request is complete, or has been. */
  predicate Outgrown(c: Conn) {
    c.views.Lost? || Total(c) > c.capacity
  }

  /** The last read fits behind all but the last byte of the request. */
  predicate LastFits(c: Conn, last: string) {
    1 <= |last| && (|last| == 1 || (!Outgrown(c) && Total(c) - 1 + |last| <= c.capacity))
  }

  /**
   Without room, slow reads move the request. If the buffer cannot hold it, its views are left without a buffer; and
   otherwise they show what the request and the bytes behind it have been written over their place.
   */
  lemma {:induction false} SlowReadsMoveViews(c: Conn, d: char, last: string, events: seq<Event>)
    requires WaitingForBody(c) && (c.viewsMoved || !Roomy(c)) && LastFits(c, last)
    requires |c.window| < Total(c) && events == Slowly(d, Total(c) - 1 - |c.window|, last)
    ensures c.headerSize <= |c.window| && BodyReads(c, events)
    ensures var end := Run(c, events);
            && |end.window| == |last| - 1 && end.history.intact == c.history.intact + [false]
            && end.history.frames != []
            && end.history.frames[|end.history.frames| - 1].head == c.window[..c.headerSize]
            && end.history.shown == c.history.shown
              + [if Outgrown(c) then None
                 else Some(Overlay(c.window[..c.headerSize], c.views.pos,
                                   c.window + Repeated(d, Total(c) - 1 - |c.window|) + last, 0))]
    decreases Total(c) - |c.window|
  {
    hide Inv, Step, ReadMore, Arrived, ViewsTrack, Overlay, LastFits, Roomy, Repeated, Outgrown;
    assert NO_REPLY.Answers();
    HeaderInWindow(c);
    if |c.window| + 1 == Total(c) {
      LastRead(c, d, last);
      BodyRead(c, last, NO_REPLY);
      RunOne(c, events[0]);
    } else {
      BodyRead(c, [d], NO_REPLY);
      CrampedStep(c, [d], last);
      var next := Step(c, Read([d], NO_REPLY));
      var rest := Slowly(d, Total(c) - 2 - |c.window|, last);
      SlowReadsMoveViews(next, d, last, rest);
      RunMore(c, events[0], rest);
      OneMore(c.window, d, Total(c) - 1 - |c.window|, last);
    }
  }

  lemma OneMore(window: string, d: char, n: nat, last: string)
    requires n > 0
    ensures window + Repeated(d, n) + last == window + [d] + Repeated(d, n - 1) + last
  {
    assert Repeated(d, n) == [d] + Repeated(d, n - 1);
  }

  lemma LastRead(c: Conn, d: char, last: string)
    requires WaitingForBody(c) && |c.window| + 1 == Total(c)
    requires (c.viewsMoved || !Roomy(c)) && LastFits(c, last)
    ensures c.viewsMoved && 1 <= |last| && c.readPos + |c.window| + |last| <= c.capacity
    ensures c.headerSize <= |c.window|
    ensures Arrived(c, last).views.Shown() ==
      if Outgrown(c) then None
      else Some(Overlay(c.window[..c.headerSize], c.views.pos, c.window + Repeated(d, 0) + last, 0))
  {
    hide Inv, Overlay;
    HeaderInWindow(c);
    ArrivalKeepsTrack(c, last);
    assert c.window + Repeated(d, 0) == c.window;
    assert (c.window + last)[..c.headerSize] == c.window[..c.headerSize];
  }

  lemma CrampedStep(c: Conn, data: string, last: string)
    requires c.headerSize <= |c.window| && ViewsTrack(c)
    requires c.readPos + |c.window| + |data| <= c.capacity
    requires |c.window| + |data| < Total(c)
    requires (c.viewsMoved || !Roomy(c)) && LastFits(c, last)
    ensures var next := ReadMore(Arrived(Done(c, true), data));
            && (next.viewsMoved || !Roomy(next)) && LastFits(next, last) && Outgrown(next) == Outgrown(c)
            && next.headerSize == c.headerSize && next.window == c.window + data
            && next.window[..c.headerSize] == c.window[..c.headerSize]
            && (!Outgrown(c) ==> next.views.At? && next.views.pos == c.views.pos)
            && next.history == c.history.(received := c.history.received + data)
  {
    hide Overlay;
  }

  // ---------- the exact conditions ----------

  /** A header block has just been accepted, and its views have been taken. */
  ghost predicate JustParsed(c: Conn) {
    Ready(c) && c.phase == Body && HeaderRead(c) && !c.viewsMoved && ViewsTrack(c)
  }

  lemma FirstStep(c: Conn, reply: Reply, extra: nat)
    requires JustParsed(c) && reply.Answers()
    ensures c.readPos + |c.window| <= c.capacity && 0 < c.headerSize <= |c.window|
    ensures c.views == At(c.readPos, c.window[..c.headerSize])
    ensures var d := ProcessBody(c, reply);
            && Inv(d)
            && (if |c.window| >= Total(c)
                then d.phase == Writing && LastIntact(d.history) && LastShowsHeader(d.history)
                else
                  && WaitingForBody(d) && Total(d) == Total(c) && d.window == c.window && d.headerSize == c.headerSize
                  && d.history == c.history
                  && (Roomy(c) ==> Roomy(d) && !d.viewsMoved)
                  && (!Roomy(c) ==> d.viewsMoved || !Roomy(d))
                  && (Roomy(c) || Sheltered(c, c.readPos, extra) ==> Safe(d, extra))
                  && (Total(c) > c.capacity ==> Outgrown(d))
                  && (Total(c) <= c.capacity ==> !Outgrown(d) && d.views.pos == c.readPos && d.capacity == c.capacity))
  {
    hide ParseHeaders, FindBlank, SentFor, DispatchedOk, AnsweredOk, HistoryOk, Overlay, Echo;
    BodyKeeps(c, reply);
    if |c.window| < Total(c) && !MovesBytes(c.capacity, c.readPos, |c.window|) {
      RoomDoesNotMove(c.capacity, c.readPos, |c.window|);
    }
  }

  /**
   The bytes a request was parsed from are never moved before it is dispatched, however the rest of it
   arrives, exactly when the buffer has room for the rest. Without room, slow reads move them.
   */
  lemma NeverMovedExactlyWithRoom(c: Conn, reply: Reply)
    requires JustParsed(c) && reply.Answers()
    ensures c.readPos + |c.window| <= c.capacity
    ensures Roomy(c) <==>
              forall events :: BodyReads(ProcessBody(c, reply), events)
                ==> LastIntact(Run(ProcessBody(c, reply), events).history)
  {
    hide Inv, ProcessBody, Ready, HeaderRead, LastShown, WaitingForBody, ViewsTrack, Outgrown, Safe;
    FirstStep(c, reply, 0);
    var d := ProcessBody(c, reply);
    if Roomy(c) {
      forall events | BodyReads(d, events) ensures LastIntact(Run(d, events).history) {
        if |c.window| >= Total(c) {
          WritingTakesNoReads(d, events);
        } else {
          RoomyKeepsViews(d, events);
        }
      }
    } else {
      var events := Slowly('x', Total(c) - 1 - |c.window|, "x");
      SlowReadsMoveViews(d, 'x', "x", events);
      assert BodyReads(d, events);
    }
  }

  /** Where the place of the header block receives something else: a byte read already, or one still to come. */
  lemma Overwrites(window: string, pos: nat, size: nat, n: nat) returns (d: char)
    requires 0 < size <= |window| && !Echo(window, pos, size) && 0 < n && pos < |window| + n
    ensures Overlay(window[..size], pos, window + Repeated(d, n), 0) != window[..size]
  {
    var i: nat;
    if pos + size <= |window| {
      i :| i < size && window[pos..pos + size][i] != window[..size][i];
    } else {
      i := if pos < |window| then |window| - pos else 0;
    }
    d := if window[i] == 'x' then 'y' else 'x';
    assert (window + Repeated(d, n))[pos + i] != window[..size][i];
    assert Overlay(window[..size], pos, window + Repeated(d, n), 0)[i] == (window + Repeated(d, n))[pos + i];
  }

  lemma Repeats(window: string, d: char, m: nat, n: nat)
    ensures window + Repeated(d, m) + Repeated(d, n) == window + Repeated(d, m + n)
  {
  }

  /** How long the last read must be for the unread bytes to reach the place the views look at. */
  function LastLength(c: Conn): nat
    requires Total(c) > 0
  {
    if Total(c) <= c.readPos <= c.capacity then c.readPos + 2 - Total(c) else 1
  }

  /** Without room or shelter, some reads leave the views showing something else. */
  lemma SomeReadsOverwrite(c: Conn, reply: Reply, extra: nat) returns (events: seq<Event>)
    requires JustParsed(c) && reply.Answers() && !Roomy(c) && !Sheltered(c, c.readPos, extra)
    ensures c.readPos + |c.window| <= c.capacity
    ensures var d := ProcessBody(c, reply);
            && BodyReads(d, events) && |Run(d, events).window| <= extra && !LastShowsHeader(Run(d, events).history)
  {
    hide Inv, ProcessBody, Ready, HeaderRead, WaitingForBody, ViewsTrack, Overlay, Echo, Safe, Repeated;
    FirstStep(c, reply, extra);
    var d, n := ProcessBody(c, reply), LastLength(c);
    var m := Total(c) - 1 - |c.window|;
    var filler := 'x';
    if !Outgrown(d) {
      filler := Overwrites(c.window, c.readPos, c.headerSize, m + n);
      Repeats(c.window, filler, m, n);
    }
    events := Slowly(filler, m, Repeated(filler, n));
    SlowReadsMoveViews(d, filler, Repeated(filler, n), events);
  }

  /**
   However the rest of the request arrives, with at most `extra` bytes of later requests behind it, its views show its
   header block when it is dispatched, exactly when the buffer has room for the rest, or moving the request to the
   front is harmless.
   */
  lemma ViewsShowHeaderExactly(c: Conn, reply: Reply, extra: nat)
    requires JustParsed(c) && reply.Answers()
    ensures c.readPos + |c.window| <= c.capacity
    ensures Roomy(c) || Sheltered(c, c.readPos, extra) <==>
              forall events :: BodyReads(ProcessBody(c, reply), events)
                  && |Run(ProcessBody(c, reply), events).window| <= extra
                ==> LastShowsHeader(Run(ProcessBody(c, reply), events).history)
  {
    hide Inv, ProcessBody, Ready, HeaderRead, LastShowsHeader, WaitingForBody, ViewsTrack, Outgrown, Safe, Roomy,
         Sheltered;
    FirstStep(c, reply, extra);
    var d := ProcessBody(c, reply);
    if Roomy(c) || Sheltered(c, c.readPos, extra) {
      forall events | BodyReads(d, events) && |Run(d, events).window| <= extra
        ensures LastShowsHeader(Run(d, events).history)
      {
        if |c.window| >= Total(c) {
          WritingTakesNoReads(d, events);
        } else {
          SafeKeepsShowing(d, events, extra);
        }
      }
    } else {
      var events := SomeReadsOverwrite(c, reply, extra);
      assert BodyReads(d, events);
    }
  }

  /** Whatever arrives behind the request, too: then only room, or the very same bytes, keep the views right. */
  lemma ViewsShowHeaderWhateverFollows(c: Conn, reply: Reply)
    requires JustParsed(c) && reply.Answers()
    ensures c.readPos + |c.window| <= c.capacity
    ensures Roomy(c) || (0 < c.readPos && Total(c) <= c.capacity && Echo(c.window, c.readPos, c.headerSize)) <==>
              forall events :: BodyReads(ProcessBody(c, reply), events)
                ==> LastShowsHeader(Run(ProcessBody(c, reply), events).history)
  {
    hide Inv, ProcessBody, Ready, HeaderRead, LastShowsHeader, ViewsTrack, Roomy, Echo, Run;
    FirstStep(c, reply, 0);
    var d := ProcessBody(c, reply);
    ViewsShowHeaderExactly(c, reply, c.capacity);
    forall events | BodyReads(d, events)
      ensures Roomy(c) || Sheltered(c, c.readPos, c.capacity) ==> LastShowsHeader(Run(d, events).history)
    {
      ViewsShowHeaderExactly(c, reply, |Run(d, events).window|);
    }
  }
}
