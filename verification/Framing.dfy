/**
 What a byte stream means as a sequence of requests, with no buffer, no reads and no connection: the
 reference that every run of a connection is compared with.
 */
module Framing {
  import opened Prelude
  import opened Text
  import opened HttpLimits
  import opened HttpRequest

  /** A request as it is handed to dispatch: the bytes of its header block and body, and the close decision. */
  datatype Frame = Frame(head: string, body: string, close: bool)

  /** How framing a stream ends: more bytes are needed, the last request closes, or an error is answered. */
  datatype End = Waiting | Closing | Failed(status: int)

  datatype Framed = Framed(frames: seq<Frame>, rest: string, end: End)

  datatype Next = More | Reject(status: int) | Got(frame: Frame)

  /** The close decision for the request that follows `served` others. */
  predicate Closes(r: Request, served: nat, limits: Limits) {
    !r.keepAlive || served + 1 >= limits.maxRequests
  }

  function NextFrame(s: string, served: nat, limits: Limits): (next: Next)
    ensures next.Got? ==> |s| >= |next.frame.head| + |next.frame.body| && |next.frame.head| >= 4
  {
    match FindBlank(s)
    case None => if |s| >= limits.maxHeaderBytes then Reject(431) else More
    case Some(e) =>
      match ParseHeaders(s[..e + 4], limits)
      case Rejected(status) => Reject(status)
      case Ok(r) =>
        if |s| < e + 4 + r.contentLength then More
        else Got(Frame(s[..e + 4], s[e + 4..e + 4 + r.contentLength], Closes(r, served, limits)))
  }

  function FrameStream(s: string, served: nat, limits: Limits): Framed
    decreases |s|
  {
    match NextFrame(s, served, limits)
    case More => Framed([], s, Waiting)
    case Reject(status) => Framed([], s, Failed(status))
    case Got(f) =>
      var rest := s[|f.head| + |f.body|..];
      if f.close then Framed([f], rest, Closing)
      else Prepend([f], FrameStream(rest, served + 1, limits))
  }

  function Prepend(frames: seq<Frame>, framed: Framed): Framed {
    framed.(frames := frames + framed.frames)
  }

  function BytesOf(f: Frame): string {
    f.head + f.body
  }

  function Bytes(frames: seq<Frame>): string {
    if frames == [] then "" else Bytes(frames[..|frames| - 1]) + BytesOf(frames[|frames| - 1])
  }

  /** A header block that ends at its first CRLFCRLF and is accepted, with a body of the announced length. */
  predicate WellFramed(f: Frame, limits: Limits) {
    && FindBlank(f.head) == Some(|f.head| - 4)
    && ParseHeaders(f.head, limits).Ok?
    && |f.body| == ParseHeaders(f.head, limits).value.contentLength
  }

  predicate RightClose(f: Frame, served: nat, limits: Limits) {
    ParseHeaders(f.head, limits).Ok? && (f.close <==> Closes(ParseHeaders(f.head, limits).value, served, limits))
  }

  /** A list of requests that one connection can serve: each well framed, closing where it must and only last. */
  ghost predicate Servable(frames: seq<Frame>, served: nat, limits: Limits) {
    && (forall i :: 0 <= i < |frames| ==> WellFramed(frames[i], limits) && RightClose(frames[i], served + i, limits))
    && (forall i :: 0 <= i < |frames| - 1 ==> !frames[i].close)
  }

  // ---------- one request ----------

  lemma NextIsWellFramed(s: string, served: nat, limits: Limits)
    requires NextFrame(s, served, limits).Got?
    ensures var f := NextFrame(s, served, limits).frame;
            && WellFramed(f, limits) && RightClose(f, served, limits)
            && s == f.head + f.body + s[|f.head| + |f.body|..]
  {
    hide ParseHeaders, BlankAt;
    BlankOfPrefix(s, FindBlank(s).value);
  }

  lemma NextOfWellFramed(f: Frame, rest: string, served: nat, limits: Limits)
    requires WellFramed(f, limits) && RightClose(f, served, limits)
    ensures NextFrame(f.head + f.body + rest, served, limits) == Got(f)
    ensures (f.head + f.body + rest)[|f.head| + |f.body|..] == rest
  {
    hide ParseHeaders, BlankAt;
    var s := f.head + f.body + rest;
    assert s == f.head + (f.body + rest);
    BlankIsStable(f.head, f.body + rest);
    assert s[..|f.head|] == f.head;
    assert s[|f.head|..|f.head| + |f.body|] == f.body;
  }

  /** Once a request or an error is visible, later bytes change neither. The early and the late 431 agree. */
  lemma NextIsStable(s: string, t: string, served: nat, limits: Limits)
    requires !NextFrame(s, served, limits).More?
    ensures NextFrame(s + t, served, limits) == NextFrame(s, served, limits)
  {
    hide ParseHeaders;
    BlankIsStable(s, t);
    match FindBlank(s)
    case None =>
      if FindBlank(s + t).Some? {
        assert |(s + t)[..FindBlank(s + t).value + 4]| > limits.maxHeaderBytes;
      }
    case Some(e) =>
      assert (s + t)[..e + 4] == s[..e + 4];
      if NextFrame(s, served, limits).Got? {
        var n := ParseHeaders(s[..e + 4], limits).value.contentLength;
        assert (s + t)[e + 4..e + 4 + n] == s[e + 4..e + 4 + n];
      }
  }

  // ---------- whole streams ----------

  lemma BytesStep(frames: seq<Frame>, f: Frame)
    ensures Bytes(frames + [f]) == Bytes(frames) + BytesOf(f)
  {
  }

  lemma {:induction false} BytesAppend(a: seq<Frame>, b: seq<Frame>)
    ensures Bytes(a + b) == Bytes(a) + Bytes(b)
  {
    hide BytesOf;
    if b == [] {
      assert a + b == a;
    } else {
      var front, f := b[..|b| - 1], b[|b| - 1];
      BytesAppend(a, front);
      assert a + b == (a + front) + [f];
      BytesStep(a + front, f);
      assert Bytes(a) + Bytes(front) + BytesOf(f) == Bytes(a) + (Bytes(front) + BytesOf(f));
    }
  }

  lemma BytesOne(f: Frame)
    ensures Bytes([f]) == BytesOf(f)
  {
  }

  lemma ServableCons(f: Frame, frames: seq<Frame>, served: nat, limits: Limits)
    requires WellFramed(f, limits) && RightClose(f, served, limits) && !f.close
    requires Servable(frames, served + 1, limits)
    ensures Servable([f] + frames, served, limits)
  {
    var all := [f] + frames;
    forall i | 0 <= i < |all|
      ensures WellFramed(all[i], limits) && RightClose(all[i], served + i, limits)
    {
      if i > 0 {
        assert all[i] == frames[i - 1];
        assert RightClose(frames[i - 1], served + 1 + (i - 1), limits);
      }
    }
    assert forall i :: 0 < i < |all| ==> all[i] == frames[i - 1];
  }

  lemma ServableFront(frames: seq<Frame>, served: nat, limits: Limits)
    requires frames != [] && Servable(frames, served, limits)
    ensures Servable(frames[..|frames| - 1], served, limits)
  {
  }

  /** What a framing must be: see `FramingIsSound`. */
  ghost predicate Sound(s: string, r: Framed, served: nat, limits: Limits) {
    && s == Bytes(r.frames) + r.rest
    && Servable(r.frames, served, limits)
    && (r.end == Closing <==> r.frames != [] && r.frames[|r.frames| - 1].close)
    && (r.end != Closing ==>
          NextFrame(r.rest, served + |r.frames|, limits)
            == match r.end case Failed(status) => Reject(status) case _ => More)
  }

  lemma SoundStep(f: Frame, rest: string, r: Framed, served: nat, limits: Limits)
    requires WellFramed(f, limits) && RightClose(f, served, limits) && !f.close
    requires Sound(rest, r, served + 1, limits)
    ensures Sound(f.head + f.body + rest, Prepend([f], r), served, limits)
  {
    hide ParseHeaders, NextFrame, WellFramed, RightClose;
    ServableCons(f, r.frames, served, limits);
    BytesOne(f);
    BytesAppend([f], r.frames);
    assert BytesOf(f) + (Bytes(r.frames) + r.rest) == (BytesOf(f) + Bytes(r.frames)) + r.rest;
  }

  lemma ClosingStep(f: Frame, rest: string, served: nat, limits: Limits)
    requires WellFramed(f, limits) && RightClose(f, served, limits) && f.close
    ensures Sound(f.head + f.body + rest, Framed([f], rest, Closing), served, limits)
  {
    hide ParseHeaders, NextFrame, WellFramed, RightClose;
    BytesOne(f);
  }

  /**
   Framing a stream splits it without loss into servable requests and a rest, and says why it stopped: at a
   request that closes, at a rest that is rejected, or at a rest that is not yet a request.
   */
  lemma {:induction false} FramingIsSound(s: string, served: nat, limits: Limits)
    ensures Sound(s, FrameStream(s, served, limits), served, limits)
    decreases |s|
  {
    hide ParseHeaders, NextFrame, WellFramed, RightClose;
    match NextFrame(s, served, limits)
    case More => assert Bytes([]) + s == s;
    case Reject(_) => assert Bytes([]) + s == s;
    case Got(f) =>
      NextIsWellFramed(s, served, limits);
      var rest := s[|f.head| + |f.body|..];
      if f.close {
        ClosingStep(f, rest, served, limits);
      } else {
        FramingIsSound(rest, served + 1, limits);
        SoundStep(f, rest, FrameStream(rest, served + 1, limits), served, limits);
      }
  }

  lemma PrependTwice(front: seq<Frame>, f: Frame, r: Framed)
    ensures Prepend(front, Prepend([f], r)) == Prepend(front + [f], r)
  {
  }

  lemma FramingStep(f: Frame, rest: string, served: nat, limits: Limits)
    requires WellFramed(f, limits) && RightClose(f, served, limits)
    ensures FrameStream(BytesOf(f) + rest, served, limits) ==
            if f.close then Framed([f], rest, Closing)
            else Prepend([f], FrameStream(rest, served + 1, limits))
  {
    hide ParseHeaders, NextFrame, WellFramed, RightClose;
    NextOfWellFramed(f, rest, served, limits);
  }

  /**
   Any servable requests written one after another are framed back to exactly themselves, and framing goes
   on with what follows them.
   */
  lemma {:induction false} FramingIsComplete(frames: seq<Frame>, rest: string, served: nat, limits: Limits)
    requires Servable(frames, served, limits)
    ensures FrameStream(Bytes(frames) + rest, served, limits) ==
            if frames != [] && frames[|frames| - 1].close then Framed(frames, rest, Closing)
            else Prepend(frames, FrameStream(rest, served + |frames|, limits))
  {
    hide ParseHeaders, NextFrame, WellFramed, RightClose, FrameStream, BytesOf;
    if frames == [] {
      assert Bytes(frames) + rest == rest;
    } else {
      var n := |frames| - 1;
      var front, f := frames[..n], frames[n];
      ServableFront(frames, served, limits);
      FramingIsComplete(front, BytesOf(f) + rest, served, limits);
      assert Bytes(frames) + rest == Bytes(front) + (BytesOf(f) + rest);
      FramingStep(f, rest, served + n, limits);
      assert front != [] ==> front[n - 1] == frames[n - 1];
      assert front + [f] == frames;
      if !f.close {
        PrependTwice(front, f, FrameStream(rest, served + n + 1, limits));
      }
    }
  }

  /** A stream has one framing: servable requests whose bytes it starts with are a start of it. */
  lemma FramingIsUnique(frames: seq<Frame>, rest: string, s: string, limits: Limits)
    requires s == Bytes(frames) + rest && Servable(frames, 0, limits)
    ensures frames <= FrameStream(s, 0, limits).frames
  {
    FramingIsComplete(frames, rest, 0, limits);
  }

  /** A stream whose framing has ended keeps it whatever follows. */
  lemma {:induction false} EndIsStable(s: string, t: string, served: nat, limits: Limits)
    requires !FrameStream(s, served, limits).end.Waiting?
    ensures FrameStream(s + t, served, limits).frames == FrameStream(s, served, limits).frames
    ensures FrameStream(s + t, served, limits).end == FrameStream(s, served, limits).end
    decreases |s|
  {
    hide ParseHeaders, NextFrame;
    NextIsStable(s, t, served, limits);
    match NextFrame(s, served, limits)
    case Reject(_) =>
    case Got(f) =>
      var n := |f.head| + |f.body|;
      if !f.close {
        EndIsStable(s[n..], t, served + 1, limits);
        assert (s + t)[n..] == s[n..] + t;
      }
  }

  /** `parse` accepts a string exactly when it is one well-framed request with nothing after it. */
  lemma MessageIsOneFrame(raw: string, limits: Limits)
    ensures ParseMessage(raw, limits).Ok? <==>
              NextFrame(raw, 0, limits).Got? &&
              |raw| == |NextFrame(raw, 0, limits).frame.head| + |NextFrame(raw, 0, limits).frame.body|
    ensures ParseMessage(raw, limits).Ok? ==>
              NextFrame(raw, 0, limits).frame.body == ParseMessage(raw, limits).value.1
  {
    hide ParseHeaders, BlankAt;
  }
}
