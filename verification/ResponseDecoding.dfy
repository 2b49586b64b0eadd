/**
 The client's side: cutting a stream of responses apart again. The decoder knows nothing of the server but
 the bytes and, for each response, whether it answers HEAD. It cuts lines at CRLF, skips those that are no field and
 knows no transfer coding.
 */
module ResponseDecoding {
  import opened Prelude
  import opened Text
  import opened Decimal
  import opened HttpTypes
  import opened HttpRequest
  import opened RequestRoundTrip
  import opened HttpResponse

  datatype Message = Message(block: string, body: string)

  /** What a line says about a name: its value when it is a line of that name. */
  function ValueOf(line: string, key: string): seq<string> {
    match ParseField(line)
    case Some(f) => if Fold(f.name) == key then [f.value] else []
    case None => []
  }

  /** The values a header block gives a name, in order. */
  function ValuesOf(lines: seq<string>, key: string): seq<string> {
    if lines == [] then [] else ValueOf(lines[0], key) + ValuesOf(lines[1..], key)
  }

  /**
   How long the body after a header block is; nothing when the block does not say. A Transfer-Encoding line overrides
   any length, and this client knows no transfer coding.
   */
  function BodyLength(lines: seq<string>, head: bool): Option<nat> {
    if lines == [] || |lines[0]| < 12 then None
    else if head || lines[0][9..12] == "204" || lines[0][9..12] == "304" then Some(0)
    else if ValuesOf(lines[1..], "transfer-encoding") != [] then None
    else
      var values := ValuesOf(lines[1..], "content-length");
      if |values| == 1 && values[0] != "" && AllDigits(values[0]) then Some(Value(values[0])) else None
  }

  /** The first message of a stream and the bytes after it. */
  function DecodeOne(stream: string, head: bool): (r: Option<(Message, string)>)
    ensures r.Some? ==> |r.value.1| < |stream|
  {
    match FindBlank(stream)
    case None => None
    case Some(e) =>
      var block := stream[..e + 4];
      assert EndsBlank(block);
      match BodyLength(Lines(block), head)
      case None => None
      case Some(n) =>
        if |stream| < e + 4 + n then None
        else Some((Message(block, stream[e + 4..e + 4 + n]), stream[e + 4 + n..]))
  }

  /** The whole stream, which must hold one message for each of `heads` and nothing else. */
  function Decode(stream: string, heads: seq<bool>): Option<seq<Message>>
    decreases |heads|
  {
    if heads == [] then if stream == "" then Some([]) else None
    else match DecodeOne(stream, heads[0])
      case None => None
      case Some((message, rest)) =>
        match Decode(rest, heads[1..])
        case None => None
        case Some(messages) => Some([message] + messages)
  }

  // ---------- what the serializer prints ----------

  /** A response whose own headers are printable: token names, and no CRLF in a value. */
  ghost predicate Printable(r: Response, order: seq<string>) {
    && 200 <= r.status <= 599 && Enumerates(order, r.headers)
    && forall k <- r.headers :: Token(k) && NoCrlf(r.headers[k])
  }

  ghost predicate SoundLine(line: string) {
    line != "" && NoCrlf(line)
  }

  lemma OtherName(name: string, rest: string, key: string)
    requires Token(name) && Fold(name) != key
    ensures ValueOf(name + ": " + rest, key) == []
  {
    var line := name + ": " + rest;
    assert forall j :: 0 <= j < |name| ==> line[j] != ':';
    FirstChar(line, ':', |name|);
    assert line[..|name|] == name;
  }

  lemma NoCrlfAfterName(name: string, value: string)
    requires Without(name, '\r') && NoCrlf(value)
    ensures SoundLine(name + ": " + value)
  {
    var line := name + ": " + value;
    forall i ensures !CrlfAt(line, i) {
      assert !CrlfAt(value, i - |name| - 2);
    }
  }

  lemma PlainIsNoCrlf(s: string)
    requires Without(s, '\r')
    ensures NoCrlf(s)
  {
  }

  lemma {:induction false} ValuesAppend(a: seq<string>, b: seq<string>, key: string)
    ensures ValuesOf(a + b, key) == ValuesOf(a, key) + ValuesOf(b, key)
  {
    hide ValueOf;
    if a == [] {
      assert a + b == b;
    } else {
      ValuesAppend(a[1..], b, key);
      assert (a + b)[1..] == a[1..] + b && (a + b)[0] == a[0];
      var x, y, z := ValueOf(a[0], key), ValuesOf(a[1..], key), ValuesOf(b, key);
      assert x + (y + z) == (x + y) + z;
    }
  }

  lemma ValuesOne(line: string, key: string)
    ensures ValuesOf([line], key) == ValueOf(line, key)
  {
  }

  ghost predicate SoundLines(lines: seq<string>) {
    forall i :: 0 <= i < |lines| ==> SoundLine(lines[i])
  }

  lemma KeptLine(name: string, value: string, key: string)
    requires Token(name) && NoCrlf(value) && Fold(name) != key
    ensures SoundLine(name + ": " + value)
    ensures ValuesOf([name + ": " + value], key) == []
  {
    TokenHas(name, '\r');
    NoCrlfAfterName(name, value);
    OtherName(name, value, key);
    ValuesOne(name + ": " + value, key);
  }

  /** A handler's headers say nothing under the reserved names: those that would are dropped. */
  lemma {:induction false} KeptLinesAreSound(headers: map<string, string>, order: seq<string>, key: string)
    requires forall i :: 0 <= i < |order| ==> order[i] in headers
    requires forall k <- headers :: Token(k) && NoCrlf(headers[k])
    requires Reserved(key)
    ensures ValuesOf(KeptLines(headers, order), key) == []
    ensures SoundLines(KeptLines(headers, order))
  {
    if order != [] {
      var front, last := order[..|order| - 1], order[|order| - 1];
      var before := KeptLines(headers, front);
      KeptLinesAreSound(headers, front, key);
      assert last in headers;
      if Reserved(Fold(last)) {
        assert KeptLines(headers, order) == before;
      } else {
        var line := last + ": " + headers[last];
        KeptLine(last, headers[last], key);
        ValuesAppend(before, [line], key);
        assert KeptLines(headers, order) == before + [line];
      }
    }
  }

  lemma StatusLineShape(digits: string, text: string)
    requires AllDigits(digits) && |digits| == 3 && Without(text, '\r')
    ensures var line := "HTTP/1.1 " + digits + " " + text;
            SoundLine(line) && |line| >= 12 && line[9..12] == digits
  {
  }

  lemma NoContentDigits(status: nat)
    ensures NoContent(status) <==> ToDecimal(status) == "204" || ToDecimal(status) == "304"
  {
    PrintThenRead(status);
    PrintThenRead(204);
    PrintThenRead(304);
    assert ToDecimal(204) == ToDecimal(20) + [Digit(4)] && ToDecimal(20) == ToDecimal(2) + [Digit(0)];
    assert ToDecimal(304) == ToDecimal(30) + [Digit(4)] && ToDecimal(30) == ToDecimal(3) + [Digit(0)];
    assert ToDecimal(204) == "204" && ToDecimal(304) == "304";
  }

  lemma NamedLine(f: Field, key: string)
    requires CleanField(f)
    ensures SoundLine(RenderField(f))
    ensures ValuesOf([RenderField(f)], key) == if Fold(f.name) == key then [f.value] else []
  {
    FieldRoundTrip(f);
    ValuesOne(RenderField(f), key);
  }

  lemma DigitsAreClean(s: string)
    requires s != "" && AllDigits(s)
    ensures FieldText(s) && Trimmed(s)
  {
  }

  lemma LengthName()
    ensures Token("Content-Length") && Fold("Content-Length") == "content-length"
  {
  }

  lemma ConnectionName()
    ensures Token("Connection") && Fold("Connection") == "connection"
  {
  }

  lemma TypeName(key: string)
    requires Reserved(key)
    ensures Token("Content-Type") && Fold("Content-Type") != key
  {
  }

  /** The Content-Length line reads back as the digits that were printed. */
  lemma LengthLine(n: nat, key: string)
    ensures SoundLine("Content-Length: " + ToDecimal(n))
    ensures ValuesOf(["Content-Length: " + ToDecimal(n)], key) == if key == "content-length" then [ToDecimal(n)] else []
  {
    var digits := ToDecimal(n);
    LengthName();
    DigitsAreClean(digits);
    NamedLine(Field("Content-Length", digits), key);
    assert "Content-Length: " + digits == "Content-Length" + ": " + digits;
  }

  function Persistence(close: bool): string {
    if close then "close" else "keep-alive"
  }

  lemma PersistenceIsClean(close: bool)
    ensures FieldText(Persistence(close)) && Trimmed(Persistence(close))
  {
  }

  lemma ConnectionLine(close: bool, key: string)
    ensures SoundLine(ConnectionText(close))
    ensures ValuesOf([ConnectionText(close)], key) == if key == "connection" then [Persistence(close)] else []
  {
    hide ValuesOf, SoundLine, Token, Fold;
    var line := ConnectionText(close);
    ConnectionName();
    PersistenceIsClean(close);
    NamedLine(Field("Connection", Persistence(close)), key);
    assert line == "Connection" + ": " + Persistence(close);
  }

  lemma TypeLine(t: ContentType, key: string)
    requires Reserved(key)
    ensures SoundLine("Content-Type: " + ContentTypeText(t))
    ensures ValuesOf(["Content-Type: " + ContentTypeText(t)], key) == []
  {
    hide ContentTypeText, Token, Fold;
    var text := ContentTypeText(t);
    TypeName(key);
    PlainIsNoCrlf(text);
    KeptLine("Content-Type", text, key);
    assert "Content-Type: " + text == "Content-Type" + ": " + text;
  }

  /** What a printed block says under a reserved name. */
  function Announced(r: Response, close: bool, key: string): seq<string> {
    if key == "content-length" then if NoContent(r.status) then [] else [ToDecimal(|r.ActiveBody()|)]
    else if key == "connection" then [Persistence(close)]
    else []
  }

  lemma OwnValues(typeLines: seq<string>, lengthLines: seq<string>, connection: seq<string>, key: string)
    ensures ValuesOf(typeLines + lengthLines + connection, key)
         == ValuesOf(typeLines, key) + ValuesOf(lengthLines, key) + ValuesOf(connection, key)
  {
    hide ValuesOf;
    ValuesAppend(typeLines + lengthLines, connection, key);
    ValuesAppend(typeLines, lengthLines, key);
  }

  lemma TypeLinesAreSound(r: Response, order: seq<string>, key: string)
    requires Reserved(key)
    ensures SoundLines(TypeLines(r, order)) && ValuesOf(TypeLines(r, order), key) == []
  {
    hide ContentTypeText, SoundLine, HasContentType;
    TypeLine(r.contentType, key);
  }

  lemma LengthLinesAreSound(r: Response, key: string)
    ensures SoundLines(LengthLines(r))
    ensures ValuesOf(LengthLines(r), key) ==
            if key == "content-length" && !NoContent(r.status) then [ToDecimal(|r.ActiveBody()|)] else []
  {
    hide SoundLine, ToDecimal;
    LengthLine(|r.ActiveBody()|, key);
  }

  lemma OwnLinesSound(status: string, typeLines: seq<string>, lengthLines: seq<string>, connection: string)
    requires SoundLine(status) && SoundLines(typeLines) && SoundLines(lengthLines) && SoundLine(connection)
    ensures SoundLines([status] + typeLines + lengthLines + [connection])
  {
  }

  /** The server's own lines announce the length of the active body and the close decision, once each. */
  lemma OwnLinesAreSound(r: Response, close: bool, order: seq<string>, key: string)
    requires 200 <= r.status <= 599 && Reserved(key)
    ensures var lines := OwnLines(r, close, order);
            && lines != [] && SoundLines(lines) && |lines[0]| >= 12 && lines[0][9..12] == ToDecimal(r.status)
            && ValuesOf(lines[1..], key) == Announced(r, close, key)
  {
    hide ValuesOf, SoundLine, SoundLines, StatusText, TypeLines, LengthLines, ConnectionText, Persistence, ToDecimal;
    ThreeDigits(r.status);
    StatusLineShape(ToDecimal(r.status), StatusText(r.status));
    TypeLinesAreSound(r, order, key);
    LengthLinesAreSound(r, key);
    ConnectionLine(close, key);
    OwnLinesSound(StatusLine(r.status), TypeLines(r, order), LengthLines(r), ConnectionText(close));
    OwnValues(TypeLines(r, order), LengthLines(r), [ConnectionText(close)], key);
    assert OwnLines(r, close, order)[1..] == TypeLines(r, order) + LengthLines(r) + [ConnectionText(close)];
  }

  lemma AnnouncedLength(lines: seq<string>, r: Response, close: bool, head: bool, more: seq<string>,
      codings: seq<string>)
    requires 200 <= r.status && lines != [] && |lines[0]| >= 12 && lines[0][9..12] == ToDecimal(r.status)
    requires ValuesOf(lines[1..], "content-length") == Announced(r, close, "content-length") + more
    requires ValuesOf(lines[1..], "transfer-encoding") == Announced(r, close, "transfer-encoding") + codings
    ensures BodyLength(lines, head) == Some(if head || NoContent(r.status) then 0 else |r.ActiveBody()|)
       <==> head || NoContent(r.status) || (more == [] && codings == [])
  {
    hide ValuesOf;
    NoContentDigits(r.status);
    PrintThenRead(|r.ActiveBody()|);
  }

  // ---------- exactly which responses delimit themselves ----------

  /** A response the serializer prints, with a walk over its header map. */
  ghost predicate Valid(r: Response, order: seq<string>) {
    200 <= r.status <= 599 && Enumerates(order, r.headers)
  }

  /** The lines a handler's headers really print: a name or a value that holds CRLF makes more than one. */
  function HandlerLines(r: Response, order: seq<string>): seq<string>
    requires forall i :: 0 <= i < |order| ==> order[i] in r.headers
  {
    Flatten(KeptLines(r.headers, order))
  }

  /**
   A handler's headers leave the framing alone: none of their lines is empty and, where a body may follow, none is
   a Content-Length or a Transfer-Encoding line.
   */
  ghost predicate Delimits(r: Response, order: seq<string>, head: bool)
    requires Valid(r, order)
  {
    && "" !in HandlerLines(r, order)
    && (head || NoContent(r.status)
        || (ValuesOf(HandlerLines(r, order), "content-length") == []
            && ValuesOf(HandlerLines(r, order), "transfer-encoding") == []))
  }

  lemma PrintedLines(own: seq<string>, kept: seq<string>, key: string)
    requires own != [] && SoundLines(own)
    ensures var block := Join(own + kept) + CRLF;
            && Terminated(block) && EndsBlank(block)
            && Lines(block) == own + Flatten(kept)
            && ValuesOf(Lines(block)[1..], key) == ValuesOf(own[1..], key) + ValuesOf(Flatten(kept), key)
  {
    hide Lines, ValuesOf, SubLines, Join, SoundLine;
    LinesOfTexts(own + kept);
    FlattenAppend(own, kept);
    SoundHasNoCrlf(own);
    FlattenLines(own);
    JoinTerminated(own + kept);
    assert (own + Flatten(kept))[1..] == own[1..] + Flatten(kept);
    ValuesAppend(own[1..], Flatten(kept), key);
  }

  lemma SoundHasNoCrlf(lines: seq<string>)
    requires SoundLines(lines)
    ensures AllNoCrlf(lines)
  {
    hide NoCrlf;
  }

  /** A block ends at its first CRLFCRLF exactly when none of its lines is empty. */
  lemma EndsOnce(own: seq<string>, kept: seq<string>)
    requires own != [] && SoundLines(own)
    ensures var block := Join(own + kept) + CRLF;
            FindBlank(block) == Some(|block| - 4) <==> "" !in Flatten(kept)
  {
    hide FindBlank, Join, SubLines, Flatten, SoundLine;
    var lines := own + Flatten(kept);
    FlattenJoins(kept);
    JoinAppend(own, kept);
    JoinAppend(own, Flatten(kept));
    assert Join(lines) == Join(own + kept);
    SoundHasNoCrlf(own);
    if "" in Flatten(kept) {
      var i :| 0 <= i < |Flatten(kept)| && Flatten(kept)[i] == "";
      EmptyLineEndsEarly(lines, |own| + i);
    } else {
      NonEmptyLines(own, Flatten(kept));
      JoinFirstBlank(lines);
    }
  }

  lemma NonEmptyLines(own: seq<string>, more: seq<string>)
    requires SoundLines(own) && AllNoCrlf(more) && "" !in more
    ensures forall i :: 0 <= i < |own + more| ==> NoCrlf((own + more)[i]) && (own + more)[i] != ""
  {
    hide NoCrlf;
    forall i | 0 <= i < |own + more| ensures NoCrlf((own + more)[i]) && (own + more)[i] != "" {
      if i < |own| {
        assert SoundLine(own[i]);
      } else {
        assert more[i - |own|] in more;
      }
    }
  }

  /**
   Whatever headers a handler sets, a printed block is the server's own lines and then the handler's. It ends at its
   first CRLFCRLF exactly when none of the handler's lines is empty, and under Content-Length, Connection and
   Transfer-Encoding it says first what the server decided, and then what the handler's lines add: nothing, unless
   a header name or value holds such a line.
   */
  lemma ServerOwnsFraming(r: Response, close: bool, order: seq<string>, key: string)
    requires Valid(r, order) && Reserved(key)
    ensures var block := HeaderBlockOf(r, close, order);
            && EndsBlank(block) && Lines(block) == OwnLines(r, close, order) + HandlerLines(r, order)
            && Lines(block) != []
            && ValuesOf(Lines(block)[1..], key) == Announced(r, close, key) + ValuesOf(HandlerLines(r, order), key)
            && (FindBlank(block) == Some(|block| - 4) <==> "" !in HandlerLines(r, order))
  {
    hide OwnLines, KeptLines, Lines, FindBlank, Join, ValuesOf, Announced, Flatten, SoundLines;
    OwnLinesAreSound(r, close, order, key);
    PrintedLines(OwnLines(r, close, order), KeptLines(r.headers, order), key);
    EndsOnce(OwnLines(r, close, order), KeptLines(r.headers, order));
  }

  /** A printed block announces its body exactly when the handler's headers leave the framing alone. */
  lemma BlockReadsBack(r: Response, close: bool, head: bool, order: seq<string>)
    requires Valid(r, order)
    ensures var block := HeaderBlockOf(r, close, order);
            && EndsBlank(block)
            && (Delimits(r, order, head) <==>
                  && FindBlank(block) == Some(|block| - 4)
                  && BodyLength(Lines(block), head)
                    == Some(if head || NoContent(r.status) then 0 else |r.ActiveBody()|))
  {
    hide OwnLines, HandlerLines, Lines, FindBlank, HeaderBlockOf, ValuesOf, BodyLength;
    ServerOwnsFraming(r, close, order, "content-length");
    ServerOwnsFraming(r, close, order, "transfer-encoding");
    OwnLinesAreSound(r, close, order, "content-length");
    var lines := Lines(HeaderBlockOf(r, close, order));
    assert lines[0] == OwnLines(r, close, order)[0];
    AnnouncedLength(lines, r, close, head, ValuesOf(HandlerLines(r, order), "content-length"),
                    ValuesOf(HandlerLines(r, order), "transfer-encoding"));
  }

  /** Token names and values without CRLF leave the framing alone. */
  lemma PrintableDelimits(r: Response, order: seq<string>, head: bool, key: string)
    requires Printable(r, order) && Reserved(key)
    ensures Valid(r, order) && Delimits(r, order, head) && ValuesOf(HandlerLines(r, order), key) == []
  {
    hide KeptLines, Flatten, ValuesOf, SoundLine;
    KeptLinesAreSound(r.headers, order, key);
    KeptLinesAreSound(r.headers, order, "content-length");
    KeptLinesAreSound(r.headers, order, "transfer-encoding");
    SoundHasNoCrlf(KeptLines(r.headers, order));
    FlattenLines(KeptLines(r.headers, order));
    SoundIsNotEmpty(KeptLines(r.headers, order));
  }

  lemma SoundIsNotEmpty(lines: seq<string>)
    requires SoundLines(lines)
    ensures "" !in lines
  {
  }

  lemma MessageReadsBack(block: string, body: string, rest: string, head: bool)
    requires EndsBlank(block) && FindBlank(block) == Some(|block| - 4)
    requires BodyLength(Lines(block), head) == Some(|body|)
    ensures DecodeOne(block + body + rest, head) == Some((Message(block, body), rest))
  {
    hide BodyLength, Lines, BlankAt;
    var stream := block + body + rest;
    assert stream == block + (body + rest);
    BlankIsStable(block, body + rest);
    assert stream[..|block|] == block;
    assert stream[|block|..|block| + |body|] == body;
    assert stream[|block| + |body|..] == rest;
  }

  lemma BlockMisread(block: string, body: string, rest: string, head: bool)
    requires EndsBlank(block)
    requires FindBlank(block) != Some(|block| - 4) || BodyLength(Lines(block), head) != Some(|body|)
    ensures DecodeOne(block + body + rest, head) != Some((Message(block, body), rest))
  {
    hide BodyLength, Lines, BlankAt;
    var stream := block + body + rest;
    assert stream == block + (body + rest);
    BlankIsStable(block, body + rest);
    SomeBlank(block);
    var e := FindBlank(block).value;
    if e == |block| - 4 {
      assert stream[..e + 4] == block;
    } else {
      assert |stream[..e + 4]| != |block|;
    }
  }

  lemma SomeBlank(block: string)
    requires EndsBlank(block)
    ensures FindBlank(block).Some? && FindBlank(block).value + 4 <= |block|
  {
  }

  /** What a client should see of a response. */
  function Meaning(r: Response, close: bool, head: bool, order: seq<string>): Message
    requires 200 <= r.status <= 599
    requires forall i :: 0 <= i < |order| ==> order[i] in r.headers
  {
    Message(HeaderBlockOf(r, close, order), if head || NoContent(r.status) then "" else r.ActiveBody())
  }

  /** One response in front of anything is decoded to itself exactly when its headers leave the framing alone. */
  lemma OneReadsBack(r: Response, close: bool, head: bool, order: seq<string>, rest: string)
    requires Valid(r, order)
    ensures DecodeOne(Printed(r, close, head, order) + rest, head) == Some((Meaning(r, close, head, order), rest))
       <==> Delimits(r, order, head)
  {
    hide HeaderBlockOf, BodyLength, DecodeOne, Delimits, Lines, FindBlank;
    var m := Meaning(r, close, head, order);
    BlockReadsBack(r, close, head, order);
    if Delimits(r, order, head) {
      MessageReadsBack(m.block, m.body, rest, head);
    } else {
      BlockMisread(m.block, m.body, rest, head);
    }
  }

  /** A response with a header value that ends in CRLF. */
  const BROKEN: Response := DEFAULT.(headers := map["X" := "a\r\n"])

  lemma BrokenLines()
    ensures Valid(BROKEN, ["X"]) && HandlerLines(BROKEN, ["X"]) == ["X: a", ""]
  {
    hide Flatten, Lines;
    var texts, lines := ["X: a\r\n"], ["X: a", ""];
    assert KeptLines(BROKEN.headers, ["X"]) == texts by {
      assert |Fold("X")| == 1;
      assert !Reserved(Fold("X"));
      assert ["X"][..0] == [] && "X" + ": " + "a\r\n" == texts[0];
    }
    JoinOne(texts[0]);
    JoinOne("");
    assert lines[1..] == [""];
    assert Join(texts) == Join(lines);
    LinesOfTexts(texts);
    JoinThenLines(lines);
  }

  /** Its block ends too early for a client. */
  lemma BrokenIsMisread(close: bool, head: bool, rest: string)
    ensures Valid(BROKEN, ["X"])
    ensures DecodeOne(Printed(BROKEN, close, head, ["X"]) + rest, head)
         != Some((Meaning(BROKEN, close, head, ["X"]), rest))
  {
    hide DecodeOne, HandlerLines, Printed, Meaning;
    BrokenLines();
    assert HandlerLines(BROKEN, ["X"])[1] == "";
    OneReadsBack(BROKEN, close, head, ["X"], rest);
  }

  // ---------- whole streams ----------

  datatype Item = Item(response: Response, close: bool, head: bool, order: seq<string>)
  {
    ghost predicate Ok() {
      Valid(response, order)
    }

    ghost predicate Delimited()
      requires Ok()
    {
      Delimits(response, order, head)
    }

    ghost function Text(): string
      requires Ok()
    {
      Printed(response, close, head, order)
    }

    ghost function Message(): Message
      requires Ok()
    {
      Meaning(response, close, head, order)
    }
  }

  ghost predicate AllOk(items: seq<Item>) {
    forall i :: 0 <= i < |items| ==> items[i].Ok()
  }

  ghost function Stream(items: seq<Item>): string
    requires AllOk(items)
  {
    if items == [] then "" else items[0].Text() + Stream(items[1..])
  }

  function Heads(items: seq<Item>): (heads: seq<bool>)
    ensures |heads| == |items|
    ensures forall i :: 0 <= i < |items| ==> heads[i] == items[i].head
  {
    seq(|items|, i requires 0 <= i < |items| => items[i].head)
  }

  ghost function Meanings(items: seq<Item>): (messages: seq<Message>)
    requires AllOk(items)
  {
    if items == [] then [] else [items[0].Message()] + Meanings(items[1..])
  }

  /** Decoding splits a stream: the message's bytes and the rest are the stream. */
  lemma DecodeSplits(stream: string, head: bool)
    requires DecodeOne(stream, head).Some?
    ensures var (m, rest) := DecodeOne(stream, head).value; stream == m.block + m.body + rest
  {
    hide BodyLength, Lines, FindBlank;
  }

  lemma TextOfMessage(i: Item)
    requires i.Ok()
    ensures i.Text() == i.Message().block + i.Message().body
  {
    hide HeaderBlockOf;
  }

  lemma DecodeCons(stream: string, heads: seq<bool>, m: Message, messages: seq<Message>)
    requires heads != []
    ensures Decode(stream, heads) == Some([m] + messages) <==>
              && DecodeOne(stream, heads[0]).Some? && DecodeOne(stream, heads[0]).value.0 == m
              && Decode(DecodeOne(stream, heads[0]).value.1, heads[1..]) == Some(messages)
  {
    hide DecodeOne;
    if Decode(stream, heads).Some? {
      var all := Decode(stream, heads).value;
      assert all[0] == DecodeOne(stream, heads[0]).value.0;
      assert Some(all[1..]) == Decode(DecodeOne(stream, heads[0]).value.1, heads[1..]);
      assert ([m] + messages)[0] == m && ([m] + messages)[1..] == messages;
    }
  }

  /**
   Any number of responses written one after another, whatever their bodies contain, decode to the same header
   blocks and bodies exactly when the headers of each leave the framing alone.
   */
  lemma {:induction false} StreamReadsBack(items: seq<Item>)
    requires AllOk(items)
    ensures Decode(Stream(items), Heads(items)) == Some(Meanings(items))
       <==> forall i :: 0 <= i < |items| ==> items[i].Delimited()
  {
    hide DecodeOne, Decode, Printed, Meaning, Delimits, Valid;
    if items == [] {
      NothingToDecode();
    } else {
      var i, tail := items[0], items[1..];
      StreamReadsBack(tail);
      OneReadsBack(i.response, i.close, i.head, i.order, Stream(tail));
      assert Heads(items)[1..] == Heads(tail);
      DecodeCons(Stream(items), Heads(items), i.Message(), Meanings(tail));
      RestIsForced(i, Stream(tail));
      assert forall j :: 0 <= j < |tail| ==> tail[j] == items[j + 1];
      assert (forall j :: 0 <= j < |items| ==> items[j].Delimited()) <==>
             i.Delimited() && (forall j :: 0 <= j < |tail| ==> tail[j].Delimited());
    }
  }

  lemma NothingToDecode()
    ensures Decode("", []) == Some([])
  {
  }

  /** When the first message decoded is the item's, the rest is what follows the item. */
  lemma RestIsForced(i: Item, rest: string)
    requires i.Ok()
    ensures var d := DecodeOne(i.Text() + rest, i.head);
            d.Some? && d.value.0 == i.Message() ==> d.value.1 == rest
  {
    hide DecodeOne, Printed, Meaning, Valid;
    var d := DecodeOne(i.Text() + rest, i.head);
    if d.Some? && d.value.0 == i.Message() {
      DecodeSplits(i.Text() + rest, i.head);
      TextOfMessage(i);
      var text := i.Text();
      assert text + rest == text + d.value.1;
      assert rest == (text + rest)[|text|..] == (text + d.value.1)[|text|..] == d.value.1;
    }
  }
}
