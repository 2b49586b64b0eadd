/**
 What a client finds in a printed response, in terms of what the handler gave: every header of its own under its own
 name, the status, the content type; and what a sequence of setters amounts to. Reserved names are spelled out here.
 */
module ResponseLaws {
  import opened Prelude
  import opened Text
  import opened Decimal
  import opened HttpTypes
  import opened HttpRequest
  import opened RequestRoundTrip
  import opened HttpResponse
  import opened ResponseDecoding

  // ---------- the handler's headers ----------

  /** Names that only the server prints. */
  predicate Owned(name: string) {
    Fold(name) in ["content-length", "transfer-encoding", "connection"]
  }

  ghost predicate GivesType(r: Response) {
    exists k :: k in r.headers && Fold(k) == "content-type"
  }

  function LineOf(r: Response, k: string): string
    requires k in r.headers
  {
    k + ": " + r.headers[k]
  }

  lemma {:induction false} KeptLinesAre(r: Response, order: seq<string>, line: string)
    requires forall i :: 0 <= i < |order| ==> order[i] in r.headers
    ensures line in KeptLines(r.headers, order) <==>
              exists i :: 0 <= i < |order| && !Owned(order[i]) && line == LineOf(r, order[i])
  {
    hide Fold;
    if order != [] {
      var n := |order| - 1;
      KeptLinesAre(r, order[..n], line);
      assert forall i :: 0 <= i < n ==> order[..n][i] == order[i];
    }
  }

  lemma DifferentLines(r: Response, a: string, b: string)
    requires a in r.headers && b in r.headers && a != b && Token(a) && Token(b)
    ensures LineOf(r, a) != LineOf(r, b)
  {
    hide Token;
    TokenHas(a, ':');
    TokenHas(b, ':');
    FirstChar(LineOf(r, a), ':', |a|);
    FirstChar(LineOf(r, b), ':', |b|);
    assert LineOf(r, a)[..|a|] == a && LineOf(r, b)[..|b|] == b;
  }

  lemma {:induction false} KeptLinesDiffer(r: Response, order: seq<string>)
    requires forall i :: 0 <= i < |order| ==> order[i] in r.headers && Token(order[i])
    requires forall i, j :: 0 <= i < j < |order| ==> order[i] != order[j]
    ensures var lines := KeptLines(r.headers, order); forall i, j :: 0 <= i < j < |lines| ==> lines[i] != lines[j]
  {
    hide Token, LineOf, Owned, Fold;
    if order != [] {
      var n := |order| - 1;
      KeptLinesDiffer(r, order[..n]);
      var before, line := KeptLines(r.headers, order[..n]), LineOf(r, order[n]);
      KeptLinesAre(r, order[..n], line);
      forall i | 0 <= i < n ensures LineOf(r, order[..n][i]) != line {
        DifferentLines(r, order[i], order[n]);
      }
      assert line !in before;
      assert KeptLines(r.headers, order) == before || KeptLines(r.headers, order) == before + [line] by {
        KeptEnd(r, order);
      }
    }
  }

  lemma KeptEnd(r: Response, order: seq<string>)
    requires order != [] && forall i :: 0 <= i < |order| ==> order[i] in r.headers
    ensures var before := KeptLines(r.headers, order[..|order| - 1]);
            KeptLines(r.headers, order) == before
            || KeptLines(r.headers, order) == before + [LineOf(r, order[|order| - 1])]
  {
  }

  /** How many lines the server itself prints. */
  ghost function OwnCount(r: Response): nat {
    2 + (if GivesType(r) then 0 else 1) + (if r.status == 204 || r.status == 304 then 0 else 1)
  }

  /**
   After the server's own lines a printable response has, once each and in some order, exactly the lines of the
   handler's headers whose names are not owned by the server.
   */
  lemma HandlerHeadersArePrinted(r: Response, close: bool, order: seq<string>)
    requires Printable(r, order)
    ensures EndsBlank(HeaderBlockOf(r, close, order))
    ensures var lines := Lines(HeaderBlockOf(r, close, order));
            && |lines| >= OwnCount(r)
            && var rest := lines[OwnCount(r)..];
               && (forall line :: line in rest <==> exists k :: k in r.headers && !Owned(k) && line == LineOf(r, k))
               && (forall i, j :: 0 <= i < j < |rest| ==> rest[i] != rest[j])
  {
    hide Lines, HeaderBlockOf, KeptLines, Flatten, ValuesOf, Owned, LineOf, Token, Fold, NoCrlf, EndsBlank, FindBlank;
    ServerOwnsFraming(r, close, order, "connection");
    PrintedHandlerLines(r, order);
    OwnLinesCount(r, close, order);
    var rest := KeptLines(r.headers, order);
    KeptLinesDiffer(r, order);
    forall line ensures line in rest <==> exists k :: k in r.headers && !Owned(k) && line == LineOf(r, k) {
      KeptLinesAre(r, order, line);
      if k :| k in r.headers && !Owned(k) && line == LineOf(r, k) {
        assert k in order;
      }
    }
    assert (OwnLines(r, close, order) + rest)[OwnCount(r)..] == rest;
  }

  lemma PrintedHandlerLines(r: Response, order: seq<string>)
    requires Printable(r, order)
    ensures HandlerLines(r, order) == KeptLines(r.headers, order)
  {
    hide KeptLines, Flatten, ValuesOf, SoundLine;
    KeptLinesAreSound(r.headers, order, "connection");
    SoundHasNoCrlf(KeptLines(r.headers, order));
    FlattenLines(KeptLines(r.headers, order));
  }

  lemma OwnLinesCount(r: Response, close: bool, order: seq<string>)
    requires Valid(r, order)
    ensures |OwnLines(r, close, order)| == OwnCount(r)
  {
    hide StatusLine, ContentTypeText, ToDecimal, Fold;
    assert HasContentType(order) <==> GivesType(r) by {
      if k :| k in r.headers && Fold(k) == "content-type" {
        assert k in order;
      }
    }
  }

  // ---------- what a client reads under a name ----------

  lemma {:induction false} ValuesAre(lines: seq<string>, key: string, v: string)
    ensures v in ValuesOf(lines, key) <==> exists i :: 0 <= i < |lines| && ValueOf(lines[i], key) == [v]
  {
    hide ValueOf;
    if lines != [] {
      ValuesAre(lines[1..], key, v);
      assert |ValueOf(lines[0], key)| <= 1 by {
        AtMostOneValue(lines[0], key);
      }
      if v in ValueOf(lines[0], key) {
        assert ValueOf(lines[0], key) == [v];
      }
      if i :| 0 <= i < |lines| && ValueOf(lines[i], key) == [v] {
        assert i > 0 ==> lines[i] == lines[1..][i - 1];
      }
      if i :| 0 <= i < |lines[1..]| && ValueOf(lines[1..][i], key) == [v] {
        assert lines[1..][i] == lines[i + 1];
      }
    }
  }

  lemma AtMostOneValue(line: string, key: string)
    ensures |ValueOf(line, key)| <= 1
  {
  }

  /** A line of a handler says its trimmed value under its folded name. */
  lemma HandlerLineSays(r: Response, k: string, key: string)
    requires k in r.headers && Token(k) && FieldText(r.headers[k])
    ensures ValueOf(LineOf(r, k), key) == if Fold(k) == key then [Trim(r.headers[k])] else []
  {
    hide Trim, Token, Fold;
    var line, value := LineOf(r, k), r.headers[k];
    TokenHas(k, ':');
    FirstChar(line, ':', |k|);
    assert line[..|k|] == k && line[|k| + 1..] == " " + value;
    TrimBlankFirst(value);
    TrimKeepsText(value);
  }

  lemma TrimBlankFirst(s: string)
    ensures Trim(" " + s) == Trim(s)
  {
    assert (" " + s)[1..] == s;
  }

  lemma TrimKeepsText(s: string)
    requires FieldText(s)
    ensures FieldText(Trim(s))
  {
    hide Trim;
    var left, right := TrimSplits(s);
    assert forall i :: 0 <= i < |Trim(s)| ==> Trim(s)[i] == s[|left| + i];
  }

  /** The lines of the server, under a name it does not own: the content type, when the handler has not given one. */
  lemma OwnLinesSay(r: Response, close: bool, order: seq<string>, key: string)
    requires Valid(r, order) && key !in ["content-length", "transfer-encoding", "connection"]
    ensures ValuesOf(OwnLines(r, close, order)[1..], key) ==
            if key == "content-type" && !GivesType(r) then [ContentTypeText(r.contentType)] else []
  {
    hide ValuesOf, ContentTypeText, StatusLine, Fold, ConnectionText, TypeLines, LengthLines;
    LengthSays(r, key);
    ConnectionSays(close, key);
    TypeSays(r, order, key);
    OwnValues(TypeLines(r, order), LengthLines(r), [ConnectionText(close)], key);
    assert OwnLines(r, close, order)[1..] == TypeLines(r, order) + LengthLines(r) + [ConnectionText(close)];
  }

  lemma LengthSays(r: Response, key: string)
    requires key != "content-length"
    ensures ValuesOf(LengthLines(r), key) == []
  {
    hide ToDecimal, ValueOf;
    LengthLine(|r.ActiveBody()|, key);
  }

  lemma ConnectionSays(close: bool, key: string)
    requires key != "connection"
    ensures ValuesOf([ConnectionText(close)], key) == []
  {
    ConnectionLine(close, key);
  }

  lemma TypeSays(r: Response, order: seq<string>, key: string)
    requires Valid(r, order)
    ensures ValuesOf(TypeLines(r, order), key) ==
            if key == "content-type" && !GivesType(r) then [ContentTypeText(r.contentType)] else []
  {
    hide ContentTypeText, ValueOf, Fold;
    assert HasContentType(order) <==> GivesType(r) by {
      if k :| k in r.headers && Fold(k) == "content-type" {
        assert k in order;
      }
    }
    TypeIsClean(r.contentType);
    TypeNameFolds();
    var f := Field("Content-Type", ContentTypeText(r.contentType));
    NamedLine(f, key);
    assert "Content-Type: " + f.value == RenderField(f);
  }

  lemma TypeNameFolds()
    ensures Token("Content-Type") && Fold("Content-Type") == "content-type"
  {
  }

  lemma TypeIsClean(t: ContentType)
    ensures FieldText(ContentTypeText(t)) && Trimmed(ContentTypeText(t))
  {
    hide ContentTypeText;
    TypeIsVisible(t);
  }

  /**
   Under every name that the server does not own, a client reads exactly the trimmed values the handler gave under
   that name in any spelling, and under Content-Type the server's own when the handler gave none.
   */
  lemma HandlerHeadersAreRead(r: Response, close: bool, order: seq<string>, key: string, v: string)
    requires Printable(r, order) && (forall k :: k in r.headers ==> FieldText(r.headers[k]))
    requires key !in ["content-length", "transfer-encoding", "connection"]
    ensures EndsBlank(HeaderBlockOf(r, close, order)) && Lines(HeaderBlockOf(r, close, order)) != []
    ensures v in ValuesOf(Lines(HeaderBlockOf(r, close, order))[1..], key) <==>
              || (exists k :: k in r.headers && Fold(k) == key && v == Trim(r.headers[k]))
              || (key == "content-type" && !GivesType(r) && v == ContentTypeText(r.contentType))
  {
    hide Lines, HeaderBlockOf, KeptLines, Flatten, ValuesOf, LineOf, Token, Fold, NoCrlf, EndsBlank, FindBlank,
         OwnLines, ContentTypeText, Trim, FieldText, ValueOf, GivesType;
    ServerOwnsFraming(r, close, order, "connection");
    PrintedHandlerLines(r, order);
    OwnLinesSay(r, close, order, key);
    var own, rest := OwnLines(r, close, order), KeptLines(r.headers, order);
    assert (own + rest)[1..] == own[1..] + rest by {
      OwnLinesAreSound(r, close, order, "connection");
    }
    ValuesAppend(own[1..], rest, key);
    ValuesAre(rest, key, v);
    RestSays(r, order, key, v);
  }

  lemma RestSays(r: Response, order: seq<string>, key: string, v: string)
    requires Printable(r, order) && (forall k :: k in r.headers ==> FieldText(r.headers[k]))
    requires key !in ["content-length", "transfer-encoding", "connection"]
    ensures (exists i :: 0 <= i < |KeptLines(r.headers, order)| && ValueOf(KeptLines(r.headers, order)[i], key) == [v])
       <==> exists k :: k in r.headers && Fold(k) == key && v == Trim(r.headers[k])
  {
    hide KeptLines, Token, Fold, NoCrlf, Trim, FieldText, ValueOf, LineOf;
    var rest := KeptLines(r.headers, order);
    if i :| 0 <= i < |rest| && ValueOf(rest[i], key) == [v] {
      KeptLinesAre(r, order, rest[i]);
      assert rest[i] in rest;
      var j :| 0 <= j < |order| && !Owned(order[j]) && rest[i] == LineOf(r, order[j]);
      HandlerLineSays(r, order[j], key);
    }
    if k :| k in r.headers && Fold(k) == key && v == Trim(r.headers[k]) {
      HandlerLineSays(r, k, key);
      assert k in order;
      KeptLinesAre(r, order, LineOf(r, k));
    }
  }

  /** A response that no handler has touched. */
  lemma DefaultText(close: bool)
    ensures Printed(DEFAULT, close, false, []) ==
            Join(["HTTP/1.1 200 OK", "Content-Type: text/plain", "Content-Length: 0",
                  if close then "Connection: close" else "Connection: keep-alive"]) + CRLF
  {
    hide Join;
    assert ToDecimal(200) == ToDecimal(20) + "0" && ToDecimal(20) == ToDecimal(2) + "0" && ToDecimal(2) == "2";
    assert "HTTP/1.1 " + ToDecimal(200) + " " + "OK" == "HTTP/1.1 200 OK";
    assert "Content-Type: " + "text/plain" == "Content-Type: text/plain";
    assert "Content-Length: " + ToDecimal(0) == "Content-Length: 0";
    assert OwnLines(DEFAULT, close, []) + KeptLines(map[], [])
        == ["HTTP/1.1 200 OK", "Content-Type: text/plain", "Content-Length: 0",
            if close then "Connection: close" else "Connection: keep-alive"];
  }

  // ---------- the status ----------

  /** The status a client reads: three digits behind the version. */
  function ReadStatus(block: string): Option<nat>
    requires EndsBlank(block)
  {
    var lines := Lines(block);
    if lines != [] && |lines[0]| >= 12 && lines[0][..9] == "HTTP/1.1 " && AllDigits(lines[0][9..12])
    then Some(Value(lines[0][9..12])) else None
  }

  /** The reasons that are printed; any other status is `Unknown`. */
  const REASONS: map<int, string> :=
    map[200 := "OK", 201 := "Created", 204 := "No Content",
        301 := "Moved Permanently", 302 := "Found", 304 := "Not Modified",
        400 := "Bad Request", 401 := "Unauthorized", 403 := "Forbidden", 404 := "Not Found",
        405 := "Method Not Allowed", 413 := "Content Too Large", 417 := "Expectation Failed",
        431 := "Request Header Fields Too Large",
        500 := "Internal Server Error", 501 := "Not Implemented", 505 := "HTTP Version Not Supported"]

  function Reason(status: int): string {
    if status in REASONS then REASONS[status] else "Unknown"
  }

  lemma ReasonIsText(status: int)
    requires 200 <= status <= 599
    ensures StatusText(status) == Reason(status)
  {
  }

  /** The first line of a printed block. */
  lemma StatusLineReads(r: Response, close: bool, order: seq<string>)
    requires Valid(r, order)
    ensures EndsBlank(HeaderBlockOf(r, close, order)) && Lines(HeaderBlockOf(r, close, order)) != []
    ensures Lines(HeaderBlockOf(r, close, order))[0] == "HTTP/1.1 " + ToDecimal(r.status) + " " + Reason(r.status)
  {
    hide HeaderBlockOf, Lines, EndsBlank, HandlerLines, FindBlank, ValuesOf, ToDecimal, StatusText, Reason;
    ServerOwnsFraming(r, close, order, "connection");
    ReasonIsText(r.status);
    assert Lines(HeaderBlockOf(r, close, order))[0] == OwnLines(r, close, order)[0];
  }

  lemma StatusReadsBack(r: Response, close: bool, order: seq<string>)
    requires Valid(r, order)
    ensures EndsBlank(HeaderBlockOf(r, close, order))
    ensures ReadStatus(HeaderBlockOf(r, close, order)) == Some(r.status)
  {
    hide HeaderBlockOf, Lines, EndsBlank, HandlerLines, FindBlank, ValuesOf, ToDecimal, Value, StatusText;
    ServerOwnsFraming(r, close, order, "connection");
    ThreeDigits(r.status);
    PrintThenRead(r.status);
    var line := StatusLine(r.status);
    assert Lines(HeaderBlockOf(r, close, order))[0] == OwnLines(r, close, order)[0] == line;
    assert line[9..12] == ToDecimal(r.status);
    assert line[..9] == "HTTP/1.1 ";
  }

  // ---------- setters ----------

  /** The last one given, if any was. */
  function LastGiven<T>(setters: seq<Setter>, pick: Setter -> Option<T>): Option<T> {
    if setters == [] then None
    else
      var last := pick(setters[|setters| - 1]);
      if last.Some? then last else LastGiven(setters[..|setters| - 1], pick)
  }

  function Or<T>(given: Option<T>, otherwise: T): T {
    if given.Some? then given.value else otherwise
  }

  function StatusGiven(s: Setter): Option<int> {
    if s.SetStatus? then Some(s.code) else None
  }

  function TypeGiven(s: Setter): Option<ContentType> {
    if s.SetTypedBody? then Some(s.contentType) else if s.SetView? then Some(s.viewType) else None
  }

  function ValueGiven(s: Setter, key: string): Option<string> {
    if s.SetHeader? && s.key == key then Some(s.value) else None
  }

  /** Whatever setters ran, status, content type and each header are the last ones given, and otherwise as before. */
  lemma {:induction false} SettersKeepLast(r: Response, setters: seq<Setter>, key: string)
    ensures var d := ApplyAll(r, setters);
            && d.status == Or(LastGiven(setters, StatusGiven), r.status)
            && d.contentType == Or(LastGiven(setters, TypeGiven), r.contentType)
            && d.ActiveBody() == Or(LastGiven(setters, BodyOf), r.ActiveBody())
            && (key in d.headers <==> key in r.headers || LastGiven(setters, s => ValueGiven(s, key)).Some?)
            && (key in d.headers ==>
                  d.headers[key] == match LastGiven(setters, s => ValueGiven(s, key))
                                    case Some(v) => v
                                    case None => r.headers[key])
  {
    if setters != [] {
      SettersKeepLast(r, setters[..|setters| - 1], key);
    }
  }
}
