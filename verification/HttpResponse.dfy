/**
 Responses: the setters that fill one in, and the serializer that prints it.

 The headers of a response are an unordered map, so a serialization is determined only together with the
 order in which the map is walked. `order` is that order; every statement holds for each of them.
 */
module HttpResponse {
  import opened Prelude
  import opened Text
  import opened Decimal
  import opened HttpTypes

  datatype ContentType =
    | TEXT_PLAIN | TEXT_HTML | TEXT_CSS | TEXT_JAVASCRIPT | APPLICATION_JSON | APPLICATION_XML
    | APPLICATION_PDF | APPLICATION_FORM_URLENCODED | MULTIPART_FORM_DATA | IMAGE_JPEG | IMAGE_PNG
    | IMAGE_GIF | IMAGE_WEBP | IMAGE_SVG | OCTET_STREAM | UNKNOWN_TYPE

  function TextType(t: ContentType): (s: string)
    ensures Without(s, '\r')
  {
    match t
    case TEXT_PLAIN => "text/plain"
    case TEXT_HTML => "text/html"
    case TEXT_CSS => "text/css"
    case _ => "text/javascript"
  }

  function ImageType(t: ContentType): (s: string)
    ensures Without(s, '\r')
  {
    match t
    case IMAGE_JPEG => "image/jpeg"
    case IMAGE_PNG => "image/png"
    case IMAGE_GIF => "image/gif"
    case IMAGE_WEBP => "image/webp"
    case _ => "image/svg+xml"
  }

  function ApplicationType(t: ContentType): (s: string)
    ensures Without(s, '\r')
  {
    match t
    case APPLICATION_JSON => "application/json"
    case APPLICATION_XML => "application/xml"
    case APPLICATION_FORM_URLENCODED => "application/x-www-form-urlencoded"
    case MULTIPART_FORM_DATA => "multipart/form-data"
    case APPLICATION_PDF => "application/pdf"
    case _ => "application/octet-stream"
  }

  function ContentTypeText(t: ContentType): (s: string)
    ensures Without(s, '\r')
  {
    match t
    case TEXT_PLAIN | TEXT_HTML | TEXT_CSS | TEXT_JAVASCRIPT => TextType(t)
    case IMAGE_JPEG | IMAGE_PNG | IMAGE_GIF | IMAGE_WEBP | IMAGE_SVG => ImageType(t)
    case _ => ApplicationType(t)
  }

  /** Visible characters, none of them a semicolon. */
  ghost predicate Visible(s: string) {
    s != "" && forall i :: 0 <= i < |s| ==> 33 <= s[i] as int <= 126 && s[i] != ';'
  }

  lemma TextIsVisible(t: ContentType)
    ensures Visible(TextType(t))
  {
  }

  lemma ImageIsVisible(t: ContentType)
    ensures Visible(ImageType(t))
  {
  }

  lemma ApplicationIsVisible(t: ContentType)
    ensures Visible(ApplicationType(t))
  {
  }

  lemma TypeIsVisible(t: ContentType)
    ensures Visible(ContentTypeText(t))
  {
    hide TextType, ImageType, ApplicationType;
    TextIsVisible(t);
    ImageIsVisible(t);
    ApplicationIsVisible(t);
  }

  function ClientErrorText(code: int): (s: string)
    ensures Without(s, '\r')
  {
    match code
    case 400 => "Bad Request"
    case 401 => "Unauthorized"
    case 403 => "Forbidden"
    case 404 => "Not Found"
    case 405 => "Method Not Allowed"
    case _ => LimitErrorText(code)
  }

  function LimitErrorText(code: int): (s: string)
    ensures Without(s, '\r')
  {
    match code
    case 413 => "Content Too Large"
    case 417 => "Expectation Failed"
    case 431 => "Request Header Fields Too Large"
    case _ => "Unknown"
  }

  function ServerErrorText(code: int): (s: string)
    ensures Without(s, '\r')
  {
    match code
    case 500 => "Internal Server Error"
    case 501 => "Not Implemented"
    case 505 => "HTTP Version Not Supported"
    case _ => "Unknown"
  }

  function SuccessText(code: int): (s: string)
    ensures Without(s, '\r')
  {
    match code
    case 200 => "OK"
    case 201 => "Created"
    case 204 => "No Content"
    case 301 => "Moved Permanently"
    case 302 => "Found"
    case 304 => "Not Modified"
    case _ => "Unknown"
  }

  function StatusText(code: int): (s: string)
    ensures Without(s, '\r')
  {
    if code < 400 then SuccessText(code)
    else if code < 500 then ClientErrorText(code)
    else ServerErrorText(code)
  }

  datatype BodyType = Dynamic | Owned | Mapped

  /** The value of a response object. */
  datatype Response = Response(
    status: int,
    contentType: ContentType,
    headers: map<string, string>,
    bodyType: BodyType,
    body: string,
    ownedBody: string,
    mappedBody: string)
  {
    function ActiveBody(): string {
      match bodyType
      case Dynamic => body
      case Owned => ownedBody
      case Mapped => mappedBody
    }
  }

  const DEFAULT: Response := Response(200, TEXT_PLAIN, map[], Dynamic, "", "", "")

  // ---------- setters ----------

  datatype Setter =
    | SetStatus(code: int)
    | SetBody(data: string)
    | SetTypedBody(text: string, contentType: ContentType)
    | SetView(view: string, viewType: ContentType)
    | SetHeader(key: string, value: string)

  function Apply(r: Response, s: Setter): Response {
    match s
    case SetStatus(code) => r.(status := code)
    case SetBody(data) => r.(body := data, bodyType := Dynamic)
    case SetTypedBody(text, t) => r.(body := text, bodyType := Dynamic, contentType := t)
    case SetView(view, t) => r.(mappedBody := view, bodyType := Mapped, contentType := t)
    case SetHeader(key, value) => r.(headers := r.headers[key := value])
  }

  function ApplyAll(r: Response, setters: seq<Setter>): Response {
    if setters == [] then r
    else Apply(ApplyAll(r, setters[..|setters| - 1]), setters[|setters| - 1])
  }

  function BodyOf(s: Setter): Option<string> {
    match s
    case SetBody(data) => Some(data)
    case SetTypedBody(text, _) => Some(text)
    case SetView(view, _) => Some(view)
    case _ => None
  }

  /** Whatever mixture of setters ran, the active body is what the last body setter was given. */
  lemma {:induction false} LastBodyWins(r: Response, setters: seq<Setter>, last: nat)
    requires last < |setters| && BodyOf(setters[last]).Some?
    requires forall i :: last < i < |setters| ==> BodyOf(setters[i]).None?
    ensures ApplyAll(r, setters).ActiveBody() == BodyOf(setters[last]).value
  {
    if last < |setters| - 1 {
      LastBodyWins(r, setters[..|setters| - 1], last);
    }
  }

  // ---------- the printed form ----------

  /** A walk over the header map: every key once. */
  ghost predicate Enumerates(order: seq<string>, headers: map<string, string>) {
    && (forall k :: k in order <==> k in headers)
    && (forall i, j :: 0 <= i < j < |order| ==> order[i] != order[j])
  }

  /** Framing belongs to the server: these names are dropped from a handler's headers. */
  predicate Reserved(key: string) {
    key == "content-length" || key == "transfer-encoding" || key == "connection"
  }

  predicate HasContentType(order: seq<string>) {
    exists i :: 0 <= i < |order| && Fold(order[i]) == "content-type"
  }

  /** The handler's own header lines. */
  function KeptLines(headers: map<string, string>, order: seq<string>): seq<string>
    requires forall i :: 0 <= i < |order| ==> order[i] in headers
  {
    if order == [] then []
    else
      var last := order[|order| - 1];
      KeptLines(headers, order[..|order| - 1])
      + (if Reserved(Fold(last)) then [] else [last + ": " + headers[last]])
  }

  lemma ReservedNames()
    ensures Fold("content-length") == "content-length"
    ensures Fold("transfer-encoding") == "transfer-encoding"
    ensures Fold("connection") == "connection"
  {
  }

  /** 204 and 304 carry no Content-Length, and `serialize` prints no body for them. */
  predicate NoContent(status: int) {
    status == 204 || status == 304
  }

  function StatusLine(status: nat): string {
    "HTTP/1.1 " + ToDecimal(status) + " " + StatusText(status)
  }

  function TypeLines(r: Response, order: seq<string>): seq<string> {
    if HasContentType(order) then [] else ["Content-Type: " + ContentTypeText(r.contentType)]
  }

  function LengthLines(r: Response): seq<string> {
    if NoContent(r.status) then [] else ["Content-Length: " + ToDecimal(|r.ActiveBody()|)]
  }

  function ConnectionText(close: bool): string {
    if close then "Connection: close" else "Connection: keep-alive"
  }

  /** The lines the server itself writes. */
  function OwnLines(r: Response, close: bool, order: seq<string>): seq<string>
    requires 200 <= r.status <= 599
  {
    [StatusLine(r.status)] + TypeLines(r, order) + LengthLines(r) + [ConnectionText(close)]
  }

  function HeaderBlockOf(r: Response, close: bool, order: seq<string>): string
    requires 200 <= r.status <= 599
    requires forall i :: 0 <= i < |order| ==> order[i] in r.headers
  {
    Join(OwnLines(r, close, order) + KeptLines(r.headers, order)) + CRLF
  }

  function Printed(r: Response, close: bool, head: bool, order: seq<string>): string
    requires 200 <= r.status <= 599
    requires forall i :: 0 <= i < |order| ==> order[i] in r.headers
  {
    HeaderBlockOf(r, close, order) + (if head || NoContent(r.status) then "" else r.ActiveBody())
  }

  lemma NoneKept(headers: map<string, string>, lines: seq<string>)
    ensures lines + KeptLines(headers, []) == lines
  {
  }

  /** One turn of the loop over the handler's headers. */
  lemma KeptStep(headers: map<string, string>, lines: seq<string>, order: seq<string>, key: string)
    requires key in headers && forall i :: 0 <= i < |order| ==> order[i] in headers
    ensures Join(lines + KeptLines(headers, order + [key])) ==
            Join(lines + KeptLines(headers, order))
            + if Reserved(Fold(key)) then "" else (key + ": " + headers[key]) + CRLF
  {
    hide Fold, Reserved, Join;
    var before, line := KeptLines(headers, order), key + ": " + headers[key];
    assert (order + [key])[..|order|] == order;
    if Reserved(Fold(key)) {
      assert KeptLines(headers, order + [key]) == before;
    } else {
      JoinPush(lines + before, line);
      assert lines + (before + [line]) == (lines + before) + [line];
    }
  }

  /** The mutable response object. */
  class ResponseObject {
    var statusCode: int
    var contentType: ContentType
    var headers: map<string, string>
    var bodyType: BodyType
    var body: string
    var ownedBody: string
    var mappedBody: string

    function Value(): Response
      reads this
    {
      Response(statusCode, contentType, headers, bodyType, body, ownedBody, mappedBody)
    }

    constructor ()
      ensures Value() == DEFAULT
    {
      statusCode, contentType, headers := 200, TEXT_PLAIN, map[];
      bodyType, body, ownedBody, mappedBody := Dynamic, "", "", "";
    }

    method Status(code: int)
      modifies this
      ensures Value() == Apply(old(Value()), SetStatus(code))
    {
      statusCode := code;
    }

    method Send(data: string)
      modifies this
      ensures Value() == Apply(old(Value()), SetBody(data))
    {
      body := data;
      bodyType := Dynamic;
    }

    method Image(data: string, imageType: ContentType)
      modifies this
      ensures Value() == Apply(old(Value()), SetTypedBody(data, imageType))
    {
      body := data;
      bodyType := Dynamic;
      contentType := imageType;
    }

    method Json(data: string)
      modifies this
      ensures Value() == Apply(old(Value()), SetTypedBody(data, APPLICATION_JSON))
    {
      Image(data, APPLICATION_JSON);
    }

    method Html(data: string)
      modifies this
      ensures Value() == Apply(old(Value()), SetTypedBody(data, TEXT_HTML))
    {
      Image(data, TEXT_HTML);
    }

    method PlainText(data: string)
      modifies this
      ensures Value() == Apply(old(Value()), SetTypedBody(data, TEXT_PLAIN))
    {
      Image(data, TEXT_PLAIN);
    }

    method ImageView(data: string, imageType: ContentType)
      modifies this
      ensures Value() == Apply(old(Value()), SetView(data, imageType))
    {
      contentType := imageType;
      mappedBody := data;
      bodyType := Mapped;
    }

    method HtmlView(data: string)
      modifies this
      ensures Value() == Apply(old(Value()), SetView(data, TEXT_HTML))
    {
      ImageView(data, TEXT_HTML);
    }

    method Header(key: string, value: string)
      modifies this
      ensures Value() == Apply(old(Value()), SetHeader(key, value))
    {
      headers := headers[key := value];
    }

    /** `None` stands for the exception on a status outside 200 to 599. */
    method SerializeHeaders(close: bool, order: seq<string>) returns (text: Option<string>)
      requires Enumerates(order, headers)
      ensures text == if 200 <= statusCode <= 599 then Some(HeaderBlockOf(Value(), close, order)) else None
    {
      if statusCode < 200 || statusCode > 599 {
        return None;
      }
      var r := Value();
      ghost var lines := [StatusLine(statusCode)];
      var response := "HTTP/1.1 " + ToDecimal(statusCode) + " " + StatusText(statusCode) + CRLF;
      JoinOne(StatusLine(statusCode));

      var custom := FindContentType(order);
      if !custom {
        response := response + ("Content-Type: " + ContentTypeText(contentType)) + CRLF;
        JoinPush(lines, "Content-Type: " + ContentTypeText(contentType));
        lines := lines + ["Content-Type: " + ContentTypeText(contentType)];
      }
      if statusCode != 204 && statusCode != 304 {
        response := response + ("Content-Length: " + ToDecimal(|r.ActiveBody()|)) + CRLF;
        JoinPush(lines, "Content-Length: " + ToDecimal(|r.ActiveBody()|));
        lines := lines + ["Content-Length: " + ToDecimal(|r.ActiveBody()|)];
      }
      ghost var connection := ConnectionText(close);
      response := response + (if close then "Connection: close" else "Connection: keep-alive") + CRLF;
      JoinPush(lines, connection);
      lines := lines + [connection];
      assert lines == OwnLines(r, close, order);

      var kept := AppendKept(response, order, lines);
      response := kept + CRLF;
      return Some(response);
    }

    method FindContentType(order: seq<string>) returns (custom: bool)
      ensures custom <==> HasContentType(order)
    {
      custom := false;
      for i := 0 to |order|
        invariant !custom
        invariant forall j :: 0 <= j < i ==> Fold(order[j]) != "content-type"
      {
        var key := order[i];
        if |key| == 12 && (key[0] == 'c' || key[0] == 'C') {
          assert Fold("content-type") == "content-type";
          custom := CaseInsensitiveEqual(key, "content-type");
          if custom {
            return;
          }
        } else {
          assert |Fold(key)| == 12 ==> Fold(key)[0] != 'c';
        }
      }
    }

    method AppendKept(start: string, order: seq<string>, ghost lines: seq<string>) returns (response: string)
      requires forall k :: k in order ==> k in headers
      requires start == Join(lines)
      ensures response == Join(lines + KeptLines(headers, order))
    {
      hide Fold, Join, KeptLines;
      ReservedNames();
      response := start;
      NoneKept(headers, lines);
      for i := 0 to |order|
        invariant response == Join(lines + KeptLines(headers, order[..i]))
      {
        var key := order[i];
        var isLength := CaseInsensitiveEqual(key, "content-length");
        var isEncoding := CaseInsensitiveEqual(key, "transfer-encoding");
        var isConnection := CaseInsensitiveEqual(key, "connection");
        KeptStep(headers, lines, order[..i], key);
        assert order[..i + 1] == order[..i] + [key];
        if !isLength && !isEncoding && !isConnection {
          response := response + (key + ": " + headers[key]) + CRLF;
        }
      }
      assert order[..|order|] == order;
    }

    /** Header block and body in one string. */
    method Serialize(close: bool, head: bool, order: seq<string>) returns (text: Option<string>)
      requires Enumerates(order, headers)
      ensures text == if 200 <= statusCode <= 599 then Some(Printed(Value(), close, head, order)) else None
    {
      text := SerializeHeaders(close, order);
      if text.Some? && !head && statusCode != 204 && statusCode != 304 {
        text := Some(text.value + Value().ActiveBody());
      } else if text.Some? {
        assert text.value + "" == text.value;
      }
    }
  }
}
