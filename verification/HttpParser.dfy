/**
 The parser's loops over shrinking views, each proved to compute what HttpRequest specifies.
 */
module HttpParser {
  import opened Prelude
  import opened Text
  import opened Decimal
  import opened HttpTypes
  import opened HttpLimits
  import opened HttpRequest

  method TrimView(text: string) returns (s: string)
    ensures s == Trim(text)
  {
    s := text;
    while s != "" && Blank(s[0])
      invariant TrimLeft(s) == TrimLeft(text)
      decreases |s|
    {
      s := s[1..];
    }
    while s != "" && Blank(s[|s| - 1])
      invariant TrimRight(s) == Trim(text)
      decreases |s|
    {
      s := s[..|s| - 1];
    }
  }

  method IsToken(text: string) returns (ok: bool)
    ensures ok <==> Token(text)
  {
    if text == "" {
      return false;
    }
    for i := 0 to |text|
      invariant forall j :: 0 <= j < i ==> TokenChar(text[j])
    {
      if !TokenChar(text[i]) {
        return false;
      }
    }
    return true;
  }

  method FindToken(list: string, expected: string) returns (found: bool)
    ensures found <==> ContainsToken(list, expected)
  {
    hide Pieces, Trim, Fold;
    var values := list;
    ghost var all := Pieces(list, ',');
    ghost var seen: seq<string> := [];
    while values != ""
      invariant all == seen + Pieces(values, ',')
      invariant forall i :: 0 <= i < |seen| ==> Fold(Trim(seen[i])) != Fold(expected)
      decreases |values|
    {
      var comma := FindChar(values, ',');
      var element := if comma.None? then values else values[..comma.value];
      var part := TrimView(element);
      var equal := CaseInsensitiveEqual(part, expected);
      PiecesStep(all, seen, values, ',');
      if equal {
        assert all[|seen|] == element;
        return true;
      }
      seen := seen + [element];
      if comma.None? {
        return false;
      }
      values := values[comma.value + 1..];
    }
    NoPieces(',');
    assert all == seen;
    return false;
  }

  method ParseQueryString(text: string) returns (query: map<string, string>)
    ensures query == QueryMap(Pieces(text, '&'))
  {
    hide Pieces, FindChar;
    var qs := text;
    query := map[];
    ghost var all := Pieces(text, '&');
    ghost var seen: seq<string> := [];
    while qs != ""
      invariant all == seen + Pieces(qs, '&')
      invariant query == QueryMap(seen)
      decreases |qs|
    {
      var amp := FindChar(qs, '&');
      var pair := if amp.None? then qs else qs[..amp.value];
      var eq := FindChar(pair, '=');
      if eq.Some? {
        query := query[pair[..eq.value] := pair[eq.value + 1..]];
      }
      QueryMapStep(seen, pair);
      PiecesStep(all, seen, qs, '&');
      seen := seen + [pair];
      if amp.None? {
        return;
      }
      qs := qs[amp.value + 1..];
    }
    NoPieces('&');
    assert all == seen;
  }

  method ParseCookies(text: string) returns (cookies: map<string, string>)
    ensures cookies == Cookies(text)
  {
    hide Pieces, FindChar, Trim;
    var raw := text;
    cookies := map[];
    ghost var all := Pieces(text, ';');
    ghost var seen: seq<string> := [];
    while raw != ""
      invariant all == seen + Pieces(raw, ';')
      invariant cookies == CookieMap(seen)
      decreases |raw|
    {
      var semi := FindChar(raw, ';');
      var pair := if semi.None? then raw else raw[..semi.value];
      var eq := FindChar(pair, '=');
      if eq.Some? {
        var name := TrimView(pair[..eq.value]);
        var value := TrimView(pair[eq.value + 1..]);
        cookies := cookies[name := value];
      }
      CookieMapStep(seen, pair);
      PiecesStep(all, seen, raw, ';');
      seen := seen + [pair];
      if semi.None? {
        return;
      }
      raw := raw[semi.value + 1..];
    }
    NoPieces(';');
    assert all == seen;
  }

  method CheckTarget(httpMethod: HttpMethod, target: string) returns (ok: bool)
    ensures ok <==> ValidTarget(httpMethod, target)
  {
    if target == "" || (target[0] != '/' && !(target == "*" && httpMethod == OPTIONS)) {
      return false;
    }
    for i := 0 to |target|
      invariant forall j :: 0 <= j < i ==> TargetCharOk(target, j)
    {
      var c := target[i];
      if (c as int) <= 32 || (c as int) >= 127 || c == '#' {
        assert !TargetCharOk(target, i);
        return false;
      }
      if c == '%' && (i + 2 >= |target| || !Hex(target[i + 1]) || !Hex(target[i + 2])) {
        assert !TargetCharOk(target, i);
        return false;
      }
    }
    return true;
  }

  method ReadRequestLine(text: string) returns (r: Result<RequestLine>)
    ensures r == ParseRequestLine(text)
  {
    var s1 := FindChar(text, ' ');
    if s1.None? {
      return Rejected(400);
    }
    var methodPart := text[..s1.value];
    var ok := IsToken(methodPart);
    if !ok {
      return Rejected(400);
    }
    var httpMethod := ToMethod(methodPart);
    var line := text[s1.value + 1..];
    var s2 := FindChar(line, ' ');
    if s2.None? {
      return Rejected(400);
    }
    r := ReadTarget(httpMethod, line[..s2.value], line[s2.value + 1..]);
  }

  method ReadTarget(httpMethod: HttpMethod, target: string, version: string) returns (r: Result<RequestLine>)
    ensures r == ParseTarget(httpMethod, target, version)
  {
    if version != "HTTP/1.1" && version != "HTTP/1.0" {
      return Rejected(505);
    }
    var ok := CheckTarget(httpMethod, target);
    if !ok {
      return Rejected(400);
    }
    var q := FindChar(target, '?');
    if q.None? {
      return Ok(RequestLine(httpMethod, target, map[], version));
    }
    var query := ParseQueryString(target[q.value + 1..]);
    return Ok(RequestLine(httpMethod, target[..q.value], query, version));
  }

  /** Reads one header line into the map. */
  method ReadHeaderLine(line: string, headers: HeaderMap) returns (r: Result<HeaderMap>)
    ensures r == match ParseField(line)
                 case None => Rejected(400)
                 case Some(f) => AddField(headers, f)
  {
    hide FindChar, Trim, Fold;
    var colon := FindChar(line, ':');
    if colon.None? {
      return Rejected(400);
    }
    var name := line[..colon.value];
    var ok := IsToken(name);
    if !ok {
      return Rejected(400);
    }
    var value := TrimView(line[colon.value + 1..]);
    for i := 0 to |value|
      invariant forall j :: 0 <= j < i ==> ValueChar(value[j])
    {
      var c := value[i];
      if ((c as int) < 32 && c != '\t') || (c as int) == 127 {
        return Rejected(400);
      }
    }
    if Fold(name) !in headers {
      return Ok(headers[Fold(name) := Field(name, value)]);
    }
    var isLength := CaseInsensitiveEqual(name, "content-length");
    var isHost := CaseInsensitiveEqual(name, "host");
    var isEncoding := CaseInsensitiveEqual(name, "transfer-encoding");
    SingleNames();
    if isLength || isHost || isEncoding {
      return Rejected(400);
    }
    return Ok(headers);
  }

  /** The checks on Host, one character at a time. */
  method CheckHost(host: string) returns (ok: bool)
    ensures ok <==> HostText(host)
  {
    for i := 0 to |host|
      invariant forall j :: 0 <= j < i ==> HostChar(host[j])
    {
      var c := host[i];
      if (c as int) <= 32 || (c as int) >= 127 || c in "/\\@,?#" {
        assert !HostChar(c);
        return false;
      }
    }
    return true;
  }

  method ReadContentLength(text: string, limits: Limits) returns (r: Result<nat>)
    ensures r == ContentLength(text, limits)
  {
    if text == "" {
      return Ok(0);
    }
    for i := 0 to |text|
      invariant forall j :: 0 <= j < i ==> IsDigit(text[j])
    {
      if text[i] < '0' || text[i] > '9' {
        assert !IsDigit(text[i]);
        return Rejected(400);
      }
    }
    var n := FromDecimal(text);
    if n.None? {
      return Rejected(400);
    }
    if n.value > limits.maxBodyBytes {
      return Rejected(413);
    }
    return Ok(n.value);
  }

  /**
   The whole block. `CutLine` shows that the two exits for a missing CRLF are never taken: a block that
   ends in CRLFCRLF always has a CRLF left, in the loop as well.
   */
  method ReadHeaders(raw: string, limits: Limits) returns (r: Result<Request>)
    ensures r == ParseHeaders(raw, limits)
  {
    if |raw| > limits.maxHeaderBytes {
      return Rejected(431);
    }
    if !EndsBlank(raw) {
      return Rejected(400);
    }
    CutLine(raw);
    var lineEnd := FindCrlf(raw);
    if lineEnd.None? {
      return Rejected(400);
    }
    var line := ReadRequestLine(raw[..lineEnd.value]);
    if line.Rejected? {
      return Rejected(line.status);
    }

    var headers: HeaderMap := map[];
    var head := raw[lineEnd.value + 2..];
    while head != CRLF
      invariant Terminated(head)
      invariant ParseFields(head, headers) == ParseFields(raw[lineEnd.value + 2..], map[])
      decreases |head|
    {
      CutLine(head);
      var end := FindCrlf(head);
      if end.None? {
        return Rejected(400);
      }
      var more := ReadHeaderLine(head[..end.value], headers);
      if more.Rejected? {
        return Rejected(more.status);
      }
      headers := more.value;
      head := head[end.value + 2..];
    }
    r := FinishRequest(line.value, headers, limits);
  }

  method FinishRequest(line: RequestLine, headers: HeaderMap, limits: Limits) returns (r: Result<Request>)
    ensures r == Finish(line, headers, limits)
  {
    var host := Header(headers, "host");
    if line.version == "HTTP/1.1" && host == "" {
      return Rejected(400);
    }
    if host != "" {
      var ok := CheckHost(host);
      if !ok {
        return Rejected(400);
      }
    }
    if Header(headers, "transfer-encoding") != "" {
      if Header(headers, "content-length") != "" {
        return Rejected(400);
      }
      return Rejected(501);
    }
    var length := ReadContentLength(Header(headers, "content-length"), limits);
    if length.Rejected? {
      return Rejected(length.status);
    }
    if Header(headers, "expect") != "" {
      return Rejected(417);
    }
    var keepAlive := line.version == "HTTP/1.1";
    var connection := Header(headers, "connection");
    var asksKeep := FindToken(connection, "keep-alive");
    if asksKeep {
      keepAlive := true;
    }
    var asksClose := FindToken(connection, "close");
    if asksClose {
      keepAlive := false;
    }
    var cookies := ParseCookies(Header(headers, "cookie"));
    return Ok(Request(line, headers, cookies, length.value, keepAlive));
  }
}
