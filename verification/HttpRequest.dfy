/**
 What a header block means: the specification that the parser's loops are proved against.
 */
module HttpRequest {
  import opened Prelude
  import opened Text
  import opened Decimal
  import opened HttpTypes
  import opened HttpLimits

  /** A header line, with its name as it was spelled. */
  datatype Field = Field(name: string, value: string)

  /** Keyed by folded name: two spellings of a name are one key. */
  type HeaderMap = map<string, Field>

  datatype RequestLine = RequestLine(
    httpMethod: HttpMethod, path: string, query: map<string, string>, version: string)

  datatype Request = Request(
    line: RequestLine,
    headers: HeaderMap,
    cookies: map<string, string>,
    contentLength: nat,
    keepAlive: bool)

  /** `HttpRequest::header`: the value under any spelling of the name, empty when there is none. */
  function Header(headers: HeaderMap, name: string): string {
    if Fold(name) in headers then headers[Fold(name)].value else ""
  }

  // ---------- characters ----------

  predicate TokenChar(c: char) {
    || 'a' <= c <= 'z' || 'A' <= c <= 'Z' || '0' <= c <= '9'
    || c in "!#$%&'*+-.^_`|~"
  }

  predicate Token(s: string) {
    s != "" && forall i :: 0 <= i < |s| ==> TokenChar(s[i])
  }

  predicate Hex(c: char) {
    '0' <= c <= '9' || 'a' <= c <= 'f' || 'A' <= c <= 'F'
  }

  predicate TargetCharOk(t: string, i: nat)
    requires i < |t|
  {
    && ' ' < t[i] && (t[i] as int) < 127 && t[i] != '#'
    && (t[i] == '%' ==> i + 2 < |t| && Hex(t[i + 1]) && Hex(t[i + 2]))
  }

  /** Origin form, or `*` for OPTIONS; visible, percent signs followed by two hexadecimal digits. */
  predicate ValidTarget(m: HttpMethod, t: string) {
    && t != "" && (t[0] == '/' || (t == "*" && m == OPTIONS))
    && forall i :: 0 <= i < |t| ==> TargetCharOk(t, i)
  }

  predicate Supported(version: string) {
    version == "HTTP/1.1" || version == "HTTP/1.0"
  }

  predicate ValueChar(c: char) {
    ((c as int) >= 32 || c == '\t') && (c as int) != 127
  }

  predicate FieldText(s: string) {
    forall i :: 0 <= i < |s| ==> ValueChar(s[i])
  }

  predicate HostChar(c: char) {
    32 < (c as int) < 127 && c !in "/\\@,?#"
  }

  predicate HostText(s: string) {
    forall i :: 0 <= i < |s| ==> HostChar(s[i])
  }

  // ---------- lists inside values ----------

  function AddPair(m: map<string, string>, pair: string): map<string, string> {
    match FindChar(pair, '=')
    case None => m
    case Some(e) => m[pair[..e] := pair[e + 1..]]
  }

  /** The query map: pairs without `=` are ignored, the last value of a key wins, nothing is decoded. */
  function QueryMap(pairs: seq<string>): map<string, string> {
    if pairs == [] then map[] else AddPair(QueryMap(pairs[..|pairs| - 1]), pairs[|pairs| - 1])
  }

  lemma QueryMapStep(seen: seq<string>, pair: string)
    ensures QueryMap(seen + [pair]) == AddPair(QueryMap(seen), pair)
  {
  }

  function AddCookie(m: map<string, string>, pair: string): map<string, string> {
    match FindChar(pair, '=')
    case None => m
    case Some(e) => m[Trim(pair[..e]) := Trim(pair[e + 1..])]
  }

  function CookieMap(pairs: seq<string>): map<string, string> {
    if pairs == [] then map[] else AddCookie(CookieMap(pairs[..|pairs| - 1]), pairs[|pairs| - 1])
  }

  lemma CookieMapStep(seen: seq<string>, pair: string)
    ensures CookieMap(seen + [pair]) == AddCookie(CookieMap(seen), pair)
  {
  }

  /** Some comma-separated element, trimmed, is the token in any case. */
  predicate ContainsToken(values: string, token: string) {
    var elements := Pieces(values, ',');
    exists i :: 0 <= i < |elements| && Fold(Trim(elements[i])) == Fold(token)
  }

  // ---------- the request line ----------

  function ParseTarget(m: HttpMethod, target: string, version: string): (r: Result<RequestLine>)
    ensures r.Ok? ==> r.value.httpMethod == m && r.value.version == version
    ensures r.Rejected? ==> r.status == 400 || r.status == 505
  {
    if !Supported(version) then Rejected(505)
    else if !ValidTarget(m, target) then Rejected(400)
    else match FindChar(target, '?')
      case None => Ok(RequestLine(m, target, map[], version))
      case Some(q) => Ok(RequestLine(m, target[..q], QueryMap(Pieces(target[q + 1..], '&')), version))
  }

  function ParseRequestLine(line: string): (r: Result<RequestLine>)
    ensures r.Rejected? ==> r.status == 400 || r.status == 505
  {
    match FindChar(line, ' ')
    case None => Rejected(400)
    case Some(s1) =>
      if !Token(line[..s1]) then Rejected(400)
      else
        var rest := line[s1 + 1..];
        match FindChar(rest, ' ')
        case None => Rejected(400)
        case Some(s2) => ParseTarget(ToMethod(line[..s1]), rest[..s2], rest[s2 + 1..])
  }

  // ---------- header lines ----------

  function ParseField(line: string): Option<Field> {
    match FindChar(line, ':')
    case None => None
    case Some(colon) =>
      var name, value := line[..colon], Trim(line[colon + 1..]);
      if Token(name) && FieldText(value) then Some(Field(name, value)) else None
  }

  /** Names of which a second occurrence, in any spelling, is refused. */
  predicate Single(key: string) {
    key == "content-length" || key == "host" || key == "transfer-encoding"
  }

  lemma SingleNames()
    ensures Fold("content-length") == "content-length"
    ensures Fold("host") == "host"
    ensures Fold("transfer-encoding") == "transfer-encoding"
  {
  }

  /** The first value of a name is kept. */
  function AddField(headers: HeaderMap, f: Field): (r: Result<HeaderMap>)
    ensures r.Rejected? ==> r.status == 400
  {
    if Fold(f.name) !in headers then Ok(headers[Fold(f.name) := f])
    else if Single(Fold(f.name)) then Rejected(400)
    else Ok(headers)
  }

  /** What the header loop does with what is left of the block. */
  function ParseFields(head: string, headers: HeaderMap): (r: Result<HeaderMap>)
    ensures r.Rejected? ==> r.status == 400
    decreases |head|
  {
    if head == CRLF then Ok(headers)
    else match FindCrlf(head)
      case None => Rejected(400)
      case Some(e) =>
        match ParseField(head[..e])
        case None => Rejected(400)
        case Some(f) =>
          match AddField(headers, f)
          case Rejected(status) => Rejected(status)
          case Ok(more) => ParseFields(head[e + 2..], more)
  }

  // ---------- rules over the whole block ----------

  function ContentLength(text: string, limits: Limits): (r: Result<nat>)
    ensures r.Ok? ==> r.value <= limits.maxBodyBytes
    ensures r.Rejected? ==> r.status == 400 || r.status == 413
  {
    if text == "" then Ok(0)
    else if !AllDigits(text) then Rejected(400)
    else match FromDecimal(text)
      case None => Rejected(400)
      case Some(n) => if n > limits.maxBodyBytes then Rejected(413) else Ok(n)
  }

  predicate KeepAlive(version: string, connection: string) {
    && !ContainsToken(connection, "close")
    && (version == "HTTP/1.1" || ContainsToken(connection, "keep-alive"))
  }

  function Cookies(text: string): map<string, string> {
    CookieMap(Pieces(text, ';'))
  }

  function Finish(line: RequestLine, headers: HeaderMap, limits: Limits): (r: Result<Request>)
    ensures r.Ok? ==> r.value.contentLength <= limits.maxBodyBytes
    ensures r.Rejected? ==> r.status in {400, 413, 417, 501}
  {
    var host := Header(headers, "host");
    if line.version == "HTTP/1.1" && host == "" then Rejected(400)
    else if !HostText(host) then Rejected(400)
    else if Header(headers, "transfer-encoding") != "" then
      if Header(headers, "content-length") != "" then Rejected(400) else Rejected(501)
    else match ContentLength(Header(headers, "content-length"), limits)
      case Rejected(status) => Rejected(status)
      case Ok(n) =>
        if Header(headers, "expect") != "" then Rejected(417)
        else Ok(Request(line, headers, Cookies(Header(headers, "cookie")), n,
                        KeepAlive(line.version, Header(headers, "connection"))))
  }

  /** `parse_headers`. Every rejection carries one of six statuses; 431 means that the block is too long. */
  function ParseHeaders(raw: string, limits: Limits): (r: Result<Request>)
    ensures |raw| > limits.maxHeaderBytes <==> r == Rejected(431)
    ensures r.Rejected? ==> r.status in {400, 413, 417, 431, 501, 505}
    ensures r.Ok? ==> |raw| <= limits.maxHeaderBytes && EndsBlank(raw)
    ensures r.Ok? ==> r.value.contentLength <= limits.maxBodyBytes
  {
    if |raw| > limits.maxHeaderBytes then Rejected(431)
    else if !EndsBlank(raw) then Rejected(400)
    else match FindCrlf(raw)
      case None => Rejected(400)
      case Some(e) =>
        match ParseRequestLine(raw[..e])
        case Rejected(status) => Rejected(status)
        case Ok(line) =>
          match ParseFields(raw[e + 2..], map[])
          case Rejected(status) => Rejected(status)
          case Ok(headers) => Finish(line, headers, limits)
  }

  /** `parse`: a whole message held in one string, under the given limits. */
  function ParseMessage(raw: string, limits: Limits): Result<(Request, string)> {
    match FindBlank(raw)
    case None => Rejected(400)
    case Some(e) =>
      match ParseHeaders(raw[..e + 4], limits)
      case Rejected(status) => Rejected(status)
      case Ok(request) =>
        if |raw| - e - 4 != request.contentLength then Rejected(400)
        else Ok((request, raw[e + 4..]))
  }
}
