/**
 Printing a request and parsing it: exactly which requests survive, and what comes back.
 */
module RequestRoundTrip {
  import opened Prelude
  import opened Text
  import opened Decimal
  import opened HttpTypes
  import opened HttpLimits
  import opened HttpRequest
  import opened HeaderBlock

  function RenderLine(httpMethod: string, target: string, version: string): string {
    httpMethod + " " + target + " " + version
  }

  function RenderField(f: Field): string {
    f.name + ": " + f.value
  }

  function RenderFields(fields: seq<Field>): (lines: seq<string>)
    ensures |lines| == |fields|
    ensures forall i :: 0 <= i < |fields| ==> lines[i] == RenderField(fields[i])
  {
    seq(|fields|, i requires 0 <= i < |fields| => RenderField(fields[i]))
  }

  function Render(httpMethod: string, target: string, version: string, fields: seq<Field>): string {
    Join([RenderLine(httpMethod, target, version)] + RenderFields(fields)) + CRLF
  }

  predicate CleanField(f: Field) {
    Token(f.name) && FieldText(f.value) && Trimmed(f.value)
  }

  /** The parts can be told apart once printed: nothing here says that they make an acceptable request. */
  ghost predicate Clean(httpMethod: string, target: string, version: string, fields: seq<Field>) {
    && Token(httpMethod) && Without(target, ' ') && NoCrlf(RenderLine(httpMethod, target, version))
    && forall i :: 0 <= i < |fields| ==> CleanField(fields[i])
  }

  // ---------- one line at a time ----------

  lemma TokenHas(s: string, c: char)
    requires Token(s) && !TokenChar(c)
    ensures Without(s, c)
  {
  }

  lemma FieldRoundTrip(f: Field)
    requires CleanField(f)
    ensures ParseField(RenderField(f)) == Some(f)
    ensures NoCrlf(RenderField(f)) && RenderField(f) != ""
  {
    hide Token, Trim;
    var line, n := RenderField(f), |f.name|;
    TokenHas(f.name, ':');
    TokenHas(f.name, '\r');
    FirstChar(line, ':', n);
    assert line[..n] == f.name;
    assert line[n + 1..] == " " + f.value + "";
    TrimPadded(" ", f.value, "");
    assert Without(line, '\r');
  }

  lemma RequestLineRoundTrip(httpMethod: string, target: string, version: string)
    requires Token(httpMethod) && Without(target, ' ')
    ensures ParseRequestLine(RenderLine(httpMethod, target, version))
         == ParseTarget(ToMethod(httpMethod), target, version)
  {
    var line, n := RenderLine(httpMethod, target, version), |httpMethod|;
    TokenHas(httpMethod, ' ');
    FirstChar(line, ' ', n);
    assert line[..n] == httpMethod;
    var rest := line[n + 1..];
    assert rest == target + " " + version;
    FirstChar(rest, ' ', |target|);
    assert rest[..|target|] == target && rest[|target| + 1..] == version;
  }

  /** The verdict on the parts. */
  function JudgeParts(httpMethod: string, target: string, version: string, fields: seq<Field>, limits: Limits)
    : Result<Request>
  {
    match ParseTarget(ToMethod(httpMethod), target, version)
    case Rejected(status) => Rejected(status)
    case Ok(line) =>
      match Collect(fields)
      case Rejected(status) => Rejected(status)
      case Ok(headers) => Finish(line, headers, limits)
  }

  /** Parsing a printed request is judging its parts, status included: the printed form adds and loses nothing. */
  lemma ParseOfRender(httpMethod: string, target: string, version: string, fields: seq<Field>, limits: Limits)
    requires Clean(httpMethod, target, version, fields)
    ensures var raw := Render(httpMethod, target, version, fields);
            ParseHeaders(raw, limits) == if |raw| > limits.maxHeaderBytes then Rejected(431)
                                         else JudgeParts(httpMethod, target, version, fields, limits)
  {
    var line, tail := RenderLine(httpMethod, target, version), RenderFields(fields);
    var lines := [line] + tail;
    var raw := Render(httpMethod, target, version, fields);
    forall i | 0 <= i < |fields| ensures ParseField(tail[i]) == Some(fields[i]) && NoCrlf(tail[i]) {
      FieldRoundTrip(fields[i]);
    }
    assert forall i :: 0 <= i < |lines| ==> NoCrlf(lines[i]);
    JoinThenLines(lines);
    JoinTerminated(lines);
    if |raw| <= limits.maxHeaderBytes {
      BlockIsItsLines(raw, limits);
      RequestLineRoundTrip(httpMethod, target, version);
      assert lines[1..] == tail && lines[0] == line;
      assert FieldsOf(tail) == fields;
    }
  }

  // ---------- acceptance, stated on the parts ----------

  /** The rules on values: Host, Transfer-Encoding, Content-Length and Expect. */
  predicate ValuesOk(version: string, fields: seq<Field>, limits: Limits) {
    var host, length := FirstValue(fields, "host"), FirstValue(fields, "content-length");
    && (version == "HTTP/1.1" ==> host != "") && HostText(host)
    && FirstValue(fields, "transfer-encoding") == ""
    && AllDigits(length) && Value(length) < SIZE_LIMIT && Value(length) <= limits.maxBodyBytes
    && FirstValue(fields, "expect") == ""
  }

  ghost predicate Acceptable(httpMethod: string, target: string, version: string, fields: seq<Field>, limits: Limits) {
    && |Render(httpMethod, target, version, fields)| <= limits.maxHeaderBytes
    && Supported(version) && ValidTarget(ToMethod(httpMethod), target)
    && SinglesOnce(fields) && ValuesOk(version, fields, limits)
  }

  lemma FoldedNames()
    ensures Fold("host") == "host" && Fold("transfer-encoding") == "transfer-encoding"
    ensures Fold("content-length") == "content-length" && Fold("expect") == "expect"
    ensures Fold("connection") == "connection" && Fold("cookie") == "cookie"
  {
  }

  lemma FinishAccepts(line: RequestLine, headers: HeaderMap, fields: seq<Field>, limits: Limits)
    requires FirstWins(headers, fields)
    ensures Finish(line, headers, limits).Ok? <==> ValuesOk(line.version, fields, limits)
    ensures Finish(line, headers, limits).Ok? ==>
              var r := Finish(line, headers, limits).value;
              && r.line == line && r.headers == headers
              && AllDigits(FirstValue(fields, "content-length"))
              && r.contentLength == Value(FirstValue(fields, "content-length"))
              && r.keepAlive == KeepAlive(line.version, FirstValue(fields, "connection"))
              && r.cookies == Cookies(FirstValue(fields, "cookie"))
  {
    hide Fold, FirstWins, FirstValue, Header;
    FoldedNames();
    HeaderIsFirstValue(headers, fields, "host");
    HeaderIsFirstValue(headers, fields, "transfer-encoding");
    HeaderIsFirstValue(headers, fields, "content-length");
    HeaderIsFirstValue(headers, fields, "expect");
    HeaderIsFirstValue(headers, fields, "connection");
    HeaderIsFirstValue(headers, fields, "cookie");
    assert Value("") == 0;
  }

  ghost predicate DistinctNames(fields: seq<Field>) {
    forall i, j :: 0 <= i < j < |fields| ==> Fold(fields[i].name) != Fold(fields[j].name)
  }

  /** The map is the list: every field under its name, and nothing else. */
  ghost predicate ExactMap(headers: HeaderMap, fields: seq<Field>) {
    && (forall i :: 0 <= i < |fields| ==> Fold(fields[i].name) in headers && headers[Fold(fields[i].name)] == fields[i])
    && (forall k <- headers :: exists i :: 0 <= i < |fields| && Fold(fields[i].name) == k)
  }

  lemma DistinctIsExact(headers: HeaderMap, fields: seq<Field>)
    requires FirstWins(headers, fields) && DistinctNames(fields)
    ensures ExactMap(headers, fields)
  {
  }

  /** The request holds what was printed: all of it when names are distinct, the first of each name otherwise. */
  ghost predicate GivesBack(r: Request, httpMethod: string, target: string, version: string, fields: seq<Field>) {
    && ParseTarget(ToMethod(httpMethod), target, version) == Ok(r.line)
    && r.line.httpMethod == ToMethod(httpMethod) && r.line.version == version
    && FirstWins(r.headers, fields)
    && (DistinctNames(fields) ==> ExactMap(r.headers, fields))
    && AllDigits(FirstValue(fields, "content-length"))
    && r.contentLength == Value(FirstValue(fields, "content-length"))
    && r.keepAlive == KeepAlive(version, FirstValue(fields, "connection"))
    && r.cookies == Cookies(FirstValue(fields, "cookie"))
  }

  lemma JudgePartsAccepts(httpMethod: string, target: string, version: string, fields: seq<Field>, limits: Limits)
    ensures var result := JudgeParts(httpMethod, target, version, fields, limits);
            && (result.Ok? <==> Supported(version) && ValidTarget(ToMethod(httpMethod), target)
                                && SinglesOnce(fields) && ValuesOk(version, fields, limits))
            && (result.Ok? ==> GivesBack(result.value, httpMethod, target, version, fields))
  {
    CollectKeepsFirst(fields);
    match ParseTarget(ToMethod(httpMethod), target, version)
    case Rejected(_) =>
    case Ok(line) =>
      match Collect(fields)
      case Rejected(_) =>
      case Ok(headers) =>
        FinishAccepts(line, headers, fields, limits);
        if DistinctNames(fields) {
          DistinctIsExact(headers, fields);
        }
  }

  /** A printed request is accepted exactly when its parts obey the rules, and then the parse gives it back. */
  lemma RequestRoundTrips(httpMethod: string, target: string, version: string, fields: seq<Field>, limits: Limits)
    requires Clean(httpMethod, target, version, fields)
    ensures var result := ParseHeaders(Render(httpMethod, target, version, fields), limits);
            && (result.Ok? <==> Acceptable(httpMethod, target, version, fields, limits))
            && (result.Ok? ==> GivesBack(result.value, httpMethod, target, version, fields))
  {
    ParseOfRender(httpMethod, target, version, fields, limits);
    JudgePartsAccepts(httpMethod, target, version, fields, limits);
  }

  // ---------- the query ----------

  datatype Pair = Pair(key: string, value: string)

  ghost predicate CleanPair(p: Pair) {
    Without(p.key, '=') && Without(p.key, '&') && Without(p.value, '&')
  }

  function RenderPairs(pairs: seq<Pair>): (texts: seq<string>)
    ensures |texts| == |pairs|
    ensures forall i :: 0 <= i < |pairs| ==> texts[i] == pairs[i].key + "=" + pairs[i].value
  {
    seq(|pairs|, i requires 0 <= i < |pairs| => pairs[i].key + "=" + pairs[i].value)
  }

  function LastWins(pairs: seq<Pair>): map<string, string> {
    if pairs == [] then map[]
    else LastWins(pairs[..|pairs| - 1])[pairs[|pairs| - 1].key := pairs[|pairs| - 1].value]
  }

  ghost predicate IsLast(pairs: seq<Pair>, i: int) {
    0 <= i < |pairs| && forall j :: i < j < |pairs| ==> pairs[j].key != pairs[i].key
  }

  /** Each key given is bound to the value of its last pair, and no other key is bound. */
  ghost predicate BindsLast(m: map<string, string>, pairs: seq<Pair>) {
    && (forall i :: IsLast(pairs, i) ==> pairs[i].key in m && m[pairs[i].key] == pairs[i].value)
    && (forall k <- m :: exists i :: IsLast(pairs, i) && pairs[i].key == k)
  }

  lemma BindsLastStep(m: map<string, string>, front: seq<Pair>, last: Pair)
    requires BindsLast(m, front)
    ensures BindsLast(m[last.key := last.value], front + [last])
  {
    var pairs, n := front + [last], |front|;
    var more := m[last.key := last.value];
    assert IsLast(pairs, n);
    forall i | IsLast(pairs, i) ensures pairs[i].key in more && more[pairs[i].key] == pairs[i].value {
      if i < n {
        assert pairs[i] == front[i] && pairs[n] == last;
        assert forall j :: i < j < n ==> pairs[j] == front[j];
        assert IsLast(front, i);
      }
    }
    forall k | k in more ensures exists i :: IsLast(pairs, i) && pairs[i].key == k {
      if k == last.key {
        assert pairs[n].key == k;
      } else {
        var i :| IsLast(front, i) && front[i].key == k;
        assert forall j :: i < j < n ==> pairs[j] == front[j];
        assert IsLast(pairs, i);
      }
    }
  }

  lemma {:induction false} LastWinsMeaning(pairs: seq<Pair>)
    ensures BindsLast(LastWins(pairs), pairs)
  {
    if pairs != [] {
      var n := |pairs| - 1;
      LastWinsMeaning(pairs[..n]);
      BindsLastStep(LastWins(pairs[..n]), pairs[..n], pairs[n]);
      assert pairs == pairs[..n] + [pairs[n]];
    }
  }

  lemma {:induction false} QueryMapOfPairs(pairs: seq<Pair>)
    requires forall i :: 0 <= i < |pairs| ==> CleanPair(pairs[i])
    ensures QueryMap(RenderPairs(pairs)) == LastWins(pairs)
  {
    if pairs != [] {
      var n := |pairs| - 1;
      var last := pairs[n];
      QueryMapOfPairs(pairs[..n]);
      assert RenderPairs(pairs)[..n] == RenderPairs(pairs[..n]);
      var text := last.key + "=" + last.value;
      FirstChar(text, '=', |last.key|);
      assert text[..|last.key|] == last.key && text[|last.key| + 1..] == last.value;
    }
  }

  lemma CleanText(p: Pair)
    requires CleanPair(p)
    ensures Without(p.key + "=" + p.value, '&') && p.key + "=" + p.value != ""
  {
  }

  lemma GluedPairs(pairs: seq<Pair>)
    requires forall i :: 0 <= i < |pairs| ==> CleanPair(pairs[i])
    ensures QueryMap(Pieces(Glue(RenderPairs(pairs), '&'), '&')) == LastWins(pairs)
  {
    forall i | 0 <= i < |pairs| {
      CleanText(pairs[i]);
    }
    PiecesOfGlue(RenderPairs(pairs), '&');
    QueryMapOfPairs(pairs);
  }

  lemma TargetSplits(httpMethod: HttpMethod, path: string, query: string, version: string)
    requires Without(path, '?') && Supported(version) && ValidTarget(httpMethod, path + "?" + query)
    ensures ParseTarget(httpMethod, path + "?" + query, version)
         == Ok(RequestLine(httpMethod, path, QueryMap(Pieces(query, '&')), version))
  {
    var target := path + "?" + query;
    FirstChar(target, '?', |path|);
    assert target[..|path|] == path && target[|path| + 1..] == query;
  }

  /** A target printed from a path and a list of pairs parses to that path and the last-wins map of the pairs. */
  lemma TargetRoundTrips(httpMethod: HttpMethod, path: string, pairs: seq<Pair>, version: string)
    requires Without(path, '?') && Supported(version)
    requires forall i :: 0 <= i < |pairs| ==> CleanPair(pairs[i])
    requires ValidTarget(httpMethod, path + "?" + Glue(RenderPairs(pairs), '&'))
    ensures ParseTarget(httpMethod, path + "?" + Glue(RenderPairs(pairs), '&'), version)
         == Ok(RequestLine(httpMethod, path, LastWins(pairs), version))
  {
    TargetSplits(httpMethod, path, Glue(RenderPairs(pairs), '&'), version);
    GluedPairs(pairs);
  }

  /** A path alone, or with a query behind it. */
  function RenderTarget(path: string, query: Option<seq<Pair>>): string {
    match query
    case None => path
    case Some(pairs) => path + "?" + Glue(RenderPairs(pairs), '&')
  }

  function QueryMeaning(query: Option<seq<Pair>>): map<string, string> {
    match query
    case None => map[]
    case Some(pairs) => LastWins(pairs)
  }

  ghost predicate CleanTarget(path: string, query: Option<seq<Pair>>) {
    && Without(path, '?')
    && (query.Some? ==> forall i :: 0 <= i < |query.value| ==> CleanPair(query.value[i]))
  }

  lemma AnyTargetRoundTrips(httpMethod: HttpMethod, path: string, query: Option<seq<Pair>>, version: string)
    requires CleanTarget(path, query) && Supported(version) && ValidTarget(httpMethod, RenderTarget(path, query))
    ensures ParseTarget(httpMethod, RenderTarget(path, query), version)
         == Ok(RequestLine(httpMethod, path, QueryMeaning(query), version))
  {
    if query.Some? {
      TargetRoundTrips(httpMethod, path, query.value, version);
    }
  }

  /**
   The whole of it: a request printed from a method, a path, a query or none, a version and header fields is accepted
   exactly when the parts obey the rules, and then the parse holds that method, path and version, the last value of
   each key of the query, and the first field of each name.
   */
  lemma WholeRequestRoundTrips(httpMethod: string, path: string, query: Option<seq<Pair>>, version: string,
      fields: seq<Field>, limits: Limits)
    requires CleanTarget(path, query) && Clean(httpMethod, RenderTarget(path, query), version, fields)
    ensures var target := RenderTarget(path, query);
            var result := ParseHeaders(Render(httpMethod, target, version, fields), limits);
            && (result.Ok? <==> Acceptable(httpMethod, target, version, fields, limits))
            && (result.Ok? ==>
                  && result.value.line == RequestLine(ToMethod(httpMethod), path, QueryMeaning(query), version)
                  && FirstWins(result.value.headers, fields)
                  && (DistinctNames(fields) ==> ExactMap(result.value.headers, fields)))
  {
    hide ParseHeaders, Clean, RenderTarget, ParseTarget, QueryMeaning, Render, CleanTarget, FirstWins, ExactMap;
    var target := RenderTarget(path, query);
    RequestRoundTrips(httpMethod, target, version, fields, limits);
    if Acceptable(httpMethod, target, version, fields, limits) {
      AnyTargetRoundTrips(ToMethod(httpMethod), path, query, version);
    }
  }
}
