/**
 What requests mean, in terms of their text alone: which header lines and request lines there are, which status each
 broken rule is answered with, when a connection is kept, and which cookies and query keys a request has. Names and
 characters are spelled out here, so that each statement can be read without `HttpRequest`.
 */
module RequestLaws {
  import opened Prelude
  import opened Text
  import opened Decimal
  import opened HttpTypes
  import opened HttpLimits
  import opened HttpRequest
  import opened HeaderBlock
  import opened RequestRoundTrip

  // ---------- characters ----------

  /** Token characters are the visible ones that are no delimiter (section 5.6.2 of RFC 9110). */
  lemma TokenIsVisible(c: char)
    ensures TokenChar(c) <==> 33 <= c as int <= 126 && c !in "\"(),/:;<=>?@[\\]{}"
  {
  }

  predicate Padding(s: string) {
    forall i :: 0 <= i < |s| ==> s[i] in " \t"
  }

  /** No padding at either end. */
  predicate Bare(s: string) {
    s == "" || (s[0] !in " \t" && s[|s| - 1] !in " \t")
  }

  /** No control character other than a tab. */
  predicate Printable(s: string) {
    forall i :: 0 <= i < |s| ==> s[i] == '\t' || (32 <= s[i] as int && s[i] as int != 127)
  }

  // ---------- header lines ----------

  ghost predicate IsFieldLine(line: string, f: Field, left: string, right: string) {
    && line == f.name + ":" + left + f.value + right
    && Token(f.name) && Padding(left) && Padding(right) && Bare(f.value) && Printable(f.value)
  }

  ghost predicate NoFieldLine(line: string) {
    forall f, left, right :: !IsFieldLine(line, f, left, right)
  }

  /** A line is a header field exactly when it is a token, a colon and a printable value between padding. */
  lemma FieldLines(line: string, f: Field)
    ensures ParseField(line) == Some(f) <==> exists left, right :: IsFieldLine(line, f, left, right)
  {
    hide ParseField, IsFieldLine;
    if ParseField(line) == Some(f) {
      var left, right := FieldLineSplits(line, f);
    }
    if left, right :| IsFieldLine(line, f, left, right) {
      FieldLineParses(line, f, left, right);
    }
  }

  lemma FieldLineSplits(line: string, f: Field) returns (left: string, right: string)
    requires ParseField(line) == Some(f)
    ensures IsFieldLine(line, f, left, right)
  {
    hide Token, Trim;
    var colon := FindChar(line, ':').value;
    left, right := TrimSplits(line[colon + 1..]);
    assert line == line[..colon] + ":" + line[colon + 1..];
    assert line[colon + 1..] == left + f.value + right;
  }

  lemma FieldLineParses(line: string, f: Field, left: string, right: string)
    requires IsFieldLine(line, f, left, right)
    ensures ParseField(line) == Some(f)
  {
    hide Token, Trim;
    TokenHas(f.name, ':');
    FirstChar(line, ':', |f.name|);
    assert line[..|f.name|] == f.name;
    assert line[|f.name| + 1..] == left + f.value + right;
    TrimPadded(left, f.value, right);
  }

  // ---------- request lines ----------

  predicate HexDigit(c: char) {
    c in "0123456789abcdefABCDEF"
  }

  /** Visible and no `#`; and when it is `%`, followed by two hexadecimal digits. */
  predicate TargetChar(t: string, i: nat)
    requires i < |t|
  {
    && 33 <= t[i] as int <= 126 && t[i] != '#'
    && (t[i] == '%' ==> i + 2 < |t| && HexDigit(t[i + 1]) && HexDigit(t[i + 2]))
  }

  predicate Target(httpMethod: string, t: string) {
    && t != "" && (t[0] == '/' || (t == "*" && httpMethod == "OPTIONS")) 
    && forall i :: 0 <= i < |t| ==> TargetChar(t, i)
  }

  predicate Version(v: string) {
    v in ["HTTP/1.1", "HTTP/1.0"]
  }

  lemma HexDigits(c: char)
    ensures HexDigit(c) <==> Hex(c)
  {
  }

  lemma TargetIsValid(httpMethod: string, t: string)
    ensures Target(httpMethod, t) <==> ValidTarget(ToMethod(httpMethod), t)
  {
    hide HexDigit, Hex, ToMethod;
    forall i | 0 <= i < |t| ensures TargetChar(t, i) <==> TargetCharOk(t, i) {
      if i + 2 < |t| {
        HexDigits(t[i + 1]);
        HexDigits(t[i + 2]);
      }
    }
    MethodsAreNames(httpMethod, "OPTIONS");
  }

  lemma VersionIsSupported(v: string)
    ensures Version(v) <==> Supported(v)
  {
  }

  ghost predicate IsRequestLine(line: string, httpMethod: string, target: string, version: string) {
    line == httpMethod + " " + target + " " + version && Token(httpMethod) && Without(target, ' ')
  }

  /**
   Three parts between single spaces make a request line, the first a token. It is answered 505 exactly when the
   version is another, and 400 when only the target is wrong; any other line is answered 400.
   */
  lemma RequestLines(line: string)
    ensures (exists m, t, v :: IsRequestLine(line, m, t, v) && Version(v) && Target(m, t))
       <==> ParseRequestLine(line).Ok?
    ensures (exists m, t, v :: IsRequestLine(line, m, t, v) && !Version(v)) <==> ParseRequestLine(line) == Rejected(505)
    ensures forall m, t, v :: IsRequestLine(line, m, t, v) && ParseRequestLine(line).Ok? ==>
              var l := ParseRequestLine(line).value; l.httpMethod == ToMethod(m) && l.version == v
  {
    hide Version, Supported, Target, ValidTarget, Token;
    if exists m, t, v :: IsRequestLine(line, m, t, v) {
      forall m, t, v | IsRequestLine(line, m, t, v)
        ensures ParseRequestLine(line) == ParseTarget(ToMethod(m), t, v)
      {
        RequestLineRoundTrip(m, t, v);
      }
    }
    if !ParseRequestLine(line).Rejected? || ParseRequestLine(line) == Rejected(505) {
      var m, t, v := SplitLine(line);
      RequestLineRoundTrip(m, t, v);
    }
    forall m, t, v | IsRequestLine(line, m, t, v)
      ensures Version(v) <==> Supported(v)
      ensures Target(m, t) <==> ValidTarget(ToMethod(m), t)
    {
      VersionIsSupported(v);
      TargetIsValid(m, t);
    }
  }

  lemma SplitLine(line: string) returns (m: string, t: string, v: string)
    requires ParseRequestLine(line) != Rejected(400)
    ensures IsRequestLine(line, m, t, v)
  {
    hide Token, ParseTarget;
    var s1 := FindChar(line, ' ').value;
    m := line[..s1];
    var rest := line[s1 + 1..];
    var s2 := FindChar(rest, ' ').value;
    t, v := rest[..s2], rest[s2 + 1..];
    assert rest == t + " " + v;
    assert line == m + " " + rest;
  }

  // ---------- the status of each broken rule ----------

  predicate Repeats(fields: seq<Field>, name: string) {
    exists i, j :: 0 <= i < j < |fields| && Fold(fields[i].name) == name && Fold(fields[j].name) == name
  }

  /** A name that may occur once occurs twice. */
  predicate RepeatsSingle(fields: seq<Field>) {
    Repeats(fields, "content-length") || Repeats(fields, "host") || Repeats(fields, "transfer-encoding")
  }

  lemma RepeatedSingles(fields: seq<Field>)
    ensures RepeatsSingle(fields) <==> !SinglesOnce(fields)
  {
    hide Fold;
  }

  /** Required by HTTP/1.1, and visible without delimiters of a path, a user name or a list. */
  predicate Host(version: string, host: string) {
    && (version == "HTTP/1.1" ==> host != "")
    && forall i :: 0 <= i < |host| ==> 33 <= host[i] as int <= 126 && host[i] !in ['/', '\\', '@', ',', '?', '#']
  }

  lemma HostIsText(version: string, host: string)
    ensures Host(version, host) <==> (version == "HTTP/1.1" ==> host != "") && HostText(host)
  {
    assert forall c :: HostChar(c) <==> 33 <= c as int <= 126 && c !in ['/', '\\', '@', ',', '?', '#'];
  }

  /** Small enough, in a known version, for a good target, without repetitions and with a good Host. */
  ghost predicate GoodStart(httpMethod: string, target: string, version: string, fields: seq<Field>, limits: Limits) {
    && |Render(httpMethod, target, version, fields)| <= limits.maxHeaderBytes
    && Version(version) && Target(httpMethod, target) && !RepeatsSingle(fields)
    && Host(version, FirstValue(fields, "host"))
  }

  /** A length of the body, in 64 bits; none is 0. */
  predicate Length(text: string) {
    AllDigits(text) && Value(text) < 0x1_0000_0000_0000_0000
  }

  ghost function Parsed(httpMethod: string, target: string, version: string, fields: seq<Field>, limits: Limits)
    : Result<Request>
  {
    ParseHeaders(Render(httpMethod, target, version, fields), limits)
  }

  /** Each status is given to exactly these requests: the rules are checked in this order. */
  lemma StatusOfEachRule(httpMethod: string, target: string, version: string, fields: seq<Field>, limits: Limits)
    requires Clean(httpMethod, target, version, fields)
    ensures var r := Parsed(httpMethod, target, version, fields, limits);
            var fits := |Render(httpMethod, target, version, fields)| <= limits.maxHeaderBytes;
            var good := GoodStart(httpMethod, target, version, fields, limits);
            var coding, length := FirstValue(fields, "transfer-encoding"), FirstValue(fields, "content-length");
            && (r == Rejected(431) <==> !fits)
            && (r == Rejected(505) <==> fits && !Version(version))
            && (r == Rejected(501) <==> good && coding != "" && length == "")
            && (r == Rejected(413) <==> good && coding == "" && Length(length) && Value(length) > limits.maxBodyBytes)
            && (r == Rejected(417) <==>
                  && good && coding == "" && Length(length) && Value(length) <= limits.maxBodyBytes
                  && FirstValue(fields, "expect") != "")
            && (r == Rejected(400) <==>
                  && fits && Version(version)
                  && (!good || (coding != "" && length != "") || (coding == "" && !Length(length))))
  {
    hide Render, Clean, FirstValue, RepeatsSingle, SinglesOnce, Host, HostText, Target, ValidTarget, Version, Supported,
         Value, ParseHeaders, Collect, Finish;
    ParseOfRender(httpMethod, target, version, fields, limits);
    VersionIsSupported(version);
    TargetIsValid(httpMethod, target);
    RepeatedSingles(fields);
    HostIsText(version, FirstValue(fields, "host"));
    CollectKeepsFirst(fields);
    if Collect(fields).Ok? && ParseTarget(ToMethod(httpMethod), target, version).Ok? {
      FinishStatus(ParseTarget(ToMethod(httpMethod), target, version).value, Collect(fields).value, fields, limits);
    }
  }

  lemma FinishStatus(line: RequestLine, headers: HeaderMap, fields: seq<Field>, limits: Limits)
    requires FirstWins(headers, fields)
    ensures var r := Finish(line, headers, limits);
            var host := FirstValue(fields, "host");
            var hostOk := (line.version == "HTTP/1.1" ==> host != "") && HostText(host);
            var coding, length := FirstValue(fields, "transfer-encoding"), FirstValue(fields, "content-length");
            && (r == Rejected(501) <==> hostOk && coding != "" && length == "")
            && (r == Rejected(413) <==> hostOk && coding == "" && Length(length) && Value(length) > limits.maxBodyBytes)
            && (r == Rejected(417) <==>
                  && hostOk && coding == "" && Length(length) && Value(length) <= limits.maxBodyBytes
                  && FirstValue(fields, "expect") != "")
            && (r == Rejected(400) <==>
                  !hostOk || (coding != "" && length != "") || (coding == "" && !Length(length)))
            && r != Rejected(431) && r != Rejected(505)
  {
    hide FirstValue, FirstWins, Header, Fold, HostText;
    FoldedNames();
    HeaderIsFirstValue(headers, fields, "host");
    HeaderIsFirstValue(headers, fields, "transfer-encoding");
    HeaderIsFirstValue(headers, fields, "content-length");
    HeaderIsFirstValue(headers, fields, "expect");
    assert Value("") == 0;
  }

  /**
   Of any block, printed or not: one that does not end in CRLFCRLF is answered 400, and so is one with a line after the
   first that is no field, unless its version is answered before.
   */
  lemma MalformedBlocks(raw: string, limits: Limits, i: nat)
    requires |raw| <= limits.maxHeaderBytes
    ensures !EndsBlank(raw) ==> ParseHeaders(raw, limits) == Rejected(400)
    ensures EndsBlank(raw) && 0 < i < |Lines(raw)| && NoFieldLine(Lines(raw)[i]) ==>
              ParseHeaders(raw, limits) == if ParseRequestLine(Lines(raw)[0]) == Rejected(505) then Rejected(505)
                                           else Rejected(400)
  {
    hide IsFieldLine, ParseField, Lines, ParseRequestLine, Finish, Collect;
    if EndsBlank(raw) {
      BlockIsItsLines(raw, limits);
      if 0 < i < |Lines(raw)| && NoFieldLine(Lines(raw)[i]) {
        assert ParseField(Lines(raw)[i]).None? by {
          if ParseField(Lines(raw)[i]).Some? {
            FieldLines(Lines(raw)[i], ParseField(Lines(raw)[i]).value);
          }
        }
        assert Lines(raw)[1..][i - 1] == Lines(raw)[i];
      }
    }
  }

  // ---------- when the connection is kept ----------

  /** An element of a comma-separated list, with its padding. */
  datatype Element = Element(left: string, text: string, right: string)
  {
    predicate Clean() {
      && Padding(left) && Padding(right) && Bare(text)
      && forall i :: 0 <= i < |text| ==> text[i] != ','
    }

    function Printed(): string {
      left + text + right
    }
  }

  function Texts(elements: seq<Element>): (texts: seq<string>)
    ensures |texts| == |elements|
    ensures forall i :: 0 <= i < |elements| ==> texts[i] == elements[i].Printed()
  {
    seq(|elements|, i requires 0 <= i < |elements| => elements[i].Printed())
  }

  function ListText(elements: seq<Element>): string {
    Glue(Texts(elements), ',')
  }

  /** Some element is this word, in any case. */
  predicate Says(elements: seq<Element>, word: string) {
    exists i :: 0 <= i < |elements| && Fold(elements[i].text) == word
  }

  lemma ElementTrims(e: Element)
    requires e.Clean()
    ensures Trim(e.Printed()) == e.text && Without(e.Printed(), ',')
  {
    TrimPadded(e.left, e.text, e.right);
  }

  lemma ListContains(elements: seq<Element>, word: string)
    requires forall i :: 0 <= i < |elements| ==> elements[i].Clean()
    requires word != "" && Fold(word) == word
    ensures ContainsToken(ListText(elements), word) <==> Says(elements, word)
  {
    hide Pieces, Trim, Glue, Element.Clean, Element.Printed, Fold;
    var texts := Texts(elements);
    forall i | 0 <= i < |elements| ensures Trim(texts[i]) == elements[i].text && Without(texts[i], ',') {
      ElementTrims(elements[i]);
    }
    PiecesOfGlue(texts, ',');
    var pieces := Pieces(ListText(elements), ',');
    if i :| 0 <= i < |elements| && Fold(elements[i].text) == word {
      assert texts[i] != "" by {
        FoldOfNothing();
        TrimOfNothing();
      }
      assert pieces[i] == texts[i];
    }
    if i :| 0 <= i < |pieces| && Fold(Trim(pieces[i])) == Fold(word) {
      assert pieces[i] == texts[i];
    }
  }

  lemma FoldOfNothing()
    ensures Fold("") == ""
  {
  }

  lemma TrimOfNothing()
    ensures Trim("") == ""
  {
  }

  /** What a client asks for: to close, or, before HTTP/1.1, not to keep the connection. */
  predicate AsksToClose(version: string, elements: seq<Element>) {
    Says(elements, "close") || (version == "HTTP/1.0" && !Says(elements, "keep-alive"))
  }

  lemma KeptExactlyUnlessAsked(version: string, elements: seq<Element>)
    requires Version(version) && forall i :: 0 <= i < |elements| ==> elements[i].Clean()
    ensures KeepAlive(version, ListText(elements)) <==> !AsksToClose(version, elements)
  {
    hide Says, ContainsToken, ListText;
    assert Fold("close") == "close" && Fold("keep-alive") == "keep-alive";
    ListContains(elements, "close");
    ListContains(elements, "keep-alive");
  }

  // ---------- query and cookies ----------

  /** What stands between separators: a key and a value around the first `=`, with padding, or a text without `=`. */
  datatype Part =
    | Bound(left: string, key: string, afterKey: string, beforeValue: string, value: string, right: string)
    | Unbound(text: string)
  {
    function Printed(): string {
      match this
      case Bound(_, _, _, _, _, _) => left + key + afterKey + "=" + beforeValue + value + right
      case Unbound(_) => text
    }

    ghost predicate Clean(sep: char) {
      Without(Printed(), sep) && match this
        case Bound(_, _, _, _, _, _) =>
          && Padding(left) && Padding(afterKey) && Padding(beforeValue) && Padding(right)
          && Bare(key) && Bare(value) && Without(key, '=')
        case Unbound(_) => Without(text, '=')
    }

    /** The text of a key or a value is everything between the separators. */
    ghost predicate Tight(sep: char) {
      Without(Printed(), sep) && match this
        case Bound(_, _, _, _, _, _) =>
          left == "" && afterKey == "" && beforeValue == "" && right == "" && Without(key, '=')
        case Unbound(_) => Without(text, '=')
    }
  }

  function PartTexts(parts: seq<Part>): (texts: seq<string>)
    ensures |texts| == |parts|
    ensures forall i :: 0 <= i < |parts| ==> texts[i] == parts[i].Printed()
  {
    seq(|parts|, i requires 0 <= i < |parts| => parts[i].Printed())
  }

  /** The pairs among the parts, in order. */
  function Pairs(parts: seq<Part>): seq<Pair> {
    if parts == [] then []
    else
      var last := parts[|parts| - 1];
      Pairs(parts[..|parts| - 1]) + if last.Bound? then [Pair(last.key, last.value)] else []
  }

  lemma LastWinsStep(pairs: seq<Pair>, pair: Pair)
    ensures LastWins(pairs + [pair]) == LastWins(pairs)[pair.key := pair.value]
    ensures LastWins(pairs + []) == LastWins(pairs)
  {
    assert pairs + [] == pairs;
  }

  lemma CookiePart(m: map<string, string>, part: Part)
    requires part.Clean(';')
    ensures AddCookie(m, part.Printed()) == if part.Bound? then m[part.key := part.value] else m
  {
    hide Trim;
    if part.Bound? {
      var text, key := part.Printed(), part.left + part.key + part.afterKey;
      var value := part.beforeValue + part.value + part.right;
      assert text == key + "=" + value;
      NoEqualsInKey(part, ';');
      FirstChar(text, '=', |key|);
      assert text[..|key|] == key && text[|key| + 1..] == value;
      TrimPadded(part.left, part.key, part.afterKey);
      TrimPadded(part.beforeValue, part.value, part.right);
    } else {
      NoEquals(part.text);
    }
  }

  lemma NoEqualsInKey(part: Part, sep: char)
    requires part.Clean(sep) && part.Bound?
    ensures Without(part.left + part.key + part.afterKey, '=')
  {
  }

  lemma NoEquals(text: string)
    requires Without(text, '=')
    ensures FindChar(text, '=').None?
  {
  }

  lemma QueryPart(m: map<string, string>, part: Part)
    requires part.Tight('&')
    ensures AddPair(m, part.Printed()) == if part.Bound? then m[part.key := part.value] else m
  {
    if part.Bound? {
      var text := part.Printed();
      assert text == part.key + "=" + part.value;
      FirstChar(text, '=', |part.key|);
      assert text[..|part.key|] == part.key && text[|part.key| + 1..] == part.value;
    } else {
      NoEquals(part.text);
    }
  }

  lemma {:induction false} CookieMapOfParts(parts: seq<Part>)
    requires forall i :: 0 <= i < |parts| ==> parts[i].Clean(';')
    ensures CookieMap(PartTexts(parts)) == LastWins(Pairs(parts))
  {
    hide AddCookie, Part.Clean, Part.Printed, LastWins;
    if parts != [] {
      var n := |parts| - 1;
      CookieMapOfParts(parts[..n]);
      assert PartTexts(parts) == PartTexts(parts[..n]) + [parts[n].Printed()];
      CookieMapStep(PartTexts(parts[..n]), parts[n].Printed());
      CookiePart(CookieMap(PartTexts(parts[..n])), parts[n]);
      LastWinsStep(Pairs(parts[..n]), if parts[n].Bound? then Pair(parts[n].key, parts[n].value) else Pair("", ""));
    } else {
      LastWinsOfNone();
    }
  }

  lemma {:induction false} QueryMapOfParts(parts: seq<Part>)
    requires forall i :: 0 <= i < |parts| ==> parts[i].Tight('&')
    ensures QueryMap(PartTexts(parts)) == LastWins(Pairs(parts))
  {
    hide AddPair, Part.Tight, Part.Printed, LastWins;
    if parts != [] {
      var n := |parts| - 1;
      QueryMapOfParts(parts[..n]);
      assert PartTexts(parts) == PartTexts(parts[..n]) + [parts[n].Printed()];
      QueryMapStep(PartTexts(parts[..n]), parts[n].Printed());
      QueryPart(QueryMap(PartTexts(parts[..n])), parts[n]);
      LastWinsStep(Pairs(parts[..n]), if parts[n].Bound? then Pair(parts[n].key, parts[n].value) else Pair("", ""));
    } else {
      LastWinsOfNone();
    }
  }

  lemma LastWinsOfNone()
    ensures LastWins([]) == map[]
  {
  }

  /** Gluing parts and cutting the text again gives the parts, apart from an empty last one, which binds nothing. */
  lemma PartsOfGlue(parts: seq<Part>, sep: char)
    requires forall i :: 0 <= i < |parts| ==> Without(parts[i].Printed(), sep)
    ensures exists n :: 0 <= n <= |parts| && Pairs(parts[..n]) == Pairs(parts)
              && Pieces(Glue(PartTexts(parts), sep), sep) == PartTexts(parts[..n])
  {
    hide Pieces, Glue, Without;
    PiecesOfGlue(PartTexts(parts), sep);
    if parts != [] && parts[|parts| - 1].Printed() == "" {
      var n := |parts| - 1;
      NothingIsUnbound(parts[n]);
      assert Pairs(parts[..n]) == Pairs(parts);
      assert PartTexts(parts)[..n] == PartTexts(parts[..n]);
    } else {
      assert parts[..|parts|] == parts;
    }
  }

  lemma NothingIsUnbound(part: Part)
    requires part.Printed() == ""
    ensures part.Unbound?
  {
  }

  /** Cookies: the last value of each name, without padding; what has no `=` is passed over. */
  lemma CookiesOfParts(parts: seq<Part>)
    requires forall i :: 0 <= i < |parts| ==> parts[i].Clean(';')
    ensures Cookies(Glue(PartTexts(parts), ';')) == LastWins(Pairs(parts))
  {
    hide Pieces, Glue, Part.Printed, Without, LastWins, CookieMap;
    PartsOfGlue(parts, ';');
    var n :| 0 <= n <= |parts| && Pairs(parts[..n]) == Pairs(parts)
             && Pieces(Glue(PartTexts(parts), ';'), ';') == PartTexts(parts[..n]);
    CookieMapOfParts(parts[..n]);
  }

  /** The query: the last value of each key as it stands; what has no `=` is passed over. */
  lemma QueryOfParts(parts: seq<Part>)
    requires forall i :: 0 <= i < |parts| ==> parts[i].Tight('&')
    ensures QueryMap(Pieces(Glue(PartTexts(parts), '&'), '&')) == LastWins(Pairs(parts))
  {
    hide Pieces, Glue, Part.Printed, Without, LastWins, QueryMap;
    PartsOfGlue(parts, '&');
    var n :| 0 <= n <= |parts| && Pairs(parts[..n]) == Pairs(parts)
             && Pieces(Glue(PartTexts(parts), '&'), '&') == PartTexts(parts[..n]);
    QueryMapOfParts(parts[..n]);
  }

  // ---------- all of it ----------

  /** A request in parts. */
  ghost predicate Prints(path: string, query: seq<Part>, connection: seq<Element>, cookies: seq<Part>, version: string,
      fields: seq<Field>)
  {
    && Without(path, '?') && Version(version)
    && (forall i :: 0 <= i < |query| ==> query[i].Tight('&'))
    && (forall i :: 0 <= i < |connection| ==> connection[i].Clean())
    && (forall i :: 0 <= i < |cookies| ==> cookies[i].Clean(';'))
    && FirstValue(fields, "connection") == ListText(connection)
    && FirstValue(fields, "cookie") == Glue(PartTexts(cookies), ';')
  }

  /** A request that is accepted means what its parts say. */
  lemma MeaningOfParts(httpMethod: string, path: string, query: seq<Part>, connection: seq<Element>, cookies: seq<Part>,
      version: string, fields: seq<Field>, limits: Limits)
    requires Prints(path, query, connection, cookies, version, fields)
    requires var target := path + "?" + Glue(PartTexts(query), '&');
             && Clean(httpMethod, target, version, fields)
             && Parsed(httpMethod, target, version, fields, limits).Ok?
    ensures var r := Parsed(httpMethod, path + "?" + Glue(PartTexts(query), '&'), version, fields, limits).value;
            && r.line.path == path && r.line.version == version
            && (r.line.httpMethod == HEAD <==> httpMethod == "HEAD")
            && r.line.query == LastWins(Pairs(query))
            && r.cookies == LastWins(Pairs(cookies))
            && (r.keepAlive <==> !AsksToClose(version, connection))
  {
    hide Render, Clean, FirstValue, Glue, ParseHeaders, Pieces, QueryMap, LastWins, ListText, AsksToClose, Cookies,
         KeepAlive, ParseTarget, Version, ToMethod, Element.Clean, Part.Clean, Part.Tight, Part.Printed, Acceptable;
    var text := Glue(PartTexts(query), '&');
    var target := path + "?" + text;
    RequestRoundTrips(httpMethod, target, version, fields, limits);
    SplitsAtQuery(httpMethod, path, text, version, fields, limits);
    QueryOfParts(query);
    CookiesOfParts(cookies);
    KeptExactlyUnlessAsked(version, connection);
    MethodsAreNames(httpMethod, "HEAD");
  }

  lemma SplitsAtQuery(httpMethod: string, path: string, text: string, version: string, fields: seq<Field>,
      limits: Limits)
    requires Without(path, '?') && Acceptable(httpMethod, path + "?" + text, version, fields, limits)
    ensures ParseTarget(ToMethod(httpMethod), path + "?" + text, version)
         == Ok(RequestLine(ToMethod(httpMethod), path, QueryMap(Pieces(text, '&')), version))
  {
    hide Render, FirstValue, Pieces, QueryMap, ToMethod, ParseTarget, Without;
    TargetSplits(ToMethod(httpMethod), path, text, version);
  }
}
