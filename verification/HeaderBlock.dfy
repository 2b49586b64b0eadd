/**
 What the header loop amounts to: a header block is a list of lines, a list of lines is a list of
 fields, and the header map keeps the first field of each name.
 */
module HeaderBlock {
  import opened Prelude
  import opened Text
  import opened Decimal
  import opened HttpTypes
  import opened HttpLimits
  import opened HttpRequest

  predicate AllFields(lines: seq<string>) {
    forall i :: 0 <= i < |lines| ==> ParseField(lines[i]).Some?
  }

  function FieldsOf(lines: seq<string>): (fields: seq<Field>)
    requires AllFields(lines)
    ensures |fields| == |lines|
    ensures forall i :: 0 <= i < |lines| ==> ParseField(lines[i]) == Some(fields[i])
  {
    seq(|lines|, i requires 0 <= i < |lines| => ParseField(lines[i]).value)
  }

  /** No two fields share one of the names that may occur once. */
  ghost predicate SinglesOnce(fields: seq<Field>) {
    forall i, j :: 0 <= i < j < |fields| && Fold(fields[i].name) == Fold(fields[j].name)
      ==> !Single(Fold(fields[i].name))
  }

  ghost predicate IsFirst(fields: seq<Field>, i: int) {
    0 <= i < |fields| && forall j :: 0 <= j < i ==> Fold(fields[j].name) != Fold(fields[i].name)
  }

  /** The map holds exactly the names of the list, each with its first field. */
  ghost predicate FirstWins(headers: HeaderMap, fields: seq<Field>) {
    && (forall i :: 0 <= i < |fields| ==> Fold(fields[i].name) in headers)
    && (forall k <- headers :: exists i :: IsFirst(fields, i) && Fold(fields[i].name) == k && headers[k] == fields[i])
  }

  /** Every list of fields determines one such map. */
  lemma FirstWinsUnique(a: HeaderMap, b: HeaderMap, fields: seq<Field>)
    requires FirstWins(a, fields) && FirstWins(b, fields)
    ensures a == b
  {
  }

  function Collect(fields: seq<Field>): Result<HeaderMap> {
    if fields == [] then Ok(map[])
    else match Collect(fields[..|fields| - 1])
      case Rejected(status) => Rejected(status)
      case Ok(headers) => AddField(headers, fields[|fields| - 1])
  }

  lemma CollectStep(fields: seq<Field>, f: Field)
    ensures Collect(fields + [f]) == match Collect(fields)
                                     case Rejected(status) => Rejected(status)
                                     case Ok(headers) => AddField(headers, f)
  {
  }

  lemma {:induction false} CollectRejects(fields: seq<Field>, more: seq<Field>)
    requires Collect(fields).Rejected?
    ensures Collect(fields) == Rejected(400) && Collect(fields + more) == Rejected(400)
    decreases |fields| + |more|
  {
    if more == [] {
      assert fields + more == fields;
      var front := fields[..|fields| - 1];
      if Collect(front).Rejected? {
        CollectRejects(front, []);
      }
    } else {
      var front := more[..|more| - 1];
      CollectRejects(fields, front);
      assert fields + more == fields + front + [more[|more| - 1]];
      CollectStep(fields + front, more[|more| - 1]);
    }
  }

  /** A list of fields is accepted exactly when no single name recurs, and then the first values win. */
  lemma {:induction false} CollectKeepsFirst(fields: seq<Field>)
    ensures Collect(fields).Ok? <==> SinglesOnce(fields)
    ensures Collect(fields).Ok? ==> FirstWins(Collect(fields).value, fields)
    ensures Collect(fields).Rejected? ==> Collect(fields) == Rejected(400)
  {
    hide SinglesOnce, FirstWins, Fold;
    if fields == [] {
      NoFields();
    } else {
      var n := |fields| - 1;
      var front, last := fields[..n], fields[n];
      assert fields == front + [last];
      CollectKeepsFirst(front);
      if Collect(front).Ok? {
        AddKeepsFirst(Collect(front).value, front, last);
      } else {
        RepeatStays(front, last);
      }
    }
  }

  lemma NoFields()
    ensures SinglesOnce([]) && FirstWins(map[], [])
  {
  }

  lemma RepeatStays(front: seq<Field>, last: Field)
    requires !SinglesOnce(front)
    ensures !SinglesOnce(front + [last])
  {
    var i, j :| 0 <= i < j < |front| && Fold(front[i].name) == Fold(front[j].name) && Single(Fold(front[i].name));
    var fields := front + [last];
    assert fields[i] == front[i] && fields[j] == front[j];
  }

  lemma NewNameKeepsFirst(headers: HeaderMap, front: seq<Field>, last: Field)
    requires FirstWins(headers, front) && Fold(last.name) !in headers
    ensures FirstWins(headers[Fold(last.name) := last], front + [last])
  {
    var fields, n, key := front + [last], |front|, Fold(last.name);
    var more := headers[key := last];
    assert IsFirst(fields, n) && fields[n] == last;
    forall k | k in more
      ensures exists i :: IsFirst(fields, i) && Fold(fields[i].name) == k && more[k] == fields[i]
    {
      if k != key {
        var i :| IsFirst(front, i) && Fold(front[i].name) == k && headers[k] == front[i];
        FirstStaysFirst(front, last, i);
      }
    }
  }

  lemma KnownNameKeepsFirst(headers: HeaderMap, front: seq<Field>, last: Field)
    requires FirstWins(headers, front) && Fold(last.name) in headers
    ensures FirstWins(headers, front + [last])
  {
    var fields := front + [last];
    forall k | k in headers
      ensures exists i :: IsFirst(fields, i) && Fold(fields[i].name) == k && headers[k] == fields[i]
    {
      var i :| IsFirst(front, i) && Fold(front[i].name) == k && headers[k] == front[i];
      FirstStaysFirst(front, last, i);
    }
  }

  lemma FirstStaysFirst(front: seq<Field>, last: Field, i: int)
    requires IsFirst(front, i)
    ensures IsFirst(front + [last], i) && (front + [last])[i] == front[i]
  {
  }

  /** One more field breaks the rule on single names exactly when its name is one of them and is there already. */
  lemma SinglesOnceStep(headers: HeaderMap, front: seq<Field>, last: Field)
    requires FirstWins(headers, front) && SinglesOnce(front)
    ensures SinglesOnce(front + [last]) <==> Fold(last.name) !in headers || !Single(Fold(last.name))
  {
    var fields, n, key := front + [last], |front|, Fold(last.name);
    assert fields[n] == last && forall i :: 0 <= i < n ==> fields[i] == front[i];
    if key in headers {
      var i :| IsFirst(front, i) && Fold(front[i].name) == key;
      assert fields[i] == front[i];
    }
  }

  lemma AddKeepsFirst(headers: HeaderMap, front: seq<Field>, last: Field)
    requires FirstWins(headers, front) && SinglesOnce(front)
    ensures AddField(headers, last).Ok? <==> SinglesOnce(front + [last])
    ensures AddField(headers, last).Ok? ==> FirstWins(AddField(headers, last).value, front + [last])
  {
    hide FirstWins, SinglesOnce, Fold;
    SinglesOnceStep(headers, front, last);
    if Fold(last.name) in headers {
      KnownNameKeepsFirst(headers, front, last);
    } else {
      NewNameKeepsFirst(headers, front, last);
    }
  }

  lemma FirstField(line: string, rest: seq<string>)
    ensures AllFields([line] + rest) <==> ParseField(line).Some? && AllFields(rest)
    ensures AllFields([line] + rest) ==> FieldsOf([line] + rest) == [ParseField(line).value] + FieldsOf(rest)
  {
    var lines := [line] + rest;
    assert lines[0] == line;
    assert forall i :: 0 <= i < |rest| ==> lines[i + 1] == rest[i];
  }

  /** What the loop computes from the fields seen so far and the lines still to come. */
  function Remaining(seen: seq<Field>, lines: seq<string>): Result<HeaderMap> {
    if AllFields(lines) then Collect(seen + FieldsOf(lines)) else Rejected(400)
  }

  lemma RemainingStep(seen: seq<Field>, line: string, rest: seq<string>)
    requires Collect(seen).Ok?
    ensures Remaining(seen, [line] + rest) ==
            match ParseField(line)
            case None => Rejected(400)
            case Some(f) =>
              match AddField(Collect(seen).value, f)
              case Rejected(_) => Rejected(400)
              case Ok(_) => Remaining(seen + [f], rest)
  {
    hide ParseField, AddField, Fold, Collect, AllFields;
    FirstField(line, rest);
    if ParseField(line).Some? && AllFields(rest) {
      var f, fields := ParseField(line).value, FieldsOf(rest);
      CollectStep(seen, f);
      assert seen + ([f] + fields) == (seen + [f]) + fields;
      if Collect(seen + [f]).Rejected? {
        CollectRejects(seen + [f], fields);
      }
    }
  }

  /** The loop over what is left of the block is the collection of its lines. */
  lemma {:induction false} FieldsByLines(head: string, seen: seq<Field>, headers: HeaderMap)
    requires Terminated(head) && Collect(seen) == Ok(headers)
    ensures ParseFields(head, headers) == Remaining(seen, Lines(head))
    decreases |head|
  {
    if head == CRLF {
      assert seen + FieldsOf([]) == seen;
    } else {
      CutLine(head);
      var e := FindCrlf(head).value;
      var line, rest := head[..e], head[e + 2..];
      RemainingStep(seen, line, Lines(rest));
      match ParseField(line)
      case None =>
      case Some(f) =>
        CollectStep(seen, f);
        match AddField(headers, f)
        case Rejected(_) =>
        case Ok(more) => FieldsByLines(rest, seen + [f], more);
    }
  }

  /** The verdict on a block given as lines. */
  function Judge(lines: seq<string>, limits: Limits): Result<Request>
    requires lines != []
  {
    match ParseRequestLine(lines[0])
    case Rejected(status) => Rejected(status)
    case Ok(line) =>
      if !AllFields(lines[1..]) then Rejected(400)
      else match Collect(FieldsOf(lines[1..]))
        case Rejected(status) => Rejected(status)
        case Ok(headers) => Finish(line, headers, limits)
  }

  /**
   Every block that ends in CRLFCRLF is cut into CRLF-free lines that rejoin to it, and parsing it is
   judging those lines: no byte is skipped, read twice or read in another order.
   */
  lemma BlockIsItsLines(raw: string, limits: Limits)
    requires EndsBlank(raw) && |raw| <= limits.maxHeaderBytes
    ensures var lines := Lines(raw);
            && lines != [] && Join(lines) + CRLF == raw
            && (forall i :: 0 <= i < |lines| ==> NoCrlf(lines[i]))
            && ParseHeaders(raw, limits) == Judge(lines, limits)
  {
    hide ParseField, ParseRequestLine, Finish, FindCrlf, ParseFields;
    LinesRejoin(raw);
    CutLine(raw);
    var e := FindCrlf(raw).value;
    var rest := raw[e + 2..];
    assert Lines(raw) == [raw[..e]] + Lines(rest);
    assert Lines(raw)[1..] == Lines(rest);
    FieldsByLines(rest, [], map[]);
    if AllFields(Lines(rest)) {
      assert [] + FieldsOf(Lines(rest)) == FieldsOf(Lines(rest));
    }
  }

  // ---------- what acceptance guarantees about the message length ----------

  /** The value of the first field of a name, empty when there is none. */
  function FirstValue(fields: seq<Field>, key: string): string {
    if fields == [] then ""
    else if Fold(fields[0].name) == key then fields[0].value
    else FirstValue(fields[1..], key)
  }

  lemma {:induction false} FirstValueIsFirst(fields: seq<Field>, key: string)
    ensures forall i :: IsFirst(fields, i) && Fold(fields[i].name) == key ==> FirstValue(fields, key) == fields[i].value
    ensures (forall i :: 0 <= i < |fields| ==> Fold(fields[i].name) != key) ==> FirstValue(fields, key) == ""
  {
    if fields != [] && Fold(fields[0].name) != key {
      FirstValueIsFirst(fields[1..], key);
      forall i | IsFirst(fields, i) && Fold(fields[i].name) == key
        ensures FirstValue(fields, key) == fields[i].value
      {
        assert IsFirst(fields[1..], i - 1);
      }
    }
  }

  lemma HeaderIsFirstValue(headers: HeaderMap, fields: seq<Field>, name: string)
    requires FirstWins(headers, fields)
    ensures Header(headers, name) == FirstValue(fields, Fold(name))
  {
    FirstValueIsFirst(fields, Fold(name));
    if Fold(name) in headers {
      var i :| IsFirst(fields, i) && Fold(fields[i].name) == Fold(name) && headers[Fold(name)] == fields[i];
    }
  }

  /** In a list where single names occur once, the first field of such a name is every field of it. */
  lemma SingleIsFirst(fields: seq<Field>, i: nat)
    requires SinglesOnce(fields) && i < |fields| && Single(Fold(fields[i].name))
    ensures IsFirst(fields, i)
    ensures forall j :: 0 <= j < |fields| && Fold(fields[j].name) == Fold(fields[i].name) ==> j == i
  {
  }

  /**
   An accepted block frames its message unambiguously: at most one Content-Length, Host and
   Transfer-Encoding line in any spelling, no non-empty Transfer-Encoding, and a body length that is the
   exact 64-bit value of the digits of the Content-Length line, or 0 when there is no such line or it
   is empty.
   */
  lemma FramingIsUnambiguous(raw: string, limits: Limits)
    requires ParseHeaders(raw, limits).Ok?
    ensures EndsBlank(raw) && AllFields(Lines(raw)[1..])
    ensures var n := ParseHeaders(raw, limits).value.contentLength;
            var fields := FieldsOf(Lines(raw)[1..]);
            && SinglesOnce(fields)
            && FirstWins(ParseHeaders(raw, limits).value.headers, fields)
            && (forall i :: 0 <= i < |fields| && Fold(fields[i].name) == "transfer-encoding" ==> fields[i].value == "")
            && (forall i :: 0 <= i < |fields| && Fold(fields[i].name) == "content-length" ==>
                  AllDigits(fields[i].value) && n == Value(fields[i].value))
            && ((forall i :: 0 <= i < |fields| ==> Fold(fields[i].name) != "content-length") ==> n == 0)
            && n < SIZE_LIMIT && n <= limits.maxBodyBytes
  {
    BlockIsItsLines(raw, limits);
    var lines := Lines(raw);
    var fields := FieldsOf(lines[1..]);
    CollectKeepsFirst(fields);
    var headers := Collect(fields).value;
    LengthFromFields(headers, fields, limits);
  }

  lemma LengthFromFields(headers: HeaderMap, fields: seq<Field>, limits: Limits)
    requires FirstWins(headers, fields) && SinglesOnce(fields)
    requires Header(headers, "transfer-encoding") == ""
    requires ContentLength(Header(headers, "content-length"), limits).Ok?
    ensures var n := ContentLength(Header(headers, "content-length"), limits).value;
            && (forall i :: 0 <= i < |fields| && Fold(fields[i].name) == "transfer-encoding" ==> fields[i].value == "")
            && (forall i :: 0 <= i < |fields| && Fold(fields[i].name) == "content-length" ==>
                  AllDigits(fields[i].value) && n == Value(fields[i].value))
            && ((forall i :: 0 <= i < |fields| ==> Fold(fields[i].name) != "content-length") ==> n == 0)
            && n < SIZE_LIMIT
  {
    assert Fold("transfer-encoding") == "transfer-encoding" && Fold("content-length") == "content-length";
    HeaderIsFirstValue(headers, fields, "transfer-encoding");
    HeaderIsFirstValue(headers, fields, "content-length");
    FirstValueIsFirst(fields, "content-length");
    assert Value("") == 0;
    forall i | 0 <= i < |fields| && Single(Fold(fields[i].name))
      ensures fields[i].value == Header(headers, Fold(fields[i].name))
    {
      FoldIdempotent(fields[i].name);
      HeaderIsFirstValue(headers, fields, fields[i].name);
      FirstValueIsFirst(fields, Fold(fields[i].name));
      SingleIsFirst(fields, i);
    }
  }

  /** Under limits that `validate` accepts, header size plus body length is a 64-bit size: it never wraps. */
  lemma RequestSizeFits(raw: string, limits: Limits)
    requires limits.Valid() && ParseHeaders(raw, limits).Ok?
    ensures |raw| + ParseHeaders(raw, limits).value.contentLength < SIZE_LIMIT
  {
  }
}
