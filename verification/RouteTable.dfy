/**
 Routes without a tree: paths as segments, patterns, and what a registered set of routes should answer.
 `Trie` is proved against this.
 */
module RouteTable {
  import opened Text

  /** A route handler is a plain function; which one is all that matters here. */
  type Handler = nat

  datatype Step = Static(text: string) | Wild

  type Pattern = seq<Step>

  // ---------- paths ----------

  /** The non-empty pieces between slashes. */
  function Segments(path: string): (parts: seq<string>)
    ensures forall i :: 0 <= i < |parts| ==> parts[i] != ""
    decreases |path|
  {
    if path == "" then []
    else if path[0] == '/' then Segments(path[1..])
    else match FindChar(path, '/')
      case None => [path]
      case Some(e) => [path[..e]] + Segments(path[e..])
  }

  /** A segment that starts with a colon is a parameter. */
  function StepOf(part: string): Step
    requires part != ""
  {
    if part[0] == ':' then Wild else Static(part)
  }

  function NameOf(part: string): string
    requires part != ""
  {
    part[1..]
  }

  ghost predicate Parts(parts: seq<string>) {
    forall i :: 0 <= i < |parts| ==> parts[i] != ""
  }

  function PatternOf(parts: seq<string>): (p: Pattern)
    requires Parts(parts)
    ensures |p| == |parts|
    ensures forall i :: 0 <= i < |parts| ==> p[i] == StepOf(parts[i])
  {
    seq(|parts|, i requires 0 <= i < |parts| => StepOf(parts[i]))
  }

  /** Writing segments behind slashes and cutting the path again gives the segments back. */
  function PathOf(parts: seq<string>): string {
    if parts == [] then "" else "/" + parts[0] + PathOf(parts[1..])
  }

  lemma {:induction false} SegmentsOfPath(parts: seq<string>)
    requires forall i :: 0 <= i < |parts| ==> parts[i] != "" && Without(parts[i], '/')
    ensures Segments(PathOf(parts)) == parts
  {
    hide Segments, Without;
    if parts == [] {
      NoSegments();
    } else {
      var rest := PathOf(parts[1..]);
      SegmentsOfPath(parts[1..]);
      FirstSegment(parts[0], rest);
      LeadingSlash(parts[0] + rest);
      assert PathOf(parts) == "/" + (parts[0] + rest);
      assert parts == [parts[0]] + parts[1..];
    }
  }

  lemma NoSegments()
    ensures Segments("") == []
  {
  }

  lemma LeadingSlash(path: string)
    ensures Segments("/" + path) == Segments(path)
  {
  }

  lemma FirstSegment(part: string, rest: string)
    requires part != "" && Without(part, '/') && (rest != "" ==> rest[0] == '/')
    ensures Segments(part + rest) == [part] + Segments(rest)
  {
    var path := part + rest;
    if rest == "" {
      assert path == part;
      assert FindChar(path, '/').None?;
    } else {
      FirstChar(path, '/', |part|);
      assert path[..|part|] == part && path[|part|..] == rest;
    }
  }

  function NonEmpty(texts: seq<string>): seq<string> {
    if texts == [] then [] else (if texts[0] == "" then [] else [texts[0]]) + NonEmpty(texts[1..])
  }

  /** Wherever slashes stand, doubled or at the ends, the segments are the texts between them that are not empty. */
  lemma {:induction false} SegmentsOfTexts(texts: seq<string>)
    requires forall i :: 0 <= i < |texts| ==> Without(texts[i], '/')
    ensures Segments(Glue(texts, '/')) == NonEmpty(texts)
  {
    hide Segments, Without;
    NoSegments();
    if |texts| == 1 {
      assert Glue(texts, '/') == texts[0] && texts[1..] == [];
      if texts[0] != "" {
        FirstSegment(texts[0], "");
        assert texts[0] + "" == texts[0];
      }
    } else if |texts| > 1 {
      var rest := Glue(texts[1..], '/');
      SegmentsOfTexts(texts[1..]);
      LeadingSlash(rest);
      assert Glue(texts, '/') == texts[0] + ("/" + rest);
      if texts[0] != "" {
        FirstSegment(texts[0], "/" + rest);
      } else {
        assert Glue(texts, '/') == "/" + rest;
      }
    }
  }

  // ---------- registrations ----------

  datatype Route = Route(path: string, handler: Handler)

  function RoutePattern(r: Route): Pattern {
    PatternOf(Segments(r.path))
  }

  /** The table: the last handler registered for each pattern. */
  function Table(routes: seq<Route>): map<Pattern, Handler> {
    if routes == [] then map[]
    else Table(routes[..|routes| - 1])[RoutePattern(routes[|routes| - 1]) := routes[|routes| - 1].handler]
  }

  lemma TableStep(routes: seq<Route>, r: Route)
    ensures Table(routes + [r]) == Table(routes)[RoutePattern(r) := r.handler]
  {
  }

  /** A request path, segment by segment, is an instance of a pattern. */
  predicate Matches(p: Pattern, parts: seq<string>) {
    |p| == |parts| && forall i :: 0 <= i < |p| ==> p[i] == Wild || p[i] == Static(parts[i])
  }

  /** Some registered pattern starts this way. */
  ghost predicate Extended(table: map<Pattern, Handler>, p: Pattern) {
    exists q :: q in table && p <= q
  }

  /**
   The pattern a static-first search without backtracking ends at: registered, matching, and wild only where no
   registered pattern goes on with the segment itself.
   */
  ghost predicate Preferred(table: map<Pattern, Handler>, p: Pattern, parts: seq<string>) {
    && p in table && Matches(p, parts)
    && forall i :: 0 <= i < |p| && p[i] == Wild ==> !Extended(table, p[..i] + [Static(parts[i])])
  }

  lemma StaticExtends(table: map<Pattern, Handler>, q: Pattern, i: nat)
    requires q in table && i < |q|
    ensures Extended(table, q[..i] + [q[i]])
  {
  }

  lemma PreferredNext(table: map<Pattern, Handler>, p: Pattern, q: Pattern, parts: seq<string>, n: nat)
    requires Preferred(table, p, parts) && Preferred(table, q, parts) && n < |p| && p[..n] == q[..n]
    ensures p[n] == q[n]
  {
    hide Extended;
    StaticExtends(table, p, n);
    StaticExtends(table, q, n);
  }

  lemma {:induction false} PreferredAgree(table: map<Pattern, Handler>, p: Pattern, q: Pattern,
      parts: seq<string>, n: nat)
    requires Preferred(table, p, parts) && Preferred(table, q, parts) && n <= |p|
    ensures |q| == |p| && p[..n] == q[..n]
  {
    hide Extended;
    if n > 0 {
      PreferredAgree(table, p, q, parts, n - 1);
      PreferredNext(table, p, q, parts, n - 1);
    }
  }

  /** At most one pattern is preferred for a request. */
  lemma PreferredIsUnique(table: map<Pattern, Handler>, p: Pattern, q: Pattern, parts: seq<string>)
    requires Preferred(table, p, parts) && Preferred(table, q, parts)
    ensures p == q
  {
    PreferredAgree(table, p, q, parts, |p|);
    assert p[..|p|] == p && q[..|p|] == q;
  }
}
