/**
 The trie as a value: which nodes exist, which hold handlers, and the name of each node's wildcard. Insertion
 and search are the walks the code makes; the lemmas say what they amount to on the route table.
 */
module TrieModel {
  import opened Prelude
  import opened Text
  import opened RouteTable

  datatype View = View(nodes: set<Pattern>, handlers: map<Pattern, Handler>, names: map<Pattern, string>)

  const EMPTY: View := View({[]}, map[], map[])

  /** One step of an insertion, at a node: the child for the segment exists afterwards. */
  function Enter(v: View, at: Pattern, part: string): View
    requires part != ""
  {
    v.(nodes := v.nodes + {at + [StepOf(part)]},
       names := if StepOf(part) == Wild then v.names[at := NameOf(part)] else v.names)
  }

  ghost function EnterAll(v: View, at: Pattern, parts: seq<string>): View
    requires Parts(parts)
    decreases |parts|
  {
    if parts == [] then v else EnterAll(Enter(v, at, parts[0]), at + [StepOf(parts[0])], parts[1..])
  }

  ghost function Insert(v: View, r: Route): View {
    var entered := EnterAll(v, [], Segments(r.path));
    entered.(handlers := entered.handlers[RoutePattern(r) := r.handler])
  }

  /** The trie after a list of registrations. */
  ghost function ViewOf(routes: seq<Route>): View {
    if routes == [] then EMPTY else Insert(ViewOf(routes[..|routes| - 1]), routes[|routes| - 1])
  }

  datatype Found = Found(handler: Option<Handler>, params: map<string, string>)

  function Lookup(m: map<Pattern, Handler>, p: Pattern): Option<Handler> {
    if p in m then Some(m[p]) else None
  }

  function WildName(v: View, at: Pattern): string {
    if at in v.names then v.names[at] else ""
  }

  /** The search: the child for the segment itself if there is one, else the wildcard, and never back. */
  function Search(v: View, at: Pattern, parts: seq<string>, params: map<string, string>): Found
    decreases |parts|
  {
    if parts == [] then Found(Lookup(v.handlers, at), params)
    else if at + [Static(parts[0])] in v.nodes then Search(v, at + [Static(parts[0])], parts[1..], params)
    else if at + [Wild] in v.nodes then
      Search(v, at + [Wild], parts[1..], params[WildName(v, at) := parts[0]])
    else Found(None, params)
  }

  // ---------- which nodes exist, and what they hold ----------

  ghost predicate Between(at: Pattern, p: Pattern, end: Pattern) {
    at <= p && p <= end
  }

  lemma BetweenStep(at: Pattern, step: Step, end: Pattern)
    requires at + [step] <= end
    ensures forall p :: Between(at, p, end) <==> p == at || Between(at + [step], p, end)
  {
  }

  lemma BetweenSame(at: Pattern)
    ensures forall p :: Between(at, p, at) <==> p == at
  {
  }

  /** Entering segments adds the nodes along their pattern and touches no handler. */
  lemma {:induction false} EnterAllNodes(v: View, at: Pattern, parts: seq<string>)
    requires Parts(parts) && at in v.nodes
    ensures EnterAll(v, at, parts).handlers == v.handlers
    ensures forall p :: p in EnterAll(v, at, parts).nodes <==>
              p in v.nodes || Between(at, p, at + PatternOf(parts))
    decreases |parts|
  {
    hide Between, Enter, PatternOf, StepOf;
    if parts == [] {
      assert at + PatternOf(parts) == at;
      BetweenSame(at);
    } else {
      var step, rest := StepOf(parts[0]), parts[1..];
      var end := at + PatternOf(parts);
      var entered := Enter(v, at, parts[0]);
      EnterNodes(v, at, parts[0]);
      EnterAllNodes(entered, at + [step], rest);
      PatternSplit(at, parts);
      BetweenStep(at, step, end);
      BetweenEnds(at, end);
    }
  }

  lemma EnterNodes(v: View, at: Pattern, part: string)
    requires part != ""
    ensures Enter(v, at, part).nodes == v.nodes + {at + [StepOf(part)]}
    ensures Enter(v, at, part).handlers == v.handlers
  {
  }

  lemma PatternSplit(at: Pattern, parts: seq<string>)
    requires Parts(parts) && parts != []
    ensures at + PatternOf(parts) == at + [StepOf(parts[0])] + PatternOf(parts[1..])
  {
  }

  lemma BetweenEnds(at: Pattern, end: Pattern)
    requires at <= end
    ensures Between(at, at, end)
    ensures forall step :: at + [step] <= end ==> Between(at + [step], at + [step], end)
  {
  }

  /** A node exists exactly for the root and for every start of a registered pattern; handlers are the table. */
  ghost predicate Represents(v: View, table: map<Pattern, Handler>) {
    && v.handlers == table
    && forall p :: p in v.nodes <==> p == [] || Extended(table, p)
  }

  lemma ExtendedByOneMore(table: map<Pattern, Handler>, pattern: Pattern, handler: Handler, p: Pattern)
    ensures Extended(table[pattern := handler], p) <==> Extended(table, p) || p <= pattern
  {
    var more := table[pattern := handler];
    if Extended(table, p) {
      var q :| q in table && p <= q;
      assert q in more;
    }
    if Extended(more, p) {
      var q :| q in more && p <= q;
      if q != pattern {
        assert q in table;
      }
    }
    assert pattern in more;
  }

  lemma InsertRepresents(v: View, table: map<Pattern, Handler>, r: Route)
    requires Represents(v, table)
    ensures Represents(Insert(v, r), table[RoutePattern(r) := r.handler])
  {
    hide Extended, EnterAll, Segments;
    var pattern := RoutePattern(r);
    EnterAllNodes(v, [], Segments(r.path));
    assert [] + PatternOf(Segments(r.path)) == pattern;
    forall p ensures p in Insert(v, r).nodes <==> p == [] || Extended(table[pattern := r.handler], p) {
      ExtendedByOneMore(table, pattern, r.handler, p);
      assert Between([], p, [] + pattern) <==> p <= pattern;
    }
  }

  /** After any registrations the trie represents the table in which the last handler of a pattern wins. */
  lemma {:induction false} ViewRepresentsTable(routes: seq<Route>)
    ensures Represents(ViewOf(routes), Table(routes))
  {
    if routes != [] {
      var n := |routes| - 1;
      ViewRepresentsTable(routes[..n]);
      InsertRepresents(ViewOf(routes[..n]), Table(routes[..n]), routes[n]);
    } else {
      assert forall p: Pattern :: !Extended(map[], p);
    }
  }

  // ---------- what a search finds ----------

  /** `Preferred`, below a node: the search goes on with one step of the pattern at a time. */
  ghost predicate PreferredBelow(table: map<Pattern, Handler>, at: Pattern, p: Pattern, parts: seq<string>)
    decreases |parts|
  {
    if parts == [] then p == [] && at in table
    else
      && p != []
      && (p[0] == Static(parts[0]) || (p[0] == Wild && !Extended(table, at + [Static(parts[0])])))
      && PreferredBelow(table, at + [p[0]], p[1..], parts[1..])
  }

  /** The same, stated over positions. */
  ghost predicate PreferredAt(table: map<Pattern, Handler>, at: Pattern, p: Pattern, parts: seq<string>) {
    && at + p in table && Matches(p, parts)
    && forall i :: 0 <= i < |p| && p[i] == Wild ==> !Extended(table, at + p[..i] + [Static(parts[i])])
  }

  lemma MatchesCons(p: Pattern, parts: seq<string>)
    requires p != [] && parts != []
    ensures Matches(p, parts) <==> (p[0] == Wild || p[0] == Static(parts[0])) && Matches(p[1..], parts[1..])
  {
  }

  lemma PreferredAtCons(table: map<Pattern, Handler>, at: Pattern, p: Pattern, parts: seq<string>)
    requires p != [] && parts != []
    ensures PreferredAt(table, at, p, parts) <==>
              && (p[0] == Static(parts[0]) || (p[0] == Wild && !Extended(table, at + [Static(parts[0])])))
              && PreferredAt(table, at + [p[0]], p[1..], parts[1..])
  {
    hide Extended;
    var next, rest, more := at + [p[0]], p[1..], parts[1..];
    MatchesCons(p, parts);
    assert at + p == next + rest;
    assert at + p[..0] + [Static(parts[0])] == at + [Static(parts[0])];
    forall i | 0 <= i < |rest| && i < |more|
      ensures next + rest[..i] + [Static(more[i])] == at + p[..i + 1] + [Static(parts[i + 1])]
      ensures rest[i] == p[i + 1]
    {
      assert next + rest[..i] == at + p[..i + 1];
    }
    if |p| == |parts| {
      PreferredSteps(table, at, p, parts);
    }
  }

  lemma PreferredSteps(table: map<Pattern, Handler>, at: Pattern, p: Pattern, parts: seq<string>)
    requires p != [] && parts != [] && |p| == |parts|
    ensures (forall i :: 0 <= i < |p| && p[i] == Wild ==> !Extended(table, at + p[..i] + [Static(parts[i])]))
        <==>
            && (p[0] == Wild ==> !Extended(table, at + [Static(parts[0])]))
            && (forall i :: 0 <= i < |p[1..]| && p[1..][i] == Wild ==>
                  !Extended(table, at + [p[0]] + p[1..][..i] + [Static(parts[1..][i])]))
  {
    hide Extended;
    assert at + p[..0] == at;
    forall i | 0 <= i < |p[1..]|
      ensures at + [p[0]] + p[1..][..i] + [Static(parts[1..][i])] == at + p[..i + 1] + [Static(parts[i + 1])]
      ensures p[1..][i] == p[i + 1]
    {
      assert p[..i + 1] == [p[0]] + p[1..][..i];
    }
    var q := p[1..];
    if forall i :: 0 <= i < |q| && q[i] == Wild ==> !Extended(table, at + [p[0]] + q[..i] + [Static(parts[1..][i])]) {
      forall i | 0 < i < |p| && p[i] == Wild ensures !Extended(table, at + p[..i] + [Static(parts[i])]) {
        assert q[i - 1] == Wild;
      }
    }
  }

  /** From a node, the search answers exactly with the preferred pattern below it. */
  lemma {:induction false} SearchFromNode(v: View, table: map<Pattern, Handler>, at: Pattern, parts: seq<string>,
      params: map<string, string>) returns (p: Pattern)
    requires Represents(v, table) && at in v.nodes
    ensures match Search(v, at, parts, params).handler
            case Some(h) => PreferredBelow(table, at, p, parts) && at + p in table && table[at + p] == h
            case None => forall q :: !PreferredBelow(table, at, q, parts)
    decreases |parts|
  {
    p := [];
    if parts == [] {
      assert at + p == at;
    } else {
      var s, w := Static(parts[0]), Wild;
      if at + [s] in v.nodes {
        var rest := SearchFromNode(v, table, at + [s], parts[1..], params);
        p := [s] + rest;
        assert at + p == at + [s] + rest;
        OnlyStatic(table, at, parts);
      } else if at + [w] in v.nodes {
        var rest := SearchFromNode(v, table, at + [w], parts[1..], params[WildName(v, at) := parts[0]]);
        p := [w] + rest;
        assert at + p == at + [w] + rest;
        NoStatic(table, at, parts);
      } else {
        NoStatic(table, at, parts);
        NoWild(table, at, parts);
      }
    }
  }

  /** A preferred pattern below a node is a registered pattern that starts with the node. */
  lemma {:induction false} BelowIsRegistered(table: map<Pattern, Handler>, at: Pattern, p: Pattern, parts: seq<string>)
    requires PreferredBelow(table, at, p, parts)
    ensures at + p in table && Extended(table, at)
    decreases |parts|
  {
    if parts == [] {
      assert at + p == at;
    } else {
      BelowIsRegistered(table, at + [p[0]], p[1..], parts[1..]);
      assert at + p == at + [p[0]] + p[1..];
    }
    assert at <= at + p;
  }

  lemma OnlyStatic(table: map<Pattern, Handler>, at: Pattern, parts: seq<string>)
    requires parts != [] && Extended(table, at + [Static(parts[0])])
    ensures forall q :: PreferredBelow(table, at, q, parts) <==>
              q != [] && q[0] == Static(parts[0]) && PreferredBelow(table, at + [Static(parts[0])], q[1..], parts[1..])
  {
  }

  lemma NoStatic(table: map<Pattern, Handler>, at: Pattern, parts: seq<string>)
    requires parts != [] && !Extended(table, at + [Static(parts[0])])
    ensures forall q :: PreferredBelow(table, at, q, parts) <==>
              q != [] && q[0] == Wild && PreferredBelow(table, at + [Wild], q[1..], parts[1..])
  {
    forall q | PreferredBelow(table, at, q, parts) ensures q[0] == Wild {
      BelowIsRegistered(table, at + [q[0]], q[1..], parts[1..]);
    }
  }

  lemma NoWild(table: map<Pattern, Handler>, at: Pattern, parts: seq<string>)
    requires parts != [] && !Extended(table, at + [Wild])
    ensures forall q :: !PreferredBelow(table, at + [Wild], q, parts[1..])
  {
    forall q ensures !PreferredBelow(table, at + [Wild], q, parts[1..]) {
      if PreferredBelow(table, at + [Wild], q, parts[1..]) {
        BelowIsRegistered(table, at + [Wild], q, parts[1..]);
      }
    }
  }

  lemma {:induction false} BelowIsAt(table: map<Pattern, Handler>, at: Pattern, p: Pattern, parts: seq<string>)
    ensures PreferredBelow(table, at, p, parts) <==> PreferredAt(table, at, p, parts)
    decreases |parts|
  {
    hide Extended;
    if parts == [] || p == [] {
      assert p == [] ==> at + p == at;
    } else {
      BelowIsAt(table, at + [p[0]], p[1..], parts[1..]);
      PreferredAtCons(table, at, p, parts);
    }
  }

  lemma FromRoot(table: map<Pattern, Handler>, p: Pattern, parts: seq<string>)
    ensures PreferredBelow(table, [], p, parts) <==> Preferred(table, p, parts)
  {
    hide Extended, Matches;
    BelowIsAt(table, [], p, parts);
    assert [] + p == p;
    assert forall i :: 0 <= i < |p| ==> [] + p[..i] == p[..i];
  }

  /**
   A search of the trie built by any registrations finds a handler exactly when some registered pattern is
   preferred for the request, and then it is that pattern's last handler. So every hit is a registered route
   that matches the request segment by segment.
   */
  lemma SearchIsPreferred(routes: seq<Route>, parts: seq<string>, params: map<string, string>) returns (p: Pattern)
    ensures var table := Table(routes);
            match Search(ViewOf(routes), [], parts, params).handler
            case Some(h) => Preferred(table, p, parts) && table[p] == h
            case None => forall q :: !Preferred(table, q, parts)
  {
    hide PreferredBelow;
    var table := Table(routes);
    ViewRepresentsTable(routes);
    p := SearchFromNode(ViewOf(routes), table, [], parts, params);
    forall q ensures PreferredBelow(table, [], q, parts) <==> Preferred(table, q, parts) {
      FromRoot(table, q, parts);
    }
    assert [] + p == p;
  }

  // ---------- parameters ----------

  /** The parameters after a search that went down a pattern. */
  ghost function Bound(v: View, at: Pattern, p: Pattern, parts: seq<string>, params: map<string, string>)
      : map<string, string>
    requires |p| == |parts|
    decreases |p|
  {
    if p == [] then params
    else Bound(v, at + [p[0]], p[1..], parts[1..],
               if p[0] == Wild then params[WildName(v, at) := parts[0]] else params)
  }

  lemma {:induction false} BelowHasLength(table: map<Pattern, Handler>, at: Pattern, p: Pattern, parts: seq<string>)
    requires PreferredBelow(table, at, p, parts)
    ensures |p| == |parts|
    decreases |parts|
  {
    if parts != [] {
      BelowHasLength(table, at + [p[0]], p[1..], parts[1..]);
    }
  }

  /** A search that is sure to find a pattern binds parameters along it. */
  lemma {:induction false} SearchBinds(v: View, table: map<Pattern, Handler>, at: Pattern, p: Pattern,
      parts: seq<string>, params: map<string, string>)
    requires Represents(v, table) && PreferredBelow(table, at, p, parts)
    ensures |p| == |parts|
    ensures Search(v, at, parts, params) == Found(Lookup(table, at + p), Bound(v, at, p, parts, params))
    decreases |parts|
  {
    BelowHasLength(table, at, p, parts);
    if parts == [] {
      assert at + p == at;
    } else {
      BelowIsRegistered(table, at + [p[0]], p[1..], parts[1..]);
      assert at + p == at + [p[0]] + p[1..];
      SearchBinds(v, table, at + [p[0]], p[1..], parts[1..],
                  if p[0] == Wild then params[WildName(v, at) := parts[0]] else params);
    }
  }

  /** A registration goes through the wildcard below a node. */
  ghost predicate Through(r: Route, at: Pattern) {
    at + [Wild] <= RoutePattern(r)
  }

  /** The name it gives that wildcard. */
  function WildNameIn(r: Route, at: Pattern): string {
    var parts := Segments(r.path);
    if |at| < |parts| then NameOf(parts[|at|]) else ""
  }

  /** Segments entered at a node go through the wildcard below `p`. */
  ghost predicate PassesWild(at: Pattern, parts: seq<string>, p: Pattern)
    requires Parts(parts)
  {
    at <= p && |p| < |at| + |parts| && p + [Wild] <= at + PatternOf(parts)
  }

  lemma PassesWildStep(at: Pattern, parts: seq<string>, p: Pattern)
    requires Parts(parts) && parts != []
    ensures PassesWild(at, parts, p) <==>
              (p == at && StepOf(parts[0]) == Wild) || PassesWild(at + [StepOf(parts[0])], parts[1..], p)
  {
    var next, end := at + [StepOf(parts[0])], at + PatternOf(parts);
    PatternSplit(at, parts);
    assert end[|at|] == next[|at|] == StepOf(parts[0]);
    if PassesWild(at, parts, p) {
      assert (p + [Wild])[|at|] == end[|at|];
      if |p| == |at| {
        assert p == at;
      } else {
        assert p[|at|] == end[|at|];
        assert next <= p;
      }
    }
  }

  /** Entering segments names the wildcards they go through, and no others. */
  lemma {:induction false} EnterAllNames(v: View, at: Pattern, parts: seq<string>, p: Pattern)
    requires Parts(parts)
    ensures var names := EnterAll(v, at, parts).names;
            if PassesWild(at, parts, p) then p in names && names[p] == NameOf(parts[|p| - |at|])
            else (p in names <==> p in v.names) && (p in names ==> names[p] == v.names[p])
    decreases |parts|
  {
    hide StepOf, PatternOf, NameOf;
    if parts != [] {
      PassesWildStep(at, parts, p);
      EnterAllNames(Enter(v, at, parts[0]), at + [StepOf(parts[0])], parts[1..], p);
    }
  }

  lemma ThroughMeans(r: Route, at: Pattern)
    ensures Through(r, at) <==> PassesWild([], Segments(r.path), at)
  {
  }

  lemma InsertNames(v: View, r: Route, at: Pattern)
    ensures Through(r, at) ==> WildName(Insert(v, r), at) == WildNameIn(r, at)
    ensures !Through(r, at) ==> WildName(Insert(v, r), at) == WildName(v, at)
  {
    hide Segments, EnterAll, Through, NameOf, PatternOf;
    ThroughMeans(r, at);
    EnterAllNames(v, [], Segments(r.path), at);
  }

  /** The last registration that goes through the wildcard below a node. */
  ghost predicate IsLastThrough(routes: seq<Route>, at: Pattern, last: int) {
    && 0 <= last < |routes| && Through(routes[last], at)
    && forall i :: last < i < |routes| ==> !Through(routes[i], at)
  }

  /** The name of a wildcard is the one in the last registration that goes through it. */
  lemma {:induction false} LastNameWins(routes: seq<Route>, at: Pattern, last: nat)
    requires IsLastThrough(routes, at, last)
    ensures WildName(ViewOf(routes), at) == WildNameIn(routes[last], at)
  {
    hide Through, WildName, WildNameIn, Insert;
    var n := |routes| - 1;
    InsertNames(ViewOf(routes[..n]), routes[n], at);
    if last < n {
      LastNameWins(routes[..n], at, last);
    }
  }

  lemma {:induction false} LastThrough(routes: seq<Route>, at: Pattern, some: nat) returns (last: nat)
    requires some < |routes| && Through(routes[some], at)
    ensures IsLastThrough(routes, at, last)
  {
    hide Through;
    last := |routes| - 1;
    while !Through(routes[last], at)
      invariant some <= last < |routes|
      invariant forall i :: last < i < |routes| ==> !Through(routes[i], at)
      decreases last
    {
      last := last - 1;
    }
  }

  /** Registrations that share a wildcard with this one agree on its name. */
  ghost predicate NamesAgree(routes: seq<Route>, r: Route) {
    forall i, at :: 0 <= i < |routes| && Through(routes[i], at) && Through(r, at)
      ==> WildNameIn(routes[i], at) == WildNameIn(r, at)
  }

  /** No parameter occurs twice in a registration. */
  ghost predicate DistinctParams(r: Route) {
    var p := RoutePattern(r);
    forall i, j :: 0 <= i < j < |p| && p[i] == Wild && p[j] == Wild
      ==> NameOf(Segments(r.path)[i]) != NameOf(Segments(r.path)[j])
  }

  /** Along a pattern with the given, distinct names: each is bound to its segment, and nothing else changes. */
  ghost predicate BindsExactly(after: map<string, string>, before: map<string, string>, p: Pattern,
      parts: seq<string>, names: seq<string>)
    requires |p| == |parts| == |names|
  {
    && (forall i :: 0 <= i < |p| && p[i] == Wild ==> names[i] in after && after[names[i]] == parts[i])
    && (forall k :: (forall i :: 0 <= i < |p| && p[i] == Wild ==> names[i] != k)
          ==> (k in after <==> k in before) && (k in after ==> after[k] == before[k]))
  }

  lemma BindsExactlyCons(after: map<string, string>, before: map<string, string>, p: Pattern,
      parts: seq<string>, names: seq<string>)
    requires |p| == |parts| == |names| && p != []
    requires forall i, j :: 0 <= i < j < |p| && p[i] == Wild && p[j] == Wild ==> names[i] != names[j]
    requires var between := if p[0] == Wild then before[names[0] := parts[0]] else before;
             BindsExactly(after, between, p[1..], parts[1..], names[1..])
    ensures BindsExactly(after, before, p, parts, names)
  {
  }

  lemma {:induction false} BoundExactly(v: View, at: Pattern, p: Pattern, parts: seq<string>,
      params: map<string, string>, names: seq<string>)
    requires |p| == |parts| == |names|
    requires forall i :: 0 <= i < |p| && p[i] == Wild ==> WildName(v, at + p[..i]) == names[i]
    requires forall i, j :: 0 <= i < j < |p| && p[i] == Wild && p[j] == Wild ==> names[i] != names[j]
    ensures BindsExactly(Bound(v, at, p, parts, params), params, p, parts, names)
    decreases |p|
  {
    hide WildName, BindsExactly;
    if p == [] {
      NothingBound(params);
    } else {
      var next, q, ns := at + [p[0]], p[1..], names[1..];
      assert at + p[..0] == at;
      forall i | 0 <= i < |q| && q[i] == Wild ensures WildName(v, next + q[..i]) == ns[i] {
        assert next + q[..i] == at + p[..i + 1];
      }
      BoundExactly(v, next, q, parts[1..], if p[0] == Wild then params[WildName(v, at) := parts[0]] else params, ns);
      BindsExactlyCons(Bound(v, at, p, parts, params), params, p, parts, names);
    }
  }

  lemma NothingBound(params: map<string, string>)
    ensures BindsExactly(params, params, [], [], [])
  {
  }

  function ParamNames(r: Route): (names: seq<string>)
    ensures |names| == |RoutePattern(r)|
    ensures forall i :: 0 <= i < |names| ==> names[i] == NameOf(Segments(r.path)[i])
  {
    seq(|Segments(r.path)|, i requires 0 <= i < |Segments(r.path)| => NameOf(Segments(r.path)[i]))
  }

  lemma NamesOfRoute(routes: seq<Route>, r: nat, i: nat)
    requires r < |routes| && NamesAgree(routes, routes[r])
    requires i < |RoutePattern(routes[r])| && RoutePattern(routes[r])[i] == Wild
    ensures WildName(ViewOf(routes), RoutePattern(routes[r])[..i]) == ParamNames(routes[r])[i]
  {
    hide WildName, ViewOf;
    var p := RoutePattern(routes[r]);
    var at := p[..i];
    assert at + [Wild] == p[..i + 1];
    var last := LastThrough(routes, at, r);
    LastNameWins(routes, at, last);
  }

  /** A search that ends at a pattern binds the names its wildcards have, whoever gave them. */
  lemma SearchBindsNames(routes: seq<Route>, p: Pattern, parts: seq<string>, params: map<string, string>,
      names: seq<string>)
    requires Preferred(Table(routes), p, parts) && |names| == |p| && DistinctAt(p, names) && Stored(routes, p, names)
    ensures var found := Search(ViewOf(routes), [], parts, params);
            && found.handler == Some(Table(routes)[p])
            && BindsExactly(found.params, params, p, parts, names)
  {
    hide BindsExactly, PreferredBelow, ViewOf, Search, Bound, Matches, Extended;
    var table := Table(routes);
    ViewRepresentsTable(routes);
    FromRoot(table, p, parts);
    SearchBinds(ViewOf(routes), table, [], p, parts, params);
    assert [] + p == p;
    forall i | 0 <= i < |p| && p[i] == Wild ensures WildName(ViewOf(routes), [] + p[..i]) == names[i] {
      assert [] + p[..i] == p[..i];
    }
    BoundExactly(ViewOf(routes), [], p, parts, params, names);
  }

  ghost predicate DistinctAt(p: Pattern, names: seq<string>)
    requires |names| == |p|
  {
    forall i, j :: 0 <= i < j < |p| && p[i] == Wild && p[j] == Wild ==> names[i] != names[j]
  }

  /** These are the names the trie holds for the wildcards along the pattern. */
  ghost predicate Stored(routes: seq<Route>, p: Pattern, names: seq<string>)
    requires |names| == |p|
  {
    forall i :: 0 <= i < |p| && p[i] == Wild ==> WildName(ViewOf(routes), p[..i]) == names[i]
  }

  /**
   When registrations that share a wildcard agree on its name and a route repeats no name, a search that finds
   the route binds each of its parameters to the request's segment at that place and changes no other.
   */
  lemma ParametersAreBound(routes: seq<Route>, r: nat, parts: seq<string>, params: map<string, string>)
    requires r < |routes| && Preferred(Table(routes), RoutePattern(routes[r]), parts)
    requires NamesAgree(routes, routes[r]) && DistinctParams(routes[r])
    ensures var found := Search(ViewOf(routes), [], parts, params);
            && found.handler == Some(Table(routes)[RoutePattern(routes[r])])
            && BindsExactly(found.params, params, RoutePattern(routes[r]), parts, ParamNames(routes[r]))
  {
    hide BindsExactly, NamesAgree, Through, Segments, ViewOf, Search, Matches, Extended, WildName;
    var p, names := RoutePattern(routes[r]), ParamNames(routes[r]);
    forall i | 0 <= i < |p| && p[i] == Wild ensures WildName(ViewOf(routes), p[..i]) == names[i] {
      NamesOfRoute(routes, r, i);
    }
    SearchBindsNames(routes, p, parts, params, names);
  }

  // ---------- the exact condition ----------

  /** Every static text in the table is shorter than this. */
  ghost predicate ShorterTexts(table: map<Pattern, Handler>, n: nat) {
    forall q: Pattern, i: int :: q in table && 0 <= i < |q| && q[i].Static? ==> |q[i].text| < n
  }

  lemma {:induction false} TextBound(p: Pattern) returns (n: nat)
    ensures forall i :: 0 <= i < |p| && p[i].Static? ==> |p[i].text| < n
  {
    if p == [] {
      n := 0;
    } else {
      n := TextBound(p[1..]);
      assert forall i :: 0 < i < |p| ==> p[i] == p[1..][i - 1];
      if p[0].Static? && |p[0].text| >= n {
        n := |p[0].text| + 1;
      }
    }
  }

  lemma {:induction false} TableTextBound(routes: seq<Route>) returns (n: nat)
    ensures ShorterTexts(Table(routes), n)
  {
    if routes == [] {
      n := 0;
    } else {
      var last := |routes| - 1;
      var before := TableTextBound(routes[..last]);
      var own := TextBound(RoutePattern(routes[last]));
      n := if before >= own then before else own;
    }
  }

  /** A request for a pattern: its own texts, and at wildcards segments longer than any text, all different. */
  function RequestFor(p: Pattern, n: nat): (parts: seq<string>)
    ensures |parts| == |p|
    ensures forall i :: 0 <= i < |p| ==> parts[i] == if p[i].Static? then p[i].text else Repeated('x', n + i)
  {
    seq(|p|, i requires 0 <= i < |p| => if p[i].Static? then p[i].text else Repeated('x', n + i))
  }

  lemma RequestPrefers(table: map<Pattern, Handler>, p: Pattern, n: nat)
    requires p in table && ShorterTexts(table, n)
    ensures Preferred(table, p, RequestFor(p, n))
  {
    var parts := RequestFor(p, n);
    forall i | 0 <= i < |p| && p[i] == Wild ensures !Extended(table, p[..i] + [Static(parts[i])]) {
      var start := p[..i] + [Static(parts[i])];
      forall q | q in table ensures !(start <= q) {
        if i < |q| {
          assert start[i] == Static(parts[i]) && q[i] != start[i];
        }
      }
    }
  }

  /**
   A value bound under a name was there before the search or is the segment at a wildcard of that name.
   */
  lemma {:induction false} BoundValues(v: View, at: Pattern, p: Pattern, parts: seq<string>,
      params: map<string, string>, k: string)
    requires |p| == |parts| && k in Bound(v, at, p, parts, params)
    ensures var value := Bound(v, at, p, parts, params)[k];
            || (k in params && value == params[k])
            || exists j :: 0 <= j < |p| && p[j] == Wild && WildName(v, at + p[..j]) == k && value == parts[j]
    decreases |p|
  {
    hide WildName;
    if p != [] {
      var next, q, rest := at + [p[0]], p[1..], parts[1..];
      var more := if p[0] == Wild then params[WildName(v, at) := parts[0]] else params;
      BoundValues(v, next, q, rest, more, k);
      var value := Bound(v, at, p, parts, params)[k];
      if j :| 0 <= j < |q| && q[j] == Wild && WildName(v, next + q[..j]) == k && value == rest[j] {
        assert next + q[..j] == at + p[..j + 1];
        assert p[j + 1] == Wild && parts[j + 1] == value;
      } else if p[0] == Wild && WildName(v, at) == k {
        assert at + p[..0] == at;
        assert p[0] == Wild && WildName(v, at + p[..0]) == k && value == parts[0];
      }
    }
  }

  lemma BindingShowsName(v: View, p: Pattern, parts: seq<string>, names: seq<string>, i: nat, n: nat)
    requires parts == RequestFor(p, n) && |names| == |p| && i < |p| && p[i] == Wild
    requires BindsExactly(Bound(v, [], p, parts, map[]), map[], p, parts, names)
    requires forall j :: 0 <= j < |p| && p[j].Static? ==> |p[j].text| < n
    ensures WildName(v, p[..i]) == names[i]
  {
    hide WildName, Bound;
    var after := Bound(v, [], p, parts, map[]);
    assert names[i] in after && after[names[i]] == parts[i];
    BoundValues(v, [], p, parts, map[], names[i]);
    var j :| 0 <= j < |p| && p[j] == Wild && WildName(v, [] + p[..j]) == names[i] && after[names[i]] == parts[j];
    assert |parts[j]| == n + j && |parts[i]| == n + i;
    assert [] + p[..j] == p[..j];
  }

  /** Every search that finds the pattern binds exactly these names. */
  ghost predicate AlwaysBinds(routes: seq<Route>, p: Pattern, names: seq<string>)
    requires |names| == |p|
  {
    forall parts, params :: Preferred(Table(routes), p, parts)
      ==> BindsExactly(Search(ViewOf(routes), [], parts, params).params, params, p, parts, names)
  }

  /** Each wildcard along the pattern has this name in the last registration that goes through it. */
  ghost predicate NamedBy(routes: seq<Route>, p: Pattern, names: seq<string>)
    requires |names| == |p|
  {
    forall i, last :: 0 <= i < |p| && p[i] == Wild && IsLastThrough(routes, p[..i], last)
      ==> WildNameIn(routes[last], p[..i]) == names[i]
  }

  lemma {:induction false} TableHasRoute(routes: seq<Route>, p: Pattern) returns (r: nat)
    requires p in Table(routes)
    ensures r < |routes| && RoutePattern(routes[r]) == p
  {
    hide RoutePattern;
    var n := |routes| - 1;
    if RoutePattern(routes[n]) == p {
      r := n;
    } else {
      r := TableHasRoute(routes[..n], p);
    }
  }

  lemma StoredAreLast(routes: seq<Route>, p: Pattern, names: seq<string>)
    requires p in Table(routes) && |names| == |p|
    ensures NamedBy(routes, p, names) <==> Stored(routes, p, names)
  {
    hide Table, ViewOf, WildName, WildNameIn, RoutePattern;
    var r := TableHasRoute(routes, p);
    forall i | 0 <= i < |p| && p[i] == Wild
      ensures exists last :: IsLastThrough(routes, p[..i], last)
      ensures forall last :: IsLastThrough(routes, p[..i], last)
                ==> WildNameIn(routes[last], p[..i]) == WildName(ViewOf(routes), p[..i])
    {
      assert p[..i] + [Wild] == p[..i + 1];
      var some := LastThrough(routes, p[..i], r);
      assert IsLastThrough(routes, p[..i], some);
      forall last | IsLastThrough(routes, p[..i], last)
        ensures WildNameIn(routes[last], p[..i]) == WildName(ViewOf(routes), p[..i])
      {
        LastNameWins(routes, p[..i], last);
      }
    }
  }

  /**
   For a registered pattern and a list of names: every search that finds the pattern binds exactly those names, in
   every request, precisely when no two are the same and each is the name that the last registration through its
   wildcard gives it.
   */
  lemma NamesBoundExactlyWhenLast(routes: seq<Route>, p: Pattern, names: seq<string>)
    requires p in Table(routes) && |names| == |p|
    ensures NamedBy(routes, p, names) && DistinctAt(p, names) <==> AlwaysBinds(routes, p, names)
  {
    hide BindsExactly, Search, ViewOf, Table, Bound, WildName, Extended, ShorterTexts, DistinctAt, RequestFor,
         NamedBy, Stored;
    StoredAreLast(routes, p, names);
    var table, v := Table(routes), ViewOf(routes);
    if NamedBy(routes, p, names) && DistinctAt(p, names) {
      forall parts, params | Preferred(table, p, parts)
        ensures BindsExactly(Search(v, [], parts, params).params, params, p, parts, names)
      {
        SearchBindsNames(routes, p, parts, params, names);
      }
    }
    if AlwaysBinds(routes, p, names) {
      NamesFollow(routes, p, names);
    }
  }

  lemma DistinctBindings(after: map<string, string>, p: Pattern, parts: seq<string>, names: seq<string>, n: nat)
    requires parts == RequestFor(p, n) && |names| == |p| && BindsExactly(after, map[], p, parts, names)
    ensures DistinctAt(p, names)
  {
    forall i, j | 0 <= i < j < |p| && p[i] == Wild && p[j] == Wild ensures names[i] != names[j] {
      assert |parts[i]| == n + i && |parts[j]| == n + j;
    }
  }

  lemma NamesFollow(routes: seq<Route>, p: Pattern, names: seq<string>)
    requires p in Table(routes) && |names| == |p|
    requires AlwaysBinds(routes, p, names)
    ensures Stored(routes, p, names) && DistinctAt(p, names)
  {
    hide BindsExactly, Search, ViewOf, Table, Bound, WildName, Extended, Matches, RequestFor, PreferredBelow;
    var table, v := Table(routes), ViewOf(routes);
    var n := TableTextBound(routes);
    var parts := RequestFor(p, n);
    RequestPrefers(table, p, n);
    ViewRepresentsTable(routes);
    FromRoot(table, p, parts);
    SearchBinds(v, table, [], p, parts, map[]);
    var after := Search(v, [], parts, map[]).params;
    assert BindsExactly(after, map[], p, parts, names);
    DistinctBindings(after, p, parts, names, n);
    forall i | 0 <= i < |p| && p[i] == Wild ensures WildName(v, p[..i]) == names[i] {
      BindingShowsName(v, p, parts, names, i, n);
    }
  }

  // ---------- two examples ----------

  lemma RouteOf(parts: seq<string>, handler: Handler)
    requires forall i :: 0 <= i < |parts| ==> parts[i] != "" && Without(parts[i], '/')
    ensures Segments(Route(PathOf(parts), handler).path) == parts
    ensures RoutePattern(Route(PathOf(parts), handler)) == PatternOf(parts)
  {
    SegmentsOfPath(parts);
  }

  lemma TwoRoutes(first: Route, second: Route)
    ensures Table([first, second]) == map[RoutePattern(first) := first.handler][RoutePattern(second) := second.handler]
  {
    TableStep([], first);
    TableStep([first], second);
    assert [] + [first] == [first] && [first] + [second] == [first, second];
  }

  /**
   Without backtracking a matching route can be missed: `/:x/c` matches `/a/c`, but once `/a/d` is registered
   the search goes down `a` and stops there.
   */
  lemma GreedyCanMiss()
    ensures var routes := [Route(PathOf([":x", "c"]), 1), Route(PathOf(["a", "d"]), 2)];
            && Search(ViewOf(routes), [], ["a", "c"], map[]).handler == None
            && [Wild, Static("c")] in Table(routes) && Matches([Wild, Static("c")], ["a", "c"])
  {
    hide Segments, PathOf, Search, ViewOf, Table;
    var first, second := Route(PathOf([":x", "c"]), 1), Route(PathOf(["a", "d"]), 2);
    var p, q := [Wild, Static("c")], [Static("a"), Static("d")];
    RouteOf([":x", "c"], 1);
    RouteOf(["a", "d"], 2);
    assert RoutePattern(first) == p && RoutePattern(second) == q;
    TwoRoutes(first, second);
    var found := SearchIsPreferred([first, second], ["a", "c"], map[]);
    assert !Preferred(Table([first, second]), p, ["a", "c"]) by {
      assert p[..0] + [Static("a")] == [Static("a")] == q[..1];
      StaticExtends(Table([first, second]), q, 0);
      assert Extended(Table([first, second]), p[..0] + [Static("a")]);
    }
    assert "d"[0] != "c"[0];
    assert q[1] != Static("c") && q[1] != Wild;
  }

  /**
   When two routes name a shared wildcard differently, the later name is used for both: after `/:a/x` and
   `/:b/y`, a request for `/1/x` finds the first route and binds `b`.
   */
  lemma LaterNameIsBound()
    ensures var routes := [Route(PathOf([":a", "x"]), 1), Route(PathOf([":b", "y"]), 2)];
            Search(ViewOf(routes), [], ["1", "x"], map[]) == Found(Some(1), map["b" := "1"])
  {
    hide Segments, PathOf, Search, ViewOf, Table, Preferred, Represents, PreferredBelow, RoutePattern, Bound, WildName;
    var first, second := Route(PathOf([":a", "x"]), 1), Route(PathOf([":b", "y"]), 2);
    var routes, parts := [first, second], ["1", "x"];
    var p, q := [Wild, Static("x")], [Wild, Static("y")];
    RouteOf([":a", "x"], 1);
    RouteOf([":b", "y"], 2);
    assert RoutePattern(first) == p && RoutePattern(second) == q;
    TwoRoutes(first, second);
    ViewRepresentsTable(routes);
    assert Table(routes) == map[p := 1][q := 2];
    WildIsPreferred(Table(routes), p, q);
    FromRoot(Table(routes), p, parts);
    SearchBinds(ViewOf(routes), Table(routes), [], p, parts, map[]);
    assert [] + p == p;
    assert [] + [Wild] <= q;
    LastNameWins(routes, [], 1);
    assert WildNameIn(second, []) == "b";
    BoundTwo(ViewOf(routes), p, parts);
  }

  lemma WildIsPreferred(table: map<Pattern, Handler>, p: Pattern, q: Pattern)
    requires p == [Wild, Static("x")] && q == [Wild, Static("y")] && table.Keys == {p, q}
    ensures Preferred(table, p, ["1", "x"])
  {
    var s := p[..0] + [Static("1")];
    assert s[0] == Static("1");
    assert !(s <= p) && !(s <= q);
    assert forall r :: r in table ==> r == p || r == q;
  }

  lemma BoundTwo(v: View, p: Pattern, parts: seq<string>)
    requires |p| == |parts| == 2 && p[0] == Wild && p[1] != Wild
    ensures Bound(v, [], p, parts, map[]) == map[WildName(v, []) := parts[0]]
  {
    assert p[1..][0] == p[1] && p[1..][1..] == [];
    assert Bound(v, [] + [p[0]], p[1..], parts[1..], map[WildName(v, []) := parts[0]])
        == map[WildName(v, []) := parts[0]];
  }
}
