/**
 The trie never backs out of a branch it has entered. Which tables make that harmless, so that every request some
 route matches is found?
 */
module GreedySearch {
  import opened Text
  import opened RouteTable
  import opened TrieModel

  /** A pattern that matches whatever the other one matches. */
  predicate Covers(q: Pattern, p: Pattern) {
    |q| == |p| && forall i :: 0 <= i < |p| ==> q[i] == Wild || q[i] == p[i]
  }

  /** The pattern with a text in place of the wildcard at a position. */
  function Fixed(p: Pattern, i: nat, text: string): Pattern
    requires i < |p|
  {
    p[i := Static(text)]
  }

  /**
   No route leads into a dead end: where a registered pattern has a wildcard and some registered pattern goes on with
   a text instead, one that begins like that covers what is left of the first.
   */
  ghost predicate NoDeadEnds(table: map<Pattern, Handler>) {
    forall p: Pattern, i: nat, text: string ::
      (p in table && i < |p| && p[i] == Wild && Extended(table, p[..i] + [Static(text)]))
        ==> CoveredBeyond(table, p, i, text)
  }

  ghost predicate CoveredBeyond(table: map<Pattern, Handler>, p: Pattern, i: nat, text: string)
    requires i < |p|
  {
    exists q :: q in table && p[..i] + [Static(text)] <= q && Covers(q, Fixed(p, i, text))
  }

  /** Wild only where no registered pattern goes on with the segment itself, up to a position. */
  ghost predicate PreferredUpTo(table: map<Pattern, Handler>, p: Pattern, parts: seq<string>, n: nat) {
    && p in table && Matches(p, parts) && n <= |p|
    && forall i :: 0 <= i < n && p[i] == Wild ==> !Extended(table, p[..i] + [Static(parts[i])])
  }

  lemma StepAlong(table: map<Pattern, Handler>, p: Pattern, parts: seq<string>, n: nat) returns (q: Pattern)
    requires NoDeadEnds(table) && PreferredUpTo(table, p, parts, n) && n < |p|
    ensures PreferredUpTo(table, q, parts, n + 1)
  {
    hide Extended;
    if p[n] == Wild && Extended(table, p[..n] + [Static(parts[n])]) {
      assert CoveredBeyond(table, p, n, parts[n]);
      q :| q in table && p[..n] + [Static(parts[n])] <= q && Covers(q, Fixed(p, n, parts[n]));
      forall i | 0 <= i <= n ensures q[..i] == p[..i] {
        assert forall k :: 0 <= k < i ==> q[k] == (p[..n] + [Static(parts[n])])[k] == p[k];
      }
      assert forall i :: 0 <= i < n ==> q[i] == (p[..n] + [Static(parts[n])])[i] == p[i];
      assert q[n] == (p[..n] + [Static(parts[n])])[n];
    } else {
      q := p;
    }
  }

  /** Without dead ends a request that some route matches ends at a preferred one. */
  lemma {:induction false} PreferredExists(table: map<Pattern, Handler>, p: Pattern, parts: seq<string>, n: nat)
      returns (q: Pattern)
    requires NoDeadEnds(table) && PreferredUpTo(table, p, parts, n)
    ensures Preferred(table, q, parts)
    decreases |p| - n
  {
    hide NoDeadEnds, Extended, Matches;
    if n == |p| {
      q := p;
    } else {
      var next := StepAlong(table, p, parts, n);
      assert |next| == |parts| == |p| by {
        MatchesLength(p, parts);
        MatchesLength(next, parts);
      }
      q := PreferredExists(table, next, parts, n + 1);
    }
  }

  lemma MatchesLength(p: Pattern, parts: seq<string>)
    requires Matches(p, parts)
    ensures |p| == |parts|
  {
  }

  // ---------- every dead end has its request ----------

  /** A request for a pattern that takes a text at one wildcard, and segments no route knows at all others. */
  function DeadEndRequest(p: Pattern, i: nat, text: string, n: nat): (parts: seq<string>)
    requires i < |p|
  {
    RequestFor(p, n)[i := text]
  }

  lemma DeadEndMatches(p: Pattern, i: nat, text: string, n: nat)
    requires i < |p| && p[i] == Wild
    ensures Matches(p, DeadEndRequest(p, i, text, n))
  {
  }

  /** A segment longer than every text in the table matches wildcards only. */
  lemma FreshMeetsWild(table: map<Pattern, Handler>, q: Pattern, parts: seq<string>, n: nat, k: nat)
    requires q in table && ShorterTexts(table, n) && Matches(q, parts) && k < |q| && |parts[k]| >= n
    ensures q[k] == Wild
  {
  }

  /** Whatever route answers that request begins as the dead end does. */
  lemma {:induction false} LeadsIn(table: map<Pattern, Handler>, p: Pattern, i: nat, text: string, n: nat, q: Pattern,
      k: nat)
    requires p in table && i < |p| && p[i] == Wild && Extended(table, p[..i] + [Static(text)])
    requires ShorterTexts(table, n) && Preferred(table, q, DeadEndRequest(p, i, text, n)) && k <= i
    ensures |q| == |p| && q[..k] == p[..k]
  {
    hide Extended, ShorterTexts;
    if k > 0 {
      LeadsIn(table, p, i, text, n, q, k - 1);
      var j, parts := k - 1, DeadEndRequest(p, i, text, n);
      if p[j].Static? {
        StaticExtends(table, p, j);
        assert parts[j] == p[j].text;
      } else {
        FreshMeetsWild(table, q, parts, n, j);
      }
      assert q[..k] == q[..j] + [q[j]] && p[..k] == p[..j] + [p[j]];
    }
  }

  lemma AnswersCover(table: map<Pattern, Handler>, p: Pattern, i: nat, text: string, n: nat, q: Pattern)
    requires p in table && i < |p| && p[i] == Wild && Extended(table, p[..i] + [Static(text)])
    requires ShorterTexts(table, n) && Preferred(table, q, DeadEndRequest(p, i, text, n))
    ensures p[..i] + [Static(text)] <= q && Covers(q, Fixed(p, i, text))
  {
    hide Extended;
    LeadsIn(table, p, i, text, n, q, i);
    var parts := DeadEndRequest(p, i, text, n);
    assert q[i] == Static(text);
    assert q[..i + 1] == p[..i] + [Static(text)];
    forall k | 0 <= k < |p| ensures q[k] == Wild || q[k] == Fixed(p, i, text)[k] {
      if k < i {
        assert q[..i][k] == p[..i][k];
      } else if k > i && p[k] == Wild {
        FreshMeetsWild(table, q, parts, n, k);
      }
    }
  }

  // ---------- the exact condition ----------

  /** The segments of a request path. */
  ghost predicate Proper(parts: seq<string>) {
    forall i :: 0 <= i < |parts| ==> parts[i] != "" && Without(parts[i], '/')
  }

  /** Every request that some route matches is found. */
  ghost predicate FindsAll(routes: seq<Route>) {
    forall p, parts, params :: p in Table(routes) && Matches(p, parts) && Proper(parts)
      ==> Search(ViewOf(routes), [], parts, params).handler.Some?
  }

  lemma {:induction false} SegmentsAreProper(path: string)
    ensures Proper(Segments(path))
    decreases |path|
  {
    if path != "" {
      if path[0] == '/' {
        SegmentsAreProper(path[1..]);
      } else {
        match FindChar(path, '/')
        case None =>
        case Some(e) =>
          SegmentsAreProper(path[e..]);
          assert Without(path[..e], '/');
      }
    }
  }

  /** The texts of registered patterns are proper segments. */
  lemma {:induction false} TextsAreProper(routes: seq<Route>, q: Pattern, i: nat)
    requires q in Table(routes) && i < |q| && q[i].Static?
    ensures Proper([q[i].text])
  {
    hide Segments, Table;
    var r := TableHasRoute(routes, q);
    SegmentsAreProper(routes[r].path);
  }

  lemma RequestIsProper(routes: seq<Route>, p: Pattern, i: nat, text: string, n: nat)
    requires p in Table(routes) && i < |p| && Extended(Table(routes), p[..i] + [Static(text)]) && n > 0
    ensures Proper(DeadEndRequest(p, i, text, n))
  {
    hide Table;
    var q :| q in Table(routes) && p[..i] + [Static(text)] <= q;
    assert q[i] == (p[..i] + [Static(text)])[i];
    TextsAreProper(routes, q, i);
    assert [text][0] == text;
    forall k | 0 <= k < |p| && p[k].Static? ensures p[k].text != "" && Without(p[k].text, '/') {
      TextsAreProper(routes, p, k);
      assert [p[k].text][0] == p[k].text;
    }
  }

  lemma FoundCovers(routes: seq<Route>, p: Pattern, i: nat, text: string)
    requires FindsAll(routes) && p in Table(routes) && i < |p| && p[i] == Wild
    requires Extended(Table(routes), p[..i] + [Static(text)])
    ensures CoveredBeyond(Table(routes), p, i, text)
  {
    hide Table, Extended, Proper, Matches, Search, ViewOf, Covers;
    var bound := TableTextBound(routes);
    var n := bound + 1;
    var parts := DeadEndRequest(p, i, text, n);
    DeadEndMatches(p, i, text, n);
    RequestIsProper(routes, p, i, text, n);
    assert Search(ViewOf(routes), [], parts, map[]).handler.Some?;
    var q := SearchIsPreferred(routes, parts, map[]);
    AnswersCover(Table(routes), p, i, text, n, q);
  }

  lemma FoundWithoutDeadEnds(routes: seq<Route>, p: Pattern, parts: seq<string>, params: map<string, string>)
    requires NoDeadEnds(Table(routes)) && p in Table(routes) && Matches(p, parts)
    ensures Search(ViewOf(routes), [], parts, params).handler.Some?
  {
    hide NoDeadEnds, Table, Extended, Matches, Search, ViewOf, Preferred;
    var q := PreferredExists(Table(routes), p, parts, 0);
    assert Preferred(Table(routes), q, parts);
    var found := SearchIsPreferred(routes, parts, params);
  }

  /**
   Every request that some route matches is found, exactly when the table has no dead ends: the condition is on the
   registered patterns alone.
   */
  lemma FindsAllExactlyWithoutDeadEnds(routes: seq<Route>)
    ensures NoDeadEnds(Table(routes)) <==> FindsAll(routes)
  {
    hide Table, Extended, Proper, Matches, Search, ViewOf, Covers, CoveredBeyond;
    if NoDeadEnds(Table(routes)) {
      forall p, parts, params | p in Table(routes) && Matches(p, parts) && Proper(parts)
        ensures Search(ViewOf(routes), [], parts, params).handler.Some?
      {
        FoundWithoutDeadEnds(routes, p, parts, params);
      }
    }
    if FindsAll(routes) {
      forall p: Pattern, i: nat, text: string
        | p in Table(routes) && i < |p| && p[i] == Wild && Extended(Table(routes), p[..i] + [Static(text)])
        ensures CoveredBeyond(Table(routes), p, i, text)
      {
        FoundCovers(routes, p, i, text);
      }
    }
  }
}
