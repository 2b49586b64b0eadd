/** Which handler a list of registrations selects for a request. */
module RouterSpec {
  import opened Prelude
  import opened Text
  import opened HttpTypes
  import opened RouteTable
  import opened TrieModel

  datatype Registration = Registration(methodName: string, path: string, handler: Handler)

  predicate IsDynamic(path: string) {
    FindChar(path, ':').Some?
  }

  predicate IsStaticFor(r: Registration, m: HttpMethod) {
    ToMethod(r.methodName) == m && !IsDynamic(r.path)
  }

  predicate IsDynamicFor(r: Registration, m: HttpMethod) {
    ToMethod(r.methodName) == m && IsDynamic(r.path)
  }

  /** The exact routes of a method, the last handler of a path winning. */
  function StaticMap(regs: seq<Registration>, m: HttpMethod): map<string, Handler> {
    if regs == [] then map[]
    else
      var before, r := StaticMap(regs[..|regs| - 1], m), regs[|regs| - 1];
      if IsStaticFor(r, m) then before[r.path := r.handler] else before
  }

  /** The registrations that went into the trie of a method, in order. */
  function DynamicRoutes(regs: seq<Registration>, m: HttpMethod): seq<Route> {
    if regs == [] then []
    else
      var before, r := DynamicRoutes(regs[..|regs| - 1], m), regs[|regs| - 1];
      if IsDynamicFor(r, m) then before + [Route(r.path, r.handler)] else before
  }

  /** The selected handler and the parameters. */
  ghost function Resolve(regs: seq<Registration>, m: HttpMethod, path: string, params: map<string, string>): Found {
    if m == UNKNOWN then Found(None, params)
    else if path in StaticMap(regs, m) then Found(Some(StaticMap(regs, m)[path]), params)
    else Search(ViewOf(DynamicRoutes(regs, m)), [], Segments(path), params)
  }

  /** A path is bound to the handler of its last exact registration, if it has one. */
  lemma {:induction false} LastStaticWins(regs: seq<Registration>, m: HttpMethod, path: string, last: nat)
    requires last < |regs| && IsStaticFor(regs[last], m) && regs[last].path == path
    requires forall i :: last < i < |regs| ==> !(IsStaticFor(regs[i], m) && regs[i].path == path)
    ensures path in StaticMap(regs, m) && StaticMap(regs, m)[path] == regs[last].handler
  {
    hide IsStaticFor;
    if last < |regs| - 1 {
      LastStaticWins(regs[..|regs| - 1], m, path, last);
    }
  }

  lemma {:induction false} NoStatic(regs: seq<Registration>, m: HttpMethod, path: string)
    requires forall i :: 0 <= i < |regs| ==> !(IsStaticFor(regs[i], m) && regs[i].path == path)
    ensures path !in StaticMap(regs, m)
  {
    hide IsStaticFor;
    if regs != [] {
      NoStatic(regs[..|regs| - 1], m, path);
    }
  }

  /** The last exact registration of a method and path is selected, whatever else is registered. */
  lemma ExactRouteIsSelected(regs: seq<Registration>, m: HttpMethod, path: string, params: map<string, string>,
      last: nat)
    requires m != UNKNOWN
    requires last < |regs| && IsStaticFor(regs[last], m) && regs[last].path == path
    requires forall i :: last < i < |regs| ==> !(IsStaticFor(regs[i], m) && regs[i].path == path)
    ensures Resolve(regs, m, path, params) == Found(Some(regs[last].handler), params)
  {
    hide IsStaticFor;
    LastStaticWins(regs, m, path, last);
  }

  /** Otherwise the method's pattern routes decide: the preferred pattern's last handler, or none. */
  lemma PatternRouteIsSelected(regs: seq<Registration>, m: HttpMethod, path: string, params: map<string, string>)
    returns (p: Pattern)
    requires m != UNKNOWN
    requires forall i :: 0 <= i < |regs| ==> !(IsStaticFor(regs[i], m) && regs[i].path == path)
    ensures var table := Table(DynamicRoutes(regs, m));
            match Resolve(regs, m, path, params).handler
            case Some(h) => Preferred(table, p, Segments(path)) && table[p] == h
            case None => forall q :: !Preferred(table, q, Segments(path))
  {
    hide IsStaticFor, Preferred, Table;
    NoStatic(regs, m, path);
    p := SearchIsPreferred(DynamicRoutes(regs, m), Segments(path), params);
  }

  // ---------- by name ----------

  /** The pattern routes of a method name: its registrations with a colon in the path, in order. */
  function PatternRoutes(regs: seq<Registration>, name: string): seq<Route> {
    if regs == [] then []
    else
      var before, r := PatternRoutes(regs[..|regs| - 1], name), regs[|regs| - 1];
      if r.methodName == name && exists i :: 0 <= i < |r.path| && r.path[i] == ':'
      then before + [Route(r.path, r.handler)] else before
  }

  lemma {:induction false} RoutesByName(regs: seq<Registration>, name: string)
    requires Known(name)
    ensures DynamicRoutes(regs, ToMethod(name)) == PatternRoutes(regs, name)
  {
    hide ToMethod, Known;
    if regs != [] {
      var r := regs[|regs| - 1];
      RoutesByName(regs[..|regs| - 1], name);
      MethodsAreNames(r.methodName, name);
    }
  }

  ghost predicate ExactFor(r: Registration, name: string, path: string) {
    r.methodName == name && r.path == path && Without(path, ':')
  }

  lemma ExactByName(r: Registration, name: string, path: string)
    requires Known(name)
    ensures IsStaticFor(r, ToMethod(name)) && r.path == path <==> ExactFor(r, name, path)
  {
    hide ToMethod, Known;
    MethodsAreNames(r.methodName, name);
  }

  /**
   By the names of methods alone: the last registration of just this method and path, without a colon, is selected;
   without one, the preferred pattern among the registrations of this method with a colon; and a name that is no
   method selects nothing.
   */
  lemma SelectedByName(regs: seq<Registration>, name: string, path: string, params: map<string, string>, last: nat)
    returns (p: Pattern)
    requires last < |regs| && ExactFor(regs[last], name, path)
             ==> forall i :: last < i < |regs| ==> !ExactFor(regs[i], name, path)
    ensures var found, table := Resolve(regs, ToMethod(name), path, params), Table(PatternRoutes(regs, name));
            && (!Known(name) ==> found == Found(None, params))
            && (Known(name) && last < |regs| && ExactFor(regs[last], name, path) ==>
                  found == Found(Some(regs[last].handler), params))
            && (Known(name) && (forall i :: 0 <= i < |regs| ==> !ExactFor(regs[i], name, path)) ==>
                  match found.handler
                  case Some(h) => Preferred(table, p, Segments(path)) && table[p] == h
                  case None => forall q :: !Preferred(table, q, Segments(path)))
  {
    hide ToMethod, Known, IsStaticFor, Preferred, Table, ExactFor, Resolve, Segments, DynamicRoutes, PatternRoutes;
    MethodsAreNames(name, name);
    p := [];
    if Known(name) {
      forall i | 0 <= i < |regs|
        ensures IsStaticFor(regs[i], ToMethod(name)) && regs[i].path == path <==> ExactFor(regs[i], name, path)
      {
        ExactByName(regs[i], name, path);
      }
      RoutesByName(regs, name);
      if last < |regs| && ExactFor(regs[last], name, path) {
        ExactRouteIsSelected(regs, ToMethod(name), path, params, last);
      } else if forall i :: 0 <= i < |regs| ==> !ExactFor(regs[i], name, path) {
        p := PatternRouteIsSelected(regs, ToMethod(name), path, params);
      }
    } else {
      NoMethodResolves(regs, path, params);
    }
  }

  lemma NoMethodResolves(regs: seq<Registration>, path: string, params: map<string, string>)
    ensures Resolve(regs, UNKNOWN, path, params) == Found(None, params)
  {
  }

  /** Registering under one name changes nothing for requests under another, whichever the two names are. */
  lemma OtherNamesUnaffected(regs: seq<Registration>, r: Registration, name: string, path: string,
      params: map<string, string>)
    requires r.methodName != name
    ensures Resolve(regs + [r], ToMethod(name), path, params) == Resolve(regs, ToMethod(name), path, params)
  {
    hide ToMethod, Known, Resolve;
    MethodsAreNames(r.methodName, name);
    MethodsAreNames(name, name);
    if Known(name) {
      OtherMethodsUnaffected(regs, r, ToMethod(name), path, params);
    } else {
      NoMethodResolves(regs, path, params);
      NoMethodResolves(regs + [r], path, params);
    }
  }

  /** Registering for one method changes no other method's answers. */
  lemma OtherMethodsUnaffected(regs: seq<Registration>, r: Registration, m: HttpMethod, path: string,
      params: map<string, string>)
    requires ToMethod(r.methodName) != m
    ensures Resolve(regs + [r], m, path, params) == Resolve(regs, m, path, params)
  {
  }

  /** A method the server does not know never resolves, and registering for one changes nothing. */
  lemma UnknownMethodsAreIgnored(regs: seq<Registration>, r: Registration, m: HttpMethod, path: string,
      params: map<string, string>)
    requires ToMethod(r.methodName) == UNKNOWN
    ensures Resolve(regs, UNKNOWN, path, params) == Found(None, params)
    ensures Resolve(regs + [r], m, path, params) == Resolve(regs, m, path, params)
  {
  }
}
