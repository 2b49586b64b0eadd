/**
 The trie as a graph of nodes that insertion extends in place. `nodeAt` says which node stands for which
 pattern; `view` is the value the graph represents.
 */
module Trie {
  import opened Prelude
  import opened Text
  import opened RouteTable
  import opened TrieModel

  datatype Child = Child(segment: string, node: Node)

  ghost predicate DistinctSegments(children: seq<Child>) {
    forall i, j :: 0 <= i < j < |children| ==> children[i].segment != children[j].segment
  }

  function ChildMap(children: seq<Child>): (m: map<string, Node>)
    ensures forall i :: 0 <= i < |children| ==> children[i].segment in m
    ensures forall s :: s in m ==> exists i :: 0 <= i < |children| && children[i].segment == s
  {
    if children == [] then map[]
    else ChildMap(children[..|children| - 1])[children[|children| - 1].segment := children[|children| - 1].node]
  }

  lemma {:induction false} ChildMapAt(children: seq<Child>, i: nat)
    requires i < |children| && DistinctSegments(children)
    ensures ChildMap(children)[children[i].segment] == children[i].node
  {
    if i < |children| - 1 {
      ChildMapAt(children[..|children| - 1], i);
    }
  }

  class Node {
    var linearChildren: seq<Child>
    var mapChildren: map<string, Node>
    var wildcard: Node?
    var wildcardName: string
    var handler: Option<Handler>

    constructor ()
      ensures StoreOk() && Children() == map[]
      ensures wildcard == null && handler == None
    {
      linearChildren, mapChildren := [], map[];
      wildcard, wildcardName, handler := null, "", None;
    }

    /** At most eight children are kept in a list; then all of them are in the map, and the list is empty. */
    ghost predicate StoreOk()
      reads this
    {
      && |linearChildren| <= 8 && DistinctSegments(linearChildren)
      && (linearChildren == [] || mapChildren == map[])
    }

    /** The children by segment, wherever they are kept. */
    ghost function Children(): map<string, Node>
      reads this
    {
      if mapChildren != map[] then mapChildren else ChildMap(linearChildren)
    }

    method FindChild(part: string) returns (child: Node?)
      requires StoreOk()
      ensures child == if part in Children() then Children()[part] else null
    {
      if mapChildren != map[] {
        return if part in mapChildren then mapChildren[part] else null;
      }
      child := FindInList(part);
    }

    /** The child in the list, if it is there. */
    method FindInList(part: string) returns (child: Node?)
      requires StoreOk()
      ensures child == if part in ChildMap(linearChildren) then ChildMap(linearChildren)[part] else null
    {
      for i := 0 to |linearChildren|
        invariant forall j :: 0 <= j < i ==> linearChildren[j].segment != part
      {
        if linearChildren[i].segment == part {
          ChildMapAt(linearChildren, i);
          return linearChildren[i].node;
        }
      }
      return null;
    }

    static ghost predicate Blank(n: Node)
      reads n
    {
      n.StoreOk() && n.Children() == map[] && n.wildcard == null && n.handler == None
    }

    method AppendToList(part: string) returns (child: Node)
      requires StoreOk() && mapChildren == map[] && |linearChildren| < 8 && part !in ChildMap(linearChildren)
      modifies this`linearChildren
      ensures StoreOk() && Children() == old(Children())[part := child]
      ensures fresh(child) && Blank(child)
    {
      child := new Node();
      linearChildren := linearChildren + [Child(part, child)];
      assert linearChildren[..|linearChildren| - 1] == old(linearChildren);
    }

    method FindOrAddInMap(part: string) returns (child: Node)
      requires StoreOk() && linearChildren == []
      modifies this`mapChildren
      ensures StoreOk() && Children() == old(Children())[part := child]
      ensures if part in old(Children()) then child == old(Children()[part]) else fresh(child) && Blank(child)
    {
      if part in mapChildren {
        child := mapChildren[part];
      } else {
        child := new Node();
        mapChildren := mapChildren[part := child];
      }
    }

    /** An existing child keeps its identity; a missing one is created, in the list or in the map. */
    method GetOrCreateChild(part: string) returns (child: Node)
      requires StoreOk()
      modifies this`linearChildren, this`mapChildren
      ensures StoreOk() && Children() == old(Children())[part := child]
      ensures if part in old(Children()) then child == old(Children()[part]) else fresh(child) && Blank(child)
    {
      hide Blank;
      var found := FindInList(part);
      if found != null {
        return found;
      }
      if mapChildren == map[] && |linearChildren| < 8 {
        child := AppendToList(part);
        return;
      }
      if mapChildren == map[] {
        Migrate();
      }
      child := FindOrAddInMap(part);
    }

    /** Moves every child from the list to the map. */
    method Migrate()
      requires StoreOk() && mapChildren == map[] && linearChildren != []
      modifies this`linearChildren, this`mapChildren
      ensures StoreOk() && linearChildren == [] && Children() == old(Children()) && mapChildren == old(Children())
    {
      for i := 0 to |linearChildren|
        invariant linearChildren == old(linearChildren)
        invariant mapChildren == ChildMap(linearChildren[..i])
      {
        assert linearChildren[..i + 1][..i] == linearChildren[..i];
        mapChildren := mapChildren[linearChildren[i].segment := linearChildren[i].node];
      }
      assert linearChildren[..|linearChildren|] == linearChildren;
      assert linearChildren[0].segment in mapChildren;
      linearChildren := [];
    }
  }

  class Tree {
    const root: Node
    ghost var nodeAt: map<Pattern, Node>
    ghost var view: View
    ghost var Repr: set<object>

    ghost predicate Valid()
      reads this, Repr
      ensures Valid() ==> this in Repr
    {
      && this in Repr
      && (forall p :: p in nodeAt ==> nodeAt[p] in Repr)
      && [] in nodeAt && nodeAt[[]] == root
      && Shape(nodeAt, view)
      && (forall p :: p in nodeAt ==> NodeOk(nodeAt[p], p, nodeAt, view))
    }

    /** Each node stands for one pattern, and the starts of a pattern have nodes too. */
    static ghost predicate Shape(nodeAt: map<Pattern, Node>, view: View) {
      && nodeAt.Keys == view.nodes && view.handlers.Keys <= view.nodes
      && (forall p: Pattern, step: Step :: p + [step] in nodeAt ==> p in nodeAt)
      && (forall p, q :: p in nodeAt && q in nodeAt && nodeAt[p] == nodeAt[q] ==> p == q)
    }

    static ghost predicate NodeOk(n: Node, p: Pattern, nodeAt: map<Pattern, Node>, view: View)
      reads n
    {
      && n.StoreOk()
      && (forall s :: s in n.Children() <==> p + [Static(s)] in nodeAt)
      && (forall s :: s in n.Children() ==> n.Children()[s] == nodeAt[p + [Static(s)]])
      && (n.wildcard != null <==> p + [Wild] in nodeAt)
      && (n.wildcard != null ==> n.wildcard == nodeAt[p + [Wild]] && n.wildcardName == WildName(view, p))
      && n.handler == Lookup(view.handlers, p)
    }

    constructor ()
      ensures Valid() && fresh(Repr) && view == EMPTY
    {
      var node := new Node();
      root := node;
      nodeAt, view, Repr := map[[] := node], EMPTY, {this, node};
    }

    /** A node that is not the parent of a new one stays as it was. */
    static lemma OthersStayOk(n: Node, q: Pattern, nodeAt: map<Pattern, Node>, view: View, at: Pattern,
        part: string, next: Node)
      requires part != "" && q != at && NodeOk(n, q, nodeAt, view)
      ensures NodeOk(n, q, nodeAt[at + [StepOf(part)] := next], Enter(view, at, part))
    {
      var p := at + [StepOf(part)];
      forall step ensures q + [step] != p {
        assert (q + [step])[..|q|] == q && p[..|at|] == at;
      }
    }

    /** A new node has no children, because no node below it exists. */
    static lemma NewNodeOk(n: Node, p: Pattern, nodeAt: map<Pattern, Node>, view: View, next: View)
      requires Node.Blank(n)
      requires p !in nodeAt && nodeAt.Keys == view.nodes && view.handlers.Keys <= view.nodes
          && next.handlers == view.handlers
      requires forall q: Pattern, step: Step :: q + [step] in nodeAt ==> q in nodeAt
      ensures NodeOk(n, p, nodeAt[p := n], next)
    {
      assert forall step :: |p + [step]| != |p|;
    }

    /** The parent of a static child. */
    static lemma StaticParentOk(n: Node, at: Pattern, nodeAt: map<Pattern, Node>, view: View, part: string,
        next: Node, before: map<string, Node>)
      requires part != "" && StepOf(part) == Static(part)
      requires n.StoreOk() && n.Children() == before[part := next]
      requires forall s :: s in before <==> at + [Static(s)] in nodeAt
      requires forall s :: s in before ==> before[s] == nodeAt[at + [Static(s)]]
      requires n.wildcard != null <==> at + [Wild] in nodeAt
      requires n.wildcard != null ==> n.wildcard == nodeAt[at + [Wild]] && n.wildcardName == WildName(view, at)
      requires n.handler == Lookup(view.handlers, at)
      ensures NodeOk(n, at, nodeAt[at + [Static(part)] := next], Enter(view, at, part))
    {
      forall step | at + [step] == at + [Static(part)] ensures step == Static(part) {
        assert (at + [step])[|at|] == (at + [Static(part)])[|at|];
      }
    }

    static lemma EnterShape(v: View, at: Pattern, part: string)
      requires part != ""
      ensures Enter(v, at, part).nodes == v.nodes + {at + [StepOf(part)]}
      ensures Enter(v, at, part).handlers == v.handlers
    {
    }

    static lemma ShapeExtends(nodeAt: map<Pattern, Node>, view: View, at: Pattern, part: string, next: Node)
      requires Shape(nodeAt, view) && part != "" && at in nodeAt
      requires if at + [StepOf(part)] in nodeAt then next == nodeAt[at + [StepOf(part)]]
               else forall p :: p in nodeAt ==> nodeAt[p] != next
      ensures Shape(nodeAt[at + [StepOf(part)] := next], Enter(view, at, part))
    {
      hide Enter;
      var p := at + [StepOf(part)];
      EnterShape(view, at, part);
      forall q: Pattern, step: Step | q + [step] == p ensures q == at {
        assert (q + [step])[..|q|] == q && p[..|at|] == at;
      }
      assert nodeAt[p := next].Keys == nodeAt.Keys + {p};
    }

    /** The graph is linked up again once the parent is, and the new node if there is one. */
    static lemma LinksExtend(nodeAt: map<Pattern, Node>, view: View, at: Pattern, part: string, next: Node)
      requires Shape(nodeAt, view) && part != "" && at in nodeAt
      requires forall q :: q in nodeAt && q != at ==> NodeOk(nodeAt[q], q, nodeAt, view)
      requires var p := at + [StepOf(part)];
               && NodeOk(nodeAt[at], at, nodeAt[p := next], Enter(view, at, part))
               && if p in nodeAt then next == nodeAt[p]
                  else Node.Blank(next)
      ensures var after := nodeAt[at + [StepOf(part)] := next];
              forall q :: q in after ==> NodeOk(after[q], q, after, Enter(view, at, part))
    {
      hide NodeOk, Enter, Node.Blank;
      var p := at + [StepOf(part)];
      var after := nodeAt[p := next];
      EnterShape(view, at, part);
      assert |p| != |at|;
      forall q | q in after ensures NodeOk(after[q], q, after, Enter(view, at, part)) {
        if q in nodeAt && q != at {
          OthersStayOk(nodeAt[q], q, nodeAt, view, at, part, next);
        } else if q == p {
          NewNodeOk(next, p, nodeAt, view, Enter(view, at, part));
        }
      }
    }

    static lemma OtherNode(nodeAt: map<Pattern, Node>, view: View, at: Pattern, q: Pattern)
      requires Shape(nodeAt, view) && at in nodeAt && q in nodeAt && q != at
      ensures nodeAt[q] != nodeAt[at]
    {
    }

    /** The child for a segment that is not a parameter: found or created. */
    static method AttachStatic(node: Node, ghost at: Pattern, part: string, ghost nodeAt: map<Pattern, Node>,
        ghost view: View)
      returns (next: Node)
      requires NodeOk(node, at, nodeAt, view) && part != "" && StepOf(part) == Static(part)
      modifies node
      ensures NodeOk(node, at, nodeAt[at + [StepOf(part)] := next], Enter(view, at, part))
      ensures if at + [StepOf(part)] in nodeAt then next == nodeAt[at + [StepOf(part)]]
              else fresh(next) && Node.Blank(next)
    {
      hide Enter;
      ghost var before := node.Children();
      next := node.GetOrCreateChild(part);
      StaticParentOk(node, at, nodeAt, view, part, next, before);
    }

    static lemma WildParentOk(n: Node, at: Pattern, nodeAt: map<Pattern, Node>, view: View, part: string, next: Node)
      requires part != "" && StepOf(part) == Wild
      requires n.StoreOk() && n.wildcard == next && n.wildcardName == NameOf(part)
      requires forall s :: s in n.Children() <==> at + [Static(s)] in nodeAt
      requires forall s :: s in n.Children() ==> n.Children()[s] == nodeAt[at + [Static(s)]]
      requires n.handler == Lookup(view.handlers, at)
      ensures NodeOk(n, at, nodeAt[at + [Wild] := next], Enter(view, at, part))
    {
      forall step | at + [step] == at + [Wild] ensures step == Wild {
        assert (at + [step])[|at|] == (at + [Wild])[|at|];
      }
    }

    /** The wildcard child: found or created, and renamed. */
    static method AttachWild(node: Node, ghost at: Pattern, part: string, ghost nodeAt: map<Pattern, Node>,
        ghost view: View)
      returns (next: Node)
      requires NodeOk(node, at, nodeAt, view) && part != "" && StepOf(part) == Wild
      modifies node
      ensures NodeOk(node, at, nodeAt[at + [StepOf(part)] := next], Enter(view, at, part))
      ensures if at + [StepOf(part)] in nodeAt then next == nodeAt[at + [StepOf(part)]]
              else fresh(next) && Node.Blank(next)
    {
      hide Enter;
      if node.wildcard == null {
        node.wildcard := new Node();
      }
      node.wildcardName := part[1..];
      next := node.wildcard;
      WildParentOk(node, at, nodeAt, view, part, next);
    }

    /** One step of an insertion: the child for the segment exists afterwards, and `next` is it. */
    method Descend(ghost at: Pattern, node: Node, part: string) returns (next: Node)
      requires Valid() && at in nodeAt && nodeAt[at] == node && part != ""
      modifies this, node
      ensures Valid() && fresh(Repr - old(Repr))
      ensures view == Enter(old(view), at, part)
      ensures at + [StepOf(part)] in nodeAt && nodeAt[at + [StepOf(part)]] == next
    {
      hide Enter, Shape, NodeOk;
      ghost var wasAt, was := nodeAt, view;
      forall q | q in nodeAt && q != at ensures nodeAt[q] != node {
        OtherNode(nodeAt, view, at, q);
      }
      if part[0] == ':' {
        next := AttachWild(node, at, part, nodeAt, view);
      } else {
        next := AttachStatic(node, at, part, nodeAt, view);
      }
      ShapeExtends(wasAt, was, at, part, next);
      LinksExtend(wasAt, was, at, part, next);
      view := Enter(view, at, part);
      nodeAt := nodeAt[at + [StepOf(part)] := next];
      Repr := Repr + {next};
    }

    static function WithHandler(view: View, at: Pattern, handler: Handler): View {
      view.(handlers := view.handlers[at := handler])
    }

    static method PutHandler(node: Node, ghost at: Pattern, handler: Handler, ghost nodeAt: map<Pattern, Node>,
        ghost view: View)
      requires NodeOk(node, at, nodeAt, view)
      modifies node
      ensures NodeOk(node, at, nodeAt, WithHandler(view, at, handler))
    {
      node.handler := Some(handler);
    }

    static lemma HandlerElsewhere(nodeAt: map<Pattern, Node>, view: View, at: Pattern, handler: Handler)
      requires Shape(nodeAt, view) && at in nodeAt
      requires forall q :: q in nodeAt && q != at ==> NodeOk(nodeAt[q], q, nodeAt, view)
      ensures Shape(nodeAt, WithHandler(view, at, handler))
      ensures forall q :: q in nodeAt && q != at ==> NodeOk(nodeAt[q], q, nodeAt, WithHandler(view, at, handler))
    {
    }

    /** Puts a handler at a node, replacing the one there. */
    method SetHandler(ghost at: Pattern, node: Node, handler: Handler)
      requires Valid() && at in nodeAt && nodeAt[at] == node
      modifies this, node
      ensures Valid() && Repr == old(Repr)
      ensures view == WithHandler(old(view), at, handler)
    {
      hide Shape, NodeOk, WithHandler;
      forall q | q in nodeAt && q != at ensures nodeAt[q] != node {
        OtherNode(nodeAt, view, at, q);
      }
      PutHandler(node, at, handler, nodeAt, view);
      HandlerElsewhere(nodeAt, view, at, handler);
      view := WithHandler(view, at, handler);
    }

    lemma ValidNodes()
      requires Valid()
      ensures this in Repr && [] in nodeAt && nodeAt[[]] == root
      ensures forall p :: p in nodeAt ==> nodeAt[p] in Repr
    {
    }

    /** Registers a path: the last handler of a pattern replaces the ones before it. */
    method InsertRoute(path: string, handler: Handler)
      requires Valid()
      modifies Repr
      ensures Valid() && fresh(Repr - old(Repr))
      ensures view == Insert(old(view), Route(path, handler))
    {
      hide Valid, Segments, EnterAll, PatternOf, Enter, FindChar, StepOf;
      ValidNodes();
      var node := root;
      ghost var at: Pattern := [];
      var start := 0;
      var len := |path|;
      ghost var was := view;
      assert path[0..] == path;
      while start < len
        invariant start <= len
        invariant Valid() && fresh(Repr - old(Repr))
        invariant at in nodeAt && nodeAt[at] == node
        invariant EnterAll(view, at, Segments(path[start..])) == EnterAll(was, [], Segments(path))
        invariant at + PatternOf(Segments(path[start..])) == [] + PatternOf(Segments(path))
        decreases len - start
      {
        start := SkipSlashes(path, start);
        if start >= len {
          break;
        }
        var end := FindChar(path, '/', start);
        var stop := if end.None? then len else end.value;
        var part := path[start..stop];
        NextSegment(path, start, stop);
        EnterAllStep(view, at, part, Segments(path[stop..]));
        ValidNodes();
        node := Descend(at, node, part);
        at := at + [StepOf(part)];
        start := stop;
      }
      ValidNodes();
      InsertEnds(was, view, at, path, path[start..], handler);
      SetHandler(at, node, handler);
    }

    static lemma EnterAllStep(view: View, at: Pattern, part: string, rest: seq<string>)
      requires part != "" && Parts(rest)
      ensures Parts([part] + rest)
      ensures EnterAll(view, at, [part] + rest) == EnterAll(Enter(view, at, part), at + [StepOf(part)], rest)
      ensures at + PatternOf([part] + rest) == at + [StepOf(part)] + PatternOf(rest)
    {
      assert ([part] + rest)[1..] == rest;
      PatternSplit(at, [part] + rest);
    }

    static lemma InsertEnds(was: View, view: View, at: Pattern, path: string, rest: string, handler: Handler)
      requires rest == ""
      requires EnterAll(view, at, Segments(rest)) == EnterAll(was, [], Segments(path))
      requires at + PatternOf(Segments(rest)) == [] + PatternOf(Segments(path))
      ensures WithHandler(view, at, handler) == Insert(was, Route(path, handler))
    {
      NoSegments();
      assert PatternOf([]) == [] && at + [] == at;
      assert [] + PatternOf(Segments(path)) == RoutePattern(Route(path, handler));
    }

    /** What a node says about its children is what the represented value says. */
    lemma NodeAnswers(at: Pattern)
      requires Valid() && at in nodeAt
      ensures var n := nodeAt[at];
              && n.StoreOk() && n.handler == Lookup(view.handlers, at)
              && (forall s :: s in n.Children() <==> at + [Static(s)] in view.nodes)
              && (forall s :: s in n.Children() ==>
                    at + [Static(s)] in nodeAt && n.Children()[s] == nodeAt[at + [Static(s)]])
              && (n.wildcard != null <==> at + [Wild] in view.nodes)
              && (n.wildcard != null ==>
                    at + [Wild] in nodeAt && n.wildcard == nodeAt[at + [Wild]] && n.wildcardName == WildName(view, at))
    {
    }

    /** Finds the handler for a request path and binds parameters on the way, also when it finds none. */
    method SearchPath(path: string, before: map<string, string>)
      returns (handler: Option<Handler>, params: map<string, string>)
      requires Valid()
      ensures Found(handler, params) == Search(view, [], Segments(path), before)
    {
      hide Valid, Segments, FindChar, WildName, Node.Children, Node.StoreOk;
      ValidNodes();
      var node := root;
      ghost var at: Pattern := [];
      var start := 0;
      var len := |path|;
      params := before;
      assert path[0..] == path;
      while start < len
        invariant start <= len
        invariant at in nodeAt && nodeAt[at] == node
        invariant Search(view, at, Segments(path[start..]), params) == Search(view, [], Segments(path), before)
        decreases len - start
      {
        start := SkipSlashes(path, start);
        if start >= len {
          break;
        }
        var end := FindChar(path, '/', start);
        var stop := if end.None? then len else end.value;
        var part := path[start..stop];
        NextSegment(path, start, stop);
        assert ([part] + Segments(path[stop..]))[1..] == Segments(path[stop..]);
        start := stop;
        NodeAnswers(at);
        var next := node.FindChild(part);
        if next != null {
          node := next;
          at := at + [Static(part)];
        } else if node.wildcard != null {
          params := params[node.wildcardName := part];
          node := node.wildcard;
          at := at + [Wild];
        } else {
          return None, params;
        }
      }
      assert path[start..] == "";
      NoSegments();
      NodeAnswers(at);
      handler := node.handler;
    }
  }

  method SkipSlashes(path: string, from: nat) returns (start: nat)
    requires from <= |path|
    ensures from <= start <= |path|
    ensures start < |path| ==> path[start] != '/'
    ensures Segments(path[start..]) == Segments(path[from..])
  {
    start := from;
    while start < |path| && path[start] == '/'
      invariant from <= start <= |path|
      invariant Segments(path[start..]) == Segments(path[from..])
    {
      assert path[start..][1..] == path[start + 1..];
      start := start + 1;
    }
  }

  /** The segment that begins here is the first of the rest of the path. */
  lemma NextSegment(path: string, start: nat, stop: nat)
    requires start < stop <= |path| && path[start] != '/'
    requires forall i :: start <= i < stop ==> path[i] != '/'
    requires stop < |path| ==> path[stop] == '/'
    ensures Segments(path[start..]) == [path[start..stop]] + Segments(path[stop..])
  {
    assert path[start..] == path[start..stop] + path[stop..];
    FirstSegment(path[start..stop], path[stop..]);
  }
}
