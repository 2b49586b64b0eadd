/** The router object: one exact map and one trie for each method. */
module Router {
  import opened Prelude
  import opened HttpTypes
  import opened RouteTable
  import opened TrieModel
  import opened Trie
  import opened RouterSpec

  class RouterObject {
    var staticRoutes: seq<map<string, Handler>>
    var dynamicRoutes: seq<Tree>
    var pathStorage: seq<string>
    ghost var regs: seq<Registration>
    ghost var Repr: set<object>

    /** The tries are valid, lie within the router's representation and share no node. */
    static ghost predicate Separate(trees: seq<Tree>, Repr: set<object>, owner: object)
      reads Repr
    {
      && (forall i :: 0 <= i < |trees| ==>
            trees[i] in Repr && trees[i].Repr <= Repr && owner !in trees[i].Repr && trees[i].Valid())
      && (forall i, j :: 0 <= i < j < |trees| ==> trees[i].Repr !! trees[j].Repr)
    }

    static lemma SeparateAppend(trees: seq<Tree>, Repr: set<object>, owner: object, tree: Tree)
      requires Separate(trees, Repr, owner) && owner in Repr
      requires tree.Valid() && tree.Repr !! Repr
      ensures Separate(trees + [tree], Repr + tree.Repr, owner)
    {
      hide Tree.Valid;
    }

    /** Each method's map and trie hold what was registered for it. */
    ghost predicate Valid()
      reads this, Repr
    {
      && this in Repr && |staticRoutes| == |dynamicRoutes| == 8
      && Separate(dynamicRoutes, Repr, this)
      && (forall m :: staticRoutes[MethodIndex(m)] == StaticMap(regs, m))
      && (forall m :: dynamicRoutes[MethodIndex(m)].view == ViewOf(DynamicRoutes(regs, m)))
    }

    constructor ()
      ensures Valid() && fresh(Repr) && regs == []
    {
      staticRoutes := seq(8, _ => map[]);
      dynamicRoutes, pathStorage, regs := [], [], [];
      Repr := {this};
      new;
      hide Tree.Valid, ViewOf, DynamicRoutes, StaticMap, MethodIndex, Separate;
      var trees, repr := NewTrees(this);
      dynamicRoutes, Repr := trees, repr;
      EmptyRouter();
    }

    static lemma EmptyRouter()
      ensures forall m :: StaticMap([], m) == map[] && ViewOf(DynamicRoutes([], m)) == EMPTY
    {
    }

    /** Eight empty tries. */
    static method NewTrees(owner: object) returns (trees: seq<Tree>, ghost repr: set<object>)
      ensures |trees| == 8 && owner in repr && fresh(repr - {owner})
      ensures Separate(trees, repr, owner)
      ensures forall i :: 0 <= i < |trees| ==> trees[i].view == EMPTY
    {
      hide Tree.Valid;
      trees, repr := [], {owner};
      while |trees| < 8
        invariant |trees| <= 8 && owner in repr && fresh(repr - {owner})
        invariant forall i :: 0 <= i < |trees| ==> trees[i] in repr && trees[i].view == EMPTY
        invariant Separate(trees, repr, owner)
      {
        var tree := new Tree();
        SeparateAppend(trees, repr, owner, tree);
        ValidTree(tree);
        trees := trees + [tree];
        repr := repr + tree.Repr;
      }
    }

    static lemma ValidTree(tree: Tree)
      requires tree.Valid()
      ensures tree in tree.Repr
    {
    }

    /** The exact maps after an exact registration, and the tries after a pattern registration. */
    static lemma RegistrationAdds(regs: seq<Registration>, r: Registration)
      ensures forall m :: StaticMap(regs + [r], m) ==
                if IsStaticFor(r, m) then StaticMap(regs, m)[r.path := r.handler]
                else StaticMap(regs, m)
      ensures forall m :: ViewOf(DynamicRoutes(regs + [r], m)) ==
                if IsDynamicFor(r, m) then Insert(ViewOf(DynamicRoutes(regs, m)), Route(r.path, r.handler))
                else ViewOf(DynamicRoutes(regs, m))
    {
    }

    /** A path without a colon goes into the exact map. */
    method AddExact(m: HttpMethod, ghost methodName: string, path: string, handler: Handler)
      requires Valid() && m == ToMethod(methodName) && !IsDynamic(path)
      modifies this
      ensures Valid() && Repr == old(Repr)
      ensures regs == old(regs) + [Registration(methodName, path, handler)]
    {
      hide StaticMap, DynamicRoutes, ViewOf, Insert, IsDynamic, ToMethod, Tree.Valid, MethodIndex;
      var index := MethodIndex(m);
      ghost var r := Registration(methodName, path, handler);
      RegistrationAdds(regs, r);
      pathStorage := pathStorage + [path];
      var exact: map<string, Handler> := staticRoutes[index][path := handler];
      staticRoutes := staticRoutes[index := exact];
      regs := regs + [r];
      forall other ensures staticRoutes[MethodIndex(other)] == StaticMap(regs, other) {
        MethodIndexInjective(m, other);
      }
    }

    /** A path with a colon goes into the trie. */
    method AddPattern(m: HttpMethod, ghost methodName: string, path: string, handler: Handler)
      requires Valid() && m == ToMethod(methodName) && IsDynamic(path)
      modifies Repr
      ensures Valid() && fresh(Repr - old(Repr))
      ensures regs == old(regs) + [Registration(methodName, path, handler)]
    {
      hide StaticMap, DynamicRoutes, ViewOf, Insert, IsDynamic, ToMethod, Tree.Valid, MethodIndex;
      var index := MethodIndex(m);
      ghost var r := Registration(methodName, path, handler);
      RegistrationAdds(regs, r);
      var tree := dynamicRoutes[index];
      tree.InsertRoute(path, handler);
      Repr := Repr + tree.Repr;
      regs := regs + [r];
      forall other ensures dynamicRoutes[MethodIndex(other)].view == ViewOf(DynamicRoutes(regs, other)) {
        MethodIndexInjective(m, other);
      }
    }

    method Add(methodName: string, path: string, handler: Handler)
      requires Valid()
      modifies Repr
      ensures Valid() && fresh(Repr - old(Repr))
      ensures regs == if ToMethod(methodName) == UNKNOWN then old(regs)
                      else old(regs) + [Registration(methodName, path, handler)]
    {
      hide Valid, ToMethod;
      InRepr();
      var m := ToMethod(methodName);
      if m == UNKNOWN {
        return;
      }
      if IsDynamic(path) {
        AddPattern(m, methodName, path, handler);
      } else {
        AddExact(m, methodName, path, handler);
      }
    }

    lemma InRepr()
      requires Valid()
      ensures this in Repr
    {
    }

    /** Selects a handler and binds parameters; calling the handler is not part of this model. */
    method Select(httpMethod: HttpMethod, path: string, before: map<string, string>)
      returns (handler: Option<Handler>, params: map<string, string>)
      requires Valid()
      ensures Found(handler, params) == Resolve(regs, httpMethod, path, before)
    {
      hide StaticMap, DynamicRoutes, ViewOf, Segments, TrieModel.Search, Tree.Valid;
      var index := MethodIndex(httpMethod);
      if index >= 7 {
        return None, before;
      }
      if path in staticRoutes[index] {
        return Some(staticRoutes[index][path]), before;
      }
      handler, params := dynamicRoutes[index].SearchPath(path, before);
    }
  }
}
