/** The application object of the worker threads: the route tree it builds at
    registration, the resolution of a request path against it, and the cache of
    loaded handler functions. The Python runtime that loads a handler is not
    modelled; a loader function stands for it. */
module Application {
  import opened Wrappers
  import opened Text
  import opened Routes

  /** Why a handler could not be produced. */
  datatype HandlerError =
    | MissingSeparator   // the handler id has no `::` (an `unwrap` on `None`)
    | LoadFailed         // the file could not be read or has no such function

  predicate NoDuplicates<T(==)>(s: seq<T>) {
    forall i, j :: 0 <= i < j < |s| ==> s[i] != s[j]
  }

  class App<H> {
    var routesTree: RouteNode
    var handlers: map<(string, string), H>
    /** The keys of every successful load, in order. */
    ghost var loaded: seq<(string, string)>

    /** The tree is well formed, and each cached handler was loaded exactly
        once. */
    ghost predicate Valid()
      reads this
    {
      && WellFormed(routesTree)
      && (forall k :: k in handlers <==> k in loaded)
      && NoDuplicates(loaded)
    }

    /** `App::new`: an empty tree and an empty cache. */
    constructor()
      ensures Valid()
      ensures routesTree == EmptyNode && handlers == map[] && loaded == []
    {
      routesTree := EmptyNode;
      handlers := map[];
      loaded := [];
    }

    /** `load_route_tree`: register each `(pattern, handler)` pair in order. */
    method LoadRouteTree(routes: seq<(string, string)>)
      requires Valid()
      modifies this
      ensures Valid()
      ensures routesTree == RegisterAll(old(routesTree), routes)
      ensures handlers == old(handlers) && loaded == old(loaded)
    {
      var i := 0;
      while i < |routes|
        invariant 0 <= i <= |routes|
        invariant Valid()
        invariant routesTree == RegisterAll(old(routesTree), routes[..i])
        invariant handlers == old(handlers) && loaded == old(loaded)
      {
        var (pattern, handler) := routes[i];
        RegisterWellFormed(routesTree, pattern, handler);
        routesTree := Register(routesTree, pattern, handler);
        assert routes[..i + 1][..i] == routes[..i];
        i := i + 1;
      }
      assert routes[..i] == routes;
    }

    /** `resolve_route`: the whole path as a root key, else the query pairs
        followed by the walk over the path segments. The tree is only read. */
    method ResolveRoute(route: string) returns (handler: Option<string>, vars: map<string, string>)
      requires Valid()
      ensures (handler, vars) == Resolve(routesTree, route)
    {
      if route in routesTree.children {
        return routesTree.children[route].handler, map[];
      }
      var path, query := route, "";
      match SplitOnce(route, "?") {
        case Some((p, q)) => path, query := p, q;
        case None =>
      }

      vars := CollectQuery(query);
      handler, vars := WalkSegments(routesTree, Split(path, '/')[1..], vars);
    }

    /** `get_or_save_handler`: the handler id `file::function` is split at its
        first `::`; a cached handler is returned without loading, otherwise the
        loader runs once and a handler it produces is cached under exactly that
        key. A failed load leaves the cache as it was. */
    method GetOrSaveHandler(id: string, loader: (string, string) -> Option<H>) returns (r: Result<H, HandlerError>)
      requires Valid()
      modifies this
      ensures Valid()
      ensures routesTree == old(routesTree)
      ensures SplitOnce(id, "::").None? ==>
        r == Err(MissingSeparator) && handlers == old(handlers) && loaded == old(loaded)
      ensures SplitOnce(id, "::").Some? && SplitOnce(id, "::").value in old(handlers) ==>
        var key := SplitOnce(id, "::").value;
        r == Ok(old(handlers)[key]) && handlers == old(handlers) && loaded == old(loaded)
      ensures SplitOnce(id, "::").Some? && SplitOnce(id, "::").value !in old(handlers) ==>
        var key := SplitOnce(id, "::").value;
        match loader(key.0, key.1)
        case None => r == Err(LoadFailed) && handlers == old(handlers) && loaded == old(loaded)
        case Some(h) => r == Ok(h) && handlers == old(handlers)[key := h] && loaded == old(loaded) + [key]
    {
      match SplitOnce(id, "::") {
        case None =>
          return Err(MissingSeparator);
        case Some(key) =>
          if key in handlers {
            return Ok(handlers[key]);
          }
          match loader(key.0, key.1) {
            case None =>
              return Err(LoadFailed);
            case Some(h) =>
              handlers := handlers[key := h];
              loaded := loaded + [key];
              return Ok(h);
          }
      }
    }
  }

  /** The query loop of `resolve_route`: each piece of the query split on `&`
      that holds a `=` sets its key to its value, in order. */
  method CollectQuery(query: string) returns (vars: map<string, string>)
    ensures vars == ParseQuery(query)
  {
    vars := map[];
    var pieces := Split(query, '&');
    ghost var pairs := QueryPairs(pieces);
    var j := 0;
    while j < |pieces|
      invariant 0 <= j <= |pieces|
      invariant vars == Collect(pairs[..j])
    {
      match SplitOnce(pieces[j], "=") {
        case Some((key, value)) => vars := vars[key := value];
        case None =>
      }
      assert pairs[..j + 1][..j] == pairs[..j];
      j := j + 1;
    }
    assert pairs[..j] == pairs;
  }

  /** The segment loop of `resolve_route`: from the root, each segment moves to
      the child `next_item_while_resolving` finds, capturing a parameter, and
      is skipped when there is none; the handler is the one of the child
      matched at the last index. */
  method WalkSegments(root: RouteNode, segments: seq<string>, query: map<string, string>)
      returns (handler: Option<string>, vars: map<string, string>)
    requires WellFormed(root)
    ensures (handler, vars) == Walk(root, segments, query)
  {
    vars := query;
    var node := root;
    var i := 0;
    while i < |segments|
      invariant 0 <= i <= |segments|
      invariant WellFormed(node)
      invariant Walk(node, segments[i..], vars) == Walk(root, segments, query)
    {
      assert segments[i..][1..] == segments[i + 1..];
      match NextItem(segments[i], node, true) {
        case None =>
        case Some(child) =>
          WalkStep(node, segments[i..], vars, child);
          if child.path == Some(CustomParam) {
            vars := vars[child.originalPath.value := segments[i]];
          }
          if i == |segments| - 1 {
            return child.handler, vars;
          }
          node := child;
      }
      i := i + 1;
    }
    return None, vars;
  }

  /** Two requests for the same handler load it once: the second call finds the
      handler the first one cached and returns it unchanged. */
  method LoadsOnce<H>(app: App<H>, id: string, loader: (string, string) -> Option<H>)
      returns (first: Result<H, HandlerError>, second: Result<H, HandlerError>)
    requires app.Valid()
    modifies app
    ensures app.Valid()
    ensures second == first
    ensures |app.loaded| <= |old(app.loaded)| + 1
  {
    first := app.GetOrSaveHandler(id, loader);
    ghost var between := app.loaded;
    second := app.GetOrSaveHandler(id, loader);
    assert first.Ok? ==> app.loaded == between;
  }
}
