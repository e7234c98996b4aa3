/** The route tree of src/app/app.rs: how `(pattern, handler id)` pairs are
    stored, and how a request path is resolved to a handler id and the
    variables captured on the way. Nodes are owned by their parent alone
    (`Box<RouteNode>` in a `HashMap`), so the tree is a value here; the in-place
    insertion of the source is a function that returns the updated tree. */
module Routes {
  import opened Wrappers
  import opened Text

  /** The edge key under which every parameter segment (`<name>`) is stored. */
  const CustomParam: string := "CUSTOM_PARAM"

  /** A node of the route tree. */
  datatype RouteNode = RouteNode(
    path: Option<string>,          // the key this node is stored under in its parent
    originalPath: Option<string>,  // the text it was registered from (`<id>` for a parameter)
    handler: Option<string>,       // `"<file>::<function>"` on terminal nodes
    children: map<string, RouteNode>)

  /** `RouteNode::default()`, the root of a fresh application. */
  const EmptyNode: RouteNode := RouteNode(None, None, None, map[])

  /** The edge key of one pattern segment: a segment that starts with `<` is a
      parameter and goes under `CUSTOM_PARAM`. */
  function EdgeKey(segment: string): string {
    if StartsWith(segment, "<") then CustomParam else segment
  }

  /** Every node below the root is stored under its own `path`, and that key is
      the edge key of the text it remembers in `originalPath`. */
  ghost predicate WellFormed(n: RouteNode) {
    forall k :: k in n.children ==>
      && n.children[k].path == Some(k)
      && n.children[k].originalPath.Some?
      && EdgeKey(n.children[k].originalPath.value) == k
      && WellFormed(n.children[k])
  }

  // ---------------------------------------------------------------------------
  // Registration (load_route_tree, recursive_insert)
  // ---------------------------------------------------------------------------

  /** `recursive_insert`: descend along the `/`-separated segments of `route`,
      skipping empty segments before the last one, creating missing nodes, and
      set the handler of the node of the last segment. Only `children` of the
      given node change. */
  function RecursiveInsert(route: string, handler: string, tree: RouteNode): (t: RouteNode)
    ensures t.path == tree.path && t.originalPath == tree.originalPath && t.handler == tree.handler
    ensures tree.children.Keys <= t.children.Keys
    decreases |route|
  {
    match SplitOnce(route, "/")
    case Some((left, right)) =>
      var key := EdgeKey(left);
      if key == "" then RecursiveInsert(right, handler, tree)
      else
        var child := if key in tree.children then tree.children[key]
                     else RouteNode(Some(key), Some(left), None, map[]);
        tree.(children := tree.children[key := RecursiveInsert(right, handler, child)])
    case None =>
      var key := EdgeKey(route);
      var node := if key in tree.children then tree.children[key].(handler := Some(handler))
                  else RouteNode(Some(key), Some(route), Some(handler), map[]);
      tree.(children := tree.children[key := node])
  }

  /** The leaf that a pattern without `<` becomes: a root child keyed by the
      whole pattern. */
  function LiteralNode(pattern: string, handler: string): RouteNode {
    RouteNode(Some(pattern), Some(pattern), Some(handler), map[])
  }

  /** One iteration of `load_route_tree`. */
  function Register(tree: RouteNode, pattern: string, handler: string): RouteNode {
    if Contains(pattern, "<") then RecursiveInsert(pattern, handler, tree)
    else tree.(children := tree.children[pattern := LiteralNode(pattern, handler)])
  }

  /** `load_route_tree`: the registrations applied in order. */
  function RegisterAll(tree: RouteNode, routes: seq<(string, string)>): RouteNode {
    if routes == [] then tree
    else
      var last := routes[|routes| - 1];
      Register(RegisterAll(tree, routes[..|routes| - 1]), last.0, last.1)
  }

  // ---------------------------------------------------------------------------
  // Where a registration lands
  // ---------------------------------------------------------------------------

  /** The edge keys of a list of segments: each segment's edge key, where empty
      segments other than the last create no edge. */
  function SegmentKeys(segments: seq<string>): (keys: seq<string>)
    requires |segments| >= 1
    ensures |keys| >= 1
  {
    if |segments| == 1 then [EdgeKey(segments[0])]
    else if segments[0] == "" then SegmentKeys(segments[1..])
    else [EdgeKey(segments[0])] + SegmentKeys(segments[1..])
  }

  /** The edge keys from the root to the node a pattern is registered at. */
  function KeyPath(route: string): (keys: seq<string>)
    ensures |keys| >= 1
  {
    SegmentKeys(Split(route, '/'))
  }

  /** The raw text of a pattern's last segment. */
  function LastSegment(route: string): string {
    var segments := Split(route, '/');
    segments[|segments| - 1]
  }

  /** The node reached from `n` by following `keys` exactly. */
  function Lookup(n: RouteNode, keys: seq<string>): Option<RouteNode>
    decreases |keys|
  {
    if keys == [] then Some(n)
    else if keys[0] in n.children then Lookup(n.children[keys[0]], keys[1..])
    else None
  }

  /** What the terminal node of a registration is, given what was there before. */
  function Installed(existing: Option<RouteNode>, segment: string, handler: string): RouteNode {
    match existing
    case Some(n) => n.(handler := Some(handler))
    case None => RouteNode(Some(EdgeKey(segment)), Some(segment), Some(handler), map[])
  }

  predicate IsPrefix(a: seq<string>, b: seq<string>) {
    |a| <= |b| && b[..|a|] == a
  }

  lemma EdgeKeyEmpty(s: string)
    ensures EdgeKey(s) == "" <==> s == ""
  {
  }

  /** Empty segments create no edge: on the key path of a registration only
      the last key can be empty, and it is empty exactly when the pattern
      ends in `/`. */
  lemma {:induction false} SegmentKeysShape(segments: seq<string>)
    requires |segments| >= 1
    ensures var keys := SegmentKeys(segments);
      && (forall k :: 0 <= k < |keys| - 1 ==> keys[k] != "")
      && (keys[|keys| - 1] == "" <==> segments[|segments| - 1] == "")
    decreases |segments|
  {
    EdgeKeyEmpty(segments[0]);
    if |segments| > 1 {
      SegmentKeysShape(segments[1..]);
    }
  }

  lemma KeyPathShape(route: string)
    ensures var keys := KeyPath(route);
      && (forall k :: 0 <= k < |keys| - 1 ==> keys[k] != "")
      && (keys[|keys| - 1] == "" <==> LastSegment(route) == "")
  {
    SegmentKeysShape(Split(route, '/'));
  }

  /** A pattern without `/` is a single segment. */
  lemma KeyPathSingle(route: string)
    requires SplitOnce(route, "/").None?
    ensures KeyPath(route) == [EdgeKey(route)] && LastSegment(route) == route
  {
  }

  /** The key path of a pattern follows its first `/`. */
  lemma KeyPathStep(route: string, l: string, r: string)
    requires SplitOnce(route, "/") == Some((l, r))
    ensures KeyPath(route) == (if l == "" then KeyPath(r) else [EdgeKey(l)] + KeyPath(r))
    ensures LastSegment(route) == LastSegment(r)
  {
    var segs := Split(route, '/');
    assert segs == [l] + Split(r, '/');
    assert segs[1..] == Split(r, '/');
    EdgeKeyEmpty(l);
  }

  lemma LookupChildren(n: RouteNode, m: RouteNode, keys: seq<string>)
    requires n.children == m.children && keys != []
    ensures Lookup(n, keys) == Lookup(m, keys)
  {
  }

  /** After a registration, its key path leads to a node that carries the new
      handler: the node that was there with only its handler replaced (same
      children, same `originalPath`), or else a new leaf for the last segment. */
  lemma {:induction false} InsertReaches(route: string, handler: string, tree: RouteNode)
    ensures Lookup(RecursiveInsert(route, handler, tree), KeyPath(route))
         == Some(Installed(Lookup(tree, KeyPath(route)), LastSegment(route), handler))
    decreases |route|
  {
    var t := RecursiveInsert(route, handler, tree);
    match SplitOnce(route, "/")
    case None =>
      KeyPathSingle(route);
      var key := EdgeKey(route);
      assert Lookup(t, [key]) == Lookup(t.children[key], []);
    case Some((l, r)) =>
      KeyPathStep(route, l, r);
      var key := EdgeKey(l);
      if key == "" {
        InsertReaches(r, handler, tree);
      } else {
        var child := if key in tree.children then tree.children[key]
                     else RouteNode(Some(key), Some(l), None, map[]);
        InsertReaches(r, handler, child);
        var rest := KeyPath(r);
        var keys := [key] + rest;
        assert keys[0] == key && keys[1..] == rest;
        assert Lookup(t, keys) == Lookup(RecursiveInsert(r, handler, child), rest);
        if key !in tree.children {
          assert Lookup(child, rest) == None;
        }
      }
  }

  /** A registration changes nothing off its key path: every lookup along keys
      that are not a prefix of the key path finds what it found before
      (including the subtree below the registered node). */
  lemma {:induction false} InsertElsewhere(route: string, handler: string, tree: RouteNode, keys: seq<string>)
    requires !IsPrefix(keys, KeyPath(route))
    ensures Lookup(RecursiveInsert(route, handler, tree), keys) == Lookup(tree, keys)
    decreases |route|
  {
    assert keys != [] by { assert IsPrefix([], KeyPath(route)); }
    match SplitOnce(route, "/")
    case None =>
      LeafInsertElsewhere(route, handler, tree, keys);
    case Some((l, r)) =>
      KeyPathStep(route, l, r);
      var key := EdgeKey(l);
      if key == "" {
        InsertElsewhere(r, handler, tree, keys);
      } else if keys[0] == key {
        var rest := KeyPath(r);
        var child := if key in tree.children then tree.children[key]
                     else RouteNode(Some(key), Some(l), None, map[]);
        PrefixTail(keys, key, rest);
        InsertElsewhere(r, handler, child, keys[1..]);
        ElsewhereBelow(route, l, r, handler, tree, child, keys);
      } else {
        InsertBelow(route, l, r, handler, tree);
      }
  }

  /** A key list that starts like a path but is not a prefix of it leaves a
      non-empty rest that is not a prefix of the path's rest. */
  lemma PrefixTail(keys: seq<string>, key: string, rest: seq<string>)
    requires keys != [] && keys[0] == key && !IsPrefix(keys, [key] + rest)
    ensures keys[1..] != [] && !IsPrefix(keys[1..], rest)
  {
    assert keys == [key] + keys[1..];
    assert IsPrefix([], rest);
  }

  /** The case of `InsertElsewhere` for a single-segment pattern. */
  lemma LeafInsertElsewhere(route: string, handler: string, tree: RouteNode, keys: seq<string>)
    requires SplitOnce(route, "/").None? && keys != [] && !IsPrefix(keys, KeyPath(route))
    ensures Lookup(RecursiveInsert(route, handler, tree), keys) == Lookup(tree, keys)
  {
    KeyPathSingle(route);
    var key := EdgeKey(route);
    var node := if key in tree.children then tree.children[key].(handler := Some(handler))
                else RouteNode(Some(key), Some(route), Some(handler), map[]);
    assert keys != [key] by { assert IsPrefix([key], [key]); }
    LeafElsewhere(tree, key, node, keys);
  }

  /** The step of `InsertElsewhere` below the first key of the path. */
  lemma ElsewhereBelow(route: string, l: string, r: string, handler: string, tree: RouteNode, child: RouteNode, keys: seq<string>)
    requires SplitOnce(route, "/") == Some((l, r)) && EdgeKey(l) != ""
    requires child == if EdgeKey(l) in tree.children then tree.children[EdgeKey(l)]
                      else RouteNode(Some(EdgeKey(l)), Some(l), None, map[])
    requires |keys| >= 2 && keys[0] == EdgeKey(l)
    requires Lookup(RecursiveInsert(r, handler, child), keys[1..]) == Lookup(child, keys[1..])
    ensures Lookup(RecursiveInsert(route, handler, tree), keys) == Lookup(tree, keys)
  {
    InsertBelow(route, l, r, handler, tree);
  }

  /** Replacing the node under `key` by one with the same children (or, for a
      new key, with none) changes no lookup except the one of that key itself. */
  lemma LeafElsewhere(tree: RouteNode, key: string, node: RouteNode, keys: seq<string>)
    requires keys != [] && keys != [key]
    requires key in tree.children ==> node.children == tree.children[key].children
    requires key !in tree.children ==> node.children == map[]
    ensures Lookup(tree.(children := tree.children[key := node]), keys) == Lookup(tree, keys)
  {
    if keys[0] == key {
      assert keys[1..] != [] by { assert keys == [key] + keys[1..]; }
      if key in tree.children {
        LookupChildren(node, tree.children[key], keys[1..]);
      }
    }
  }

  /** A registration renames nothing: every node that already existed on its key
      path keeps its `path`, `originalPath` and `handler` (so the first
      registration's parameter name stays on a shared `CUSTOM_PARAM` edge). */
  lemma {:induction false} InsertKeepsPathNodes(route: string, handler: string, tree: RouteNode, keys: seq<string>)
    requires IsPrefix(keys, KeyPath(route)) && |keys| < |KeyPath(route)|
    requires Lookup(tree, keys).Some?
    ensures Lookup(RecursiveInsert(route, handler, tree), keys).Some?
    ensures var before, after := Lookup(tree, keys).value, Lookup(RecursiveInsert(route, handler, tree), keys).value;
      after.path == before.path && after.originalPath == before.originalPath && after.handler == before.handler
    decreases |route|
  {
    match SplitOnce(route, "/")
    case None =>
      KeyPathSingle(route);
    case Some((l, r)) =>
      KeyPathStep(route, l, r);
      var key := EdgeKey(l);
      if key == "" {
        InsertKeepsPathNodes(r, handler, tree, keys);
      } else if keys != [] {
        var rest := KeyPath(r);
        assert keys[0] == key && IsPrefix(keys[1..], rest) && |keys[1..]| < |rest|;
        assert key in tree.children && Lookup(tree.children[key], keys[1..]) == Lookup(tree, keys);
        InsertKeepsPathNodes(r, handler, tree.children[key], keys[1..]);
        KeepsBelow(route, l, r, handler, tree, keys);
      }
  }

  /** The step of `InsertKeepsPathNodes` below the first key of the path. */
  lemma KeepsBelow(route: string, l: string, r: string, handler: string, tree: RouteNode, keys: seq<string>)
    requires SplitOnce(route, "/") == Some((l, r)) && EdgeKey(l) != ""
    requires keys != [] && keys[0] == EdgeKey(l) && keys[0] in tree.children
    ensures Lookup(RecursiveInsert(route, handler, tree), keys)
         == Lookup(RecursiveInsert(r, handler, tree.children[keys[0]]), keys[1..])
  {
    InsertBelow(route, l, r, handler, tree);
  }

  /** Registration keeps the tree well formed: every node it creates is stored
      under its own `path`, the edge key of the raw text it keeps. */
  lemma {:induction false} InsertWellFormed(route: string, handler: string, tree: RouteNode)
    requires WellFormed(tree)
    ensures WellFormed(RecursiveInsert(route, handler, tree))
    decreases |route|
  {
    match SplitOnce(route, "/")
    case None =>
      var key := EdgeKey(route);
      var node := if key in tree.children then tree.children[key].(handler := Some(handler))
                  else RouteNode(Some(key), Some(route), Some(handler), map[]);
      WellFormedUpdate(tree, key, node);
    case Some((l, r)) =>
      var key := EdgeKey(l);
      if key == "" {
        InsertWellFormed(r, handler, tree);
      } else {
        var child := if key in tree.children then tree.children[key]
                     else RouteNode(Some(key), Some(l), None, map[]);
        InsertWellFormed(r, handler, child);
        WellFormedUpdate(tree, key, RecursiveInsert(r, handler, child));
      }
  }

  /** Storing a well-formed node under its own key keeps a tree well formed. */
  lemma WellFormedUpdate(tree: RouteNode, key: string, child: RouteNode)
    requires WellFormed(tree) && WellFormed(child)
    requires child.path == Some(key) && child.originalPath.Some? && EdgeKey(child.originalPath.value) == key
    ensures WellFormed(tree.(children := tree.children[key := child]))
  {
  }

  lemma RegisterWellFormed(tree: RouteNode, pattern: string, handler: string)
    requires WellFormed(tree)
    ensures WellFormed(Register(tree, pattern, handler))
  {
    if Contains(pattern, "<") {
      InsertWellFormed(pattern, handler, tree);
    } else {
      assert !IsAt(pattern, "<", 0);
    }
  }

  /** Every tree built by registrations from a well-formed tree is well formed. */
  lemma {:induction false} RegisterAllWellFormed(tree: RouteNode, routes: seq<(string, string)>)
    requires WellFormed(tree)
    ensures WellFormed(RegisterAll(tree, routes))
    decreases |routes|
  {
    if routes != [] {
      var last := routes[|routes| - 1];
      RegisterAllWellFormed(tree, routes[..|routes| - 1]);
      RegisterWellFormed(RegisterAll(tree, routes[..|routes| - 1]), last.0, last.1);
    }
  }

  lemma {:induction false} InsertTwice(route: string, first: string, second: string, tree: RouteNode)
    ensures RecursiveInsert(route, second, RecursiveInsert(route, first, tree))
         == RecursiveInsert(route, second, tree)
    decreases |route|
  {
    match SplitOnce(route, "/")
    case None =>
    case Some((l, r)) =>
      var key := EdgeKey(l);
      if key == "" {
        InsertTwice(r, first, second, tree);
      } else {
        var child := if key in tree.children then tree.children[key]
                     else RouteNode(Some(key), Some(l), None, map[]);
        InsertTwice(r, first, second, child);
        TwiceBelow(route, l, r, first, second, tree, child);
      }
  }

  /** The step of `InsertTwice` below the first key of the path. */
  lemma TwiceBelow(route: string, l: string, r: string, first: string, second: string, tree: RouteNode, child: RouteNode)
    requires SplitOnce(route, "/") == Some((l, r)) && EdgeKey(l) != ""
    requires child == if EdgeKey(l) in tree.children then tree.children[EdgeKey(l)]
                      else RouteNode(Some(EdgeKey(l)), Some(l), None, map[])
    requires RecursiveInsert(r, second, RecursiveInsert(r, first, child)) == RecursiveInsert(r, second, child)
    ensures RecursiveInsert(route, second, RecursiveInsert(route, first, tree))
         == RecursiveInsert(route, second, tree)
  {
    var key := EdgeKey(l);
    var once := RecursiveInsert(route, first, tree);
    var inner := RecursiveInsert(r, first, child);
    var last := RecursiveInsert(r, second, child);
    InsertBelow(route, l, r, first, tree);
    assert key in once.children && once.children[key] == inner;
    InsertBelow(route, l, r, second, once);
    InsertBelow(route, l, r, second, tree);
    UpdateTwice(tree.children, key, inner, last);
  }

  /** A pattern with a non-empty first segment replaces that segment's child
      (or a new node) by the insertion of the rest of the pattern into it. */
  lemma InsertBelow(route: string, l: string, r: string, handler: string, tree: RouteNode)
    requires SplitOnce(route, "/") == Some((l, r)) && EdgeKey(l) != ""
    ensures var key := EdgeKey(l);
      var child := if key in tree.children then tree.children[key]
                   else RouteNode(Some(key), Some(l), None, map[]);
      RecursiveInsert(route, handler, tree) == tree.(children := tree.children[key := RecursiveInsert(r, handler, child)])
  {
  }

  lemma UpdateTwice(m: map<string, RouteNode>, k: string, a: RouteNode, b: RouteNode)
    ensures m[k := a][k := b] == m[k := b]
  {
    assert m[k := a][k := b].Keys == m[k := b].Keys;
  }

  /** Registering the same pattern twice is the same as registering it once with
      the second handler: last registration wins and no node is duplicated. */
  lemma RegisterTwice(tree: RouteNode, pattern: string, first: string, second: string)
    ensures Register(Register(tree, pattern, first), pattern, second) == Register(tree, pattern, second)
  {
    if Contains(pattern, "<") {
      InsertTwice(pattern, first, second, tree);
    }
  }

  // ---------------------------------------------------------------------------
  // Resolution (resolve_route, next_item_while_resolving)
  // ---------------------------------------------------------------------------

  /** `next_item_while_resolving`: the exact child for `p`, or else, when
      `fallback` is set, the `CUSTOM_PARAM` child, looked up once. */
  function NextItem(p: string, node: RouteNode, fallback: bool): (r: Option<RouteNode>)
    ensures p in node.children ==> r == Some(node.children[p])
    ensures p !in node.children && fallback && CustomParam in node.children ==>
      r == Some(node.children[CustomParam])
    ensures p !in node.children && (!fallback || CustomParam !in node.children) ==> r == None
    decreases if fallback then 1 else 0
  {
    if p in node.children then Some(node.children[p])
    else if fallback then NextItem(CustomParam, node, false)
    else None
  }

  /** The key and value a query piece contributes: split at its first `=`. */
  function QueryPair(piece: string): Option<(string, string)> {
    SplitOnce(piece, "=")
  }

  /** The pairs the pieces of a query contribute, in order. */
  function QueryPairs(pieces: seq<string>): (pairs: seq<Option<(string, string)>>)
    ensures |pairs| == |pieces|
    ensures forall i :: 0 <= i < |pieces| ==> pairs[i] == QueryPair(pieces[i])
  {
    seq(|pieces|, i requires 0 <= i < |pieces| => QueryPair(pieces[i]))
  }

  /** The query loop of `resolve_route`: each pair is inserted in turn, so later
      pairs overwrite earlier ones; pieces without `=` add nothing. */
  function Collect(pairs: seq<Option<(string, string)>>): map<string, string> {
    if pairs == [] then map[]
    else
      var vars := Collect(pairs[..|pairs| - 1]);
      match pairs[|pairs| - 1]
      case None => vars
      case Some((key, value)) => vars[key := value]
  }

  /** The variables a query string defines. */
  function ParseQuery(query: string): map<string, string> {
    Collect(QueryPairs(Split(query, '&')))
  }

  /** Pair `i` is the last one for its key. */
  predicate LastPairFor(pairs: seq<Option<(string, string)>>, i: int)
    requires 0 <= i < |pairs|
  {
    pairs[i].Some? &&
    forall j :: i < j < |pairs| && pairs[j].Some? ==> pairs[j].value.0 != pairs[i].value.0
  }

  /** Some pair has `key`. */
  predicate HasPairFor(pairs: seq<Option<(string, string)>>, key: string) {
    exists i :: 0 <= i < |pairs| && pairs[i].Some? && pairs[i].value.0 == key
  }

  /** The keys the query loop defines are exactly the keys of the pieces that
      have a `=`. */
  lemma {:induction false} CollectKeys(pairs: seq<Option<(string, string)>>)
    ensures forall key :: key in Collect(pairs) <==> HasPairFor(pairs, key)
    decreases |pairs|
  {
    if pairs != [] {
      var n := |pairs| - 1;
      var init := pairs[..n];
      CollectKeys(init);
      forall key ensures key in Collect(pairs) <==> HasPairFor(pairs, key) {
        if HasPairFor(init, key) {
          var i :| 0 <= i < |init| && init[i].Some? && init[i].value.0 == key;
          assert pairs[i] == init[i];
        }
        if HasPairFor(pairs, key) {
          var i :| 0 <= i < |pairs| && pairs[i].Some? && pairs[i].value.0 == key;
          if i < n {
            assert init[i] == pairs[i];
          }
        }
      }
    }
  }

  /** A key's value is the one of the last piece that has a `=` with that key:
      later pairs overwrite earlier ones. */
  lemma {:induction false} CollectLastWins(pairs: seq<Option<(string, string)>>, i: nat)
    requires i < |pairs| && LastPairFor(pairs, i)
    ensures pairs[i].value.0 in Collect(pairs)
    ensures Collect(pairs)[pairs[i].value.0] == pairs[i].value.1
    decreases |pairs|
  {
    var n := |pairs| - 1;
    if i < n {
      var init := pairs[..n];
      assert init[i] == pairs[i];
      assert LastPairFor(init, i) by {
        forall j | i < j < |init| ensures init[j] == pairs[j] {}
      }
      CollectLastWins(init, i);
    }
  }

  /** The segment walk of `resolve_route` over the remaining segments: each
      segment moves to the matched child (capturing a `CUSTOM_PARAM` child's
      raw text as a variable), an unmatched segment leaves the walk where it is,
      and the handler of the node matched at the last segment is the answer. */
  function Walk(node: RouteNode, segments: seq<string>, vars: map<string, string>): (Option<string>, map<string, string>)
    requires WellFormed(node)
    decreases |segments|
  {
    if segments == [] then (None, vars)
    else
      match NextItem(segments[0], node, true)
      case None => Walk(node, segments[1..], vars)
      case Some(child) =>
        var vars' := Capture(vars, child, segments[0]);
        if |segments| == 1 then (child.handler, vars') else Walk(child, segments[1..], vars')
  }

  /** A matched `CUSTOM_PARAM` child binds its raw text to the path segment. */
  function Capture(vars: map<string, string>, child: RouteNode, segment: string): map<string, string>
    requires child.path == Some(CustomParam) ==> child.originalPath.Some?
  {
    if child.path == Some(CustomParam) then vars[child.originalPath.value := segment] else vars
  }

  /** One matched step of the walk. */
  lemma WalkStep(node: RouteNode, segments: seq<string>, vars: map<string, string>, child: RouteNode)
    requires WellFormed(node) && segments != [] && NextItem(segments[0], node, true) == Some(child)
    ensures WellFormed(child) && child.originalPath.Some?
    ensures Walk(node, segments, vars) ==
      if |segments| == 1 then (child.handler, Capture(vars, child, segments[0]))
      else Walk(child, segments[1..], Capture(vars, child, segments[0]))
  {
  }

  /** `resolve_route`: the whole string as a root key first; otherwise the
      query after the first `?`, then the walk over the `/`-separated segments
      of the rest, without the first. */
  function Resolve(root: RouteNode, route: string): (Option<string>, map<string, string>)
    requires WellFormed(root)
  {
    if route in root.children then (root.children[route].handler, map[])
    else
      var (path, query) := match SplitOnce(route, "?") case Some(pq) => pq case None => (route, "");
      Walk(root, Split(path, '/')[1..], ParseQuery(query))
  }

  /** Segments that match nothing at the current node are skipped: the walk goes
      on from the same node with the next segment. */
  lemma {:induction false} WalkSkipsUnmatched(node: RouteNode, segments: seq<string>, k: nat, vars: map<string, string>)
    requires WellFormed(node) && k <= |segments|
    requires forall i :: 0 <= i < k ==> NextItem(segments[i], node, true).None?
    ensures Walk(node, segments, vars) == Walk(node, segments[k..], vars)
    decreases k
  {
    if k > 0 {
      assert NextItem(segments[0], node, true).None?;
      WalkSkipsUnmatched(node, segments[1..], k - 1, vars);
      assert segments[1..][k - 1..] == segments[k..];
    }
  }

  /** A walk only adds variables: every key it was given stays defined, and one
      changes value only if a parameter of that raw name was matched. */
  lemma {:induction false} WalkKeepsVariables(node: RouteNode, segments: seq<string>, vars: map<string, string>)
    requires WellFormed(node)
    ensures vars.Keys <= Walk(node, segments, vars).1.Keys
    ensures forall k :: k in vars && !StartsWith(k, "<") && k != CustomParam ==> Walk(node, segments, vars).1[k] == vars[k]
    decreases |segments|
  {
    if segments != [] {
      match NextItem(segments[0], node, true)
      case None => WalkKeepsVariables(node, segments[1..], vars);
      case Some(child) =>
        var vars' := Capture(vars, child, segments[0]);
        if |segments| > 1 {
          WalkKeepsVariables(child, segments[1..], vars');
        }
    }
  }

  // ---------------------------------------------------------------------------
  // Registration followed by resolution
  // ---------------------------------------------------------------------------

  /** A path segment stands where a pattern segment is: a parameter matches
      anything, a literal matches itself. */
  predicate SegmentMatches(pattern: string, segment: string) {
    EdgeKey(pattern) == CustomParam || segment == pattern
  }

  /** The variables a walk along a registered pattern binds, on top of `vars`:
      each parameter's raw text to the path segment in its position, later
      positions overriding earlier ones. */
  function Bind(vars: map<string, string>, patterns: seq<string>, segments: seq<string>): map<string, string>
    requires |patterns| == |segments|
    decreases |patterns|
  {
    if patterns == [] then vars
    else
      var vars' := if EdgeKey(patterns[0]) == CustomParam then vars[patterns[0] := segments[0]] else vars;
      Bind(vars', patterns[1..], segments[1..])
  }

  predicate NoSlashes(parts: seq<string>) {
    forall k :: 0 <= k < |parts| ==> '/' !in parts[k] && '?' !in parts[k]
  }

  /** The tree below a childless node after inserting the segments `patterns`. */
  lemma {:induction false} ChainInsert(patterns: seq<string>, handler: string, node: RouteNode)
    requires |patterns| >= 1 && NoSlashes(patterns)
    requires forall k :: 0 <= k < |patterns| ==> patterns[k] != ""
    requires node.children == map[]
    ensures var t := RecursiveInsert(Join(patterns, '/'), handler, node);
      var key := EdgeKey(patterns[0]);
      && t.children.Keys == {key}
      && t.children[key] ==
         if |patterns| == 1 then RouteNode(Some(key), Some(patterns[0]), Some(handler), map[])
         else RecursiveInsert(Join(patterns[1..], '/'), handler, RouteNode(Some(key), Some(patterns[0]), None, map[]))
  {
    var s := Join(patterns, '/');
    if |patterns| == 1 {
      forall j | 0 <= j ensures !IsAt(s, "/", j) { IsAtChar(s, '/', j); }
    } else {
      assert s == patterns[0] + "/" + Join(patterns[1..], '/');
      forall j | 0 <= j < |patterns[0]| ensures !IsAt(s, "/", j) {
        IsAtChar(s, '/', j);
        assert s[j] == patterns[0][j];
      }
      IsAtChar(s, '/', |patterns[0]|);
      FindIs(s, "/", |patterns[0]|);
      assert s[|patterns[0]| + 1..] == Join(patterns[1..], '/');
      EdgeKeyEmpty(patterns[0]);
    }
  }

  /** In a node whose only child is under the edge key of `pattern`, a
      matching path segment selects that child. */
  lemma ChainStep(t: RouteNode, pattern: string, segment: string)
    requires t.children.Keys == {EdgeKey(pattern)} && SegmentMatches(pattern, segment)
    ensures NextItem(segment, t, true) == Some(t.children[EdgeKey(pattern)])
  {
  }

  /** Walking the path segments of a match along a single registered chain
      reaches its handler and binds its parameters. */
  lemma {:induction false} WalkChain(patterns: seq<string>, segments: seq<string>, handler: string,
                                    node: RouteNode, vars: map<string, string>)
    requires |patterns| >= 1 && |segments| == |patterns| && NoSlashes(patterns)
    requires forall k :: 0 <= k < |patterns| ==> patterns[k] != ""
    requires forall k :: 0 <= k < |patterns| ==> SegmentMatches(patterns[k], segments[k])
    requires node.children == map[]
    requires WellFormed(RecursiveInsert(Join(patterns, '/'), handler, node))
    ensures Walk(RecursiveInsert(Join(patterns, '/'), handler, node), segments, vars)
         == (Some(handler), Bind(vars, patterns, segments))
    decreases |patterns|
  {
    ChainInsert(patterns, handler, node);
    var t := RecursiveInsert(Join(patterns, '/'), handler, node);
    var key := EdgeKey(patterns[0]);
    var child := t.children[key];
    ChainStep(t, patterns[0], segments[0]);
    WalkStep(t, segments, vars, child);
    var vars' := Capture(vars, child, segments[0]);
    BindStep(vars, patterns, segments, child);
    if |patterns| > 1 {
      var next := RouteNode(Some(key), Some(patterns[0]), None, map[]);
      WalkChain(patterns[1..], segments[1..], handler, next, vars');
    }
  }

  /** The child a pattern segment was stored as captures what `Bind` binds
      for that segment. */
  lemma BindStep(vars: map<string, string>, patterns: seq<string>, segments: seq<string>, child: RouteNode)
    requires |patterns| >= 1 && |segments| == |patterns|
    requires child.path == Some(EdgeKey(patterns[0])) && child.originalPath == Some(patterns[0])
    ensures Bind(vars, patterns, segments) == Bind(Capture(vars, child, segments[0]), patterns[1..], segments[1..])
  {
  }

  /** The path a request line carries for the given segments, with an optional
      query string. */
  function RequestPath(segments: seq<string>, query: Option<string>): string {
    "/" + Join(segments, '/') + (if query.Some? then "?" + query.value else "")
  }

  /** The pattern that registers the given segments. */
  function Pattern(patterns: seq<string>): string {
    "/" + Join(patterns, '/')
  }

  /** A parameterised pattern's registration skips the empty segment before its
      leading `/`. */
  lemma PatternTree(patterns: seq<string>, handler: string)
    requires Contains(Pattern(patterns), "<")
    ensures Register(EmptyNode, Pattern(patterns), handler) == RecursiveInsert(Join(patterns, '/'), handler, EmptyNode)
  {
    SplitOnceFirst("", '/', Join(patterns, '/'));
    assert "" + "/" + Join(patterns, '/') == Pattern(patterns);
  }

  /** The route and the query `resolve_route` splits a request path into. */
  lemma RequestPathQuery(segments: seq<string>, query: Option<string>)
    requires NoSlashes(segments)
    ensures (match SplitOnce(RequestPath(segments, query), "?") case Some(pq) => pq case None => (RequestPath(segments, query), ""))
         == ("/" + Join(segments, '/'), if query.Some? then query.value else "")
  {
    var base := "/" + Join(segments, '/');
    forall k | 0 <= k < |segments| ensures '?' !in segments[k] {}
    JoinHasNo(segments, '?', '/');
    assert '?' !in base;
    match query
    case None =>
      assert RequestPath(segments, query) == base;
      SplitOnceAbsent(base, '?');
    case Some(q) =>
      assert RequestPath(segments, query) == base + "?" + q;
      SplitOnceFirst(base, '?', q);
  }

  /** The segments of a request path once the first (empty) one is dropped. */
  lemma RequestPathSegments(segments: seq<string>)
    requires |segments| >= 1 && NoSlashes(segments)
    ensures Split("/" + Join(segments, '/'), '/')[1..] == segments
  {
    var all := [""] + segments;
    assert all[1..] == segments;
    assert Join(all, '/') == "/" + Join(segments, '/');
    assert forall k :: 0 <= k < |all| ==> '/' !in all[k] by {
      forall k | 0 <= k < |all| ensures '/' !in all[k] {
        if k > 0 { assert all[k] == segments[k - 1]; }
      }
    }
    SplitJoin(all, '/');
  }

  /** A path that is not a root key is resolved by the walk over its route's
      segments, starting with the variables of its query. */
  lemma ResolveByWalk(root: RouteNode, route: string, path: string, query: string)
    requires WellFormed(root) && route !in root.children
    requires (match SplitOnce(route, "?") case Some(pq) => pq case None => (route, "")) == (path, query)
    ensures Resolve(root, route) == Walk(root, Split(path, '/')[1..], ParseQuery(query))
  {
  }

  /** A path starting with `/` is not the key of a tree whose only child sits
      under the edge key of a slash-free segment. */
  lemma NotRootKey(t: RouteNode, pattern: string, route: string)
    requires t.children.Keys == {EdgeKey(pattern)} && '/' !in pattern
    requires |route| > 0 && route[0] == '/'
    ensures route !in t.children
  {
    assert '/' !in EdgeKey(pattern);
  }

  /** Register a parameterised pattern in an empty tree, then resolve a path
      whose segments match it: the resolution finds its handler, and the
      variables are the query's pairs overridden by the parameters' captures,
      keyed by each parameter's raw text (`<id>`). */
  lemma RegisterThenResolveParameterised(patterns: seq<string>, handler: string,
                                          segments: seq<string>, query: Option<string>)
    requires |patterns| >= 1 && |segments| == |patterns|
    requires NoSlashes(patterns) && NoSlashes(segments)
    requires forall k :: 0 <= k < |patterns| ==> patterns[k] != ""
    requires forall k :: 0 <= k < |patterns| ==> SegmentMatches(patterns[k], segments[k])
    requires Contains(Pattern(patterns), "<")
    ensures WellFormed(Register(EmptyNode, Pattern(patterns), handler))
    ensures Resolve(Register(EmptyNode, Pattern(patterns), handler), RequestPath(segments, query))
         == (Some(handler), Bind(ParseQuery(if query.Some? then query.value else ""), patterns, segments))
  {
    var tail := Join(patterns, '/');
    var tree := Register(EmptyNode, Pattern(patterns), handler);
    var vars := ParseQuery(if query.Some? then query.value else "");
    PatternTree(patterns, handler);
    InsertWellFormed(tail, handler, EmptyNode);
    ChainInsert(patterns, handler, EmptyNode);
    WalkChain(patterns, segments, handler, EmptyNode, vars);
    var route := RequestPath(segments, query);
    NotRootKey(tree, patterns[0], route);
    RequestPathQuery(segments, query);
    RequestPathSegments(segments);
    ResolveByWalk(tree, route, "/" + Join(segments, '/'), if query.Some? then query.value else "");
  }

  /** A pattern without `<` is stored whole under the root, and resolving the
      same string finds its handler with no variables. */
  lemma RegisterThenResolveLiteral(tree: RouteNode, pattern: string, handler: string)
    requires WellFormed(tree) && !Contains(pattern, "<")
    ensures WellFormed(Register(tree, pattern, handler))
    ensures Register(tree, pattern, handler).children[pattern] == LiteralNode(pattern, handler)
    ensures Resolve(Register(tree, pattern, handler), pattern) == (Some(handler), map[])
  {
    RegisterWellFormed(tree, pattern, handler);
  }

  /** A literal route is found only by the whole-string lookup: with a query
      string appended, the segment walk cannot reach it and the resolution
      fails, keeping only the query's variables. */
  lemma LiteralRouteWithQueryMisses(pattern: string, handler: string, query: string)
    requires !Contains(pattern, "<") && StartsWith(pattern, "/") && '?' !in pattern
    ensures Resolve(Register(EmptyNode, pattern, handler), pattern + "?" + query) == (None, ParseQuery(query))
  {
    var tree := Register(EmptyNode, pattern, handler);
    RegisterWellFormed(EmptyNode, pattern, handler);
    var route := pattern + "?" + query;
    assert tree.children.Keys == {pattern};
    assert route !in tree.children by {
      assert route[|pattern|] == '?';
      assert |route| > |pattern|;
    }
    SplitOnceFirst(pattern, '?', query);
    assert pattern + "?" + query == pattern + ['?'] + query;
    ResolveByWalk(tree, route, pattern, query);
    WalkMissesLiteral(tree, pattern, ParseQuery(query));
  }

  /** No segment of a pattern that starts with `/` is the pattern itself, so a
      walk over those segments in a tree whose only root key is that pattern
      matches nothing. */
  lemma WalkMissesLiteral(tree: RouteNode, pattern: string, vars: map<string, string>)
    requires WellFormed(tree) && tree.children.Keys == {pattern}
    requires |pattern| > 0 && pattern[0] == '/'
    ensures Walk(tree, Split(pattern, '/')[1..], vars) == (None, vars)
  {
    var segments := Split(pattern, '/')[1..];
    forall i | 0 <= i < |segments| ensures NextItem(segments[i], tree, true).None? {
      assert '/' !in segments[i];
      assert segments[i] != pattern;
      assert CustomParam != pattern;
    }
    WalkSkipsUnmatched(tree, segments, |segments|, vars);
  }
}
