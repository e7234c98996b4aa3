/** Route discovery at startup: a Python file declares a route with a marker
    comment `#->r /path` followed by the `def` line of its handler, and every
    `.py` file of the project outside `venv` and `target` is scanned. A file is
    given as its path and its lines; reading the directory tree and the files
    is not modelled. */
module RouteScanner {
  import opened Wrappers
  import opened Text

  /** The comment that announces a route declaration. */
  const Marker := "#->r"

  /** The `unwrap`s of `get_routes_for_file` that fail. */
  datatype ScanError =
    | MarkerWithoutSlash   // a marker line with no `/`
    | MissingDef           // the line after a marker has no `def`
    | MissingParen         // nor a `(` after its `def`

  /** The loop variables of `get_routes_for_file`: the path of a marker still
      waiting for its `def` line, and the routes found so far. */
  datatype ScanState = ScanState(pending: Option<string>, routes: seq<(string, string)>)

  const Start := ScanState(None, [])

  /** One line of `get_routes_for_file` in file `file`. */
  function Step(file: string, st: ScanState, line: string): (r: Result<ScanState, ScanError>)
    // a marker line is read as one, whatever is pending, and adds no route
    ensures Contains(line, Marker) ==> r == MarkerStep(st, line)
    ensures Contains(line, Marker) && r.Ok? ==> r.value.routes == st.routes && r.value.pending.Some?
    // a line with text in it after a marker is read as the handler's line and,
    // unless it fails, adds exactly one route and uses the pending path up
    ensures !Contains(line, Marker) && !AllWhitespace(line) && st.pending.Some? ==>
      && r == DefStep(file, st, line)
      && (r.Ok? ==> |r.value.routes| == |st.routes| + 1 && r.value.pending.None?)
    // in every case the earlier routes stay, and at most the pending one is added
    ensures r.Ok? ==> |st.routes| <= |r.value.routes| <= |st.routes| + 1
                      && r.value.routes[..|st.routes|] == st.routes
    ensures r.Ok? && |r.value.routes| > |st.routes| ==>
      && st.pending.Some? && r.value.pending.None?
      && r.value.routes[|st.routes|].0 == st.pending.value
    // blank lines, and any other line while nothing is pending, change nothing
    ensures AllWhitespace(line) ==> r == Ok(st)
    ensures !Contains(line, Marker) && st.pending.None? ==> r == Ok(st)
  {
    if Contains(line, Marker) then
      assert !AllWhitespace(line) by {
        var j := Find(line, Marker).value;
        assert line[j..j + |Marker|] == Marker;
        assert line[j] == '#';
      }
      MarkerStep(st, line)
    else if Trim(line) != "" && st.pending.Some? then
      DefStep(file, st, line)
    else
      Ok(st)
  }

  /** How a marker line reads: text without `/`, then the path, which starts
      with `/` and does not end in whitespace, then only whitespace. */
  predicate MarkerParts(line: string, pre: string, path: string, post: string) {
    && line == pre + path + post
    && '/' !in pre
    && |path| > 0 && path[0] == '/' && !IsWhitespace(path[|path| - 1])
    && AllWhitespace(post)
  }

  /** A marker line: the trimmed text from its first `/` becomes the pending
      path. */
  function MarkerStep(st: ScanState, line: string): (r: Result<ScanState, ScanError>)
    ensures r.Err? <==> !Contains(line, "/")
    ensures r.Ok? ==>
      && r.value.routes == st.routes && r.value.pending.Some?
      && exists pre, post :: MarkerParts(line, pre, r.value.pending.value, post)
  {
    match Find(line, "/")
    case None => Err(MarkerWithoutSlash)
    case Some(i) =>
      var path := Trim(line[i..]);
      FindChar(line, '/', i);
      MarkerAt(line, i, path);
      Ok(st.(pending := Some(path)))
  }

  lemma MarkerAt(line: string, i: nat, path: string)
    requires i < |line| && line[i] == '/' && '/' !in line[..i]
    requires path == Trim(line[i..])
    ensures exists pre, post :: MarkerParts(line, pre, path, post)
  {
    TrimLeading(line[i..]);
    MarkerPartsAt(line, i, path);
  }

  lemma MarkerPartsAt(line: string, i: nat, path: string)
    requires i + |path| <= |line| && '/' !in line[..i]
    requires line[i..][..|path|] == path && AllWhitespace(line[i..][|path|..])
    requires |path| > 0 && path[0] == '/' && !IsWhitespace(path[|path| - 1])
    ensures MarkerParts(line, line[..i], path, line[i + |path|..])
  {
    SuffixSlices(line, i, |path|);
    ThreeSlices(line, i, i + |path|);
  }

  /** Every way of reading a marker line gives the same path: the one the scan
      takes. */
  lemma MarkerPartsRead(st: ScanState, line: string, pre: string, path: string, post: string)
    requires MarkerParts(line, pre, path, post)
    ensures MarkerStep(st, line) == Ok(st.(pending := Some(path)))
  {
    forall j | 0 <= j < |pre| ensures !IsAt(line, "/", j) {
      IsAtChar(line, '/', j);
      assert line[j] == pre[j];
    }
    IsAtChar(line, '/', |pre|);
    FindIs(line, "/", |pre|);
    assert line[|pre|..] == "" + path + post;
    TrimUnique("", path, post);
  }

  /** How a handler line reads: text in which no `def` starts, `def`, the text
      up to the first `(`, and the rest. */
  predicate DefParts(line: string, pre: string, mid: string, post: string) {
    && line == pre + "def" + mid + "(" + post
    && (forall j :: 0 <= j < |pre| ==> !IsAt(line, "def", j))
    && '(' !in mid
  }

  /** The line after a marker: the trimmed text between its first `def` and
      the next `(` names the handler of the pending path. */
  function DefStep(file: string, st: ScanState, line: string): (r: Result<ScanState, ScanError>)
    requires st.pending.Some?
    ensures r == Err(MissingDef) <==> !Contains(line, "def")
    ensures r.Ok? ==> exists pre, mid, post ::
      && DefParts(line, pre, mid, post)
      && r.value == ScanState(None, st.routes + [(st.pending.value, file + "::" + Trim(mid))])
  {
    match SplitOnce(line, "def")
    case None => Err(MissingDef)
    case Some((pre, rest)) =>
      match SplitOnce(rest, "(")
      case None => Err(MissingParen)
      case Some((mid, post)) =>
        DefAt(line, pre, rest, mid, post);
        Ok(ScanState(None, st.routes + [(st.pending.value, file + "::" + Trim(mid))]))
  }

  lemma DefAt(line: string, pre: string, rest: string, mid: string, post: string)
    requires SplitOnce(line, "def") == Some((pre, rest))
    requires SplitOnce(rest, "(") == Some((mid, post))
    ensures DefParts(line, pre, mid, post)
  {
    SplitOnceLeft(rest, '(');
  }

  /** Every way of reading a handler line gives the same name: the one the
      scan takes. */
  lemma DefPartsRead(file: string, st: ScanState, line: string, pre: string, mid: string, post: string)
    requires st.pending.Some? && DefParts(line, pre, mid, post)
    ensures DefStep(file, st, line) == Ok(ScanState(None, st.routes + [(st.pending.value, file + "::" + Trim(mid))]))
  {
    var rest := mid + "(" + post;
    assert SplitOnce(line, "def") == Some((pre, rest)) by {
      assert line == pre + "def" + rest;
      assert line[|pre|..|pre| + 3] == "def";
      FindIs(line, "def", |pre|);
      assert line[|pre| + 3..] == rest;
    }
    assert rest == mid + ['('] + post;
    SplitOnceFirst(mid, '(', post);
  }

  /** The lines from `st` on, in order; the first failing line decides the
      error. */
  function ScanFrom(file: string, st: ScanState, lines: seq<string>): Result<ScanState, ScanError>
    decreases |lines|
  {
    if lines == [] then Ok(st)
    else
      match Step(file, st, lines[0])
      case Err(e) => Err(e)
      case Ok(st') => ScanFrom(file, st', lines[1..])
  }

  /** `get_routes_for_file`: the routes of one file; a marker still pending at
      the end of the file is dropped. */
  function FileRoutes(file: string, lines: seq<string>): Result<seq<(string, string)>, ScanError> {
    match ScanFrom(file, Start, lines)
    case Ok(st) => Ok(st.routes)
    case Err(e) => Err(e)
  }

  /** The line loop of `get_routes_for_file`. */
  method GetRoutesForFile(file: string, lines: seq<string>) returns (r: Result<seq<(string, string)>, ScanError>)
    ensures r == FileRoutes(file, lines)
  {
    var lastPath: Option<string> := None;
    var routes: seq<(string, string)> := [];
    var i := 0;
    while i < |lines|
      invariant 0 <= i <= |lines|
      invariant ScanFrom(file, Start, lines) == ScanFrom(file, ScanState(lastPath, routes), lines[i..])
    {
      var line := lines[i];
      assert lines[i..][1..] == lines[i + 1..];
      if Contains(line, Marker) {
        match Find(line, "/") {
          case None => return Err(MarkerWithoutSlash);
          case Some(start) => lastPath := Some(Trim(line[start..]));
        }
      } else if Trim(line) != "" && lastPath.Some? {
        match SplitOnce(line, "def") {
          case None => return Err(MissingDef);
          case Some((_, rest)) =>
            match SplitOnce(rest, "(") {
              case None => return Err(MissingParen);
              case Some((name, _)) =>
                routes := routes + [(lastPath.value, file + "::" + Trim(name))];
                lastPath := None;
            }
        }
      }
      i := i + 1;
    }
    return Ok(routes);
  }

  // ---------------------------------------------------------------------------
  // Properties of the scan
  // ---------------------------------------------------------------------------

  /** Blank lines are skipped wherever they are, also between a marker and
      its `def` line. */
  lemma {:induction false} ScanSkipsBlank(file: string, st: ScanState, blanks: seq<string>, rest: seq<string>)
    requires forall k :: 0 <= k < |blanks| ==> AllWhitespace(blanks[k])
    ensures ScanFrom(file, st, blanks + rest) == ScanFrom(file, st, rest)
    decreases |blanks|
  {
    if blanks != [] {
      var tail := blanks[1..] + rest;
      assert blanks + rest == [blanks[0]] + tail;
      SkipOne(file, st, blanks[0], tail);
      ScanSkipsBlank(file, st, blanks[1..], rest);
    } else {
      assert blanks + rest == rest;
    }
  }

  lemma SkipOne(file: string, st: ScanState, line: string, rest: seq<string>)
    requires AllWhitespace(line)
    ensures ScanFrom(file, st, [line] + rest) == ScanFrom(file, st, rest)
  {
    BlankStep(file, st, line);
    ScanFromCons(file, st, [line] + rest, st);
    assert ([line] + rest)[1..] == rest;
  }

  lemma BlankStep(file: string, st: ScanState, line: string)
    requires AllWhitespace(line)
    ensures Step(file, st, line) == Ok(st)
  {
  }

  lemma ScanFromCons(file: string, st: ScanState, lines: seq<string>, st': ScanState)
    requires lines != [] && Step(file, st, lines[0]) == Ok(st')
    ensures ScanFrom(file, st, lines) == ScanFrom(file, st', lines[1..])
  {
  }

  /** A second marker before a `def` line replaces the pending path: the state
      after both markers is the state after the second one alone. */
  lemma MarkerReplaces(file: string, st: ScanState, first: string, second: string)
    requires Contains(first, Marker) && Contains(second, Marker) && Contains(first, "/")
    ensures Step(file, st, first).Ok?
    ensures Step(file, Step(file, st, first).value, second) == Step(file, st, second)
  {
    MarkerStepSame(file, st, Step(file, st, first).value, second);
  }

  /** A marker line does not look at the pending path. */
  lemma MarkerStepSame(file: string, st: ScanState, st': ScanState, line: string)
    requires st.routes == st'.routes && Contains(line, Marker)
    ensures Step(file, st, line) == Step(file, st', line)
  {
  }

  /** A route declaration as a file may write it: the marker line is
      `markerLead + "#->r" + markerGap + path + pathTrail` and the handler line
      is `indent + "def" + nameLead + name + nameTrail + "(" + params`. */
  datatype Decl = Decl(path: string, name: string,
                       markerLead: string, markerGap: string, pathTrail: string,
                       indent: string, nameLead: string, nameTrail: string, params: string)

  function MarkerLine(d: Decl): string {
    d.markerLead + Marker + d.markerGap + d.path + d.pathTrail
  }

  function DefLine(d: Decl): string {
    d.indent + "def" + d.nameLead + d.name + d.nameTrail + "(" + d.params
  }

  /** A declaration the scanner reads back as written: no `/` before the path,
      which starts with `/` and does not end in whitespace; only whitespace
      after the path, before `def`, and around the name; the name is not empty,
      does not start or end with whitespace, and holds neither `(` nor `#`;
      the parameter text holds no marker. */
  predicate Declarable(d: Decl) {
    && '/' !in d.markerLead && '/' !in d.markerGap && AllWhitespace(d.pathTrail)
    && |d.path| > 0 && d.path[0] == '/' && !IsWhitespace(d.path[|d.path| - 1])
    && AllWhitespace(d.indent) && AllWhitespace(d.nameLead) && AllWhitespace(d.nameTrail)
    && |d.name| > 0 && !IsWhitespace(d.name[0]) && !IsWhitespace(d.name[|d.name| - 1])
    && '(' !in d.name && '#' !in d.name && !Contains(d.params, Marker)
  }

  /** The lines that declare the given routes in order. */
  function Render(decls: seq<Decl>): seq<string> {
    if decls == [] then []
    else [MarkerLine(decls[0]), DefLine(decls[0])] + Render(decls[1..])
  }

  /** The routes a declaration list stands for in file `file`. */
  function Expected(file: string, decls: seq<Decl>): (routes: seq<(string, string)>)
    ensures |routes| == |decls|
    ensures forall k :: 0 <= k < |decls| ==> routes[k] == (decls[k].path, file + "::" + decls[k].name)
  {
    seq(|decls|, k requires 0 <= k < |decls| => (decls[k].path, file + "::" + decls[k].name))
  }

  /** The marker line of a declarable route sets exactly its path. */
  lemma ScanMarker(file: string, acc: seq<(string, string)>, d: Decl)
    requires Declarable(d)
    ensures Step(file, ScanState(None, acc), MarkerLine(d)) == Ok(ScanState(Some(d.path), acc))
  {
    var line := MarkerLine(d);
    var pre := d.markerLead + Marker + d.markerGap;
    assert line == pre + d.path + d.pathTrail;
    assert IsAt(line, Marker, |d.markerLead|) by {
      assert line[|d.markerLead|..|d.markerLead| + |Marker|] == Marker;
    }
    assert '/' !in pre by {
      forall k | 0 <= k < |pre| ensures pre[k] != '/' {
        if k < |d.markerLead| {
          assert pre[k] == d.markerLead[k];
        } else if k < |d.markerLead| + |Marker| {
          assert pre[k] == Marker[k - |d.markerLead|];
        } else {
          assert pre[k] == d.markerGap[k - |d.markerLead| - |Marker|];
        }
      }
    }
    MarkerPartsRead(ScanState(None, acc), line, pre, d.path, d.pathTrail);
  }

  /** The handler line of a declarable route completes the pending route with
      its name. */
  lemma ScanDef(file: string, acc: seq<(string, string)>, path: string, d: Decl)
    requires Declarable(d)
    ensures Step(file, ScanState(Some(path), acc), DefLine(d)) == Ok(ScanState(None, acc + [(path, file + "::" + d.name)]))
  {
    var line := DefLine(d);
    var st := ScanState(Some(path), acc);
    assert Step(file, st, line) == DefStep(file, st, line) by {
      DefLineHasNoMarker(d);
      assert !AllWhitespace(line) by { assert line[|d.indent|] == 'd'; }
    }
    var mid := d.nameLead + d.name + d.nameTrail;
    DefLineParts(d, mid);
    DefPartsRead(file, st, line, d.indent, mid, d.params);
    TrimUnique(d.nameLead, d.name, d.nameTrail);
  }

  lemma DefLineParts(d: Decl, mid: string)
    requires Declarable(d) && mid == d.nameLead + d.name + d.nameTrail
    ensures DefParts(DefLine(d), d.indent, mid, d.params)
  {
    var line := DefLine(d);
    assert line == d.indent + "def" + mid + "(" + d.params;
    forall j | 0 <= j < |d.indent| ensures !IsAt(line, "def", j) {
      assert line[j] == d.indent[j];
      assert j + 3 > |line| || line[j..j + 3][0] == line[j];
    }
    forall k | 0 <= k < |mid| ensures mid[k] != '(' {
      if k < |d.nameLead| {
        assert mid[k] == d.nameLead[k];
      } else if k < |d.nameLead| + |d.name| {
        assert mid[k] == d.name[k - |d.nameLead|];
      } else {
        assert mid[k] == d.nameTrail[k - |d.nameLead| - |d.name|];
      }
    }
  }

  /** A handler line holds a marker only where its parameters do. */
  lemma DefLineHasNoMarker(d: Decl)
    requires Declarable(d)
    ensures !Contains(DefLine(d), Marker)
  {
    var head := d.indent + "def" + d.nameLead + d.name + d.nameTrail + "(";
    WhitespaceLacks(d.indent, '#');
    WhitespaceLacks(d.nameLead, '#');
    WhitespaceLacks(d.nameTrail, '#');
    assert '#' !in head;
    assert DefLine(d) == head + d.params;
    NotContainedAfter(head, d.params, Marker);
  }

  /** Rendering declarations and scanning the lines gives back exactly their
      routes, in order, with ids naming the file. */
  lemma {:induction false} ScanRoundTrip(file: string, acc: seq<(string, string)>, decls: seq<Decl>)
    requires forall k :: 0 <= k < |decls| ==> Declarable(decls[k])
    ensures ScanFrom(file, ScanState(None, acc), Render(decls)) == Ok(ScanState(None, acc + Expected(file, decls)))
    decreases |decls|
  {
    if decls == [] {
      assert acc + Expected(file, decls) == acc;
    } else {
      var acc' := acc + [(decls[0].path, file + "::" + decls[0].name)];
      ScanRoundTrip(file, acc', decls[1..]);
      ScanRoundTripCons(file, acc, decls);
    }
  }

  lemma ScanRoundTripCons(file: string, acc: seq<(string, string)>, decls: seq<Decl>)
    requires decls != [] && Declarable(decls[0])
    requires var acc' := acc + [(decls[0].path, file + "::" + decls[0].name)];
      ScanFrom(file, ScanState(None, acc'), Render(decls[1..])) == Ok(ScanState(None, acc' + Expected(file, decls[1..])))
    ensures ScanFrom(file, ScanState(None, acc), Render(decls)) == Ok(ScanState(None, acc + Expected(file, decls)))
  {
    var d := decls[0];
    var route := (d.path, file + "::" + d.name);
    assert Render(decls) == [MarkerLine(d), DefLine(d)] + Render(decls[1..]);
    ScanDecl(file, acc, d, Render(decls[1..]));
    ExpectedCons(file, decls);
    assert (acc + [route]) + Expected(file, decls[1..]) == acc + ([route] + Expected(file, decls[1..]));
  }

  lemma ExpectedCons(file: string, decls: seq<Decl>)
    requires decls != []
    ensures Expected(file, decls) == [(decls[0].path, file + "::" + decls[0].name)] + Expected(file, decls[1..])
  {
  }

  /** The two lines of one declaration add its route. */
  lemma ScanDecl(file: string, acc: seq<(string, string)>, d: Decl, rest: seq<string>)
    requires Declarable(d)
    ensures ScanFrom(file, ScanState(None, acc), [MarkerLine(d), DefLine(d)] + rest)
         == ScanFrom(file, ScanState(None, acc + [(d.path, file + "::" + d.name)]), rest)
  {
    var lines := [MarkerLine(d), DefLine(d)] + rest;
    ScanMarker(file, acc, d);
    ScanDef(file, acc, d.path, d);
    TwoSteps(file, ScanState(None, acc), ScanState(Some(d.path), acc), ScanState(None, acc + [(d.path, file + "::" + d.name)]), lines);
    assert lines[2..] == rest;
  }

  lemma TwoSteps(file: string, st0: ScanState, st1: ScanState, st2: ScanState, lines: seq<string>)
    requires |lines| >= 2 && Step(file, st0, lines[0]) == Ok(st1) && Step(file, st1, lines[1]) == Ok(st2)
    ensures ScanFrom(file, st0, lines) == ScanFrom(file, st2, lines[2..])
  {
    assert lines[1..][1..] == lines[2..];
  }

  /** The routes of a file that consists of declarations. */
  lemma FileRoundTrip(file: string, decls: seq<Decl>)
    requires forall k :: 0 <= k < |decls| ==> Declarable(decls[k])
    ensures FileRoutes(file, Render(decls)) == Ok(Expected(file, decls))
  {
    ScanRoundTrip(file, [], decls);
    assert [] + Expected(file, decls) == Expected(file, decls);
  }

  // ---------------------------------------------------------------------------
  // Which files are scanned (visit_dirs, visit_python_file, get_routes)
  // ---------------------------------------------------------------------------

  /** `visit_dirs` skips every entry whose path mentions `venv` or `target`. */
  predicate IsSkippedPath(path: string) {
    Contains(path, "venv") || Contains(path, "target")
  }

  /** `visit_python_file` scans only paths that mention `.py`. */
  predicate IsPythonPath(path: string) {
    Contains(path, ".py")
  }

  predicate Scanned(path: string) {
    !IsSkippedPath(path) && IsPythonPath(path)
  }

  /** The routes of a project, given every file below its root as its path
      and lines, in visiting order: the scanned files' routes one after the
      other; the first failing file decides the error. */
  function AllRoutes(files: seq<(string, seq<string>)>): Result<seq<(string, string)>, ScanError>
    decreases |files|
  {
    if files == [] then Ok([])
    else
      var first := if Scanned(files[0].0) then FileRoutes(files[0].0, files[0].1) else Ok([]);
      match first
      case Err(e) => Err(e)
      case Ok(routes) =>
        match AllRoutes(files[1..])
        case Err(e) => Err(e)
        case Ok(more) => Ok(routes + more)
  }

  function Prepend(routes: seq<(string, string)>, r: Result<seq<(string, string)>, ScanError>): Result<seq<(string, string)>, ScanError> {
    match r
    case Ok(more) => Ok(routes + more)
    case Err(e) => Err(e)
  }

  /** `get_routes`: collect the routes of every scanned file. A file below a
      skipped directory has that directory's name in its path, so testing
      each file's path is the same as pruning the directory. */
  method GetRoutes(files: seq<(string, seq<string>)>) returns (r: Result<seq<(string, string)>, ScanError>)
    ensures r == AllRoutes(files)
  {
    var container: seq<(string, string)> := [];
    var i := 0;
    assert files[0..] == files;
    PrependNothing(AllRoutes(files));
    while i < |files|
      invariant 0 <= i <= |files|
      invariant AllRoutes(files) == Prepend(container, AllRoutes(files[i..]))
    {
      var (path, lines) := files[i];
      AllRoutesStep(files, i);
      if !IsSkippedPath(path) && IsPythonPath(path) {
        var routes := GetRoutesForFile(path, lines);
        match routes {
          case Err(e) => return Err(e);
          case Ok(found) =>
            AppendAssoc(container, found, AllRoutes(files[i + 1..]));
            container := container + found;
        }
      } else {
        PrependNothing(AllRoutes(files[i + 1..]));
      }
      i := i + 1;
    }
    assert container + [] == container;
    return Ok(container);
  }

  /** The first file of `files[i..]` comes first. */
  lemma AllRoutesStep(files: seq<(string, seq<string>)>, i: nat)
    requires i < |files|
    ensures AllRoutes(files[i..]) ==
      var first := if Scanned(files[i].0) then FileRoutes(files[i].0, files[i].1) else Ok([]);
      match first
      case Err(e) => Err(e)
      case Ok(routes) => Prepend(routes, AllRoutes(files[i + 1..]))
  {
    assert files[i..][1..] == files[i + 1..];
  }

  lemma PrependNothing(r: Result<seq<(string, string)>, ScanError>)
    ensures Prepend([], r) == r
  {
    if r.Ok? {
      assert [] + r.value == r.value;
    }
  }

  lemma AppendAssoc(a: seq<(string, string)>, b: seq<(string, string)>, r: Result<seq<(string, string)>, ScanError>)
    ensures Prepend(a, Prepend(b, r)) == Prepend(a + b, r)
  {
    if r.Ok? {
      assert a + (b + r.value) == a + b + r.value;
    }
  }

  /** A file that is not scanned contributes no route and no error: the result
      is the one without it. */
  lemma {:induction false} SkippedFileIgnored(files: seq<(string, seq<string>)>, j: nat)
    requires j < |files| && !Scanned(files[j].0)
    ensures AllRoutes(files) == AllRoutes(files[..j] + files[j + 1..])
    decreases j
  {
    if j == 0 {
      assert files[..0] + files[1..] == files[1..];
      if AllRoutes(files[1..]).Ok? {
        assert [] + AllRoutes(files[1..]).value == AllRoutes(files[1..]).value;
      }
    } else {
      SkippedFileIgnored(files[1..], j - 1);
      assert files[1..][..j - 1] + files[1..][j..] == (files[..j] + files[j + 1..])[1..];
    }
  }
}
