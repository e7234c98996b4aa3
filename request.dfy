/** The parse of a raw HTTP request into its method, path, version, header
    block and body. Every failure of the parse is a panic in the server (an
    `unwrap` on a missing delimiter, an out-of-order slice, an unknown method);
    here each is an error value. */
module HttpRequest {
  import opened Wrappers
  import opened Text

  datatype RequestMethod = GET | POST | PUT | PATCH | DELETE | HEAD

  datatype Request = Request(
    httpMethod: RequestMethod,
    httpVersion: string,
    headers: string,
    body: string,
    path: string,
    rawRequest: string)

  /** Why a request could not be parsed; each is a panic in the server. */
  datatype RequestError =
    | UnknownMethod   // the `unreachable!()` arm of the method match
    | NoLineEnd       // no `\r\n` at all
    | NoBlankLine     // no `\r\n\r\n`
    | NoHeaderLines   // the blank line starts at the first `\r\n`: the header slice is reversed

  const Crlf: string := "\r\n"
  const BlankLine: string := "\r\n\r\n"

  /** The name a method has on the request line. */
  function MethodName(m: RequestMethod): string {
    match m
    case GET => "GET"
    case POST => "POST"
    case PUT => "PUT"
    case PATCH => "PATCH"
    case DELETE => "DELETE"
    case HEAD => "HEAD"
  }

  /** The method match of `get_request_core_info`: exactly the six names, in
      upper case, are methods. */
  function MethodOf(s: string): (r: Option<RequestMethod>)
    ensures r.Some? ==> MethodName(r.value) == s
    ensures r.None? ==> forall m: RequestMethod :: MethodName(m) != s
  {
    match s
    case "GET" => Some(GET)
    case "POST" => Some(POST)
    case "DELETE" => Some(DELETE)
    case "PATCH" => Some(PATCH)
    case "PUT" => Some(PUT)
    case "HEAD" => Some(HEAD)
    case _ => None
  }

  /** Every method is recognised by its own name. */
  lemma MethodNameParses(m: RequestMethod)
    ensures MethodOf(MethodName(m)) == Some(m)
    ensures ' ' !in MethodName(m) && '\r' !in MethodName(m)
  {
  }

  /** The characters the scan of the request line sees: everything before the
      first carriage return. */
  function RequestLine(s: string): (r: string)
    ensures |r| <= |s| && r == s[..|r|] && '\r' !in r
    ensures |r| == |s| || s[|r|] == '\r'
  {
    match Find(s, "\r")
    case None =>
      forall k | 0 <= k < |s| ensures s[k] != '\r' { IsAtChar(s, '\r', k); }
      s
    case Some(i) =>
      IsAtChar(s, '\r', i);
      forall k | 0 <= k < i ensures s[k] != '\r' { IsAtChar(s, '\r', k); }
      s[..i]
  }

  /** A scan that met no carriage return before `i` and stops there, at a
      carriage return or at the end, has seen the whole request line. */
  lemma LineEndsAt(s: string, i: nat)
    requires i <= |s| && '\r' !in s[..i]
    requires i == |s| || s[i] == '\r'
    ensures RequestLine(s) == s[..i]
  {
    var line := RequestLine(s);
    forall k | 0 <= k < i ensures s[k] != '\r' { assert s[k] in s[..i]; }
    forall k | 0 <= k < |line| ensures s[k] != '\r' { assert line[k] in line; }
  }

  /** The `k`-th piece, or the empty string when there are fewer pieces. */
  function Field(pieces: seq<string>, k: nat): string {
    if k < |pieces| then pieces[k] else ""
  }

  /** What `get_request_core_info` computes: the request line split at its
      spaces gives the method, the path and the version, in that order; a
      missing piece is empty and pieces after the third are ignored. */
  function CoreInfo(s: string): (r: Result<(RequestMethod, string, string), RequestError>)
    ensures r.Ok? ==> MethodName(r.value.0) == Field(Split(RequestLine(s), ' '), 0)
    ensures r.Ok? ==> r.value.1 == Field(Split(RequestLine(s), ' '), 1)
    ensures r.Ok? ==> r.value.2 == Field(Split(RequestLine(s), ' '), 2)
    ensures r.Err? <==> forall m: RequestMethod :: MethodName(m) != Field(Split(RequestLine(s), ' '), 0)
    ensures r.Err? ==> r.error == UnknownMethod
  {
    var pieces := Split(RequestLine(s), ' ');
    match MethodOf(Field(pieces, 0))
    case None => Err(UnknownMethod)
    case Some(m) => Ok((m, Field(pieces, 1), Field(pieces, 2)))
  }

  /** The pieces the scan has collected in state `state`. */
  function Collected(name: string, path: string, version: string, state: nat): seq<string> {
    if state == 0 then [name]
    else if state == 1 then [name, path]
    else [name, path, version]
  }

  /** The state of the scan after the first `i` characters. */
  ghost predicate Scanning(s: string, i: nat, name: string, path: string, version: string, state: nat) {
    && i <= |s| && state <= 2
    && '\r' !in s[..i]
    && Split(s[..i], ' ') == Collected(name, path, version, state)
    && (state < 1 ==> path == "")
    && (state < 2 ==> version == "")
  }

  /** The fields the scan reports are those of the request line. */
  ghost predicate Scanned(s: string, name: string, path: string, version: string) {
    var pieces := Split(RequestLine(s), ' ');
    Field(pieces, 0) == name && Field(pieces, 1) == path && Field(pieces, 2) == version
  }

  /** A space moves the scan on to the next field, which starts empty. */
  lemma ScanSpace(s: string, i: nat, name: string, path: string, version: string, state: nat)
    requires Scanning(s, i, name, path, version, state)
    requires i < |s| && s[i] == ' ' && state < 2
    ensures Scanning(s, i + 1, name, path, version, state + 1)
  {
    assert s[..i + 1] == s[..i] + [' '] + "";
    SplitConcat(s[..i], "", ' ');
    SplitOnceAbsent("", ' ');
  }

  /** Any other character but a carriage return extends the current field. */
  lemma ScanChar(s: string, i: nat, name: string, path: string, version: string, state: nat)
    requires Scanning(s, i, name, path, version, state)
    requires i < |s| && s[i] != ' ' && s[i] != '\r'
    ensures Scanning(s, i + 1,
      if state == 0 then name + [s[i]] else name,
      if state == 1 then path + [s[i]] else path,
      if state == 2 then version + [s[i]] else version,
      state)
  {
    assert s[..i + 1] == s[..i] + [s[i]];
    assert '\r' !in s[..i + 1];
    SplitAppendOther(s[..i], s[i], ' ');
    CollectedPush(name, path, version, state, s[i]);
  }

  /** Appending a character to the last collected field. */
  lemma CollectedPush(name: string, path: string, version: string, state: nat, x: char)
    requires state <= 2
    ensures var p := Collected(name, path, version, state);
      p[..|p| - 1] + [p[|p| - 1] + [x]]
      == Collected(if state == 0 then name + [x] else name,
                   if state == 1 then path + [x] else path,
                   if state == 2 then version + [x] else version,
                   state)
  {
  }

  /** The scan stops at the end, at a carriage return or at a third space,
      having seen the fields of the request line. */
  lemma ScanStops(s: string, i: nat, name: string, path: string, version: string, state: nat)
    requires Scanning(s, i, name, path, version, state)
    requires i == |s| || s[i] == '\r' || (s[i] == ' ' && state == 2)
    ensures Scanned(s, name, path, version)
  {
    if i < |s| && s[i] == ' ' {
      ThirdSpace(s, i);
    } else {
      LineEndsAt(s, i);
    }
  }

  /** `get_request_core_info`: one pass over the characters that stops at the
      first carriage return or at the third space; each space moves on to the
      next field. */
  method GetRequestCoreInfo(request: string) returns (r: Result<(RequestMethod, string, string), RequestError>)
    ensures r == CoreInfo(request)
  {
    var methodString, path, httpVersion := "", "", "";
    var state: nat := 0;
    var i := 0;
    while i < |request|
      invariant Scanning(request, i, methodString, path, httpVersion, state)
    {
      var ch := request[i];
      if ch == '\r' {
        ScanStops(request, i, methodString, path, httpVersion, state);
        break;
      }
      if ch == ' ' {
        if state == 2 {
          ScanStops(request, i, methodString, path, httpVersion, state);
          break;
        }
        ScanSpace(request, i, methodString, path, httpVersion, state);
        state := state + 1;
        i := i + 1;
        continue;
      }
      ScanChar(request, i, methodString, path, httpVersion, state);
      if state == 0 {
        methodString := methodString + [ch];
      } else if state == 1 {
        path := path + [ch];
      } else if state == 2 {
        httpVersion := httpVersion + [ch];
      }
      i := i + 1;
    }
    if i == |request| {
      ScanStops(request, i, methodString, path, httpVersion, state);
    }
    match MethodOf(methodString) {
      case None => r := Err(UnknownMethod);
      case Some(m) => r := Ok((m, path, httpVersion));
    }
  }

  /** A third space ends the scan: the request line has the scanned text as
      its prefix, followed by that space. */
  lemma ThirdSpace(s: string, i: nat)
    requires i < |s| && s[i] == ' ' && '\r' !in s[..i]
    ensures var line := RequestLine(s);
      |line| > i && line == s[..i] + [' '] + line[i + 1..]
      && Split(line, ' ') == Split(s[..i], ' ') + Split(line[i + 1..], ' ')
  {
    var line := RequestLine(s);
    forall k | 0 <= k <= i ensures s[k] != '\r' {
      if k < i { assert s[k] in s[..i]; }
    }
    assert line[..i] == s[..i];
    assert line == line[..i] + [' '] + line[i + 1..];
    SplitConcat(s[..i], line[i + 1..], ' ');
  }

  /** Three fields joined with a separator. */
  lemma JoinThree(a: string, b: string, c: string, d: char)
    ensures Join([a, b, c], d) == a + [d] + b + [d] + c
  {
    assert [a, b, c][1..] == [b, c];
    assert [b, c][1..] == [c];
    assert Join([b, c], d) == b + [d] + c;
  }

  /** `get_raw_headers`: the text from after the first `\r\n` up to the first
      `\r\n\r\n`. */
  function GetRawHeaders(s: string): (r: Result<string, RequestError>)
    ensures r == Err(NoLineEnd) <==> !Contains(s, Crlf)
    ensures r == Err(NoBlankLine) <==> Contains(s, Crlf) && !Contains(s, BlankLine)
    ensures r == Err(NoHeaderLines) <==> Contains(s, BlankLine) && Find(s, Crlf) == Find(s, BlankLine)
    ensures r.Ok? ==> Contains(s, Crlf) && Contains(s, BlankLine)
    ensures r.Ok? ==>
      var a, b := Find(s, Crlf).value, Find(s, BlankLine).value;
      a + 2 <= b && s == s[..a] + Crlf + r.value + BlankLine + s[b + 4..]
    ensures r.Ok? ==> !Contains(r.value, BlankLine)
  {
    match Find(s, Crlf)
    case None =>
      BlankLineHasLineEnd(s);
      Err(NoLineEnd)
    case Some(a) =>
      match Find(s, BlankLine)
      case None => Err(NoBlankLine)
      case Some(b) =>
        BlankLineHasLineEnd(s);
        if a + 2 > b then Err(NoHeaderLines)
        else
          HeaderSlice(s, a, b);
          Ok(s[a + 2..b])
  }

  /** The text between the first line end and the first blank line surrounds
      no blank line. */
  lemma HeaderSlice(s: string, a: nat, b: nat)
    requires IsAt(s, Crlf, a) && IsAt(s, BlankLine, b) && a + 2 <= b
    requires forall j :: 0 <= j < b ==> !IsAt(s, BlankLine, j)
    ensures s == s[..a] + Crlf + s[a + 2..b] + BlankLine + s[b + 4..]
    ensures !Contains(s[a + 2..b], BlankLine)
  {
    var h := s[a + 2..b];
    assert s == s[..a] + s[a..a + 2] + s[a + 2..b] + s[b..b + 4] + s[b + 4..];
    forall j | 0 <= j ensures !IsAt(h, BlankLine, j) {
      if j + 4 <= |h| {
        assert s[a + 2 + j..a + 2 + j + 4] == h[j..j + 4];
        assert !IsAt(s, BlankLine, a + 2 + j);
      }
    }
  }

  /** The first `\r\n` comes no later than the first `\r\n\r\n`, and never
      one character before it. */
  lemma BlankLineHasLineEnd(s: string)
    ensures Contains(s, BlankLine) ==> Contains(s, Crlf)
    ensures Contains(s, BlankLine) ==>
      var a, b := Find(s, Crlf).value, Find(s, BlankLine).value;
      a == b || a + 2 <= b
  {
    if Contains(s, BlankLine) {
      var b := Find(s, BlankLine).value;
      assert s[b..b + 2] == s[b..b + 4][..2];
      assert IsAt(s, Crlf, b);
      var a := Find(s, Crlf).value;
      assert s[b] == s[b..b + 4][0];
      if b > 0 {
        assert s[b - 1..b + 1][1] == s[b];
      }
    }
  }

  /** `get_raw_body`: everything after the first `\r\n\r\n`. */
  function GetRawBody(s: string): (r: Result<string, RequestError>)
    ensures r.Err? <==> !Contains(s, BlankLine)
    ensures r.Err? ==> r.error == NoBlankLine
    ensures r.Ok? ==> var b := Find(s, BlankLine).value; s == s[..b] + BlankLine + r.value
  {
    match Find(s, BlankLine)
    case None => Err(NoBlankLine)
    case Some(b) =>
      assert s == s[..b] + s[b..b + 4] + s[b + 4..];
      Ok(s[b + 4..])
  }

  /** `from_bytes` on text that is already decoded: the core information,
      then the headers, then the body, with the first failure reported. The
      raw request is left empty. */
  function FromString(s: string): (r: Result<Request, RequestError>)
    ensures r.Ok? ==> r.value.rawRequest == ""
    ensures r.Ok? <==> CoreInfo(s).Ok? && GetRawHeaders(s).Ok?
    ensures r.Ok? ==> CoreInfo(s).value == (r.value.httpMethod, r.value.path, r.value.httpVersion)
    ensures r.Ok? ==> GetRawHeaders(s).value == r.value.headers && GetRawBody(s).value == r.value.body
  {
    match CoreInfo(s)
    case Err(e) => Err(e)
    case Ok((m, path, version)) =>
      match GetRawHeaders(s)
      case Err(e) => Err(e)
      case Ok(headers) =>
        match GetRawBody(s)
        case Err(e) => Err(e)
        case Ok(body) => Ok(Request(m, version, headers, body, path, ""))
  }

  /** The text of a request: the request line, the header block and the body. */
  function Compose(m: RequestMethod, path: string, version: string, headers: string, body: string): string {
    MethodName(m) + " " + path + " " + version + Crlf + headers + BlankLine + body
  }

  /** A header block holds no empty line, counting the line ends around it. */
  predicate HeaderBlock(h: string) {
    !Contains(Crlf + h + Crlf, BlankLine)
  }

  /** A request line built from a method, a path and a version holding no
      space and no carriage return splits back into those three. */
  lemma ComposedLine(m: RequestMethod, path: string, version: string)
    requires ' ' !in path && '\r' !in path
    requires ' ' !in version && '\r' !in version
    ensures var line := MethodName(m) + " " + path + " " + version;
      '\r' !in line && Split(line, ' ') == [MethodName(m), path, version]
  {
    var name := MethodName(m);
    MethodNameParses(m);
    JoinThree(name, path, version, ' ');
    SplitJoin([name, path, version], ' ');
    JoinHasNo([name, path, version], '\r', ' ');
  }

  /** In a composed request the first line end closes the request line. */
  lemma ComposedLineEnd(s: string, line: string, rest: string)
    requires s == line + Crlf + rest && '\r' !in line
    ensures Find(s, Crlf) == Some(|line|)
  {
    assert IsAt(s, Crlf, |line|);
    forall j | 0 <= j < |line| ensures !IsAt(s, Crlf, j) {
      assert s[j] == line[j];
      assert j + 2 > |s| || s[j..j + 2][0] == s[j];
    }
    FindIs(s, Crlf, |line|);
  }

  /** In a composed request the first blank line closes the header block. */
  lemma ComposedBlankLine(s: string, line: string, headers: string, body: string)
    requires s == line + Crlf + headers + BlankLine + body
    requires '\r' !in line && HeaderBlock(headers)
    ensures Find(s, BlankLine) == Some(|line| + 2 + |headers|)
  {
    var a, b := |line|, |line| + 2 + |headers|;
    var framed := Crlf + headers + Crlf;
    assert IsAt(s, BlankLine, b) by {
      assert s[b..b + 4] == BlankLine;
    }
    NoBlankLineIn(s, line);
    assert s[a..a + |framed|] == framed;
    NoBlankLineAcross(s, a, framed);
    assert !IsAt(s, BlankLine, b - 1) by {
      assert s[b] == '\r';
      assert s[b - 1..b + 3][1] == s[b];
    }
    FindIs(s, BlankLine, b);
  }

  /** No blank line starts inside a prefix free of carriage returns. */
  lemma NoBlankLineIn(s: string, line: string)
    requires |line| <= |s| && s[..|line|] == line && '\r' !in line
    ensures forall j | 0 <= j < |line| :: !IsAt(s, BlankLine, j)
  {
    forall j | 0 <= j < |line| ensures !IsAt(s, BlankLine, j) {
      assert s[j] == line[j];
      assert j + 4 > |s| || s[j..j + 4][0] == s[j];
    }
  }

  /** No blank line starts inside a slice that contains none. */
  lemma NoBlankLineAcross(s: string, a: nat, framed: string)
    requires a + |framed| <= |s| && s[a..a + |framed|] == framed
    requires !Contains(framed, BlankLine)
    ensures forall j | a <= j && j + 4 <= a + |framed| :: !IsAt(s, BlankLine, j)
  {
    forall j | a <= j && j + 4 <= a + |framed| ensures !IsAt(s, BlankLine, j) {
      forall i | j <= i < j + 4 ensures s[i] == framed[i - a] {
        assert s[a..a + |framed|][i - a] == s[i];
      }
      assert s[j..j + 4] == framed[j - a..j - a + 4];
      assert !IsAt(framed, BlankLine, j - a);
    }
  }

  /** With the delimiters found at `a` and `b`, the headers and the body are
      the slices between and after them. */
  lemma SlicesAt(s: string, a: nat, b: nat)
    requires Find(s, Crlf) == Some(a) && Find(s, BlankLine) == Some(b) && a + 2 <= b
    ensures GetRawHeaders(s) == Ok(s[a + 2..b]) && GetRawBody(s) == Ok(s[b + 4..])
  {
  }

  /** The request line of a composed request gives back its method, path and
      version. */
  lemma ComposedCoreInfo(m: RequestMethod, path: string, version: string, rest: string)
    requires ' ' !in path && '\r' !in path
    requires ' ' !in version && '\r' !in version
    ensures CoreInfo(MethodName(m) + " " + path + " " + version + "\r" + rest) == Ok((m, path, version))
  {
    var line := MethodName(m) + " " + path + " " + version;
    ComposedLine(m, path, version);
    assert CoreInfo(line) == Ok((m, path, version)) by {
      MethodNameParses(m);
      assert line[..|line|] == line;
      LineEndsAt(line, |line|);
    }
    CoreInfoStopsAtLineEnd(line, rest);
  }

  /** The header block and the body of a composed request come back out. */
  lemma ComposedParts(s: string, line: string, headers: string, body: string)
    requires s == line + Crlf + headers + BlankLine + body
    requires '\r' !in line && HeaderBlock(headers)
    ensures GetRawHeaders(s) == Ok(headers) && GetRawBody(s) == Ok(body)
  {
    var a, b := |line|, |line| + 2 + |headers|;
    ComposedLineEnd(s, line, headers + BlankLine + body);
    ComposedBlankLine(s, line, headers, body);
    SlicesAt(s, a, b);
    assert s[a + 2..b] == headers;
    assert s[b + 4..] == body;
  }

  /** Parsing a composed request gives back its parts, whatever the body. */
  lemma FromStringRoundTrip(m: RequestMethod, path: string, version: string, headers: string, body: string)
    requires ' ' !in path && '\r' !in path
    requires ' ' !in version && '\r' !in version
    requires HeaderBlock(headers)
    ensures FromString(Compose(m, path, version, headers, body)) == Ok(Request(m, version, headers, body, path, ""))
  {
    var s := Compose(m, path, version, headers, body);
    var line := MethodName(m) + " " + path + " " + version;
    ComposedLine(m, path, version);
    assert s == line + "\r" + ("\n" + headers + BlankLine + body);
    ComposedCoreInfo(m, path, version, "\n" + headers + BlankLine + body);
    assert s == line + Crlf + headers + BlankLine + body;
    ComposedParts(s, line, headers, body);
  }

  /** The scan sees nothing after the first carriage return. */
  lemma CoreInfoStopsAtLineEnd(line: string, rest: string)
    requires '\r' !in line
    ensures CoreInfo(line + "\r" + rest) == CoreInfo(line)
  {
    var s := line + "\r" + rest;
    assert RequestLine(s) == RequestLine(line) by {
      assert s[..|line|] == line;
      assert line[..|line|] == line;
      LineEndsAt(s, |line|);
      LineEndsAt(line, |line|);
    }
  }

  /** Requests whose request lines agree on the first three pieces have the
      same core information. */
  lemma SameFields(s: string, t: string)
    requires var p, q := Split(RequestLine(s), ' '), Split(RequestLine(t), ' ');
      Field(p, 0) == Field(q, 0) && Field(p, 1) == Field(q, 1) && Field(p, 2) == Field(q, 2)
    ensures CoreInfo(s) == CoreInfo(t)
  {
  }

  /** Nor anything after the third space of the request line. */
  lemma CoreInfoStopsAtThirdSpace(name: string, path: string, version: string, rest: string)
    requires ' ' !in name && ' ' !in path && ' ' !in version
    requires '\r' !in name && '\r' !in path && '\r' !in version
    ensures CoreInfo(name + " " + path + " " + version + " " + rest)
         == CoreInfo(name + " " + path + " " + version)
  {
    var line := name + " " + path + " " + version;
    var s := line + " " + rest;
    ThreeFields(name, path, version, line);
    assert s[..|line|] == line;
    assert s[|line|] == ' ';
    PiecesBeforeSpace(s, line);
    assert line[..|line|] == line;
    LineEndsAt(line, |line|);
    SameFields(s, line);
  }

  /** Three fields without spaces or carriage returns, joined by spaces,
      split back into themselves. */
  lemma ThreeFields(name: string, path: string, version: string, line: string)
    requires ' ' !in name && ' ' !in path && ' ' !in version
    requires '\r' !in name && '\r' !in path && '\r' !in version
    requires line == name + " " + path + " " + version
    ensures Split(line, ' ') == [name, path, version] && '\r' !in line
  {
    JoinThree(name, path, version, ' ');
    SplitJoin([name, path, version], ' ');
    JoinHasNo([name, path, version], '\r', ' ');
  }

  /** A line followed by a space starts the request line with that line's
      pieces. */
  lemma PiecesBeforeSpace(s: string, line: string)
    requires |line| < |s| && s[..|line|] == line && s[|line|] == ' ' && '\r' !in line
    ensures var p := Split(RequestLine(s), ' ');
      |p| >= |Split(line, ' ')| && p[..|Split(line, ' ')|] == Split(line, ' ')
  {
    ThirdSpace(s, |line|);
  }

  /** Each space ends a field, so a doubled space leaves the path empty and
      moves the path into the version. */
  lemma DoubleSpaceShiftsFields()
    ensures CoreInfo("GET  /home HTTP/1.1\r\n") == Ok((GET, "", "/home"))
  {
    var line := "GET" + " " + "" + " " + "/home";
    assert "GET  /home HTTP/1.1\r\n" == line + " " + "HTTP/1.1\r\n";
    CoreInfoStopsAtThirdSpace("GET", "", "/home", "HTTP/1.1\r\n");
    CoreInfoStopsAtLineEnd(line, "");
    ComposedCoreInfo(GET, "", "/home", "");
  }
}
