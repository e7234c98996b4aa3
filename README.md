# fastry request intake, modelled in Dafny

fastry is a small web server written in Rust. It embeds Python handlers. This
project models its request-intake core and proves properties of that model:

- **Route tree** (`routes.dfy`, module `Routes`). A `RouteNode` tree is built
  from `(pattern, handler id)` pairs. A pattern without a `<` parameter
  marker goes straight under the root, keyed by the whole pattern. Any other
  pattern is inserted segment by segment. A parameter segment is stored under
  the edge `CUSTOM_PARAM` and keeps its declared name in `originalPath`.
  Resolution tries the whole path as a root key first. Otherwise it collects
  the query pairs and walks the segments: an exact child first, then the
  `CUSTOM_PARAM` child, capturing parameters along the way.
- **Application** (`application.dfy`, module `Application`). The `App` class
  holds the route tree and the handler cache. `LoadRouteTree`,
  `ResolveRoute` and `GetOrSaveHandler` are methods over its fields. The
  query loop and the segment loop of `resolve_route` are the loop methods
  `CollectQuery` and `WalkSegments`. `LoadRouteTree`, `ResolveRoute` and
  the two loop methods are proved equal to specification functions in
  `Routes`. `GetOrSaveHandler` is specified directly by what it does to the
  cache fields.
- **Dispatcher** (`dispatcher.dfy`, module `Dispatcher`). This models the
  accept loop of `main`. It covers the worker vector, the round-robin cursor
  and its wrap-around, and the removal of a worker whose channel is gone. It
  also covers the 60-second scaling window, which adds a worker above a
  ratio of 5 and drops the last worker below 0.2. The `Pool` class has one
  method per step of the loop.
- **Route discovery** (`scanner.dfy`, module `RouteScanner`). This models
  `get_routes_for_file` as a line-by-line scanner. A `#->r` marker line sets
  the pending path. The next non-blank line must be a `def`, and it yields
  `file::function`. It also models the path filters of
  `visit_dirs`/`visit_python_file` and the concatenation over all files.
- **Request parsing** (`request.dfy`, module `HttpRequest`). This models the
  three-state character loop of `get_request_core_info`, the header and body
  slices, and `from_bytes` on already-decoded text.
- `text.dfy` (module `Text`) states the Rust `&str` operations the code
  relies on: `find`, `split_once`, `split` and `trim`. Here `trim` uses
  Unicode `White_Space`. `wrappers.dfy` holds `Option` and `Result`.

The panics of the modelled parsing, scanning and dispatching code are explicit
outcomes in the model. An `unwrap` on `None` and an out-of-order slice become
an `Err` value. An `unreachable!()` on an unknown method also becomes an `Err`
value. An index into an empty worker vector, and a send on a dead channel, set
the dispatcher's `running` flag to false. The `unwrap`s on I/O results are
outside the model; "## Left out" lists them. The `unwrap`s on a node's `path`
and `original_path` in `resolve_route` (`app.rs:163`, `165`) cannot fail on a
tree that `Routes.WellFormed` describes, and every registration keeps the tree
well formed.

Where the code's behaviour is easy to misread, the model follows the code:

- **Literal route with a query.** A literal route is only found by the
  whole-path lookup. So `/home?x=1` does not reach a literal `/home`; see
  `Routes.LiteralRouteWithQueryMisses`.
- **Unmatched segment.** A segment that matches no child is skipped, and the
  walk stays on the same node; see `Routes.WalkSkipsUnmatched`.
- **Shared parameter edge.** Two parameter names on one `CUSTOM_PARAM` edge
  keep the first name. An existing node is reused as it is (`app.rs:97-100`,
  `115-118`); see `Routes.InsertKeepsPathNodes`.
- **Captured parameter names.** A captured parameter is keyed by its raw
  pattern text, brackets included: `/user/<id>` binds `<id>`, not `id`
  (`app.rs:163-166`); see `Routes.WalkChain` and `Routes.Bind`.
- **Failed send.** A failed send removes the worker. It then sends the stop
  message on the channel that just failed, so `unwrap` panics. There is no
  retry on the next worker.
- **Counter after a window.** After a scaling evaluation the counter is reset
  to 0 and then incremented. The next window therefore starts at 1.
- **Failed handler load.** This is an `unwrap` panic in the worker, not a
  per-request error. The model returns `Err(LoadFailed)`, and the worker loop
  that would panic on it is not modelled.

## Model

| member | source | states |
|---|---|---|
| Text.Find | src/app/app.rs:72 | the result is the first position where the pattern occurs; `None` exactly when it occurs nowhere |
| Text.SplitOnce | src/app/app.rs:89 | the input is the left part, the separator and the right part; the separator sits at its first occurrence |
| Text.Split | src/app/app.rs:157 | at least one piece, and no piece holds the separator |
| Text.JoinSplit | src/app/app.rs:157 | joining the pieces of a split gives the text back |
| Text.SplitJoin | src/app/app.rs:157 | splitting pieces that hold no separator, joined with it, gives the pieces back |
| Text.Trim | src/main.rs:177 | the result is a slice of the text with only Unicode whitespace before and after it; it is empty exactly when the text is all whitespace, and otherwise starts and ends with non-whitespace |
| Text.TrimUnique | src/main.rs:185 | text that neither starts nor ends with whitespace, padded with whitespace on both sides, trims back to itself |
| Routes.RecursiveInsert | src/app/app.rs:88-129 | the node insertion starts from keeps its own edge, name and handler, and loses no child |
| Routes.InsertReaches | src/app/app.rs:88-129 | after insertion, the node at the route's edge path carries the handler; an existing node there changes only its handler, and a new one gets the segment's edge and the segment as its original name |
| Routes.InsertElsewhere | src/app/app.rs:88-129 | every node whose edge path is not a prefix of the route's is unchanged |
| Routes.InsertKeepsPathNodes | src/app/app.rs:97-108 | nodes on the way to the terminal keep their edge, original name and handler; a reused parameter edge keeps its first name |
| Routes.InsertWellFormed | src/app/app.rs:88-129 | insertion keeps the tree well formed: every child sits under its own edge, and that edge is its name normalised to `CUSTOM_PARAM` when it starts with `<` |
| Routes.KeyPathShape | src/app/app.rs:89-95 | leading and doubled slashes create no edge: on a pattern's key path only the last key can be empty, and it is empty exactly when the pattern ends in `/` |
| Routes.InsertTwice | src/app/app.rs:115-118 | inserting a route twice is the same as inserting it once with the second handler (last registration wins) |
| Routes.RegisterTwice | src/app/app.rs:72-83 | registering a pattern twice leaves the tree that the second registration alone gives |
| Routes.RegisterWellFormed | src/app/app.rs:72-83 | registering one pattern, by either path, keeps the tree well formed |
| Routes.RegisterAllWellFormed | src/app/app.rs:68-86 | registering a whole list keeps the tree well formed |
| Routes.ChainInsert | src/app/app.rs:88-129 | a slash-separated pattern inserted into an empty node makes one child per segment, the last carrying the handler |
| Routes.NextItem | src/app/app.rs:180-194 | an exact child wins; without one, the `CUSTOM_PARAM` child is taken once when fallback is on; otherwise nothing |
| Routes.CollectKeys | src/app/app.rs:146-153 | a key is among the query variables exactly when some `&`-piece holding `=` names it |
| Routes.CollectLastWins | src/app/app.rs:146-153 | a key's value is the one of its last piece |
| Routes.WalkSkipsUnmatched | src/app/app.rs:160-174 | segments that match nothing are skipped and the walk stays on the same node |
| Routes.WalkKeepsVariables | src/app/app.rs:159-176 | the walk never drops a variable; a key that neither starts with `<` nor is `CUSTOM_PARAM` keeps its value, since only parameter names are written |
| Routes.WalkChain | src/app/app.rs:155-177 | walking a chain built from a pattern with segments it matches returns the handler and binds every parameter to its segment |
| Routes.RequestPathQuery | src/app/app.rs:141-144 | a request path with a query splits at its `?` into the path and the query |
| Routes.RequestPathSegments | src/app/app.rs:157-158 | splitting `/a/b/c` on `/` and dropping the first piece gives the segments |
| Routes.RegisterThenResolveParameterised | src/app/app.rs:68-178 | after registering a parameterised pattern into an empty tree, any request path whose segments match it, with or without a query, resolves to its handler with each parameter bound and the query variables kept |
| Routes.RegisterThenResolveLiteral | src/app/app.rs:72-139 | a registered literal pattern resolves to its handler with no variables |
| Routes.LiteralRouteWithQueryMisses | src/app/app.rs:136-177 | a literal pattern followed by a query resolves to no handler, only the query variables |
| Application.App.constructor | src/app/app.rs:52-59 | an empty tree and an empty cache |
| Application.App.LoadRouteTree | src/app/app.rs:68-86 | the new tree is the old one with the pairs registered in order; the cache is untouched |
| Application.App.ResolveRoute | src/app/app.rs:131-178 | the result is `Routes.Resolve` of the tree and the route; the app is not changed |
| Application.CollectQuery | src/app/app.rs:141-153 | the loop over `&`-pieces builds exactly the query variables |
| Application.WalkSegments | src/app/app.rs:155-177 | the loop over segments returns exactly `Routes.Walk` |
| Application.App.GetOrSaveHandler | src/app/app.rs:251-265 | no `::` gives an error; a cached key returns the cached handler without loading; otherwise the loader runs, and on success the handler is cached under exactly that key, once; a failure leaves the cache unchanged |
| Application.LoadsOnce | src/app/app.rs:251-265 | two requests for the same handler return the same result and load at most once |
| Dispatcher.RemoveAt | src/main.rs:108 | `Vec::remove`: one element shorter, elements before the index kept, later ones shifted down |
| Dispatcher.Advance | src/main.rs:97-101 | the cursor moves to the next index modulo the pool size and stays inside the pool |
| Dispatcher.WindowOver | src/main.rs:81-82 | the window is over exactly when at least 61 whole seconds have passed (`as_secs() > 60`) |
| Dispatcher.ScaleDecisionRatio | src/main.rs:83-91 | over the exact ratio `counter / 60 / workers`, the model grows exactly when it is above 5, shrinks exactly when it is below 0.2, and keeps the pool otherwise |
| Dispatcher.CursorCyclic | src/main.rs:97-101 | after k requests the cursor is `(start + k) mod size` |
| Dispatcher.HitsCount | src/main.rs:57-101 | the number of the first m requests that go to worker i, in closed form |
| Dispatcher.RoundRobinFair | src/main.rs:57-101 | in a fixed pool, the request counts of any two workers differ by at most one, and are equal when m is a multiple of the size |
| Dispatcher.Pool.constructor | src/main.rs:48-56 | ten workers numbered 0 to 9, cursor and counter at 0, the window starting now |
| Dispatcher.Pool.AddAndStartWorker | src/main.rs:113-121 | one fresh worker appended at the end, nothing else changed |
| Dispatcher.Pool.RemoveWorkerTryStop | src/main.rs:107-111 | the worker at the index is removed; the dispatcher keeps running only if the stop message is delivered |
| Dispatcher.Pool.Accept | src/main.rs:57-103 | one connection: an empty pool panics; a failed send removes the current worker and panics; otherwise the current worker is the target, the window may grow or shrink the pool and restart, the cursor advances with wrap-around and the counter counts the request |
| RouteScanner.Step | src/main.rs:172-189 | a marker line is read by `MarkerStep` and keeps the routes; any other non-blank line while a path is pending is read by `DefStep` and, when it succeeds, adds exactly one route for that path and clears it; blank lines, and any non-marker line while nothing is pending, change nothing |
| RouteScanner.MarkerStep | src/main.rs:174-178 | a marker line fails exactly when it has no `/`; otherwise it keeps the routes, and the pending path p is such that the line is `pre + p + post` with no `/` in `pre`, only whitespace in `post`, p starting with `/` and ending in non-whitespace |
| RouteScanner.MarkerPartsRead | src/main.rs:174-178 | every way of writing a line as such `pre + p + post` makes p the pending path |
| RouteScanner.DefStep | src/main.rs:180-188 | the line after a marker fails with `MissingDef` exactly when it has no `def`; on success the line is `pre + "def" + mid + "(" + post` with `def` at its first occurrence and no `(` in `mid`, and the new state appends `(pending, file::Trim(mid))` to the routes and clears the pending path |
| RouteScanner.DefPartsRead | src/main.rs:180-188 | every way of writing a line as such `pre + "def" + mid + "(" + post` makes the step add `(pending, file::Trim(mid))` |
| RouteScanner.GetRoutesForFile | src/main.rs:166-192 | the loop returns exactly the scan of all lines |
| RouteScanner.ScanSkipsBlank | src/main.rs:180 | blank lines anywhere do not change the scan |
| RouteScanner.MarkerReplaces | src/main.rs:174-178 | a second marker line replaces the pending path of the first |
| RouteScanner.ScanMarker | src/main.rs:174-178 | a marker line with any `/`-free text before and after `#->r`, then the path and trailing whitespace, sets exactly that path |
| RouteScanner.ScanDef | src/main.rs:180-188 | an indented `def` line with whitespace around the name and any parameter text without a marker, after a marker, adds `(path, file::name)` |
| RouteScanner.ScanRoundTrip | src/main.rs:166-192 | scanning the rendering of such marker/def pairs returns exactly their routes, in order, after the routes already found |
| RouteScanner.FileRoundTrip | src/main.rs:166-192 | a file made of such marker/def pairs yields exactly its declarations |
| RouteScanner.GetRoutes | src/main.rs:159-164 | the loop over the listing concatenates the routes of every scanned file, in order, stopping at the first error |
| RouteScanner.SkippedFileIgnored | src/main.rs:133-151 | a path containing `venv` or `target`, or not containing `.py`, contributes nothing |
| HttpRequest.MethodOf | src/request/request.rs:62-70 | exactly the six upper-case names are methods, each naming its own method |
| HttpRequest.MethodNameParses | src/request/request.rs:62-70 | every method is recognised by its own name |
| HttpRequest.RequestLine | src/request/request.rs:43-46 | the prefix before the first carriage return, or the whole text |
| HttpRequest.CoreInfo | src/request/request.rs:37-73 | method, path and version are the first three space-separated pieces of the request line, missing ones empty; an unknown method is an error |
| HttpRequest.ScanSpace | src/request/request.rs:47-53 | a space moves the scan to the next field, which starts empty |
| HttpRequest.ScanChar | src/request/request.rs:54-60 | any other character extends the current field |
| HttpRequest.ScanStops | src/request/request.rs:43-50 | stopping at the end, at a carriage return or at a third space leaves exactly the fields of the request line |
| HttpRequest.GetRequestCoreInfo | src/request/request.rs:37-73 | the character loop returns exactly `CoreInfo` |
| HttpRequest.CoreInfoStopsAtLineEnd | src/request/request.rs:44-46 | nothing after the first carriage return affects the result |
| HttpRequest.CoreInfoStopsAtThirdSpace | src/request/request.rs:47-50 | nothing after the third space affects the result |
| HttpRequest.DoubleSpaceShiftsFields | src/request/request.rs:47-53 | `GET  /home HTTP/1.1` gives an empty path and the version `/home` |
| HttpRequest.GetRawHeaders | src/request/request.rs:76-81 | the text between the first `\r\n` and the first `\r\n\r\n`, which contains no blank line; each missing delimiter, and a blank line right at the first line end, is its own error |
| HttpRequest.BlankLineHasLineEnd | src/request/request.rs:77-80 | the first `\r\n` never comes after the first `\r\n\r\n`, and is either at it or at least two characters before it |
| HttpRequest.GetRawBody | src/request/request.rs:84-87 | the request is a prefix, the first blank line and the body; without a blank line, an error |
| HttpRequest.FromString | src/request/request.rs:24-35 | a request is produced exactly when the core info and the headers parse; its fields are theirs and the raw request is empty |
| HttpRequest.FromStringRoundTrip | src/request/request.rs:24-87 | parsing `METHOD path version\r\nheaders\r\n\r\nbody` gives back each part, for any body and any header block without an empty line |

## Left out

- Python: the PyO3 runtime, module loading and handler invocation. `get_or_save_handler` takes the loader as a function parameter.
- `App::start`, `process_request`, `execute_request` and response formatting: the per-worker loop and the Python call are not modelled.
- `initialize_application` and `prepare_python_things`: Python set-up only.
- Threads, channels, sockets and TCP reads. The outcome of a send and the delivery of a stop message are boolean inputs of `Accept` and `RemoveWorkerTryStop`. The clock is a millisecond input.
- The 16384-byte read buffer, and UTF-8 decoding (invalid input becomes an empty request in `main`, and an `unwrap` panic in `from_bytes`). Requests are taken as decoded text.
- Dispatcher.ScaleDecision: decides in exact integers (`counter > 300·n`, `counter < 12·n`) rather than with the f64 ratio. It can differ from the f64 result only at `counter == 12·n`, where rounding may make the ratio fall just below 0.2 (for example n = 3, counter = 36).
- RouteScanner.GetRoutes: the directory walk of `visit_dirs` is given as a flattened list of `(path, lines)`. A directory whose path contains `venv` or `target` is skipped, which is the same as skipping every file below it. Listing errors, which end the walk early, are not modelled.
- The `unwrap`s on I/O: `stream.unwrap()` (`main.rs:58`), `socket.read(..).unwrap()` (`main.rs:65`), `path.to_str().unwrap()` for non-UTF-8 file names (`main.rs:132`, `148`) and the set-up `unwrap`s of `main` (`main.rs:37-46`). Accepting, reading and listing are not modelled, so these panics are not either.
- RouteScanner.GetRoutesForFile: the file is given as its lines. A line that fails to read is `""` in the source, and it is taken here as already replaced. A file that cannot be opened (an `unwrap` panic) is not modelled.
- `App.raw_routes` and `python_app`: `raw_routes` is never written, and `python_app` belongs to the Python layer.
- The route tree is a value (`RouteNode` is owned through `Box` and never aliased). In-place insertion is modelled as a function returning the updated tree, which the `App` methods assign to their field.
- `Request::from_string`, called in `app.rs:215`, is not defined in the source. `HttpRequest.FromString` models `from_bytes` on decoded text. `ProcessedRequest` is not part of this model.
- `HttpRequest.Request.rawRequest` is always empty, as in the source.
