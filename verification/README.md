# whs-c core, modelled in Dafny

This project models the request-handling core of whs, a small C++ HTTP server library. It covers:

- the route builder, which turns registered `(method, path, middleware)` triples into a trie;
- the runtime route tree that matches a URL against that trie and binds path parameters;
- the middleware pipelines that run before and after routing;
- the `Whs` server's request processing, including the exception-to-response path;
- the HTTP parser adapter, which turns the tokeniser's callbacks into requests;
- the request and response entities, including the response's header map and its wire serialisation;
- the page-based memory buffer that collects request bodies;
- the URL helpers: path splitting, parameter declarations and query strings;
- the static-file middleware.

Modelling conventions:

- Strings are `seq<char>` and stand for byte strings.
- A C string read through `c_str()` is modelled by `Base.CStr`, the prefix before the first NUL.
- An `unsigned int` or `size_t` that can wrap is reduced explicitly modulo `2^32` where the source stores it.
- The regular-expression engine is abstract. The route tree receives a function `accepts(pattern, text)`, and building receives `compiles(pattern)`.
- Middleware are functions `(Request, Response) -> Outcome`. An `Outcome` carries the new request, the new response and a signal:
  - go on (`true`);
  - stop (`false`);
  - raise an `HttpException`;
  - any other exception (`Fault`).
- Route handlers are indices into the router's middleware list.

Where the code and the library's documentation disagree, the model follows the code:

- **Empty parameter segments.** A path parameter without a regex gets the pattern `^.*$`, so it also matches an empty segment.
- **Query keys without '='.** A query string whose only entry has no '=' yields no match, and `onURL` then reports failure (`HttpParsers.OnURLRejectsBareQuery`).
- **Parser state between messages.** The parser never resets the request it fills between keep-alive messages (finding 4 below).
- **The after-pipeline.** It also runs when the before-pipeline answers `false` (`Dispatch.BeforeStopSkipsRoute`).
- **`setCurrentHeaderField`.** Its lower-casing transform writes nothing (its output range is empty). Lower-casing happens in `onHeaderField` instead.

## Model

| member | source | states |
|---|---|---|
| Base.CStr | src/response.cpp:185-194 | the C-string view of a buffer is its longest NUL-free prefix, and the byte after it, if any, is NUL |
| Base.ToLower | src/parser.cpp:86-93 | `std::tolower` over a header name: same length, every character lowered exactly as the C locale does |
| Base.TMod | src/response.cpp:166-168 | C++ `%` truncates toward zero: quotient times divisor plus remainder is the dividend, and the remainder takes the dividend's sign |
| HeaderNames.MapCommonHeaderRoundTrip | src/utils.cpp:258-281 | every common header has a non-empty name, and that name parses back to the same header |
| HeaderNames.MapCommonHeaderInjective | src/utils.cpp:258-281 | two common headers have the same name exactly when they are the same header |
| HeaderNames.Length | include/entity.h:168-181 | a header name's length is the length of its resolved text, and is positive for a common header |
| HeaderNames.EquivalentIffSameText | src/response.cpp:106-121 | two header names are equivalent under `operator<` (neither is less) exactly when their texts are equal |
| HeaderNames.LessIrreflexive | src/response.cpp:106-121 | no header name is less than itself |
| HeaderNames.LessAsymmetric | src/response.cpp:106-121 | the ordering is never true in both directions |
| HeaderNames.LessNotTransitive | src/response.cpp:106-121 | ordering enum members by enum value but mixed pairs by text gives a cycle: Cache-Control < Accept < "B" < Cache-Control |
| HeaderNames.LessTransitiveSameKind | src/response.cpp:106-121 | among names of one kind (all enum or all text) the ordering is transitive |
| UrlUtils.SplitURL | src/utils.cpp:229-247 | "/" and only "/" yields no segment, and no segment contains '/' |
| UrlUtils.SplitURLRoundTrip | src/utils.cpp:229-247 | for a path starting with '/' other than "/", joining the segments with '/' after a leading '/' gives the path back |
| UrlUtils.SplitURLOfJoin | src/utils.cpp:229-247 | splitting "/" followed by slash-free segments joined by '/' returns exactly those segments |
| UrlUtils.SplitURLExamples | src/test/test.cpp:371-395 | "/a/b/c" splits into a, b, c and "/" into nothing |
| UrlUtils.IsParamIff | src/whs-internal.h:57-60 | a segment is a parameter exactly when it has at least two bytes, starts with '{' and ends with '}' |
| UrlUtils.IsParamExamples | src/whs-internal.h:57-60 | "", "{", "a}" and "abc" are not parameters; "{}" and "{a:[0-9]{1,3}}" are |
| UrlUtils.ParseParamTextRoundTrip | src/utils.cpp:148-160 | the declaration pattern reads back the name and regex of every well-formed rendered declaration |
| UrlUtils.ParseParamTextSound | src/utils.cpp:148-160 | whatever the declaration pattern accepts is well formed and renders back to the anchored input |
| UrlUtils.ParseParam | src/utils.cpp:182-217 | succeeds exactly when the declaration matches and, if a regex is given, `^regex$` compiles; without a regex the pattern is `^.*$` |
| UrlUtils.ParseParamOfRendered | src/utils.cpp:182-217 | for a well-formed declaration, the result is the default pattern, the anchored regex, or failure when it does not compile |
| UrlUtils.ParseParamDefaultExample | src/utils.cpp:203-205 | "{name}" gives the name "name" and the pattern `^.*$` |
| UrlUtils.ParseParamRejectsExamples | src/utils.cpp:152 | a space in the name, an empty regex after ':' and an empty name are rejected |
| UrlUtils.Scan | src/utils.cpp:136-145 | every match of the query expression has a non-empty name without '=' and a value without '&' |
| UrlUtils.Collect | src/utils.cpp:171-176 | emplacing matches keeps existing keys and gives every new key the value of its first match |
| UrlUtils.ParseQueryString | src/utils.cpp:166-179 | the result flag is true exactly when there is at least one match; on failure the dictionary is unchanged, and old keys are never lost |
| UrlUtils.QueryRoundTrip | src/utils.cpp:166-179 | a query string built from encodable entries scans back to exactly those entries, succeeds exactly when non-empty, and yields their names |
| MemoryBuffers.Empty | src/utils.h:70 | a new buffer holds no content and has read nothing |
| MemoryBuffers.PageWrite | src/utils.cpp:103-113 | a page write copies the minimum of the input and the page's free room, appended to the unread bytes |
| MemoryBuffers.FreshPages | src/utils.h:46-49 | fresh 512-byte pages hold exactly the bytes written to them |
| MemoryBuffers.Write | src/utils.cpp:17-59 | a buffer write appends all the input to the content and grows the stored count by its length |
| MemoryBuffers.WriteCount | src/utils.cpp:17-59 | the count `write` returns is the size of the last chunk copied: all of the input when it fits in the last page's free room (a whole page for an empty pool), otherwise what is left over for the last fresh page, a full page when the rest divides evenly |
| MemoryBuffers.PageRead | src/utils.cpp:115-126 | a page read returns the minimum of the request and the unread bytes, taken from the front |
| MemoryBuffers.ReadPages | src/utils.cpp:62-101 | reading across pages returns a prefix of the content of the requested length, or all of it; the rest stays unread |
| MemoryBuffers.DropDrained | src/utils.cpp:62-101 | dropping drained pages keeps the content and leaves a page with unread bytes at the front |
| MemoryBuffers.Read | src/utils.cpp:62-101 | a read returns the first `min(size, stored)` content bytes, removes them, and records their number in `gcount` |
| MemoryBuffers.WriteAll | src/utils.cpp:17-59 | successive writes append their chunks in order |
| MemoryBuffers.ReadAllAfterWrites | src/utils.cpp:17-101 | reading everything after a series of writes returns the concatenation of the chunks and empties the buffer |
| MemoryBuffers.ReadTwice | src/utils.cpp:62-101 | two successive reads return consecutive slices of the content |
| Requests.NewRequest | src/request.cpp:12-17 | a new request has no queries, parameters or body, no headers, an empty base URL, method 0 and body size 0 |
| Requests.EmplaceInto | src/request.cpp:107-113 | emplacing creates the map if needed, keeps an existing key's value, and adds a missing key with one more entry; other keys are unchanged |
| Requests.EmplaceQueryThenGet | src/request.cpp:76-113 | after `emplaceQuery`, `getQuery` returns the old value if there was one, else the new one; other keys and the count change accordingly |
| Requests.GetQueryByHeader | include/entity.h:84-87 | looking up a query by common header looks it up by the header's name |
| Requests.AddParamThenGet | src/request.cpp:120-177 | after `addParam`, `getParam` returns the old or the new value; removing a newly added parameter restores the map |
| Requests.RemoveParam | src/request.cpp:120-127 | removing a parameter makes it absent and leaves the other parameters unchanged |
| Requests.GetHeader | src/request.cpp:187-196 | a header is found exactly when it is in the header map |
| Requests.SetBody | include/entity.h:105-109 | the body is stored and its size is kept modulo 2^32, the `unsigned int` field's width |
| Requests.SetBaseURL | include/entity.h:111-124 | only the base URL changes |
| Requests.SetMethod | include/entity.h:93-96 | only the method changes |
| Requests.Swap | src/request.cpp:55-66 | swap exchanges everything except the body sizes, which stay where they were |
| Requests.SwapInvolution | src/request.cpp:55-66 | swapping twice gives back the original pair |
| Responses.EmplaceHeader | include/entity.h:249-257 | inserting an absent name adds exactly one header and keeps names unique; a present name leaves the map unchanged |
| Responses.EmplacedGet | include/entity.h:249-257 | after `addHeader` the name maps to its old value if it had one, else to the new one; other names are unchanged |
| Responses.SetHeader | include/entity.h:276-286 | indexing by name and assigning sets that name's value and no other |
| Responses.NewResponse | include/entity.h:240-245 | a new response has status 200, no body and no headers |
| Responses.AddHeaderIfNotExists | include/entity.h:259-269 | the flag is true exactly when the header was absent; then it now holds the value; otherwise nothing changes |
| Responses.AddCommonHeaderGet | include/entity.h:249-257 | adding a common header keeps an existing value and otherwise sets the new one; other names are unchanged |
| Responses.InsertPair | include/entity.h:290-295 | inserting a pair reports whether the name was new |
| Responses.SetStatus | include/entity.h:271-274 | only the status changes |
| Responses.NumDigits | src/response.cpp:20-38 | the digit count is the least `n` with `v < 10^n` |
| Responses.DecimalRoundTrip | src/response.cpp:40-64 | the decimal text of `v` reads back as `v` |
| Responses.DigitsUnique | src/response.cpp:40-64 | two digit strings of equal length and value are equal, so the rendering is canonical |
| Responses.Itoa | src/response.cpp:40-57 | the digit loop produces only digits whose value is the input: the canonical decimal text |
| Responses.SetBody | src/response.cpp:123-138 | the body is stored and the status kept; the stored size is the given size modulo 2^32 |
| Responses.SetBodyHeaders | src/response.cpp:123-138 | after `setBody`: Content-Type is non-empty (text/plain if absent), Content-Length and Content-Encoding are set if absent, nothing else changes |
| Responses.StatusDigitsRoundTrip | src/response.cpp:166-170 | a status from 100 to 999 is written as its own three decimal digits |
| Responses.StatusDigitsOverflow | src/response.cpp:166-170 | status 1000 is written as ":00", because the first digit is not bounded |
| Responses.HeaderLinesFit | src/response.cpp:183-196 | the header lines fit in the space the size calculation reserves for them |
| Responses.LinesSplit | src/response.cpp:183-196 | the header lines are one line per header in storage order: header `i`'s line comes after the lines of the headers before it and before those after it |
| Responses.LineWithin | src/response.cpp:183-196 | wherever the header lines sit in a text, header `i`'s line "name: value" CRLF starts right after the lines of the headers before it |
| Responses.Finalise | src/response.cpp:149-152 | a response without a body gets Content-Length "0"; one with a body is unchanged |
| Responses.ToBytesShape | src/response.cpp:147-207 | the output is the status line ("HTTP/1.1 ", the three status digits, the status text), then the header lines of the finalised response, then a blank line, then exactly the first `bodySize` body bytes and nothing more |
| Responses.StatusLineOpens | src/response.cpp:158-175 | the status line opens with "HTTP/1.1 " and the three status digits |
| Responses.ToBytesFits | src/response.cpp:66-87 | when the status text has at most 32 bytes, the output fits in the computed allocation and the body-room assertion holds |
| Middlewares.StatusOf | src/parser.cpp:223-233 | a route-not-found exception answers 404; the others carry their status |
| Middlewares.NotFoundAsWritten | src/parser.cpp:191-212 | the message as written reads "Not Route Found: M to" immediately followed by the URL: the space after "to" is overwritten |
| Middlewares.NotFoundAsWrittenExample | src/parser.cpp:191-212 | GET "/x" gives "Not Route Found: GET to/x.", not the intended message |
| Middlewares.NotFoundCorrected | src/parser.cpp:191-212 | advancing past all four bytes of " to " gives "Not Route Found: M to URL." |
| Middlewares.NotFoundFits | src/parser.cpp:191-212 | the bytes written fit in the length-plus-20 allocation when the method name is at most 14 bytes |
| Middlewares.ParserErrorAsWritten | src/parser.cpp:177-189 | the reported size is one more than the lead and the description, so the body's first `size` bytes are "Bad Request: ", the description and a NUL; read as a C string it is "Bad Request: " and the description |
| Middlewares.ParserErrorBody | src/parser.cpp:177-189 | with the size corrected, the body is "Bad Request: " and the description |
| Middlewares.BuildResponse | src/parser.cpp:177-212 | the bytes `buildResponse` reports for each exception kind as written: the not-found message with the space after "to" overwritten, the parser message followed by a NUL, or the exception's own text |
| Middlewares.BuildIntended | src/parser.cpp:177-212 | the intended bytes: "Not Route Found: M to URL.", "Bad Request: " and the description, or the exception's own text |
| Middlewares.BuildDiffers | src/parser.cpp:177-212 | the not-found size as written is one short of the intended one, the parser-error size one over it with an extra NUL, and other exceptions agree |
| Middlewares.ErrorResponse | src/whs.cpp:127-133 | a caught HTTP exception sets the body to its text and the status to its code |
| Pipelines.AddPointer | include/builder.h:150-153 | a raw pointer is appended under the name "unknown", null included |
| Pipelines.AddNamed | include/builder.h:155-160 | a constructed middleware is appended under the given name |
| Pipelines.AddConstructed | include/builder.h:162-167 | the unnamed form is the named form with "unknown" |
| Pipelines.Active | src/pipeline.cpp:26 | the walked middleware are the entries before the first null |
| Pipelines.EmptyPipeline | src/pipeline.cpp:17-21 | a default pipeline holds only the sentinel and runs nothing |
| Pipelines.FromBuilder | src/pipeline.cpp:6-15 | a pipeline copies the builder's pointers in order and ends in the sentinel |
| Pipelines.FromBuilderActive | src/pipeline.cpp:6-15 | without null pointers, the pipeline runs all the builder's middleware in order |
| Pipelines.NullHidesRest | src/pipeline.cpp:6-15 | a null pointer in the builder hides itself and every later middleware |
| Pipelines.AddMiddleware | src/pipeline.cpp:33-45 | adding keeps the array ended by the sentinel |
| Pipelines.AddMiddlewareAppends | src/pipeline.cpp:33-45 | adding a middleware appends it after the running ones; adding null changes nothing that runs |
| Pipelines.Run | include/builder.h:33-37 | running no middleware leaves the request and response as they were and goes on |
| Pipelines.RunAppend | include/builder.h:33-37 | running two lists in turn is running their concatenation: the second starts only if the first went on |
| Pipelines.RunStopsAt | include/builder.h:33-37 | a run that did not go on ended at the first middleware that stopped or threw |
| Pipelines.FeedAfterAdd | src/pipeline.cpp:33-45 | feeding after an add feeds the old pipeline, then the new middleware if the run went on |
| Pipelines.PipelineStatusTen | src/test/builder.cpp:27-44 | four middleware adding 1 to 4 to status 0 leave status 10 |
| RouteTrees.TextAtIff | src/router.cpp:145-171 | the byte-by-byte compare of a node name succeeds exactly when the URL holds that name at the position |
| RouteTrees.SegEnd | src/router.cpp:209-233 | a parameter segment runs to the next '/' or NUL |
| RouteTrees.MatchLiteral | src/router.cpp:145-171 | a literal node matches when its text is followed by '/' or the end, and then tries its children after the '/' |
| RouteTrees.GetRouteRoot | src/router.cpp:173-197 | the root requires its prefix and then a '/' before matching its children |
| RouteTrees.MatchBySegments | src/router.cpp:145-233 | the pointer-walking matcher agrees with a reference matcher over the list of path segments |
| RouteTrees.GetRouteBySegments | src/router.cpp:138-233 | route lookup is the reference matcher applied to the split URL after the prefix |
| RouteTrees.ExhaustedRest | src/router.cpp:199-207 | an end node accepts exactly when the URL has been consumed |
| RouteTrees.Bind | src/router.cpp:209-233 | binding parameters changes only the request's parameter map |
| RouteBuilders.FirstSame | src/router.cpp:118-123 | the child to descend into is the first one with the same name, and none before it qualifies |
| RouteBuilders.Insert | src/router.cpp:105-134 | insertion keeps the existing children, adds at most one, appends an end node when no segment is left, and appends a new segment only when no child matches |
| RouteBuilders.NewBuilder | src/router.cpp:51-57 | a new builder has no prefix, children, middleware or end nodes |
| RouteBuilders.Use | include/builder.h:97-113 | registering appends the middleware, counts one more end node and inserts the split path under the handler's index; the source's descent is the `AsWritten` policy |
| RouteBuilders.WithURLPrefix | src/router.cpp:266-270 | only the prefix changes |
| RouteBuilders.InsertAddsOneEnd | src/router.cpp:105-134 | every insertion adds exactly one end node |
| RouteBuilders.EndNodesCountIsUses | include/builder.h:130-133 | `endNodesCount` equals the number of registrations and the end nodes in the trie |
| RouteBuilders.InsertRecordsRoute | src/router.cpp:105-134 | with corrected descent, the trie's routes after an insertion are the old routes with the new one spliced in |
| RouteBuilders.UseRecordsRoutes | include/builder.h:97-113 | with corrected descent, the trie records one route per registration |
| RouteBuilders.InsertPoliciesAgree | src/router.cpp:105-134 | when no segment is empty, the source's insertion and the corrected one build the same trie |
| RouteBuilders.UseAllPoliciesAgree | include/builder.h:97-113 | when no registered path has an empty segment, the source's registrations and the corrected ones build the same builder |
| RouteBuilders.BuildNode | src/router.cpp:66-102 | building succeeds exactly when every parameter parses; end nodes become terminals, parameters become parameter nodes with the parsed pattern, other segments become literals |
| RouteBuilders.BuildNodes | src/router.cpp:66-102 | children are built one by one and the build fails if any fails |
| RouteBuilders.Build | src/router.cpp:59-64 | the root gets the builder's prefix and the built children |
| RouteBuilders.InsertHasRoute | src/router.cpp:105-134 | for the source's descent and the corrected one alike, after an insertion the route is present |
| RouteBuilders.InsertKeepsRoute | src/router.cpp:105-134 | for either descent, an insertion keeps every route already present |
| RouteBuilders.DuplicateInvisible | src/router.cpp:105-134 | for either descent, inserting a route already present still builds, and the built children match every URL at every position as before |
| RouteBuilders.UseDuplicateInvisible | include/builder.h:97-113 | for either descent, registering a path and method again changes no lookup result |
| RouteBuilders.SecondRegistrationShadowed | include/builder.h:97-113 | for either descent, a second handler for the same path and method is never reached |
| RouteOracles.RouteAShape | src/test/test.cpp:76-82 | registering "/a" builds one literal with one terminal |
| RouteOracles.RouteACases | src/test/test.cpp:76-82 | "/a" and "/a/" reach the handler; "/a/b", "/aa", "/ab" and a POST do not |
| RouteOracles.RootPathCases | src/test/test.cpp:73-74 | "/" reaches a root handler for GET only, and "" reaches nothing |
| RouteOracles.ParamSiblings | src/router.cpp:118-123 | two parameter declarations at the same level become two siblings |
| RouteOracles.ParamRouteCases | src/test/test.cpp:92-97 | "/p/b/c" binds a = b; a longer path and another method miss |
| RouteOracles.AsWrittenLosesRoute | src/router.cpp:118-123 | as written, "/a" then "/a//b" hangs the second route under the first end node, where lookup never reaches it |
| RouteOracles.UnreachableBelowTerminal | src/router.cpp:199-207 | children below a terminal node are never matched |
| RouteOracles.CorrectedKeepsRoute | src/router.cpp:118-123 | when descent skips end nodes, "/a//b" gets its own branch and is found |
| RouteOracles.CorrectedRoutes | src/router.cpp:105-134 | the corrected trie records both routes |
| RouteOracles.ReachableCorrected | src/router.cpp:145-207 | the corrected tree answers "/a//b" with its handler |
| Routers.InsertKeepsBelow | src/router.cpp:105-134 | insertion keeps every handler index below the middleware count |
| Routers.UseAllWired | include/builder.h:97-113 | for either descent, registrations keep every end node pointing at a registered middleware |
| Routers.BuildAllBelow | src/router.cpp:66-102 | building keeps handler indices in range |
| Routers.MatchBelow | src/router.cpp:199-207 | a match only ever returns a registered handler |
| Routers.NewRouter | src/router.cpp:252-256 | a router is built exactly when every parameter parses, and keeps the builder's middleware and prefix |
| Routers.EmptyRouterIsBuilt | src/whs.cpp:154-157 | the router built from an empty builder is the empty router |
| Routers.NotFound | src/router.cpp:12-25 | a miss raises a not-found exception with status 404, the request's method and its URL |
| Routers.GetRouteBelow | src/router.cpp:12-25 | every lookup hit names an existing middleware |
| Routers.RouteCases | src/router.cpp:12-25 | a miss raises not-found and changes nothing; a hit runs the handler on the request with its parameters bound |
| Routers.EmptyRouterNotFound | src/router.cpp:12-25 | the empty router answers every request with not-found |
| Routers.RouteADispatch | src/test/test.cpp:76-82 | after `use(GET, "/a", w)`, "/a" runs `w` and "/b" raises not-found |
| Dispatch.NewServer | src/whs.cpp:81-89 | a new server has empty before and after pipelines and no router, not-found handler or static server |
| Dispatch.Setup | src/whs.cpp:92-106 | setup fails only when a given route builder does not build; pipelines not given and the handlers are kept |
| Dispatch.SetupInstalls | src/whs.cpp:92-106 | given builders become the server's pipelines and router, in order |
| Dispatch.EnableStaticFile | src/whs.cpp:161-166 | enabling static files installs a file server with the given prefix; an empty local path fails |
| Dispatch.MergedHeaders | src/whs.cpp:21-39 | the default middleware adds Server, X-Powered-by and Date, and Cache-Control "no-store" if absent; each keeps an earlier value |
| Dispatch.MergedKeepsOthers | src/whs.cpp:21-39 | the default middleware changes no other header |
| Dispatch.NotFoundHandlerAnswers | src/whs.cpp:44-55 | the default handler answers 404 with "route to URL not found." as a text/plain body and changes nothing else |
| Dispatch.Start | src/whs.cpp:136-159 | start installs a not-found handler and a router only where missing, and keeps the static server |
| Dispatch.StartFeeds | src/whs.cpp:136-159 | after start, the after-pipeline ends with the default headers and the before-pipeline ends with the static-file server |
| Dispatch.Settle | src/whs.cpp:127-133 | an HTTP exception becomes its error response; any other exception escapes; otherwise the response stands |
| Dispatch.DefaultServerReply | src/whs.cpp:114-159 | a started default server sends every request to the not-found handler and then adds the default headers |
| Dispatch.DefaultServerAnswers404 | src/whs.cpp:114-159 | that reply has status 404, the not-found text, text/plain and the server's name |
| StaticFiles.SearchMimeSpec | src/static.cpp:99-107 | the MIME type is that of the first table entry with the extension, or application/octet-stream |
| StaticFiles.MimeOfExtension | src/static.cpp:289-302 | the MIME type comes from the text after the last '.'; no dot or a trailing dot gives the default |
| StaticFiles.SearchMimeHead | src/static.cpp:43-107 | each entry of the table's first block is found as listed |
| StaticFiles.MimeOfScript | src/static.cpp:289-302 | "app.min.js" is served as application/javascript |
| StaticFiles.MimeOfNoExtension | src/static.cpp:289-302 | "README" and "notes." get the default type |
| StaticFiles.LastDot | src/static.cpp:295 | the extension starts after the last '.' |
| StaticFiles.NewStaticServer | src/static.cpp:112-120 | the local path ends in '/', adding one only when missing; an empty path fails |
| StaticFiles.NewStaticServerIdempotent | src/static.cpp:112-120 | constructing again from the normalised path changes nothing |
| StaticFiles.FileHeadersGet | src/static.cpp:252-259 | a tracked file adds Content-Type, Etag and Last-Modified where absent and changes no other header |
| StaticFiles.DeliverGet | src/static.cpp:271-283 | a readable file sets the body and its Content-Length; Etag and Last-Modified stay |
| StaticFiles.ServePassesThrough | src/static.cpp:239-251 | other methods and untracked paths go on with nothing changed; going on always means nothing changed |
| StaticFiles.ServeTracked | src/static.cpp:252-259 | a tracked path stops the pipeline with the file's headers |
| StaticFiles.ServeNotModified | src/static.cpp:260-270 | a GET whose If-None-Match matches the etag's prefix answers 304 with Cache-Control set and the body left as it was |
| StaticFiles.ServeBody | src/static.cpp:271-287 | otherwise a GET gets the file as its body, a HEAD gets no body, and both get Content-Length |
| StaticFiles.ServePrefixTooLong | src/static.cpp:244-247 | a URL shorter than the prefix makes `substr` throw |
| HttpParsers.NewParser | src/parser.cpp:136-141 | a new parser holds an empty request, an empty buffer and no body length |
| HttpParsers.SetCurrentHeaderField | src/parser.h:85-92 | the field name is stored unchanged, because the transform writes nothing |
| HttpParsers.SetCurrentHeaderValue | src/parser.h:80-83 | the header under the current field keeps an earlier value, else takes the new one; other headers are unchanged |
| HttpParsers.SetQuery | src/parser.h:59-62 | the same for the query under the current field name |
| HttpParsers.Merge | src/parser.cpp:70-74 | emplacing a dictionary keeps existing keys and adds the others |
| HttpParsers.EmplaceQueries | src/parser.cpp:70-74 | every query afterwards is its old value if present, else the dictionary's |
| HttpParsers.EmplaceQueriesOneByOne | src/parser.cpp:70-74 | emplacing the whole dictionary is emplacing any one entry first and then the rest |
| HttpParsers.OnURL | src/parser.cpp:57-77 | the callback answers 0 or 1 and changes only the base URL and queries |
| HttpParsers.OnURLPlain | src/parser.cpp:62-64 | without '?', the whole URL is the base URL and the answer is 0 |
| HttpParsers.OnURLQuery | src/parser.cpp:65-76 | with '?', the base URL is the text before it, the queries are emplaced, and the answer is 0 exactly when the expression matched |
| HttpParsers.OnURLEncoded | src/parser.cpp:65-76 | a URL built from a path and encodable entries yields that path and those entries |
| HttpParsers.OnURLParsesQueries | src/test/test.cpp:344-369 | "/index.html?first=a&second=b&third=c" gives base "/index.html" and the three queries |
| HttpParsers.OnURLRejectsBareQuery | src/parser.cpp:75 | "/x?" and "/x?a" fail the callback |
| HttpParsers.OnHeaderField | src/parser.cpp:86-93 | the stored field name is the lower-cased name, of the same length |
| HttpParsers.OnBody | src/parser.cpp:102-108 | a body chunk is appended to the buffer and counted in the body length |
| HttpParsers.OnHeadersComplete | src/parser.cpp:110-115 | only the method is set |
| HttpParsers.FinishCurrentRequest | src/parser.cpp:143-155 | a body is read out whole, NUL-terminated and its size stored modulo 2^32; the buffer is left empty; the request is not reset |
| HttpParsers.Reset | src/parser.cpp:214-220 | reset clears the body length and the request, except its body size |
| HttpParsers.Step | src/parser.cpp:52-161 | only the URL callback can fail; a request is handed to the client exactly at message completion; as written the parser then holds the request as the client's processing left it, corrected it holds a fresh request |
| HttpParsers.Execute | src/parser.cpp:163-174 | the callbacks run in order until one fails, and that failure is a URL event |
| HttpParsers.ExecuteAppend | src/parser.cpp:163-174 | feeding two event lists one after the other is feeding their concatenation |
| HttpParsers.ReadFromNetwork | src/parser.cpp:163-174 | reading succeeds exactly when no callback and no lexer step fails; a failure raises the parser exception with its description |
| HttpParsers.ReadFailureMessage | src/parser.cpp:162-189 | the exception a failed read throws carries the given status, and its `buildResponse`, read as a C string, is "Bad Request: " and the description; the size it reports counts one more byte, a NUL |
| HttpParsers.HeadersLowerCase | src/parser.cpp:86-93 | every delivered request's header names are lower case, provided the client's processing adds no upper-case header name |
| HttpParsers.BodiesAccumulate | src/parser.cpp:102-108 | body events append their chunks in order and deliver nothing |
| HttpParsers.BodyDelivered | src/parser.cpp:143-161 | a message with body chunks delivers one request whose body is their concatenation plus NUL |
| HttpParsers.ExecuteSame | src/parser.cpp:163-174 | parsers that differ only in their buffer pages behave the same |
| HttpParsers.CorrectedMessagesIndependent | src/parser.cpp:143-161 | with a reset after delivery, a second message is parsed as if alone |
| HttpParsers.MessageHeaders | src/parser.cpp:95-100 | a message's header value is emplaced: it keeps an older value of the same name; the request keeps the parser's parameters, and afterwards the as-written parser holds the processed request |
| HttpParsers.StaleHeaderExample | src/parser.cpp:143-161 | as written, when the client leaves header "x" alone, a keep-alive connection's second request keeps the first request's value; corrected, it gets its own |
| HttpParsers.StaleParamExample | src/parser.cpp:155-158 | as written, after "GET /p/b" is routed through "/p/{a}", the next request "GET /p/c" arrives holding a = "b" and its handler sees a = "b" |
| HttpParsers.FreshParamExample | src/parser.cpp:155-158 | corrected, the second request arrives without parameters and its handler sees a = "c" |

## Left out

- I/O and the event loop are not modelled: libuv, TCP, clients writing responses, logging, the `atexit` hooks and `Whs` process start (`_start`, `_setup`, `init`).
- The HTTP tokeniser (http_parser) is not modelled. The model feeds the callbacks a list of events. Each event carries a whole URL, header name, header value or body chunk, so partial callbacks are not modelled.
- Tokeniser tables are parameters: method names, status texts, error numbers and their descriptions.
- The regular-expression engine is a parameter (`accepts`, `compiles`), so PCRE matching itself is not modelled.
- A parameter segment's `_regex` is kept as its pattern text.
- The query expression is modelled by the scanner it denotes (`UrlUtils.Scan`).
- Responses.NumDigits: above 9999 the source uses `std::log10`. The model uses the exact digit count that `log10` is meant to give; floating point is not modelled.
- The response header map is a `std::map` with a comparator that is not transitive (`HeaderNames.LessNotTransitive`), so its order is not well defined. The model keeps the headers in a list with one entry per resolved name and looks them up by text, which matches the comparator's equivalence (`HeaderNames.EquivalentIffSameText`).
- The HTTP exception's status code and the parser exception's class are not part of this model's source. The status is a parameter.
- `Pipeline::feed` is not part of this model's source. `Pipelines.Run` follows the middleware contract: call in order, stop at `false`, pass exceptions on.
- Memory ownership is not modelled: `dup_memory`, deletes, and move constructors and their moved-from state. `Requests.Swap` models swap's field exchange.
- A failed `assert` while building routes is modelled as a `None` result. Examples are an unparsable parameter or a bad builder.
- Dispatch.Setup requires every end node of a given route builder to name a registered middleware. The source relies on this without checking it.
- The static-file server's file table is the `files` parameter. Listing files, hashing URLs, `calc_etag`/MD5, file reads and the clock are not modelled: a file's etag, modification time and content are fields. `ETAG_LENGTH` is the `etagLength` parameter.
- The server clock and `WHS_VERSION` are the `now` and `version` parameters.
- `SystemErrorHandler` and the build with exceptions disabled are not modelled. Exceptions other than `HttpException` escape as `Fault`.
- `onStatus`, `onMessageBegin`, `onChunkHeader` and `onChunkComplete` do nothing or assert. They are events that change nothing.
- HttpParsers.OnBody: the `size_t` body length is unbounded in the model. It is reduced modulo 2^32 only where it is stored in the request.
- The builder's `_pathToMe` and `_midName` debug names are not modelled.
- `_client == nullptr` (parsing without a client) is not modelled. A delivered request is what the client's `processing_request` receives. As written, the parser then keeps the request as that processing left it, so from a connection's second message on it also carries what the client did to earlier requests.
- The client's `processing_request` is the `process` function of the `AsWritten` policy, and `write_response` is not modelled.
- A failed read is not answered. `Client::read_from_network` (src/client.cpp:4-7) and the libuv read callback (src/uv.cpp:59) do not catch the `HttpParserException` that `readFromNetwork` throws, so no reply is built for it. The model ends at the exception (`HttpParsers.ReadFromNetwork`), and `HttpParsers.ReadFailureMessage` states only the message that exception carries.

## Findings

| source | as written | input that shows it | evidently intended | confidence | as-written member | corrected member |
|---|---|---|---|---|---|---|
| src/router.cpp:118-123 | `insertChild` descends into the first child with the same name; end nodes have an empty name, so an empty segment descends into an end node | register "/a", then "/a//b": the second route sits below the first end node and "/a//b" is not found | a new branch for the empty segment, so both routes are reachable | not executed; high | RouteOracles.AsWrittenLosesRoute | RouteOracles.CorrectedKeepsRoute |
| src/parser.cpp:191-212 | after copying " to " (4 bytes) the write pointer advances by 3, so the URL overwrites the space | GET "/x" gives "Not Route Found: GET to/x." | "Not Route Found: GET to /x." | not executed; high | Middlewares.NotFoundAsWritten | Middlewares.NotFoundCorrected |
| src/parser.cpp:177-189 | the size is 14 plus the description's length, one more than the 13-byte lead and the description, so the body ends with a NUL | any parser error with description d: the first `size` bytes are "Bad Request: ", d and a NUL | "Bad Request: " followed by d | not executed; medium | Middlewares.ParserErrorAsWritten | Middlewares.ParserErrorBody |
| src/parser.cpp:143-161 | after a message completes, the parser keeps filling the same request; headers and queries are emplaced, so older values win | two keep-alive messages with header "x: 1" then "x: 2": the second request sees x = 1 | each message starts from an empty request | not executed; medium (the library's parser test reads the request back from the parser after completion, which a reset must not disturb) | HttpParsers.StaleHeaderExample | HttpParsers.CorrectedMessagesIndependent |
| src/parser.cpp:155-158 | the client processes the parser's own request by reference, so parameters the router binds stay for the next message, and `addParam` keeps a name's first value | route "/p/{a}": "GET /p/b" then "GET /p/c" on one connection; the second handler sees a = b | the second handler sees a = c | not executed; medium | HttpParsers.StaleParamExample | HttpParsers.FreshParamExample |
