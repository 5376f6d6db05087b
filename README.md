# iris-web core in Dafny

iris-web is a small Rust web framework. This project models its request-dispatch
core and proves properties of that model:

- **The segment trie router** (`Routing`). A router maps literal path segments to
  resolvers and holds at most one placeholder `fallback`. A resolver is a nested
  router or a `Placeholder` leaf with a string payload.
  - `insert` splits the path on `/`, drops empty segments and builds sub-routers as
    it goes. When a deeper path passes through an existing leaf, the leaf moves under
    the new sub-router's `""` key.
  - `resolve` walks the segments. A literal key wins over the fallback, and a leaf
    ends the walk even if segments remain.
  - Routers are values (`Router`, `PathResolver`). The top-level router that
    `insert` updates in place is the class `LiveRouter`.
- **The type-keyed data container** (`DataContainers`). It maps a type tag to a
  stored value.
  - `add` and `add_arc` overwrite the entry for the value's type, `get` looks one
    up, and `combine` is a right-biased union.
  - Type identity is the abstract token `TypeTag`, and every stored value carries
    the tag of its type.
- **The deferred command queue and the request pipeline** (`PipelineState`,
  `RequestPipelines`).
  - `PipelineData` holds the request, the data container and a command queue, all
    as classes.
  - `CommandQueue.Execute` applies queued `AddData` commands in FIFO order, then
    clears the queue.
  - `RequestPipeline.Handle` runs each middleware in order and drains the queue
    after each one. Then the controller runs.
- **Handler parameters and adapters** (`Params`, `Middlewares`,
  `FunctionControllers`, `Controllers`).
  - Each parameter kind has a `Fetch`. Only `Data<T>` can be missing.
  - The adapters fetch every declared parameter (an `unwrap` each), call the user
    function once and, for a controller, convert its result with `into_response`.
  - `ConfiguredController` keeps the middlewares in the order they were added.
  - The user functions are parameters of the model: total functions from a
    snapshot of the pipeline (or from the fetched items) to their effect.
- **Request and response values** (`Requests`, `Responses`, `Methods`).
  - Statuses map to status lines, and there are the default response, the
    builders and the `IntoResponse` / `IntoResponseBody` conversions.
  - `send_response` lays out the bytes it writes.
  - `from_stream` parses requests, as a function of the lines the stream delivers
    and the bytes that follow them.
  - `Method::as_str`.
- **Text and number helpers** (`Text`, `Wrappers`). These model Rust's
  `str::split`, `join`, `trim`, `usize` parsing and decimal printing, and UTF-8
  encoding.

A panic in the source (an `unwrap` on `None`, an index past the end) is an error
value in the model, or a precondition where the module boundary calls for one:
- request parsing in `Requests` returns a `ReadError`;
- `RequestPipeline.Handle` returns `Aborted`;
- the adapters require that their parameters can be fetched.

Behaviours of the code the model keeps:
- `insert` of `"/"` (or `""`) is a no-op (router.rs:26-29): inserting the root path
  stores nothing under `""`.
- A placeholder leaf is returned even when segments remain (router.rs:110, 115).
- No middleware can stop the chain. `MiddlewareHandler::handle` returns nothing
  (middleware.rs:5), so the controller always runs unless a parameter fetch panics.
- The `Controller` trait's `handle` takes `&PipelineData` (controller.rs:9), while
  the macro impl takes `&mut PipelineData` (function_controller.rs:35). The body
  only reads it, so the model's controller changes nothing but the command queue.
- The `_` arm of `as_raw` (response.rs:34) can never match. The model has no such
  case.

Source paths below are relative to the repository root.

## Model

| member | source | states |
|---|---|---|
| Routing.New | crates/iris-web-core/src/router/router.rs:13-18 | a new router has no literal routes and no fallback |
| Routing.Segments | crates/iris-web-core/src/router/router.rs:23 | every segment of a split path is non-empty and contains no `/` |
| Routing.SegmentsOfPath | crates/iris-web-core/src/router/router.rs:32 | joining a segment list with `/` and splitting it again gives the list back, so recursing on the joined `rest` string is recursing on the remaining segments |
| Routing.RestResplits | crates/iris-web-core/src/router/router.rs:23-35 | the `rest` string splits into exactly the remaining segments, and it is empty iff the path had one segment |
| Routing.InsertNoSegments | crates/iris-web-core/src/router/router.rs:23-29 | inserting a path with no segments leaves the router unchanged |
| Routing.RootHasNoSegments | crates/iris-web-core/src/router/router.rs:23-29 | `""` and `"/"` have no segments, so inserting the root path is a no-op |
| Routing.InsertOneSegment | crates/iris-web-core/src/router/router.rs:35-43 | a one-segment insert sets `fallback` for a placeholder and `routes[seg]` for a literal, replacing whatever was there, and changes nothing else |
| Routing.InsertLiteralFrame | crates/iris-web-core/src/router/router.rs:65-89 | an insert under a literal head leaves the fallback and every other literal key unchanged |
| Routing.InsertPlaceholderFrame | crates/iris-web-core/src/router/router.rs:47-64 | an insert under a placeholder head leaves the literal routes unchanged |
| Routing.PlaceholderUnderSubRouterDropped | crates/iris-web-core/src/router/router.rs:49-50 | a multi-segment insert with a placeholder head, under a fallback that is already a sub-router, leaves the router unchanged |
| Routing.ResolveYieldsLeaf | crates/iris-web-core/src/router/router.rs:107-118 | whatever `resolve` finds is a `Placeholder` leaf, never a sub-router |
| Routing.ResolveNew | crates/iris-web-core/src/router/router.rs:107-117 | nothing resolves in a new router |
| Routing.LiteralBeatsFallback | crates/iris-web-core/src/router/router.rs:107-118 | when the head segment is a literal key, the fallback, whatever it is, does not affect the result |
| Routing.LeafEndsWalk | crates/iris-web-core/src/router/router.rs:107-117 | a leaf reached by literal or by fallback is returned whatever segments remain, and with no literal match and no fallback the result is `None` |
| Routing.EmptyPathUsesFallback | crates/iris-web-core/src/router/router.rs:99-117 | with no segments left the lookup key is `""`, and without such a key a fallback leaf is returned |
| Routing.InsertThenResolveLiteral | crates/iris-web-core/src/router/router.rs:22-119 | after inserting `Placeholder(s)` at an all-literal segment list, resolving that list gives `Placeholder(s)`, from any starting router |
| Routing.InsertThenResolvePath | crates/iris-web-core/src/router/router.rs:22-119 | the same for a path string: `insert(P, Placeholder(s))` then `resolve(P)` gives `Placeholder(s)` |
| Routing.PromoteLiteralLeaf | crates/iris-web-core/src/router/router.rs:68-72 | inserting through a literal leaf moves it under the new sub-router's `""` key, and the shorter path still resolves to it |
| Routing.PromoteFallbackLeaf | crates/iris-web-core/src/router/router.rs:51-56 | inserting through a placeholder leaf does the same with the fallback, and a one-segment path with no literal match still resolves to the old leaf |
| Routing.SegmentsOfRooted | crates/iris-web-core/src/router/router.rs:23 | `"/"` followed by a joined segment list splits back into that list |
| Routing.SegmentsOfTwo | crates/iris-web-core/src/router/router.rs:23 | `"/a/b"` splits into `[a, b]` |
| Routing.SegmentsOfThree | crates/iris-web-core/src/router/router.rs:23 | `"/a/b/c"` splits into `[a, b, c]` |
| Routing.TestInsertStep1 | crates/iris-web-core/src/router/router.rs:155 | the first insert of the test builds `hello → world → "Hello World"` |
| Routing.TestInsertStep2 | crates/iris-web-core/src/router/router.rs:156 | the second insert promotes the `world` leaf under `""` and adds `test` beside it |
| Routing.TestInsertStep3 | crates/iris-web-core/src/router/router.rs:158 | the third insert sets the `hello` node's fallback leaf |
| Routing.TestInsertStep4 | crates/iris-web-core/src/router/router.rs:159 | the fourth insert promotes that fallback leaf to a sub-router whose own fallback is `"Hello Name Age"` |
| Routing.TestPathsSplit | crates/iris-web-core/src/router/router.rs:155-164 | each path of the test splits into the expected segments |
| Routing.TestResolveWorld | crates/iris-web-core/src/router/router.rs:161-162 | in the test's trie, `hello/world` and `hello/world/test` resolve to their payloads |
| Routing.TestResolveName | crates/iris-web-core/src/router/router.rs:163-164 | in the test's trie, `hello/John` and `hello/John/20` resolve through the fallbacks |
| Routing.TestBuild | crates/iris-web-core/src/router/router.rs:153-159 | the four inserts of the test build exactly the expected trie |
| Routing.TestLookups | crates/iris-web-core/src/router/router.rs:161-164 | the four lookups of the test resolve to their payloads |
| Routing.TestRouter | crates/iris-web-core/src/router/router.rs:152-165 | the whole test: every `assert_eq!` holds under `PathResolver`'s own equality |
| Routing.ResolverEqLaws | crates/iris-web-core/src/router/router.rs:138-145 | `PartialEq` equates two leaves with the same payload and nothing else: it is symmetric and transitive, and not reflexive on sub-routers |
| Routing.WellFormedNew | crates/iris-web-core/src/router/router.rs:13-18 | a new router stores no placeholder as a literal key |
| Routing.PromoteWellFormed | crates/iris-web-core/src/router/router.rs:51-72 | promotion keeps the trie free of placeholder literal keys |
| Routing.InsertSegmentsWellFormed | crates/iris-web-core/src/router/router.rs:22-91 | `insert` never stores a `:`-segment as a literal key, at any depth |
| Routing.InsertIntendedWellFormed | crates/iris-web-core/src/router/router.rs:22-91 | the corrected insert keeps that invariant too |
| Routing.IntendedInsertResolves | crates/iris-web-core/src/router/router.rs:47-64 | with the corrected placeholder branch, any inserted segment list, placeholders included, resolves to what was inserted |
| Routing.InsertIntendedAgreesOnLiteral | crates/iris-web-core/src/router/router.rs:65-89 | on all-literal paths the corrected insert is the insert as written |
| Routing.LostPlaceholderInsert | crates/iris-web-core/src/router/router.rs:50 | `[":a","b"]` then `[":a","c"]`: as written `c` does not resolve, while the corrected insert resolves it |
| Routing.LostPlaceholderInsertPaths | crates/iris-web-core/src/router/router.rs:50 | the same on path strings: after `/:a/b` and `/:a/c`, `/x/c` resolves to nothing |
| Routing.LiveRouter.constructor | crates/iris-web-core/src/router/router.rs:13-18 | a new router object holds the empty router |
| Routing.LiveRouter.Insert | crates/iris-web-core/src/router/router.rs:22-91 | updating in place leaves the object holding the router that `insert` builds from the old one |
| Routing.LiveRouter.Resolve | crates/iris-web-core/src/router/router.rs:95-119 | what the object resolves is always a leaf |
| Methods.AsStr | crates/iris-web-core/src/router/mod.rs:16-28 | every method name has at least three characters, all of them `A`-`Z` |
| Methods.AsStrInjective | crates/iris-web-core/src/router/mod.rs:16-28 | distinct methods have distinct names |
| DataContainers.Lookup | crates/iris-web-core/src/utils/data_container.rs:29-31 | a found value has the requested type tag and is stored under it, and, for a well-tagged map, a value is found iff the tag is present |
| DataContainers.LookupEmpty | crates/iris-web-core/src/utils/data_container.rs:9-15 | nothing is found in the empty container |
| DataContainers.LookupAfterAdd | crates/iris-web-core/src/utils/data_container.rs:52-58 | after adding `v`, `get` of `v`'s type gives `v` |
| DataContainers.LookupAfterAddOther | crates/iris-web-core/src/utils/data_container.rs:19-21 | adding `v` does not change `get` of any other type |
| DataContainers.AddKeepsTags | crates/iris-web-core/src/utils/data_container.rs:19-21 | adding keeps every entry stored under its own type |
| DataContainers.CombineLookup | crates/iris-web-core/src/utils/data_container.rs:34-44 | the combined key set is the union, and on a collision the value from `other` wins |
| DataContainers.DataContainer.constructor | crates/iris-web-core/src/utils/data_container.rs:9-15 | `default` is the empty, well-tagged container |
| DataContainers.DataContainer.Add | crates/iris-web-core/src/utils/data_container.rs:19-21 | the entry for the value's type is overwritten and nothing else changes |
| DataContainers.DataContainer.AddArc | crates/iris-web-core/src/utils/data_container.rs:24-26 | the same for a value already behind an `Arc` |
| DataContainers.DataContainer.Get | crates/iris-web-core/src/utils/data_container.rs:29-31 | a result is the stored value of that type, and in a valid container it is there iff the type is stored |
| DataContainers.DataContainer.Combine | crates/iris-web-core/src/utils/data_container.rs:34-44 | the loop builds a fresh container holding `self + other` and changes neither input |
| PipelineState.ApplyAllAppend | crates/iris-web-core/src/pipeline/commands.rs:16-22 | running two command lists one after the other is running their concatenation |
| PipelineState.ApplyAllUntouched | crates/iris-web-core/src/pipeline/commands.rs:16-20 | commands for other types leave a type's entry unchanged |
| PipelineState.ApplyAllLastWins | crates/iris-web-core/src/pipeline/commands.rs:16-20 | the value of the last `AddData` for a type is what remains |
| PipelineState.LaterAddWins | crates/iris-web-core/src/pipeline/commands.rs:56-60 | of two adds of the same type, the later one is what remains |
| PipelineState.ApplyAllGrows | crates/iris-web-core/src/pipeline/commands.rs:56-60 | commands only add keys, and they keep every entry under its own type |
| PipelineState.CommandQueue.constructor | crates/iris-web-core/src/pipeline/commands.rs:10-14 | a new queue is empty |
| PipelineState.CommandQueue.Execute | crates/iris-web-core/src/pipeline/commands.rs:16-22 | the pipeline's data becomes the old data with every queued command applied in order, and the queue is empty |
| PipelineState.Commands.AddCommand | crates/iris-web-core/src/pipeline/commands.rs:37-40 | the command is appended at the end of the shared queue, and nothing else changes |
| PipelineState.Commands.AddData | crates/iris-web-core/src/pipeline/commands.rs:42-46 | an `AddData` command is appended, and the pipeline's data is not touched |
| PipelineState.PipelineData.constructor | crates/iris-web-core/src/pipeline/request_pipeline.rs:56-62 | the given request and initial data, with a fresh empty queue |
| PipelineState.PipelineData.Get | crates/iris-web-core/src/pipeline/request_pipeline.rs:64-66 | the container's lookup of the pipeline's data |
| PipelineState.PipelineData.AddData | crates/iris-web-core/src/pipeline/request_pipeline.rs:68-70 | the container's `add` on the pipeline's data |
| PipelineState.FetchCommands | crates/iris-web-core/src/pipeline/commands.rs:62-68 | fetching `Commands` always succeeds and hands out the pipeline's own queue |
| Params.Data.TypeId | crates/iris-web-core/src/pipeline/controller.rs:50-52 | a handle reports the type tag of the value it holds |
| Params.Data.Deref | crates/iris-web-core/src/pipeline/controller.rs:78-84 | dereferencing gives the stored value |
| Params.Data.Clone | crates/iris-web-core/src/pipeline/controller.rs:40-47 | a clone dereferences to the same value and reports the same type |
| Params.Fetch | crates/iris-web-core/src/pipeline/controller.rs:25-92 | `&PipelineData` and `&Request` always give the state and its request, `Data<T>` fails iff `T` is not stored, and otherwise wraps the stored value of that type |
| Params.FetchAll | crates/iris-web-core/src/pipeline/function_controller.rs:44-47 | all parameters are fetched in declaration order, one item each, or none when one of them cannot be fetched |
| Params.AvailableGrows | crates/iris-web-core/src/pipeline/request_pipeline.rs:37-44 | a parameter that can be fetched can still be fetched once more data has been added |
| Middlewares.Middleware.Apply | crates/iris-web-core/src/pipeline/middleware.rs:32-91 | a middleware only appends to the queue, the parameter form changes nothing else, and data only gains keys and stays well-tagged |
| Middlewares.Middleware.Handle | crates/iris-web-core/src/pipeline/middleware.rs:32-91 | `handle` on the live pipeline leaves it in the state that `Apply` gives |
| Middlewares.IntoRawMiddleware | crates/iris-web-core/src/pipeline/middleware.rs:52-61 | the `&mut PipelineData` function is wrapped, not called |
| Middlewares.IntoParamMiddleware | crates/iris-web-core/src/pipeline/middleware.rs:96-127 | a function of up to four parameters is wrapped, not called |
| FunctionControllers.FunctionController.Handle | crates/iris-web-core/src/pipeline/function_controller.rs:35-51 | the function is called once on the fetched parameters, its result goes through `into_response`, and only the command queue changes (by what the function enqueued) |
| FunctionControllers.IntoController | crates/iris-web-core/src/pipeline/function_controller.rs:56-90 | a function of up to four parameters is wrapped, not called |
| RequestPipelines.Drain | crates/iris-web-core/src/pipeline/request_pipeline.rs:40-41 | after the drain the queue is empty, the request is kept, the last queued value of each type is stored, and data only grows |
| RequestPipelines.RequestPipeline.Handle | crates/iris-web-core/src/pipeline/request_pipeline.rs:34-45 | the loop over middlewares with a drain after each, then the controller, gives the outcome of the chain specification `Outcome` for the input request and data; it works on its own copy of the container, which the source takes by value, so the caller's container is unchanged |
| RequestPipelines.New | crates/iris-web-core/src/pipeline/request_pipeline.rs:23-28 | a new pipeline has no middlewares |
| RequestPipelines.FromController | crates/iris-web-core/src/pipeline/request_pipeline.rs:30-32 | a pipeline of just the wrapped function |
| RequestPipelines.RunAppend | crates/iris-web-core/src/pipeline/request_pipeline.rs:37-42 | middlewares run in vector order: a chain split in two is the first part, then the second from where it stopped |
| RequestPipelines.RunGrows | crates/iris-web-core/src/pipeline/request_pipeline.rs:37-42 | along the chain data only gains keys, and after any middleware the queue is empty |
| RequestPipelines.ReachesController | crates/iris-web-core/src/pipeline/request_pipeline.rs:37-44 | no middleware short-circuits: the request is answered iff every fetch succeeds, and then with the controller's response to the state the chain left |
| RequestPipelines.NewRunsControllerOnly | crates/iris-web-core/src/pipeline/request_pipeline.rs:23-45 | without middlewares the controller sees the input request and data |
| RequestPipelines.ControllerCommandsDropped | crates/iris-web-core/src/pipeline/request_pipeline.rs:44 | what the controller enqueues never affects the outcome |
| RequestPipelines.EnqueuedDataVisibleAfterDrain | crates/iris-web-core/src/pipeline/request_pipeline.rs:40-41 | the last value a middleware enqueues for a type is what a later `Data` of that type fetches |
| RequestPipelines.MiddlewareFeedsController | crates/iris-web-core/src/pipeline/request_pipeline.rs:34-45 | a middleware that enqueues one value feeds a controller that asks for that type, which then sees exactly that value |
| Controllers.ConfiguredController.WithMiddleware | crates/iris-web-core/src/pipeline/controller.rs:112-117 | the middleware is appended after the others, and the controller is kept |
| Controllers.ConfiguredController.IntoPipeline | crates/iris-web-core/src/pipeline/controller.rs:119-126 | the pipeline has the same controller and the same middleware list |
| Controllers.Configure | crates/iris-web-core/src/pipeline/controller.rs:98-105 | `with_middleware` on a bare function gives its controller with exactly that one middleware |
| Controllers.FirstAddedRunsFirst | crates/iris-web-core/src/pipeline/controller.rs:98-126 | with two builder calls the first middleware runs first, and the rest proceeds from the drained state it leaves |
| Controllers.WithMiddlewaresInOrder | crates/iris-web-core/src/pipeline/controller.rs:112-117 | a chain of builder calls lists the middlewares in call order |
| Requests.Default | crates/iris-web-core/src/server/request.rs:17-28 | the default request has empty method, path and version, no headers and no body |
| Requests.BlankIsTrimEmpty | crates/iris-web-core/src/server/request.rs:60 | a line ends the header block iff trimming leaves it empty |
| Requests.StripSlash | crates/iris-web-core/src/server/request.rs:53-55 | the path with one trailing `/` put back, if there was one, is the original path |
| Requests.StripSlashExamples | crates/iris-web-core/src/server/request.rs:53-55 | `"/"` becomes `""`, `"/a//"` loses only one slash, and `"/a"` stays |
| Requests.StripSlashOnce | crates/iris-web-core/src/server/request.rs:53-55 | exactly one character is removed when the path ends with `/`, and none otherwise |
| Requests.SplitAfterColon | crates/iris-web-core/src/server/request.rs:64 | splitting on `:` is the key, then the split of what follows the first colon |
| Requests.HeaderEntry | crates/iris-web-core/src/server/request.rs:64-67 | a header line gives an entry iff it has a colon, the key is the text before the first colon, neither part contains a colon, and a colon-free line fails with that line |
| Requests.HeaderEntrySplits | crates/iris-web-core/src/server/request.rs:64-67 | the entry is `(split[0], split[1].trim())` of `split(':')`, and that split has a second element iff the line has a colon |
| Requests.TrimNoNewChars | crates/iris-web-core/src/server/request.rs:67 | trimming adds no character |
| Requests.HeaderMap | crates/iris-web-core/src/server/request.rs:58-68 | building the header map fails only with a malformed-header error |
| Requests.FirstBlank | crates/iris-web-core/src/server/request.rs:58-62 | the end of the header block is the first blank line at or after the start, or the end of the stream |
| Requests.HeaderLines | crates/iris-web-core/src/server/request.rs:58-62 | no consumed header line is blank |
| Requests.ContentLength | crates/iris-web-core/src/server/request.rs:71-76 | the body length is the `Content-Length` value read as a `usize`, and 0 when the header is missing or does not parse |
| Requests.RequestLine | crates/iris-web-core/src/server/request.rs:46-55 | the request line fails iff it has fewer than three space-separated tokens |
| Requests.TakeBody | crates/iris-web-core/src/server/request.rs:78-80 | exactly `n` bytes are taken when there are enough, and otherwise reading fails |
| Requests.FromStream | crates/iris-web-core/src/server/request.rs:40-87 | filling a default request field by field gives the request `Parse` describes, or its error |
| Requests.ReadHeaders | crates/iris-web-core/src/server/request.rs:58-68 | the header loop inserts the consumed lines in order, as `HeaderMap` of `HeaderLines` |
| Requests.HeaderMapStep | crates/iris-web-core/src/server/request.rs:58-68 | one more non-blank line is one more insert into the map built so far |
| Requests.HeaderMapFailurePersists | crates/iris-web-core/src/server/request.rs:64-67 | once a header line fails, later lines do not matter |
| Requests.RequestLineFields | crates/iris-web-core/src/server/request.rs:46-55 | method, path and version are the first three tokens of the request line, only the version is trimmed, the path loses one trailing `/`, and fewer than three tokens fail |
| Requests.EmptyStreamFails | crates/iris-web-core/src/server/request.rs:46-50 | a stream with no lines fails at the request line |
| Requests.FirstBlankAppend | crates/iris-web-core/src/server/request.rs:58-62 | the search stops at the first blank line, whatever follows |
| Requests.StopsAtBlankLine | crates/iris-web-core/src/server/request.rs:58-62 | lines after the first blank line do not affect the parsed request |
| Requests.HeaderEntryParts | crates/iris-web-core/src/server/request.rs:64-67 | `key:value` and `key:value:rest` give the untrimmed key and the trimmed value, and the rest is dropped |
| Requests.HostHeaderTruncated | crates/iris-web-core/src/server/request.rs:64-67 | `"Host: a:80"` stores `"a"` |
| Requests.HeaderMapSucceeds | crates/iris-web-core/src/server/request.rs:58-68 | the header block parses iff every line has a colon, and otherwise fails with the first colon-free line |
| Requests.HeaderMapKeys | crates/iris-web-core/src/server/request.rs:64-67 | the stored keys are exactly the keys of the header lines |
| Requests.HeaderMapLastWins | crates/iris-web-core/src/server/request.rs:64-67 | for a repeated key, the value of the last line with that key is stored |
| Requests.BodyLength | crates/iris-web-core/src/server/request.rs:71-80 | a parsed body is exactly the first `Content-Length` bytes, and a short-body error has fewer bytes than expected |
| Requests.NoLengthNoBody | crates/iris-web-core/src/server/request.rs:71-80 | without a parsable `Content-Length` the body is empty |
| Requests.Header | crates/iris-web-core/src/server/request.rs:91-98 | an absent header is `None`, a present one is its parsed value, and a present one that does not parse is an error |
| Responses.AsRaw | crates/iris-web-core/src/server/response.rs:26-36 | a custom status is its own text |
| Responses.StatusLineOk | crates/iris-web-core/src/server/response.rs:28 | `Ok` is code 200 in decimal, a space and `OK` |
| Responses.StatusLineNotFound | crates/iris-web-core/src/server/response.rs:29 | `NotFound` is `404 Not Found` |
| Responses.StatusLineBadRequest | crates/iris-web-core/src/server/response.rs:30 | `BadRequest` is `400 Bad Request` |
| Responses.StatusLineInternalServerError | crates/iris-web-core/src/server/response.rs:31 | `InternalServerError` is `500 Internal Server Error` |
| Responses.StatusLineMethodNotAllowed | crates/iris-web-core/src/server/response.rs:32 | `MethodNotAllowed` is `405 Method Not Allowed` |
| Responses.AsRawParts | crates/iris-web-core/src/server/response.rs:26-36 | every built-in status line is its code in decimal, a space and its reason phrase |
| Responses.AsRawCodeRoundTrip | crates/iris-web-core/src/server/response.rs:26-36 | the first three characters of a built-in status line parse back to its code, and that code names the status again |
| Responses.AsRawInjectiveOnBuiltIn | crates/iris-web-core/src/server/response.rs:26-36 | distinct built-in statuses have distinct lines, and a custom status can copy one |
| Responses.Default | crates/iris-web-core/src/server/response.rs:39-47 | the default response is `NotFound` with no headers and an empty body |
| Responses.WithStatus | crates/iris-web-core/src/server/response.rs:54-57 | only the status changes |
| Responses.WithBody | crates/iris-web-core/src/server/response.rs:59-62 | only the body changes |
| Responses.BuildersCommute | crates/iris-web-core/src/server/response.rs:54-62 | the two builders commute, a second call of the same builder overrides the first, and setting a field to its own value changes nothing |
| Responses.IntoResponseBody | crates/iris-web-core/src/server/response.rs:119-141 | `()` gives no bytes, a byte vector gives itself, a `String` gives bytes that decode back to it, and `&str` goes through `String` |
| Responses.IntoResponse | crates/iris-web-core/src/server/response.rs:99-113 | a `Response` is returned unchanged, and any body value becomes status `Ok`, no headers and that body |
| Responses.TextBodies | crates/iris-web-core/src/server/response.rs:125-141 | `&str` and `String` bodies agree, decode back to the text, and take one byte per ASCII character |
| Responses.HeaderLines | crates/iris-web-core/src/server/response.rs:75-77 | one `key: value\r\n` line per visited key, in visiting order |
| Responses.HeaderTextIsLines | crates/iris-web-core/src/server/response.rs:75-77 | the header text is those lines, one after another |
| Responses.SendResponse | crates/iris-web-core/src/server/response.rs:65-81 | `Content-Length` is set to the body length, replacing any earlier value; then the bytes are the status line, one line per header in some ordering of all the keys, a blank line and the body |
| Responses.VisitStep | crates/iris-web-core/src/server/response.rs:75-77 | one loop step visits one new key and appends its line |
| Responses.AppendHeaderLines | crates/iris-web-core/src/server/response.rs:75-77 | the loop visits every header key exactly once and appends their lines in visiting order |
| Responses.HeaderLineReadsBack | crates/iris-web-core/src/server/response.rs:76 | a written header line whose key and value have no colon, and whose value has no surrounding whitespace, is read back by the request parser as the same entry |
| Responses.HeaderLinesReadBack | crates/iris-web-core/src/server/response.rs:75-77 | the written header lines parse back, with exactly the visited keys and their values |
| Responses.SentHeadersReadBack | crates/iris-web-core/src/server/response.rs:75-77 | the header block `send_response` writes parses back to the header map it wrote |
| Responses.ContentLengthReadsBack | crates/iris-web-core/src/server/response.rs:69 | the forced `Content-Length` parses back to the body length, so a reader takes exactly the body |
| Responses.DecimalIsClean | crates/iris-web-core/src/server/response.rs:69 | the forced `Content-Length` value keeps the headers readable back |
| Text.JoinSplit | crates/iris-web-core/src/router/router.rs:32 | joining a split string with the same separator gives the string back |
| Text.SplitJoin | crates/iris-web-core/src/router/router.rs:32 | splitting a join of separator-free parts gives the parts back |
| Text.TrimEmpty | crates/iris-web-core/src/server/request.rs:60 | a string trims to empty iff all its characters are whitespace |
| Text.TrimAround | crates/iris-web-core/src/server/request.rs:67 | trimming removes exactly the surrounding whitespace |
| Text.ParseDecimal | crates/iris-web-core/src/server/response.rs:69 | a `usize` printed in decimal parses back to itself |
| Text.ParseUsizeSound | crates/iris-web-core/src/server/request.rs:71-76 | what parses as a `usize` is an optional `+` and digits, with a value in range |
| Text.Utf8RoundTrip | crates/iris-web-core/src/server/response.rs:125-129 | UTF-8 encoding of a string decodes back to it |

## Left out

- Sockets and I/O are left out: `read_line`, `read_exact`, `write_all`, `flush`, `shutdown` and the `println!` debugging. The parser takes the lines and the bytes the stream would deliver, and `send_response` returns the bytes it would write.
- The `stream` field of `Request` is left out, because only I/O uses it.
- server/http_server.rs, utils/thread_pool.rs, the JSON body crate, the dead pipeline/pipeline.rs, lib.rs and the `mod.rs` wiring are not part of this model: they are I/O, concurrency or crate wiring.
- `Arc`, `Mutex` and threads are left out. Stored values are immutable, so sharing through `Arc` cannot be seen: `add_arc` stores the pointee like `add`. The queue lock is held for a whole `execute`, so a command that enqueued another would deadlock; the only command type, `AddData`, never does.
- Only `AddData` is a command. User-defined `CommandAction` types are not modelled, because their effect is arbitrary code.
- `AddData`'s `Option::take` is not modelled: a command is executed once and then cleared, so the `unwrap` never fails.
- Rust's type machinery (generic `T`, `TypeId`, downcasting, GAT lifetimes, `PhantomData`) is replaced by the abstract `TypeTag` with a value tagged by its type. Parameters are a list of kinds, with the macro arities as `|params| <= 4`. `Data::get_type_name` is left out: it is debugging output.
- User middleware and controller functions are parameters of the model, as total functions of a snapshot. State an `FnMut` closure carries from one request to the next is left out.
- `Response::new` is left out as a separate member: it is `Default`.
- `HashMap` iteration order is left out. `SendResponse` returns the order its loop took, which is some ordering of all header keys.
- Responses.SendResponse: the body bytes go on the wire unchanged, while the source passes them through `String::from_utf8_lossy`. The two differ only for a body that is not valid UTF-8. There the source writes one U+FFFD (three bytes) for each maximal invalid sequence, so it writes never fewer bytes than `Content-Length` says, and more unless every invalid sequence is three bytes long.
- Requests.FromStream: the request line and header lines are taken as already-decoded strings. A stream that is not valid UTF-8, where `read_line` panics, is not modelled.
- Routing.LiveRouter.Insert: sub-routers are values inside the top-level object, rather than boxes updated through `get_mut`. Nothing outside can reach a sub-router, so no aliasing is lost.

## Findings

| source | as written | input that shows it | evidently intended | confidence | as-written member | corrected member |
|---|---|---|---|---|---|---|
| crates/iris-web-core/src/router/router.rs:50 | in the placeholder branch of `insert`, when the node's fallback is already a sub-router, the `Some(PathResolver::Router(_)) => {}` arm does nothing, so the new route is dropped | `insert("/:a/b", …)` then `insert("/:a/c", Placeholder("c"))`: `resolve("/x/c")` is `None` | descend into the existing fallback sub-router, as the literal branch at router.rs:66-89 does with an existing literal sub-router | not executed | Routing.LostPlaceholderInsert | Routing.IntendedInsertResolves |

`Routing.InsertSegments` and `Routing.LiveRouter.Insert` model `insert` as written.
`Routing.InsertIntended` is the corrected insert. It has three proved properties:
- every inserted segment list, placeholders included, resolves to what was inserted
  (`Routing.IntendedInsertResolves`);
- it keeps the trie well formed (`Routing.InsertIntendedWellFormed`);
- on paths made only of literal segments it is the insert as written
  (`Routing.InsertIntendedAgreesOnLiteral`).
