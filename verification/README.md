# goXpress, verified

A Dafny model of the parts of goXpress that decide something: the radix-tree router with its in-place
splits and reorderings, the WebSocket frame layer, the token-bucket rate limiter with its eviction, the
schema generator for OpenAPI documents, the handler chain, request dispatch, the response writer, and the
event-stream printer. `dafny verify dfyconfig.toml` checks everything.

Where the Go code changes things step by step, the model does too: tree nodes, the rate limiter, the schema
generator, the connection, the context, the response writer and the router are classes whose methods update
fields, and loops are loops. Each such method is proved to compute a function of the old state; the theorems
are about these functions, set against an independent description of what they are for.

| part | objects and methods | value form | main theorems |
|---|---|---|---|
| router tree | `TreeNode.dfy` | `RadixTree.dfy` | `RouteTable.dfy`, `TreeWalk.dfy`, `TreeLookup.dfy`, `TreeMixed.dfy`, `TreeEnds.dfy`, `TreeRedirect.dfy`, `TreeRemoval.dfy`, `TreeHints.dfy`, `TreeTrailing.dfy`, `TreeBoundary.dfy`, `TreePriority.dfy`, `TreeCompact.dfy` |
| patterns | | `Patterns.dfy` (what a pattern matches, which patterns clash) | `PatternLemmas.dfy` |
| dispatch | `Router.dfy` | `Dispatch.dfy`, `Methods.dfy` | `Dispatch.dfy` |
| handler chain | `Context.dfy` | `Chain.dfy` | `Chain.dfy` |
| response writer | `Response.dfy` | `Response.dfy` | `Response.dfy` |
| event stream | `EventStream.dfy` | `EventStream.dfy`, `Text.dfy` | `EventStream.dfy` |
| WebSocket | `WsConn.dfy` | `WsCodec.dfy`, `WsMessages.dfy` | `WsCodec.dfy`, `WsMessages.dfy`, `WsWriters.dfy` |
| rate limiter | `RateLimit.dfy` | `RateLimit.dfy` | `RateLimit.dfy`, `RateRetry.dfy` |
| schemas | `SchemaGenerator.dfy` | `Schema.dfy` | `Schema.dfy`, `SchemaMeaning.dfy`, `SchemaEncoding.dfy` |

## Premises

- Two patterns of one method part, or go on one behind the other, at bytes below 128 (`RouteTable.Plain`), and they
  do not part where one has a `:` parameter and the other a literal byte (`RouteTable.NeverMixed`). All other
  bytes of patterns, and request paths, are arbitrary. What happens without these premises:
  - A registration that puts a parameter against a literal byte is accepted and breaks the table: all routes are
    served if and only if no such registration was made (`TreeMixed.ServedExactlyWhenNotMixed`,
    `TreeMixed.RightExactlyWhenNeverMixed`).
  - On ASCII patterns every registration ends, whatever their form (`TreeEnds.AsciiTableEnds`). In general the next one
    ends unless it leaves a registered pattern at a byte from 128 on with one particular byte, and then it never
    does (`TreeEnds.NextRouteDiverges`).
  - Where patterns part at bytes from 128 on, a lookup can leave the index range and panic
    (`TreeLimits.CutIndexCrashes`).
- A Go panic is a refused registration (`Rejected`, or `false`); a registration that never ends is `Diverged`;
  an index out of range in a lookup is `Crash`. Under the premises the last two do not occur.
- The rate limiter works in exact reals and integer nanoseconds, and the times it is given never go back in
  the order in which the lock is taken. Theorems that eviction can break ask for `burst <= 600 * rate`, and each
  of them comes with a theorem that it holds on every run if and only if the configuration meets that.
- A handler chain has at most 2^30 + 1 handlers, the reach of the abort index.
- Type graphs of schemas are recursive only through named structs, and the names are unique.
- `Response.HeadSimulatesGet` is about a connection that takes every byte; the writer itself is modelled with short
  and failed writes. `WsWriters.dfy` has several writers and no failed write; `WsConn.dfy` has failed writes.

## Where the code does something else than its documentation says

- tree.go:19-22 allows a static and a wildcard child under one node. The code neither refuses nor handles
  this. A parameter that comes after a literal takes its place: paths of the literal route are answered by the new
  route, with other captures, or not at all. A literal that comes after a parameter is lost together with it: neither
  route is found any more (`TreeMixed.MixedLookups`, for every such pair on every path that one of the two matches;
  `TreeLimits.ParamHidesLiteral` and `TreeLimits.LiteralHidesParam` are the smallest cases).
- tree.go:68-70 stores `string(b)` of one byte as index, which is two bytes from 128 on. A registration can then run
  for ever (`TreeLimits.NonAsciiDiverges`, `TreeEnds.NextRouteDiverges`), and a lookup can panic
  (`TreeLimits.CutIndexCrashes`).
- tree.go:29 counts the routes through a node in `priority`; the empty node above a catch-all keeps 0
  (`TreePriority.Weighted`).
- tree.go:227-229 and router.go:39-42 promise the redirect exactly when the variant has a handler. For adding a slash
  it is always right (`TreeRedirect.AddingHintIsRight`). It is given for a route with a slash of its own exactly when
  the pattern without that slash matches the path (`TreeRedirect.AddingHintExactlyWhen`), so it is missing where the
  last parameter would be empty (`TreeLimits.EmptyCaptureNotHinted`); for a catch-all it depends on the order of
  registration (`TreeLimits.HintDependsOnOrder`; `TreeBoundary.CatchAllHintExactly` says how), except behind a parameter,
  where it is always given (`TreeTrailing.CatchAllIsHinted`). For removing a slash it is given exactly when the variant is served as long as no
  route goes on behind the variant (`TreeRemoval.RemovingHintExactlyWhen`), and given whenever the variant is served
  and no route goes on behind its slash (`TreeTrailing.ServedPathIsHinted`); otherwise it can be wrong
  (`TreeLimits.RemovedSlashUnserved`) and it can be missing (`TreeLimits.ServedSlashNotHinted`).
  `TreeTrailing.SlashHintExactly` and `Dispatch.TrailingSlashExactly` say from the routes when it is given.
- context.go:95-96 says that the chain stops at the first handler that returns an error. A handler that swallows
  the error of `Next` lets it go on (`Chain.SwallowedErrorResumes`); `Chain.StopsAtFirstErrorExactlyWhen` says exactly
  which handlers keep the rule.
- response.go:55-56 promises to forward the header exactly once. With code 0 it is forwarded again
  (`Response.OneHeaderExactlyWithoutZero` says exactly when).
- ws/ws.go:135-137 joins fragments but fails on a control frame between them, which section 5.4 of RFC 6455
  allows (`WsMessages.OtherFrameBreaks`).
- middleware/ratelimit.go:14-16 evicts idle buckets only to save memory. With a burst above 600 times the rate
  eviction gives a client extra requests (`RateLimit.EvictionShows`); with the default burst this happens for
  rates below 1/600 (`RateLimit.DefaultsAreUsable`). Such a limiter also lets a client back in before the wait it was
  told (`RateRetry.EarlyRetryAllowed`, `RateRetry.TooEarlyIsDeniedExactlyWhen`).
- middleware/ratelimit.go:50-51 and 115-118 tell a denied client how long until a token is available. The wait is
  truncated to nanoseconds, so a client that waits for the Retry-After seconds can be denied again
  (`RateRetry.RetryAfterFallsShort`; `RateRetry.RetryAfterHolds` says exactly when, on any run).
- schema.go:34-68 describes pointers, slices and maps as if they were never nil, and a slice of bytes as an array. What
  `encoding/json` prints for a nil one (null) or for bytes (a string) does not conform (`SchemaEncoding.NilAndBytesDoNotConform`);
  everything else does (`SchemaEncoding.EncodingConformsExactlyWhen`). It also leaves out a field with the tag `"-,"`,
  which `encoding/json` prints as the member `-`.
- context.go:320-327: a line break in an event name or a CR in its data changes what the client reads
  (`EventStream.EventsRoundTrip` says exactly when).

## Model

| member | source | states |
|---|---|---|
| PatternLemmas.NoCommonMatch | tree.go:19-22 | two well-formed patterns that neither clash nor mix parameter and literal never match the same path |
| PatternLemmas.FillRestores | tree.go:256-288 | the captures of a match are named after the pattern's wildcards in order, and putting them back into the pattern gives the path |
| PatternLemmas.ClashSymmetric | tree.go:105-131 | whether two patterns conflict does not depend on which was there first |
| TreeShape.SplitKeeps | tree.go:55-73 | splitting a node at a byte below 128 keeps the tree invariant and every registered route |
| TreeShape.RotateAligned | tree.go:336-353 | reordering siblings and index bytes together keeps every index byte selecting its own child |
| TreeShape.RotateInSome | tree.go:336-353 | reordering siblings neither loses nor adds a route |
| TreeShape.RegisteredStart | tree.go:19-24 | every route below a node starts with the node's text and with the byte that selects it |
| TreeShape.SomeRegistered | tree.go:37-133 | no subtree is without a route |
| TreeInsert.GrowFresh | tree.go:137-218 | growing a fresh node along a pattern is accepted exactly for well-formed patterns, keeps the invariant, and stands for exactly that route |
| TreeInsert.ParamNodeCorrect | tree.go:154-179 | a grown parameter node stands for exactly the pattern it was grown for |
| TreeInsert.InsertParam | tree.go:154-179 | at a parameter, the node gets one parameter child and is marked, and it is refused exactly when the rest is malformed |
| TreeInsert.InsertCatchAll | tree.go:181-212 | a catch-all is accepted exactly when it is named and last, and hangs below an empty boundary node |
| TreeInsert.CompatibleBelow | tree.go:75-124 | a path is free of conflicts with a node exactly when its rest is with what is below |
| TreeInsert.InsertStaticCorrect | tree.go:99-104 | a new static child, moved to its place by priority, adds exactly one route and keeps index bytes and children aligned |
| TreeWalk.EndHere | tree.go:126-131 | at the end of the path handlers are attached, or a duplicate is refused |
| TreeWalk.NewStaticChild | tree.go:99-104 | below a node with no fitting child the new route is added, and nothing else changes |
| TreeWalk.SplitAtKeeps | tree.go:51-73 | arriving at a node, with or without a split, keeps the invariant and all routes |
| TreeWalk.DescendStatic | tree.go:88-96 | raising a child's priority, moving it and going on below it adds exactly the new route |
| TreeWalk.DescendParam | tree.go:105-116 | going on below the parameter child adds exactly the new route |
| TreeWalk.WrongParam | tree.go:111-119 | a parameter that does not follow the existing one does conflict with a registered route |
| TreeWalk.StarHere | tree.go:186-194 | a catch-all that starts inside an existing node is malformed or conflicts |
| TreeWalk.BoundaryIncompatible | tree.go:98-124 | everything below the slash of a catch-all conflicts with it |
| TreeWalk.WalkCorrect | tree.go:37-133 | a registration ends; it is accepted exactly when the pattern is well formed and conflicts with no registered route; it then keeps the invariant and adds exactly one route |
| TreeLookup.GetCorrect | tree.go:230-322 | a lookup never leaves an index range, and finds handlers and captures exactly as the registered patterns match the path |
| TreeLookup.ParamAnswers | tree.go:256-284 | behind a parameter the routes see the path after the captured segment |
| TreeLookup.BoundaryAnswers | tree.go:286-288 | a catch-all answers with the whole rest, slash included |
| TreeLookup.HintIsSafe | tree.go:302-312 | the slash hint reads no child that is not there |
| RouteTable.FirstRoute | tree.go:41-46 | the first route of a tree is accepted exactly when it is well formed |
| RouteTable.RegisterAllCorrect | tree.go:37-133 | a list of supported patterns, ASCII only where they part, is accepted exactly when all are well formed and no two conflict; the tree then keeps its invariant and stands for exactly that list |
| RouteTable.AddToTable | tree.go:37-133 | one more registration on any such tree |
| RouteTable.LookupRefinesList | tree.go:230-322 | at most one registered pattern matches a path, the lookup answers with its handlers and captures, and finds nothing when none matches |
| RouteTable.ReorderKeeps | tree.go:105-131 | the premises and the absence of conflicts do not depend on the order of registration |
| RouteTable.OrderDoesNotMatter | tree.go:37-133 | routes registered in another order are accepted or refused alike, and every lookup gives the same handlers and captures |
| TreeRedirect.AddingHintIsRight | tree.go:249-320 | when a path without trailing slash gets the hint, the path with the slash has handlers |
| TreeRedirect.HintAtEnd | tree.go:302-312 | the same where the path ends at a node |
| TreeRedirect.HintBehindParam | tree.go:270-284 | the same behind a parameter |
| TreeRedirect.AddingHintExactlyWhen | tree.go:270-320 | when a route with a slash of its own matches the path with the slash, the path, which no route serves, gets the hint if and only if the pattern without its last slash matches it |
| TreeRemoval.RemovingHintExactlyWhen | tree.go:249-320 | when no route goes on behind a path, the path with a slash is not served, and it gets the hint if and only if the path itself is served |
| TreeRemoval.RoutesBehind | tree.go:19-24 | behind a node's text, and behind a node with children, some route goes on |
| TreeHints.HintBehindSlash | tree.go:297-320 | where a path ends with the slash at which a node starts, and no catch-all goes on: it is served, or it gets the hint if and only if the routes behind it agree on the next byte or one of them is one more slash |
| TreeTrailing.SlashHintExactly | tree.go:241-320 | a path that ends in a slash, is not served and has no catch-all behind it gets the hint if and only if one more slash is a route, or the routes behind it agree on the next byte and the path without the slash is served, stands before a parameter, or is a place where the routes part or a capture ends and some route goes on behind the slash |
| TreeTrailing.ServedHintExactly | tree.go:249-320 | where the path without the slash is served, this is when the routes behind the slash agree on the next byte or one of them is one more slash |
| TreeTrailing.ServedPathIsHinted | tree.go:249-254 | when a path is served and no route matches it with a slash behind it, alone or followed by more, the path with the slash is not served and gets the hint, whatever other routes start with the same text |
| TreeTrailing.CatchAllIsHinted | tree.go:278-284 | a path that ends in a parameter's segment and is not served gets the hint when a catch-all follows the parameter |
| TreeBoundary.WalkDirect | tree.go:37-133 | an accepted registration has its catch-all hang directly below the node that its slash follows exactly where no route has gone on before, and moves no other catch-all |
| TreeBoundary.TableDirect | tree.go:37-133 | in a table of supported patterns a catch-all behind a literal byte hangs directly exactly when no route registered earlier starts with the text before it |
| TreeBoundary.DirectIsHinted | tree.go:297-313 | a path that ends where such a catch-all starts, and is not served, gets the hint exactly when the catch-all hangs directly |
| TreeBoundary.CatchAllHintExactly | tree.go:297-313 | so it gets the hint if and only if no route registered earlier starts with the text before the catch-all |
| TreeCompact.WalkCompact | tree.go:51-104 | an accepted registration below any node leaves the tree compressed: a node with neither handlers nor a wildcard below it has two children at least, unless it leads to a catch-all |
| TreeCompact.TableIsCompact | tree.go:37-133 | so does every table of supported patterns |
| TreeRedirect.NoWayBack | router.go:211-214 | after a redirect that adds a slash the target is served; after one that removes a slash only removals follow |
| TreeRedirect.RedirectsEnd | router.go:332-350 | every run of redirects is finite, with a bound from the path's length |
| TreePriority.BubbleSorts | tree.go:336-344 | moving the raised child before its lighter siblings sorts the children again |
| TreePriority.WalkWeighted | tree.go:81-110 | an accepted registration adds one to the priorities on its way and keeps every priority the number of routes below, boundary nodes aside, with siblings in descending order |
| TreePriority.PrioritiesCountRoutes | tree.go:81-110 | after any accepted registrations of supported patterns every priority is the number of routes below, boundary nodes aside, and the root's is the number of all routes |
| TreePriority.RootCountsRoutes | tree.go:39-39 | the root's priority is the number of routes for any patterns |
| TreeLimits.CutRepeats | tree.go:68-70 | a split at a byte from 128 on stores two index bytes and can lead back to a node with the same text |
| TreeEnds.AsciiTableEnds | tree.go:49-133 | on a table of ASCII patterns, well formed or not and mixed or not, every registration ends, whatever the new pattern |
| TreeEnds.WalkEnds | tree.go:49-133 | a registration below any node of an ASCII tree ends, and an ASCII path leaves the tree ASCII |
| TreeEnds.WalkDiverges | tree.go:49-133 | on any tree that keeps the invariant, and for any path, a registration never ends if and only if some registered route is a trap for it |
| TreeEnds.NextRouteDiverges | tree.go:68-90 | after supported patterns the next registration, of any bytes, never ends if and only if some pattern of the table is a trap for it |
| TreeEnds.TrapInLiteral | tree.go:68-70 | for a registered pattern without wildcards this is when the two part at a byte from 128 on and the new one goes on with the first byte of its `string(b)` |
| TreeMixed.WalkForks | tree.go:99-122 | the registration of a pattern that puts a parameter against a literal byte of a route is accepted, and it decides every lookup that comes by that place |
| TreeMixed.MixedLookups | tree.go:19-22 | on every path that the new pattern or the one it mixes with matches: a new literal leaves both unserved; a new parameter is served wherever it matches, and nothing is found elsewhere |
| TreeMixed.CapturesDiffer | tree.go:256-284 | the route that a parameter replaced has a path on which the new route's captures are not its own |
| TreeMixed.ServedExactlyWhenNotMixed | tree.go:19-22 | one more route without conflicts is accepted whether or not it mixes, and all routes are served on all their paths if and only if it does not |
| TreeMixed.RightExactlyWhenNeverMixed | tree.go:19-22 | a table of well-formed patterns without conflicts is accepted and serves all routes after every registration if and only if no two patterns mix a parameter and a literal byte |
| TreeLimits.NonAsciiDiverges | tree.go:68-70 | a concrete registration that never ends |
| TreeLimits.CutIndexCrashes | tree.go:241-247 | two concrete accepted routes and a path whose lookup leaves the index range |
| TreeLimits.EmptyCaptureNotHinted | tree.go:301-313 | a concrete path without a slash that gets no hint although the path with it is served, with an empty capture |
| TreeLimits.RemovedSlashUnserved | tree.go:317-320 | a concrete redirect to a path that no route serves |
| TreeLimits.ServedSlashNotHinted | tree.go:302-313 | a concrete path with a slash that is not redirected although the path without it is served |
| TreeLimits.ParamHidesLiteral | tree.go:162-163 | a parameter registered after a literal sibling replaces it |
| TreeLimits.LiteralHidesParam | tree.go:290-291 | a literal registered after a parameter sibling hides it, and is not served either |
| TreeLimits.HintDependsOnOrder | tree.go:302-312 | the same two routes give the hint in one order and not in the other |
| TreeNode.LongestCommonPrefix | tree.go:379-386 | the loop finds the longest common prefix |
| TreeNode.FindFirstWildcard | tree.go:358-375 | the loops find the first wildcard segment, its start and whether it is valid |
| TreeNode.Node.IncrementChildPriority | tree.go:336-353 | priority raised, children and index bytes rotated alike, and the new place returned |
| TreeNode.Node.InsertChild | tree.go:137-218 | the loop grows, in place, the tree of the value form, and is refused when that is |
| TreeNode.Node.SplitNode | tree.go:55-73 | the node is cut in place and its tail takes over its children |
| TreeNode.Node.InsertStatic | tree.go:99-122 | a child is appended, moved and grown in place |
| TreeNode.Node.WalkTurn | tree.go:49-133 | one turn of the walk updates this node and hands the rest to the next one |
| TreeNode.Node.AddRoute | tree.go:37-133 | a registration on the linked nodes gives exactly the tree of the value form, keeps the nodes a tree, and is refused when that is |
| TreeNode.Node.HintAtEnd | tree.go:302-313 | the hint for a path that ends at the node |
| TreeNode.Node.GetValue | tree.go:230-322 | the loop over the linked nodes returns the handlers, captures and hint of the value form, of which the rows on `TreeLookup`, `TreeRedirect`, `TreeRemoval` and `TreeTrailing` say what they are |
| Methods.AscendingIsUnique | router.go:321-322 | only one strictly sorted list has given elements |
| Methods.Sort | router.go:321-321 | distinct names are put in strictly ascending order, none lost and none added |
| Dispatch.AllowAgreesWithDispatch | router.go:199-253 | a listed method is answered with neither 404 nor 405; whatever runs a handler or answers OPTIONS is listed; a method refused with 405 is not on its list, which is not empty |
| Dispatch.AllowIsCanonical | router.go:301-323 | the list is strictly sorted and the same in whatever order the trees are visited |
| Dispatch.TreeAnswersForEntries | router.go:203-209 | a method's tree answers for exactly that method's routes |
| Dispatch.RequestsReachTheirRoute | router.go:199-209 | a request runs the handlers of a route with its captures exactly when the route is registered for the method and matches |
| Dispatch.AutomaticHeadRunsGet | router.go:217-228 | the body is suppressed exactly when no HEAD route matches or redirects and a GET route matches, whose handlers and captures the request gets |
| Dispatch.AllowListsMatchingMethods | router.go:301-323 | the Allow list has exactly the methods of matching routes, HEAD beside GET, and OPTIONS, as configured |
| Dispatch.DispatchRedirects | router.go:211-214 | a request is redirected exactly when its tree hints and redirects are on |
| Dispatch.RedirectsSettle | router.go:332-350 | no client is redirected for ever, and a redirect that adds a slash leads to a handler at once |
| Dispatch.MissingSlashIsRedirected | router.go:211-214 | of a request no route matches, but a route with a slash of its own matches with the slash added: it is redirected there if and only if that pattern without its slash matches, with 301 for GET and 308 otherwise, and there that route's handlers run |
| Dispatch.CatchAllIsRedirected | router.go:211-214 | of a request that no route matches, where a catch-all starts behind a literal byte: it is redirected to the path with the slash if and only if no earlier route of the method starts with the text before the catch-all, with 301 for GET and 308 otherwise |
| Dispatch.ExtraSlashIsRedirected | router.go:211-214 | when no route of the method goes on behind a path, a request for the path with a slash is redirected to it if and only if some route matches it, with 301 for GET and 308 otherwise, and there that route's handlers run |
| Dispatch.ServedPathTakesSlash | router.go:211-214 | when a route of the method matches a path and none matches it with a slash behind it, alone or followed by more, a request for the path with a slash is redirected to the path, with 301 for GET and 308 otherwise, and there that route's handlers run |
| Dispatch.TrailingSlashExactly | router.go:211-214 | a request for a path with a slash behind which no catch-all goes on is redirected to the path without it if and only if no route of the method matches it and the routes call for the hint, with 301 for GET and 308 otherwise |
| Dispatch.MiddlewareRunsFirst | router.go:136-147 | after any calls of `Use` and `Handle`, a request that a route matches runs all middleware in use when the route was added, in order, and then the route's handlers; later middleware does not run |
| Dispatch.CapturesFit | router.go:95-97 | the captures of a request fit into a list made for the largest parameter count |
| Dispatch.CapturesAreCounted | router.go:352-361 | a match of a well-formed pattern captures as many values as `countParams` counts |
| Dispatch.EveryRouteCounted | banner.go:21-27 | the routes of all methods add up to the number of registrations |
| RouterObject.CountWildcards | router.go:353-361 | the loop counts the wildcard markers |
| RouterObject.Router.Use | router.go:136-138 | middleware is appended and leaves the routes alone; the calls so far are one `Use` longer |
| RouterObject.RegistrationEnds | router.go:117-122 | a registration ends when the method's patterns so far are ASCII, whatever their form, or when they are supported and none is a trap for the new one; behind supported patterns a trap is the only way not to end |
| RouterObject.SupportedEntry | router.go:117-122 | the registration of a supported pattern is accepted exactly when the method's patterns are well formed and none conflict |
| RouterObject.Router.Handle | router.go:107-131 | a registration that ends is accepted exactly when there is a method, a path that begins with a slash and a handler, and the method's tree accepts the pattern; the router then stands for exactly one more route, whose chain is the middleware of that moment and then its handlers |
| RouterObject.Router.RootOf | router.go:117-121 | a method's tree is made when it is first needed, apart from all others |
| RouterObject.Router.Record | router.go:124-129 | the largest parameter count is that of some route and at least that of every route, and the list of routes follows the registration |
| RouterObject.RedirectTrailingSlash | router.go:334-350 | the slash is added or removed, with 301 for GET and 308 otherwise |
| RouterObject.Router.AllowHeader | router.go:301-323 | visiting the trees in any order gives the list the routes call for |
| RouterObject.Router.AnswerFor | router.go:199-253 | the answer to a request is the one the routes call for |
| RouterObject.Router.Dispatch | router.go:199-253 | the same under a condition on the routes alone, and its captures fit into the pooled list |
| RouterObject.Router.RouteCount | banner.go:21-27 | the sum of the roots' priorities is the number of registered routes, whatever their patterns |
| Chain.ChainRunsInOrder | context.go:91-113 | for any handlers: they start in chain order, none twice and none skipped, none after an abort, and a chain that ends without error or abort has run them all |
| Chain.ErrorsStopTheChain | context.go:95-106 | when every handler passes on the first error `Next` returns to it, none starts after a failure, and the chain reports an error exactly when some handler failed |
| Chain.StopsAtFirstErrorExactlyWhen | context.go:95-106 | a handler can stand before any such handlers without breaking that rule if and only if it passes on the first error of `Next`, aborted or not |
| Chain.ChainNests | context.go:91-93 | for any handlers the trace is properly nested |
| Chain.MiddlewareWraps | context.go:91-93 | wrap-around middleware runs inwards in order and outwards in reverse order |
| Chain.SwallowedErrorResumes | context.go:95-106 | a concrete chain that goes on after a swallowed error |
| Chain.AbortIsSeen | context.go:108-124 | after an abort below, the caller of `Next` finds the chain aborted and starts nothing more |
| Chain.AbortedExactlyWhen | context.go:108-124 | while the handlers cannot call `Next` 2^30 times, a handler finds the chain aborted after a call of `Next` if and only if some handler aborted during the call |
| Chain.LoopOkReachesEnd | context.go:97-106 | `Next` returns nil only with the index past the last handler |
| ContextObject.Context.Next | context.go:97-106 | the loop over the shared index does what the chain of the value form does, whatever the handlers do to the index |
| ContextObject.Context.RunHandler | context.go:99-104 | one turn of the loop runs one handler, and moves the index and the trace as the value form says |
| ContextObject.Context.Invoke | context.go:100-102 | a handler's calls of `Next` and `Abort` move the one index of its context |
| ContextObject.Context.Abort | context.go:108-113 | the context is aborted from then on |
| ContextObject.Context.RunChain | router.go:258-269 | a matched chain runs from its first handler |
| Response.HeadSimulatesGet | response.go:57-93 | for any handler, also one that reacts to what it sees: results, status and size are the same on HEAD as on GET, the size is that of the GET body, and the HEAD response is the GET response's header alone |
| Response.FirstCallDecides | response.go:55-93 | for any handler, on GET and on HEAD: when its first call is a nonzero status, that is recorded and the only header sent; when it is body, 200 is; when it makes none, nothing is sent |
| Response.OneHeaderExactlyWithoutZero | response.go:55-63 | one header, with the recorded status and before any body, exactly when the handler does not begin with a header of code 0 |
| Response.ShortWritesCount | response.go:75-76 | short writes keep the size that of the body that went out, and the header first |
| Response.ResponseWriter.WriteHeader | response.go:57-63 | the first code is recorded and forwarded as it is; later ones are dropped |
| Response.ResponseWriter.Write | response.go:67-78 | status 200 is recorded and sent when there is none, the size grows by the bytes taken, also by a short or failed write, and the body is passed on unless suppressed |
| Response.ResponseWriter.WriteString | response.go:82-93 | the same for strings |
| Response.ResponseWriter.Reset | response.go:48-53 | nothing of the previous request is left |
| EventStream.SSEvent | context.go:336-347 | the loop prints the name line, one data line for each line of the data, and an empty line |
| EventStream.ReadsEvent | context.go:336-347 | one printed event is read back, and reading goes on behind it |
| EventStream.EventsRoundTrip | context.go:336-353 | a client that follows section 9.2.6 of the WHATWG HTML standard reads back exactly the events sent, if and only if no name holds a line break and no data holds a CR; it then has seen no event id, reconnection time, comment or other field |
| Text.Split | context.go:342-342 | the parts hold no separator, and joining them gives the string |
| Text.SplitUnique | context.go:342-342 | no other parts do |
| WsCodec.UnmaskMasked | ws/ws.go:216-220 | masking twice with one key gives the payload back |
| WsCodec.XorIsExclusive | ws/ws.go:218-218 | a bit of the combination is set if and only if exactly one of the two bytes has it set |
| WsCodec.XorWrittenOut | ws/ws.go:218-218 | the combination of two bytes, written out bit by bit with division and remainder |
| WsCodec.MaskingIsExclusiveOr | ws/ws.go:216-220 | byte i of a masked payload is the exclusive or of byte i of the payload and byte i modulo 4 of the key (section 5.3 of RFC 6455) |
| WsCodec.BigEndian | ws/ws.go:252-252 | the bytes of a length are its base-256 digits, most significant first |
| WsCodec.HeaderBytes | ws/ws.go:241-254 | the header is FIN and the opcode, and the length in the shortest of the three forms, unmasked |
| WsCodec.BigRoundTrip | ws/ws.go:252-252 | a length in big-endian bytes is read back |
| WsCodec.ParseLength | ws/ws.go:184-199 | the length is read back in all three forms |
| WsCodec.PeerFrameRoundTrip | ws/ws.go:176-222 | any frame up to the limit, masked with any key or not, is read back exactly, whatever follows |
| WsCodec.TruncatedFails | ws/ws.go:176-215 | any proper prefix of a frame, masked or not, fails as the end of the stream |
| WsCodec.TooLongIsRefused | ws/ws.go:201-203 | a frame above the limit, masked or not, is refused with its length |
| WsCodec.ServerFrameRoundTrip | ws/ws.go:236-264 | what `writeFrame` sends is read back with FIN, opcode and payload, and exactly that frame is consumed; above the limit it is refused |
| WsMessages.ReadData | ws/ws.go:146-159 | a message in any number of fragments is read back whole |
| WsMessages.ReadControl | ws/ws.go:160-165 | a ping between messages is answered with its payload, a pong is dropped |
| WsMessages.StreamRoundTrip | ws/ws.go:138-173 | successive reads return exactly the messages of the stream in order, and write exactly one pong for each ping, with equal payload (sections 5.4, 5.5.2 and 5.5.3 of RFC 6455) |
| WsMessages.TruncatedStream | ws/ws.go:138-173 | from a stream that breaks off anywhere, between the fragments of a message too, successive reads return the first messages of the stream, whole and in order, and then the end of the stream |
| WsMessages.OtherFrameBreaks | ws/ws.go:154-156 | between the fragments of a message every frame but a continuation, control frames included, breaks it |
| WsMessages.StrayFrameBreaks | ws/ws.go:169-171 | between messages a continuation and every reserved opcode ends the stream with an error |
| WsMessages.HelloIsRead | ws/ws.go:138-173 | the text messages of section 5.7 of RFC 6455, masked, plain and fragmented, are read from their literal bytes |
| WsMessages.ControlFramesAreAnswered | ws/ws.go:160-168 | from literal bytes: a ping is answered by a pong with its payload, and an empty close frame is echoed |
| WsMessages.CloseEnds | ws/ws.go:166-168 | a close frame ends the stream and is echoed once |
| WsConn.Conn.ReadFull | ws/ws.go:177-180 | reads exactly the bytes asked for, or fails at the end of the stream |
| WsConn.Conn.ReadFrame | ws/ws.go:176-222 | reads one frame as parsed, and consumes exactly it |
| WsConn.Conn.ReadPayload | ws/ws.go:205-221 | reads the mask key, if there is one, and the payload |
| WsConn.Conn.Unmask | ws/ws.go:216-220 | the buffer is combined with the key in place, byte by byte as in `WsCodec.MaskingIsExclusiveOr` |
| WsConn.Conn.WriteFrame | ws/ws.go:236-264 | writes exactly one server frame; when a write fails, a part of that frame |
| WsConn.Conn.ReadFragments | ws/ws.go:148-158 | the loop joins the fragments up to the last |
| WsConn.Conn.ReadMessage | ws/ws.go:138-173 | returns, consumes and writes what the value form says; a pong that cannot be written ends the read with its ping consumed and a part of what is due written |
| WsWriters.StepKeeps | ws/ws.go:236-264 | every step of any writer (lock, header, payload, unlock) keeps the wire consistent |
| WsWriters.FramesAreNeverTorn | ws/ws.go:236-264 | after any schedule the wire holds whole frames and then a prefix of the lock holder's frame; each writer's frames are in order, none lost and none repeated |
| WsWriters.NobodyWaitsForever | ws/ws.go:237-238 | while a call has not returned some writer can go on |
| WsWriters.PeerDecodesInterleaving | ws/ws.go:160-163 | the peer decodes an interleaving of the writers' frames, pongs included |
| RateLimit.EvictionIsInvisible | middleware/ratelimit.go:56-85 | with burst at most 600 times the rate every decision is that of a limiter that never sweeps |
| RateLimit.EvictionShows | middleware/ratelimit.go:56-85 | with a larger burst some run shows the eviction |
| RateLimit.EvictionInvisibleExactlyWhen | middleware/ratelimit.go:14-17 | eviction is invisible on every run if and only if burst is at most 600 times the rate |
| RateLimit.KeysAreIsolated | middleware/ratelimit.go:56-68 | the decision for a key is that of the run restricted to the key, although all share one sweep clock |
| RateLimit.KeysAreIsolatedExactlyWhen | middleware/ratelimit.go:56-68 | this holds on every run if and only if burst is at most 600 times the rate |
| RateLimit.ExactPolicy | middleware/ratelimit.go:61-75 | a request is allowed if and only if in every window of its key that ends with it the allowed requests stay within burst plus inflow |
| RateLimit.WindowBound | middleware/ratelimit.go:61-75 | no window ever exceeds that bound |
| RateLimit.PolicyIsExactExactlyWhen | middleware/ratelimit.go:56-75 | the policy is exact on every run, and no window ever exceeds the bound, if and only if burst is at most 600 times the rate |
| RateLimit.IdealIsTightest | middleware/ratelimit.go:61-75 | a bucket always holds what the tightest window leaves |
| RateRetry.RetryBound | middleware/ratelimit.go:70-73 | after a denial the next request of the bucket is denied strictly before the retry time and allowed from one nanosecond after it |
| RateRetry.RunKeeps | middleware/ratelimit.go:61-75 | whatever burst and rate are, a kept bucket holds between no token and the burst, as of the last request of its key |
| RateRetry.RetryHolds | middleware/ratelimit.go:56-75 | on any run, with other keys and sweeps in between and for any burst: the next request of the key is allowed from one nanosecond after the retry time, and denied before it when an empty bucket gets its next token within a sweep interval or less than one has passed |
| RateRetry.TooEarlyIsDeniedExactlyWhen | middleware/ratelimit.go:56-75 | coming back before the retry time is denied on every run if and only if an empty bucket gets its next token within a sweep interval, as at every rate of at least 1/600 |
| RateRetry.EarlyRetryAllowed | middleware/ratelimit.go:56-68 | a concrete client that is told to wait nearly 20 minutes and let in after 10 |
| RateRetry.RetryAfterSuffices | middleware/ratelimit.go:115-118 | for one bucket, a client that waits for the Retry-After seconds is let through, except exactly when the truncated wait is a whole number of seconds and falls short |
| RateRetry.RetryAfterHolds | middleware/ratelimit.go:115-118 | on any run, with other keys and sweeps in between: a client that comes back when the header says or later is let through, except exactly when it is there to the nanosecond, the truncated wait falls short, and its bucket has not been swept |
| RateRetry.RetryAfterFallsShort | middleware/ratelimit.go:70-73 | a concrete client that is told to wait 0 seconds and denied again |
| RateRetry.WholeSeconds | middleware/ratelimit.go:117-117 | the header is the least number of seconds that reaches the retry time |
| RateRetry.NoneIsIdle | middleware/ratelimit.go:56-59 | after any run every kept bucket was used less than a sweep interval before the last sweep, so none is kept that has been idle for two |
| RateRetry.SpacedNeverDenied | middleware/ratelimit.go:61-75 | a request at least 1/rate after the one before of its key is never denied, for any burst and with any other keys in between |
| RateLimit.DefaultsAreUsable | middleware/ratelimit.go:96-102 | the limiter built from any positive rate has a burst of at least one: the configured one, or the least whole number of at least one that reaches the rate; and for which rates the default burst keeps eviction invisible |
| RateLimit.RateLimiter.constructor | middleware/ratelimit.go:107-112 | a new limiter has no buckets and the settled burst |
| RateLimit.RateLimiter.SweepIdle | middleware/ratelimit.go:79-85 | deleting while iterating, in any order, removes exactly the idle buckets |
| RateLimit.RateLimiter.SweepWhenDue | middleware/ratelimit.go:56-59 | the buckets are swept when the last sweep is an interval ago, and not otherwise |
| RateLimit.RateLimiter.AllowRequest | middleware/ratelimit.go:52-76 | the decision, the retry time and the new buckets are those of the value form |
| Schema.PropertiesAreTheVisibleFields | schema.go:72-94 | the properties are the visible fields under their JSON names, the last of equal names counting |
| Schema.RequiredFieldsAreProperties | schema.go:84-87 | exactly the required fields are listed, and all are properties |
| Schema.DescribesExactlyTheReachable | schema.go:34-68 | from a reference-closed component map the result has exactly the old components, unchanged, and the structs reachable from the type, and is closed again |
| Schema.GrownStruct | schema.go:59-63 | reserving a name, describing the fields and replacing the reservation adds the struct and what it reaches |
| Schema.ClosedIsCanonical | schema.go:26-30 | closed component maps with the same names are equal, so the order of description does not show |
| Schema.NothingDangles | schema.go:60-64 | no reservation is left, and every reference resolves |
| Schema.RefsAreMentions | schema.go:64-64 | every reference in a schema is to a struct its type mentions |
| SchemaMeaning.TagIsRead | schema.go:128-144 | the member name is the tag up to its first comma, or the field's name when that is empty, and omitempty is one of the comma-separated options behind it |
| SchemaMeaning.AcceptsExactly | schema.go:34-94 | with its components, the schema of a type accepts exactly the JSON of the form the type calls for: kind, items, values, members of the shown fields, and all needed members |
| SchemaMeaning.GeneratedAcceptsExactly | schema.go:34-94 | so does what the generator returns, with the components it leaves, whatever was described before |
| SchemaMeaning.RefsAreKept | schema.go:64-64 | the references of a schema are exactly those of the structs that its type mentions outside of fields that a later one of the same name replaces |
| SchemaEncoding.EncodedFits | schema.go:34-94 | what `encoding/json` prints for a value is of the form its type calls for, except exactly where a nil or a slice of bytes stands in its way |
| SchemaEncoding.EncodingConformsExactlyWhen | schema.go:34-94 | what `encoding/json` prints for a value of any type conforms to the generated schema if and only if no nil pointer, slice or map and no slice of bytes stands where the schema asks for something else |
| SchemaEncoding.NilAndBytesDoNotConform | schema.go:50-53 | a nil slice and a slice of bytes, printed, do not conform |
| SchemaEncoding.SafeTypesConform | schema.go:34-94 | where every pointer, slice and map is a field with omitempty and no slice holds bytes, everything printed conforms |
| SchemaGenerator.FindJsonField | schema.go:128-144 | the loop over the tag's options finds the JSON name and the omitempty flag |
| SchemaGenerator.Deref | schema.go:147-152 | pointers are unwrapped, and the schema stays the same |
| SchemaGenerator.SchemaGen.SchemaFor | schema.go:34-68 | ends on every type graph; returns the type's schema, whose meaning is that of `SchemaMeaning.GeneratedAcceptsExactly`; adds described components for what the type reaches |
| SchemaGenerator.SchemaGen.StructSchema | schema.go:72-94 | the loop over the fields gives the struct's schema, with the components of all fields |

## Left out

- Patterns that part at bytes from 128 on: when their registration ends is exact for the next route on a table of supported patterns; the tree that an accepted one leaves is not described beyond `TreeLimits.CutIndexCrashes`.
- TreeMixed.ServedExactlyWhenNotMixed: about the first registration that mixes a parameter and a literal byte; registrations after that work on a broken tree, which is not described further.
- The tree after a refused registration: the code changes nodes before it panics, and nothing is claimed about them.
- TreeRemoval.RemovingHintExactlyWhen: exact where no route goes on behind the path; `TreeTrailing.SlashHintExactly` is about the other cases too.
- TreeTrailing.SlashHintExactly: not about a path behind whose slash a catch-all goes on, such as "/a/" beside the route "/a//*x".
- TreeRedirect.AddingHintExactlyWhen: about routes with a slash of their own; for catch-alls there are `TreeBoundary.CatchAllHintExactly` and `TreeTrailing.CatchAllIsHinted`.
- `uint32` overflow of priorities: they are unbounded integers.
- RateLimit.ExactPolicy: over exact reals; floating-point rounding of tokens and of the retry time is not modelled.
- RateLimit.RateLimiter.AllowRequest: buckets are values in the map field, not shared objects, and one call is one step, which is what the mutex gives; the clock is a parameter.
- WsWriters.FramesAreNeverTorn: no write fails; what other writers send after a failed write is not modelled.
- The WebSocket handshake, `Close`, UTF-8 checks and reserved bits.
- ContextObject.Context.Next: handlers are the actions that move the chain (next, abort, look, return); panics and their recovery are not modelled.
- RouterObject.Router.Handle: a registration that never ends is excluded by its precondition; `RouterObject.Ends` is what a caller can check for it.
- RouterObject.Router.Dispatch: lookups that leave an index range are excluded by its precondition. It gives the answer that is chosen; the default 404, 405 and OPTIONS handlers behind the middleware, the pool of contexts and the query string of a redirect are not modelled.
- Schema.DescribesExactlyTheReachable: recursive slices and maps without a struct, on which the code does not end, cannot be written as a type of the model; `queryParams` is left out as an easier case of the same loop.
- SchemaEncoding.EncodingConformsExactlyWhen: about types whose printed fields have distinct names; embedded structs, the tag options `string` and `omitzero`, tag names that `encoding/json` ignores and custom marshallers are not modelled, and which strings are date-times is a parameter.
- `FromStd` in adapter.go, which replaces the writer of a running request.
- Binding, rendering, cookies, query parsing, the server, static files, logging, compression, timeouts and the other middleware: library calls or single-branch header logic.
- Assembly of the OpenAPI document and prefix joining in groups: easy members only.
