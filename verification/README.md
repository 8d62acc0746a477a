# Verified model of the wand router and its log ring buffer

The project models two components of wand and proves what they are for.

**The lock-free ring buffer** (`logger/ringbuffer.go`). `Ring` is a transition system with one step
per atomic operation or data access, any number of producers and one consumer; `RingInvariant` and
`RingRuns` prove, over every interleaving, that the handler receives the reserved events exactly once
and in order, that slots are exclusive, what a refused write means, and that a shutdown in the order the
source asks for loses nothing and ends within a bound on the consumer's own steps; `RingCalls` proves what one call
of TryWrite returns, `RingProgress` that a published event is delivered within a bound.
`RingIndex` holds the uint64 and mask arithmetic. `RingQueue` is the object of the source with its
arrays and loops, driven by one thread, proved to be a bounded first-in first-out queue.

**The router** (`router/`). Paths and segments (`Segments`, `Paths`); the trie as a value, its
registrations and conflicts (`Trie`, `Routes`) and as linked nodes updated in place (`TrieHeap`,
`StaticChildrenMap`); searching against a declarative best-match specification (`Search`, `BestRoute`);
path compression and the frozen search (`Frozen`, `FrozenSearch`) with the exact condition under which
it preserves meaning (`GapCosts`, `FrozenGaps`); the table of one host with its static index and cached Allow
headers (`Table`, `Allow`, `Serve`); whole-request dispatch of the mutable and of the frozen router
(`Dispatch`, `FrozenDispatch`, `FrozenDispatchGaps`); case-insensitive routing (`CaseFolding`); the
trailing-slash shortcut (`TrailingSkip`); registration on the whole router, as a function
(`Registration`) and on the objects of the source (`RouterObject`); whole runs of registrations
(`RouterRuns`), also with the options written in between (`OptionRuns`), and what they end up serving
(`RouterServing`); two routers that show what strict slashes can do (`SlashExamples`).

`RequestSpec` is an independent account of the router: the answer to a request from the calls of Handle and
the request alone, over original patterns and paths, with none of the tables, tries, caches, folded forms
or dispatch steps. `RequestDispatch.EveryRequestAnswered` proves that ServeHTTP of every router that calls of
Handle can build gives each request exactly that answer; `RequestText`, `RequestRoutes`, `RequestAllow` and
`RequestAnswers` are its steps, `Refusals` and `Conflicts` tell when a request is refused and why a
registration is.

Methods are proved equal to functions on values; the theorems are about those functions and about
everything reachable by registrations or by runs.

## Where the obvious statement is false

- Freezing does not preserve meaning on every path. The trie compares segment by segment, a frozen node
  compares one substring, so `/a//b` reaches the route `/a/b` in the trie only. A route with two literal
  segments around a gap of several slashes is what breaks; the shortest one that matches has a closed form
  (`GapCosts.NeedsShortest`, `GapCosts.WitnessLength`), and freezing is exact on a path, for all tries built
  from patterns up to a length, if and only if none of that length fits (`FrozenGaps.ParityExactlyWhenNoneFits`).
  Without a limit: if and only if adjacent segments that a literal pattern segment could equal (not starting
  with `:` or `*`, not `.` or `..`) are one slash apart (`FrozenGaps.ParityExactlyWhenSingleGaps`). Cleaned
  paths always are; a raw path need not be (`FrozenDispatchGaps.OutcomeKeptExactlyWhenNoneFits`, with the
  request `/a//b%2Fc` in `FrozenDispatchGaps.EncodedSlashExample`).
- `TryWrite` returning false does not mean that the buffer is full, as its comment says: a head loaded
  early can be smaller than a tail loaded later, and the uint64 difference wraps. The exact condition is
  `RingRuns.RefusalExplained`, a run that refuses on an empty open ring is `RingRuns.RefusedWhileEmpty`,
  and for a lone producer the comment is right (`RingRuns.LoneRefusalMeansFull`).
- The shortcut that skips the other slash form can change an answer, when slashes are strict and a
  parameter route matches there (`TrailingSkip.SkipChangesExactly`, `SlashExamples.SkipIsVisible`).
- Strict slashes can redirect in a circle; exactly when is `Dispatch.RedirectLoopExactly`, an instance
  is `SlashExamples.RedirectLoopExists`.
- Closing with a producer still in flight can lose events: `RingRuns.AcceptedButLost` is a run in which
  TryWrite returns true and the event is never delivered. Lost are those reserved after Consume has
  returned, and no others (`RingRuns.LostIsReservedAfterReturn`).

## Model

| member | source | states |
|---|---|---|
| RingIndex.AcceptedExactlyPowersOfTwo | logger/ringbuffer.go:65-81 | the bit test accepts exactly the powers of two from 1 to 2^62 |
| RingIndex.MaskIsModulo | logger/ringbuffer.go:76-80 | masking with capacity - 1 is the remainder modulo the capacity |
| RingIndex.WrappedIndex | logger/ringbuffer.go:119-119 | wrapping an index at 2^64 before masking does not change its slot |
| RingIndex.DistinctSlots | logger/ringbuffer.go:119-119 | indices less than one capacity apart use different slots |
| RingInvariant.SwapHasRoom | logger/ringbuffer.go:110-117 | a compare-and-swap that will succeed always finds room, although head and tail were loaded separately |
| RingInvariant.ReservedSlotIsEmpty | logger/ringbuffer.go:119-130 | a reserved index is unread and its slot state follows its owner: empty at the wait loop |
| RingInvariant.ReserveKeeps | logger/ringbuffer.go:104-117 | the load and swap steps keep the ring invariant |
| RingInvariant.FulfilKeeps | logger/ringbuffer.go:121-133 | wait, mark, write and publish keep the ring invariant |
| RingInvariant.ConsumeKeeps | logger/ringbuffer.go:146-226 | every step of the consumer keeps the ring invariant |
| RingInvariant.BatchExact | logger/ringbuffer.go:177-198 | the one or two slices are non-empty, concatenate to the events at curr .. curr + n in order, and the end slot meets the start slot only for a whole ring |
| RingRuns.DeliveredInOrder | logger/ringbuffer.go:104-226 | in every run the delivered events are the first reserved ones, in order, each once and unaltered |
| RingRuns.ProgramOrderKept | logger/ringbuffer.go:104-133 | per producer, reservation and delivery follow its program order: first the calls that have returned true, then the one that holds a slot |
| RingCalls.CallReserves | logger/ringbuffer.go:104-138 | from any state and under any interleaving, a call that has returned has reserved its event exactly once if the result is true, and nothing if it is false |
| RingCalls.CallAfterClose | logger/ringbuffer.go:104-107 | a call that starts after Close returns false with its first step and reserves nothing |
| RingCalls.FalseExactly | logger/ringbuffer.go:104-115 | the only steps that return false are the check of the closed flag on a closed ring and a failed capacity test |
| RingRuns.SlotsExclusive | logger/ringbuffer.go:110-207 | tail <= head <= tail + cap; producers in flight own distinct slots outside the batch being read; the wait loop never iterates |
| RingRuns.FailedSwapMeansProgress | logger/ringbuffer.go:117-137 | a swap fails exactly when another reservation has happened since the load |
| RingRuns.RefusalExplained | logger/ringbuffer.go:110-115 | the capacity test refuses exactly when the ring is full, or the loaded head lies behind the loaded tail |
| RingRuns.LoneRefusalMeansFull | logger/ringbuffer.go:104-138 | with one producer: refused exactly when full, and its swap never fails |
| RingRuns.RefusedWhileEmpty | logger/ringbuffer.go:110-115 | a concrete run of two producers in which a write is refused on an open empty ring |
| RingProgress.PublishedIsDelivered | logger/ringbuffer.go:146-208 | in every run, an event published at the read position before Consume has returned is delivered by the time the consumer has made 2 * cap + 9 more steps, whatever producers and Close do |
| RingRuns.PeekTakesReadyRun | logger/ringbuffer.go:160-176 | peeking, undisturbed, takes the whole ready run into the batch, up to 128 events and the capacity |
| RingRuns.DrainStep | logger/ringbuffer.go:146-226 | on a closed ring without writers each consumer step shortens the backlog or advances the batch |
| RingRuns.DrainTerminates | logger/ringbuffer.go:149-154 | Consume alone then returns, with every accepted event delivered |
| RingRuns.LostIsReservedAfterReturn | logger/ringbuffer.go:149-154 | in any run in which Consume returns, with or without producers still writing, exactly the events reserved before the return are delivered; nothing is lost exactly when no reservation follows it |
| RingRuns.AcceptedButLost | logger/ringbuffer.go:87-154 | a concrete run of one producer in which TryWrite returns true, Consume returns, and the event is never delivered |
| RingRuns.ReturnsWithin | logger/ringbuffer.go:146-226 | on a closed ring without writers, whatever the interleaving, Consume has returned once it has made as many steps as the backlog and its phase allow |
| RingRuns.CloseAfterProducersStop | logger/ringbuffer.go:87-154 | from the start: stop the producers, Close, then anything; a returned Consume has delivered every event, and it has returned after at most (2 * cap + 10) * (backlog + 1) steps of its own |
| RingQueue.NewRingBuffer | logger/ringbuffer.go:65-81 | an empty open buffer for each accepted capacity, an error for any other |
| RingQueue.RingBuffer.TryWrite | logger/ringbuffer.go:104-139 | appends the event exactly when the buffer is open and not full, else changes nothing |
| RingQueue.RingBuffer.PeekRun | logger/ringbuffer.go:155-174 | counts the ready run, up to the batch limit |
| RingQueue.RingBuffer.ConsumeRound | logger/ringbuffer.go:155-208 | removes the oldest events, up to the batch limit, as one or two non-empty slices in order |
| RingQueue.RingBuffer.EmptyRun | logger/ringbuffer.go:200-207 | empties exactly the slots of the batch and releases them |
| RingQueue.RingBuffer.Drain | logger/ringbuffer.go:146-154 | on a closed buffer hands over everything in order and stops empty |
| Segments.SegmentIsExact | router/router.go:194-230 | the parts are all maximal slash-free runs with increasing starts and the length sentinel; all other bytes are slashes |
| Segments.SegmentationUnique | router/router.go:194-230 | a path has only one such segmentation |
| Segments.GetPartsWithRaw | router/router.go:194-230 | the loop computes that segmentation, and refuses exactly the paths with control bytes |
| Paths.BuiltParts | router/router.go:425-443 | splitting a path joined from parts gives the parts back, with single gaps |
| Paths.CleanIsBuilt | router/router.go:232-244 | a path that cleanPath keeps is its own parts joined, with its trailing slash |
| Paths.CleanHasSingleGaps | router/router.go:232-244 | such a path has exactly one slash between all segments |
| Paths.SpanComparison | router/frozen.go:590-602 | comparing a span as one substring succeeds exactly when its segments are equal one by one and one slash apart |
| Paths.AlternateKeepsSegments | router/serve.go:91-99 | toggling the trailing slash changes no segment and no start |
| Paths.AlternateTwice | router/serve.go:91-99 | toggling twice gives a canonical path back |
| Paths.LowerASCII | router/router.go:273-289 | folds every upper-case letter, whether or not it copies |
| Paths.LowerParts | router/router.go:273-289 | folding a path folds each segment in place |
| Trie.ClashCases | router/trie.go:171-220 | a stored route conflicts with a pattern exactly when the children of the node say so |
| Trie.InsertCharacterised | router/trie.go:134-222 | a validated insert fails exactly on a conflict with a stored route; failure changes nothing, success adds exactly that route and keeps the trie well formed |
| Trie.ConflictSymmetric | router/trie.go:171-220 | the conflict relation is symmetric |
| Trie.FailedInsertChangesExactly | router/trie.go:134-222 | for any trie and any segments, validated or not, a failing insert changes the trie exactly when it has created a child on its way |
| TrieHeap.TrieNode.Insert | router/trie.go:134-222 | inserting in place into linked nodes returns the error, and leaves the tree, of the function on trees |
| TrieHeap.TrieNode.MatchChildForInsert | router/trie.go:311-326 | finds the child of the same kind whatever its name |
| TrieHeap.TrieNode.CheckConflict | router/trie.go:171-215 | the conflict checks give the error of the function on trees |
| StaticChildrenMap.StaticChildren.Get | router/trie.go:90-103 | list or map, the lookup is that of one finite map |
| StaticChildrenMap.StaticChildren.Set | router/trie.go:105-127 | list or map, also while it turns from one into the other, setting updates that map at one key |
| StaticChildrenMap.StaticChildren.Only | router/trie.go:52-69 | answers exactly when there is one child, and with that child |
| StaticChildrenMap.StaticChildren.Len | router/trie.go:42-50 | list or map, the number of stored segments |
| Routes.ValidateParamNames | router/router.go:518-542 | accepts exactly named, distinct parameters and a final wildcard |
| Routes.BuildStoresAccepted | router/trie.go:134-222 | after any run of registrations the trie is well formed and stores exactly the accepted routes |
| Routes.RegistrationFailsOnConflict | router/trie.go:171-220 | a registration fails exactly when it conflicts with an accepted route, and then changes nothing |
| Routes.AllAcceptedWhenCompatible | router/trie.go:134-222 | a run is accepted as a whole exactly when its routes are pairwise free of conflict |
| Routes.TrieDetermined | router/trie.go:134-222 | a well-formed trie is determined by the routes it stores |
| Routes.OrderIrrelevant | router/trie.go:134-222 | acceptance and the trie built do not depend on the order of registration |
| Search.FindIsBestMatch | router/trie.go:234-308 | search finds a leaf exactly when some stored pattern matches, and then the leaf and bindings of the best one |
| Search.BestIsUnique | router/trie.go:234-308 | there is only one best pattern |
| Search.StaticRouteFound | router/trie.go:263-272 | a stored literal pattern is found whatever parameters and wildcards overlap it |
| Search.BindingsBindNames | router/trie.go:274-292 | a matching pattern binds exactly its names, in order |
| Search.SearchInto | router/trie.go:234-308 | the result does not depend on the buffer, a miss restores it, a hit appends exactly the bindings |
| Search.Params.Get | router/trie.go:346-353 | the value at the first position of the key, exactly when there is one |
| BestRoute.SearchAnswersBestRoute | router/trie.go:234-308 | after any run of registrations, search answers with the best matching accepted route |
| BestRoute.BestRouteUnique | router/trie.go:234-308 | that route is determined by the accepted routes alone |
| BestRoute.HitBindsDistinctNames | router/router.go:720-733 | a hit binds the names of its route, each once |
| BestRoute.SearchAndRead | router/router.go:720-746 | searching and then reading a parameter: the best accepted route answers, a name reads the segment bound to it, and exactly the names of that route read at all |
| Frozen.CompressStaticChain | router/frozen.go:238-256 | the cursor loop computes the maximal static chain and its end |
| Frozen.ChainWalk | router/trie.go:263-272 | walking a chain in the trie is comparing its parts and searching below its end |
| Frozen.ChainParity | router/frozen.go:258-284 | a compressed chain answers like the chain, unless a pattern through it matches over a wider gap |
| Frozen.FreezeParity | router/frozen.go:209-314 | if no stored pattern matches the path with adjacent literal segments over a gap wider than one slash, the frozen trie finds the same leaf and appends the same parameters, through compression and backtracking |
| FrozenSearch.FrozenSearchInto | router/frozen.go:585-659 | the frozen search with its buffer reports the search on values; a miss restores the buffer |
| FrozenSearch.SpanPassesExactly | router/frozen.go:591-602 | a node carrying the joined segments of a chain passes exactly when the next segments are those of the chain with exactly one slash between them |
| FrozenSearch.SearchBoth | router/frozen.go:585-659 | run side by side on such a path, both forms find the same leaf and leave equal buffers |
| FrozenGaps.GapBreaksParity | router/frozen.go:595-600 | for any wider gap between two literal segments, a canonical route that the trie finds and its frozen form misses |
| GapCosts.NeedsShortest | router/router.go:405-416 | every valid canonical pattern that matches a path with literals on both sides of a given gap has at least the length Shortest |
| GapCosts.WitnessLength | router/router.go:405-416 | and the pattern of the witness route has exactly that length |
| GapCosts.WitnessMatches | router/trie.go:234-308 | and matches the path |
| FrozenGaps.ParityExactlyWhenNoneFits | router/frozen.go:585-659 | freezing preserves the answer on a path, for every trie built from canonical patterns up to a length, if and only if no such pattern fits across a gap wider than one slash |
| FrozenGaps.ParityExactlyWhenSingleGaps | router/frozen.go:585-659 | without a limit on the length: if and only if adjacent literal segments of the path are one slash apart |
| FrozenGaps.DoubleSlashExample | router/frozen.go:595-600 | "/a//b" finds the route "/a/b" in the trie and misses it in the frozen form |
| Allow.SortStringsSorts | router/router.go:885-923 | sorting gives a sorted list of the same elements |
| Allow.BuildAllowHeader | router/router.go:894-923 | the header depends only on the set of methods |
| Allow.CommaJoinInjective | router/router.go:894-923 | method names can be read back from a header |
| Allow.HeaderNamesOneSet | router/router.go:894-923 | two sets of method tokens with one header are equal |
| Table.BuildStaticAllowHeader | router/router.go:864-883 | in whatever order the map is ranged over, the header of the set of methods with that static path |
| Table.FailedInsertKeepsTable | router/router.go:479-506 | a rejected route leaves the whole table as it was |
| Table.InsertKeepsIndex | router/router.go:495-501 | the static map keeps agreeing with the tries |
| Table.InsertKeepsFlags | router/router.go:492-494 | the parameter flags keep telling which methods have parameter routes |
| Table.InsertKeepsTrailing | router/router.go:489-491 | hasTrailing keeps telling whether a stored pattern ends in a slash |
| Table.InsertKeepsCache | router/router.go:501-504 | every cached Allow header stays the one a recomputation would give |
| Table.InsertKeepsTable | router/router.go:479-506 | every registration, accepted or not, keeps all of these |
| Serve.StaticIndexSound | router/router.go:685-700 | a hit of the static map is the leaf the trie search would reach, with its handler and without parameters |
| Serve.LeafIgnoresRaw | router/router.go:720-733 | the leaf does not depend on the path parameters are cut from |
| Serve.AllowedMethodsInTable | router/router.go:754-820 | the loops, fast path and cache included, compute the Allow value of the table |
| Serve.AllowedIsSet | router/router.go:754-820 | that value is the rendering of one set of methods; the cache is never stale |
| Serve.FastPathIsFullScan | router/router.go:754-774 | without parameter routes the fast path gives what the full scan would |
| Serve.AllowAgreesWithServing | router/router.go:675-820 | a method other than OPTIONS is allowed exactly when it would be served, HEAD through GET included; OPTIONS exactly when something is |
| Dispatch.NotAllowedNeverListsOwnMethod | router/serve.go:66-78 | a refusal has status 200 for OPTIONS and 405 otherwise, and carries the header of what the host's or the default table allows at the path asked for, or at its toggled twin without strict slashes; for a 405 the request's method is not allowed there |
| Refusals.RefusedExactlyWhenAllowed | router/serve.go:66-78 | a request that reaches the tables and is neither served nor redirected gets 405, or 200 for OPTIONS, exactly when something is allowed at its path or, without strict slashes, at the twin; otherwise 404 |
| Dispatch.RedirectLoopExactly | router/router.go:635-673 | a canonical path and its toggled twin redirect to each other exactly when hasTrailing holds, the method is served at neither form and both forms allow something, case ignored or not |
| SlashExamples.RedirectLoopExists | router/router.go:635-656 | with GET "/:id" and GET "/b/", POST "/x" and POST "/x/" redirect to each other |
| TrailingSkip.SkipChangesExactly | router/router.go:635-673 | exactly when the hasTrailing shortcut changes the outcome of a table |
| SlashExamples.SkipIsVisible | router/router.go:635-656 | with GET "/:id" alone it does so for POST "/x" |
| TrailingSkip.SkipHarmless | router/router.go:635-673 | it never does with StrictSlash off or without parameter routes |
| FrozenDispatch.TableParity | router/frozen.go:411-583 | a frozen table answers like its table on every path across whose wide gaps no registrable pattern fits |
| FrozenDispatch.FreezeKeepsOutcome | router/frozen.go:361-459 | a frozen router gives the outcome of the router on every request with a cleaned path, and on raw paths across whose wide gaps no registrable pattern fits |
| FrozenDispatchGaps.WitnessOutcomeChanges | router/frozen.go:595-600 | for a wide gap in a raw path across which a registrable pattern fits, one or two calls of Handle build a router that has an answer for the request and whose frozen form has a 404 |
| FrozenDispatchGaps.OutcomeKeptExactlyWhenNoneFits | router/frozen.go:361-459 | for every request routed by its raw path: freezing keeps the outcome on every router that registrations can build if and only if no registrable pattern fits across a wide gap of the path |
| FrozenDispatchGaps.EncodedSlashExample | router/frozen.go:595-600 | with GET "/a/b%2Fc" and GET "/:A", a request for "/a//b/c" that came as "/a//b%2Fc" is answered before freezing and not found afterwards |
| CaseFolding.CapturesKeepCase | router/trie.go:254-287 | with case ignored or not, a captured value is the original text at the matched place; the slash-skipping branch is never taken |
| CaseFolding.CleanPathFolds | router/router.go:232-244 | cleaning commutes with folding |
| CaseFolding.CaseBlindDispatch | router/serve.go:44-54 | with IgnoreCase on, requests equal up to case get equal outcomes, up to the case of targets and values |
| CaseFolding.FoldedMatch | router/router.go:423-433 | a folded pattern matches a folded path exactly when the originals match up to the case of literals |
| Registration.RouteForRegistrable | router/router.go:393-443 | what handle passes on is a validated route whose stored pattern is canonical and splits into its own segments: those of the pattern, literal ones in lower case when case is ignored |
| Registration.RejectedHandleChangesNothing | router/router.go:393-516 | a rejected registration changes nothing but, at most, the case latch |
| Registration.LatchNeverChanges | router/router.go:371-381 | once set the latch is fixed; setting it keeps the sensitivity in force |
| Registration.ReachableRouterOk | router/router.go:393-516 | every router that registrations can build satisfies the table invariants the other theorems assume |
| RouterRuns.RunBuilds | router/router.go:478-486 | after any run of registrations, the trie of a host and method is the one its own routes build |
| RouterRuns.HandleRejectsExactly | router/router.go:393-516 | Handle rejects exactly on bad arguments or on a conflict with a route accepted before for the same host and method |
| RouterRuns.AllPerformedExactly | router/router.go:393-516 | a run is accepted as a whole exactly when all arguments are good and no two routes of a trie conflict |
| RouterRuns.RunOrderIrrelevant | router/router.go:393-516 | a permutation of an accepted run is accepted, and both routers answer every request alike |
| RouterRuns.RefusalNeverListsOwnMethod | router/serve.go:66-78 | the Allow header of a refusal, 405 or the 200 of OPTIONS, of any router that registrations can build reads only as the set of methods allowed at the path asked for (or its toggled twin without strict slashes), which holds OPTIONS and, for a 405, not the request's own method |
| RouterServing.RunServesRoutes | router/router.go:675-750 | what such a router answers for a method and path, exactly: the static route under this path; else, only if the method has a parameter route, the best accepted route that matches, with its bindings; else nothing |
| OptionRuns.CaseFixedForever | router/router.go:359-381 | once a registration has set the latch, no later write to an option changes the case sensitivity in force |
| OptionRuns.OpsBuild | router/router.go:422-443 | whatever writes to the options come in between, every trie is the one its routes build with the folding the latch caught |
| OptionRuns.OptionsAsIfFirst | router/router.go:359-381 | a run of registrations and option writes answers every request like a router created with that case sensitivity and the final values of the other options |
| RequestDispatch.EveryRequestAnswered | router/router.go:572-633 | for all options, calls of Handle and requests, ServeHTTP gives exactly the answer of the request specification |
| RequestDispatch.EveryRunAnswers | router/router.go:572-633 | the same when the options are written between the calls of Handle |
| RequestDispatch.FrozenAnswers | router/frozen.go:361-459 | and after freezing, unless a registrable pattern fits across a wide gap of a raw path |
| RequestDispatch.PreparedExactly | router/serve.go:18-62 | too long exactly beyond 4096 bytes; a valid raw path and a canonical path go on as they are; any other path is redirected to its canonical form, with 301 for GET and HEAD and 308 otherwise |
| RequestDispatch.RedirectIsFinal | router/serve.go:32-41 | the target of that redirect is unique and goes on as it is |
| RequestDispatch.MethodResponds | router/router.go:675-680 | HEAD is answered by its own routes if they answer, else by those of GET; any other method by its own routes |
| RequestDispatch.SiteExactly | router/router.go:597-673 | one host's table: served, else the other slash form redirected to or served, else refused with the header of the path or of the other form |
| RequestDispatch.HandleExactly | router/router.go:393-516 | Handle accepts a call exactly when its arguments are good and its original pattern clashes with none accepted before, literals compared up to case when case is ignored |
| RequestDispatch.RoutesCounted | router/router.go:487-489 | routesCount is the number of accepted calls |
| RequestAnswers.MethodAnswers | router/router.go:422-443 | over the original patterns: a literal pattern answers at the paths with its text, up to case when case is ignored; else the preferred pattern that covers the path answers, with the original text it captures |
| RequestAnswers.LiteralCallAnswers | router/router.go:495-501 | every accepted literal call answers at every path with its text |
| RequestRoutes.TakenIsAccepted | router/router.go:422-486 | the accepted calls, told over original patterns, are those whose routes are accepted, in the same order |
| RequestAllow.HeaderExactly | router/router.go:894-923 | a header lists a set of methods, standard ones first in their order and the others in byte order, exactly when it is the one rendered |
| RequestAllow.GetHeader | router/router.go:894-923 | for a path with a GET route alone it is "GET, HEAD, OPTIONS" |
| RequestText.SameTextByKey | router/router.go:273-289 | folded forms are equal exactly when the texts are equal up to the two cases of each ASCII letter |
| RequestText.CanonicalExactly | router/router.go:232-244 | cleanPath keeps exactly the rooted paths without empty, "." and ".." segments |
| RequestText.CanonicalFormExactly | router/router.go:232-244 | and turns any other into the one canonical path with the resolved segments and the trailing slash |
| RequestText.ResolveFollowsRules | router/router.go:232-244 | resolving obeys the rewriting rules of path.Clean for rooted paths, which determine it |
| RequestText.ErrorNamesFirstFault | router/router.go:393-420 | the error for bad arguments names the first fault in the order of the checks, and there is one exactly when there is a fault |
| Conflicts.InsertNamesConflict | router/trie.go:134-222 | the error of an insert is the kind of its conflict with a stored route, on which all the routes it conflicts with agree |
| Conflicts.HandleNamesConflict | router/router.go:478-486 | Handle reports that kind, for the routes accepted for the same host and method |
| RouterObject.LiveRouter.Handle | router/router.go:393-516 | on the objects, in place: the error and the router of the function on values |
| RouterObject.LiveRouter.TableForHost | router/router.go:344-357 | the table of a host, created empty when missing; no two hosts share one |
| RouterObject.LiveTable.Add | router/router.go:479-506 | the updates of the table's fields are those of the function on tables |
| RouterObject.MatchForm | router/router.go:422-443 | the loop over the segments builds the stored pattern and segments, literal ones in lower case exactly when case is ignored |

## Left out

- RingRuns.DeliveredInOrder: assumes that fewer than 2^64 events are ever reserved, like all theorems on runs of the ring.
- RingQueue.RingBuffer.TryWrite: one thread; the interleavings are the subject of Ring, not of this class.
- RingRuns.ReturnsWithin: counts the steps of the consumer itself; that the scheduler ever lets it make them is not modelled.
- Panics of the consumer's handler and PanicHandler; backoff, sleeping and cache padding.
- TrieHeap.TrieNode.Insert: the tables of RouterObject hold tries as values, so linked nodes inside a table are not modelled; the nodes and the tables are each modelled in place.
- Search.SearchInto: searches a trie value; the nodes are not written during a search.
- The range function over static children; freezing a trie visits them through the map.
- FrozenRouter.Freeze: the clones of the static maps, flags and caches are equal values, so no function models the copying.
- Trie.InsertCharacterised: for validated segments, which handle guarantees; for any others Trie.FailedInsertChangesExactly says when a failure leaves something behind, and Trie.FailedInsertCanChange shows one.
- path.Clean is taken by its documented contract for rooted paths; URL.EscapedPath is an input of the request; sort.Strings is modelled by insertion.
- normalizeHost: the host of a request or registration is given in its normalised form.
- The bit mask of standard methods is a set of method names; the custom list stays a list.
- Handlers are opaque values; middlewares, groups and pprof routes are not modelled.
- Custom NotFound and MethodNotAllowed handlers, redirects' query strings, response writing and the net/http wrappers: the outcome is abstract.
- Locks, pools and registration concurrent with serving: dispatch is on quiescent tables.
- Everything outside `logger/ringbuffer.go` and the core of `router/`.
