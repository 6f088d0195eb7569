# Plumego in Dafny

Plumego is a Go toolkit for HTTP services. This project models the parts of it where correctness is
hard to see from the code and proves what they promise, for all inputs, all call sequences and all
interleavings. `dafny verify dfyconfig.toml` checks everything.

| files | component |
|---|---|
| `Text`, `Paths`, `Patterns` | path normalizers, splitters, joins; route patterns |
| `RouteTable`, `MatchLaws` | the meaning of matching, as narrowing of a route list, and its laws |
| `PathMap`, `Trie` | the trie: first a map from positions to payloads, then nodes in memory |
| `Routing`, `Router` | registration, dispatch and the Allow list, as a value and in memory |
| `Percent`, `ReverseRouting`, `RoundTrip` | building URLs from named routes and dispatching them again |
| `MatchCache`, `AppLifecycle`, `Ungated` | the ring-buffer cache; registration, freeze and requests as a step system, with the gate and without |
| `Responses`, `Singleflight`, `Coalescer` | the recording writer; leaders and waiters as a step system |
| `Gzip`, `Timeout` | the two other response writers; the timeout race as a step system |
| `RequestId`, `TokenBucket`, `Semver`, `KvStore` | request ids, rate limiting, version order, the key-value store |

A Go string is a Dafny `string` with one `char` per byte. What the source updates in place is a
class whose methods are proved against functions on values; the laws are lemmas about those
functions. Goroutines are step systems: a total `Step` function over actions, so that a theorem
about `Run(actions)` for every action sequence covers every interleaving.

The main results, in the order they build on each other:

- **Registration.** A refusal names the earliest check whose reason holds, and a method's list is the
  routes of its accepted registrations in order (`Routing.FirstReason`, `Routing.ListIsAccepted`).
- **Matching.** After any accepted and refused registrations, the trie walk returns exactly what
  greedy narrowing of the accepted route list returns (`Trie.Tree.MatchNode`, `Router.Router.AddRoute`).
  A router that was asked to register any sequence and one that was asked only the accepted part of it
  answer every request alike and hold the same names and listing (`Router.RefusalsLeaveNoTrace`).
- **Dispatch.** The first of the request's method, GET for HEAD, and ANY whose own list answers decides
  (`Router.Router.MatchRequest`, `Routing.DispatchOrder`).
- **Matches reproduce paths.** Values put back into the matched pattern give the path byte for byte
  if and only if no request segment is literally ":" or "*" at a capture (`MatchLaws.MatchReproducesPath`).
- **Reverse routing.** Dispatching a built URL gives the route and values back if and only if the
  pattern's text has no percent sign, the values are clean and no sibling tried earlier takes the
  request (`RoundTrip.UrlRoundTrip`).
- **Freeze.** In every interleaving a served result, cached or not, is the match on the final table
  (`AppLifecycle.ServedIsFinalMatch`), and that table is the one of exactly the registrations carried out
  before the freeze (`AppLifecycle.ServedAsRegistered`).
- **Coalescing.** One downstream call per key; `done` closes once, after removal; a woken waiter
  replays the whole response exactly when the leader's handler neither panicked, overflowed nor
  streamed (`Coalescer.WakeGivesLeaderResponse`).
- **Gzip.** For every call sequence the emitted body decodes to what was written. It is gzip if and
  only if a write of the sequence starts the stream, a condition on the list of calls, and gzip is
  announced exactly over gzip bodies unless compression was chosen, flushed and only then written to
  (`Gzip.Serve`, `Gzip.GzippedIff`, `Gzip.HazardIff`, `Gzip.CompressibleIff`).
- **Timeout.** Both goroutines meet or both leave; no one is stuck; a panic has one fate
  (`Timeout.EndsFromHere`, `Timeout.OneFate`). The head of every replay follows from the list of calls:
  the first that chooses a status, the last header edit (`Timeout.ReplayHead`).
- **Tokens.** At most capacity plus rate times length in any window (`TokenBucket.WindowBound`), and no
  less: a call is refused if and only if less than one token is left of the capacity and what time added
  since the bucket was last full (`TokenBucket.AllowedIffDue`).
- **Versions.** `Compare` is the precedence of Semantic Versioning 2.0.0, item 11, for all versions
  (`Semver.CompareIsPrecedence`), with the exact condition under which its ties are transitive.
- **Ids and store.** Distinct and ordered ids over every run; limits and rollback of the store.

What the proofs show about the code, beyond what its documentation says:

- A static segment whose first byte is 0x80 or more is recorded in the child index as two bytes, so
  index and children no longer line up (`Trie.InsertChild`), and the next sibling panics exactly when its
  first byte is at least every byte of the index (`Trie.NextInsertPanics`). Registration is modelled for
  ASCII first bytes.
- The branches that fill in an empty parameter name during registration never run (`PathMap.CaptureIsNamed`).
- A refused registration can leave behind an empty tree for a method that had none; no match changes.
- Without the application's freeze the cache stays right if and only if no registration changes what a
  request matches between its match and its cache store (`Ungated.HonestIffNeverOvertaken`); there are
  runs where one does (`Ungated.StaleRun`).
- A coalesced leader whose handler only sets headers sends them to the waiters but not to its own client
  (`Singleflight.ReplayIsSent`); the gzip writer drops such headers altogether (`Gzip.Serve`).
- The chunk loop of the gzip writer's bypass never has bytes to write, because the capture buffer is empty
  between calls.
- A flush after compression is chosen and before the first byte is written sends a head without
  `Content-Encoding`; the next small write is gzip all the same (`Gzip.HazardAfterFlush`).
- A response can be replayed in part when the deadline passes between two writes and the handler's
  result is still received (`Timeout.PartialReplay`); it is never cut because of its size.
- URL building copies a percent sign in a pattern's text unescaped, so such a route's URL never leads
  back to it (`RoundTrip.UrlRoundTrip`).
- Ids differ whatever the random fields are if and only if no two stamps of a run share sequence number
  and timestamp field (`RequestId.DistinctIffSlotsFree`); before the epoch they can (`RequestId.RepeatsBeforeEpoch`).
- A numeric prerelease identifier with a leading zero ends the comparison, so it ties versions that
  differ (`Semver.TiesIffWellFormed`).
- An entry whose time to live runs out while it is stored is brought back to life without being counted,
  so the store can end over its memory limit (`KvStore.LateRefreshOverflows`).
- An entry whose time to live ends at the very instant its storing ends is not renewed, so it is expired
  when Set returns; at any other instant it is alive (`KvStore.SetKeepsNewest`).

## Model

| member | source | states |
|---|---|---|
| Paths.FastNormalizePath | router/path.go:20-46 | the index loops compute the dispatch form: "/" and the trimmed rest for a path that starts with a slash, else the path without trailing slashes |
| Paths.CanonicalRoutePath | router/router.go:302-322 | the registration normalizer gives "/" and the path's core |
| Paths.JoinRoutePath | router/router.go:290-300 | joining a prefix and a path joins their cores with one slash |
| Paths.NormalizersAgree | router/path.go:20-46 | dispatch and registration normalizers agree exactly on paths that are empty or start with "/" |
| Paths.NormalizersIdempotent | router/path.go:20-46 | both normalizers are idempotent |
| Paths.JoinAssociative | router/router.go:290-300 | joining route paths is associative |
| Paths.JoinedParts | router/router.go:290-300 | the parts of a joined path are those of the prefix followed by those of the path |
| Paths.NestedGroups | router/registration.go:33-39 | nested groups give the same full path however they are bracketed |
| Paths.SplitPathToParts | router/pool.go:51-77 | the scanning splitter yields the parts between slashes |
| Paths.SplittersAgree | router/pool.go:51-77 | both splitters agree on every normalized path but "/", and joining undoes them |
| Patterns.CompileRoundTrip | router/registration.go:252-276 | the segments of a canonical pattern spell the pattern again |
| Patterns.ValidateRouteSegments | router/registration.go:278-303 | accepts exactly well-formed patterns; an error names a segment that has that fault |
| RouteTable.AcceptKeepsConsistent | router/registration.go:96-188 | a route that neither clashes nor repeats keeps the accepted list free of clashes and repetitions |
| RouteTable.EndingIs | router/matcher.go:11-86 | at most one accepted route ends at a position, so a match there is that route |
| PathMap.WalkIsGreedy | router/matcher.go:11-86 | walking positions equals narrowing the route list, never going back |
| PathMap.TakenIsEndpoint | router/registration.go:174-176 | a handler sits at the end of a pattern exactly when that pattern is already accepted |
| PathMap.GrownUntouched | router/registration.go:116-162 | while every position passed leads to a route, nothing has been created before a name mismatch can show |
| PathMap.MismatchIsConflict | router/registration.go:120-125 | a different name at a capture means an accepted route uses that capture under another name |
| PathMap.NamesAgreeNoConflict | router/registration.go:116-162 | passing all captures without a mismatch means no accepted route clashes |
| PathMap.CaptureIsNamed | router/registration.go:120-125 | an existing capture always has a name, so filling in an empty one never happens |
| PathMap.AcceptRepresents | router/registration.go:167-188 | growing a pattern's positions and setting its endpoint represents the list with that route added |
| Trie.FindStaticChild | router/router.go:208-243 | the indexed lookup finds the child a linear scan by path would find, and none if there is none |
| Trie.FindChildByByte | router/router.go:245-262 | finds the first child with that first byte, or none |
| Trie.InsertChild | router/router.go:269-280 | inserts child and index bytes at the place the index gives, or panics exactly when that place is past the children; from a usable index it does not panic, and index and children stay aligned exactly for first bytes below 0x80 |
| Trie.NextInsertPanics | router/router.go:269-280 | after a child with a first byte from 0x80 on, the next insertion panics exactly when its byte is at least every index byte there was and the first byte of the two that were added |
| Trie.AccentedSiblingsPanic | router/router.go:269-280 | two siblings that start with the byte 0xC3 are such a case |
| Trie.Tree.constructor | router/registration.go:101-103 | an empty tree holds no routes |
| Trie.Tree.Descend | router/registration.go:116-162 | one segment: the child is found or created, or the name mismatch is reported with the tree unchanged |
| Trie.Tree.DescendAll | router/registration.go:114-162 | all segments: the end node with its keys, or a mismatch reported before anything was created |
| Trie.Tree.Insert | router/registration.go:96-188 | clash, repetition or success exactly as the accepted list says; on success the tree holds the list with the route added, else the same list |
| Trie.Tree.Finalize | router/registration.go:167-188 | a node is refused exactly when its pattern is taken, and otherwise gets the route's endpoint |
| Trie.Tree.RootEndpoint | router/dispatch.go:76-155 | the root's handler is the route "/" of the list, if any |
| Trie.Tree.MatchNode | router/matcher.go:11-86 | the trie walk returns what greedy narrowing of the accepted list returns |
| Trie.OffsetOf | router/matcher.go:47-50 | the offset loop computes where a part starts in the path |
| MatchLaws.NarrowFits | router/matcher.go:21-86 | what narrowing returns is an accepted route the parts fit, with the values that fit gives |
| MatchLaws.MatchCarriesRoute | router/matcher.go:21-86 | a match carries the handler, pattern, name and capture names of one accepted route the parts fit |
| MatchLaws.WildcardValue | router/matcher.go:43-54 | the wildcard value cut by offset is the slash-join of the remaining parts |
| MatchLaws.CapturedCount | router/matcher.go:21-86 | as many values as names exactly when no segment hits a capture literally |
| MatchLaws.MatchReproducesPath | router/matcher.go:21-86 | substituting the values into the matched pattern reproduces the path byte for byte if and only if no segment hits a capture literally, and exactly then there are as many values as names |
| MatchLaws.FitsLength | router/matcher.go:21-86 | a matched request has the bytes of the literal text and the values, and one byte for every literal hit |
| MatchLaws.LiteralColonLosesValue | router/matcher.go:21-86 | the request "/:" matches "/:id" with a name and no value |
| Routing.RegisterKeepsOk | router/registration.go:74-188 | every registration, accepted or refused, keeps lists free of clashes, patterns textual, methods tokens and names standing for accepted routes |
| Routing.EveryTableOk | router/registration.go:74-188 | so does every sequence of registrations |
| Routing.FirstReason | router/registration.go:74-188 | a refusal names the earliest check whose reason holds; a registration is accepted exactly when no reason holds |
| Routing.ListIsAccepted | router/registration.go:167-188 | after any sequence a method's list is the routes of its accepted registrations, in order |
| Routing.NamesAreAccepted | router/registration.go:182-186 | after any sequence a name is bound exactly when an accepted registration carries it, and then to that one's route |
| Routing.DispatchOrder | router/dispatch.go:76-155 | the first of own method, GET for HEAD, and ANY whose own list answers decides; no match exactly when none answers |
| Routing.HeadOrder | router/dispatch.go:76-155 | HEAD: its own routes, else those of GET, else those of ANY, with that method reported |
| Routing.RootResult | router/dispatch.go:76-155 | matching "/" gives no names and no values |
| Routing.AllowedIsMatching | router/dispatch.go:186-226 | when some method misses, the Allow list holds exactly the methods but ANY that match |
| Routing.SortSorted | router/dispatch.go:221-225 | sorting distinct methods gives them in strict order |
| Text.LessIff | router/dispatch.go:221-225 | byte order of strings: the smaller byte at the first difference, or a proper prefix |
| Routing.AppendImplicitHead | router/dispatch.go:228-245 | adds HEAD exactly when GET is there, keeping strict order |
| Routing.ParamPosKeys | router/metadata.go:24-47 | a named route's positions are exactly those of its captures |
| Router.Graft | router/registration.go:96-188 | an insertion into one method's tree leaves the other trees as they were |
| Router.Router.constructor | router/router.go:151-169 | a new router holds the empty table |
| Router.Router.Freeze | router/router.go:199-206 | sets the flag and nothing else |
| Router.Router.AddRoute | router/registration.go:74-165 | refuses for the first reason the source checks, else accepts; trees, names, listing and flag then say what the table of accepted routes says |
| Router.Router.Enlist | router/registration.go:182-186 | names and listing grow by exactly this route |
| Router.Router.Compile | router/registration.go:96-113 | the full path, its segments, and whether they are valid |
| Router.ParamPositions | router/metadata.go:24-47 | the loop over pattern parts gives each capture name its place among the captures |
| Router.Router.MatchTree | router/dispatch.go:76-155 | one method's tree answers as its accepted list does, "/" included |
| Router.Router.MatchRequest | router/dispatch.go:76-155 | the answer of the first of own method, GET for HEAD, and ANY whose own accepted list answers, with that method reported; none exactly when no list answers |
| Router.Router.AllowedMethods | router/dispatch.go:186-226 | sorted, free of repetition, and exactly the methods that match, HEAD implied by GET |
| Router.Build | router/registration.go:74-188 | registering a sequence in memory gives the table of that sequence and accepts exactly its accepted part |
| Router.RefusalsLeaveNoTrace | router/registration.go:74-188 | after any sequence the router answers every method and path, lists allowed methods, names and routes exactly as one that only took in the accepted registrations |
| Percent.UnescapeEscaped | router/metadata.go:94-118 | decoding undoes path escaping, whatever follows (section 2.1 of RFC 3986) |
| Percent.EscapeKeepsSegment | router/metadata.go:94-118 | an escaped value has no slash, question mark or number sign |
| Percent.EscapeUnchanged | router/metadata.go:94-118 | escaping leaves a value as it is exactly when every byte is one it keeps |
| ReverseRouting.PairParams | router/metadata.go:78-88 | succeeds exactly when keys are known and not repeated, and then pairs each key with its value; an error is that of the first wrong key |
| ReverseRouting.PairsValues | router/metadata.go:78-88 | each of the distinct keys has the value that follows it |
| ReverseRouting.RenderAll | router/metadata.go:90-122 | succeeds exactly when every capture has a value; renders each segment; an error is that of the first capture without a value |
| ReverseRouting.UrlForNamedRoute | router/metadata.go:64-125 | a URL is built exactly for a known name, paired known keys and all captures supplied; otherwise the error of the earliest check that fails |
| ReverseRouting.DecodeRendered | router/metadata.go:90-125 | without percent signs in the pattern's text, decoding a rendered path gives the pattern with the plain values substituted |
| ReverseRouting.DecodesIff | router/metadata.go:90-125 | it does so exactly then; otherwise the decoded path is shorter |
| Percent.UnescapeLength | router/metadata.go:94-118 | decoding shortens a text by two bytes for every percent sign |
| RoundTrip.FollowIff | router/matcher.go:21-86 | parts of a pattern's form are answered by that route with their values exactly when nothing tried earlier takes them |
| RoundTrip.TripIff | router/matcher.go:11-86 | the method's tree gives the route back exactly for clean, unshadowed values |
| RoundTrip.RouteRoundTrip | router/dispatch.go:76-155 | so does dispatch, fallbacks included |
| RoundTrip.ShorterIsAnother | router/matcher.go:21-86 | a request shorter than a route's path with its values put in is never answered with that route and those values |
| RoundTrip.UrlRoundTrip | router/metadata.go:64-125 | the built URL decodes and dispatches to the named route with the supplied values if and only if the pattern's text has no percent sign and the values are clean and unshadowed |
| MatchCache.RunHoldsLast | router/cache.go:34-76 | over every run the cache holds the last `capacity` insertions in order, each with its latest value |
| MatchCache.LiveRotate | router/cache.go:52-60 | overwriting the head slot of a full ring drops the oldest key and appends the new one |
| MatchCache.MatchCache.constructor | router/cache.go:21-30 | a cache of the requested capacity, or 100, is empty |
| MatchCache.MatchCache.Get | router/cache.go:34-39 | returns the stored value exactly for live keys |
| MatchCache.MatchCache.Set | router/cache.go:43-66 | updates in place, appends, or evicts exactly the earliest inserted key |
| MatchCache.MatchCache.Clear | router/cache.go:69-76 | the cache is empty |
| AppLifecycle.KeyInjective | router/dispatch.go:38-39 | the cache key determines method and path for token methods (section 5.6.2 of RFC 9110) |
| AppLifecycle.EveryRunOk | core/http_handler.go:14-29 | in every interleaving the lock is held only while mutable, the router is frozen before the handler exists, and cache and requests hold only current matches |
| AppLifecycle.FrozenForever | core/routing.go:13-32 | once the router is frozen no continuation changes the table |
| AppLifecycle.ServedIsFinalMatch | router/dispatch.go:28-67 | a request past the gate runs on a frozen router and is served what the final table matches, hit or miss |
| AppLifecycle.TableIsRegistered | core/routing.go:13-32 | in every interleaving the table is that of the registrations that held the app lock before the configuration was frozen, in order |
| AppLifecycle.ServedAsRegistered | router/dispatch.go:28-67 | a request is answered, hit or miss, as a router with exactly those registrations answers it |
| AppLifecycle.RequestCanFinish | router/dispatch.go:28-67 | four steps of its own finish a request that arrived at a built handler |
| Ungated.StoreIff | router/dispatch.go:63-63 | storing a match keeps an honest cache honest exactly when it is still the match |
| Ungated.StoredWasMatched | router/dispatch.go:46-63 | what a request stores is what its match step found on the table of that time |
| Ungated.HonestIffNeverOvertaken | router/dispatch.go:38-66 | without the gate the cache holds only current matches all along a run if and only if no registration changes what a request matches between its match and its store |
| Ungated.StaleRun | router/dispatch.go:38-66 | a run in which GET on the root path is overtaken and the cache goes wrong |
| Responses.OpenIsEmpty | middleware/singleflight/singleflight.go:371-402 | without a commit or hijack nothing was written |
| Responses.CommitIsFirst | middleware/singleflight/singleflight.go:371-402 | the first call that commits decides the status, with the header as the last edit before it left it; a hijack first means none |
| Responses.EditLaw | middleware/singleflight/singleflight.go:363-369 | the header is what the last edit left, empty without one |
| Responses.EnsureNoSniffGuards | internal/httputil/http_response.go:20-27 | adds nosniff exactly where that field is absent or empty, and changes no other field |
| Responses.OverlayFields | internal/httputil/http_response.go:161-168 | each field sent is the source's where it has it, else the one beneath |
| Singleflight.ReplayIsSent | middleware/singleflight/singleflight.go:422-432 | what is captured is the status, headers and bytes sent to the leader's client; an uncommitted response goes to the waiters only |
| Singleflight.CaptureCases | middleware/singleflight/singleflight.go:297-310 | too large exactly over the limit, unreplayable exactly when flushed or taken over and not too large, else a response |
| Singleflight.LimitedResponseRecorder.constructor | middleware/singleflight/singleflight.go:354-361 | a recorder over a fresh client has seen no calls |
| Singleflight.LimitedResponseRecorder.WriteHeader | middleware/singleflight/singleflight.go:371-379 | after any history, status and headers are those of the first commit, and so is the client's head |
| Singleflight.LimitedResponseRecorder.Write | middleware/singleflight/singleflight.go:381-394 | keeps the whole body or marks overflow, by the total written; the client gets every byte either way |
| Singleflight.LimitedResponseRecorder.Flush | middleware/singleflight/singleflight.go:396-402 | marks the response as streamed and commits |
| Singleflight.LimitedResponseRecorder.Hijack | middleware/singleflight/singleflight.go:404-412 | a successful takeover marks the response and ends committing; a refused one changes nothing |
| Singleflight.LimitedResponseRecorder.Result | middleware/singleflight/singleflight.go:297-310 | too large, unreplayable, or the response, as the handler's calls alone determine |
| Coalescer.EveryRunOk | middleware/singleflight/singleflight.go:169-241 | records, map and requests are well-formed after every run |
| Coalescer.OneCallPerKey | middleware/singleflight/singleflight.go:185-204 | at most one downstream call per key runs at a time |
| Coalescer.ClosedOnceAfterRemoval | middleware/singleflight/singleflight.go:312-317 | `done` closes at most once, and then no key leads to its record |
| Coalescer.JoinsRunningFlight | middleware/singleflight/singleflight.go:185-204 | an arrival joins the record of its key that is still in the map, else leads a new one |
| Coalescer.WakeGivesLeaderResponse | middleware/singleflight/singleflight.go:210-241 | a woken waiter replays status, headers and all bytes exactly when the leader neither panicked, overflowed nor streamed, marked X-Coalesced exactly when configured, and otherwise fails with that reason |
| Coalescer.WaiterCanFinish | middleware/singleflight/singleflight.go:283-317 | once the leader's handler has ended, three steps wake a waiter |
| Gzip.PiecesAreBody | middleware/compression/gzip.go:297-314 | writing a body in chunks loses nothing |
| Gzip.GzipResponseWriter.Bypass | middleware/compression/gzip.go:289-317 | giving up compression sends the head without a coding, the buffered bytes and then the new ones, all plain |
| Gzip.GzipResponseWriter.constructor | middleware/compression/gzip.go:100-104 | a fresh writer has seen no calls |
| Gzip.GzipResponseWriter.EditHeader | middleware/compression/gzip.go:215-221 | header edits reach the buffer, and keep the invariant |
| Gzip.GzipResponseWriter.WriteHeader | middleware/compression/gzip.go:223-252 | the first status line defers, refuses or chooses compression; later ones are ignored |
| Gzip.GzipResponseWriter.Write | middleware/compression/gzip.go:254-345 | every write reaches the client in one coding; the capture buffer is empty afterwards |
| Gzip.GzipResponseWriter.Flush | middleware/compression/gzip.go:420-443 | without compression the head is sent and the rest passes through; inside a gzip stream a sync flush is added |
| Gzip.GzipResponseWriter.Finalize | middleware/compression/gzip.go:183-213 | the body is complete and decodes to what was written; after a panic nothing is sent that was not begun |
| Gzip.Serve | middleware/compression/gzip.go:73-117 | over every call sequence: decodes to the writes; gzip exactly when a write starts the stream; gzip announced exactly over gzip bodies barring the flush hazard on a writer that can be flushed; status as the handler set it, and the other fields when not edited late; no length announced over a gzip body |
| Gzip.GzippedIff | middleware/compression/gzip.go:223-401 | the stream is started at a write of at most the limit exactly when no bytes came before and an earlier status line or empty write chose compression, or nothing is decided and the head, with a missing type read off the bytes, is compressible |
| Gzip.ChosenIff | middleware/compression/gzip.go:223-401 | compression is chosen and nothing written exactly when some call chose it and all writes were empty |
| Gzip.CompressibleIff | middleware/compression/gzip.go:368-401 | compressible exactly for a status below 400, a content type, no coding, and a type that in any letter case neither mentions stream or websocket nor starts like a binary one |
| Gzip.EarlyFlushIff | middleware/compression/gzip.go:420-428 | an early flush is one after a call that chose compression with no bytes written before it |
| Gzip.HazardIff | middleware/compression/gzip.go:420-428 | the hazard is an early flush followed by a small write as the first bytes, nothing else |
| Gzip.HazardAfterFlush | middleware/compression/gzip.go:420-428 | status, flush, then a small write meets the hazard, for every compressible response |
| Gzip.HazardExample | middleware/compression/gzip.go:420-428 | a concrete such response |
| Timeout.TimeoutResponseWriter.WriteHeader | internal/httputil/buffered_response.go:63-69 | the first status counts |
| Timeout.TimeoutResponseWriter.Write | middleware/timeout/timeout.go:192-221 | refuses after expiry; keeps the whole body or marks it oversized, by the total written in time |
| Timeout.TimeoutResponseWriter.Result | middleware/timeout/timeout.go:223-235 | an error exactly when the bytes in time exceed a limit, else the status of the first call that chose one, the header of the last edit with nosniff, and every byte written in time |
| Timeout.ReplayComplete | middleware/timeout/timeout.go:192-197 | what was written in time is all that was written exactly when no bytes came after expiry |
| Timeout.EveryRunOk | middleware/timeout/timeout.go:110-162 | after every run either both sides met with one result or neither did |
| Timeout.NeverStuck | middleware/timeout/timeout.go:119-155 | once the handler returned some closing step is open until both are done; no step adds work |
| Timeout.EndsFromHere | middleware/timeout/timeout.go:119-155 | from there at most three closing steps end both goroutines |
| Timeout.OneFate | middleware/timeout/timeout.go:119-162 | both met or both left through the context; a panic is re-raised or reported, once and never both |
| Timeout.ReplyIsFinal | middleware/timeout/timeout.go:119-142 | the buffer is read after the handler's last call, so no continuation changes the reply |
| Timeout.NeverTruncated | middleware/timeout/timeout.go:130-142 | an error exactly when the bytes in time exceed the buffer or the replay limit; a replay is complete exactly when no bytes came after expiry |
| Timeout.CallsAreMade | middleware/timeout/timeout.go:110-135 | in every interleaving the recorded calls are those made before the handler ended, writes marked expired exactly after the deadline |
| Timeout.ReplayHead | middleware/timeout/timeout.go:130-142 | in every run a replay has the status of the first call that chose one, 200 for a write, zero or none, and the header of the last edit, with nosniff where that field is empty |
| Timeout.PartialReplay | middleware/timeout/timeout.go:110-145 | a run that replays one of two bytes |
| RequestId.EncodeBase62Fixed | middleware/requestid/generator.go:206-217 | the buffer loop yields the last `width` base-62 digits |
| RequestId.ValueOfEncode | middleware/requestid/generator.go:206-217 | those digits stand for the word exactly when it is below 62 to the width |
| RequestId.ValueOrder | middleware/requestid/generator.go:206-217 | ids of one width are ordered, and equal, as the numbers they stand for |
| RequestId.DecodeBase62 | middleware/requestid/generator.go:219-237 | succeeds exactly on base-62 text, with its number modulo 2 to the 64 |
| RequestId.Base62RoundTrip | middleware/requestid/generator.go:206-237 | every 64-bit word round-trips through eleven or more digits and no partial result overflows |
| RequestId.DecodedRoundTrip | middleware/requestid/generator.go:206-237 | encoding a decoded id gives it back exactly when its number fits 64 bits |
| RequestId.PackBits | middleware/requestid/generator.go:115-116 | packing with masks, shifts and ors is the arithmetic the model uses |
| RequestId.UnpackBits | middleware/requestid/generator.go:198-200 | and so is unpacking with shifts and masks |
| RequestId.UnpackPack | middleware/requestid/generator.go:198-200 | the three fields come back from the packed word |
| RequestId.BuildID | middleware/requestid/generator.go:108-119 | clamps, packs and encodes |
| RequestId.DecodeRequestID | middleware/requestid/generator.go:188-204 | succeeds exactly on 12 base-62 characters, with the fields of the word |
| RequestId.DecodeRecovers | middleware/requestid/generator.go:188-204 | decoding a built id recovers timestamp, random and sequence fields |
| RequestId.SameIdIffSameFields | middleware/requestid/generator.go:108-119 | two ids are equal exactly when all three fields are |
| RequestId.LaterIsLarger | middleware/requestid/generator.go:108-119 | within the window a later millisecond gives the larger text |
| RequestId.EveryRunOk | middleware/requestid/generator.go:80-106 | over every run of clock readings the stamps strictly grow |
| RequestId.NextStamp | middleware/requestid/generator.go:83-105 | a stamp in a later millisecond has sequence number 0, one in the same millisecond the next number |
| RequestId.IdsDistinctAndOrdered | middleware/requestid/generator.go:80-119 | over every run, backward clock jumps included, ids are pairwise distinct and ordered by millisecond |
| RequestId.DistinctIffSlotsFree | middleware/requestid/generator.go:80-119 | over a run, ids are distinct for all random fields if and only if no two stamps share sequence number and timestamp field |
| RequestId.RepeatsBeforeEpoch | middleware/requestid/generator.go:110-113 | two readings before the epoch give the same id |
| RequestId.Generator.Attempt | middleware/requestid/generator.go:83-105 | gives no id exactly when the clock has not passed a used-up millisecond; else the id of the new millisecond at 0 or of the old one at the next number |
| RequestId.Generator.Generate | middleware/requestid/generator.go:80-106 | retries until a reading is past a used-up millisecond |
| TokenBucket.Limiter.constructor | security/abuse/limiter.go:288-315 | a new limiter has no buckets |
| TokenBucket.Limiter.Allow | security/abuse/limiter.go:363-439 | takes one token from the key's bucket exactly when at least one is there, always for a new key; tokens stay within the capacity; remaining, wait and reset follow from the tokens left |
| TokenBucket.KeysAreIndependent | security/abuse/limiter.go:381-409 | with all other keys' calls left out, a key's bucket and decisions are the same |
| TokenBucket.RunWithin | security/abuse/limiter.go:397-409 | over every run tokens stay between zero and the capacity |
| TokenBucket.WaitIsExact | security/abuse/limiter.go:421-427 | after a refusal the next call is allowed exactly when the advertised wait has passed |
| TokenBucket.ResetIsFull | security/abuse/limiter.go:429-435 | with no call in between, the bucket is full exactly from the time the reset is computed from |
| TokenBucket.Conserved | security/abuse/limiter.go:397-409 | calls allowed plus tokens left never exceed the capacity plus what time added |
| TokenBucket.WindowBound | security/abuse/limiter.go:387-409 | in any window of any run a key is allowed at most capacity plus rate times length |
| TokenBucket.BucketIsDue | security/abuse/limiter.go:381-409 | over every run in clock order a bucket holds the capacity plus what time added since it was last full, less the calls allowed since |
| TokenBucket.AllowedIffDue | security/abuse/limiter.go:381-409 | a call is refused exactly when less than one token is due by that account; a first call never is |
| TokenBucket.BurstOfNewKey | security/abuse/limiter.go:381-409 | of a new key's calls at one instant exactly the first `capacity` are allowed |
| Semver.NumericIsNatural | internal/semver/version.go:231-252 | numeric identifiers of any length compare as their numbers |
| Semver.ComparePrerelease | internal/semver/version.go:185-217 | the loop compares identifier lists from the left |
| Semver.CompareAntisymmetric | internal/semver/version.go:145-183 | swapping the versions flips the sign, for all versions; metadata does not count |
| Semver.CompareIsPrecedence | internal/semver/version.go:145-252 | -1 exactly when the left has lower precedence by item 11 of Semantic Versioning 2.0.0, 1 exactly when the right has, for all versions |
| Semver.CompareTransitive | internal/semver/version.go:145-183 | transitive on versions without leading zeros (items 9 and 11 of Semantic Versioning 2.0.0) |
| Semver.CompareEqual | internal/semver/version.go:145-183 | such versions tie exactly when they differ at most in metadata |
| Semver.IllFormedTies | internal/semver/version.go:188-206 | a version with a leading zero ties two versions that do not tie each other |
| Semver.TiesIffWellFormed | internal/semver/version.go:145-252 | ties are transitive through a version exactly when it has no leading zeros |
| Semver.Select | internal/semver/version.go:303-309 | one round of the outer loop settles one more place |
| Semver.Sort | internal/semver/version.go:300-310 | sorts in place: always a permutation, in order of precedence for versions without leading zeros |
| KvStore.BytesRemove | store/kv/kv.go:440-450 | the byte total does not depend on the map's iteration order |
| KvStore.LiveShrinks | store/kv/kv.go:440-450 | as time passes the live total only falls |
| KvStore.EvictOldest | store/kv/kv.go:417-423 | one eviction keeps: victims no newer than survivors, a strictly newest entry kept, nothing evicted without need |
| KvStore.OldestIsNotNewest | store/kv/kv.go:426-438 | a strictly newest entry that fits is never the victim |
| KvStore.Store.constructor | store/kv/kv.go:63-82 | an opened store holds what pruning and eviction keep of the entries found, and is within its limits |
| KvStore.Store.PruneExpired | store/kv/kv.go:406-412 | exactly the entries whose expiry is now or earlier go |
| KvStore.Store.MemoryUsage | store/kv/kv.go:440-450 | the sum of the sizes of live entries |
| KvStore.Store.OldestKey | store/kv/kv.go:426-438 | a key with the earliest update, none only for an empty store |
| KvStore.Store.EvictIfNeeded | store/kv/kv.go:414-424 | terminates within the limits, having evicted oldest first and only as needed |
| KvStore.Store.SetContext | store/kv/kv.go:90-148 | fails for the first reason the source checks and then changes nothing; else keeps what eviction keeps with the entry added |
| KvStore.SetErrorCases | store/kv/kv.go:90-134 | each error, and success, exactly under its condition, with the size limit in bytes |
| KvStore.Store.DeleteContext | store/kv/kv.go:197-230 | removes exactly the key, or fails and changes nothing |
| KvStore.SetFits | store/kv/kv.go:119-147 | after Set, and from then on, the limits hold unless the new entry had expired by the last check |
| KvStore.LateRefreshFits | store/kv/kv.go:135-147 | in that case they hold exactly when the refreshed entry fits beside the others |
| KvStore.LateRefreshOverflows | store/kv/kv.go:135-147 | a store that eviction can leave and that ends over its limit this way |
| KvStore.SetKeepsNewest | store/kv/kv.go:119-147 | a new entry newer than all others and still alive is there afterwards with its value, time, size and expiry, expired by then only at the very instant of expiry; all other entries are unchanged old ones |

## Left out

- Router.Router.AddRoute: requires the first byte of every static segment to be below 0x80, because the index is misaligned otherwise; `Trie.InsertChild` and `Trie.NextInsertPanics` state the exact limit.
- Trie.Tree.Descend: the same restriction, and so for `Trie.Tree.DescendAll`, `Trie.Tree.Insert`, `Router.Graft`, `Router.Build` and `Router.RefusalsLeaveNoTrace`.
- Gzip.Serve: leaves out the requests that skip the writer, a successful hijack, write errors of the client and the wording of the Vary field; content sniffing is a parameter. The claims about header fields other than the coding assume no edits after the response is opened.
- Gzip.GzipResponseWriter.Write: leaves out the returned counts and write errors of the client.
- Singleflight.LimitedResponseRecorder.Write: leaves out write errors of the client.
- Coalescer.EveryRunOk: requests that bypass coalescing, the waiter counter and the hooks are not modelled; keys are given.
- Timeout.EveryRunOk: goroutine scheduling is any order of steps; fairness is not modelled, so progress is stated as open steps and a falling count.
- TokenBucket.Limiter.Allow: uses exact reals for floating point; eviction of buckets and sharding are not covered, and the laws over runs are for calls of a key in clock order.
- RequestId.Generator.Generate: the random pool is a parameter; the sleep between attempts is a list of clock readings.
- KvStore.Store.SetContext: the disk is an outcome given to each call, and entries are values, so sharing of entry objects is not captured.
- Semver: parsing, constraints and printing of versions.
- Static file serving, the frontend, file storage, websocket, gateway, health checks, messaging, JWT and password code: library calls or single-branch facts.
- Readers of the store other than eviction, statistics counters, loggers, metrics and tracing: only easy members.
- Middleware other than coalescing, gzip, timeout and request ids: only easy members.
