# Domus verification models

Dafny models of the stateful and algorithmic parts of the Domus control plane, desktop client and
knowledge service, with proofs of what they keep over whole runs. `dafny verify dfyconfig.toml`
checks all of it.

Where the program changes state step by step, the model is a class or a method with the same
branches, proved equal to a function of the old state; the properties are then proved about that
function and about runs of it. Concurrent parts are step machines: any number of callers or workers
advance one await or transaction at a time, in any order, and may stop for good anywhere. The
theorems named `...Exactly` tell what an operation answers from its inputs alone, with the program's
limits and names written out, and without the functions that specify it.

## Modules

| area | files |
|---|---|
| chat stream | `Text`, `Utf8`, `Json` (codecs), `ChatStream` (events, printer, parser), `ChatRoundTrip`, `ChatSafety`, `ChatExact`, `ChatSchema`, `ProviderStream` (the producer), `ChatSession` (reader and reducer) |
| budgets and the model gateway | `Budget`, `BudgetConservation`, `BudgetRuns`, `BudgetExact`, `ModelGateway`, `GatewayRuns`, `GatewayExact` |
| rate limits, concurrency, circuit breaker | `SlidingWindow`, `SlidingWindowRuns`, `SlidingWindowExact`, `Concurrency`, `Circuit`, `CircuitCalls`, `RedisResilience`, `RedisRuns` |
| connector synchronization | `Base64Url`, `Connector`, `ConnectorExact`, `ConnectorRuns`, `ConnectorPages` |
| model catalog and routing | `FallbackGraph`, `Routing`, `RouteChoice` |
| policy composition and cache | `Policy`, `PolicyMeaning`, `PolicyExact`, `PolicyCache`, `PolicyRuns` |
| knowledge algorithms | `Retrieval`, `RetrievalExact`, `Traversal`, `Taxonomy`, `Spans` |
| shared | `Results`, `Distinctness`, `Order`, `Sorting` |

## Where the code differs from what one might expect

Each of these is shown on a concrete input or family of inputs, beside the exact statement of what
the code does.

- The parser's size check on an unfinished buffer counts the first line feed of the blank line, so a
  frame of exactly the maximum size can fail when it is cut there (`ChatRoundTrip.CuttingFails`,
  `RoundTripExactly`, `ChatExact.AcceptedExactly`).
- The parser takes an empty request id for no id, so events of two requests pass exactly when the
  first has an empty id (`ChatRoundTrip.EmptyIdLetsRequestsMix`, `ChatExact.MixedRequestsExactly`).
- The end of a stream is only checked when a push begins: events behind a terminal in the same chunk
  are accepted (`ChatExact.TerminalIsNotLast`, `AcceptedExactly`, `EveryCutExactly`).
- A call that names one limiter key m times is recorded m times, and a window can hold limit + m - 1
  (`SlidingWindowExact.BoundIsAttained`, `LimiterWindowBound`); the limit itself is kept exactly when
  every admitted call had room for all its mentions (`WindowsFitExactly`). The concurrency limiter does
  likewise (`Concurrency.BoundIsAttained`, `WithinLimitExactly`). When limits of a key vary
  between calls, the reported wait can be too short, never too long
  (`SlidingWindowRuns.VaryingLimitsUnderstate`); `SlidingWindowExact.RetryAfterExactly` says when it
  is exact.
- A half-open circuit is decided by the first outcome recorded, also when it is that of a call
  admitted before the circuit opened (`CircuitCalls.LateOutcomeDecides`, `ProbeDecidesExactly`).
- A scope named twice in one shared acquisition leaks a counter (`RedisRuns.RepeatedScopeLeaks`,
  `CountersReturnExactly`).
- A shared lease held for more than three windows loses its own set, while other acquisitions keep
  the counter of its scope alive; its release then lowers nothing (`RedisRuns.StaleLeaseSticks`,
  `ReleaseRestoresExactly`, `CounterIsLivingExactly`).
- The database and the domain functions differ on retry times and on the cursor after the last page
  (`Connector.AcquireLayersAgreeExactly`, `CommitLayersAgreeExactly`). The runs follow the database.
- A NUL character inside an external identifier, a version or a checksum gives two items one dedupe key
  (`ConnectorPages.CollidesExactly`, `NulInId`, `NulInVersion`, `NulInChecksum`).
- Publishing checks one graph and writes to the one it finds later: overlapping publications can make
  a cycle (`FallbackGraph.OverlappingPublicationsCanCycle`). What one write keeps is exact
  (`WritingKeepsExactly`). The depth of other models is not kept (`DepthOfOthersIsNotKept`,
  `RoutableAfterPublishing`).
- Were a policy scope ever loaded twice, a cached permission would outlive the conflict
  (`PolicyCache.DuplicateScopeIsMissed`, `EntryAgreesExactly`); the unique index rules that out
  (`LoadsAtMostOne`).
- `bounded_traverse` counts rows only while it follows an edge, so roots alone may be more than
  `max_rows` (`Traversal.RootsAreNotCounted`, `BoundedTraverse`).
- A taxonomy term whose parent comes later in the list and has an unknown parent itself ends in a
  `KeyError` rather than `TAXONOMY_PARENT_UNKNOWN` (`Taxonomy.UnknownGrandparent`).

## Assumptions

- A transaction, a Redis script and the code between two awaits each run as one step.
- A hash is an injective identifier, and stored JSON comes back as it was.
- Scores, ratios and random numbers are reals; other numbers are unbounded integers, with the source's
  own range checks written out.
- A JSON reader gives the members of an object, each a string, a natural number or a list of strings.
  A value of another kind is taken as a number out of range, which the checks treat alike (a negative
  event number is then a schema error rather than one of sequence), and a text that is no object as an
  object without members.
- Characters are Unicode scalar values; lengths that JavaScript counts are counted in UTF-16 units.
- The Redis server's clock, which expires keys, agrees with the callers'; a key is there through the
  millisecond at which it expires.
- The clocks handed to a limiter do not go back; lease ids are used once; a `(policy_id, version)` row
  is never rewritten. Each theorem names the ones it needs.

## Model

| member | source | states |
|---|---|---|
| Json.ParsePrint | apps/control-plane/src/interfaces/http/gateway/routes.ts:14 | Parsing undoes printing for every object of an event, with all string escapes. |
| Json.PrintIsOneLine | apps/control-plane/src/interfaces/http/gateway/routes.ts:14 | A printed object has no line break, so it fits one `data:` line. |
| Json.EscapeExactly | apps/control-plane/src/interfaces/http/gateway/routes.ts:14 | Each character is written as JSON.stringify writes it: the short escapes, four hexadecimal digits for other control characters, and else itself. |
| Utf8.DecodeEncode | apps/desktop/src/main/domain/chat-stream.ts:18 | The streaming decoding proper gives back every encoded text and ends between characters. |
| Utf8.DecodeSplit | apps/desktop/src/main/domain/chat-stream.ts:19 | The decoding proper does not depend on where the bytes are cut, even inside a character, errors included. |
| ChatStream.SseParser.Push | apps/desktop/src/main/domain/chat-stream.ts:19 | One push moves the parser object exactly as the parsing function says: refusal after a terminal, UTF-8 failure, a byte order mark dropped at the start, the size check, then every complete frame. |
| ChatStream.SseParser.TakeFrames | apps/desktop/src/main/domain/chat-stream.ts:19 | The loop of `push` returns exactly the events of the complete frames, in order, up to the first error. |
| ChatStream.ReadFrame | apps/desktop/src/main/domain/chat-stream.ts:19 | The line loop collects the id, event and data members of one frame. |
| ChatRoundTrip.JsonReadsBack | apps/desktop/src/main/domain/chat-stream.ts:19 | The modelled JSON reader undoes the printing of events, as the round trips ask of a reader. |
| ChatRoundTrip.PrintedEventIsValid | apps/desktop/src/main/domain/chat-stream.ts:6-14 | The schema check accepts a printed event if and only if the event is acceptable, and reads back its type, id and number. |
| ChatRoundTrip.InterpretFrame | apps/desktop/src/main/domain/chat-stream.ts:19 | A printed frame at its place in the stream is read back as the printed event. |
| ChatRoundTrip.DrainStream | apps/desktop/src/main/domain/chat-stream.ts:19 | Draining a buffer that begins a printed stream takes exactly the frames that are complete. |
| ChatRoundTrip.RoundTrip | apps/desktop/src/main/domain/chat-stream.ts:17-20 | For every reader that undoes the printing of events, every stream numbered from 0 with its terminal last and every cutting into non-empty chunks, the parser returns exactly the printed events and keeps nothing back. |
| ChatRoundTrip.CuttingFails | apps/desktop/src/main/domain/chat-stream.ts:19 | A frame as long as the limit has a cutting on which the parser fails with the size error. |
| ChatRoundTrip.RoundTripExactly | apps/desktop/src/main/domain/chat-stream.ts:19 | The round trip of a stream survives every cutting if and only if every frame is strictly below the limit. |
| ChatRoundTrip.ParseChunksAppend | apps/desktop/src/main/domain/chat-stream.ts:19 | Parsing chunks in two goes equals parsing them in one. |
| ChatRoundTrip.EmptyIdLetsRequestsMix | apps/desktop/src/main/domain/chat-stream.ts:19 | A stream whose first event has an empty request id and whose second has another is accepted whole. |
| ChatSafety.AcceptedEventsAreConsecutive | apps/desktop/src/main/domain/chat-stream.ts:19 | On any bytes and with any JSON reader the accepted events are numbered without gap or repeat and agree on the request once its id is not empty. |
| ChatSchema.SchemaExactly | apps/desktop/src/main/domain/chat-stream.ts:6-14 | An object meets the schema if and only if its keys are among the twelve, version, request, number, type and time are there, a delta has a text, a completed event one of the eight states, and there are at most 100 references of 1 to 128 units, all written out. |
| ChatSchema.PrintedExactly | apps/desktop/src/main/domain/chat-stream.ts:19 | What is printed of any event, pushed alone, is accepted as that event if and only if it fits, meets the schema written out, and has the next number and the request of the stream; each refusal has its error. |
| ChatSchema.FrameExactly | apps/desktop/src/main/domain/chat-stream.ts:19 | Any frame pushed alone, with any JSON reader: carriage returns are dropped, comments passed over, the last id and event lines and all data lines count, and the answer and the parser behind it follow from the text as written out. |
| ChatSchema.AcceptedAreFramed | apps/desktop/src/main/domain/chat-stream.ts:19 | On any bytes and with any JSON reader, every accepted event stands in a frame of the text that is not over the limit, whose id line is the decimal of its number, whose event line is its type and whose data are read as it. |
| ChatSchema.AcceptedAreAdmissible | apps/desktop/src/main/domain/chat-stream.ts:6-19 | Over every run of pushes all that is accepted meets the schema written out. |
| ChatSafety.MarkIsDroppedExactly | apps/desktop/src/main/domain/chat-stream.ts:18-19 | Text sent to a fresh parser arrives whole if and only if it does not begin with a byte order mark, and without the mark otherwise. |
| ChatRoundTrip.SequencedExactly | apps/desktop/src/main/domain/chat-stream.ts:17-20 | Events in sequence whose frames are not over the limit, cut anywhere, are accepted if and only if no chunk begins after the end of a terminal event and none stays inside a frame of exactly the limit to end one byte before the end of its blank line. |
| ChatExact.AcceptedExactly | apps/desktop/src/main/domain/chat-stream.ts:17-20 | Printed events that each meet the schema, cut anywhere, are accepted if and only if they are numbered from 0, never leave a request id that is not empty, have no frame over the limit, no chunk begins after the end of a terminal, and none stays inside a frame of exactly the limit to end one byte before the end of its blank line; accepted, they come back all and in order. |
| ChatExact.EveryCutExactly | apps/desktop/src/main/domain/chat-stream.ts:17-20 | Every cutting of such events is accepted if and only if they are a stream with its terminal last and every frame is strictly below the limit. |
| ChatExact.TerminalIsNotLast | apps/desktop/src/main/domain/chat-stream.ts:19 | Two terminal events in one chunk are both accepted. |
| ChatExact.MixedRequestsExactly | apps/desktop/src/main/domain/chat-stream.ts:19 | Accepted events are of more than one request if and only if the first one sent has an empty id and a later one has not. |
| ChatSafety.Cutting | apps/desktop/src/main/domain/chat-stream.ts:19 | Cutting one push in two never changes what is parsed: it can only turn acceptance into the size error or into the refusal after a terminal; a refused first half is refused uncut for the same reason or for broken UTF-8 behind it, size apart. |
| ChatSession.Receive | apps/desktop/src/main/infrastructure/control-plane-chat-transport.ts:4-5 | The reading loop delivers the events of the accepted chunks and reports how the stream ended. |
| ChatSession.DeliveredIsParsed | apps/desktop/src/main/infrastructure/control-plane-chat-transport.ts:4-5 | What the loop delivers is what the parser makes of all chunks, or, when it refuses one, of the chunks before that one. |
| ChatSession.EndingExactly | apps/desktop/src/main/infrastructure/control-plane-chat-transport.ts:4-5 | The loop has finished if and only if the last event is completed, cancelled or failed; after any other it was interrupted, after none the connection failed. |
| ChatSession.FoldStream | apps/desktop/src/main/domain/chat-state.ts:5-13 | Folding a stream appends the delta texts in order and ends in the phase of its last event; a completed one sets the state and the references shown, a failed one the code, and nothing else touches them. |
| ChatSession.ShownTextIsStreamedText | apps/desktop/src/main/domain/chat-state.ts:5-13 | From the gateway to the screen: the shown text is the concatenation of the gateway's deltas, for every cutting of the bytes. |
| ChatSession.InterruptedIsFinal | apps/desktop/src/main/domain/chat-state.ts:5-13 | An interrupted stream keeps the text shown so far, is inconclusive, and no later event is taken. |
| ProviderStream.Relay.Consume | apps/control-plane/src/application/gateway/consume-provider-stream.ts:3-7 | For every sequence of chunks, aborts, timeouts and failures: events numbered from 0, `started` first, one terminal last, none with more than its own members, deltas equal to the accepted texts and within both limits, and the outcome and code that the deciding turn calls for. |
| ProviderStream.JudgeExactly | apps/control-plane/src/application/gateway/consume-provider-stream.ts:5-6 | What one turn leads to: cancellation before asking, then timeouts and a broken iterator, then cancellation while waiting, the end of the iterator, the limits, and completion with a receipt and its amount. |
| Budget.AdmitBudget | apps/control-plane/src/domain/budget/budget.ts:3 | The loop returns exactly the set of reasons that the request and its rows give. |
| Budget.BudgetRepository.Reserve | apps/control-plane/src/infrastructure/postgres/budget-repository.ts:6-8 | The transaction changes the tables as the reservation function says, or not at all. |
| Budget.BudgetRepository.Reconcile | apps/control-plane/src/infrastructure/postgres/budget-repository.ts:9 | The transaction settles as the settlement function says, or changes nothing. |
| BudgetConservation.AdmittedExactly | apps/control-plane/src/domain/budget/budget.ts:3 | A request is admitted if and only if its amount is well formed and its one to five rows have different scope types, its currency, are not blocked, and have room. |
| BudgetConservation.ReserveEffect | apps/control-plane/src/infrastructure/postgres/budget-repository.ts:6-8 | A fresh reservation holds its estimate once in each named budget and nowhere else; any other outcome changes nothing. |
| BudgetExact.ReasonsExactly | apps/control-plane/src/domain/budget/budget.ts:3 | Each reason against a request is given if and only if what it names is the case, written out. |
| BudgetExact.ReserveExactly | apps/control-plane/src/infrastructure/postgres/budget-repository.ts:6-8 | With a free key: refused for a missing scope, else for exactly the reasons that hold, else for a taken id or a failing statement, without change; otherwise exactly one row and one ledger entry are written, member by member. |
| BudgetExact.ReplayExactly | apps/control-plane/src/infrastructure/postgres/budget-repository.ts:6 | With a taken key: the stored row for the same fingerprint, a conflict for another, and no change. |
| BudgetConservation.ReserveKeepsBalanced | apps/control-plane/src/infrastructure/postgres/budget-repository.ts:6-8 | Reserving keeps every budget equal to the totals of its reservations and within its bounds. |
| BudgetRuns.ReconcileEffect | apps/control-plane/src/infrastructure/postgres/budget-repository.ts:9 | Settling moves the held amount out and the actual amount in, in exactly the allocated budgets, and blocks exactly those of them that it leaves over their limit; it never unblocks one. |
| BudgetExact.SettlingExactly | apps/control-plane/src/infrastructure/postgres/budget-repository.ts:9 | Settling an open reservation reports and stores the state, the released amount and the overage that the actual and the reserved amount call for, keeps the rest of the row, and writes one ledger entry; a negative amount and a failing statement change nothing. |
| BudgetExact.SettledExactly | apps/control-plane/src/infrastructure/postgres/budget-repository.ts:9 | A settled reservation replays the same receipt and amount and refuses any other, without change. |
| BudgetExact.BlockedExactly | apps/control-plane/src/infrastructure/postgres/budget-repository.ts:9 | Over every run a budget is blocked if and only if it was before or some settlement of the run left it over its limit. |
| BudgetRuns.RunConserves | apps/control-plane/src/infrastructure/postgres/budget-repository.ts:6-9 | Over every run, `reserved` is the sum of open allocations, `committed` the sum of settled actuals, the limit holds unless blocked and is passed by at most the overages, and the ledger has one entry per reservation and one more once settled. |
| BudgetRuns.SettledIsFinal | apps/control-plane/src/infrastructure/postgres/budget-repository.ts:9 | Whatever run follows, reservations are never removed, keep what they were opened with, and a settled one never changes. |
| BudgetRuns.SettleAgain | apps/control-plane/src/infrastructure/postgres/budget-repository.ts:9 | After any run in between, settling again with the same receipt and amount replays the stored row, with another is a conflict; neither changes anything. |
| ModelGateway.StepEnds | apps/control-plane/src/application/gateway/execute-model-request.ts:9-22 | Every await brings a call closer to its end and adds at most the next effect of the fixed order. |
| ModelGateway.Gateway.Execute | apps/control-plane/src/application/gateway/execute-model-request.ts:9-22 | An uninterrupted call is the run of its awaits; and, told from the command and the answers alone: each refusal before the reservation if and only if its dependency answered so, without effect or change, and after it the effects, the tables and the outcome, COMMITTED if and only if the actual amount is within the estimate. |
| GatewayRuns.OneInvocationPerKey | apps/control-plane/src/application/gateway/execute-model-request.ts:15-19 | Over every interleaving of calls that may stop at any await, no two provider invocations and no two settlements share a tenant and idempotency key, each follows its reservation and admission audit, and the budget invariant holds. |
| GatewayExact.CallsFollowAnswers | apps/control-plane/src/application/gateway/execute-model-request.ts:9-22 | Over every interleaving and for every call: it reserved only after its own policy, router and egress answers let it through, and the table holds that very admission; it invoked the provider only after its admission was audited, settled what the provider returned, and its outcome is what the await that ended it was answered. |
| GatewayRuns.TakenKeyStops | apps/control-plane/src/application/gateway/execute-model-request.ts:15-16 | A call that finds its key taken stops without effect, whatever the stored reservation's state. |
| SlidingWindow.Limiter.Admit | apps/control-plane/src/domain/gateway/resilience.ts:2 | The two loops decide and record as the admission function says. |
| SlidingWindow.NewLimiter | apps/control-plane/src/domain/gateway/resilience.ts:2 | A limiter is built if and only if its window is at least one millisecond. |
| SlidingWindowRuns.AdmitRefines | apps/control-plane/src/domain/gateway/resilience.ts:2 | The pruned lists decide exactly as the full history of admitted calls would, and keep agreeing with it. |
| SlidingWindowRuns.RunRefines | apps/control-plane/src/domain/gateway/resilience.ts:2 | In every run with a clock that does not go back, the next decision is the one on the full history. |
| SlidingWindowExact.LimiterAdmitsAsDescribed | apps/control-plane/src/domain/gateway/resilience.ts:2 | The calls the limiter admits in a run are those that the description on the full history admits. |
| SlidingWindowExact.LimiterWindowBound | apps/control-plane/src/domain/gateway/resilience.ts:2 | No interval (t-windowMs, t] holds more calls that the limiter admitted under a key than its limit, plus m-1 when a call may name the key m times. |
| SlidingWindowExact.AdmissionKeepsLimitExactly | apps/control-plane/src/domain/gateway/resilience.ts:2 | One admission keeps the window that ends with it within the limit if and only if the window before it has room for all mentions of the key. |
| SlidingWindowExact.WindowsFitExactly | apps/control-plane/src/domain/gateway/resilience.ts:2 | Over a run no window passes the limit if and only if every admitted call had room for all its mentions of the key, whatever keys are repeated. |
| SlidingWindowExact.BoundIsAttained | apps/control-plane/src/domain/gateway/resilience.ts:2 | The excess limit+m-1 is reached by the limiter for every limit and every number m of mentions. |
| SlidingWindowRuns.AllowedExactlyAfterWait | apps/control-plane/src/domain/gateway/resilience.ts:2 | With nothing admitted in between, a call is allowed after d milliseconds if and only if d reaches the true wait. |
| SlidingWindowRuns.RetryAfterIsExact | apps/control-plane/src/domain/gateway/resilience.ts:2 | On any history the reported wait is never too long, and it is exact when no named key holds more than its limit. |
| SlidingWindowExact.WaitIsTrueExactly | apps/control-plane/src/domain/gateway/resilience.ts:2 | The reported wait is the true one if and only if for each full key the oldest call of some full key leaves no earlier than it has room again. |
| SlidingWindowExact.RetryAfterExactly | apps/control-plane/src/domain/gateway/resilience.ts:2 | In every run of the limiter a refused call, asked again after d milliseconds, is allowed if and only if d reaches the reported wait - for every d if and only if that condition holds. |
| SlidingWindowExact.RetryAfterOfFixedLimits | apps/control-plane/src/domain/gateway/resilience.ts:2 | With distinct keys and one limit per key every wait that `admit` reports is exact. |
| SlidingWindowRuns.VaryingLimitsUnderstate | apps/control-plane/src/domain/gateway/resilience.ts:2 | When a key's limit is lowered between calls the reported wait can be too short. |
| SlidingWindowRuns.FixedLimitsStayWithin | apps/control-plane/src/domain/gateway/resilience.ts:2 | With distinct keys and one limit per key no key ever holds more than its limit, so the reported wait is exact. |
| Concurrency.ConcurrencyLimiter.Acquire | apps/control-plane/src/domain/gateway/resilience.ts:3 | Acquiring checks every limit first and then raises every counter, or changes nothing. |
| Concurrency.AcquireExactly | apps/control-plane/src/domain/gateway/resilience.ts:3 | Invalid if and only if some limit is below one, refused if and only if all are valid and some key is at its limit, without change; else every counter rises by the mentions of its key. |
| Concurrency.ConcurrencyLimiter.Release | apps/control-plane/src/domain/gateway/resilience.ts:3 | A release handle lowers the counters of its own lease, once. |
| Concurrency.RunCounts | apps/control-plane/src/domain/gateway/resilience.ts:3 | In every run each counter is the number of live leases that name its key. |
| Concurrency.ReleaseIsIdempotent | apps/control-plane/src/domain/gateway/resilience.ts:3 | Releasing again changes nothing, whatever run of operations happened in between. |
| Concurrency.WithinLimit | apps/control-plane/src/domain/gateway/resilience.ts:3 | In every run in which a key has one limit and no call names it more than m times, at most limit+m-1 live leases are on it. |
| Concurrency.WithinLimitExactly | apps/control-plane/src/domain/gateway/resilience.ts:3 | A run never has more than the limit of live leases on a key if and only if every admitted call had room for all its mentions of the key, whatever keys are repeated. |
| Concurrency.BoundIsAttained | apps/control-plane/src/domain/gateway/resilience.ts:3 | The excess limit+m-1 is reached for every limit and every number m of mentions. |
| Circuit.CircuitBreaker.Admit | apps/control-plane/src/domain/gateway/resilience.ts:4 | Admission wakes an expired open circuit, lets one probe through and reports the wait otherwise. |
| Circuit.CircuitBreaker.Record | apps/control-plane/src/domain/gateway/resilience.ts:4 | Recording keeps the window of outcomes and decides the circuit as the recording function says. |
| Circuit.NewBreaker | apps/control-plane/src/domain/gateway/resilience.ts:4 | A breaker is refused if and only if the window is smaller than the samples, these or the open time are below one, or the ratio is not in (0, 1]. |
| Circuit.WindowIsRecent | apps/control-plane/src/domain/gateway/resilience.ts:4 | In every run the kept outcomes are the last `windowSize` since the last close, and a closed circuit is below the failure ratio. |
| Circuit.OpensExactly | apps/control-plane/src/domain/gateway/resilience.ts:4 | A closed circuit opens, at that time, if and only if of the last `windowSize` outcomes since the last close there are enough and the failures among them reach the ratio. |
| Circuit.OpenAdmitsNothing | apps/control-plane/src/domain/gateway/resilience.ts:4 | Until `openMs` after opening nothing is admitted, whatever is recorded meanwhile. |
| Circuit.OneProbe | apps/control-plane/src/domain/gateway/resilience.ts:4 | A half-open circuit admits one call until an outcome is recorded. |
| Circuit.OthersWait | apps/control-plane/src/domain/gateway/resilience.ts:4 | Beside the probe every call is refused with the whole open time as its wait. |
| Circuit.FailedProbeReopens | apps/control-plane/src/domain/gateway/resilience.ts:4 | A failed probe opens the circuit anew: nothing is admitted for the whole open time, whatever is recorded, and the next probe goes out exactly then. |
| Circuit.SuccessfulProbeCloses | apps/control-plane/src/domain/gateway/resilience.ts:4 | A successful probe closes the circuit and forgets its outcomes: every call is admitted until `minimumSamples` new ones are recorded. |
| Circuit.OpenWaitIsExact | apps/control-plane/src/domain/gateway/resilience.ts:4 | The wait reported while open is the exact time of the next admission. |
| CircuitCalls.ProbeDecidesExactly | apps/control-plane/src/domain/gateway/resilience.ts:4 | In every continuation of an open circuit that records each admitted call at most once, the first outcome to meet it half-open is its probe's if and only if no call admitted before is still unrecorded. |
| CircuitCalls.LateOutcomeDecides | apps/control-plane/src/domain/gateway/resilience.ts:4 | Two calls out, the first to answer fails and opens the circuit, the probe goes out, and the other old call's success closes it with the probe unanswered. |
| RedisResilience.RedisStore.Acquire | apps/control-plane/src/infrastructure/redis/resilience-store.ts:2 | The acquire script changes sets, counters and leases with their expiry as its function says, answers a refusal with the window as waiting time, and refuses a call without scopes. |
| RedisResilience.RedisStore.Release | apps/control-plane/src/infrastructure/redis/resilience-store.ts:3 | The release script lowers the living counters of the scopes of a living lease, deletes it and counts its scopes. |
| RedisResilience.ReleaseExactly | apps/control-plane/src/infrastructure/redis/resilience-store.ts:3 | On any data the release script lowers, by one, the counters that are there and positive of the scopes of a lease that is there, keeps their expiry and removes the lease; nothing else changes. |
| RedisRuns.AcquireRefines | apps/control-plane/src/infrastructure/redis/resilience-store.ts:2 | For a new lease id, distinct scopes and a clock that does not go back, the script answers and records as the description does. |
| RedisRuns.ReleaseRefines | apps/control-plane/src/infrastructure/redis/resilience-store.ts:3 | The release script takes a lease in time off the counters it is on, or does nothing for an old lease or another name. |
| RedisRuns.RunTracks | apps/control-plane/src/infrastructure/redis/resilience-store.ts:2-3 | In every run of distinct scopes, new lease ids and a clock that does not go back, the Redis data with their expiry agree with the admissions and the leases that count. |
| RedisRuns.ScriptsDecideExactly | apps/control-plane/src/infrastructure/redis/resilience-store.ts:2-3 | After every such run an acquisition is allowed if and only if each scope has fewer recent admissions and fewer counting leases than its limits, each counter is the number of leases that count on it, and a second release changes nothing. |
| RedisRuns.ReleaseRestoresExactly | apps/control-plane/src/infrastructure/redis/resilience-store.ts:2-3 | The release of a lease lowers the counter of each of its scopes by one if and only if the lease is at most three windows old, however busy the scope is. |
| RedisRuns.CounterIsLivingExactly | apps/control-plane/src/infrastructure/redis/resilience-store.ts:2-3 | After every such run a counter is the number of leases neither released nor older than three windows if and only if none of the leases that count on it since it began is older. |
| RedisRuns.RateWaitIsEnough | apps/control-plane/src/infrastructure/redis/resilience-store.ts:2 | Once the waiting time of a refusal has passed since the last command, no scope is over its rate limit. |
| RedisRuns.StaleLeaseSticks | apps/control-plane/src/infrastructure/redis/resilience-store.ts:2-3 | A lease held over three windows on a scope used meanwhile stays on the counter after its release. |
| RedisRuns.RepeatedScopeLeaks | apps/control-plane/src/infrastructure/redis/resilience-store.ts:2-3 | From any data and for each key, entering under a new lease and releasing it in time leaves the counter higher by the repeats of its scope. |
| RedisRuns.CountersReturnExactly | apps/control-plane/src/infrastructure/redis/resilience-store.ts:2-3 | That brings every counter of the call back if and only if the call names no scope twice. |
| Base64Url.RoundTrip | apps/control-plane/src/infrastructure/source/deterministic-connector.ts:2 | Decoding undoes encoding for every byte string in the URL-safe alphabet of section 5 of RFC 4648. |
| Connector.CursorRoundTrip | apps/control-plane/src/infrastructure/source/deterministic-connector.ts:2 | A cursor leads back to the offset it was made for. |
| Connector.ConnectorRepository.Acquire | apps/control-plane/src/infrastructure/postgres/connector-repository.ts:5 | Acquiring takes the lease and a new token in one update, or changes nothing. |
| Connector.ConnectorRepository.CommitPage | apps/control-plane/src/infrastructure/postgres/connector-repository.ts:6-7 | Committing inserts the page and moves the fenced row, or rolls everything back. |
| Connector.AcquireLayersAgreeExactly | apps/control-plane/src/domain/source/sync.ts:3 | Database and domain lease alike except on a ready row with a future retry time and on a backed-off row without one. |
| Connector.CommitLayersAgreeExactly | apps/control-plane/src/domain/source/sync.ts:4 | On a page both accept they write the same row if and only if more pages follow or there was no cursor. |
| ConnectorExact.AcquireExactly | apps/control-plane/src/infrastructure/postgres/connector-repository.ts:5 | A lease of five minutes and the next token are given if and only if the source is active, the row is ready or backed off, and its retry time and lease have passed; the rest of the row is kept. |
| ConnectorExact.CommitExactly | apps/control-plane/src/infrastructure/postgres/connector-repository.ts:6-7 | A page is accepted if and only if its items agree with each other and the table and the row is synchronizing under this owner, token and cursor version with its lease ending later; each error, the whole row and the whole table are given. |
| ConnectorExact.DomainCommitExactly | apps/control-plane/src/domain/source/sync.ts:4 | The domain accepts a page under the same lease, whatever the cursor version, if and only if it has a next cursor exactly when there is more; the whole row is given. |
| ConnectorExact.StaleLayersExactly | apps/control-plane/src/domain/source/sync.ts:4 | With insertable items the database calls a page stale if and only if the domain does or the cursor version is another. |
| ConnectorExact.FailExactly | apps/control-plane/src/domain/source/sync.ts:5 | A failure backs off, or gives up when it may not be retried or is the eighth; the lease is given up and the rest of the row kept. |
| ConnectorExact.PauseExactly | apps/control-plane/src/domain/source/sync.ts:6 | Every connection but a revoked one can be paused, with its reason, and gives up its lease. |
| ConnectorPages.ValidatePage | apps/control-plane/src/domain/source/connector.ts:12 | A page is refused as invalid if and only if it has over 500 items, over 8192 bytes of cursor, or a cursor without more; an item denied if and only if the page is sound and one of its ids, its access list or its classification is not, all written out. |
| ConnectorPages.ListedPageFits | apps/control-plane/src/domain/source/connector.ts:12 | Every page of the deterministic source meets the conditions on the page as a whole. |
| ConnectorPages.KeyTextExactly | apps/control-plane/src/domain/source/connector.ts:13 | For an item without NUL characters and any other one, the hashed texts are equal if and only if origin and key members are. |
| ConnectorPages.CollidesExactly | apps/control-plane/src/domain/source/connector.ts:13 | With a NUL-free origin another item or origin has the same hashed text if and only if the external id, the version or the checksum of the item holds a NUL. |
| ConnectorPages.NulInId | apps/control-plane/src/domain/source/connector.ts:13 | A NUL at any position of the identifier gives another key with the same hashed text. |
| ConnectorPages.RetryDelayBounds | apps/control-plane/src/domain/source/connector.ts:15 | The delay exists for attempts 1 to 8, stays in its doubling bound, and honours a requested delay up to five minutes. |
| ConnectorPages.RetryDelayExactly | apps/control-plane/src/domain/source/connector.ts:15 | The delay is the whole part of the random share of the doubling bound, capped at five minutes, and at least what was asked for up to that. |
| ConnectorPages.BackoffHasDelay | apps/control-plane/src/domain/source/connector.ts:15 | Whenever a failed synchronization backs off its attempt has a delay. |
| ConnectorRuns.PageShape | apps/control-plane/src/infrastructure/source/deterministic-connector.ts:2 | A listed page continues from its cursor and its next cursor is where it ends. |
| ConnectorExact.ListExactly | apps/control-plane/src/infrastructure/source/deterministic-connector.ts:2 | A page is refused if and only if its size is not 1 to 500 or its cursor is outside the source; otherwise it is as long as it can be and has a cursor exactly when there is more. |
| ConnectorRuns.RunIsFenced | apps/control-plane/src/infrastructure/postgres/connector-repository.ts:5-7 | Over every interleaving, tokens strictly increase with acquisitions, no older page is accepted after a newer acquisition, a lease exists exactly while synchronizing, and attempts stay within 8. |
| ConnectorRuns.RunIsTimely | apps/control-plane/src/infrastructure/postgres/connector-repository.ts:5-7 | Over every interleaving an accepted page comes less than 300000 milliseconds after the acquisition of its token. |
| ConnectorRuns.ExactlyOnce | apps/control-plane/src/infrastructure/postgres/connector-repository.ts:6-7 | Over every run with takeovers the dedupe table holds exactly the items before the stored cursor, and all items once a synchronization has completed. |
| ConnectorRuns.CompletedAddsNothing | apps/control-plane/src/infrastructure/postgres/connector-repository.ts:6-7 | After completion no replayed page or repeated synchronization changes the table. |
| ConnectorRuns.UninterruptedSyncExactly | apps/control-plane/src/infrastructure/postgres/connector-repository.ts:5-7 | An uninterrupted first synchronization ends ready with every item stored if and only if no two items share a key with different metadata; otherwise it stops on the conflict. |
| FallbackGraph.GraphChecker.Visit | apps/control-plane/src/application/catalog/publish-model.ts:10 | The walk with the shared set accepts exactly what the router's check with a path accepts, and gives the set back unchanged. |
| FallbackGraph.ValidGraph | apps/control-plane/src/application/catalog/publish-model.ts:8-11 | Fallbacks are accepted if and only if they are at most three, distinct, without the model itself, and every walk from it in the updated graph has at most four keys and stays inside. |
| FallbackGraph.ValidExactly | apps/control-plane/src/domain/catalog/model-router.ts:49 | The router accepts a model if and only if every walk from it has at most four keys and stays in the catalog. |
| FallbackGraph.WritingKeepsExactly | apps/control-plane/src/application/catalog/publish-model.ts:17-18 | Writing fallbacks keeps an acyclic closed graph so if and only if they are in it and none leads back to the model. |
| FallbackGraph.PublishingKeeps | apps/control-plane/src/application/catalog/publish-model.ts:17-18 | An accepted publication keeps the whole graph acyclic and closed. |
| FallbackGraph.RunKeeps | apps/control-plane/src/application/catalog/publish-model.ts:12-19 | So does every run of publications, one after the other. |
| FallbackGraph.LastPublicationCounts | apps/control-plane/src/application/catalog/publish-model.ts:12-19 | After such a run each model has the fallbacks of its last accepted publication, or those it had before. |
| FallbackGraph.OverlappingPublicationsCanCycle | apps/control-plane/src/application/catalog/publish-model.ts:17-18 | Two publications checked on the same graph can each be accepted and together make a cycle. |
| FallbackGraph.DepthOfOthersIsNotKept | apps/control-plane/src/application/catalog/publish-model.ts:17-18 | A publication can make another model's chain too deep to be routed. |
| FallbackGraph.RoutableAfterPublishing | apps/control-plane/src/domain/catalog/model-router.ts:49 | A routable model stays routable after another one is published if and only if, on the graph before, every walk from it to the published model and every walk on through its new fallbacks together have at most four keys. |
| Routing.CostIsCeiling | apps/control-plane/src/domain/catalog/model-router.ts:26-32 | The estimate is the exact ceiling of the cost: enough, and not one minor unit too many. |
| Routing.CostExactly | apps/control-plane/src/domain/catalog/model-router.ts:26-32 | There is an estimate if and only if every amount and the cost itself are safe integers; then it is the exact cost rounded up. |
| Routing.CheckExactly | apps/control-plane/src/domain/catalog/model-router.ts:36-42 | A model is eligible if and only if both states are active, policy allows model and classification, the model may see such data and can do all that is required, size, currency and cost fit, and both services agree; it fails if and only if the cost or a service that is asked does. |
| Routing.ByKeyExactly | apps/control-plane/src/domain/catalog/model-router.ts:48 | A key stands for the last catalog entry that has it. |
| Routing.SelectIsFirst | apps/control-plane/src/domain/catalog/model-router.ts:51 | `select` returns the first choice in depth-first preorder. |
| Routing.PreorderExactly | apps/control-plane/src/domain/catalog/model-router.ts:51 | Of two chains the one is tried first that the other goes on from, or that takes the earlier listed fallback where they part. |
| Routing.PreorderAreWalks | apps/control-plane/src/domain/catalog/model-router.ts:51 | Every chain of the preorder is a genuine fallback path of at most four keys. |
| Routing.WalksAreInPreorder | apps/control-plane/src/domain/catalog/model-router.ts:51 | Every fallback path is in the preorder. |
| Routing.SelectExactly | apps/control-plane/src/domain/catalog/model-router.ts:50-52 | Nothing is found if and only if every reachable model is ineligible; what is found is eligible and at the end of a genuine path. |
| RouteChoice.ChooseFromCatalog | apps/control-plane/src/domain/catalog/model-router.ts:55-58 | The loop and the sort give the first of the sorted candidates, or the failure of a dependency. |
| RouteChoice.BestIsLeast | apps/control-plane/src/domain/catalog/model-router.ts:55-58 | The choice is an eligible model that no eligible model precedes: lower priority numbers first, then lower costs, then the order of keys. |
| RouteChoice.ChoiceIgnoresCatalogOrder | apps/control-plane/src/domain/catalog/model-router.ts:55-58 | With the same answers about each model the choice does not depend on the order of the catalog. |
| RouteChoice.RoutePreferred | apps/control-plane/src/domain/catalog/model-router.ts:47-54 | With a preference: an invalid graph, no eligible model and a failed dependency each exactly; what is allowed is the first eligible chain in depth-first preorder, with its cost. |
| RouteChoice.RouteModel | apps/control-plane/src/domain/catalog/model-router.ts:44-61 | The whole decision, with the services asked anew at every visit; an allowed model qualifies, is in the catalog and was answered for. With a preference it is the first in preorder, without one the best, and each reason for denial is exact. |
| Sorting.SortSorts | apps/control-plane/src/domain/catalog/model-router.ts:57 | Sorting gives a sorted permutation. |
| Policy.Compose | apps/control-plane/src/domain/policy/policy-engine.ts:45-85 | The counting loop and the composition give the composed policy. |
| PolicyMeaning.AllowedExactly | apps/control-plane/src/domain/policy/policy-engine.ts:49-63 | A request is allowed if and only if each scope has exactly one layer, all are valid and have one currency. |
| PolicyExact.ComposedExactly | apps/control-plane/src/domain/policy/policy-engine.ts:40-85 | The whole policy by its layers: made for the request and its workspace, naming the first layer of each scope, allowed if and only if there is no reason, one reason for each missing and each doubled scope, mixed currencies and a layer that is not valid, in that order, their common currency or XXX, and nothing permitted when denied. |
| PolicyMeaning.GrantedExactly | apps/control-plane/src/domain/policy/policy-engine.ts:39-75 | A right is granted if and only if the request is allowed and every layer grants it. |
| PolicyExact.RightsInOrder | apps/control-plane/src/domain/policy/policy-engine.ts:39-43 | The granted rights stand in the order of the global layer, each once. |
| PolicyMeaning.AmountsAreLeast | apps/control-plane/src/domain/policy/policy-engine.ts:65-79 | An allowed request gets the least of each amount, member by member, in the currency of the layers, and insights if every layer allows them. |
| PolicyMeaning.VersionIsInjective | apps/control-plane/src/domain/policy/policy-engine.ts:69 | The joined version string tells scope, id and version of every ordered layer when ids hold no separator. |
| PolicyMeaning.SeparatorsCollide | apps/control-plane/src/domain/policy/policy-engine.ts:69 | With separators inside ids, which the uuid column of the database rules out, two different lists of layers would have one version string. |
| PolicyMeaning.SamePermissionExactly | apps/control-plane/src/domain/policy/policy-engine.ts:49-63 | Lists with the same first layers lead to the same permission if and only if no scope is doubled in the other. |
| PolicyCache.LoadsAtMostOne | migrations/000004_v1_103_policy.up.sql:31-34 | The unique index leaves at most one layer per scope to load. |
| PolicyCache.LoadedExactly | apps/control-plane/src/infrastructure/postgres/identity-repositories.ts:179-199 | A request gets the layers of published rows that are global, of its tenant, of its workspace there, or of the role of its member there, from global to role. |
| PolicyCache.KeyExactly | apps/control-plane/src/infrastructure/redis/policy-cache.ts:9-11 | Two requests share a cache entry if and only if tenant, workspace, user and device are the same. |
| PolicyCache.PolicyResolver.Resolve | apps/control-plane/src/application/policy/resolve-effective-policy.ts:28-58 | One resolution, with any dependency failing before or after it took effect, changes cache and audit as the resolution function says. |
| PolicyCache.ResolveExactly | apps/control-plane/src/application/policy/resolve-effective-policy.ts:32-58 | A revoked device is denied, a failing dependency makes the resolution unavailable, else the settled policy decides; it is audited unless something failed before and stored unless it came from the cache, also when the answer to the write is lost. |
| PolicyCache.EntryAgreesExactly | apps/control-plane/src/application/policy/resolve-effective-policy.ts:22-26 | A matching cache entry equals a fresh composition if and only if no scope is loaded twice. |
| PolicyCache.EffectiveAgrees | apps/control-plane/src/application/policy/resolve-effective-policy.ts:42-43 | A resolution settles on what a fresh composition gives, and it has not expired. |
| PolicyRuns.CacheAgrees | apps/control-plane/src/application/policy/resolve-effective-policy.ts:32-51 | In every interleaving of the awaits of any number of resolutions with policy changes and lost entries, one that ended is resolved if and only if the layers it read are sound, to what they compose to, composed less than five minutes before the time it read, with that decision as its one audit entry. |
| PolicyRuns.AloneIsResolve | apps/control-plane/src/application/policy/resolve-effective-policy.ts:28-58 | Not interleaved with anything, the awaits do what the resolution does as a whole, with every fault. |
| PolicyCache.DuplicateScopeIsMissed | apps/control-plane/src/infrastructure/redis/policy-cache.ts:26-35 | Should a scope be loaded twice, an older entry still allows what a fresh composition denies. |
| Retrieval.CursorRoundTrip | apps/knowledge-api/src/domus_knowledge/retrieval.py:42-62 | Decoding undoes encoding for every offset. |
| Retrieval.HybridSearch | apps/knowledge-api/src/domus_knowledge/retrieval.py:65-127 | The loop, the sort and the slice give the described page, with each error in its place. |
| Retrieval.HitsExactly | apps/knowledge-api/src/domus_knowledge/retrieval.py:87-124 | The matches are those of the authorized records among the scanned ones, no others. |
| RetrievalExact.SearchExactly | apps/knowledge-api/src/domus_knowledge/retrieval.py:65-127 | Each refusal in its turn, if and only if what it names is the case; otherwise the page is the part of the listing that cursor and limit say, with a cursor to its end if and only if the listing goes on. |
| RetrievalExact.ListedExactly | apps/knowledge-api/src/domus_knowledge/retrieval.py:87-124 | The listing has one hit for each of the first 200 records that belong to the tenant and workspace, an allowed source, asset and classification, are in force and safe, and have the index and policy asked for; each hit names its record and its score, in the order of score and chunk. |
| Retrieval.PageIsAt | apps/knowledge-api/src/domus_knowledge/retrieval.py:124-127 | Each page that a client reaches by cursors is the next slice of the listing. |
| Retrieval.FollowingEnumerates | apps/knowledge-api/src/domus_knowledge/retrieval.py:124-127 | Following the cursors gives every authorized match exactly once, in order, and stops. |
| Traversal.Follow | apps/knowledge-api/src/domus_knowledge/access_control.py:243-248 | Following the edges of one node adds exactly its targets, or fails when they are too many. |
| Traversal.ExpandLevel | apps/knowledge-api/src/domus_knowledge/access_control.py:238-249 | One level adds exactly the targets of the frontier, or fails exactly when a limit is passed. |
| Traversal.ReachIsWithin | apps/knowledge-api/src/domus_knowledge/access_control.py:236-250 | The levels are exactly the nodes within that many edges of a root. |
| Traversal.BoundedTraverse | apps/knowledge-api/src/domus_knowledge/access_control.py:226-250 | The walk returns exactly the nodes within `max_hops` edges, in order, if and only if the limits are within the caps, every followed node has few enough edges, and either no edge is followed or the nodes are few enough. |
| Traversal.RootsAreNotCounted | apps/knowledge-api/src/domus_knowledge/access_control.py:236-248 | Roots without edges are returned however many they are. |
| Order.Sorted | apps/knowledge-api/src/domus_knowledge/access_control.py:250 | The listing of a set is increasing and has exactly its members. |
| Order.LessExactly | apps/knowledge-api/src/domus_knowledge/access_control.py:250 | A text comes before another if and only if it is a proper beginning of it or has the lower character where they part. |
| Order.ListingIsUnique | apps/knowledge-api/src/domus_knowledge/access_control.py:250 | There is one increasing listing of given members. |
| Taxonomy.WalkUp | apps/knowledge-api/src/domus_knowledge/taxonomy.py:104-114 | The walk up finds a root, a cycle, too great a depth or a missing key, each with the chain that shows it. |
| Taxonomy.WalkIsDetermined | apps/knowledge-api/src/domus_knowledge/taxonomy.py:104-114 | No key has two such outcomes. |
| Taxonomy.TermIsDetermined | apps/knowledge-api/src/domus_knowledge/taxonomy.py:93-114 | Nor has a term two outcomes of its check. |
| Taxonomy.Validate | apps/knowledge-api/src/domus_knowledge/taxonomy.py:89-114 | A version is accepted if and only if it conforms, and each error is returned if and only if it is that of the first faulty term. |
| Taxonomy.UnknownGrandparent | apps/knowledge-api/src/domus_knowledge/taxonomy.py:102-114 | With an unknown grandparent, the child listed first is a missing key and the parent listed first an unknown parent, whatever else the terms hold. |
| Taxonomy.ConformingIsForest | apps/knowledge-api/src/domus_knowledge/taxonomy.py:89-114 | In an accepted version no parent chain repeats a key and every term is under one root. |
| Spans.ParseCsv | apps/knowledge-api/src/domus_knowledge/ingestion.py:200-231 | The spans cover the content: one per record, in order, over its bytes, one line feed between and one after; each fault is reported if and only if it is the first of its kind, with the limits written out. |
| Spans.ParsePdf | apps/knowledge-api/src/domus_knowledge/ingestion.py:234-259 | The spans cover the content: one per page, in order, over its bytes, with one page break between. |
| Spans.RecordsRecover | apps/knowledge-api/src/domus_knowledge/ingestion.py:219-231 | Decoding and parsing a record's slice gives back the row's field for every column. |
| Spans.ColumnsExactly | apps/knowledge-api/src/domus_knowledge/ingestion.py:219-223 | A printed record has the columns of the header, each once, in code-point order. |
| Spans.PagesRecover | apps/knowledge-api/src/domus_knowledge/ingestion.py:250-259 | Decoding a page's slice gives back its text, which holds no carriage return. |
| Spans.PageTextExactly | apps/knowledge-api/src/domus_knowledge/ingestion.py:241-244 | A carriage return becomes a line feed, together with a line feed behind it, and everything else is kept. |

## Left out

- Json.ParsePrint: the modelled reader takes flat objects of strings, natural numbers and string arrays without white space; the theorems about the parser hold for any reader, those about round trips for any that undoes printing.
- ChatStream.SseParser.Push: the decoder's state after a UTF-8 error is not modelled; the reading loop ends at the first error.
- ChatSession.ShownTextIsStreamedText: the step that puts request ids, semantic states and citations into the gateway's events is not part of this model; the predicate `Carries` states what it must keep.
- ProviderStream.Relay.Consume: timers and the provider's iterator are the inputs of each turn; an `emit` or a `return` of the iterator that throws is not modelled.
- Budget.BudgetRepository.Reserve: the order in which rows are locked, columns that take no part in the decision and the reservation's expiry are not modelled; any other failing statement is one `fault` that rolls back.
- Budget.BudgetRepository.Reconcile: row visibility before the scope variables are set is not modelled.
- ModelGateway.Gateway.Execute: the contents of messages, audit rows and provider texts; the dependencies' answers are inputs.
- Connector.CursorRoundTrip: what JavaScript's `Number` and lenient base64 make of cursors that no page carries ("1e2", "0x10", blanks, stray characters) is reported as malformed.
- ConnectorRuns.ExactlyOnce: the worker that ties acquire, list and commit together is not in the repository; the model lets workers do these steps in any order. Resuming a paused connection and the outbox rows are left out.
- ConnectorRuns.RunIsFenced: safety only; a synchronizing row whose worker died is not leased again by the code, so no progress is claimed for it.
- ConnectorPages.RetryDelayBounds: a requested delay is a whole number of seconds, and the random number is not NaN.
- RouteChoice.BestIsLeast: `localeCompare` is a map from keys to places.
- Routing.SelectExactly: classifications are ranks; the copied fields of a decision are left out.
- PolicyRuns.CacheAgrees: row-level security on the policy table and the time to live of the cache key (any entry may vanish between requests) are covered by steps that lose an entry, not by a clock.
- Retrieval.CursorRoundTrip: what Python's base64 and JSON readers tolerate beyond canonical cursors (stray characters, white space, booleans as numbers) is reported as invalid.
- Retrieval.HybridSearch: a query is its set of case-folded terms, a record its string fields; floating-point rounding of scores is not modelled.
- Taxonomy.Validate: synonyms are given case-folded; publication and assignment of taxonomies are single guards and left out.
- Spans.ParseCsv: Python's csv reader and the input decoding; the model starts from the rows.
- Spans.ParsePdf: the PDF reader; the model starts from the extracted page texts.
- The construction of normalized units copies each span with its position and a hash; it adds nothing to the spans.
- The egress guard, content safety, identity, device, credential and object flows: their properties fall out of single guards or rest on cryptography and regular expressions.
- User interfaces, HTTP plumbing other than the event printer, wiring, release scripts and configuration.
