# Explorer core, verified

A Dafny model of the stateful and structural cores of a block explorer: a Go backend that serves chain data, traces,
live events and sessions, and a TypeScript frontend that rebuilds call trees, follows subscriptions, decodes logs and
prints amounts. Each file models one source file (or one side of a pair that has to agree) and proves what that part
is for, over every input, every interleaving or every timed run.

| file | models |
|---|---|
| `Trace.dfy`, `CallTrace.dfy`, `BuildTree.dfy`, `TraceForest.dfy`, `TraceRoundTrip.dfy`, `TraceRows.dfy` | call frames flattened to rows, and rows sorted and built back into a tree of heap nodes |
| `TtlCache.dfy` | the cache that looks twice, once outside and once inside a single-flight group |
| `Topics.dfy`, `WsClient.dfy`, `Hub.dfy`, `Subscriptions.dfy` | the subscription protocol: the browser's client, the messages, the server's index, and both ends together |
| `EventBus.dfy`, `BusConcurrency.dfy` | the bounded, lossy event bus that feeds the hub, and publishers that share it |
| `RateLimit.dfy`, `Spacing.dfy`, `Jwks.dfy`, `ImpersonationStore.dfy`, `StateStore.dfy` | state driven by time: request windows, the signing-key cache, expiring sessions, single-use OAuth states |
| `RefreshAuth.dfy` | transparent refresh of access tokens against a proxy that rotates refresh tokens |
| `Pagination.dfy`, `CursorWalk.dfy`, `OffsetPaging.dfy` | pages by block cursor, the cursor followed to the end, pages by page number |
| `AbiString.dfy`, `TypeList.dfy`, `EventDecoder.dfy`, `EventEncoding.dfy` | decoding of untrusted return data, of type lists and of event logs |
| `RedactPath.dfy`, `Bytecode.dfy`, `FormatToken.dfy` | masking of logged paths, bytecode comparison up to metadata, printing of token amounts |
| `Wrappers.dfy`, `Decimal.dfy`, `Hex.dfy`, `Text.dfy` | shared: optional values, decimal numerals, hexadecimal digits, splitting and joining |

How it is put together:

* Code that updates state is a class with the source's fields. A `View` function gives the state as a value, a `Step`
  function says what each operation does to such a value, every method is proved to take `Step`, and the lemmas are
  about runs of steps.
* Concurrency is a state machine over the atomic sections of the code; a run is a list of actions of any callers in any
  order. Time is an integer that never goes back within a run. Random tokens are parameters, fresh where a lemma says
  so. The single-flight group, the LRU, the rotating proxy and the block database are modelled by their contracts.
* Where a guarantee holds only under a condition, the condition is proved exact, and a concrete input shows the failure.

Results that differ from what the source's comments or a first reading suggest:

* The hub's index stays consistent exactly if callers respect a rule that the hub does not enforce: only registered
  connections may subscribe. A connection is read from before it has been admitted, so at any cap it can subscribe and
  then be rejected. Its closed channel stays in the index until it unsubscribes itself, and a broadcast to its topic
  sends on that channel, which panics (`Hub.RejectedConnectionStays`).
* Scheduling a reconnect does not cancel an earlier one. The retry budget holds exactly in runs that never connect an
  idle socket while a reconnect is scheduled; with a budget of one there is a run with two retries
  (`WsClient.BudgetExactly`, `WsClient.RetriesExceeded`).
* A window of the rate limiter admits at most 2 * limit - 1 requests, one less than two full windows, because a window
  starts with its own first request; that bound is reached. It needs the background sweep to be invisible. The sweep
  looks at an entry and deletes it in two steps, and it is invisible exactly if every entry it deletes is still over
  then (`RateLimit.CleanupInvisibleExactly`); a request in between that starts a new window loses it, and more pass
  (`RateLimit.LateDeleteExceeds`).
* Publishers share the bus's lock. Each channel sees their events in some one order with no other loss than a full
  buffer's, but two channels may see opposite orders (`BusConcurrency.SharedDelivery`,
  `BusConcurrency.OppositeOrders`).
* The key cache has no single flight. Each caller keeps to span / TTL + 1 TTL-driven fetches; all callers together do so
  exactly if no call sets out to replace a stale cache while another has been at it for less than the TTL
  (`Jwks.AllTtlFetchesExactly`, `Jwks.CallersFetchTogether`). The bound on fetches for unknown key ids is global.
* The lookups after a freshness check or a fetch do not check the TTL again. A returned key exceeds it by at most the
  time since that check or fetch, and that bound is reached (`Jwks.AgeBoundReached`); all keys of a run are within it
  exactly if, as the actions are scheduled, those lookups come at most a TTL after the last document
  (`Jwks.WithinTtlExactly`). Waiting before the lookup makes a key old (`Jwks.WaitBeforeRead`); a slow fetch does not
  (`Jwks.SlowFetchIsFresh`).
* Following the transaction cursor loses the rows of a block that lie past a page's cut
  (`CursorWalk.TransactionLost`). The indexer reads the bound 0 as none, so the cursor 0 starts the walk over: a walk of
  equal requests ends exactly if no page but the last ends in block 0 (`CursorWalk.WalkEndsExactly`), and with two
  transactions in block 0 and one row a page it never does (`CursorWalk.GenesisWalkNeverEnds`).
* A page shows that there is more only if the indexer returns one row beyond it. A request for as many rows as the
  indexer's cap ends the walk there, so following the block cursor returns the whole chain exactly if every request asks
  for less than the cap or finds no more than the cap left (`CursorWalk.CapEndsWalk`, `CursorWalk.BlockWalkComplete`).
* The transfers endpoint computes its offset in 64 bits, asks for a 32-bit number of rows and depends on the indexer's
  cap. When a page number is served right is stated exactly; page 2^62 + 1 of size 4 is served page 1, and page 21474837
  of size 100 fails although nothing wraps in 64 bits (`OffsetPaging.WrappedPage`, `OffsetPaging.NarrowedCount`).
* The paginated transactions narrow the page number itself to 32 bits; it is served its own slice exactly if that leaves
  it alone or both numbers are past the end (`OffsetPaging.TransactionsPageExactly`), which 2^32 + 1 is not
  (`OffsetPaging.NarrowedPage`).
* A negative signed number in an event is shown as its word, without a sign; a signed number is shown right exactly if it is
  not negative (`EventEncoding.SignedExactly`).
* The high bits of the offset and length words of a string result are ignored instead of rejected.
* Expired OAuth states count against the capacity until they are swept. A cleanup changes whether a state is issued
  exactly if the store holds 1000 entries, one of them expired (`StateStore.CleanupShowsExactly`).

`dafny verify dfyconfig.toml` checks the project.

## Model

| member | source | states |
|---|---|---|
| Trace.FlattenCallFrame | backend/internal/rpc/trace.go:90-94 | the emitted rows are the frame's sub-calls in pre-order, the root omitted |
| Trace.FlattenRecursive | backend/internal/rpc/trace.go:96-179 | one recursive call appends exactly the rows of its subtree to the shared slice and leaves what was there |
| Trace.MakeRow | backend/internal/rpc/trace.go:110-178 | the record carries the transaction's hash, block and time, the frame's own sender, recipient, value, gas, gas used, input, output and error, each absent exactly when empty or zero, and its lower-cased type if that is one of five, else call |
| Trace.ParseAddr | backend/internal/rpc/trace.go:110-123 | splitting and reading an address text gives back the path it was printed from |
| Trace.AddrParse | backend/internal/rpc/trace.go:110-123 | printing the path read from a canonical address gives back the address, so addresses and paths correspond one to one |
| TraceRows.FlattenReports | backend/internal/rpc/trace.go:90-179 | rows and sub-calls correspond one to one: each row carries the values of the sub-call its address leads to, each sub-call has a row, and no two rows have one address |
| CallTrace.CompareTraceAddr | frontend/src/lib/callTrace.ts:34-41 | the sign of the comparator is the pre-order on paths, and it is zero only for equal paths |
| CallTrace.PathLessIrreflexive | frontend/src/lib/callTrace.ts:31-41 | no path comes before itself |
| CallTrace.PathLessTransitive | frontend/src/lib/callTrace.ts:31-41 | the order is transitive |
| CallTrace.PathLessTotal | frontend/src/lib/callTrace.ts:31-41 | of two different paths one comes before the other |
| CallTrace.AncestorFirst | frontend/src/lib/callTrace.ts:31-33 | every proper prefix of a path, so every ancestor, comes before it |
| CallTrace.SortByAddr | frontend/src/lib/callTrace.ts:47-48 | sorting gives a permutation that the comparator finds in order |
| CallTrace.SortedStrictly | frontend/src/lib/callTrace.ts:47-48 | with distinct canonical addresses the sorted order is strict |
| CallTrace.SortedUnique | frontend/src/lib/callTrace.ts:47-48 | only one arrangement of given rows is strictly sorted, so the input order does not matter |
| CallTrace.BuildRoot | frontend/src/lib/callTrace.ts:13-29 | the root has the transaction's hash, block, sender, value and gas used, the empty address, the recipient or else the created contract, a create call exactly for a creation, input only with 0x, and an error exactly when the transaction failed: its own, else the revert reason, else reverted |
| BuildTree.BuildTree | frontend/src/lib/callTrace.ts:43-57 | for any rows with distinct canonical addresses, missing ancestors included, the heap nodes built form the tree in which each row hangs under its direct parent or else the root, one new node per row plus the root |
| BuildTree.LinkRow | frontend/src/lib/callTrace.ts:49-55 | one round of the loop keeps the string-keyed map and the children arrays in step with the rows placed so far |
| BuildTree.ParentLookup | frontend/src/lib/callTrace.ts:53-54 | when a row is reached the map holds its parent's key exactly if the parent has a row at all |
| TraceForest.TreesWellPlaced | frontend/src/lib/callTrace.ts:43-57 | every node is under its direct parent if present and under the root otherwise, at the depth of its path, siblings in path order |
| TraceForest.EachRowOnce | frontend/src/lib/callTrace.ts:43-57 | the rows in the tree are the given rows as a multiset: each once, nothing else |
| TraceRoundTrip.ListRowsSorted | backend/internal/rpc/trace.go:96-179 | flattening emits rows in strict path order |
| TraceRoundTrip.UnderParent | backend/internal/rpc/trace.go:96-179 | in a flattened trace every row's direct parent is present or is the root |
| TraceRoundTrip.PermutedRows | frontend/src/lib/callTrace.ts:47-48 | any permutation of flattened rows meets the builder's conditions and sorts back to the flattening order |
| TraceRoundTrip.RebuildFlattened | frontend/src/lib/callTrace.ts:43-57 | from any permutation of a frame's flattened rows the trees built are the frame's own: same shape, child order, rows and depths |
| TraceRoundTrip.RebuildTrace | frontend/src/lib/callTrace.ts:43-57 | the same on the heap: the nodes built from any permutation represent a tree under the synthesized root in which each node carries its frame's own values and has a child for each of its calls, in order, one level down |
| TtlCache.TTLCache.Get | backend/internal/api/cache/cache.go:24-44 | a hit changes nothing; a miss answers from the LRU as found inside the flight or from fetch, and stores successes only |
| TtlCache.EveryRun | backend/internal/api/cache/cache.go:24-44 | in every interleaving: at most one fetch per key runs, every stored or returned value came from a fetch for its key, failures are not stored, and after a success no fetch starts until the key has been evicted |
| TtlCache.OneValue | backend/internal/api/cache/cache.go:24-44 | without eviction of a key all callers that get a value get the same one |
| TtlCache.AlwaysMoves | backend/internal/api/cache/cache.go:29-43 | a caller inside Get, or the flight it waits for, always has a next step |
| TtlCache.CanFinish | backend/internal/api/cache/cache.go:24-44 | from any reachable state a caller inside Get can have its answer within five steps of its own and its flight |
| TtlCache.AnsweredOnce | backend/internal/api/cache/cache.go:24-44 | each call returns exactly once, but for the one its caller is in |
| TtlCache.LruExactly | backend/internal/api/cache/cache.go:30-41 | the LRU holds a value exactly if it was added as the key's latest success and the key has not been evicted since |
| TtlCache.WithoutSecondLookup | backend/internal/api/cache/cache.go:30-33 | without the lookup inside the flight there is a run that fetches again after a success without eviction |
| TtlCache.FlightRefines | backend/internal/api/cache/cache.go:29-43 | the method's miss path is what the machine's steps of one undisturbed flight amount to |
| Topics.ApplyConcat | backend/internal/websocket/client.go:107-135 | a message stream can be cut anywhere: applying its parts in order is applying the whole |
| Topics.ValidExactly | backend/internal/websocket/client.go:137-155 | the valid topics are the four feeds and the activity of every address but the empty one |
| WsClient.WSClient.SubscribeTopic | frontend/src/lib/websocket.ts:109-126 | adds the handler to those the topic has and the topic to the pending ones, and sends exactly when connected and the socket is open |
| WsClient.WSClient.UnsubscribeTopic | frontend/src/lib/websocket.ts:131-148 | removes one handler, or all; the topic leaves both collections exactly when no handler is left, with a message if connected |
| WsClient.WSClient.HandleOpen | frontend/src/lib/websocket.ts:54-67 | resets the retry count and resubscribes to exactly the pending topics, each once, in one message |
| WsClient.WSClient.HandleClose | frontend/src/lib/websocket.ts:69-73 | schedules one more reconnect unless the retry budget is used up, leaving earlier ones scheduled |
| WsClient.WSClient.HandleMessage | frontend/src/lib/websocket.ts:204-220 | an event is passed to each handler of its topic once, anything else to none |
| WsClient.WSClient.OnAddressActivity | frontend/src/lib/websocket.ts:181-183 | the topic subscribed to is accepted by the server exactly if the address is not empty |
| WsClient.HandlersExactly | frontend/src/lib/websocket.ts:109-148 | in every run a topic has exactly the handlers subscribed to it and not unsubscribed since |
| WsClient.CalledExactly | frontend/src/lib/websocket.ts:204-220 | in every run an event is passed to exactly those handlers of its topic |
| WsClient.OpenExactly | frontend/src/lib/websocket.ts:46-73 | the socket is open exactly if one has opened and none has failed or closed since |
| WsClient.Recovers | frontend/src/lib/websocket.ts:46-73 | from every reachable state without a socket, connecting, by a timeout or not, and opening sends one message after which the server's topics are the valid pending ones, with all handlers kept and the whole retry budget back |
| WsClient.ServerFollowsClient | frontend/src/lib/websocket.ts:46-148 | in every run, across reconnects: the pending set equals the topics with handlers, none with an empty set, and while the socket is open the messages in flight turn the server's topics into exactly the valid pending ones |
| WsClient.Converged | frontend/src/lib/websocket.ts:46-148 | once everything sent is delivered the server's topics are the valid part of the client's |
| WsClient.InBudgetExactly | frontend/src/lib/websocket.ts:221-234 | whatever follows without a socket opening keeps the budget, connects being polite, exactly if at most one reconnect is scheduled, only while idle and only below the budget |
| WsClient.BudgetExactly | frontend/src/lib/websocket.ts:221-234 | the budget holds at every point of a run exactly if the run never connects an idle socket while a reconnect is scheduled |
| WsClient.AttemptsExactly | frontend/src/lib/websocket.ts:54-73 | the attempts counted are the timeouts fired since a socket last opened |
| WsClient.RetriesBounded | frontend/src/lib/websocket.ts:221-234 | in such a run the timeouts fire at most maxReconnectAttempts times until a socket opens |
| WsClient.RetriesExceeded | frontend/src/lib/websocket.ts:221-234 | with a budget of one, a connect while a reconnect is scheduled leads to two retries |
| Hub.Client.HandleMessage | backend/internal/websocket/client.go:107-172 | an open connection has every topic handled and answered, each in its place with success or the reason against it; on a closed one the first reply panics with its topic already handled |
| Hub.Hub.RegisterClient | backend/internal/websocket/hub.go:67-79 | registers below the cap; at the cap closes the channel and leaves the index alone |
| Hub.Hub.UnregisterClient | backend/internal/websocket/hub.go:81-98 | removes a registered connection from the clients and from every topic, drops exactly the topics left empty and closes its channel; otherwise changes nothing |
| Hub.Hub.Subscribe | backend/internal/websocket/hub.go:100-109 | adds the pair to the index and to the connection's own set and touches nothing else |
| Hub.Hub.Unsubscribe | backend/internal/websocket/hub.go:111-122 | removes the pair on both sides and drops the topic if it is left empty |
| Hub.Hub.BroadcastToTopic | backend/internal/websocket/hub.go:124-147 | panics exactly if a subscriber's channel is closed, never with a consistent index; otherwise each subscriber with room gets the message and the ones without are those to unregister |
| Hub.StepExactly | backend/internal/websocket/hub.go:67-122 | one operation keeps the index consistent exactly if its caller respects the rule |
| Hub.RunsExactly | backend/internal/websocket/hub.go:67-122 | a whole run keeps the cap, no empty topics, both sides equal for registered connections, no unregistered members and no closed registered channel exactly if every operation respects the rule |
| Hub.RegisteredExactly | backend/internal/websocket/hub.go:67-98 | after any run a connection is registered exactly if it was admitted below the cap and has not been unregistered since |
| Hub.ShutExactly | backend/internal/websocket/hub.go:67-98 | after any run a connection's channel is closed exactly if it was turned away at the cap or unregistered while registered |
| Hub.RejectedConnectionStays | backend/internal/websocket/hub.go:67-109 | at any cap, with the cap reached, a connection that subscribes and is then rejected stays in the index with its channel closed, whatever follows but its own unsubscribing, and a broadcast to the topic is unsafe |
| Hub.MessageEffect | backend/internal/websocket/client.go:107-155 | the topic set the index records for a connection follows its messages |
| Subscriptions.OwnOpsDecide | backend/internal/websocket/hub.go:67-122 | a connection's recorded topics depend on its own operations alone, however they are interleaved with registering, unregistering and all other connections |
| Subscriptions.IndexFollowsMessages | backend/internal/websocket/hub.go:67-122 | after any run that respects the rule a topic's entry holds the connection exactly if it is registered and its messages add up to the topic, and broadcasting is safe |
| Subscriptions.BrowserToIndex | frontend/src/lib/websocket.ts:46-148 | from the browser's run to the hub's: the entry follows the messages delivered so far, and once all are delivered it holds the connection exactly if it is registered and the topic is valid and has a handler |
| EventBus.Bus.Subscribe | backend/internal/events/bus.go:48-55 | a new channel is appended to the type's list and nothing else changes |
| EventBus.Bus.SubscribeAll | backend/internal/events/bus.go:57-76 | one new channel is appended to all five lists |
| EventBus.Bus.Unsubscribe | backend/internal/events/bus.go:78-90 | the channel's first occurrence leaves every list |
| EventBus.Bus.Publish | backend/internal/events/bus.go:92-111 | offers the event to each listed channel once, never blocks, never sends on a closed channel |
| EventBus.Bus.Close | backend/internal/events/bus.go:162-179 | closes exactly the listed channels, none of them closed before, and empties the lists |
| EventBus.EveryRunSound | backend/internal/events/bus.go:48-179 | in every run each list holds distinct, open channels and no buffer exceeds 100 |
| EventBus.ListedExactly | backend/internal/events/bus.go:48-90 | a channel is listed for a type exactly if the history subscribed it, to that type or to all five, and has neither unsubscribed it nor closed the bus since |
| EventBus.Delivery | backend/internal/events/bus.go:92-111 | with publishes one at a time, received then buffered events are, in publish order and without duplicates, exactly those published on the open bus for a subscribed type while the buffer held fewer than 100 |
| EventBus.ClosedOnce | backend/internal/events/bus.go:162-179 | over any run a channel is closed at most once, and by a Close that found it listed |
| BusConcurrency.EachChannelSeesARun | backend/internal/events/bus.go:92-111 | publishers that share the read lock and offer channel by channel: each channel's buffer, receipts and subscriptions are those of a run with the publishes one at a time |
| BusConcurrency.SharedDelivery | backend/internal/events/bus.go:92-111 | so each channel gets, in the order it sees them, exactly the events for its types that met room |
| BusConcurrency.EachPublishSeenOnce | backend/internal/events/bus.go:92-111 | a channel sees each publish begun exactly once, already or when the publisher gets to it; all of them when nobody is publishing |
| BusConcurrency.PublishAloneRefines | backend/internal/events/bus.go:92-111 | a publish that nothing comes in between of is the method's |
| BusConcurrency.OppositeOrders | backend/internal/events/bus.go:92-111 | two events published at the same time may reach two channels in opposite orders |
| RateLimit.RateLimiter.Middleware | backend/internal/publicapi/ratelimit.go:41-86 | starts a window for a new or overdue key, counts the request, admits up to the limit and reports what is left, none below zero, and until when; other keys are left alone |
| RateLimit.RateLimiter.Cleanup | backend/internal/publicapi/ratelimit.go:107-123 | deletes exactly the entries whose window is over |
| RateLimit.SweepIsCleanup | backend/internal/publicapi/ratelimit.go:107-123 | a sweep that checks and deletes entry by entry with nothing in between is the method's |
| RateLimit.CleanupInvisibleExactly | backend/internal/publicapi/ratelimit.go:41-123 | with checks and deletions as steps of their own, an older clock in the checks and requests in between: no request at any point could be answered otherwise than without sweeps exactly if every entry deleted is still over when it is deleted |
| RateLimit.UndisturbedIsTimely | backend/internal/publicapi/ratelimit.go:107-123 | which it is if no request comes between the check of its key and the deletion |
| RateLimit.OverExactly | backend/internal/publicapi/ratelimit.go:112-122 | an entry awaits deletion exactly if a check found it over and it has not been deleted since |
| RateLimit.AnswerExactly | backend/internal/publicapi/ratelimit.go:41-86 | with timely deletions a request is told its number in its window, counted from the history: it passes exactly if that is at most the limit, with the rest of the limit left and the window's end as reset |
| RateLimit.WindowBound | backend/internal/publicapi/ratelimit.go:41-123 | if every entry deleted is still over, any closed interval of one window length admits at most 2 * limit - 1 requests of a key, none for a non-positive limit |
| RateLimit.WindowBoundReached | backend/internal/publicapi/ratelimit.go:41-86 | for every positive limit and window some run admits that many |
| RateLimit.LateDeleteExceeds | backend/internal/publicapi/ratelimit.go:107-123 | a deletion right after a request that started a new window: with a limit of one two requests pass at one instant |
| RefreshAuth.RefreshAuthMiddleware | backend/internal/api/auth_handlers.go:269-362 | a pair is written exactly if the access token is well formed, unexpired and within five minutes of expiry, there is a refresh token and SSO, and the refresh yields that pair; the cookies are cleared exactly for a malformed or expired token, or a refused refresh when the token has expired by then |
| RefreshAuth.EveryRun | backend/internal/api/auth_handlers.go:269-362 | the invariant of all interleavings: results handed out come from the one rotation of their token, rotated tokens are dead |
| RefreshAuth.SamePairForAll | backend/internal/api/auth_handlers.go:320-361 | all requests with one refresh token that write cookies write the same pair |
| RefreshAuth.NeverLogsOutEarly | backend/internal/api/auth_handlers.go:269-362 | no request clears cookies while its well-formed access token is unexpired, lost race included |
| RefreshAuth.RotatedOnce | backend/internal/auth/sso.go:202-241 | no refresh token is exchanged twice |
| RefreshAuth.WrittenPairIsTheRotation | backend/internal/api/auth_handlers.go:320-361 | every written pair is the proxy's answer to the exchange of the presented token |
| RefreshAuth.ArrivalExactly | backend/internal/api/auth_handlers.go:269-318 | an arriving request waits for a refresh exactly if it wants one; otherwise only a malformed or expired token clears the cookies |
| RefreshAuth.CollectExactly | backend/internal/api/auth_handlers.go:320-361 | a request that waited writes the pair its flight landed with, is cleared for a refusal exactly if its token has expired by then, and otherwise keeps its cookies |
| RefreshAuth.CollectedPairIsWritten | backend/internal/api/auth_handlers.go:320-361 | in every run a request that collects a landed pair writes it, and it is the rotation of the request's own token |
| RefreshAuth.AllWritten | backend/internal/api/auth_handlers.go:320-361 | when a pair arrives, every request on its flight can collect and writes it |
| RefreshAuth.AllUnchanged | backend/internal/api/auth_handlers.go:323-343 | when the call fails on the way, none of them touches its cookies |
| RefreshAuth.LoneRefresh | backend/internal/api/auth_handlers.go:269-362 | after any run, a request that wants a refresh and presents a live token gets the fresh pair, whose refresh token is live from then on in place of its own |
| RefreshAuth.LoneRefusal | backend/internal/api/auth_handlers.go:323-343 | if its token is not live its session ends exactly if the access token expires before the answer is there |
| RefreshAuth.LiveExactly | backend/internal/auth/sso.go:202-241 | a refresh token is live exactly if it was issued, or minted in exchange for a live one, and has been neither revoked nor exchanged since |
| Jwks.Verifier.KeyForKid | backend/internal/auth/jwt.go:193-226 | an undisturbed call: cached key within the TTL, else a fetch when stale, else at most one rate-limited fetch for an unknown id |
| Jwks.Verifier.EnsureFresh | backend/internal/auth/jwt.go:229-237 | fetches exactly when the cache is empty or past its TTL |
| Jwks.Verifier.RefetchForUnknownKid | backend/internal/auth/jwt.go:240-249 | does nothing within the interval; otherwise marks the time before fetching, whatever the fetch yields |
| Jwks.ReturnedKeysAreFresh | backend/internal/auth/jwt.go:193-290 | in every interleaving a returned key is from the last document fetched and exceeds the TTL at most by the time since its call last found the cache fresh or fetched |
| Jwks.AgeBoundReached | backend/internal/auth/jwt.go:193-226 | that bound is reached: a check that just passes, a wait, and the key is returned at the age of the TTL plus the wait |
| Jwks.TtlFetchExactly | backend/internal/auth/jwt.go:229-237 | after any run a check fetches exactly if no keys have arrived or the last document is past the TTL |
| Jwks.RefetchExactly | backend/internal/auth/jwt.go:240-249 | after any run a call that misses its key id fetches exactly if no call has done so within the interval |
| Jwks.FoundExactly | backend/internal/auth/jwt.go:193-249 | an undisturbed call finds a key exactly if a usable cache has it, or the fetch made for want of one brings it, or neither has the id and an allowed refetch brings it |
| Jwks.WithinTtlExactly | backend/internal/auth/jwt.go:193-226 | all keys of a run are within the TTL when returned exactly if, by the schedule of actions alone, no lookup past the checks of a kid in the last document comes more than the TTL after that document |
| Jwks.WaitBeforeRead | backend/internal/auth/jwt.go:208-213 | a wait between fetch and lookup makes the returned key that old |
| Jwks.SlowFetchIsFresh | backend/internal/auth/jwt.go:252-290 | a key looked up right after a fetch of any duration has age 0 |
| Jwks.KidFetchesBounded | backend/internal/auth/jwt.go:240-249 | over any span unknown ids cause at most span / interval + 1 fetches, all callers together |
| Jwks.TtlFetchesBounded | backend/internal/auth/jwt.go:229-237 | with non-empty successful fetches, each caller makes at most span / TTL + 1 TTL-driven fetches |
| Jwks.AllTtlFetchesExactly | backend/internal/auth/jwt.go:229-237 | all callers together keep to that bound on every interval exactly if no call sets out to replace a stale cache while another has been at it for less than the TTL |
| Spacing.BoundedExactly | backend/internal/auth/jwt.go:229-249 | ordered times keep to span / gap + 1 on every interval exactly if they are gap apart |
| Jwks.CallersFetchTogether | backend/internal/auth/jwt.go:229-237 | two callers that meet a stale cache together fetch at the same instant |
| Jwks.AloneRefines | backend/internal/auth/jwt.go:193-290 | the method is what the machine's steps of one undisturbed call amount to |
| Jwks.AloneWithinTtl | backend/internal/auth/jwt.go:193-226 | an undisturbed call returns only keys of a cache within its TTL |
| ImpersonationStore.MemoryStore.Mint | backend/internal/api/impersonation_store.go:119-146 | succeeds exactly if no identity is missing and there is randomness, with the random token and an expiry after the time to live, an hour if none is asked for; each missing identity has its error, the first one first, and errors leave the store alone |
| ImpersonationStore.MemoryStore.Lookup | backend/internal/api/impersonation_store.go:148-169 | finds exactly the unexpired sessions; the only change it makes is dropping the expired entry it met |
| ImpersonationStore.MemoryStore.SweepExpired | backend/internal/api/impersonation_store.go:188-197 | deletes exactly the entries past their expiry |
| ImpersonationStore.LookupExactly | backend/internal/api/impersonation_store.go:119-197 | whatever sweeps and delayed drops happen, a lookup yields a session exactly if a complete request got this token for the session's identities, its time to live is not over, and the token has not been revoked or minted again since |
| ImpersonationStore.StandingSession | backend/internal/api/impersonation_store.go:119-146 | a findable session carries the requested, non-empty identities and expires after its mint, by the requested time to live if that is positive |
| StateStore.SSOClient.GenerateState | backend/internal/auth/sso.go:95-114 | refuses at 1000 entries or without randomness, otherwise stores the return URL under the state for ten minutes |
| StateStore.SSOClient.ValidateState | backend/internal/auth/sso.go:116-133 | removes the state whatever the answer and yields its URL only before expiry |
| StateStore.SSOClient.CleanupStates | backend/internal/auth/sso.go:277-291 | deletes exactly the entries past their expiry |
| StateStore.Bounded | backend/internal/auth/sso.go:100-104 | the store never holds more than 1000 entries |
| StateStore.ValidateExactly | backend/internal/auth/sso.go:95-133 | a state yields a URL exactly if a request with that URL got this state while fewer than 1000 were stored, at most ten minutes ago, and it has been neither validated nor issued again since, cleanups or not |
| StateStore.AtMostOnce | backend/internal/auth/sso.go:116-133 | in any run with fresh states a state validates at most once |
| StateStore.CleanupShowsExactly | backend/internal/auth/sso.go:95-114 | in every run a cleanup changes whether a state is issued next exactly if the store holds 1000 entries, some of them expired |
| StateStore.FullOfExpired | backend/internal/auth/sso.go:95-114 | 1000 fresh states and their ten minutes lead there |
| Pagination.Paginate | backend/internal/api/handlers.go:848-865 | the page is the longest prefix within the limit, there is more exactly if the fetch overshot, a cursor exactly if there is more |
| Pagination.BeforeExactly | backend/internal/api/handlers.go:808-815 | the bound is a numeral's value exactly if that fits 64 bits, and otherwise absent |
| Pagination.LimitExactly | backend/internal/api/handlers.go:790-797 | the limit is the number asked for if it is from 1 to 100, and 25 otherwise |
| Pagination.PageIs | backend/internal/api/handlers.go:159-174 | whatever the indexer's cap, a page is the stretch of the table from its start, with more promised exactly if the indexer returned a row beyond it, and then the block of its last row as cursor |
| Pagination.NewBlocksDoNotShow | backend/internal/api/handlers.go:159-174 | rows that arrive on top during a walk leave its later pages unchanged |
| Pagination.CursorZeroExactly | backend/internal/api/indexerclient/handlers.go:88-96 | some page of at most 100 rows hands out the cursor 0 exactly if block 0 has several rows and the indexer returns more than one |
| CursorWalk.WalkIs | backend/internal/api/handlers.go:159-174 | a walk with any limits of which no page but the last ends in block 0 ends, in stretches of the table of which only the last says there is no more |
| CursorWalk.WalkUnique | backend/internal/api/handlers.go:159-174 | the same requests get the same pages |
| CursorWalk.WalkEndsIfClear | backend/internal/api/indexerclient/handlers.go:88-96 | with any requests, the bound 0 being none, a walk ends exactly if, starting over after every page that is not the last and ends in block 0, it gets through once without such a page |
| CursorWalk.WalkEndsExactly | backend/internal/api/indexerclient/handlers.go:88-96 | with equal requests a walk ends exactly if no page but the last ends in block 0 |
| CursorWalk.EndsUnlessShared | backend/internal/api/indexerclient/handlers.go:88-96 | with at most one row in block 0 every walk ends |
| CursorWalk.GenesisWalkNeverEnds | backend/internal/api/indexerclient/handlers.go:88-96 | two transactions in block 0, one row a page: no walk ends |
| CursorWalk.CapEndsWalk | backend/proto/chain_indexer/v1/common.proto:15-18 | a request for the indexer's cap or more ends the walk with at most the cap |
| CursorWalk.WalkReturns | backend/internal/api/handlers.go:261-282 | such a walk never repeats a row, and a row is missing exactly if it shares the block a page ends in and lies past that page's cut, or lies behind the last page |
| CursorWalk.LosslessExactly | backend/internal/api/handlers.go:261-282 | a walk ends and returns the whole table exactly if each request made before the table is exhausted is below the indexer's cap or finds no more than the cap left, and the rows asked for up to it, if short of the table, end with the last row of a block |
| CursorWalk.BlockWalkComplete | backend/internal/api/handlers.go:159-174 | with one row per block a walk ends and returns every block once and in order exactly if each request made before the chain is exhausted is below the indexer's cap or finds no more than the cap left |
| CursorWalk.TransactionLost | backend/internal/api/handlers.go:261-282 | two transactions of one block, one per page: the second is never returned |
| OffsetPaging.ComputeTotalPages | backend/internal/api/handlers.go:1820-1830 | the least number of pages that hold the total, zero for non-positive arguments |
| OffsetPaging.TransfersExactly | backend/internal/publicapi/handlers.go:416-452 | a page number gets its own slice exactly if offset and 32-bit row count are not negative and the indexer returns the rows up to the first after the page, or, past the end, fewer than the offset |
| OffsetPaging.WrappedPage | backend/internal/publicapi/handlers.go:425-426 | page 2^62 + 1 of size 4 is served page 1 |
| OffsetPaging.NarrowedCount | backend/internal/api/indexerclient/handlers_extended.go:178-184 | page 21474837 of size 100 fails on every table, its row count being negative in 32 bits only |
| OffsetPaging.CappedPage | backend/internal/publicapi/handlers.go:428-444 | a page that reaches past the indexer's cap is not served right while the table goes on |
| OffsetPaging.PagesCover | backend/internal/publicapi/handlers.go:416-452 | as long as the row count fits 32 bits and the indexer's cap, the first pages together are the front of the table |
| OffsetPaging.TotalPagesReached | backend/internal/publicapi/handlers.go:253-268 | for the paginated transactions, page numbers fitting 32 bits, the announced total is right: the pages up to it are the whole table, each has rows, the next has none |
| OffsetPaging.TransactionsPageExactly | backend/internal/api/indexerclient/handlers_extended.go:93-107 | of distinct rows a page number gets its own slice exactly if its 32-bit reading is not negative and is the number itself, or both, 0 standing for 1, are past the end |
| OffsetPaging.NarrowedPage | backend/internal/api/indexerclient/handlers_extended.go:93-107 | page 2^32 + 1 is served page 1, which is not its slice of a non-empty table |
| AbiString.ParseStringResult | backend/internal/rpc/rpc.go:350-384 | on every byte string no slice is out of range, and 64-bit arithmetic decodes as unbounded arithmetic would |
| AbiString.DecodesAt | backend/internal/rpc/rpc.go:361-383 | whatever lies between and behind, data whose first word points at an encoded string decodes to it up to its first NUL |
| AbiString.RoundTrip | backend/internal/rpc/rpc.go:350-384 | the encoding of s by "Formal Specification of the Encoding" in the Solidity Contract ABI Specification decodes to s exactly if s has no NUL |
| AbiString.Bytes32Text | backend/internal/rpc/rpc.go:351-359 | a NUL-padded 32-byte text decodes to the text |
| AbiString.HighBitsIgnored | backend/internal/rpc/rpc.go:361-383 | on any data of 64 bytes or more the first 24 bytes, the high bits of the offset, do not matter |
| AbiString.LastEight | backend/internal/rpc/rpc.go:361-371 | of a word, offset or length, only the last eight bytes are read |
| AbiString.ParseDecimals | backend/internal/rpc/rpc.go:335-348 | the value if it is at most 255, and 18 for larger values and short data |
| AbiString.DecimalsRoundTrip | backend/internal/rpc/rpc.go:335-348 | encoded decimals are read back exactly up to 255 |
| TypeList.ParseParamTypes | frontend/src/lib/eventDecoder.ts:302-324 | the loop yields the trimmed, non-empty pieces between the commas outside all brackets |
| TypeList.NoTopCommaExactly | frontend/src/lib/eventDecoder.ts:302-324 | a comma separates exactly if as many brackets have been closed before it as opened |
| TypeList.NetCounts | frontend/src/lib/eventDecoder.ts:302-324 | round and square brackets count alike |
| TypeList.ResultProper | frontend/src/lib/eventDecoder.ts:302-324 | whatever the text, the results are trimmed, non-empty, without outer commas and, but for the last, balanced |
| TypeList.InvertsJoin | frontend/src/lib/eventDecoder.ts:302-324 | splitting inverts comma-joining on exactly such lists |
| EventDecoder.DecodeDataParams | frontend/src/lib/eventDecoder.ts:196-215 | values by name for as many unindexed parameters as the data has whole words |
| EventDecoder.DecodeEventWithSignature | frontend/src/lib/eventDecoder.ts:366-400 | every parameter in order with its value: indexed ones from the present topics, others from the data |
| EventDecoder.DecodeEvent | frontend/src/lib/eventDecoder.ts:218-257 | the event of a known topic, found whatever its letter case; nothing for a missing or unknown one |
| EventDecoder.Positions | frontend/src/lib/eventDecoder.ts:196-257 | with distinct names the k-th indexed parameter has the k-th topic, the j-th unindexed one the j-th word, and one has no value exactly if topics or data do not reach |
| EventEncoding.WordRoundTrip | frontend/src/lib/eventDecoder.ts:156-193 | decoding a word inverts encoding an address, a bool or an unsigned number |
| EventEncoding.SignedExactly | frontend/src/lib/eventDecoder.ts:156-193 | a signed number is shown as itself exactly if it is not negative |
| EventDecoder.OtherKinds | frontend/src/lib/eventDecoder.ts:182-193 | bytes are shown with 0x in front and unknown types as they come |
| EventDecoder.EitherCase | frontend/src/lib/eventDecoder.ts:162-179 | hexadecimal digits count alike in either case |
| EventEncoding.LogRoundTrip | frontend/src/lib/eventDecoder.ts:196-257 | for static parameters with distinct names, at most three indexed, decoding an encoded log gives every parameter its own value |
| EventEncoding.ParseTextSignature | frontend/src/lib/eventDecoder.ts:269-299 | a text gives the signature with its split types, the first topicCount - 1 indexed, or nothing if it does not match |
| EventEncoding.MatchesExactly | frontend/src/lib/eventDecoder.ts:269-275 | a text matches exactly if it is a name of word characters and, in parentheses, something without line ends, and then gives these two |
| EventEncoding.SignatureText | frontend/src/lib/eventDecoder.ts:276-299 | the signature's text is the one given if it has no parameters, and otherwise the name with the list of them |
| EventEncoding.TextRoundTrip | frontend/src/lib/eventDecoder.ts:269-324 | the text of a name and proper types gives back those types in order under distinct names |
| RedactPath.RedactPath | backend/pkg/log/http.go:40-62 | overwriting segments in place and masking hexadecimal runs yields the specified path |
| RedactPath.MaskGrants | backend/pkg/log/http.go:43-59 | the nested loops over the array mask the two non-empty segments owed to each grant that is itself still there |
| RedactPath.NoRunLeft | backend/pkg/log/http.go:24-27 | nowhere in a masked path is there 0x followed by six or more hexadecimal digits |
| RedactPath.KeepsSegmentCount | backend/pkg/log/http.go:40-62 | masking keeps the number of segments |
| RedactPath.GrantsAreMasked | backend/pkg/log/http.go:36-59 | in a masked path the next two non-empty segments after every grant segment are masked |
| RedactPath.MaskExactly | backend/pkg/log/http.go:43-59 | a segment is masked exactly if it is not empty and a grant before it, not itself masked, has at most one non-empty segment in between; all others stay |
| RedactPath.MaskHexExactly | backend/pkg/log/http.go:24-27 | a number of 0x and at least six hexadecimal digits is replaced as a whole, and every other character stays |
| RedactPath.Idempotent | backend/pkg/log/http.go:40-62 | masking a masked path changes nothing |
| RedactPath.GrantSegmentsDoNotShow | backend/pkg/log/http.go:36-59 | paths that differ only in the segments owed to a grant are masked to the same text |
| Bytecode.CompareBytecode | backend/internal/verifier/bytecode.go:20-57 | the field-by-field result is the comparison of the normalised codes without the constructor arguments; an exact match has equal hashes and lengths, and metadata counts as stripped exactly for a partial one |
| Bytecode.SpellingDoesNotCount | backend/internal/verifier/bytecode.go:21-23 | the comparison is the same for inputs in either case, with or without a 0x in front |
| Bytecode.DeployedMatches | backend/internal/verifier/bytecode.go:20-57 | however the inputs are spelled, deployed code with its constructor arguments matches the compiled code exactly if the metadata is the same, and partially if it differs and both are long enough |
| Bytecode.BytesDetermine | backend/internal/verifier/bytecode.go:34-43 | lower-case hexadecimal codes with the same bytes are equal, so short of a hash collision equal hashes mean an exact match |
| Bytecode.LastIndex | backend/internal/verifier/bytecode.go:69-74 | an occurrence at or after every other, or none if there is none |
| Bytecode.StripsMetadata | backend/internal/verifier/bytecode.go:60-81 | stripping code followed by ipfs metadata gives the code, even if that contains markers |
| Bytecode.StripExactly | backend/internal/verifier/bytecode.go:60-81 | code of 86 digits or more is cut at its last ipfs marker, and without one at its last bzzr marker; other code is left whole |
| Bytecode.SameCodeMatches | backend/internal/verifier/bytecode.go:20-81 | non-empty code with two different metadata tails, each long enough, matches partially |
| Bytecode.PartialMeans | backend/internal/verifier/bytecode.go:46-53 | a partial match means different codes with a common non-empty part and nothing but metadata tails behind it |
| Bytecode.ComparingIsEquivalence | backend/internal/verifier/bytecode.go:20-57 | without arguments the match type of any two inputs is symmetric and matching is an equivalence relation |
| Bytecode.ArgsDoNotCount | backend/internal/verifier/bytecode.go:25-27 | code followed by its arguments compares as the code alone |
| Bytecode.ShortCodeIsWhole | backend/internal/verifier/bytecode.go:60-63 | below 86 digits codes match only if equal |
| FormatToken.Printed | frontend/src/lib/formatToken.ts:6-26 | the printed number, separators aside, is the value rounded down to four decimals |
| FormatToken.PrintedBounds | frontend/src/lib/formatToken.ts:6-26 | the printed number P satisfies P <= value / 10^d < P + 10^-4 and is exact for d up to 4 |
| FormatToken.PrintedMonotone | frontend/src/lib/formatToken.ts:6-26 | a larger value never prints as a smaller number |
| FormatToken.PrintedShape | frontend/src/lib/formatToken.ts:6-26 | the text is the grouped whole part and, only if there is something to show, a point and up to four decimals that do not end in a zero |
| FormatToken.GroupedShape | frontend/src/lib/formatToken.ts:14-23 | separators stand exactly before every third digit from the end that has a digit before it |
| FormatToken.UngroupGrouped | frontend/src/lib/formatToken.ts:14-23 | group separators can be taken out again without loss |

## Left out

- Trace: the batch fetchers, which drop a first row of an output that already omits the root, so the round trip is not claimed for them; JSON transport, database ids and address metadata of rows.
- CallTrace: rows with empty, repeated or non-canonical addresses, and path indices beyond 2^53, where JavaScript numbers are inexact.
- Text.ToLower: lower-cases ASCII letters only; the texts it is applied to are hexadecimal or call types.
- TtlCache.TTLCache.Get: the LRU's own order and clock; eviction and expiry may happen at any step of the machine.
- WsClient: disconnecting, and connecting while a socket is still connecting, be it by a second scheduled reconnect; one socket at a time opens and closes.
- WsClient.ServerFollowsClient: the read limit on messages is not modelled; a dropped connection is the step in which the socket fails. A handler that throws does not keep the others from running, so handlers count as called.
- Hub.Client.HandleMessage: a reply that finds the buffer full waits for the write pump; the model counts it as queued. The pumps, pings and deadlines are left out, as is the hub's event loop, which runs the modelled methods one at a time.
- EventBus.Delivery: takes publishes one at a time, as the method does; publishers in between each other are the subject of BusConcurrency.
- EventBus: the typed publishing helpers, which marshal their argument and publish it.
- RateLimit.RateLimiter.Middleware: a request is one step; the code looks its entry up before it locks it, so a deletion in between leaves the request counting on an entry no longer stored. Client address parsing and response writing are left out.
- RefreshAuth: the browser's cookie jar and the order in which it receives responses; cookie attributes; hashing of the group key.
- Jwks.AllTtlFetchesExactly: like the bound per caller it assumes fetches that succeed with a non-empty document; with failing or empty ones every call fetches again. Parsing of documents and all cryptography are left out.
- ImpersonationStore.MemoryStore.Lookup: other operations between reading the entry and dropping it are covered by the Drop steps of the run lemmas, not by the method.
- Pagination: the keyset cursor, which the provider computes and the explorer only passes on; parsing of page numbers and sizes, which yields the assumed ranges.
- Pagination.GetPage: the indexer is taken at its contract, newest rows first, with its default and greatest page sizes as parameters; their values are in docs/API.md, which is not part of this model.
- OffsetPaging.GetTransfers: a negative row count is taken to make the indexer fail, and its default and greatest page sizes are parameters.
- OffsetPaging.GetTransactionsPage: a negative page number is taken to make the indexer fail, and pages by number to be of the size asked for, at most 100.
- EventDecoder.DecodeValue: arrays and dynamic types are decoded as the code does, without a claim that the text is the value.
- EventDecoder.DecodeEvent: the table of known events is a parameter; fetching and caching of unknown signatures is I/O.
- Bytecode.CompareBytecode: Keccak is a parameter, any function of the bytes; the functions that only extract or hash metadata are left out.
- FormatToken.FormatTokenValue: values that are not non-negative integers in decimal notation, and grouping in locales other than English.
- HTTP routing, CORS and CSRF, the proxy and database clients, the compiler subprocesses, React components, configuration, metrics and charts: I/O or library code without a property of this kind.
