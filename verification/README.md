# AegisRPC: a verified model

AegisRPC is a JSON-RPC gateway in front of a pool of blockchain nodes. This project models
the parts of it that carry state, interleaving or arithmetic, and proves what they keep:

- **The response store** (`LruSpec.dfy`, `LruTraces.dfy`, `Cache.dfy`): a recency list with
  expiry. The `Cache` class updates a map and a list of shared elements in place and refines
  operations on a sequence; the laws are proved over every operation trace.
- **Round robin** (`RoundRobin.dfy`, `NextRace.dfy`, `LoopRace.dfy`, `Pool.dfy`): the two scheduling
  disciplines over a counter that wraps at 2^64, the loops that retry, proxy and dial across the
  pool, and both among concurrent callers.
- **Health and finality** (`HealthSpec.dfy`, `Finality.dfy`): probe outcomes, lag marking, the
  published head, and the classification of requests into cache layers.
- **The virtual WebSocket session** (`SessionSpec.dfy`, `ReplayExact.dfy`, `Session.dfy`,
  `SessionRun.dfy`, `SessionDrops.dfy`, `Heartbeat.dfy`): the subscription maps, replay on a new upstream, the flush of stashed
  frames, whole runs over any number of failovers, and the ping/pong deadline.
- **The request handler** (`HandlerRun.dfy`, `HandlerStore.dfy`, `Handler.dfy`): concurrent requests as processes
  over the store, singleflight, health rounds and the clock; and the same code sequentially
  over the real store and pool objects.

Inputs from outside are parameters: clock readings, frames read from a connection, the outcome
of each dial and each forwarded request, probe answers, and how a body or a set of parameters
decodes. Time is an integer; strings stand for raw JSON text.

## Results worth reading first

- `SessionRun.NoCrossDelivery` and `SessionRun.NotificationReachesOwner`: over every run in which
  upstream-issued ids are distinct, a notification shown under a live client id was issued for that
  subscription, and one issued by the current upstream to a live subscription is shown under the id
  the client was first given.
- `SessionRun.InverseIffClashFree` and `SessionRun.ReachableInverse`: the two maps are inverse
  throughout a run if and only if every id is installed while no other live subscription holds it,
  and so whenever each id differs from those of the others live when it is issued; ids may otherwise
  recur. `SessionSpec.SwappedIdsMisdeliver` shows the failure.
- `HandlerRun.CacheHitIsGenuine`, `NeverExpiringIsJustified`, `NegHitIsRecentFailure`,
  `OneFetchPerKey`, `FlightSharesOutcome`: provenance of every reply and every stored entry under
  all interleavings, down to the method and parameters asked for.
  `HandlerStore.ResultServesLaterRequests`: the converse, when a fetched result is served again.
- `ReplayExact.ReplaySucceedsIff`, `ReplayBrokenIff`, `StashExact`: what a replay comes to, from the
  frames of the new upstream alone.
- `LruTraces.SmallerCacheIncluded`, `UnlimitedIsTtlMap`, `RecentlyUsedIsRetained`,
  `RetainedIffRoom`, `VictimIsLeastRecentlyUsed`: inclusion between capacities, agreement with a
  plain TTL map, and the LRU laws.
- `RoundRobin.FairIffIntact`, `SharesIffIntact`, `PickReachesIffIntact`, `NextReachesIffIntact`: for
  each discipline, exactly from which counters it shares calls out as intended and lets a retry loop
  reach every node. `NextRace.NilIsHonestIff`, `LoopRace.RetriesAllIff`, `LoopRace.DialsAllIff`: on
  exactly which pools that survives concurrent callers.

## Where the code and its comments differ

The model follows the code.

- The comment on `pump` (internal/proxy/ws.go:352-354) says that a missing Pong drops the upstream
  after `pongWait`. The code counts `pingPeriod + pongWait` from the last Pong
  (internal/proxy/ws.go:362-366), so an unanswered Ping leads to a drop within `pongWait` exactly
  when no Pong came later than the Ping before it; a later Pong delays the drop by as much:
  `Heartbeat.DroppedWithinPongWaitIff`, `Heartbeat.LatePongDelaysDrop`.
- `sfRet` is documented as having exactly one field set (internal/proxy/handler.go:33-37). An empty
  2xx body leaves all three unset, and callers then receive an envelope with neither result nor
  error: `Handler.BareEnvelopeIffEmptyBody`.
- `Next` is documented as returning the first healthy upstream (internal/upstream/upstream.go:102);
  it is round robin, and a counter wrap inside a turn can repeat or miss a node unless the pool size
  divides 2^64: `RoundRobin.WrapRepeats`, `RoundRobin.FairIffIntact`. With concurrent callers it can
  also return nil while a node is healthy, on exactly the pools that have healthy and unhealthy
  nodes: `NextRace.InterruptedMisses`, `NextRace.NilIsHonestIff`.
- `fetchFromUpstream`, `proxyDirect` and `connectUpstream` are documented as trying every node
  before giving up (internal/proxy/handler.go:295, internal/proxy/ws.go:221-223). When other callers
  draw the counter in between they may not; `LoopRace.RetriesAllIff` and `LoopRace.DialsAllIff` say
  on which pools they still do.
- `pending` is documented as holding requests that await their response (internal/proxy/ws.go:89).
  One that a drop leaves unanswered stays there, and a response to anything with the same raw id on
  a later connection is recorded as its subscription: `SessionDrops.UnrelatedResponseSubscribes`,
  `SessionDrops.NoStraysIff`.

## Model

| member | source | states |
|---|---|---|
| LruSpec.SweepExact | internal/cache/cache.go:56-66 | a sweep removes exactly the entries whose expiry has passed, and keys stay distinct |
| LruSpec.EvictIsDrop | internal/cache/cache.go:142-147 | eviction removes exactly the key at the back of the list |
| LruSpec.GetExact | internal/cache/cache.go:81-96 | a lookup answers exactly what is held live for its key, and removes nothing but an expired entry of that key |
| LruSpec.SetThenGet | internal/cache/cache.go:98-121 | what was set is found up to and including the moment its time to live ends, and for ever without one |
| LruSpec.SetExact | internal/cache/cache.go:98-121 | setting a key leaves every other entry alone but the back of a full cache, and that only for a new key |
| LruTraces.ReachableWellFormed | internal/cache/cache.go:98-121 | after any trace keys are distinct and a positive cap is never exceeded |
| LruTraces.SmallerCacheIncluded | internal/cache/cache.go:56-153 | same trace, caps n at most N: the smaller cache is the larger with keys left out (same values, expiries, order), and the larger leads by at most N - n entries |
| LruTraces.SmallerCacheHits | internal/cache/cache.go:81-96 | every hit at the smaller cap is the same hit at the larger cap |
| LruTraces.HitsAgreeWithTtlMap | internal/cache/cache.go:81-121 | at any cap a hit is what a plain TTL map would answer |
| LruTraces.UnlimitedIsTtlMap | internal/cache/cache.go:81-121 | without a cap every lookup, hit or miss, agrees with a plain TTL map when lookups read the clock in order |
| LruTraces.RecentlyUsedIsRetained | internal/cache/cache.go:81-121 | a key set or hit stays a hit until overwritten, deleted, expired, or cap distinct other keys have been inserted or promoted |
| LruTraces.RetainedIffRoom | internal/cache/cache.go:81-121 | over a stretch without deletes, sweeps and expired lookups, a key set or hit before it is a hit at its end if and only if fewer than cap distinct other keys were inserted or promoted |
| LruTraces.RefreshesExact | internal/cache/cache.go:94-120 | an operation on a key leaves an entry of that key at the front exactly when it stored or hit that entry |
| LruTraces.ReachableByRecency | internal/cache/cache.go:94-120 | the list is always sorted by position of last insertion or promotion |
| LruTraces.VictimIsLeastRecentlyUsed | internal/cache/cache.go:115-147 | inserting into a full cache removes exactly the entry whose last use is earliest |
| CacheStore.Cache.constructor | internal/cache/cache.go:29-41 | a new cache is empty and keeps its cap |
| CacheStore.Cache.Get | internal/cache/cache.go:81-96 | acts on the list as the abstract lookup: promote if live, remove if expired |
| CacheStore.Cache.Set | internal/cache/cache.go:98-121 | acts on the list as the abstract insertion, evicting when full |
| CacheStore.Cache.Delete | internal/cache/cache.go:123-129 | removes exactly the key |
| CacheStore.Cache.DeleteExpired | internal/cache/cache.go:56-66 | visiting the map in any order while removing yields the abstract sweep |
| CacheStore.Cache.EvictLRU | internal/cache/cache.go:142-147 | drops the back of the list |
| CacheStore.Cache.RemoveElement | internal/cache/cache.go:150-153 | unlinks one element from list and map |
| CacheStore.Cache.Size | internal/cache/cache.go:131-135 | list length, which equals the number of map entries |
| RoundRobin.NextReturnsEachOnce | internal/upstream/upstream.go:103-113 | h consecutive calls, h the healthy count, return each healthy node exactly once and never nil, when no wrap breaks the turn |
| RoundRobin.NextNilIffNone | internal/upstream/upstream.go:103-113 | nil exactly when no node is healthy, from a counter whose turn no wrap breaks |
| RoundRobin.NextNilIffIntact | internal/upstream/upstream.go:103-113 | nil never hides a healthy node, whatever the health pattern, if and only if the turn does not cross a wrap or n divides 2^64 |
| RoundRobin.NextReachesIffIntact | internal/upstream/upstream.go:103-113 | n calls up to the first nil return every healthy node, whatever the health pattern, if and only if the same condition holds |
| RoundRobin.WrapRepeats | internal/upstream/upstream.go:106 | with every node healthy, a wrap inside a turn, off the turn boundary, makes some node come up twice |
| RoundRobin.FairIffIntact | internal/upstream/upstream.go:103-113 | fair for every health pattern if and only if the turn does not cross a wrap or the pool size divides 2^64 |
| RoundRobin.PickShares | internal/upstream/upstream.go:115-129 | over n calls each eligible node comes up exactly its cyclic distance from the previous eligible node, others never, when no wrap breaks a scan of the turn |
| RoundRobin.SharesIffIntact | internal/upstream/upstream.go:115-129 | the shares are right for every pattern of eligible nodes if and only if no wrap falls within the 2n - 1 positions the turn scans, or n divides 2^64 |
| RoundRobin.GapsSumToPoolSize | internal/upstream/upstream.go:115-129 | those distances add up to n |
| RoundRobin.PickNilIffNone | internal/upstream/upstream.go:115-129 | nil exactly when no node is eligible, from a counter whose turn no wrap breaks |
| RoundRobin.PickNilIffIntact | internal/upstream/upstream.go:115-129 | nil never hides an eligible node, whatever the pattern, if and only if the scan does not cross a wrap or n divides 2^64 |
| RoundRobin.PickReachesIffIntact | internal/upstream/upstream.go:115-129 | n calls up to the first nil return every eligible node, whatever the pattern, if and only if the same condition holds for the first scan |
| RoundRobin.BrokenTurnMisses | internal/upstream/upstream.go:103-129 | from any other counter there is a pool with one permitted node for which both disciplines answer nil |
| RoundRobin.WrapMissesNode | internal/upstream/upstream.go:103-129 | three nodes, only the last permitted, the counter at 2^64 - 1: both answer nil |
| RoundRobin.TurnCoversIffIntact | internal/upstream/upstream.go:106 | n consecutive draws of the counter inspect every node if and only if the turn does not cross a wrap or n divides 2^64 |
| NextRace.TurnServesEachOnce | internal/upstream/upstream.go:103-113 | with any interleaving of callers, n consecutive draws that no wrap breaks inspect each node once and hand each healthy node to exactly one caller |
| NextRace.SoloCallIsNext | internal/upstream/upstream.go:103-113 | a caller nobody interrupts gets the answer of `Next` and leaves its counter |
| NextRace.NilMeansInterrupted | internal/upstream/upstream.go:103-113 | a caller that gets nil while a node is healthy had another caller draw within any turn that no wrap breaks |
| NextRace.NilIsHonestIff | internal/upstream/upstream.go:103-113 | from any counter, nil means that no node is healthy under every interleaving if and only if all nodes are healthy or none is |
| NextRace.InterruptedMisses | internal/upstream/upstream.go:103-113 | two callers on a pool with one healthy node of two: one gets it, the other gets nil |
| LoopRace.RetriesAllIff | internal/proxy/handler.go:255-333 | whatever others draw in between, a retry loop meets every eligible node before it gives up if and only if there is at most one, and that one lies below 2^64 mod n or n divides 2^64 |
| LoopRace.DialsAllIff | internal/proxy/ws.go:224-241 | whatever others draw in between, the dialling loop dials every healthy node before it gives up if and only if there is none or the pool has one node |
| LoopRace.PickCallsAlone | internal/upstream/upstream.go:115-129 | with no other draws the interleaved calls are the single-caller ones |
| LoopRace.NextAlone | internal/upstream/upstream.go:103-113 | with no other draws the interleaved call is `Next` |
| Pool.NodePool.Next | internal/upstream/upstream.go:103-113 | the scanning loop with 64-bit increments computes the abstract rotation |
| Pool.NodePool.NextWithCapability | internal/upstream/upstream.go:115-129 | the scanning loop computes the abstract pick and advances the counter by one |
| Pool.NodePool.Route | internal/router/router.go:27-34 | routes by the capability the method needs: to a healthy node with the debug bit for debug_, the trace bit for trace_, the basic bit otherwise; none only if there is none, from a counter whose turn no wrap breaks |
| Pool.NodePool.MarkLaggingNodes | internal/upstream/upstream.go:133-147 | returns the best healthy height and marks exactly the nodes that lag in unbounded integers, although the code subtracts in wrapping 64-bit arithmetic behind its guard |
| Pool.NodePool.HealthRound | internal/upstream/health.go:39-51 | after a round the head is the best healthy height and every healthy node is within the lag threshold of it |
| Pool.Upstream.CheckNode | internal/upstream/health.go:87-95 | records health, and the height only when one was observed |
| Pool.Upstream.constructor | internal/upstream/upstream.go:33-39 | a node starts healthy at height 0, with the basic capability bit if it has no annotation |
| Pool.FetchFromUpstream | internal/proxy/handler.go:297-333 | tries nodes in routing order, each fit for the method, stops at the first 2xx or 429, gives up only when routing finds no node or the turn is spent, and then, from a counter whose turn no wrap breaks, has tried every fit node |
| Pool.FetchDetermined | internal/proxy/handler.go:297-333 | pool, counter and replies determine the nodes tried and the outcome |
| Pool.FetchStatuses | internal/proxy/handler.go:318-330 | only the last attempt may be a 2xx, whose body is returned, or a 429, whose Retry-After is returned |
| Pool.TryUntilAnswer | internal/proxy/handler.go:303-332 | the loop computes that fetch and advances the counter once per routing call |
| Pool.TryUntilSuccess | internal/proxy/handler.go:256-290 | the loop of the uncached path, likewise |
| Pool.ProxyDirect | internal/proxy/handler.go:255-292 | same order and same giving up, with a 429 an ordinary failure; the attempt served is the one answered 2xx |
| Pool.ConnectUpstream | internal/proxy/ws.go:224-241 | dials in rotation order and gives up only after dialling every healthy node, from a counter whose turn no wrap breaks |
| HealthSpec.RoundFromReplies | internal/upstream/health.go:39-184 | a node that reports its height on the wire is recorded at it, a rate-limited one stays at its old record, and both are routable exactly if within the lag threshold of the head; one that is unreachable or answers otherwise is not routable |
| HealthSpec.HeadHasSource | internal/upstream/health.go:87-184 | a published head above 0 is the height some routable node reported in this round, or the recorded height of one that was rate-limited or reported 0 |
| HealthSpec.MarkLaggingExact | internal/upstream/upstream.go:133-147 | unhealthy exactly when height + threshold < best, best nodes kept, no height changed, none revived, idempotent |
| HealthSpec.MarkKeepsBest | internal/upstream/upstream.go:133-147 | marking does not change the best height, so the returned value is idempotent too |
| HealthSpec.RoundEnd | internal/upstream/health.go:39-51 | head equals the best healthy height and no healthy node lags it by more than the threshold |
| HealthSpec.FinalIsServable | internal/cache/finality.go:40-46 | with lag at most depth, a final block is at or below every routable node's height |
| HealthSpec.LagBeyondDepth | internal/upstream/upstream.go:133-147 | with lag above depth some pool has a final block a healthy node lacks |
| Finality.BlockNumberRoundTrip | internal/upstream/health.go:58-69 | every 64-bit height survives hex encoding and both parsers, larger numbers are refused |
| Finality.ParsersExact | internal/cache/finality.go:49-63 | a block parameter is accepted exactly as 0x or 0X and a hexadecimal number of 64 bits in either case, with or without leading zeros; the health probe takes only 0x |
| Finality.FinalizedIsDeep | internal/cache/finality.go:40-46 | the guarded wrapping subtraction judges a block final exactly when block + depth is at most the head in unbounded integers |
| Finality.ImmutableIffJustified | internal/cache/finality.go:104-137 | immutable exactly for the four hash-addressed methods, or a block parameter, first for eth_getBlockByNumber and second for eth_getBalance, eth_call and eth_estimateGas, that is earliest, finalized or a number at least depth below the head |
| Finality.CacheableIsEth | internal/cache/finality.go:104-137 | only methods whose name starts with eth_ are ever cached |
| Finality.CacheableIff | internal/cache/finality.go:104-137 | exactly the eleven listed methods are cached; every other, such as eth_sendRawTransaction, is not |
| Finality.CacheableHasNoColon | internal/cache/finality.go:104-137 | no cacheable method name holds a colon |
| Finality.FinalityChecker.SetHead | internal/cache/finality.go:31-35 | replaces the head, which may go down |
| SessionSpec.RecordKeepsInverse | internal/proxy/ws.go:504-513 | recording a subscription keeps the maps inverse if and only if its id clashes with no live subscription |
| SessionSpec.RebindKeepsInverse | internal/proxy/ws.go:336-341 | a replay reply keeps the maps inverse if and only if its id is no other live subscription's |
| SessionSpec.EndKeepsInverse | internal/proxy/ws.go:534-547 | unsubscribing always keeps the maps inverse |
| SessionSpec.ForwardExact | internal/proxy/ws.go:458-518 | of an upstream frame only the subscription a notification names may change, to the client id mapped to; a response to a pending request is the only frame that changes the maps, and how |
| SessionSpec.SentUnchanged | internal/proxy/ws.go:471-490 | a frame that is no notification, or names an id mapped to itself or not at all, is passed on as it is |
| SessionSpec.SwappedIdsMisdeliver | internal/proxy/ws.go:336-341 | two subscriptions handed each other's old ids: one loses its mapping and its notifications appear under the other's id |
| SessionSpec.TargetExact | internal/proxy/ws.go:317-327 | a frame is a replay reply exactly when its string id names an awaited subscription |
| SessionSpec.StashedFrames | internal/proxy/ws.go:283-327 | the stash is the first cap frames that answer no outstanding request, in arrival order |
| ReplayExact.ReplayBrokenIff | internal/proxy/ws.go:301-343 | a replay breaks off exactly when the first response to some replay request carries an error or no result |
| ReplayExact.ReplaySucceedsIff | internal/proxy/ws.go:248-344 | a replay succeeds exactly when the first response to every replay request has a result and no error, and each subscription then holds that result |
| ReplayExact.StashExact | internal/proxy/ws.go:283-327 | the stash is, in order and up to the cap, the frames read before the replay was over that are no first response to a replay request |
| SessionSpec.ReplayProgress | internal/proxy/ws.go:301-343 | however far a replay gets, client ids and params stay, maps stay inverse, and each answered subscription holds the id issued for it |
| SessionSpec.ReplayRestoresSubscriptions | internal/proxy/ws.go:248-344 | after success every subscription has its client id and params, an id of the new upstream, one mapping, and notifications under its client id |
| SessionSpec.FlushUsesFinalMapping | internal/proxy/ws.go:203-209 | every flushed frame, notification or not, is sent exactly as the mapping the replay completed says, all other fields kept, and mappings stay, if each subscription the flush confirms has an id shown as itself |
| SessionSpec.FlushKeepsNamesIff | internal/proxy/ws.go:203-209 | the completed mapping names every notification throughout the flush if and only if each subscription confirmed on the way has an id shown as itself by then |
| SessionSpec.StashedNotificationRemapped | internal/proxy/ws.go:203-209 | a notification that preceded its own replay reply still reaches the client under its client id with every other field kept, if the frames flushed before it confirm only ids shown as themselves |
| SessionRun.StepKeepsInv | internal/proxy/ws.go:170-219 | every step of a session keeps the ledger invariant when issued ids are fresh |
| SessionRun.InverseIffClashFree | internal/proxy/ws.go:336-341 | the maps are inverse throughout a run if and only if every id is installed while no other live subscription holds it |
| SessionRun.ReachableInverse | internal/proxy/ws.go:336-341 | in every reachable state, also after a broken-off replay, the maps are inverse, if each id differs from those of the other subscriptions live when it is issued |
| SessionRun.NoCrossDelivery | internal/proxy/ws.go:471-490 | no notification is shown under a live client id of another subscription, in any run |
| SessionRun.NotificationReachesOwner | internal/proxy/ws.go:471-490 | a notification for an id the current upstream issued to a live subscription is shown under the first id the client was given |
| SessionRun.BoundToCurrentUpstream | internal/proxy/ws.go:188-211 | while frames flow every live subscription is bound to an id of the current connection |
| SessionRun.UnsubscribeNamesCurrentId | internal/proxy/ws.go:522-558 | an unsubscribe is sent with the id the current upstream issued, and leaves no mapping behind |
| SessionRun.PendingBoundedAndTraceable | internal/proxy/ws.go:418-514 | in every run, whatever ids upstreams issue: at most 1024 pending requests, and the params of every subscription are those of a client request whose raw id the confirming response echoed |
| SessionRun.SubscriptionSurvives | internal/proxy/ws.go:165-219 | a subscription keeps its client id and params through any drops and replays until cancelled, when issued ids are fresh |
| SessionRun.KeptUntilOverwritten | internal/proxy/ws.go:165-219 | whatever ids upstreams issue, it lasts until cancelled or until an upstream issues its client id once more |
| SessionDrops.ConfirmedOnOwnConnection | internal/proxy/ws.go:418-514 | a run that never reconnects with a request unanswered confirms each subscription on the connection its request was sent on |
| SessionDrops.NoStraysIff | internal/proxy/ws.go:418-514 | after a drop, confirmations up to the next drop answer only requests sent on the same connection if and only if no request with an id was left unanswered |
| SessionDrops.UnrelatedResponseSubscribes | internal/proxy/ws.go:492-514 | subscribe with id 5, drop, reconnect, an unrelated response with id 5: it becomes a live subscription |
| SessionRun.SectionsMakeForward | internal/proxy/ws.go:492-517 | the two critical sections for a response add up to handling it at once |
| SessionRun.ReplayMeetIsReplayStep | internal/proxy/ws.go:301-342 | the replay steps of a run are those of the replay loop |
| WsSession.Session.constructor | internal/proxy/ws.go:108-119 | a new session has no subscriptions, mappings or pending requests |
| WsSession.Session.ForwardToUpstream | internal/proxy/ws.go:412-434 | registers a subscribe exactly when fewer than 1024 are pending and otherwise rejects it, rewrites an unsubscribe, passes everything else |
| WsSession.Session.RewriteUnsubscribe | internal/proxy/ws.go:522-558 | of a known subscription forgets exactly that one and its mapping and substitutes the upstream id for the first argument; otherwise changes nothing |
| WsSession.Session.ForwardToClient | internal/proxy/ws.go:458-518 | renames notifications keeping every other field, records confirmed subscriptions, passes everything else |
| WsSession.Session.NoteResponse | internal/proxy/ws.go:492-514 | the response to a pending request ends it, and a string result becomes a subscription with the request's params |
| WsSession.Session.SendReplays | internal/proxy/ws.go:260-277 | one replay request per subscription with its params, or an error at the first failed write |
| WsSession.Session.ReplaySubscriptions | internal/proxy/ws.go:248-344 | the loop over a shrinking request map and a growing stash computes the abstract replay, in place; it succeeds exactly when the first response to every request has a result and no error |
| WsSession.Session.Reconnect | internal/proxy/ws.go:197-209 | replay, then flush in order, before any other frame |
| Heartbeat.ReadUntilTimeout | internal/proxy/ws.go:362-379 | reads exactly the frames that meet the deadline and times out at it |
| Heartbeat.DeadlineIsLastPong | internal/proxy/ws.go:362-366 | the deadline is one window past the last Pong, or past the start |
| Heartbeat.SilentUpstreamIsDropped | internal/proxy/ws.go:362-379 | without a Pong after time s the read deadline is at most s + pingPeriod + pongWait, and nothing later is read, whatever else arrives |
| Heartbeat.ResponsiveIsKept | internal/proxy/ws.go:381-399 | an upstream answering each Ping within pongWait is never timed out, over any number of pings |
| Heartbeat.ResponsiveOutlivesPings | internal/proxy/ws.go:362-399 | after m answered Pings the reader times out no sooner than pongWait past the next one |
| Heartbeat.DroppedWithinPongWaitIff | internal/proxy/ws.go:362-366 | the drop comes within pongWait of an unanswered Ping if and only if no Pong came later than the Ping before it |
| Heartbeat.LatePongDelaysDrop | internal/proxy/ws.go:362-366 | a prompt but not immediate Pong puts the drop past pongWait after the next Ping |
| HandlerRun.StepKeepsInv | internal/proxy/handler.go:105-213 | every step of any interleaving keeps the provenance, flight and cluster invariants |
| HandlerRun.CacheHitIsGenuine | internal/proxy/handler.go:124-138 | a hit carries the caller's id and the non-empty result of an error-free fetch for the same method and canonical parameters, stored at most mutableTTL earlier if mutable |
| HandlerRun.NeverExpiringIsJustified | internal/proxy/handler.go:169-173 | a never-expiring entry was written by a request immutable when classified; a numbered block was then at or below every routable node's height if classified between rounds |
| HandlerRun.OneFetchPerKey | internal/proxy/handler.go:141-175 | at most one fetch per key is in flight |
| HandlerRun.FollowerGetsLeadersOutcome | internal/proxy/handler.go:141-175 | a coalesced caller waits on the leader of its own key, and holds an outcome that leader fetched |
| HandlerRun.FlightSharesOutcome | internal/proxy/handler.go:141-213 | every member of a flight, leader or follower, is sent the one outcome its leader fetched for the same method and canonical parameters, rendered with its own id |
| HandlerRun.ReplyRendersFetch | internal/proxy/handler.go:176-213 | any other reply is the caller's rendering of a fetch made for the same method and canonical parameters: its own id with the fetched result or error, the raw body, or the failure |
| HandlerRun.NegHitIsRecentFailure | internal/proxy/handler.go:117-149 | a negative hit implies a non-429 fetch failure for the same method and canonical parameters within the last second |
| HandlerRun.OnlyResultsAndFailuresAreStored | internal/proxy/handler.go:143-173 | over any stretch of a run in which only 429s, RPC errors, non-JSON and result-less bodies complete, nothing enters the store and only expired entries leave it |
| HandlerRun.KeysNeverAlias | internal/cache/cache.go:68-79 | a cacheable request's key is never a negative key |
| HandlerRun.KeyDeterminesRequest | internal/cache/cache.go:68-79 | two cacheable requests have the same key exactly when method and canonical parameters agree |
| HandlerRun.LookUpExact | internal/proxy/handler.go:115-138 | the store answers a live failure of the call first, then its live result under the caller's id, else nothing |
| HandlerRun.ResultIsServed | internal/proxy/handler.go:169-173 | a fetched result is found for the same call up to mutableTTL later if mutable, for ever otherwise |
| HandlerRun.FailureIsRemembered | internal/proxy/handler.go:143-149 | a non-429 failure is found for the same call for exactly a second |
| HandlerStore.StoreIsTrace | internal/proxy/handler.go:115-173 | the store of any run is the cache after the trace of the operations its actions perform |
| HandlerStore.ResultServesLaterRequests | internal/proxy/handler.go:124-173 | whatever runs in between, a stored result is served to a later request for the same call under its own id, unless rewritten, expired, or crowded out by as many other keys as the cap |
| HandlerRun.StoreStaysWellFormed | internal/cache/cache.go:98-121 | the store keeps distinct keys and its cap in every interleaving |
| HandlerRun.SettledBetweenRounds | internal/upstream/health.go:39-51 | between rounds the head is the greatest height of a routable node, none is more than the lag behind, and every routable node has every block judged final, if lag is at most depth |
| HandlerRun.SoloRunIsServeAlone | internal/proxy/handler.go:105-213 | a request whose steps are not interrupted ends with the store and reply of the sequential handler |
| Handler.Server.ServeHTTP | internal/proxy/handler.go:105-213 | the sequential handler over the real store and pool: proxied along the routing order, answered from the store with no node contacted, or fetched; then error, result and raw body are sent as the last body parses, and only a result or the mark of a failure enters the store |
| Handler.Server.LookUpReply | internal/proxy/handler.go:115-138 | negative lookup first, then the positive one |
| Handler.Server.FetchAndStore | internal/proxy/handler.go:141-175 | fetches along the routing order; what enters the store is the result the last 2xx body parses to without an error, with the layer TTL, or the mark of a failure for a second |
| Handler.Server.StoreOutcome | internal/proxy/handler.go:143-173 | stores a result for its layer, a non-429 failure for a second, nothing else |
| Handler.RenderedFetchFits | internal/proxy/handler.go:141-212 | from statuses and bodies alone: an error envelope exactly for a body with an error, a result envelope for one with a result, the raw body for one with neither or that does not parse, 429 and gateway errors otherwise |
| Handler.StoredFetchFits | internal/proxy/handler.go:142-174 | from statuses and bodies alone: what enters the store is the result of a 2xx body without an error, or the mark that no node answered; and such a result does enter |
| Handler.BareEnvelopeIffEmptyBody | internal/proxy/handler.go:150-212 | an envelope without result and error is sent exactly when an upstream answered 2xx with an empty body |

## Left out

- Origin checks and the WebSocket upgrade: access policy that depends on URL parsing.
- JSON encoding and decoding: frames, bodies and parameters appear as what the code decodes from them; canonicalisation of cache keys is the `canonical` field, and nothing is claimed about its injectivity.
- A notification whose `params` field is spelled in another letter case: the code decodes it but does not rewrite it, and the model has one spelling.
- SessionRun.Step: assumes that the reader of a dropped upstream has stopped before the next replay; the exit on a failed upstream write (internal/proxy/ws.go:404-406) does not wait for it.
- SessionRun.NoCrossDelivery: speaks of the mapping at the critical section; the write to the client happens after it.
- Health that changes while callers scan the pool: the rotation results, also those for concurrent callers, are for fixed health.
- Whether entries tagged "finalized", or a `null` result, are semantically immutable: only their provenance is stated.
- Termination of the reconnect loop, which retries without a bound.
- Panics inside a flight, and singleflight's own locking: its one-flight-per-key behaviour is taken as given in the steps.
- Batch requests, body size limits and malformed requests of the HTTP handler: single-branch cases that never reach the store.
- Capability annotations in URLs and the printed form of capabilities: string handling with no state.
- The Redis store, metrics, logging, the capability prober, configuration parsing, and the HTTP server: I/O and library wrappers.
