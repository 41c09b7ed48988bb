# Reverse proxy: verified models

Dafny models of the stateful core of a reverse proxy written in Go: the
windowed counters behind canary draining and rollout gates, the
reference-counted snapshot store and the staged rollout that swaps
snapshots, the merge of provider configurations, retry budgets and the retry
loop, upstream pools with draining and ejection, circuit breakers, limiters,
request coalescing, and the mask of the locked rollout stage. Check
everything with

    dafny verify dfyconfig.toml

## How it is organised

| file | component |
|---|---|
| Arith.dfy, Options.dfy | division facts shared by rings, turns and failure shares; optional values |
| TrafficStats.dfy | windowed traffic counters and the canary drain controller |
| RollingCounter.dfy | per-second response counters behind the rollout gates |
| StoreProtocol.dfy | the snapshot store as a concurrent protocol, split at its atomic operations |
| SnapshotStore.dfy | the same store call by call, and the staged rollout |
| Configuration.dfy | the configuration as data |
| ProviderMerge.dfy, ProviderConfig.dfy, ProviderMeaning.dfy | merging routes and pools; loading, sorting and merging whole configurations; what the result holds of the providers' own routes and pools |
| RetryBudget.dfy | token budgets, one request's use of them, and all requests of a route together |
| RetryExecute.dfy, RetryRegistry.dfy, ClientCap.dfy | the retry loop, the budgets per route, the per-client budgets |
| EjectBackoff.dfy, Pool.dfy, EndpointHealth.dfy | ejection times; endpoints, reconciliation, picking and reaping; an endpoint's health over whole runs |
| OutlierState.dfy, LatencyWindow.dfy, EjectLimit.dfy | outlier detection by outcomes and by latency; how much of a pool it can eject |
| Breaker.dfy, PluginBreaker.dfy | the two circuit breakers |
| RateLimiter.dfy, OverloadLimiter.dfy, Coalescer.dfy | admin rate limit, admission with a queue, single flight |
| TrafficSplit.dfy, RolloutMask.dfy | choosing a variant; the mask of the locked stage and the checks a configuration passes |

Objects the proxy changes in place are classes whose methods equate the new
state with a function of the old one; what is promised is then proved of
those functions, over whole runs. Protocols of several goroutines are state
machines over their atomic steps. Clocks, random values, hashes, upstream
outcomes and budget answers are inputs. Durations are whole nanoseconds.

## Where the code and its documents differ

- docs/INVARIANTS.md:13-18 calls swaps linearizable and snapshots valid until
  their last release. Reference counts are right in every interleaving, and
  nothing retired is left behind, but a held snapshot can be neither current
  nor retired after an Acquire overtaken by a Swap, or after two overlapping
  Swaps (`StoreProtocol.AcquireOvertaken`, `StoreProtocol.SwapsOverlap`).
  Ruling out both orders of calls is exactly what prevents it
  (`StoreProtocol.ReachableExactlyInOrder`).
- The repository's README.md:294 shows a limit on how much of a pool may be ejected. The code
  reads and defaults max_eject_percent (internal/runtime/snapshot.go:180) and
  then uses it nowhere. Every enabled pool with a limit below 100 percent can
  exceed it (`EjectLimit.ConfiguredLimitFails`); which limits are kept under
  which settings is `EjectLimit.LimitKeptExactly`.

## What else the proofs brought up

- The gates may ask for a longer window than the ten seconds the counter
  covers (internal/rollout/gates.go:23-31, internal/obs/metrics.go:260); such
  windows undercount (`RollingCounter.LongWindowsMiss`), exactly when an event
  was overwritten (`RollingCounter.ExactIffNothingLost`).
- The ejection loop wraps around 64 bits for very large settings; the exact
  condition is `EjectBackoff.DoublingExactly`.
- The doubling of a pool's ejections stops once an endpoint has not been
  healthy for five minutes: from then on it is ejected for the base time
  each time again (`EndpointHealth.ShortExactly`, `EndpointHealth.LateHappens`).
- A half-open breaker whose probe places are all taken by requests that never
  report stays that way, exactly until something is reported
  (`Breaker.StuckExactly`); which configurations can come to that is
  `Breaker.CanGetStuckExactly`. A plugin's breaker denies in the same way
  (`PluginBreaker.StuckExactly`, `PluginBreaker.ProbesRunOut`).
- After a block the admin limiter's failure count is not cleared
  (`RateLimiter.BlocksExactly`, `RateLimiter.BlockedAgain`,
  `RateLimiter.BlockHappens`).
- Merging drops limits, shutdown, logging and metrics settings: the merged
  configuration has none, whatever the providers give.

## Model

| member | source | states |
|---|---|---|
| `TrafficStats.Stats.constructor` | internal/traffic/stats.go:34-51 | An empty ring with enough buckets to cover the window; windows of zero or less become a minute, buckets last a second or the whole window if that is shorter |
| `TrafficStats.Stats.RotateLocked` | internal/traffic/stats.go:103-127 | Rotation keeps the ring invariant: each slot holds exactly the events of its own stretch of time, and the current slot covers now |
| `TrafficStats.Stats.ClearAll` | internal/traffic/stats.go:112-121 | When the clock jumped past the whole ring, clearing it is right: no recorded event is still within reach |
| `TrafficStats.Stats.Advance` | internal/traffic/stats.go:122-126 | Opening any number of new buckets one by one keeps the ring invariant and moves the current start by that many bucket widths |
| `TrafficStats.Stats.Record` | internal/traffic/stats.go:53-76 | The request joins the history at the time it was recorded, with its variant and error flag, and the ring still represents the whole history |
| `TrafficStats.Stats.WindowTotals` | internal/traffic/stats.go:78-101 | All four totals count exactly the events at or after one common instant, which is never before the window and at most one bucket late |
| `TrafficStats.Stats.SumLive` | internal/traffic/stats.go:87-98 | Summing the slots in array order, across the point where the ring wraps, adds up to exactly the events since the oldest live slot |
| `TrafficStats.Stats.TotalsBracketed` | internal/traffic/stats.go:78-101 | On a clock that never runs backwards each total lies between the number of matching events of the last window less one bucket and the number of the last window, and nothing counted lies in the future |
| `TrafficStats.TotalsMean` | internal/traffic/stats.go:53-101 | Each of the four totals is the number of recorded requests of its variant, or of those that failed, at or after the common instant |
| `TrafficStats.RingAdvances` | internal/traffic/stats.go:122-126 | Advancing the ring by one emptied slot preserves the slot-by-slot meaning of the ring |
| `TrafficStats.RingCleared` | internal/traffic/stats.go:112-121 | A cleared ring represents any history that lies wholly before its reach |
| `TrafficStats.RingRecords` | internal/traffic/stats.go:53-76 | Counting an event in the current slot preserves the meaning of every slot |
| `TrafficStats.SumAll` | internal/traffic/stats.go:87-98 | The telescoping sum over all slots is the number of events since the cutoff |
| `TrafficStats.AutoDrain.constructor` | internal/traffic/stats.go:144-155 | A new controller has not drained anything |
| `TrafficStats.AutoDrain.Evaluate` | internal/traffic/stats.go:195-218 | The drain deadline is extended exactly when the window calls for it (enough canary requests, some of them failed, and no stable requests or a canary error share of at least the multiple of the stable one), and never cut short |
| `TrafficStats.ShouldDrainMeans` | internal/traffic/stats.go:195-218 | A window calls for a drain if and only if there are enough canary requests, one of them failed, and there are no stable requests or the canary error rate is at least the multiple of the stable one |
| `TrafficStats.AutoDrain.DrainUntil` | internal/traffic/stats.go:220-234 | The deadline only ever moves forward, and only for a positive cool-off |
| `TrafficStats.CrossMultiplied` | internal/traffic/stats.go:206-217 | Comparing the two error shares is comparing their cross products |
| `RollingCounter.Counter.constructor` | internal/obs/rolling.go:20-29 | One slot per whole second of the window, at least one; ten seconds by default |
| `RollingCounter.Counter.Record` | internal/obs/rolling.go:31-48 | Recording keeps every slot equal to the events of the latest second recorded in it |
| `RollingCounter.Counter.Counts` | internal/obs/rolling.go:50-76 | Both counts are those of the events of the window that no later second has overwritten |
| `RollingCounter.WithinIs` | internal/obs/rolling.go:50-76 | A window's count is the number of recorded events with a second in it |
| `RollingCounter.KeptIs` | internal/obs/rolling.go:50-76 | An answer for any window is the number of its events after which no later second reached the same slot |
| `RollingCounter.SlotRecords` | internal/obs/rolling.go:38-46 | A slot taken over by a newer second forgets the older one and nothing else |
| `RollingCounter.SlotContribution` | internal/obs/rolling.go:65-73 | What one slot adds to an answer |
| `RollingCounter.ExactIffNothingLost` | internal/obs/rolling.go:50-76 | An answer is exact if and only if no event of the window was overwritten |
| `RollingCounter.ShortWindowsExact` | internal/obs/rolling.go:50-76 | Windows from one second to the size of the ring are exact, whatever was recorded |
| `RollingCounter.LongWindowsMiss` | internal/rollout/gates.go:23-31 | Every window longer than the ring can miss events: two requests one ring length apart are enough |
| `StoreProtocol.CountedKept` | internal/runtime/refcount.go:5-38 | Every atomic step keeps reference counts equal to the references handed out |
| `StoreProtocol.LockedKept` | internal/runtime/store.go:60-81 | Every atomic step keeps the mutex held by exactly the call inside a critical section |
| `StoreProtocol.StampedKept` | internal/runtime/store.go:71-77 | Whatever is in the retired list carries its retirement stamp |
| `StoreProtocol.AttendedKept` | internal/runtime/store.go:41-136 | Every atomic step leaves each unheld retired entry with some call still due to check or reap it |
| `StoreProtocol.InvKept` | internal/runtime/store.go:41-136 | The whole invariant is kept by every atomic step of Acquire, Release, Swap and Reap |
| `StoreProtocol.InvAlways` | internal/runtime/store.go:41-136 | The invariant holds in every state any interleaving can reach |
| `StoreProtocol.RetiredAreReclaimed` | internal/runtime/store.go:50-136 | After any interleaving an unheld retired snapshot has a call due to reap it, and once no Release or Swap is in progress every retired entry is held by someone |
| `StoreProtocol.MeasureFalls` | internal/runtime/store.go:41-136 | Every step of a call in progress lowers a bound on the steps all of them have left, even as Swaps still append to the list being reaped |
| `StoreProtocol.SomeoneContinues` | internal/runtime/store.go:41-136 | While a call is in progress some call can take a step: the mutex cannot leave everyone waiting |
| `StoreProtocol.EventuallyReclaimed` | internal/runtime/store.go:41-136 | From every reachable state, with no new calls, only so many steps are possible, they can go on exactly as long as a call is in progress, and then every retired entry is held |
| `StoreProtocol.HeldReachableInOrder` | internal/runtime/store.go:41-81 | In every run in which Swaps do not overlap and none stores between the load and the increment of an Acquire, every held snapshot is current or retired in every state |
| `StoreProtocol.ReachableExactlyInOrder` | internal/runtime/store.go:41-81 | Whatever the store starts with, keeping to both of these orders is exactly what it takes: with either one dropped, some run loses sight of a held snapshot |
| `StoreProtocol.AcquireOvertaken` | internal/runtime/store.go:41-48 | Without the second order: an Acquire overtaken by a whole Swap holds a snapshot that is neither current nor retired, even if Swaps never overlap |
| `StoreProtocol.SwapsOverlap` | internal/runtime/store.go:60-81 | Without the first: of two Swaps that loaded the same snapshot the second stores over the first one's, held and never retired, even if no Swap stores during an Acquire |
| `SnapshotStore.Store.constructor` | internal/runtime/store.go:24-28 | A new store serves its initial snapshot, if any, with nothing retired or held |
| `SnapshotStore.Store.Acquire` | internal/runtime/store.go:41-48 | The caller gets the current snapshot and one reference to it; the store's invariant is kept |
| `SnapshotStore.Store.Release` | internal/runtime/store.go:50-58 | Releasing gives one reference back; the retired list afterwards is exactly its held entries, in order |
| `SnapshotStore.Store.DropReference` | internal/runtime/store.go:50-58 | Between the decrement and the reap only the released snapshot can be retired and unheld |
| `SnapshotStore.Store.Swap` | internal/runtime/store.go:60-81 | The new snapshot is current, the old one joins the retired list exactly if it is held, references are untouched; the new one may itself have been retired before |
| `SnapshotStore.Store.Install` | internal/runtime/store.go:71-77 | The critical section stamps and appends the outgoing snapshot before storing the incoming one |
| `SnapshotStore.Store.Reap` | internal/runtime/store.go:116-136 | The retired list is filtered down to exactly its held entries |
| `SnapshotStore.Store.Compact` | internal/runtime/store.go:125-134 | The in-place filter equals the filter as a function |
| `SnapshotStore.KeptIsHeld` | internal/runtime/store.go:125-134 | The filter keeps an entry if and only if it is held |
| `SnapshotStore.ApplyBundle` | internal/rollout/rollout.go:52-112 | After each possible answer of validation, locked apply, bake, gates and full apply, which snapshot is served: the old one on every failure but a cancelled bake, which leaves the locked one |
| `SnapshotStore.Rollback` | internal/rollout/rollout.go:125-137 | The previous snapshot is served again, all references intact, even though it was retired in between |
| `ProviderMerge.OverlayRouteIsLast` | internal/provider/merge.go:185-198 | An overlay succeeds exactly when both mentions agree on everything but weights and overlay flag, and then yields the overlaying mention |
| `ProviderMerge.OverlayPoolIsLast` | internal/provider/merge.go:200-211 | The same for pools and their endpoints |
| `ProviderMerge.RouteFieldIsNamed` | internal/provider/merge.go:215-262 | If no field of two mentions of a route is named as conflicting, they do not differ |
| `ProviderMerge.PoolFieldIsNamed` | internal/provider/merge.go:264-278 | A pool conflict without a named field is about the transport settings |
| `ProviderMerge.NewRoute` | internal/provider/merge.go:83-91 | A first mention extends the table of routes and keeps it resolved and indexed |
| `ProviderMerge.KnownRoute` | internal/provider/merge.go:93-110 | A later mention takes the place of the entry and keeps its position |
| `ProviderMerge.MergeRoute` | internal/provider/merge.go:79-120 | A mention is accepted exactly if it is the first, repeats the last one or overlays it without touching its core; the table then resolves the mentions so far, otherwise the conflict names field and both providers |
| `ProviderMerge.MergeRoutes` | internal/provider/merge.go:79-120 | All routes of a provider: either the table resolves all mentions, or the conflict is the one of the first mention that does not fit |
| `ProviderMerge.MergePool` | internal/provider/merge.go:122-160 | One pool changes only its own name's entry, accepted under the same rule as routes |
| `ProviderMerge.MergePools` | internal/provider/merge.go:122-160 | All pools of a provider, in whatever order the map is walked: every name ends up as its last mention, or the conflict is a real one; what last mentions are is ProviderMeaning.PoolIsLastGiven |
| `ProviderMerge.IdsMentioned` | internal/provider/merge.go:83-91 | The table has an entry for an ID if and only if some provider mentions it |
| `ProviderConfig.LoadAll` | internal/provider/merge.go:17-30 | The configurations loaded in order without missing providers and configurations, or the error of the first provider that fails |
| `ProviderConfig.StableSortSorts` | internal/provider/merge.go:32-34 | Sorting orders by priority and keeps the order among equal priorities |
| `ProviderConfig.OrderIsUnique` | internal/provider/merge.go:32-34 | There is only one order by priority that keeps the entries of each priority in order |
| `ProviderConfig.SortIgnoresOrder` | internal/provider/merge.go:32-34 | Provider lists that agree priority by priority are sorted alike |
| `ProviderConfig.MergeListen` | internal/provider/merge.go:49-62 | The listen address is the first given one; a different later one is a conflict naming both providers |
| `ProviderConfig.MergeTls` | internal/provider/merge.go:64-77 | The TLS settings are the first non-empty ones; different later ones are a conflict naming both providers |
| `ProviderConfig.MergeEntry` | internal/provider/merge.go:45-161 | One provider's configuration: everything merged so far still stands for all mentions, or the conflict is the first in the order listen address, TLS, routes, pools |
| `ProviderConfig.MergeEntries` | internal/provider/merge.go:45-166 | All providers in order: mergeable and the result stands for all mentions, or the conflict of the first provider that does not fit |
| `ProviderConfig.Merge` | internal/provider/merge.go:16-167 | A load error if and only if a provider fails to load; otherwise success if and only if the sorted entries are mergeable, with listen address and TLS as first given and every route and pool as its last mention; what that means of the providers' own routes and pools is in ProviderMeaning |
| `ProviderConfig.ConflictIsReal` | internal/provider/merge.go:45-161 | A reported conflict means that the entries really do not agree: they are not mergeable |
| `ProviderConfig.StandsForOne` | internal/provider/merge.go:45-166 | Only one configuration stands for given entries, so the order in which pool maps are walked cannot show in the result |
| `ProviderConfig.MergeIgnoresOrder` | internal/provider/merge.go:16-167 | Only the order among providers of equal priority can change the result |
| `ProviderConfig.MentionsShareCore` | internal/provider/merge.go:79-120 | All mentions of a route agree on everything but weights and overlay flag |
| `ProviderConfig.PoolMentionsShareCore` | internal/provider/merge.go:122-160 | All mentions of a pool agree on everything but endpoints and overlay flag |
| `ProviderConfig.IdsDistinct` | internal/provider/merge.go:83-91 | Route IDs in order of first mention are distinct |
| `ProviderConfig.RouteIdsDistinct` | internal/provider/merge.go:79-120 | No two routes of a merged configuration share an ID |
| `ProviderConfig.MergeAgain` | internal/provider/merge.go:16-167 | Feeding the merged configuration back as one more provider merges again into the same configuration |
| `ProviderMeaning.PoolIsLastGiven` | internal/provider/merge.go:122-160 | In a merged configuration a pool is what the last provider that has it gives, overlay or not, with the overlay flag cleared |
| `ProviderMeaning.PoolIsGiven` | internal/provider/merge.go:122-160 | Every pool of a merged configuration has a name and is the one of the last provider that has it |
| `ProviderMeaning.PoolAgreesExactly` | internal/provider/merge.go:128-158 | The providers agree on a pool if and only if each gives what the one before gave: same health, breaker, outlier and transport settings, and the same endpoints unless it overlays them |
| `ProviderMeaning.RouteIsLastGiven` | internal/provider/merge.go:79-120 | In a merged configuration a route is what the last provider's route with that ID gives, overlay or not, with the overlay flag cleared |
| `ProviderMeaning.RouteIsGiven` | internal/provider/merge.go:79-120 | Every route of a merged configuration has an ID and is the last provider's route with it |
| `ProviderMeaning.RoutesInOrder` | internal/provider/merge.go:83-91 | Merged routes come in the order in which the providers first have them |
| `ProviderMeaning.AgreeingRoutesFit` | internal/provider/merge.go:93-118 | If the providers agree on routes, each route repeats the one before of its ID or overlays only its two traffic weights |
| `ProviderMeaning.ClashingRoutes` | internal/provider/merge.go:93-118 | If they do not, there are two routes of one ID, with none of it in between, of which the second does neither |
| `ProviderMeaning.ListenIsFirstGiven` | internal/provider/merge.go:49-62 | The merged listen address is the first one any provider gives, and empty if none does |
| `ProviderMeaning.TlsIsFirstGiven` | internal/provider/merge.go:64-77 | The merged TLS settings are the first that differ from the empty ones in anything |
| `ProviderMeaning.ListensAgreeExactly` | internal/provider/merge.go:49-62 | Providers agree on the listen address if and only if all that give one give the same |
| `ProviderMeaning.TlsAgreeExactly` | internal/provider/merge.go:64-77 | Providers agree on TLS if and only if all that give settings give the same |
| `ProviderMeaning.PoolConflictNames` | internal/provider/merge.go:122-160 | A pool conflict names the provider whose pool does not fit and the one that gave the pool the value it does not fit |
| `ProviderMeaning.RouteConflictNames` | internal/provider/merge.go:79-120 | A route conflict names the provider of the first mention that does not fit and the one that gave the route the value it does not fit |
| `ProviderMeaning.RouteFieldDiffers` | internal/provider/merge.go:215-262 | The field a route conflict names is one the two mentions differ in: host, path prefix, methods, pool |
| `ProviderMeaning.PolicyFieldDiffers` | internal/provider/merge.go:215-262 | And so for every field of its policy |
| `ProviderMeaning.PoolFieldDiffers` | internal/provider/merge.go:264-278 | And for pools: endpoints, health, breaker, outlier settings |
| `ProviderMeaning.EntriesAreLoaded` | internal/provider/merge.go:17-30 | Every provider that loads a configuration contributes it under its own name and priority, in order, and no other does |
| `RetryBudget.Fresh` | internal/retry/budget.go:13-18 | A new budget is valid and worth nothing |
| `RetryBudget.Credited` | internal/retry/budget.go:20-39 | A success earns at most its percentage of a token, exactly that below the burst, and keeps tokens between zero and the burst |
| `RetryBudget.Spent` | internal/retry/budget.go:41-52 | A granted token costs exactly one token |
| `RetryBudget.EarnsExactly` | internal/retry/budget.go:20-39 | After n successes a new budget holds exactly n times the percentage, in hundredths of a token, as long as that stays below the burst |
| `RetryBudget.Budget.constructor` | internal/retry/budget.go:13-18 | A new budget holds no tokens |
| `RetryBudget.Budget.RecordSuccess` | internal/retry/budget.go:20-39 | The accumulated fractions are turned into whole tokens as the credited budget says |
| `RetryBudget.Budget.Consume` | internal/retry/budget.go:41-52 | A token is granted exactly if there is one |
| `RetryProtocol.RetriesArePaid` | internal/retry/retry.go:161-178 | However far a request has come, it has retried at most as often as it was granted a route token |
| `RetryRuns.InvKept` | internal/retry/retry.go:161-178 | Tokens kept, tokens granted and retries made stay covered by what successes earned, through replacement and reaping of budgets |
| `RetryRuns.EarnedAtMost` | internal/proxy/engine.go:186-196 | Successes earn at most their percentage |
| `RetryRuns.PaidExactly` | internal/retry/retry.go:161-178 | Along every run a request holds an unused token exactly if its own trace says so, and the totals are those of the events |
| `RetryRuns.ContinuesRun` | internal/retry/retry.go:161-178 | An event that continues its request's trace and fits the budget's answer can happen next |
| `RetryRuns.TracesRun` | internal/retry/retry.go:161-178 | Any interleaving of requests that each keep to their own protocol is a run |
| `RetryRuns.RetriesBounded` | internal/registry/retryregistry.go:52-86 | In every interleaving of requests that keep to the protocol, successes, policy changes and reaping, the retries of a route are at most percent of its successes, rounded down, and tokens stay between zero and the burst; requests made while the route budget is switched off are not counted |
| `RetryExecute.PerTryTimeout` | internal/retry/retry.go:142-159 | Positive exactly if both outer limits are, never above any of the limits, and equal to one of them |
| `RetryExecute.ConsumeBudgets` | internal/retry/retry.go:161-178 | Granted exactly if every budget in force grants; the route token is taken before the client's is asked for |
| `RetryExecute.Execute` | internal/retry/retry.go:39-140 | Ends with exactly one of reply and error; attempts are the retries or one more, within the limit; every attempt ends before the deadline and within the retry budget counted from the start, and gets all the time that deadline, budget and per-try timeout leave it; a round makes no attempt exactly if it begins at or after the deadline or the end of the budget, and then the error is that the deadline passed; a pause cut short ends the request with its own error; route tokens are the retries or one more; it retries exactly as long as the outcomes call for it and passes on the outcome it stops at |
| `RetryExecute.TryOnce` | internal/retry/retry.go:63-134 | One round keeps all of that, and another round follows only if the limit allows it |
| `RetryExecute.AfterAttempt` | internal/retry/retry.go:85-134 | Stop with the outcome or pay for a retry, never both |
| `RetryExecute.PayAndPause` | internal/retry/retry.go:126-133 | A paid retry is counted; an interrupted pause ends the request with the interruption |
| `RetryExecute.RetriedExactly` | internal/retry/retry.go:85-126 | A round is retried if and only if retries are on and allowed, a try is left, the status or the kind of error is listed (an error only while the request is still wanted) and every budget in force grants; the reason kept is that status or kind |
| `RetryExecute.PassesOn` | internal/retry/retry.go:85-125 | A request not stopped for lack of time returns its last reply, else the request's own error, else the attempt's; budgets are blamed only if one of them refused a retry that was called for |
| `RetryExecute.RoundTrip` | internal/proxy/engine.go:60-199 | Without a picker or a transport nothing is attempted; retries are allowed exactly for an enabled policy of more than one attempt and a GET, HEAD, PUT, DELETE, OPTIONS or TRACE with a replayable body; otherwise all that Execute promises; only a 2xx or 3xx reply earns the budgets a success |
| `RetryExecute.ExecutesBounded` | internal/proxy/engine.go:60-199 | The same bound for calls of Execute as they are: each request does what its call traced, or part of it, and the calls interleave freely; only requests with the route budget in force are counted |
| `ClientCap.Cap.constructor` | internal/retry/clientcap.go:29-37 | No clients yet |
| `ClientCap.Cap.Bucket` | internal/retry/clientcap.go:39-69 | Map and list hold exactly the most recently used clients in order; a client still kept gets its own budget object back, any other a new empty one, and all other budgets are untouched |
| `ClientCap.Cap.Insert` | internal/retry/clientcap.go:55-68 | A new client goes to the front, and the last one leaves both structures if there is one too many |
| `ClientCap.Cap.EvictOldest` | internal/retry/clientcap.go:59-66 | The last client leaves map and list together |
| `ClientCap.TouchKept` | internal/retry/clientcap.go:50-53 | Moving a kept client to the front yields the most recently used ones |
| `ClientCap.TouchNew` | internal/retry/clientcap.go:55-66 | So does inserting a client and cutting off the tail |
| `ClientCap.RecencyDistinct` | internal/retry/clientcap.go:39-69 | The recency order holds every client ever used, once |
| `ClientCap.RecencyLength` | internal/retry/clientcap.go:39-69 | It is as long as there are different clients |
| `ClientCap.KeptExactly` | internal/retry/clientcap.go:39-69 | A client keeps its budget if and only if fewer than the size other clients were used since |
| `RetryRegistry.Registry.constructor` | internal/registry/retryregistry.go:34-50 | No routes; five minutes to live by default |
| `RetryRegistry.Registry.Budgets` | internal/registry/retryregistry.go:52-86 | The same policies give the same budget objects, changed ones new empty budgets; an empty route ID or a size of zero or less is an error and changes nothing |
| `RetryRegistry.Registry.ReapOnce` | internal/registry/retryregistry.go:123-136 | Exactly the routes unused for longer than the time to live are dropped |
| `EjectBackoff.EjectDuration` | internal/pool/pool.go:356-369 | The doubling loop, in 64-bit arithmetic, is the smaller of the maximum and the base doubled once per earlier ejection, when the largest doubling that fits reaches the maximum |
| `EjectBackoff.DoubledIsBackoff` | internal/outlier/outlier.go:163-174 | The loop without wrap-around is the capped doubling |
| `EjectBackoff.BackoffDoubles` | internal/pool/pool.go:356-369 | The capped doubling: the first ejection lasts for the base time, each further one twice as long, up to the maximum |
| `EjectBackoff.DoublingWraps` | internal/outlier/outlier.go:163-174 | Otherwise some number of doublings ends below zero |
| `EjectBackoff.DoublingExactly` | internal/pool/pool.go:356-369 | The loop is right for every count if and only if the base is below half the range and the maximum is at most the largest doubling that fits |
| `Pool.EjectedUntil` | internal/pool/pool.go:339-370 | An ejection lasts for the capped doubling of its count, under the exact condition for the loop not to wrap around |
| `Pool.ReportsKeepStanding` | internal/pool/pool.go:276-313 | No probe or failure report moves an endpoint into or out of draining or touches its attempts |
| `Pool.Endpoint.Restore` | internal/pool/pool.go:227-239 | A draining endpoint configured again is healthy, any other keeps its health |
| `Pool.Endpoint.MarkDraining` | internal/pool/pool.go:245-252 | The drain deadline is set by the first removal only |
| `Pool.Endpoint.RecordActiveSuccess` | internal/pool/pool.go:276-286 | Enough successful probes in a row make an endpoint healthy; nothing counts while it drains |
| `Pool.Endpoint.RecordActiveFailure` | internal/pool/pool.go:288-298 | Enough failed probes in a row eject it |
| `Pool.Endpoint.RecordPassiveSuccess` | internal/pool/pool.go:300-302 | A successful request ends a series of failed ones |
| `Pool.Endpoint.RecordPassiveFailure` | internal/pool/pool.go:304-313 | Enough failed requests in a row eject it |
| `Pool.Endpoint.Eject` | internal/pool/pool.go:339-370 | The state after an ejection: the count starts afresh more than five minutes after the last good probe |
| `Pool.PoolRuntime.constructor` | internal/pool/pool.go:42-49 | An empty pool |
| `Pool.PoolRuntime.Reconcile` | internal/pool/pool.go:51-79 | The pool serves exactly the given endpoints; staying ones keep their state, removed ones drain, returning ones are restored, attempts in progress are not disturbed |
| `Pool.PoolRuntime.DrainOthers` | internal/pool/pool.go:70-78 | Everything not configured drains, and what drains already keeps its deadline |
| `Pool.PoolRuntime.Pick` | internal/pool/pool.go:81-153 | Never a division by zero; a configured endpoint is picked exactly when any is configured, in turn among the eligible ones or, failing that, among all; it counts as healthy if and only if some configured endpoint has healthy status, no ejection running and is no outlier, and the one picked is then such a one; with none configured a draining endpoint is picked and marked as failed open; nothing but its last use changes |
| `Pool.PoolRuntime.Candidates` | internal/pool/pool.go:88-99 | The configured endpoints in order, or every endpoint when none is configured |
| `Pool.PoolRuntime.FailOpen` | internal/pool/pool.go:127-152 | Without an eligible endpoint the candidate whose turn it is serves, with its own condition reported |
| `Pool.PoolRuntime.PickAmong` | internal/pool/pool.go:101-152 | The three tiers: an eligible candidate, else one that is not draining, else any |
| `Pool.PoolRuntime.Scan` | internal/pool/pool.go:107-120 | The three classifications of the candidates |
| `Pool.PoolRuntime.PickFrom` | internal/pool/pool.go:155-160 | The candidate at the counter's position; the counter moves on by one |
| `Pool.PoolRuntime.Start` | internal/registry/registry.go:73-77 | A pick counts its attempt in flight on the endpoint it returned, and changes no other endpoint |
| `Pool.PoolRuntime.Done` | internal/registry/registry.go:79-83 | The endpoint of an attempt in progress is still there when the attempt ends, and only its in-flight count changes |
| `Pool.PoolRuntime.Reap` | internal/pool/pool.go:168-181 | Exactly the endpoints that drain, are past a deadline that was set and have no attempts go, so never a configured one or one with an attempt in progress |
| `Pool.PoolRuntime.ReportPassiveFailure` | internal/registry/registry.go:85-89 | A failed request counts against its endpoint only |
| `Pool.PoolRuntime.ReportPassiveSuccess` | internal/registry/registry.go:91-95 | A successful request ends the series of its endpoint only |
| `Pool.PoolRuntime.ReportProbe` | internal/pool/pool.go:276-298 | A probe counts for its endpoint only |
| `Pool.WantedIs` | internal/pool/pool.go:60-68 | Going through the configured list restores or creates exactly its members, repeated ones once |
| `Pool.ReconcileKeeps` | internal/pool/pool.go:51-79 | After a reconciliation an endpoint drains if and only if it is not configured, and in-flight counts still match the attempts in progress |
| `Pool.ReconciledMeans` | internal/pool/pool.go:51-79 | New endpoints start clean, staying ones change in their configuration only, returning ones are healthy without a deadline, those removed just now get one, and those already draining do not change |
| `Pool.PickMeans` | internal/pool/pool.go:81-153 | A pick is healthy if and only if some configured endpoint is good, and fails open otherwise |
| `Pool.TurnsAreFair` | internal/pool/pool.go:155-160 | Of any k counter values in a row each of n positions gets k/n, rounded down or up |
| `Pool.FairBeforeWrap` | internal/pool/pool.go:155-160 | The same for the 64-bit counter as long as it does not wrap around |
| `Pool.FairForeverExactly` | internal/pool/pool.go:155-160 | Across a wrap of the counter that stays so if and only if the number of positions divides 2^64 |
| `Pool.UnfairWrap` | internal/pool/pool.go:155-160 | Otherwise the first candidate gets two of at most n turns around the wrap |
| `Pool.PicksAreTurns` | internal/pool/pool.go:122-160 | While the candidates stay the same, the picks of one of them, made from any counter value on, are its turns of the counter |
| `Pool.PicksAreFair` | internal/pool/pool.go:122-160 | So of k picks in a row each of n unchanged candidates gets k/n, rounded down or up, before the counter wraps around, and always if n divides 2^64 |
| `EndpointHealth.CountersExplained` | internal/pool/pool.go:276-337 | In every run of probes, requests, removals and returns, under changing configurations, the three counters are the probes of one outcome in a row and the requests failed since one succeeded or the endpoint was made healthy, counting only while it is served |
| `EndpointHealth.UnhealthyExactly` | internal/pool/pool.go:276-370 | In every such run a removed endpoint drains, and a served one is unhealthy if and only if a series of failures reached the threshold and it was neither made healthy by enough good probes nor taken back since; an ejection that has run out does not heal it |
| `EndpointHealth.EjectedNeverPicked` | internal/pool/pool.go:107-125 | An endpoint that was ejected and neither made healthy nor taken back since is never picked as healthy, at any later time |
| `EndpointHealth.DownThenUp` | internal/pool/pool.go:276-298 | A new endpoint that fails its first probes and passes all later ones is unhealthy exactly from the configured number of failures until the configured number of successes |
| `EndpointHealth.FailsInARow` | internal/pool/pool.go:300-313 | Failed requests make it unhealthy at the configured number too, counted afresh after one that succeeds |
| `EndpointHealth.DrainsFrom` | internal/pool/pool.go:227-252 | A draining endpoint's deadline is the one its first removal since it was last served set |
| `EndpointHealth.SeriesExplained` | internal/pool/pool.go:339-370 | In every run the ejection count is the ejections since the last that came more than five minutes after the endpoint was last made healthy, or since the start |
| `EndpointHealth.ShortExactly` | internal/pool/pool.go:351-356 | An ejection is counted as the first of its series if and only if it is the first ever or comes more than five minutes after the endpoint was last made healthy; it then lasts for the base time, or the maximum if that is less |
| `EndpointHealth.LateHappens` | internal/pool/pool.go:351-356 | Under every configuration with working checks an endpoint that stays down is ejected like that twice in a row |
| `Breaker.Breaker.constructor` | internal/breaker/breaker.go:51-57 | A new breaker is closed with an empty window |
| `Breaker.Breaker.TryAllow` | internal/breaker/breaker.go:66-161 | The admission decision and the next state, including the half-open probe slots; which calls of a run are admitted is Breaker.AdmittedExactly |
| `Breaker.Breaker.ReportOutcome` | internal/breaker/breaker.go:98-140 | The state after an outcome |
| `Breaker.Breaker.RotateWindow` | internal/breaker/breaker.go:163-175 | A window that ran out starts afresh |
| `Breaker.Breaker.MaybeOpen` | internal/breaker/breaker.go:177-199 | Opens exactly when the window has enough requests and at least the threshold share failed |
| `Breaker.OpenExplained` | internal/breaker/breaker.go:66-216 | In every run an open or half-open breaker is explained by the report that tripped it, the full open time since, and only successes since it half-opened |
| `Breaker.AdmittedExactly` | internal/breaker/breaker.go:66-161 | In every run a call is admitted if and only if the breaker is closed, or open with the full open time passed since the report that tripped it, or probing with a place left of those calls took and reports gave back since it half-opened; a denied call changes nothing |
| `BreakerEvents.PlacesBalance` | internal/breaker/breaker.go:98-161 | As long as only holders of a place report, the places taken are the admissions less the reports |
| `Breaker.ClosesExactly` | internal/breaker/breaker.go:98-140 | A breaker that is not closed closes if and only if it is probing and the event is the report that completes exactly the required successes with no failure since it half-opened |
| `Breaker.OpenThenClosed` | internal/breaker/breaker.go:66-216 | Between being open and being closed again lies all of that |
| `Breaker.WindowExplained` | internal/breaker/breaker.go:163-175 | A closed breaker's counts are the reports and failures since its window started |
| `Breaker.TripsExactly` | internal/breaker/breaker.go:177-199 | A closed breaker trips if and only if, in the window the report falls into, the reports reach the minimum and 100 times the failures reach the threshold times the reports; a report later than the window's length starts a new window |
| `Breaker.StuckExactly` | internal/breaker/breaker.go:98-161 | With all probe places taken, nothing about the breaker changes if and only if nothing is reported |
| `Breaker.DeniedUntilReport` | internal/proxy/handler.go:311-347 | And until something is reported every request is denied; requests that end without a report, as cache hits do, hold their place |
| `Breaker.ProbesRunOut` | internal/breaker/breaker.go:66-161 | A run that takes all probe places, for every enabled configuration with a threshold of 1 to 100 percent |
| `Breaker.CanGetStuckExactly` | internal/breaker/breaker.go:66-199 | An enabled breaker can come to that if and only if its threshold is between 1 and 100 percent; otherwise it never opens |
| `PluginBreaker.Breaker.constructor` | internal/plugin/breaker.go:26-28 | A new breaker is closed |
| `PluginBreaker.Breaker.UpdateConfig` | internal/plugin/breaker.go:30-44 | Switching it off forgets everything, any other change keeps its state |
| `PluginBreaker.Breaker.TryAllow` | internal/plugin/breaker.go:46-82 | The admission decision and the next state |
| `PluginBreaker.Breaker.ReportOutcome` | internal/plugin/breaker.go:84-146 | The state after an outcome |
| `PluginBreaker.Explained` | internal/plugin/breaker.go:46-146 | In every run the state is explained: trailing failures counted while closed, the tripping report while open, only successes while half-open |
| `PluginBreaker.AdmittedExactly` | internal/plugin/breaker.go:46-82 | In every run a call is admitted if and only if the breaker is closed, or open with the full open time passed, or probing with a place left; a denied call changes nothing |
| `PluginBreaker.TripsExactly` | internal/plugin/breaker.go:84-146 | A closed breaker trips if and only if a report completes the threshold of failures in a row |
| `PluginBreaker.ClosesExactly` | internal/plugin/breaker.go:84-146 | A half-open breaker closes if and only if a report completes enough successes, with no failure since and at most the reporting probe holding a place |
| `PluginBreaker.OpenThenClosed` | internal/plugin/breaker.go:46-146 | Between being open and being closed again lie the open time and enough successes |
| `PluginBreaker.StuckExactly` | internal/plugin/breaker.go:46-146 | With all probe places taken, nothing about the breaker changes if and only if nothing is reported |
| `PluginBreaker.DeniedUntilReport` | internal/plugin/breaker.go:46-82 | And until something is reported every call is denied |
| `PluginBreaker.ProbesRunOut` | internal/plugin/breaker.go:46-146 | Every enabled breaker has a run that comes to that |
| `RateLimiter.RateLimiter.constructor` | internal/admin/ratelimit.go:43-69 | No addresses yet; defaults for settings of zero or less |
| `RateLimiter.RateLimiter.Allow` | internal/admin/ratelimit.go:71-101 | Allowed exactly if the address is not blocked and has a whole token; what that means over runs is RateLimiter.AllowedExactly |
| `RateLimiter.RateLimiter.RecordFailure` | internal/admin/ratelimit.go:103-125 | Failures count up to a block and are ignored during one |
| `RateLimiter.RateLimiter.ResetFailures` | internal/admin/ratelimit.go:127-139 | The count is cleared, a running block is not |
| `RateLimiter.AvailableGrows` | internal/admin/ratelimit.go:92-94 | Time only adds tokens, at most at the rate, never above the burst |
| `RateLimiter.EventCosts` | internal/admin/ratelimit.go:71-139 | Any event costs an address one token if it is an allowed request of it and nothing otherwise |
| `RateLimiter.TokensCover` | internal/admin/ratelimit.go:71-101 | Requests allowed plus tokens left are covered by tokens at the start plus refill |
| `RateLimiter.RateHolds` | internal/admin/ratelimit.go:71-125 | Over any stretch of any run an address is allowed at most burst plus rate times the seconds the stretch lasts, with blocks and idle gaps included |
| `RateLimiter.FullSince` | internal/admin/ratelimit.go:84-101 | The tokens an address has are the burst, less the requests allowed since it last had it in full, plus what came in since |
| `RateLimiter.AllowedExactly` | internal/admin/ratelimit.go:71-101 | An unblocked address is allowed a request if and only if, counting it, no stretch up to now has more allowed requests than burst plus rate times its length |
| `RateLimiter.AllowedWhenRested` | internal/admin/ratelimit.go:84-101 | An unblocked address that has never asked, or not within the last 1/rate seconds, is allowed |
| `RateLimiter.FailuresExplained` | internal/admin/ratelimit.go:103-139 | In every run an address's count is its failures since the last reset that did not fall into a block |
| `RateLimiter.BlockedExactly` | internal/admin/ratelimit.go:103-125 | It is blocked exactly while a block that one of its failures started lasts |
| `RateLimiter.BlocksExactly` | internal/admin/ratelimit.go:118-124 | A failure outside a block starts one if and only if, counting it, there are enough since the last reset |
| `RateLimiter.BlockedAfter` | internal/admin/ratelimit.go:103-125 | Failures at one instant block the address exactly from the configured number on (20 by default), for exactly the configured time (ten minutes by default) |
| `RateLimiter.BlockedAgain` | internal/admin/ratelimit.go:103-125 | The count survives a block: every failure after a block, until a reset, falls into a block or starts a new one |
| `RateLimiter.BlockHappens` | internal/admin/ratelimit.go:103-125 | Under every configuration there is a run with a block, and a single failure after it that blocks again |
| `OverloadLimiter.InvKept` | internal/traffic/overload.go:28-69 | Every step of every caller keeps both token counts equal to the callers that put the tokens there, and no receive can block |
| `OverloadLimiter.AdmissionHolds` | internal/traffic/overload.go:28-69 | In every interleaving requests in flight never exceed the maximum, the queue never exceeds its own, and no receive from either channel can block |
| `OverloadLimiter.AdmittedExactly` | internal/traffic/overload.go:28-44 | An arrival gets a slot if and only if not all are taken; one that gets none may wait if and only if there is a queue with room, and is rejected at once otherwise |
| `OverloadLimiter.OthersUntouched` | internal/traffic/overload.go:28-69 | No step changes where any other caller is |
| `OverloadLimiter.DrainsCompletely` | internal/traffic/overload.go:28-69 | Once every caller is done both channels are empty |
| `Coalescer.InvKept` | internal/cache/coalesce.go:31-83 | Every step keeps flights, their leaders and their followers consistent |
| `Coalescer.OneLeaderPerKey` | internal/cache/coalesce.go:31-50 | At most one request leads a key at any time |
| `Coalescer.StartsExactly` | internal/cache/coalesce.go:31-50 | A request with a key follows whoever leads that key; it leads itself if and only if nobody does and there is room for one more flight; otherwise, or without a key, it goes alone |
| `Coalescer.FlightsBounded` | internal/cache/coalesce.go:31-50 | Never more flights are registered than allowed, and each registered one has a request that leads it |
| `Coalescer.CompletedOnce` | internal/proxy/handler.go:383-387 | Every flight is completed exactly once, when its leader is done |
| `Coalescer.FollowersGetTheLeadersResult` | internal/cache/coalesce.go:67-83 | A completed wait returns precisely what the leader of a flight for the same key published |
| `LatencyWindow.Window.constructor` | internal/outlier/window.go:17-22 | An empty ring of at least one slot |
| `LatencyWindow.Window.Record` | internal/outlier/window.go:24-35 | The ring holds the last values recorded |
| `LatencyWindow.Window.Snapshot` | internal/outlier/window.go:37-48 | As a multiset exactly the last values, as many as were recorded or fit |
| `LatencyWindow.RingNext` | internal/outlier/window.go:24-35 | Overwriting the oldest slot drops the oldest value and appends the new one |
| `LatencyWindow.SortSorts` | internal/outlier/window.go:61-64 | Sorting is ascending and keeps the values |
| `LatencyWindow.SortedUnique` | internal/outlier/window.go:61-64 | The ascending order of a multiset is unique |
| `LatencyWindow.RankIs` | internal/outlier/window.go:54-71 | The rank is the share of the values rounded up, and the first for a share of zero or less |
| `LatencyWindow.PercentileOfMultiset` | internal/outlier/window.go:50-73 | A percentile depends on the multiset of values only |
| `LatencyWindow.RankedIsOrderStatistic` | internal/outlier/window.go:50-73 | The value of any rank has fewer values below it than the rank, and at least as many up to it |
| `LatencyWindow.PercentileIsOrderStatistic` | internal/outlier/window.go:50-73 | A percentile is one of the values, with less than the share asked for below it and at least that share up to it; the smallest for a share of zero |
| `LatencyWindow.PercentileMeans` | internal/outlier/window.go:50-73 | For a share between 0 and 1, fewer values than that share are below the percentile and at least that share is up to it |
| `LatencyWindow.EvaluateLatency` | internal/outlier/registry.go:248-305 | Exactly the endpoints with enough values are judged, and found slow if and only if their 95th percentile is above the multiple of the pooled median, whatever order endpoints are visited in; none if there are too few values or the median is not positive |
| `LatencyWindow.Collect` | internal/outlier/registry.go:270-283 | The pooled values are those of exactly the endpoints with enough of them |
| `LatencyWindow.Judge` | internal/outlier/registry.go:292-304 | One verdict for each of those endpoints |
| `LatencyWindow.PooledRemove` | internal/outlier/registry.go:274-283 | The pooled values do not depend on which endpoint is visited first |
| `LatencyWindow.PooledOfMultisets` | internal/outlier/registry.go:274-283 | Nor on the order in which an endpoint's values were kept |
| `LatencyWindow.SlowOfMultiset` | internal/outlier/registry.go:292-304 | Nor does a verdict |
| `LatencyWindow.AllCanBeSlow` | internal/outlier/registry.go:270-304 | For any number of endpoints, any multiple and any number of values needed, there are values by which all of them are judged slow at once |
| `OutlierState.EndpointState.RecordResult` | internal/outlier/outlier.go:59-114 | Failures in a row are judged before the error share, and each cause starts its own count afresh |
| `OutlierState.EndpointState.JudgeShare` | internal/outlier/outlier.go:90-111 | Ejected for its error share exactly when the window has enough requests and the share reaches the threshold |
| `OutlierState.EndpointState.ObserveLatency` | internal/outlier/outlier.go:130-146 | Enough slow intervals in a row eject |
| `OutlierState.EndpointState.Eject` | internal/outlier/outlier.go:148-179 | Ejections less than five minutes apart double, up to the maximum |
| `OutlierState.FailsTrailing` | internal/outlier/outlier.go:59-114 | In every run the failure counter is the failures in a row modulo the threshold |
| `OutlierState.SlowTrailing` | internal/outlier/outlier.go:130-146 | And the latency counter the slow intervals in a row modulo theirs |
| `OutlierState.FailsEjectExactly` | internal/outlier/outlier.go:59-114 | An endpoint is ejected for failures in a row exactly on every threshold-th of them, whatever happens in between |
| `OutlierState.SlowEjectsExactly` | internal/outlier/outlier.go:130-146 | And for latency exactly on every threshold-th slow interval in a row |
| `OutlierState.CountsExplained` | internal/outlier/outlier.go:59-114 | The window counts are the results and failures since the window began: at the start, after an ejection for the error share, or with a result that found it run out; every later result was in time and none ejected for the share |
| `OutlierState.EjectsForShareExactly` | internal/outlier/outlier.go:90-111 | A result ejects for the error share if and only if it does not already eject for failures in a row and, in the window it falls into, the results reach the minimum and 100 times the failures reach the threshold times the results |
| `OutlierState.SeriesExplained` | internal/outlier/outlier.go:148-179 | In every run the ejection count is the ejections since the last that came more than five minutes after the one before, and the last ejection lasts as long as the doubling says for that count |
| `OutlierState.DurationIs` | internal/outlier/outlier.go:163-174 | That is the capped doubling, under the exact condition for the loop not to wrap around |
| `EjectLimit.NeverEjects` | internal/outlier/outlier.go:59-146 | With no cause configured that can apply, no run ever ejects |
| `EjectLimit.AllEjectedExactly` | internal/outlier/outlier.go:54-179 | For any number of endpoints, each with its own run, all of them can be out at one instant if and only if the configuration has a cause that can apply |
| `EjectLimit.LimitKeptExactly` | internal/runtime/snapshot.go:180 | A limit of p percent of the pool is kept in every run if and only if p is at least 100 or no cause can apply |
| `EjectLimit.ConfiguredLimitFails` | internal/runtime/snapshot.go:172-187 | With the defaults filled in, every pool with outlier detection and a limit below 100 percent has a run that exceeds it, with all its endpoints out |
| `EjectLimit.ConfiguredMeans` | internal/runtime/snapshot.go:172-187 | The defaults: 5 failures, 50 percent over 30 seconds, 20 requests, 30 seconds to 10 minutes, 3 intervals, a limit of 50 percent; given settings are taken as they are, milliseconds as nanoseconds |
| `TrafficSplit.WeightsAreShares` | internal/traffic/split.go:40-53 | Of as many consecutive values as both weights together, neither negative and not both zero, exactly the canary's weight choose the canary |
| `TrafficSplit.FirstValuesAreCanary` | internal/traffic/split.go:40-53 | The canary has the first values of every stretch as long as both weights together |
| `TrafficSplit.NeverCanaryExactly` | internal/traffic/split.go:40-53 | No value chooses the canary if and only if it has no weight or both weights sum to nothing |
| `TrafficSplit.PickedMeans` | internal/traffic/traffic.go:46-65 | A drained canary gets nothing, and a request with a cohort key always gets the same variant |
| `TrafficSplit.PicksAreShares` | internal/traffic/traffic.go:46-65 | Undrained, exactly the canary's weight of the requests get it: over consecutive random values where the draw decides, over consecutive cohort hashes where the cohort does |
| `RolloutMask.MaskLocked` | internal/rollout/rollout.go:148-175 | The copying loop computes the mask |
| `RolloutMask.MaskIdempotent` | internal/rollout/rollout.go:148-175 | Masking twice is masking once |
| `RolloutMask.MaskTouchesOnly` | internal/rollout/rollout.go:148-175 | Plugins are off and gone and, where traffic is split, the canary weight is 0 and a stable weight of 0 becomes 100; nothing else changes |
| `RolloutMask.CheckPlugins` | internal/runtime/snapshot.go:471-532 | A route's plugins pass if and only if every filter is well-formed, an enabled list is not empty, and no more than 200 names are in use by then |
| `RolloutMask.CheckFilters` | internal/runtime/snapshot.go:477-526 | The loop over the filters: every one well-formed, and no more than 200 names in use after any of them |
| `RolloutMask.CheckCache` | internal/runtime/snapshot.go:437-469 | A cache policy passes if and only if its object size is in range, every header to vary on is short and ASCII, and an enabled cache has a positive lifetime |
| `RolloutMask.ValidateRoutes` | internal/config/validation.go:67-103 | Validation passes if and only if enabled retries have attempts, enabled overload limits have room, and routes that require client certificates have TLS and a CA file |
| `RolloutMask.CheckRoute` | internal/runtime/snapshot.go:196-279 | One route against the IDs and filter names before it |
| `RolloutMask.CheckRoutes` | internal/runtime/snapshot.go:192-325 | Checking route by route accepts exactly when every route is well-formed, IDs are distinct and no more than 200 filter names are in use, and tells whether client certificates are required |
| `RolloutMask.RoutesPassExactly` | internal/runtime/snapshot.go:192-325 | The checks made one route after the other are those of the configuration as a whole |
| `RolloutMask.Compile` | internal/apply/resolved.go:88-116 | Validating a configuration and building a snapshot from it succeeds exactly for acceptable configurations |
| `RolloutMask.AcceptableExactly` | internal/runtime/snapshot.go:192-325 | Acceptable means: every route valid and well-formed, no two with one ID, at most 200 different filter names over all of them, and the rest fine, client certificates being needed if some route needs them |
| `RolloutMask.DistinctExactly` | internal/runtime/snapshot.go:192-206 | No two routes share an ID if and only if there are as many IDs as routes |
| `RolloutMask.RouteOkExactly` | internal/runtime/snapshot.go:196-279 | A route is well-formed if and only if its masked form is, its filters have name, address and a known failure mode, an enabled list is not empty, the canary weight is not negative, there is none without a canary pool, and with one not both weights are 0 |
| `RolloutMask.PartsOkExactly` | internal/runtime/snapshot.go:437-469 | The limits of cache, overload, drain and cohort settings, as numbers |
| `RolloutMask.RouteValidExactly` | internal/config/validation.go:67-103 | What makes the validation of a route fail |
| `RolloutMask.MaskedRouteExactly` | internal/runtime/snapshot.go:549-623 | Exactly which routes pass once masked: plugins and the canary's weight no longer matter |
| `RolloutMask.MaskAcceptedExactly` | internal/rollout/rollout.go:148-175 | Exactly which configurations pass validation and build once masked |
| `RolloutMask.MaskAccepted` | internal/rollout/rollout.go:71-87 | A configuration that is accepted is accepted masked, so the locked stage does not fail one that validated |
| `RolloutMask.LockedServesStable` | internal/proxy/handler.go:255-274 | With the mask on, every request goes to the stable pool, whatever its random or cohort value, and through no plugin |
| `RolloutMask.FullReachesCanaryExactly` | internal/traffic/traffic.go:46-65 | Without it some request reaches the canary if and only if traffic is split and the canary has weight |
| `RolloutMask.CanaryServesShare` | internal/proxy/handler.go:254-274 | Without the mask, a canary pool of its own serves exactly its weight of the requests over consecutive random values |

## Left out

- HTTP serving, TLS, gRPC plugin calls, transports, file and network providers, admin handlers, logging and metrics: input and output.
- Bundle signing and verification, hashing, and cache keys: foreign functions; a cohort hash is any number and a cache key any string.
- The random number generator of internal/traffic/split.go: its values are inputs.
- JSON decoding and encoding, router matching, default limits and shutdown timing: each is settled by reading one branch.
- Nil receivers, and nil entries where the code skips them: a missing provider, configuration, snapshot or budget is an option here.
- Rounding of floating point in retry budgets, the admin limiter, percentiles and the drain controller: arithmetic is exact, with hundredths of a token for budgets.
- Wrap-around of 32-bit counters in breakers, outlier detection and a pool's endpoints, and of sums of weights: counters are unbounded; 64-bit wrap-around is modelled for ejection times and for the turn counter.
- Atomics below the level of a call in breakers, pools, outlier state and the drain controller: calls are atomic. The store, the limiter with a queue and the coalescer are split at their atomic steps.
- Pool.PoolRuntime.Reconcile: endpoint states are values in the pool's map, so a caller that keeps an endpoint object across a removal and a later return is not captured; nor are the probe loops it starts and stops.
- Stopping a pool or pruning it from the registry: picks after that are not modelled.
- Pool.PoolRuntime.Start: picking and counting the attempt are one step; the code takes two, and an endpoint may be reaped in between.
- SnapshotStore.Store.Swap: swaps do not overlap here; what overlapping swaps do is in StoreProtocol.
- SnapshotStore.ApplyBundle: what validation, applying, baking and gates answer is an input; metrics and log lines are left out.
- ProviderMerge.MergePools: when several pools of one provider conflict, which of them is reported depends on the order the map is walked in; the model says only that it is a real one.
- RetryRuns.RetriesBounded: a route's requests made while its budget is switched off have no budget to ask and are not counted; the client cap may still limit them.
- RetryExecute.Execute: what each round meets (clock readings, outcome, budget answers, interruption of the pause) is an input; draining the body of a discarded reply is left out.
- Coalescer: each leader finishes its flight exactly once, as the handler's deferred call does.
- RolloutMask.CheckRoutes: whether a configuration is accepted, not which error is reported first; pools, limits, metrics and TLS files are checked by a function passed in, since the mask does not touch them, and the registries that building a snapshot updates along the way are left out.
- EjectLimit.AllEjectedExactly: latency verdicts are inputs here; LatencyWindow.AllCanBeSlow shows values that make all of them bad where endpoints keep twice as many values as are needed to judge them, and smaller windows may rule that cause out.
- RolloutMask.Compile: the timeout of a compilation, and refusing one under snapshot pressure, are left out.
- Reaping of the traffic, breaker and outlier registries, and the retired-snapshot limit of the store: easy bookkeeping.
- Termination of the compare-and-swap loop of the drain controller under contention.
