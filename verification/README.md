# PolyBalance: a verified model of its decision logic

PolyBalance is a layer-7 load balancer written in Go. This project models the parts of it that
decide something: which backend gets a request, when a backend is taken out of rotation and let
back in, how a failed request is retried, and which clients are turned away. The upstream's answer,
the clock, floating-point rounding and the SHA-256 function are inputs; everything else follows the
source branch by branch.

`dafny verify dfyconfig.toml` checks everything.

| file | models | what is proved there |
|---|---|---|
| `Backends.dfy` | `backend/backend.go` | the mutable backend, field by field, and its one-section steps |
| `Latency.dfy` | `backend/backend.go`, the moving average | rounding never accumulates beyond five tolerances; geometric convergence |
| `Interleaving.dfy` | every lock section of backend, health checker and proxy as one step | the runs are exactly the interleavings of the program text; circuit invariant, provenance of half-open, conservation of connections |
| `DeadBackend.dfy` | the same machine, and the gate as one step | exactly when a dead backend stays out; how long and for whom a trial lasts; refinement between the two levels |
| `Proxying.dfy` | `proxy/reverse_proxy.go`, `backend/health.go` | the objects run one request or probe at a time, tied to the interleaved machine; recovery from end to end |
| `Serving.dfy` | `server/http_server.go` | the retry loop, for every strategy |
| `Keys.dfy`, `Rings.dfy` | the hash ring as a value | injective keys, shape, nearest-clockwise lookup, minimal disruption |
| `ConsistentHashing.dfy` | `strategy/consistent_hash.go` | in exactly which runs the cached ring is right, and its answers with it |
| `Tickets.dfy`, `Counting.dfy` | 64-bit counter arithmetic | residues among consecutive tickets, fair shares |
| `RoundRobins.dfy` | `strategy/round_robin.go` | one call and its scan; exactly when the scan is complete and when nobody starves, across the wrap |
| `RoundRobinFairness.dfy` | the same, over runs with a fixed eligible set | fair shares, and for exactly which sets the wrap never breaks them |
| `ConcurrentRoundRobin.dfy` | the same, for calls that run at the same time | a call alone does what the sequential one does; no ticket is lost, fairness, and exactly when a call fails |
| `LeastConnections.dfy` | `strategy/least_connections.go` | the sharp load bound with departures and races, attained for all parameters, and that it bounds the backends' own counts |
| `RateLimiting.dfy` | `middleware/ratelimit.go` | the pruned log refines the unbounded history, and exactly when it stops doing so; rate bound over intervals |

## Two levels of interleaving

At the *fine-grained* level (`Interleaving`) every section under a backend's lock is one step, any
number of requests and the health checker interleave, and an inner proxy call may report any number
of outcomes, return, or panic. At the *atomic-gate* level (`DeadBackend.AtomicStep`) the four
sections of `proxy/reverse_proxy.go:89-97` are one step; `AtomicRefinesFine` shows that each such
run is a fine-grained run. A lock section touches one backend, so one machine follows one backend.

A continuation is *quiet* for a backend when no later probe finds it well and no step comes as late as
the timeout after the failure then last recorded; requests may report anything meanwhile. A backend is
*out* when it is ineligible at every instant before that timeout.

## Where the code and its descriptions disagree

The model follows the code.

- `backend/backend.go:105` speaks of a single request testing an open backend. The code admits every
  request while the circuit is half-open (`TrialLetsEveryoneIn`): `TrialIsNotSingle` has n of them in
  flight for any n.
- `HalfOpenRetryWindow` (`backend/backend.go:110-114`) is never read: a half-open circuit ignores
  failures and time, and lasts exactly until the first success (`HalfOpenLastsUntilSuccess`).
- `SetCircuitHalfOpen` is unconditional, so a delayed request can move a circuit from Closed to
  HalfOpen (`ClosedToHalfOpenHappens`). This is also the one way in which a dead backend can return
  before its timeout: `DeadBackendStaysOut` states the exact condition.
- The server is described as having retry logic. A retry that succeeds never reaches the client,
  because the recorder passes the first status on at once: `ReplyReachesClientIff` states exactly
  which replies get through, `RescuedRequestStillFails` is a concrete case.
- `strategy/consistent_hash.go:100` says the ring is checked against the current backends. The check
  compares sizes only. `AnswersAgreeIffNoSwap` and `SafeIffNoSwap` state exactly in which runs that is
  enough; `StaleRingNamesDeadBackend` shows a swap being missed for every hash function.
- `middleware/ratelimit.go:97-102` changes the window at once, but what was pruned under a smaller
  window is gone: `DecisionIsRightIff` and `EnlargementIff` state exactly when that changes a decision.
- `strategy/round_robin.go:8` promises every server the same number of requests over time. The scan can
  miss an eligible backend while the counter wraps (`ScanCompleteIff` and `NobodyStarvesIff` state
  exactly when), and the wrap can break fairness (`FairToSetIff` states for exactly which eligible sets;
  with everybody eligible it does unless n divides 2^64, `FairForeverIff`). Among concurrent calls one
  can answer nil although backends are eligible (`NobodyFailsIff`).
- The program's own `README.md` says that consistent hashing routes by request. The key is the constant
  `default`; the ring theorems hold for every key hash.

## Model

| member | source | states |
|---|---|---|
| Backends.Backend.constructor | backend/backend.go:36-50 | a new backend is alive, Closed, with no failures and no connections |
| Backends.Backend.SetAlive | backend/backend.go:53-57 | only the alive flag changes |
| Backends.Backend.IncConnections | backend/backend.go:69-73 | one more active connection, nothing else |
| Backends.Backend.DecConnections | backend/backend.go:75-81 | one fewer, but never below zero |
| Backends.Backend.RecordLatency | backend/backend.go:86-96 | the average becomes the first sample, or the weighted sum with its rounding error, truncated |
| Backends.Backend.RecordFailure | backend/backend.go:117-128 | counts the failure, stamps it, opens a Closed circuit at five; keeps the breaker's invariant |
| Backends.Backend.RecordSuccess | backend/backend.go:130-143 | clears the failures, closes a HalfOpen circuit, leaves alive alone; keeps the invariant |
| Backends.Backend.CheckCircuitState | backend/backend.go:145-163 | eligible: Open past its timeout, HalfOpen always, Closed if alive |
| Backends.Backend.CanAttemptHalfOpen | backend/backend.go:165-169 | the timeout since the last failure has passed |
| Backends.Backend.SetCircuitHalfOpen | backend/backend.go:171-175 | HalfOpen, from any state |
| Backends.Backend.GetCircuitState | backend/backend.go:177-181 | reads the circuit |
| Backends.Backend.GetActiveConnections | backend/backend.go:189-193 | reads the connection count |
| Latency.RecordAll | backend/backend.go:86-96 | a backend that records a sequence of samples ends with the average the three results below are about |
| Latency.ToleranceOfRun | backend/backend.go:86-96 | if every floating-point error is at most b, every update of the run is within b + 1 of the exact weighted sum |
| Latency.AverageStaysInBand | backend/backend.go:86-96 | with updates off by at most e, the average of any nonempty run stays within 5e of the band of its samples, across the reset at 0 |
| Latency.AverageConverges | backend/backend.go:86-96 | under a constant sample the distance after j updates is at most (4/5)^j d0 + 5e (1 - (4/5)^j) |
| Interleaving.Perform | backend/backend.go:53-175 | each event does to the backend what the method it is named after does to the object |
| Interleaving.RunsAreInterleavings | proxy/reverse_proxy.go:85-118 | a run can go on with a step if and only if the clock does not run backwards and the step is the next one in the program text of its request, by the request's last step and what that read, or of the health checker |
| Interleaving.FieldsMatchHistory | backend/backend.go:86-143 | in every interleaving FailureCount is the number of failures since the last success, LastFailure the instant of the last one, alive what the last probe said, AvgLatency the average of the latencies recorded; Closed means fewer than five failures, Open at least one |
| Interleaving.CircuitMoves | backend/backend.go:117-175 | Closed opens exactly on the fifth failure since a success, Open is left exactly by SetCircuitHalfOpen, HalfOpen exactly by a success and only to Closed |
| Interleaving.HalfOpenProvenance | proxy/reverse_proxy.go:94-97 | each SetCircuitHalfOpen belongs to a request that read Open and, later, a clock at least the timeout past the failure then recorded |
| Interleaving.ConnectionsConserved | proxy/reverse_proxy.go:99-115 | the connection count is the number of requests between increment and decrement plus the number aborted by a panic |
| Interleaving.NothingLostWithoutAbort | proxy/reverse_proxy.go:99-115 | where every inner call returns, the count is the number in flight |
| Interleaving.AbortsLeak | proxy/reverse_proxy.go:99-115 | counted on the steps of any run: the connection count is the increments less the decrements, and every panic of the inner call leaks one for good |
| Interleaving.DecrementNeverSuppressed | backend/backend.go:75-81 | in every run each decrement finds a positive count and lowers it by one |
| DeadBackend.DeadBackendStaysOut | backend/health.go:69-92 | fine-grained: after a failed probe the backend is out at every instant of every quiet continuation if and only if the circuit is not HalfOpen and no request has already decided to set it half-open |
| DeadBackend.HalfOpenLastsUntilSuccess | backend/backend.go:117-138 | from HalfOpen, the circuit stays HalfOpen and the backend eligible exactly as long as no success is recorded, however many failures are |
| DeadBackend.QuietIff | backend/backend.go:165-169 | what a quiet run is, step by step |
| DeadBackend.GateIsItsSections | proxy/reverse_proxy.go:89-97 | the gate can be passed in one step exactly when its sections can be taken back to back |
| DeadBackend.AtomicRefinesFine | proxy/reverse_proxy.go:89-97 | every atomic-gate run expands to a fine-grained run with the same result and no request inside the gate |
| DeadBackend.AtomicGateKeepsDeadOut | proxy/reverse_proxy.go:89-97 | atomic gate: after a failed probe the backend stays out if and only if the circuit is not HalfOpen |
| DeadBackend.AtomicHalfOpenEntry | proxy/reverse_proxy.go:94-97 | atomic gate: HalfOpen is entered exactly by a gate step that finds Open with the cooldown passed at that instant |
| DeadBackend.ClosedToHalfOpenHappens | backend/backend.go:171-175 | a run from a new backend in which a stale request moves Closed to HalfOpen |
| DeadBackend.TrialLetsEveryoneIn | backend/backend.go:155-156 | through any stretch of a run in which the circuit is HalfOpen, as many requests are let in as come to the gate, and none is turned away |
| DeadBackend.TrialIsNotSingle | backend/backend.go:155-156 | for every n a run with n requests in flight to a backend that is still HalfOpen |
| DeadBackend.RecoveredIsEligible | backend/backend.go:145-163 | a backend whose last probe was good and whose last failure is past the timeout is eligible, in every run |
| Proxying.ResponseRecorder.WriteHeader | server/http_server.go:61-64 | remembers the status and passes it on at once |
| Proxying.Proxy.constructor | proxy/reverse_proxy.go:52-63 | both handlers of the shared reverse proxy report to this backend, whatever they reported to before |
| Proxying.Proxy.HandleSuccess | proxy/reverse_proxy.go:120-126 | a response is recorded as a success on the backend contacted |
| Proxying.Proxy.HandleError | proxy/reverse_proxy.go:128-135 | a transport error is recorded as a failure and answered with 502 |
| Proxying.Proxy.Forward | proxy/reverse_proxy.go:109-110 | the inner call tells whichever backend the shared handlers are bound to, which is this one, and writes the upstream's status or 502 |
| Proxying.Proxy.ServeHTTP | proxy/reverse_proxy.go:85-135 | field by field: to a Closed dead backend, or an Open one before ten seconds have passed, nothing is done and 503 answered; otherwise gate, count, forward, measure and uncount in that order: an answer clears the failures and closes a half-open circuit, a transport error counts, stamps, opens a Closed circuit the fifth time and is answered 502 |
| Proxying.ErrorsOpenTheCircuit | backend/backend.go:117-128 | five transport errors in a row open the circuit of a healthy backend, fewer do not |
| Proxying.CallIsARun | proxy/reverse_proxy.go:85-118 | an uninterrupted request from any point of any interleaving is a run of the machine and has the effect the object's method has |
| Proxying.OneAnswerRecovers | backend/backend.go:130-163 | at the end of any run whose last probe was good and whose last failure is past the timeout, a request that then runs without interruption and is answered is let through, closes the circuit, clears the failures and leaves the backend eligible at every instant |
| Proxying.HealthChecker.CheckOne | backend/health.go:69-92 | field by field: a transport error or a status of 500 or more marks the backend dead and counts and stamps a failure, anything else marks it alive, clears the failures and closes a half-open circuit |
| Proxying.BadProbesTakeOut | backend/health.go:69-92 | n bad probes in a row take a new backend out: with fewer than five until an answer comes, from the fifth on until ten seconds after the last |
| Proxying.OneGoodProbeRevives | backend/health.go:69-92 | one answer below 500 then makes it alive, and eligible at once or after the ten seconds |
| Proxying.HealthChecker.CheckAll | backend/health.go:62-66 | every entry of the slice is probed once, in order; a backend that occurs once is changed by its own result only |
| Proxying.ProbedInOrder | backend/health.go:62-66 | a round over one part of the slice and then the other is a round over the whole: entries take effect in order |
| Proxying.ProbeIsARun | backend/health.go:69-92 | a probe is a run of the interleaved machine |
| Serving.Server.NewServer | server/http_server.go:74-84 | refuses an empty slice, otherwise a new server over the slice it is given |
| Serving.Server.Try | server/http_server.go:113-114 | one attempt changes the picked backend only, wherever the slice holds it, and writes its status |
| Serving.Server.ServeHTTP | server/http_server.go:61-127 | the method and its writers perform the retry loop on the backends behind the slice, repeated entries included; one selection for every method but GET, HEAD and OPTIONS; the client receives the status of the first attempt, however the loop goes on |
| Serving.RetryShape | server/http_server.go:103-126 | an attempt is made if and only if all before it were answered 502, 503 or 504; the reply is the status of the last attempt made, 503 if the strategy found nothing, and the fleet is as after exactly those attempts |
| Serving.SelectionBound | server/http_server.go:36-43 | GET, HEAD and OPTIONS get up to three selections, another one exactly after a 502, 503 or 504; every other method exactly one, and changes no other backend |
| Serving.RetryKeepsSound | server/http_server.go:103-124 | for any picks and answers every backend's breaker stays sound and every connection count is restored |
| Serving.ShutGateForwardsNothing | proxy/reverse_proxy.go:88-92 | a backend whose gate is shut whenever it is picked ends untouched, stale picks included |
| Serving.ShutGateHidesUpstream | proxy/reverse_proxy.go:88-92 | what such a backend would have answered cannot influence states, statuses or reply |
| Serving.ReplyReachesClientIff | server/http_server.go:103-126 | whatever the remaining attempts meet, the client gets the status the server settles on if and only if the first attempt needs no retry, or was answered 503 and leaves every backend Closed and marked dead |
| Serving.RescuedRequestStillFails | server/http_server.go:111-123 | a GET that the second attempt answers with 200 is seen as 502 |
| Keys.DecimalIff | strategy/consistent_hash.go:50 | the number is printed in decimal: its digits read back to it, without leading zeros |
| Keys.KeyInjective | strategy/consistent_hash.go:50 | url, '#' and decimal number determine url and number, whatever the URL contains |
| Rings.CollisionFreeIff | strategy/consistent_hash.go:50-51 | the hypothesis of the theorems below: the hash tells nodes apart that differ in URL or number |
| Rings.RingSize | strategy/consistent_hash.go:41-62 | the ring has virtualNodes entries per eligible backend, and is empty exactly when none is eligible |
| Rings.RingShares | strategy/consistent_hash.go:44-55 | each eligible index occurs exactly virtualNodes times and no other index occurs |
| Rings.RingStrictlySorted | strategy/consistent_hash.go:57-59 | for distinct URLs without hash collisions the ring is strictly sorted |
| Rings.LookupIsNearestEntry | strategy/consistent_hash.go:83-92 | search and wrap-around return an entry minimising (Hash - h) mod 2^64 |
| Rings.LookupFindsOwner | strategy/consistent_hash.go:83-97 | the backend found is eligible and owns h: one of its nodes is nearest clockwise among all nodes of all eligible URLs |
| Rings.OwnerUnique | strategy/consistent_hash.go:83-97 | without collisions a key has one owner |
| Rings.OwnerIgnoresOrder | strategy/consistent_hash.go:80-97 | the owner depends on the set of eligible URLs only, not on slice order, indices or the unstable sort |
| Rings.MinimalDisruption | strategy/consistent_hash.go:41-97 | what line 1 of the file promises: when any set of backends leaves (or, read backwards, joins), a key changes hands if and only if its owner is in that set |
| ConsistentHashing.SortByHash | strategy/consistent_hash.go:57-59 | a sorted rearrangement of the entries |
| ConsistentHashing.Search | strategy/consistent_hash.go:84-86 | binary search returns the first entry at or after h |
| ConsistentHashing.ConsistentHash.constructor | strategy/consistent_hash.go:25-32 | fifty virtual nodes when asked for none, and an empty ring |
| ConsistentHashing.ConsistentHash.BuildRing | strategy/consistent_hash.go:41-62 | an entry is on the ring exactly if its index is that of a backend eligible at its clock reading and its hash that of the backend's own URL, '#' and a decimal number below virtualNodes; sorted, virtualNodes entries each |
| ConsistentHashing.ConsistentHash.ValidateRing | strategy/consistent_hash.go:101-110 | true exactly when the ring has virtualNodes entries for every backend now eligible |
| ConsistentHashing.ConsistentHash.NextBackend | strategy/consistent_hash.go:65-98 | when the ring is kept and when rebuilt, with separate clock readings for the two looks, and the entry then followed; after a rebuild the backend returned is eligible and one of its own nodes is nearest clockwise to the key among those of all eligible backends, nil exactly when there are none |
| ConsistentHashing.FreshIffNoSwap | strategy/consistent_hash.go:70-73 | the cached ring stands for what a rebuild would find at every call of a run if and only if no call sees as many eligible backends as the call before found, but others |
| ConsistentHashing.MonotoneChangesStayFresh | strategy/consistent_hash.go:70-73 | so it is whenever the eligible set only grows or only shrinks between successive calls |
| ConsistentHashing.SameAnswersIff | strategy/consistent_hash.go:83-97 | for distinct URLs whose nodes do not collide, two rings answer every key alike if and only if they were built for the same backends |
| ConsistentHashing.KeyAgreesIff | strategy/consistent_hash.go:80-97 | one key: the cached and the rebuilt ring answer it alike if and only if its owner among the backends of either ring belongs to both |
| ConsistentHashing.NamesIneligibleIff | strategy/consistent_hash.go:83-97 | a cached ring names an ineligible backend for some key if and only if one of the backends it was built for is no longer eligible |
| ConsistentHashing.AnswersAgreeIffNoSwap | strategy/consistent_hash.go:65-98 | at every call of a run the cached answers equal those of a ring rebuilt at that call, for every key, if and only if no call sees a swap |
| ConsistentHashing.SafeIffNoSwap | strategy/consistent_hash.go:101-110 | when validation and rebuild agree within each call, the ring names eligible backends only, for every key at every call, if and only if no call sees a swap |
| ConsistentHashing.CachedAnswersAgree | strategy/consistent_hash.go:65-98 | in a run without swaps the answers agree as soon as the nodes of the backends eligible at that call do not collide |
| ConsistentHashing.StaleRingNamesDeadBackend | strategy/consistent_hash.go:101-110 | after a swap the cached ring names the backend that went down, for every hash function and key |
| RoundRobins.RoundRobin.constructor | strategy/round_robin.go:15-17 | the counter starts at 0 |
| RoundRobins.RoundRobin.Attempt | strategy/round_robin.go:27-32 | one ticket, one backend looked at |
| RoundRobins.RoundRobin.NextBackend | strategy/round_robin.go:19-35 | the counter modulo 2^64 and the backends its values lead to modulo n, one attempt after the other, every attempt reading the clock anew; the first eligible one is returned, nil after n |
| RoundRobins.ScanCompleteIff | strategy/round_robin.go:25-34 | a call finds nothing exactly when nothing is eligible, for every eligibility, if and only if the counter does not wrap in it, or n divides 2^64, or the wrap comes with the first ticket |
| RoundRobins.ScanPicksFirst | strategy/round_robin.go:26-33 | the pick is the first eligible backend in cyclic order after the counter, unless the tickets taken wrap it harmfully |
| RoundRobins.ReadingsPickFirst | strategy/round_robin.go:26-33 | the same of the clock readings the method itself takes, when they agree on who is eligible |
| RoundRobins.NoStarvation | strategy/round_robin.go:26-33 | a backend that stays eligible and that one of the next n tickets leads to is picked within n calls, however the others' eligibility changes, even inside a call |
| RoundRobins.NoStarvationIff | strategy/round_robin.go:26-33 | a backend can stay eligible and be passed over for n calls if and only if none of the next n tickets leads to it |
| RoundRobins.NobodyStarvesIff | strategy/round_robin.go:26-33 | from a counter value every steadily eligible backend is picked within n calls in every run if and only if the next n tickets do not wrap the counter, or n divides 2^64, or the wrap comes with the first of them |
| RoundRobinFairness.PicksAreTickets | strategy/round_robin.go:19-35 | in any run with a fixed eligible set, wraps included, each member is picked exactly as often as a ticket taken leads to it, and nobody else ever |
| RoundRobinFairness.UnbrokenIff | strategy/round_robin.go:27 | the harmless case of the next result: the tickets do not wrap the counter, or n divides 2^64, or the wrap comes with the first of them, exactly when they lead round the slice without a break |
| RoundRobinFairness.RoundRobinIsFair | strategy/round_robin.go:19-35 | any k calls with a fixed eligible set E give each member floor or ceiling of k / \|E\| picks and nobody else any, if the tickets they take do not wrap the counter harmfully or the wrap spares E |
| RoundRobinFairness.FairToSetIff | strategy/round_robin.go:27 | for a fixed eligible set E and r = 2^64 mod n, every run from every counter value is fair if and only if r = 0, or max E < r, or r <= min E and r <= max E - min E |
| RoundRobinFairness.FairForeverIff | strategy/round_robin.go:27 | with all n eligible, every run from every counter value is fair if and only if n divides 2^64 |
| ConcurrentRoundRobin.UninterruptedCall | strategy/round_robin.go:26-34 | from any state, a call that runs without interruption ends with exactly the counter and the answer of the sequential call |
| ConcurrentRoundRobin.FailsExactlyOnTheNth | strategy/round_robin.go:26-34 | in every interleaving, counted on the events: a step answers nil if and only if it is the n-th attempt of its call since that last ended and all n tickets led to ineligible backends; it finds the backend its ticket leads to if and only if that is eligible |
| ConcurrentRoundRobin.NoTicketIsLost | strategy/round_robin.go:26-33 | attempts of any calls interleaved, wraps included: every ticket that leads to a member of the fixed eligible set has been returned as a pick of it or is held by an unfinished call, and nobody else is picked |
| ConcurrentRoundRobin.ConcurrentCallsAreFair | strategy/round_robin.go:26-33 | after any interleaving the picks of two eligible backends differ by at most one plus the calls that have found a backend and not returned, unless the tickets taken wrap harmfully |
| ConcurrentRoundRobin.NobodyFailsIff | strategy/round_robin.go:34 | no interleaving makes a call answer nil if and only if every backend is eligible |
| LeastConnections.NextBackend | strategy/least_connections.go:13-41 | on the fields: the backend returned is eligible at its clock reading, no eligible one has fewer active connections, and those before it have more; nil exactly when none is eligible |
| LeastConnections.LoadBound | strategy/least_connections.go:20-40 | with at least m eligible at every pick, at most K requests anywhere and at most P between pick and increment, refusals at the gate and departures included, no backend carries or is about to carry more than floor((K - p) / m) + p in any reachable state, p being the smaller of P and K |
| LeastConnections.SiteIsFleet | backend/backend.go:69-81 | every run of selections, refusals, increments, decrements and other sections on backends is a run of the fleet whose loads are the ActiveConnections fields |
| LeastConnections.CountsAreBounded | strategy/least_connections.go:20-40 | so the load bound holds of ActiveConnections itself, which is the number of requests between increment and decrement |
| LeastConnections.AtomicDispatchBound | strategy/least_connections.go:20-40 | with pick and increment atomic, no backend exceeds ceil(K/m) |
| LeastConnections.RaceAttainsBound | strategy/least_connections.go:25-38 | for all m, P > 0 and K some run over m backends reaches exactly that load |
| LeastConnections.CountsAttainBound | strategy/least_connections.go:25-38 | and so do the ActiveConnections of m new backends |
| RateLimiting.RateLimiter.constructor | middleware/ratelimit.go:18-27 | an empty log with the given limits |
| RateLimiting.RateLimiter.Prune | middleware/ratelimit.go:63-68 | the filtering loop keeps each entry younger than the window as often as it occurs, in order, and no other |
| RateLimiting.RateLimiter.Allow | middleware/ratelimit.go:52-77 | the decision and the new log of one request, field by field |
| RateLimiting.RateLimiter.Cleanup | middleware/ratelimit.go:33-48 | one tick prunes every log, in whatever order the map is visited; an address stays in the map exactly if it has an entry younger than the window |
| RateLimiting.RateLimiter.SetEnabled | middleware/ratelimit.go:91-95 | only the switch changes |
| RateLimiting.RateLimiter.SetLimits | middleware/ratelimit.go:97-102 | only the limits change |
| RateLimiting.Replay | middleware/ratelimit.go:29-102 | the object, taken through the events of any run, ends in the state and admits the requests that the results below speak of |
| RateLimiting.DecisionsMatchHistory | middleware/ratelimit.go:52-77 | in every run whose windows never grow, a request passes exactly when the limiter is off or fewer than maxRequests of its address's admissions in the whole run are younger than the window |
| RateLimiting.DecisionsIgnoreOthers | middleware/ratelimit.go:29-77 | the limiter decides as it would if the requests of other addresses and all cleanup ticks were left out of the run |
| RateLimiting.OnlyKeeps | middleware/ratelimit.go:29-77 | what is left in is each event of the address or of the settings, as often as it occurs, and nothing else |
| RateLimiting.LogEndsHistory | middleware/ratelimit.go:29-77 | in every run, limits changed at will, the stored log is the end of the time-ordered admissions of that address |
| RateLimiting.DroppedIffForgotten | middleware/ratelimit.go:29-77 | in every run the log lacks an admission if and only if a later tick, or a later request of the address while the limiter was on, came at least the window then in force after it |
| RateLimiting.DecisionIsRightIff | middleware/ratelimit.go:52-102 | in every run, limits changed at will, a decision is the one the whole history calls for unless the limiter is on and the admission maxRequests places from the end is younger than the window although it was forgotten earlier |
| RateLimiting.EnlargementIff | middleware/ratelimit.go:97-102 | in every run, whatever the window is set to, limiter and history decide alike for every limit if and only if every forgotten admission is as old as that window; that is, if the log lacks nothing or the youngest admission it lacks is |
| RateLimiting.EnlargedWindowForgets | middleware/ratelimit.go:97-102 | a run in which enlarging the window admits a request that the history would refuse |
| RateLimiting.RateIsBounded | middleware/ratelimit.go:52-77 | with fixed limits no half-open interval of k windows sees more than k * max(0, maxRequests) admissions of one address; the log is a time-ordered suffix of the admissions and never longer than max(0, maxRequests) |

## Left out

- Backends.Backend.RecordFailure: FailureCount and ActiveConnections are unbounded; the wrap of a 64-bit count needs more than 2^63 increments.
- Backends.Backend.RecordLatency: the floating-point error of one evaluation is an input; how large it can be is not derived from the representation.
- ConsistentHashing.SortByHash: sorts a sequence value instead of a slice in place; callers use only that the result is sorted and has the same entries, as for any unstable sort.
- ConsistentHashing.ConsistentHash.NextBackend: one call at a time, on backends that change between calls only (a change within a call is a `Look` whose two parts differ); the source reads and replaces the ring without a lock.
- RoundRobins.RoundRobin.NextBackend: the backends do not change during the method; the results about `Call` hold for any sequence of findings, so also for changes between attempts.
- RoundRobinFairness.RoundRobinIsFair: its condition on a single run is sufficient, not necessary: a run that wraps the counter harmfully may be too short to show it. The condition on the set is exact (`RoundRobinFairness.FairToSetIff`).
- LeastConnections.NextBackend: the counts and circuits do not change during the scan, only the clock does.
- LeastConnections.CountsAreBounded: a slice that holds no backend twice.
- LeastConnections.LoadBound: the scan over the backends is one step; counts that change while the scan runs are not modelled.
- SHA-256 (section 6.2 of FIPS 180-4) is an arbitrary function to 64-bit values; freedom from collisions is a hypothesis about the nodes at hand wherever it is needed.
- Response bodies, headers, request identifiers, informational 1xx statuses and logging: only final statuses are modelled.
- Serving.Server.ServeHTTP: an upstream answers with a final status from 200 to 999. A 101, which turns the connection over to another protocol, and a status at which net/http panics are not modelled for a request that runs alone; `Interleaving` has the panic as `Abort`.
- RateLimiting.RateLimiter.Allow: the switch is read together with the log; the source reads it just before taking the lock.
- The transport of the reverse proxy: a forwarded request meets a response or a transport error.
- `middleware/ratelimit.go:104-127`, the choice of the client address from headers: the address is an input.
- The health checker's ticker and default intervals: probes happen at arbitrary instants.
- `strategy/latency.go` and `middleware/requestlimit.go`: the minimum search over average latencies and the body-size comparison are not modelled.
- `server/strategy_controller.go`: a guarded reference; one request uses one strategy throughout.
- Dashboard, metrics, TLS, configuration and the command-line programs: wiring and user interface.
- `Weight`: stored and read by no strategy.
