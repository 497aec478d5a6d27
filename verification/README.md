# Fixed-window rate limiter: a Dafny model

This project models the per-client rate limiter of an HTTP service. A gin
middleware (`RateLimiterMiddleware.Provide`) counts each client IP's requests in
a Redis key. The key's time-to-live is the window. The middleware allows at most
`MaxVisitCount` requests per window and rejects the rest with status 429. Every
response it lets through, admitted or rejected, carries `X-RateLimit-Remaining`
and `X-RateLimit-Reset` headers.

What is modelled:

- **Store** (`Redis`, `redis_store.dfy`). A map from key to `(count, expiry)`
  and an integer logical clock counted in whole seconds. A key whose expiry
  instant has been reached counts as absent. Each command the adapters issue is
  a pure function that follows the documented Redis semantics: EXISTS, GET,
  TTL, SET [EX], SET NX [EX] / SETNX, and INCR. INCR adds one, keeps the TTL,
  and turns a missing key into 1 with no TTL. Each command is one round trip.
  A `Link` parameter decides its fate: delivered, refused, or executed with the
  reply lost. go-redis's encodings are modelled too: the expiration argument of
  `Set`/`SetNX`, and the decoding of a TTL reply into a `time.Duration`, where
  the sentinels -2 and -1 become that many nanoseconds.
- **Current adapter** (`AppRepository`, app/redis.go): `GetTTL`,
  `IncrVisitCountByIP`, `SetVisitCount` (set-if-absent with expiry) and
  `Exists`. Each returns Go's `(value, error)` pair, including the values
  returned on error.
- **Earlier adapter** (`LegacyRepository`, redis.go): `GetVisitCount` (GET,
  then TTL, into a `Record`), `SetVisitCount` (unconditional SET with expiry)
  and `IncrVisitCountByIP` (error only).
- **Middleware** (`RateLimiter`, app/middleware.go). One request is an explicit
  sequence of store steps (`Step`): EXISTS, then SETNX of 1 or INCR, then TTL,
  then the decision. `Provide` runs the three steps at one instant, and each
  step's network fate is a parameter. The int64 subtraction behind the
  remaining quota wraps as Go's does. The reset header is the TTL truncated to
  whole seconds.
- **Window** (`Window`) and **Races** (`Races`): properties that span several
  requests. These are runs of requests one after another, and interleavings of
  two requests' steps or of a step and the key's expiry.

Three behaviours of the code are worth knowing before reading the contracts:

- `GetTTL` passes a -1 ("no expiry") reply through unchecked, so the reset
  header of a counter without TTL is 0.
- `Provide` reads EXISTS before it writes. Two interleaved first requests
  therefore both report a count of 1 and leave a counter of 1
  (`Races.ConcurrentFirstRequestsCountOnce`).
- A key can expire between EXISTS and INCR. INCR then recreates it without a
  TTL, and that client's window never resets again
  (`Races.ExpiryBetweenCheckAndIncrement`, `Races.PersistentCounterNeverResets`).

## Model

| member | source | states |
|---|---|---|
| GoValues.Wrap64 | app/middleware.go:87 | the int64 result of a Go subtraction: equal to the exact value when it fits, otherwise congruent to it modulo 2^64 |
| GoValues.WholeSeconds | app/middleware.go:92 | `int(ttl.Seconds())` truncates toward zero: for d >= 0, s·10^9 <= d < (s+1)·10^9; for d < 0, the mirror image |
| GoValues.SecondsToDuration | app/redis.go:43 | go-redis's `time.Duration(n) * time.Second`: exactly n·10^9 ns when that fits in an int64, and in every case congruent to it modulo 2^64 |
| GoValues.WholeSecondsOfSeconds | app/middleware.go:92 | a TTL of n whole seconds gives a reset header of exactly n |
| GoValues.SubSecondIsZero | app/middleware.go:92 | the -2 ns and -1 ns sentinel durations give a reset of 0 |
| Strconv.DigitsValueOfFormatNat | app/middleware.go:91 | the decimal digits FormatInt writes have the value of the number written |
| Strconv.AtoiFormatInt | app/middleware.go:91-92 | every header value written with FormatInt/Itoa parses back with Atoi to the same int64, as the test reads them |
| Strconv.FormatInt | app/middleware.go:91-92 | `strconv.FormatInt(n, 10)` / `strconv.Itoa`: a non-empty string that starts with '-' exactly when n is negative; its value is pinned by `Strconv.AtoiFormatInt` |
| Strconv.Atoi | app/middleware_test.go:108-113 | `strconv.Atoi`: a parse succeeds only with a value in int64 range, and the empty header value is a parse error |
| Redis.Exists | app/redis.go:73 | EXISTS replies nonzero iff the key is stored and unexpired; it never writes; it fails iff the round trip fails |
| Redis.Get | redis.go:45 | GET replies nil iff the key is absent or expired, else the stored count; it never writes |
| Redis.Ttl | app/redis.go:43 | TTL replies -2 for an absent key, -1 for a key without expiry, else the positive number of seconds until the key's expiry instant |
| Redis.Set | redis.go:67 | SET overwrites whether or not the key exists and installs the EX deadline (or none); a non-positive EX is refused; other keys are untouched |
| Redis.SetNX | app/redis.go:64 | SET NX writes only when the key is absent (reply true iff written); a present key keeps its count and expiry; other keys are untouched |
| Redis.Incr | app/redis.go:55 | INCR replies the old count (0 if absent) plus one and stores it; it keeps a present key's expiry, creates an absent key without expiry, and refuses at the int64 maximum |
| Redis.TtlDuration | app/redis.go:43 | go-redis turns the TTL sentinels -2 and -1 into that many nanoseconds and any other reply into that many seconds |
| AppRepository.SetNXExpiry | app/redis.go:64 | go-redis's SetNX encoding: an expiration of 0 becomes SETNX with no TTL, any other becomes SET NX EX with that expiration, which the server accepts exactly when it is not negative |
| AppRepository.GetTTL | app/redis.go:40-49 | the remaining time the store reports is returned unchecked, sentinels included (-2 ns missing, -1 ns no expiry); 0 together with the error on failure; the store is unchanged |
| AppRepository.IncrVisitCountByIP | app/redis.go:52-60 | returns the post-increment count, or -1 with the error; a present key's expiry is left alone; an absent key restarts at 1 without expiry; only `ipaddr` changes |
| AppRepository.SetVisitCount | app/redis.go:63-68 | stores `count` with TTL = expiration only if the key is absent; a present key keeps count and TTL; only `ipaddr` changes; a negative expiration is refused by the store |
| AppRepository.Exists | app/redis.go:71-79 | true iff the call succeeded and the key exists; false with the error on failure; the store is unchanged |
| AppRepository.IncrMany | app/redis.go:52-60 | a run of increments changes no key but `ipaddr` |
| AppRepository.IncrManyInWindow | app/redis.go:52-60 | k increments before the window's end add k to the count and leave the expiry where it was |
| AppRepository.SetThenIncrements | app/redis.go:52-68 | SetVisitCount on an absent key, then k increments inside the window, leaves count + k with the expiry fixed at set time + expiration |
| LegacyRepository.GetVisitCount | redis.go:42-63 | GET and TTL are read at their own instants: an absent key gives (nil, false, nil); a failed GET gives (nil, false, err); a failed TTL after a successful GET gives (nil, true, err); otherwise the count GET saw with true, and the TTL reply as a duration: -2 ns if the key expired in between, -1 ns without TTL, else the time left |
| LegacyRepository.KeyExpiresBetweenGetAndTtl | redis.go:45-62 | a key that expires between the GET and the TTL read is returned as (Record{count, -2 ns}, true, nil) |
| LegacyRepository.SetVisitCount | redis.go:66-71 | overwrites the count whether or not the key exists and restarts its TTL at the expiration; only `ipaddr` changes |
| LegacyRepository.IncrVisitCountByIP | redis.go:74-79 | adds one to the count (an absent key counts as 0) and returns only the error |
| LegacyRepository.SetExpiry | redis.go:67 | go-redis's Set encoding: a positive expiration becomes EX, any other a plain SET that leaves the key without TTL; the server accepts every such command |
| LegacyRepository.SetThenGet | redis.go:42-71 | a count written by SetVisitCount reads back unchanged with true and no error, with a TTL in (0, expiration] counting down, as main.go exercises |
| LegacyRepository.SetThenGetAfterExpiry | redis.go:42-71 | once the expiration has elapsed the written count reads as absent: (nil, false, nil) |
| RateLimiter.Decide | app/middleware.go:87-96 | rejected iff newVisitCount > MaxVisitCount; remaining is never negative, and without overflow it is MaxVisitCount - newVisitCount clamped at 0; reset is the TTL in whole seconds |
| RateLimiter.RemainingWrapsAtExtremeQuota | app/middleware.go:87-90 | with MaxVisitCount = min int64 the subtraction wraps, so a rejected request reports the largest remaining quota |
| RateLimiter.HeaderLines | app/middleware.go:91-92 | both headers are present on every admitted and every rejected request, and none on an aborted one; each parses back to the decided value |
| RateLimiter.Step | app/middleware.go:54-96 | each store step reads and writes only the client's key; EXISTS writes nothing; the TTL step always finishes the request; a failed round trip aborts it |
| RateLimiter.Provide | app/middleware.go:49-99 | a request is aborted iff some round trip fails or the store refuses the write (INCR at the int64 maximum, a negative expiration); only the client's own key can change; a failed EXISTS leaves the store as it was |
| RateLimiter.ProvideDecision | app/middleware.go:62-96 | when not aborted, the count is 1 for an absent key and the post-increment value for a present one; rejected iff that count is above the quota; remaining >= 0 and equal to the clamped difference |
| RateLimiter.ProvideFixesWindow | app/middleware.go:62-77 | when not aborted, a present key gains one and keeps its expiry; an absent key gets count 1 and TTL = expiration (none for an expiration of 0) |
| RateLimiter.ProvideReset | app/middleware.go:79-92 | the reset header equals the expiration for a fresh key, the positive seconds left for a present key with a TTL, and 0 for a key without TTL |
| RateLimiter.ProvideMatchesSerialRequest | app/middleware.go:49-99 | with every round trip delivered, the handler equals a direct definition on the counter: a present counter gains one and keeps its expiry, an absent one starts at 1 with a fresh expiry, and the decision follows from the new count and its remaining time |
| Window.RequestInWindow | app/middleware.go:69-96 | one request inside a live window adds one to the count, keeps the window's end, and gets the in-window outcome |
| Window.FirstRequest | app/middleware.go:62-96 | the first request of a window creates the counter at 1 with expiry `expiration` seconds ahead and is admitted iff the quota is at least 1, with reset = expiration |
| Window.RequestsInWindow | app/middleware.go:69-96 | inside a live window every request adds one to the count, never moves the window's end, and is admitted iff its count is within the quota |
| Window.FixedWindowFromFirstRequest | app/middleware.go:62-96 | from a client with no live counter, the requests of one window are counted 1, 2, 3, ..., the window ends expiration seconds after the first, and the reset header counts down to it |
| Window.QuotaAdmitsExactlyMax | app/middleware_test.go:79-91 | within one window exactly MaxVisitCount requests are admitted and all later ones get 429; remaining is MaxVisitCount - i - 1 for the i-th admitted request and 0 afterwards |
| Window.ExpiredCounterIsForgotten | app/middleware_test.go:98-102 | a client whose key has expired gets the same outcome and the same new counter as a client that never visited |
| Window.StepReadsOnlyOwnCounter | app/middleware.go:54-85 | one store step's result depends only on the client's own key |
| Window.OnlyOwnCounterMatters | app/middleware.go:51-85 | two stores that agree on a client's key give that client's request the same outcome and the same new counter |
| Window.ClientsAreIndependent | app/middleware.go:51-85 | a request from one IP does not change the outcome of another IP's next request |
| Window.TestSuiteTimeline | app/middleware_test.go:79-102 | MaxVisitCount admitted, as many rejected, still rejected at expiration minus 1s, and once the full expiration has elapsed admitted as a first request with remaining MaxVisitCount - 1 and reset = expiration |
| Races.ConcurrentFirstRequestsCountOnce | app/middleware.go:54-68 | two first requests whose EXISTS calls both precede the writes are both admitted with count 1 and leave a counter of 1, where serial execution leaves 2 |
| Races.ExpiryBetweenCheckAndIncrement | app/middleware.go:54-92 | a key that expires between EXISTS and INCR is recreated as 1 without TTL, the reset header is 0, and the key never expires again |
| Races.PersistentCounterNeverResets | app/middleware.go:69-96 | once a counter without TTL has reached the quota, every later request at any instant is rejected with reset 0 |

## Left out

- Connection setup (`NewRedisLimiterRepository` in both adapters, the PING, the pool, retries and timeouts): network I/O. A store map replaces the server, and a per-round-trip `Link` value stands in for network failure.
- `NewRateLimiterMiddleware`: it has no logic beyond copying the configured `MaxVisitCount` and the repository, which is what the `RateLimiter.Middleware` constructor does. Its logger is not modelled.
- `GinMiddlewareCollection`, `NewGinMiddlewareCollection`, engine and route setup, the server, dependency injection, configuration parsing and logging: wiring and I/O with no rate-limit logic. Logging calls inside `Provide` are dropped too.
- `c.ClientIP()` is a parameter (`ip`). The handler that `c.Next()` would run is not modelled. A plain `c.Abort()` sets no status, and what the client then receives is up to the HTTP framework.
- Real concurrency is not modelled. Interleavings are explicit orders of `Step` calls.
- Time is a logical clock in whole seconds. Sub-second timing, and Redis's rounding of a millisecond TTL to the nearest second, are not modelled. `time.Duration.Seconds()` is taken as exact integer truncation, without float64 rounding.
- The store holds only integer counts in int64 range. Non-integer values, and the GET/INCR parse errors they would cause, are not modelled. The only server-side errors modelled are the invalid expire time and the INCR overflow. Authentication, memory and replica errors are not.
- Interface declarations: app/dao_interface.go, app/limiter_interface.go and dao_interface.go have no behaviour.
- RateLimiter.ProvideDecision: the remaining-quota equality is stated only when `MaxVisitCount - newVisitCount` fits in an int64. Outside that range Go wraps, and `RateLimiter.RemainingWrapsAtExtremeQuota` shows one such case.
- RateLimiter.ProvideReset: the reset-header equalities are stated only for windows of at most 9223372036 seconds, where `n * time.Second` does not wrap.
- AppRepository.GetTTL: the exact duration is stated only for remaining times of at most 9223372036 seconds. Beyond that, go-redis's multiplication wraps, and the contract states the duration only modulo 2^64.
- LegacyRepository.GetVisitCount: the TTL is stated exactly only under the same 9223372036-second bound, and modulo 2^64 beyond it. A write by another client between the GET and the TTL read is not modelled; both reads see the same store.
