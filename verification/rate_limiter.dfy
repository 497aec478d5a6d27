/**
  The rate-limit middleware (`RateLimiterMiddleware.Provide` in
  app/middleware.go). One request is a fixed sequence of store steps on the
  client's key: EXISTS, then SETNX of 1 (absent key) or INCR (present key),
  then TTL; then the decision and the two response headers. Each step is its
  own round trip, so the steps of different requests may interleave; `Step`
  takes one of them, `Provide` runs all of them at one instant.
 */
module RateLimiter {
  import opened GoValues
  import opened Redis
  import AppRepository
  import Strconv

  /** `RateLimiterMiddleware`: the repository it calls and the quota per window. */
  datatype Middleware = Middleware(repo: AppRepository.Repository, maxVisitCount: Int64)

  /** The values of X-RateLimit-Remaining and X-RateLimit-Reset. */
  datatype Headers = Headers(remaining: Int64, reset: Int64)

  /** How the handler ends. */
  datatype Outcome =
    | Aborted(error: Error)                             // c.Abort(): not admitted, no headers
    | Rejected(newVisitCount: Int64, headers: Headers)  // headers, then status 429
    | Admitted(newVisitCount: Int64, headers: Headers)  // headers, then c.Next()

  /** Where a request is in its sequence of store steps. */
  datatype Stage =
    | CheckExists
    | Initialize
    | Increment
    | ReadTtl(newVisitCount: Int64)
    | Finished(outcome: Outcome)

  datatype Progress = Progress(store: Store, stage: Stage)

  /** The fate of a request's three round trips, in order. */
  datatype Network = Network(check: Link, write: Link, ttl: Link)

  datatype Response = Response(store: Store, outcome: Outcome)

  const Healthy: Network := Network(Up, Up, Up)

  predicate AllUp(net: Network) {
    net.check.Up? && net.write.Up? && net.ttl.Up?
  }

  /**
    The decision once the count and the TTL are known: the remaining quota is
    `maxVisitCount - newVisitCount` (an int64 subtraction) clamped at 0, the
    reset is the TTL in whole seconds, and the request is rejected exactly when
    the count is above the quota.
   */
  function Decide(maxVisitCount: Int64, newVisitCount: Int64, ttl: Duration): (o: Outcome)
    ensures !o.Aborted? && o.newVisitCount == newVisitCount
    ensures o.Rejected? <==> newVisitCount > maxVisitCount
    ensures o.headers.remaining >= 0
    ensures InInt64(maxVisitCount - newVisitCount) ==>
              (o.headers.remaining == 0 <==> newVisitCount >= maxVisitCount)
              && (o.headers.remaining > 0 ==> o.headers.remaining == maxVisitCount - newVisitCount)
    ensures o.headers.reset == WholeSeconds(ttl)
  {
    var difference := Wrap64(maxVisitCount - newVisitCount);
    var remaining := if difference < 0 then 0 else difference;
    var headers := Headers(remaining, WholeSeconds(ttl));
    if newVisitCount > maxVisitCount then Rejected(newVisitCount, headers)
    else Admitted(newVisitCount, headers)
  }

  /**
    With a quota so negative that the subtraction overflows, Go's wrap-around
    makes a rejected request report the largest remaining quota.
   */
  lemma RemainingWrapsAtExtremeQuota()
    ensures Decide(Int64Min, 1, 0) == Rejected(1, Headers(Int64Max, 0))
  {
    assert Wrap64(Int64Min - 1) == Int64Max;
  }

  /** The header lines written before the admit/reject branch; none on abort. */
  function HeaderLines(o: Outcome): (lines: seq<(string, string)>)
    ensures o.Aborted? <==> |lines| == 0
    ensures !o.Aborted? ==>
              && |lines| == 2
              && lines[0].0 == "X-RateLimit-Remaining"
              && Strconv.Atoi(lines[0].1) == Some(o.headers.remaining as int)
              && lines[1].0 == "X-RateLimit-Reset"
              && Strconv.Atoi(lines[1].1) == Some(o.headers.reset as int)
  {
    match o
    case Aborted(_) => []
    case _ =>
      Strconv.AtoiFormatInt(o.headers.remaining);
      Strconv.AtoiFormatInt(o.headers.reset);
      [ ("X-RateLimit-Remaining", Strconv.FormatInt(o.headers.remaining)),
        ("X-RateLimit-Reset", Strconv.FormatInt(o.headers.reset)) ]
  }

  function Abort(st: Store, err: Option<Error>): Progress
    requires err.Some?
  {
    Progress(st, Finished(Aborted(err.value)))
  }

  /** One store step of a request for `ip`, taken at `now` over `link`. */
  function Step(m: Middleware, ip: Key, st: Store, stage: Stage, now: int, link: Link): (p: Progress)
    requires !stage.Finished?
    ensures SameElsewhere(st, p.store, ip)
    ensures stage.CheckExists? ==> p.store == st && (p.stage.Initialize? || p.stage.Increment? || p.stage.Finished?)
    ensures stage.Initialize? || stage.Increment? ==> p.stage.ReadTtl? || p.stage.Finished?
    ensures stage.ReadTtl? ==> p.stage.Finished? && p.store == st
    ensures !link.Up? ==> p.stage.Finished? && p.stage.outcome == Aborted(ConnectionError)
  {
    match stage
    case CheckExists =>
      var c := AppRepository.Exists(m.repo, st, now, ip, link);
      if c.err.Some? then Abort(c.store, c.err)
      else if !c.value then Progress(c.store, Initialize)
      else Progress(c.store, Increment)
    case Initialize =>
      var c := AppRepository.SetVisitCount(m.repo, st, now, ip, 1, link);
      if c.err.Some? then Abort(c.store, c.err) else Progress(c.store, ReadTtl(1))
    case Increment =>
      var c := AppRepository.IncrVisitCountByIP(m.repo, st, now, ip, link);
      if c.err.Some? then Abort(c.store, c.err) else Progress(c.store, ReadTtl(c.value))
    case ReadTtl(newVisitCount) =>
      var c := AppRepository.GetTTL(m.repo, st, now, ip, link);
      if c.err.Some? then Abort(c.store, c.err)
      else Progress(c.store, Finished(Decide(m.maxVisitCount, newVisitCount, c.value)))
  }

  /** The store itself refuses the write step: INCR would overflow, or the expiration is negative. */
  predicate StoreRefuses(m: Middleware, st: Store, now: int, ip: Key) {
    if Present(st, now, ip) then st[ip].count == Int64Max else m.repo.expiration < 0
  }

  /** The visit count a request observes when nothing interleaves with it. */
  function ExpectedCount(st: Store, now: int, ip: Key): int {
    if Present(st, now, ip) then st[ip].count + 1 else 1
  }

  /**
    `Provide`: the whole handler for one request from `ip` at `now`, its three
    round trips faring as `net` says. Every store error denies the request,
    and nothing else does; only the client's own key can change.
   */
  function Provide(m: Middleware, st: Store, now: int, ip: Key, net: Network): (r: Response)
    ensures SameElsewhere(st, r.store, ip)
    ensures r.outcome.Aborted? <==> !AllUp(net) || StoreRefuses(m, st, now, ip)
    ensures !net.check.Up? ==> r.store == st
  {
    var p1 := Step(m, ip, st, CheckExists, now, net.check);
    if p1.stage.Finished? then Response(p1.store, p1.stage.outcome)
    else
      var p2 := Step(m, ip, p1.store, p1.stage, now, net.write);
      if p2.stage.Finished? then Response(p2.store, p2.stage.outcome)
      else
        var p3 := Step(m, ip, p2.store, p2.stage, now, net.ttl);
        Response(p3.store, p3.stage.outcome)
  }

  /**
    The decision `Provide` reaches: the count is 1 for an absent key and the
    post-increment value for a present one; the request is rejected exactly
    when that count is above the quota; the remaining quota is the clamped
    difference.
   */
  lemma ProvideDecision(m: Middleware, st: Store, now: int, ip: Key, net: Network)
    ensures var r := Provide(m, st, now, ip, net);
            !r.outcome.Aborted? ==>
              && r.outcome.newVisitCount == ExpectedCount(st, now, ip)
              && (r.outcome.Rejected? <==> r.outcome.newVisitCount > m.maxVisitCount)
              && r.outcome.headers.remaining >= 0
              && (InInt64(m.maxVisitCount - r.outcome.newVisitCount) ==>
                    r.outcome.headers.remaining ==
                      (if r.outcome.newVisitCount <= m.maxVisitCount then m.maxVisitCount - r.outcome.newVisitCount else 0))
  {
  }

  /**
    The window `Provide` leaves behind: a present key gains one and keeps its
    expiry; an absent key is created with count 1 and an expiry `expiration`
    seconds ahead (none when the expiration is 0).
   */
  lemma ProvideFixesWindow(m: Middleware, st: Store, now: int, ip: Key, net: Network)
    ensures var r := Provide(m, st, now, ip, net);
            && (!r.outcome.Aborted? && Present(st, now, ip) ==>
                  ip in r.store && r.store[ip] == Entry(st[ip].count + 1, st[ip].expiry))
            && (!r.outcome.Aborted? && !Present(st, now, ip) ==>
                  && ip in r.store
                  && r.store[ip].count == 1
                  && r.store[ip].expiry == (if m.repo.expiration == 0 then Persistent else ExpiresAt(now + m.repo.expiration)))
  {
  }

  /**
    The reset header `Provide` writes: the seconds left in the window, which
    for a freshly created key is the whole expiration, and 0 for a key
    without expiry.
   */
  lemma ProvideReset(m: Middleware, st: Store, now: int, ip: Key, net: Network)
    ensures var r := Provide(m, st, now, ip, net);
            && (!r.outcome.Aborted? && !Present(st, now, ip) && m.repo.expiration <= MaxDurationSeconds ==>
                  r.outcome.headers.reset == m.repo.expiration)
            && (!r.outcome.Aborted? && Present(st, now, ip) && st[ip].expiry.ExpiresAt?
                  && st[ip].expiry.at - now <= MaxDurationSeconds ==>
                  r.outcome.headers.reset == st[ip].expiry.at - now > 0)
            && (!r.outcome.Aborted? && Present(st, now, ip) && st[ip].expiry.Persistent? ==>
                  r.outcome.headers.reset == 0)
  {
  }

  /** The duration GetTTL reports for a live entry. */
  function TtlOf(e: Entry, now: int): Duration {
    match e.expiry
    case Persistent => -1
    case ExpiresAt(at) => TtlDuration(at - now)
  }

  /**
    One request with every round trip delivered and no other request in
    between, stated directly on the client's counter: a present counter gains
    one and keeps its expiry, an absent one starts at 1 with a fresh expiry,
    and the decision follows from the new count and its remaining time.
   */
  function SerialRequest(m: Middleware, st: Store, now: int, ip: Key): Response {
    if Present(st, now, ip) then
      if st[ip].count == Int64Max then Response(st, Aborted(IncrOverflow))
      else
        var e := Entry(st[ip].count + 1, st[ip].expiry);
        Response(st[ip := e], Decide(m.maxVisitCount, e.count, TtlOf(e, now)))
    else if m.repo.expiration < 0 then Response(st, Aborted(InvalidExpireTime))
    else
      var e := Entry(1, if m.repo.expiration == 0 then Persistent else ExpiresAt(now + m.repo.expiration));
      Response(st[ip := e], Decide(m.maxVisitCount, 1, TtlOf(e, now)))
  }

  /** With every round trip delivered, `Provide` is exactly the serial request. */
  lemma ProvideMatchesSerialRequest(m: Middleware, st: Store, now: int, ip: Key)
    ensures Provide(m, st, now, ip, Healthy) == SerialRequest(m, st, now, ip)
  {
    if Present(st, now, ip) {
      assert Step(m, ip, st, CheckExists, now, Up) == Progress(st, Increment);
    } else {
      assert Step(m, ip, st, CheckExists, now, Up) == Progress(st, Initialize);
    }
  }
}
