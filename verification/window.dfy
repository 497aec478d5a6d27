/**
  The fixed window seen over many requests: a run of requests from one client,
  every round trip delivered, each request finishing before the next starts.
 */
module Window {
  import opened GoValues
  import opened Redis
  import opened RateLimiter

  /**
    Requests from `ip` at the given instants, one after another, every round
    trip delivered; by `ProvideMatchesSerialRequest` each of them is `Provide`.
   */
  function Serve(m: Middleware, st: Store, ip: Key, times: seq<int>): (r: (Store, seq<Outcome>))
    ensures |r.1| == |times|
    ensures SameElsewhere(st, r.0, ip)
    decreases |times|
  {
    if |times| == 0 then (st, [])
    else
      var first := SerialRequest(m, st, times[0], ip);
      var rest := Serve(m, first.store, ip, times[1..]);
      (rest.0, [first.outcome] + rest.1)
  }

  /**
    The outcome the `n`-th request of a window should get when `left` seconds
    of the window remain: admitted while `n` is within the quota, with the
    quota left after it; rejected, with nothing left, beyond.
   */
  function InWindowOutcome(maxVisitCount: Int64, n: Int64, left: Int64): Outcome
    requires 0 < n
  {
    if n <= maxVisitCount then Admitted(n, Headers(maxVisitCount - n, left))
    else Rejected(n, Headers(0, left))
  }

  /** One request inside a live window, every round trip delivered. */
  lemma RequestInWindow(m: Middleware, st: Store, ip: Key, now: int)
    requires ip in st && st[ip].expiry.ExpiresAt?
    requires 0 < st[ip].expiry.at - now <= MaxDurationSeconds
    requires 0 <= st[ip].count < Int64Max
    requires 0 <= m.maxVisitCount
    ensures var r := SerialRequest(m, st, now, ip);
            && ip in r.store
            && r.store[ip] == Entry(st[ip].count + 1, st[ip].expiry)
            && r.outcome == InWindowOutcome(m.maxVisitCount, st[ip].count + 1, st[ip].expiry.at - now)
  {
    assert Present(st, now, ip);
  }

  /** The first request of a window, every round trip delivered. */
  lemma FirstRequest(m: Middleware, st: Store, ip: Key, now: int)
    requires !Present(st, now, ip)
    requires 0 < m.repo.expiration <= MaxDurationSeconds
    requires 0 <= m.maxVisitCount
    ensures var r := SerialRequest(m, st, now, ip);
            && ip in r.store
            && r.store[ip] == Entry(1, ExpiresAt(now + m.repo.expiration))
            && r.outcome == InWindowOutcome(m.maxVisitCount, 1, m.repo.expiration)
  {
  }

  /**
    Inside a live window every request adds one to the count, leaves the end
    of the window where it is, and gets the in-window outcome.
   */
  lemma {:induction false} RequestsInWindow(m: Middleware, st: Store, ip: Key, times: seq<int>)
    requires ip in st && st[ip].expiry.ExpiresAt?
    requires 0 <= st[ip].count && st[ip].count + |times| <= Int64Max
    requires 0 <= m.maxVisitCount
    requires forall i :: 0 <= i < |times| ==> 0 < st[ip].expiry.at - times[i] <= MaxDurationSeconds
    ensures var r := Serve(m, st, ip, times);
            && ip in r.0
            && r.0[ip] == Entry(st[ip].count + |times|, st[ip].expiry)
            && forall i :: 0 <= i < |times| ==>
                 r.1[i] == InWindowOutcome(m.maxVisitCount, st[ip].count + i + 1, st[ip].expiry.at - times[i])
    decreases |times|
  {
    if |times| > 0 {
      var at := st[ip].expiry.at;
      RequestInWindow(m, st, ip, times[0]);
      var first := SerialRequest(m, st, times[0], ip);
      var later := times[1..];
      assert forall i :: 0 <= i < |later| ==> later[i] == times[i + 1];
      RequestsInWindow(m, first.store, ip, later);
      var rest := Serve(m, first.store, ip, later);
      var r := Serve(m, st, ip, times);
      assert r.1 == [first.outcome] + rest.1;
      forall i | 0 < i < |times|
        ensures r.1[i] == InWindowOutcome(m.maxVisitCount, st[ip].count + i + 1, at - times[i])
      {
        assert r.1[i] == rest.1[i - 1];
      }
    }
  }

  /**
    From a client with no live counter, the requests of one window are
    counted 1, 2, 3, ...; the window ends `expiration` seconds after the first
    of them, and the reset header counts down to that instant.
   */
  lemma FixedWindowFromFirstRequest(m: Middleware, st: Store, ip: Key, times: seq<int>)
    requires 0 < |times| <= Int64Max
    requires !Present(st, times[0], ip)
    requires 0 < m.repo.expiration <= MaxDurationSeconds
    requires 0 <= m.maxVisitCount
    requires forall i :: 0 <= i < |times| ==> times[0] <= times[i] < times[0] + m.repo.expiration
    ensures var r := Serve(m, st, ip, times);
            && ip in r.0
            && r.0[ip] == Entry(|times|, ExpiresAt(times[0] + m.repo.expiration))
            && forall i :: 0 <= i < |times| ==>
                 r.1[i] == InWindowOutcome(m.maxVisitCount, i + 1, times[0] + m.repo.expiration - times[i])
  {
    var end := times[0] + m.repo.expiration;
    FirstRequest(m, st, ip, times[0]);
    var first := SerialRequest(m, st, times[0], ip);
    var later := times[1..];
    forall i | 0 <= i < |later|
      ensures 0 < end - later[i] <= MaxDurationSeconds
    {
      assert later[i] == times[i + 1];
    }
    RequestsInWindow(m, first.store, ip, later);
    var rest := Serve(m, first.store, ip, later);
    var r := Serve(m, st, ip, times);
    assert r.1 == [first.outcome] + rest.1;
    forall i | 0 < i < |times|
      ensures r.1[i] == InWindowOutcome(m.maxVisitCount, i + 1, end - times[i])
    {
      assert r.1[i] == rest.1[i - 1];
    }
  }

  /**
    Within one window exactly `maxVisitCount` requests are admitted; the
    remaining quota falls by one per admitted request and stays at 0 after.
   */
  lemma QuotaAdmitsExactlyMax(m: Middleware, st: Store, ip: Key, times: seq<int>)
    requires 0 < |times| <= Int64Max
    requires !Present(st, times[0], ip)
    requires 0 < m.repo.expiration <= MaxDurationSeconds
    requires 0 <= m.maxVisitCount
    requires forall i :: 0 <= i < |times| ==> times[0] <= times[i] < times[0] + m.repo.expiration
    ensures var outcomes := Serve(m, st, ip, times).1;
            forall i :: 0 <= i < |times| ==>
              && (outcomes[i].Admitted? <==> i < m.maxVisitCount)
              && (outcomes[i].Rejected? <==> m.maxVisitCount <= i)
              && outcomes[i].headers.remaining == (if i < m.maxVisitCount then m.maxVisitCount - i - 1 else 0)
  {
    FixedWindowFromFirstRequest(m, st, ip, times);
  }

  /**
    A client whose counter has expired is treated exactly like one that never
    visited: the same outcome, and the same counter afterwards.
   */
  lemma ExpiredCounterIsForgotten(m: Middleware, st: Store, ip: Key, now: int, net: Network)
    requires !Present(st, now, ip)
    ensures var expired := Provide(m, st, now, ip, net);
            var forgotten := Provide(m, st - {ip}, now, ip, net);
            && expired.outcome == forgotten.outcome
            && (!expired.outcome.Aborted? ==> expired.store == forgotten.store)
  {
    var expired := Provide(m, st, now, ip, net);
    var forgotten := Provide(m, st - {ip}, now, ip, net);
    if !expired.outcome.Aborted? {
      assert SameElsewhere(st - {ip}, forgotten.store, ip);
      assert expired.store[ip] == forgotten.store[ip];
    }
  }

  /** One store step depends only on the step's own key. */
  lemma StepReadsOnlyOwnCounter(m: Middleware, ip: Key, st1: Store, st2: Store, stage: Stage, now: int, link: Link)
    requires !stage.Finished?
    requires At(st1, ip) == At(st2, ip)
    ensures var p1 := Step(m, ip, st1, stage, now, link);
            var p2 := Step(m, ip, st2, stage, now, link);
            p1.stage == p2.stage && At(p1.store, ip) == At(p2.store, ip)
  {
    assert Present(st1, now, ip) <==> Present(st2, now, ip);
    assert CountOrZero(st1, now, ip) == CountOrZero(st2, now, ip);
  }

  /**
    What a request gets depends only on its own client's counter: any two
    stores that agree on `ip` give the same outcome and the same new counter.
   */
  lemma OnlyOwnCounterMatters(m: Middleware, st1: Store, st2: Store, ip: Key, now: int, net: Network)
    requires At(st1, ip) == At(st2, ip)
    ensures var r1 := Provide(m, st1, now, ip, net);
            var r2 := Provide(m, st2, now, ip, net);
            r1.outcome == r2.outcome && At(r1.store, ip) == At(r2.store, ip)
  {
    StepReadsOnlyOwnCounter(m, ip, st1, st2, CheckExists, now, net.check);
    var a1 := Step(m, ip, st1, CheckExists, now, net.check);
    var a2 := Step(m, ip, st2, CheckExists, now, net.check);
    if !a1.stage.Finished? {
      StepReadsOnlyOwnCounter(m, ip, a1.store, a2.store, a1.stage, now, net.write);
      var b1 := Step(m, ip, a1.store, a1.stage, now, net.write);
      var b2 := Step(m, ip, a2.store, a2.stage, now, net.write);
      if !b1.stage.Finished? {
        StepReadsOnlyOwnCounter(m, ip, b1.store, b2.store, b1.stage, now, net.ttl);
      }
    }
  }

  /** A request from one client leaves every other client's next request unaffected. */
  lemma ClientsAreIndependent(m: Middleware, st: Store, a: Key, b: Key, ta: int, tb: int, netA: Network, netB: Network)
    requires a != b
    ensures var afterA := Provide(m, st, ta, a, netA).store;
            Provide(m, afterA, tb, b, netB).outcome == Provide(m, st, tb, b, netB).outcome
  {
    var afterA := Provide(m, st, ta, a, netA).store;
    assert At(afterA, b) == At(st, b) by {
      assert b in afterA <==> b in afterA - {a};
      assert b in st <==> b in st - {a};
    }
    OnlyOwnCounterMatters(m, afterA, st, b, tb, netB);
  }

  /** `n` copies of the instant `t`. */
  function Repeat(t: int, n: nat): (s: seq<int>)
    ensures |s| == n && forall i :: 0 <= i < n ==> s[i] == t
  {
    seq(n, _ => t)
  }

  /**
    The timeline of the middleware's test suite: `maxVisitCount` admitted
    requests, as many rejected ones, one more still rejected a second before
    the window ends, and the first request once it has ended admitted as a
    fresh first visit.
   */
  lemma TestSuiteTimeline(m: Middleware, st: Store, ip: Key, t0: int)
    requires !Present(st, t0, ip)
    requires 0 < m.repo.expiration <= MaxDurationSeconds
    requires 1 <= m.maxVisitCount && 2 * m.maxVisitCount < Int64Max
    ensures var times := Repeat(t0, 2 * m.maxVisitCount) + [t0 + m.repo.expiration - 1];
            var r := Serve(m, st, ip, times);
            && (forall i :: 0 <= i < m.maxVisitCount ==> r.1[i].Admitted?)
            && (forall i :: m.maxVisitCount <= i <= 2 * m.maxVisitCount ==> r.1[i].Rejected?)
            && Provide(m, r.0, t0 + m.repo.expiration, ip, Healthy).outcome
                 == Admitted(1, Headers(m.maxVisitCount - 1, m.repo.expiration))
  {
    var times := Repeat(t0, 2 * m.maxVisitCount) + [t0 + m.repo.expiration - 1];
    assert times[0] == t0;
    QuotaAdmitsExactlyMax(m, st, ip, times);
    FixedWindowFromFirstRequest(m, st, ip, times);
    var r := Serve(m, st, ip, times);
    assert !Present(r.0, t0 + m.repo.expiration, ip);
    ProvideMatchesSerialRequest(m, r.0, t0 + m.repo.expiration, ip);
  }
}
