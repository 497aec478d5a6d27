/**
  Requests whose store steps interleave. The handler's EXISTS, write and TTL
  are separate round trips, so another request's steps, or the key's expiry,
  can fall between them.
 */
module Races {
  import opened GoValues
  import opened Redis
  import opened RateLimiter
  import Window
  import AppRepository

  /**
    Two first requests from one client, interleaved: both EXISTS calls see
    the key absent, the first SETNX creates it, the second SETNX is a no-op,
    and each request still reports a count of 1 and is admitted. Two admitted
    requests leave a counter of 1, where running them one after the other
    leaves 2.
   */
  lemma ConcurrentFirstRequestsCountOnce(m: Middleware, st: Store, ip: Key, now: int)
    requires !Present(st, now, ip)
    requires 0 < m.repo.expiration <= MaxDurationSeconds
    requires 1 <= m.maxVisitCount
    // both EXISTS calls run before either write
    ensures Step(m, ip, st, CheckExists, now, Up) == Progress(st, Initialize)
    ensures var afterFirst := Step(m, ip, st, Initialize, now, Up).store;
            var admittedFirst := Admitted(1, Headers(m.maxVisitCount - 1, m.repo.expiration));
            && ip in afterFirst
            && afterFirst[ip] == Entry(1, ExpiresAt(now + m.repo.expiration))
            // the second write changes nothing, yet its request goes on with a count of 1
            && Step(m, ip, afterFirst, Initialize, now, Up) == Progress(afterFirst, ReadTtl(1))
            && Step(m, ip, afterFirst, ReadTtl(1), now, Up) == Progress(afterFirst, Finished(admittedFirst))
    ensures var serial := Window.Serve(m, st, ip, [now, now]).0;
            ip in serial && serial[ip].count == 2
  {
    var afterFirst := Step(m, ip, st, Initialize, now, Up).store;
    assert Present(afterFirst, now, ip);
    var serial1 := SerialRequest(m, st, now, ip);
    assert serial1.store[ip] == Entry(1, ExpiresAt(now + m.repo.expiration));
    assert Present(serial1.store, now, ip);
    var serial2 := SerialRequest(m, serial1.store, now, ip);
    assert serial2.store[ip].count == 2;
    assert [now, now][1..] == [now];
    assert Window.Serve(m, serial1.store, ip, [now]).0 == serial2.store;
  }

  /**
    A key that expires between a request's EXISTS and its INCR: INCR recreates
    it with count 1 and no expiry, the TTL read then reports "no expiry",
    which the handler passes on as a reset of 0, and the key never expires again.
   */
  lemma ExpiryBetweenCheckAndIncrement(m: Middleware, st: Store, ip: Key, t1: int, t2: int)
    requires ip in st && st[ip].expiry.ExpiresAt?
    requires t1 < st[ip].expiry.at <= t2
    requires 1 <= m.maxVisitCount
    ensures Step(m, ip, st, CheckExists, t1, Up) == Progress(st, Increment)
    ensures var p := Step(m, ip, st, Increment, t2, Up);
            && p.stage == ReadTtl(1)
            && ip in p.store
            && p.store[ip] == Entry(1, Persistent)
            && Step(m, ip, p.store, ReadTtl(1), t2, Up).stage
                 == Finished(Admitted(1, Headers(m.maxVisitCount - 1, 0)))
            && forall t :: Present(p.store, t, ip)
  {
    var p := Step(m, ip, st, Increment, t2, Up);
    assert !Present(st, t2, ip);
    assert p.store[ip] == Entry(1, Persistent);
    var ttl := AppRepository.GetTTL(m.repo, p.store, t2, ip, Up);
    assert ttl.value == -1;
    assert WholeSeconds(-1) == 0;
  }

  /**
    A counter without expiry is never reset: once it has passed the quota,
    every later request from that client, at any instant, is rejected with a
    reset of 0.
   */
  lemma {:induction false} PersistentCounterNeverResets(m: Middleware, st: Store, ip: Key, times: seq<int>)
    requires ip in st && st[ip].expiry.Persistent?
    requires 0 <= m.maxVisitCount <= st[ip].count
    requires st[ip].count + |times| <= Int64Max
    ensures var r := Window.Serve(m, st, ip, times);
            && ip in r.0
            && r.0[ip] == Entry(st[ip].count + |times|, Persistent)
            && forall i :: 0 <= i < |times| ==> r.1[i] == Rejected(st[ip].count + i + 1, Headers(0, 0))
    decreases |times|
  {
    if |times| > 0 {
      var first := SerialRequest(m, st, times[0], ip);
      assert Present(st, times[0], ip);
      assert first.store[ip] == Entry(st[ip].count + 1, Persistent);
      assert first.outcome == Rejected(st[ip].count + 1, Headers(0, 0));
      var later := times[1..];
      PersistentCounterNeverResets(m, first.store, ip, later);
      var rest := Window.Serve(m, first.store, ip, later);
      var r := Window.Serve(m, st, ip, times);
      assert r.1 == [first.outcome] + rest.1;
      forall i | 0 < i < |times|
        ensures r.1[i] == Rejected(st[ip].count + i + 1, Headers(0, 0))
      {
        assert r.1[i] == rest.1[i - 1];
      }
    }
  }
}
