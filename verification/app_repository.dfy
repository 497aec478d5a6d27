/**
  The current store adapter (`RedisLimiterRepository` in app/redis.go): the
  four operations the middleware calls, each one Redis command on the key
  `ipaddr`, returning Go's (value, error) pair.
 */
module AppRepository {
  import opened GoValues
  import opened Redis

  /** The adapter's configuration: the window length in whole seconds. */
  datatype Repository = Repository(expiration: int)

  /** A Go call: the value and the error it returned, and the store afterwards. */
  datatype Call<+T> = Call(store: Store, value: T, err: Option<Error>)

  /**
    How go-redis encodes `SetNX(key, value, expiration)`: plain SETNX when the
    expiration is zero, otherwise SET ... NX with the expiration as EX.
   */
  function SetNXExpiry(expiration: int): (ex: Option<int>)
    ensures ex.None? <==> expiration == 0
    ensures ex.Some? ==> ex.value == expiration
    ensures ValidEx(ex) <==> expiration >= 0
  {
    if expiration == 0 then None else Some(expiration)
  }

  /**
    GetTTL: the remaining time the store reports, passed through unchecked
    (the "missing" and "no expiry" sentinels included); 0 on error.
   */
  function GetTTL(repo: Repository, st: Store, now: int, ipaddr: Key, link: Link): (r: Call<Duration>)
    ensures r.store == st
    ensures r.err.Some? <==> !link.Up?
    ensures r.err.Some? ==> r.value == 0
    ensures r.err.None? && !Present(st, now, ipaddr) ==> r.value == -2
    ensures r.err.None? && Present(st, now, ipaddr) && st[ipaddr].expiry.Persistent? ==> r.value == -1
    ensures r.err.None? && Present(st, now, ipaddr) && st[ipaddr].expiry.ExpiresAt?
              && st[ipaddr].expiry.at - now <= MaxDurationSeconds ==>
              r.value == (st[ipaddr].expiry.at - now) * NanosPerSecond && r.value > 0
    ensures r.err.None? && Present(st, now, ipaddr) && st[ipaddr].expiry.ExpiresAt? ==>
              (r.value - (st[ipaddr].expiry.at - now) * NanosPerSecond) % TwoTo64 == 0
  {
    var reply := Ttl(st, now, ipaddr, link);
    match reply.result
    case Err(e) => Call(reply.store, 0, Some(e))
    case Ok(n) => Call(reply.store, TtlDuration(n), None)
  }

  /**
    IncrVisitCountByIP: the post-increment count; -1 on error. The key's
    expiry is left alone, and a missing key starts again from 0 without expiry.
   */
  function IncrVisitCountByIP(repo: Repository, st: Store, now: int, ipaddr: Key, link: Link): (r: Call<Int64>)
    ensures SameElsewhere(st, r.store, ipaddr)
    ensures r.err.None? <==> link.Up? && CountOrZero(st, now, ipaddr) < Int64Max
    ensures r.err.Some? ==> r.value == -1
    ensures r.err.None? ==>
              && r.value == CountOrZero(st, now, ipaddr) + 1
              && ipaddr in r.store && r.store[ipaddr].count == r.value
    ensures Present(st, now, ipaddr) ==> ipaddr in r.store && r.store[ipaddr].expiry == st[ipaddr].expiry
    ensures !Present(st, now, ipaddr) && r.err.None? ==> r.store[ipaddr].expiry.Persistent?
  {
    var reply := Incr(st, now, ipaddr, link);
    match reply.result
    case Err(e) => Call(reply.store, -1, Some(e))
    case Ok(n) => Call(reply.store, n, None)
  }

  /**
    SetVisitCount: store `count` with the configured expiration, but only if
    the key is absent; a present key keeps its count and its expiry.
   */
  function SetVisitCount(repo: Repository, st: Store, now: int, ipaddr: Key, count: Int64, link: Link): (r: Call<()>)
    ensures SameElsewhere(st, r.store, ipaddr)
    ensures r.err.None? <==> link.Up? && repo.expiration >= 0
    ensures Present(st, now, ipaddr) || repo.expiration < 0 || link.Refused? ==> r.store == st
    ensures !Present(st, now, ipaddr) && repo.expiration > 0 && !link.Refused? ==>
              ipaddr in r.store && r.store[ipaddr] == Entry(count, ExpiresAt(now + repo.expiration))
    ensures !Present(st, now, ipaddr) && repo.expiration == 0 && !link.Refused? ==>
              ipaddr in r.store && r.store[ipaddr] == Entry(count, Persistent)
  {
    var reply := SetNX(st, now, ipaddr, count, SetNXExpiry(repo.expiration), link);
    match reply.result
    case Err(e) => Call(reply.store, (), Some(e))
    case Ok(_) => Call(reply.store, (), None)
  }

  /** Exists: whether the key exists; false together with the error on failure. */
  function Exists(repo: Repository, st: Store, now: int, ipaddr: Key, link: Link): (r: Call<bool>)
    ensures r.store == st
    ensures r.err.Some? <==> !link.Up?
    ensures r.value <==> r.err.None? && Present(st, now, ipaddr)
  {
    var reply := Redis.Exists(st, now, ipaddr, link);
    match reply.result
    case Err(e) => Call(reply.store, false, Some(e))
    case Ok(n) => Call(reply.store, n != 0, None)
  }

  /** A run of IncrVisitCountByIP calls at the given instants, every round trip delivered. */
  function IncrMany(repo: Repository, st: Store, ipaddr: Key, times: seq<int>): (st': Store)
    ensures SameElsewhere(st, st', ipaddr)
    decreases |times|
  {
    if |times| == 0 then st
    else IncrMany(repo, IncrVisitCountByIP(repo, st, times[0], ipaddr, Up).store, ipaddr, times[1..])
  }

  /** Increments inside a live window add up and never move the window's end. */
  lemma {:induction false} IncrManyInWindow(repo: Repository, st: Store, ipaddr: Key, times: seq<int>)
    requires ipaddr in st && st[ipaddr].expiry.ExpiresAt?
    requires forall i :: 0 <= i < |times| ==> times[i] < st[ipaddr].expiry.at
    requires st[ipaddr].count + |times| <= Int64Max
    ensures var st' := IncrMany(repo, st, ipaddr, times);
            ipaddr in st' && st'[ipaddr] == Entry(st[ipaddr].count + |times|, st[ipaddr].expiry)
    decreases |times|
  {
    if |times| > 0 {
      var next := IncrVisitCountByIP(repo, st, times[0], ipaddr, Up).store;
      assert Present(st, times[0], ipaddr);
      assert next[ipaddr] == Entry(st[ipaddr].count + 1, st[ipaddr].expiry);
      assert forall i :: 0 <= i < |times[1..]| ==> times[1..][i] == times[i + 1];
      IncrManyInWindow(repo, next, ipaddr, times[1..]);
    }
  }

  /**
    SetVisitCount on an absent key followed by any number of increments before
    the window ends leaves `count + k` with the expiry fixed at the set time.
   */
  lemma SetThenIncrements(repo: Repository, st: Store, ipaddr: Key, t0: int, count: Int64, times: seq<int>)
    requires !Present(st, t0, ipaddr) && repo.expiration > 0
    requires forall i :: 0 <= i < |times| ==> times[i] < t0 + repo.expiration
    requires count + |times| <= Int64Max
    ensures var st' := IncrMany(repo, SetVisitCount(repo, st, t0, ipaddr, count, Up).store, ipaddr, times);
            ipaddr in st' && st'[ipaddr] == Entry(count + |times|, ExpiresAt(t0 + repo.expiration))
  {
    IncrManyInWindow(repo, SetVisitCount(repo, st, t0, ipaddr, count, Up).store, ipaddr, times);
  }
}
