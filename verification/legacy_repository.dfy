/**
  The earlier store adapter (`RedisLimiterRepository` in redis.go): a read of
  count and TTL together, an unconditional write, and an increment that
  reports only its error.
 */
module LegacyRepository {
  import opened GoValues
  import opened Redis

  /** The adapter's configuration: the window length in whole seconds. */
  datatype Repository = Repository(expiration: int)

  /** A Go call: the value and the error it returned, and the store afterwards. */
  datatype Call<+T> = Call(store: Store, value: T, err: Option<Error>)

  /** `Record`: a client's visit count and the time left in its window. */
  datatype Record = Record(count: Int64, ttl: Duration)

  /** GetVisitCount's first two results: the record (nil or not) and whether the key exists. */
  datatype Lookup = Lookup(record: Option<Record>, present: bool)

  /**
    How go-redis encodes `Set(key, value, expiration)`: EX for a positive
    expiration, otherwise a plain SET that leaves the key without expiry.
   */
  function SetExpiry(expiration: int): (ex: Option<int>)
    ensures ValidEx(ex)
    ensures ex.Some? <==> expiration > 0
    ensures ex.Some? ==> ex.value == expiration
  {
    if expiration > 0 then Some(expiration) else None
  }

  /**
    GetVisitCount: GET then TTL, two round trips at the instants `getNow` and
    `ttlNow`. A missing key is not an error; a failed TTL read still reports
    that the key exists; a key that expires between the two reads is reported
    with the count GET saw and the "missing" TTL sentinel, -2 ns.
   */
  function GetVisitCount(repo: Repository, st: Store, getNow: int, ttlNow: int, ipaddr: Key, getLink: Link, ttlLink: Link)
    : (r: Call<Lookup>)
    ensures r.store == st
    ensures r.err.None? <==> getLink.Up? && (!Present(st, getNow, ipaddr) || ttlLink.Up?)
    ensures !getLink.Up? ==> r.value == Lookup(None, false)
    ensures getLink.Up? && !Present(st, getNow, ipaddr) ==> r.value == Lookup(None, false)
    ensures getLink.Up? && Present(st, getNow, ipaddr) && !ttlLink.Up? ==> r.value == Lookup(None, true)
    ensures r.value.record.Some? <==> r.err.None? && Present(st, getNow, ipaddr)
    ensures r.value.record.Some? ==>
              && r.value.present
              && r.value.record.value.count == st[ipaddr].count
              && (!Present(st, ttlNow, ipaddr) ==> r.value.record.value.ttl == -2)
              && (Present(st, ttlNow, ipaddr) && st[ipaddr].expiry.Persistent? ==> r.value.record.value.ttl == -1)
              && (Present(st, ttlNow, ipaddr) && st[ipaddr].expiry.ExpiresAt? ==>
                    (r.value.record.value.ttl - (st[ipaddr].expiry.at - ttlNow) * NanosPerSecond) % TwoTo64 == 0)
              && (Present(st, ttlNow, ipaddr) && st[ipaddr].expiry.ExpiresAt?
                    && st[ipaddr].expiry.at - ttlNow <= MaxDurationSeconds ==>
                    r.value.record.value.ttl == (st[ipaddr].expiry.at - ttlNow) * NanosPerSecond)
  {
    var got := Get(st, getNow, ipaddr, getLink);
    match got.result
    case Err(e) => Call(got.store, Lookup(None, false), Some(e))
    case Ok(None) => Call(got.store, Lookup(None, false), None)
    case Ok(Some(count)) =>
      var ttl := Ttl(got.store, ttlNow, ipaddr, ttlLink);
      match ttl.result
      case Err(e) => Call(ttl.store, Lookup(None, true), Some(e))
      case Ok(n) => Call(ttl.store, Lookup(Some(Record(count, TtlDuration(n))), true), None)
  }

  /**
    SetVisitCount: overwrite the count whether or not the key exists, and
    restart its expiry at the configured expiration.
   */
  function SetVisitCount(repo: Repository, st: Store, now: int, ipaddr: Key, count: Int64, link: Link): (r: Call<()>)
    ensures SameElsewhere(st, r.store, ipaddr)
    ensures r.err.None? <==> link.Up?
    ensures link.Refused? ==> r.store == st
    ensures !link.Refused? ==>
              && ipaddr in r.store
              && r.store[ipaddr].count == count
              && (repo.expiration > 0 ==> r.store[ipaddr].expiry == ExpiresAt(now + repo.expiration))
              && (repo.expiration <= 0 ==> r.store[ipaddr].expiry.Persistent?)
  {
    var reply := Set(st, now, ipaddr, count, SetExpiry(repo.expiration), link);
    match reply.result
    case Err(e) => Call(reply.store, (), Some(e))
    case Ok(_) => Call(reply.store, (), None)
  }

  /** IncrVisitCountByIP: add one to the count; the new value is discarded. */
  function IncrVisitCountByIP(repo: Repository, st: Store, now: int, ipaddr: Key, link: Link): (r: Call<()>)
    ensures SameElsewhere(st, r.store, ipaddr)
    ensures r.err.None? <==> link.Up? && CountOrZero(st, now, ipaddr) < Int64Max
    ensures CountOrZero(st, now, ipaddr) < Int64Max && !link.Refused? ==>
              ipaddr in r.store && r.store[ipaddr].count == CountOrZero(st, now, ipaddr) + 1
    ensures CountOrZero(st, now, ipaddr) == Int64Max || link.Refused? ==> r.store == st
  {
    var reply := Incr(st, now, ipaddr, link);
    match reply.result
    case Err(e) => Call(reply.store, (), Some(e))
    case Ok(_) => Call(reply.store, (), None)
  }

  /**
    A count written by SetVisitCount reads back unchanged, with at most the
    configured expiration left, until the window ends.
   */
  lemma SetThenGet(repo: Repository, st: Store, ipaddr: Key, t0: int, t: int, count: Int64)
    requires 0 < repo.expiration <= MaxDurationSeconds
    requires t0 <= t < t0 + repo.expiration
    ensures var written := SetVisitCount(repo, st, t0, ipaddr, count, Up).store;
            var read := GetVisitCount(repo, written, t, t, ipaddr, Up, Up);
            && read.err.None?
            && read.value == Lookup(Some(Record(count, (t0 + repo.expiration - t) * NanosPerSecond)), true)
            && 0 < read.value.record.value.ttl <= repo.expiration * NanosPerSecond
  {
    var written := SetVisitCount(repo, st, t0, ipaddr, count, Up).store;
    assert written[ipaddr] == Entry(count, ExpiresAt(t0 + repo.expiration));
    assert Present(written, t, ipaddr);
  }

  /** Once the window has ended, the written count is gone and reads as absent. */
  lemma SetThenGetAfterExpiry(repo: Repository, st: Store, ipaddr: Key, t0: int, t: int, count: Int64)
    requires 0 < repo.expiration
    requires t0 + repo.expiration <= t
    ensures var written := SetVisitCount(repo, st, t0, ipaddr, count, Up).store;
            GetVisitCount(repo, written, t, t, ipaddr, Up, Up) == Call(written, Lookup(None, false), None)
  {
    var written := SetVisitCount(repo, st, t0, ipaddr, count, Up).store;
    assert !Present(written, t, ipaddr);
  }

  /**
    A key that expires between the GET and the TTL read is reported as
    existing, with the count GET saw and a TTL of -2 ns, and no error.
   */
  lemma KeyExpiresBetweenGetAndTtl(repo: Repository, st: Store, ipaddr: Key, getNow: int, ttlNow: int)
    requires ipaddr in st && st[ipaddr].expiry.ExpiresAt?
    requires getNow < st[ipaddr].expiry.at <= ttlNow
    ensures GetVisitCount(repo, st, getNow, ttlNow, ipaddr, Up, Up)
              == Call(st, Lookup(Some(Record(st[ipaddr].count, -2)), true), None)
  {
    assert Present(st, getNow, ipaddr) && !Present(st, ttlNow, ipaddr);
  }
}
