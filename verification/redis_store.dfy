/**
  The counter store: a Redis keyspace reduced to what the rate limiter
  uses. Each key holds an integer visit count and an optional expiry instant
  on a logical clock counted in whole seconds; a key whose expiry instant has
  been reached counts as absent. Each command is one round trip whose fate on
  the network is a parameter (`Link`): delivered, refused before reaching the
  server, or executed by the server with the reply lost.
 */
module Redis {
  import opened GoValues

  type Key = string

  /** No TTL (a key created by plain SET or by INCR), or the instant the key expires. */
  datatype Expiry = Persistent | ExpiresAt(at: int)

  /** A stored value: Redis keeps the count as a decimal string that fits in an int64. */
  datatype Entry = Entry(count: Int64, expiry: Expiry)

  type Store = map<Key, Entry>

  /** The errors a command can report. */
  datatype Error =
    | ConnectionError    // the round trip failed
    | InvalidExpireTime  // SET with a non-positive EX argument
    | IncrOverflow       // INCR past the int64 range

  datatype Result<+T> = Ok(value: T) | Err(error: Error)

  /** What happened to one round trip. */
  datatype Link = Up | Refused | ReplyLost

  /** The store after a command and the reply the client received. */
  datatype Reply<+T> = Reply(store: Store, result: Result<T>)

  predicate Alive(e: Entry, now: int) {
    match e.expiry
    case Persistent => true
    case ExpiresAt(at) => now < at
  }

  /** `k` exists at instant `now`: it is stored and has not expired. */
  predicate Present(st: Store, now: int, k: Key) {
    k in st && Alive(st[k], now)
  }

  /** What the store holds for `k`, expired or not. */
  function At(st: Store, k: Key): Option<Entry> {
    if k in st then Some(st[k]) else None
  }

  /** `st'` differs from `st` at most at key `k`. */
  predicate SameElsewhere(st: Store, st': Store, k: Key) {
    st - {k} == st' - {k}
  }

  /** The expiry a write with the given EX argument (in seconds) installs at `now`. */
  function Deadline(now: int, ex: Option<int>): Expiry {
    match ex
    case None => Persistent
    case Some(s) => ExpiresAt(now + s)
  }

  /** An EX argument the server accepts: absent, or a positive number of seconds. */
  predicate ValidEx(ex: Option<int>) {
    ex.None? || ex.value > 0
  }

  /** The client's view of a command: `applied` is the store the server produced. */
  function Deliver<T>(link: Link, st: Store, applied: Store, result: Result<T>): Reply<T> {
    match link
    case Up => Reply(applied, result)
    case Refused => Reply(st, Err(ConnectionError))
    case ReplyLost => Reply(applied, Err(ConnectionError))
  }

  /** EXISTS key: the number of the given keys that exist. */
  function Exists(st: Store, now: int, k: Key, link: Link): (r: Reply<int>)
    ensures r.store == st
    ensures r.result.Err? <==> !link.Up?
    ensures r.result.Ok? ==> (r.result.value != 0 <==> Present(st, now, k))
    ensures r.result.Ok? ==> 0 <= r.result.value <= 1
  {
    Deliver(link, st, st, Ok(if Present(st, now, k) then 1 else 0))
  }

  /** GET key: the stored value, or nil for a missing key. */
  function Get(st: Store, now: int, k: Key, link: Link): (r: Reply<Option<Int64>>)
    ensures r.store == st
    ensures r.result.Err? <==> !link.Up?
    ensures r.result.Ok? ==> (r.result.value.Some? <==> Present(st, now, k))
    ensures r.result.Ok? && r.result.value.Some? ==> r.result.value.value == st[k].count
  {
    Deliver(link, st, st, Ok(if Present(st, now, k) then Some(st[k].count) else None))
  }

  /** TTL key: -2 for a missing key, -1 for a key without expiry, else the seconds left. */
  function Ttl(st: Store, now: int, k: Key, link: Link): (r: Reply<int>)
    ensures r.store == st
    ensures r.result.Err? <==> !link.Up?
    ensures r.result.Ok? ==> (r.result.value == -2 <==> !Present(st, now, k))
    ensures r.result.Ok? ==> (r.result.value == -1 <==> Present(st, now, k) && st[k].expiry.Persistent?)
    ensures r.result.Ok? && Present(st, now, k) && st[k].expiry.ExpiresAt? ==>
              r.result.value > 0 && now + r.result.value == st[k].expiry.at
  {
    var n :=
      if !Present(st, now, k) then -2
      else match st[k].expiry
        case Persistent => -1
        case ExpiresAt(at) => at - now;
    Deliver(link, st, st, Ok(n))
  }

  /** SET key value [EX seconds]: overwrite the value and replace any expiry. */
  function Set(st: Store, now: int, k: Key, v: Int64, ex: Option<int>, link: Link): (r: Reply<()>)
    ensures SameElsewhere(st, r.store, k)
    ensures r.result.Ok? <==> link.Up? && ValidEx(ex)
    ensures ValidEx(ex) && !link.Refused? ==>
              k in r.store && r.store[k] == Entry(v, Deadline(now, ex))
    ensures !ValidEx(ex) || link.Refused? ==> r.store == st
  {
    if !ValidEx(ex) then Deliver(link, st, st, Err(InvalidExpireTime))
    else Deliver(link, st, st[k := Entry(v, Deadline(now, ex))], Ok(()))
  }

  /**
    SET key value NX [EX seconds], or SETNX key value: write only when the key
    is absent; the reply says whether it was written.
   */
  function SetNX(st: Store, now: int, k: Key, v: Int64, ex: Option<int>, link: Link): (r: Reply<bool>)
    ensures SameElsewhere(st, r.store, k)
    ensures r.result.Ok? <==> link.Up? && ValidEx(ex)
    ensures r.result.Ok? ==> (r.result.value <==> !Present(st, now, k))
    ensures Present(st, now, k) || !ValidEx(ex) || link.Refused? ==> r.store == st
    ensures !Present(st, now, k) && ValidEx(ex) && !link.Refused? ==>
              k in r.store && r.store[k] == Entry(v, Deadline(now, ex))
  {
    if !ValidEx(ex) then Deliver(link, st, st, Err(InvalidExpireTime))
    else if Present(st, now, k) then Deliver(link, st, st, Ok(false))
    else Deliver(link, st, st[k := Entry(v, Deadline(now, ex))], Ok(true))
  }

  /** The value INCR starts from: the stored count, or 0 for a missing key. */
  function CountOrZero(st: Store, now: int, k: Key): Int64 {
    if Present(st, now, k) then st[k].count else 0
  }

  /**
    INCR key: add one and reply with the new value. A missing key counts as 0
    and is created without expiry; an existing key keeps its expiry.
   */
  function Incr(st: Store, now: int, k: Key, link: Link): (r: Reply<Int64>)
    ensures SameElsewhere(st, r.store, k)
    ensures r.result.Ok? <==> link.Up? && CountOrZero(st, now, k) < Int64Max
    ensures r.result.Ok? ==> r.result.value == CountOrZero(st, now, k) + 1
    ensures CountOrZero(st, now, k) == Int64Max || link.Refused? ==> r.store == st
    ensures CountOrZero(st, now, k) < Int64Max && !link.Refused? ==>
              && k in r.store
              && r.store[k].count == CountOrZero(st, now, k) + 1
              && r.store[k].expiry == (if Present(st, now, k) then st[k].expiry else Persistent)
              && Present(r.store, now, k)
  {
    var before := CountOrZero(st, now, k);
    if before == Int64Max then Deliver(link, st, st, Err(IncrOverflow))
    else
      var expiry := if Present(st, now, k) then st[k].expiry else Persistent;
      Deliver(link, st, st[k := Entry(before + 1, expiry)], Ok(before + 1))
  }

  /**
    go-redis's decoding of a TTL reply into a `time.Duration`: the sentinels
    -2 and -1 become that many nanoseconds, any other reply that many seconds.
   */
  function TtlDuration(n: int): (d: Duration)
    ensures n == -2 || n == -1 ==> d == n
    ensures n != -2 && n != -1 && -MaxDurationSeconds <= n <= MaxDurationSeconds ==> d == n * NanosPerSecond
    ensures n != -2 && n != -1 ==> (d - n * NanosPerSecond) % TwoTo64 == 0
  {
    if n == -2 || n == -1 then n else SecondsToDuration(n)
  }
}
