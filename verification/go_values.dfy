/**
  Go value semantics the rate limiter depends on: 64-bit signed integers with
  two's-complement wrap-around, `time.Duration` (an int64 count of
  nanoseconds) and its conversion to whole seconds, and nil-able results.
 */
module GoValues {

  const Int64Min: int := -0x8000_0000_0000_0000
  const Int64Max: int := 0x7FFF_FFFF_FFFF_FFFF
  const TwoTo64: int := 0x1_0000_0000_0000_0000

  /** Go's `int64` (and `int`, which is 64 bits wide on the supported targets). */
  type Int64 = x: int | Int64Min <= x <= Int64Max

  predicate InInt64(x: int) {
    Int64Min <= x <= Int64Max
  }

  /** A value that may be nil: a nil `error`, a nil `*Record`. */
  datatype Option<+T> = None | Some(value: T)

  /** The int64 result of a Go arithmetic operation whose exact value is `x`. */
  function Wrap64(x: int): (r: Int64)
    ensures InInt64(x) ==> r == x
    ensures (x - r) % TwoTo64 == 0
  {
    var q := (x - Int64Min) / TwoTo64;
    assert x - Int64Min == q * TwoTo64 + (x - Int64Min) % TwoTo64;
    (x - Int64Min) % TwoTo64 + Int64Min
  }

  /** The negation of a multiple of 2^64 is one too. */
  lemma NegatedMultiple(a: int)
    requires a % TwoTo64 == 0
    ensures (-a) % TwoTo64 == 0
  {
    var q := a / TwoTo64;
    assert a == q * TwoTo64;
    assert -a == (-q) * TwoTo64;
  }

  /** One second as a `time.Duration`. */
  const NanosPerSecond: int := 1_000_000_000

  /** `time.Duration` counts nanoseconds in an int64. */
  type Duration = Int64

  /** The largest whole number of seconds a `time.Duration` can hold. */
  const MaxDurationSeconds: int := Int64Max / NanosPerSecond

  /** `time.Duration(n) * time.Second`, wrapping like any int64 product. */
  function SecondsToDuration(n: int): (d: Duration)
    ensures -MaxDurationSeconds <= n <= MaxDurationSeconds ==> d == n * NanosPerSecond
    ensures (d - n * NanosPerSecond) % TwoTo64 == 0
  {
    var x := n * NanosPerSecond;
    var d := Wrap64(x);
    NegatedMultiple(x - d);
    d
  }

  /**
    `int(d.Seconds())`: the duration in seconds, truncated toward zero.
    The float64 step in between is taken to be exact.
   */
  function WholeSeconds(d: int): (s: int)
    ensures 0 <= d ==> 0 <= s && s * NanosPerSecond <= d < (s + 1) * NanosPerSecond
    ensures d < 0 ==> s <= 0 && (s - 1) * NanosPerSecond < d <= s * NanosPerSecond
  {
    if d >= 0 then d / NanosPerSecond else -((-d) / NanosPerSecond)
  }

  /** Whole seconds are recovered exactly from the duration they produce. */
  lemma WholeSecondsOfSeconds(n: int)
    requires -MaxDurationSeconds <= n <= MaxDurationSeconds
    ensures WholeSeconds(SecondsToDuration(n)) == n
  {
    var d := SecondsToDuration(n);
    assert d == n * NanosPerSecond;
    var s := WholeSeconds(d);
    if n >= 0 {
      assert s * NanosPerSecond <= n * NanosPerSecond < (s + 1) * NanosPerSecond;
    } else {
      assert (s - 1) * NanosPerSecond < n * NanosPerSecond <= s * NanosPerSecond;
    }
  }

  /** A duration shorter than one second in magnitude truncates to zero seconds. */
  lemma SubSecondIsZero(d: int)
    requires -NanosPerSecond < d < NanosPerSecond
    ensures WholeSeconds(d) == 0
  {
  }
}
