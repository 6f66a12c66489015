/**
 Whole-millisecond conversion of a `std::time::Duration` (the `DurationExt`
 extension trait).

 A `Duration` is a whole number of seconds (a `u64`) plus a sub-second
 nanosecond part kept below one second. Its meaning is the total number of
 nanoseconds, `TotalNanos`; the conversion is specified against that number.
 */
module DurationExt {
  import opened Primitives

  const NANOS_PER_SEC: u64 := 1_000_000_000
  const MILLIS_PER_SEC: u64 := 1_000
  const NANOS_PER_MILLI: u64 := NANOS_PER_SEC / MILLIS_PER_SEC

  /** The sub-second part of a `Duration`, always below one second. */
  type Nanos = n: int | 0 <= n < NANOS_PER_SEC

  datatype Duration = Duration(secs: u64, nanos: Nanos)

  /** The longest `Duration`, in nanoseconds: `u64::MAX` seconds and
      999_999_999 nanoseconds. */
  const MAX_NANOS: int := TWO_64 * NANOS_PER_SEC - 1

  /** The derived constant is one million nanoseconds per millisecond. */
  lemma NanosPerMilli()
    ensures NANOS_PER_MILLI == 1_000_000
    ensures NANOS_PER_MILLI * MILLIS_PER_SEC == NANOS_PER_SEC
  {
  }

  /** The length of a `Duration` in nanoseconds; the seconds and the
      sub-second part are recovered from it, so no two durations share it. */
  function TotalNanos(d: Duration): (n: nat)
    ensures n <= MAX_NANOS
    ensures n / NANOS_PER_SEC == d.secs && n % NANOS_PER_SEC == d.nanos
  {
    DivByQuotient(d.secs * NANOS_PER_SEC + d.nanos, NANOS_PER_SEC, d.secs, d.nanos);
    MulMonotone(NANOS_PER_SEC, d.secs, U64_MAX);
    d.secs * NANOS_PER_SEC + d.nanos
  }

  /** The `Duration` that is `n` nanoseconds long. */
  function FromNanos(n: nat): (d: Duration)
    requires n <= MAX_NANOS
    ensures TotalNanos(d) == n
  {
    Duration(n / NANOS_PER_SEC, n % NANOS_PER_SEC)
  }

  /** A duration rebuilt from its length in nanoseconds is the same
      duration. */
  lemma FromNanosTotalNanos(d: Duration)
    ensures FromNanos(TotalNanos(d)) == d
  {
    var n := TotalNanos(d);
    assert n / NANOS_PER_SEC == d.secs && n % NANOS_PER_SEC == d.nanos;
  }

  /** `Duration::from_secs`. */
  function FromSecs(s: u64): (d: Duration)
    ensures TotalNanos(d) == s * NANOS_PER_SEC
  {
    Duration(s, 0)
  }

  /** `Duration::from_millis`: whole seconds, and the leftover milliseconds
      as nanoseconds. */
  function FromMillis(m: u64): (d: Duration)
    ensures TotalNanos(d) == m * NANOS_PER_MILLI
  {
    var s, ms := m / MILLIS_PER_SEC, m % MILLIS_PER_SEC;
    assert m == s * MILLIS_PER_SEC + ms;
    Duration(s, ms * NANOS_PER_MILLI)
  }

  /** The number of whole milliseconds contained in `n` nanoseconds,
      counted one millisecond at a time. */
  ghost function WholeMillis(n: nat): nat
  {
    if n < NANOS_PER_MILLI then 0 else 1 + WholeMillis(n - NANOS_PER_MILLI)
  }

  /** Counting whole milliseconds is dividing by 10^6 and rounding down. */
  lemma {:induction false} WholeMillisIsQuotient(n: nat)
    ensures WholeMillis(n) == n / NANOS_PER_MILLI
  {
    if n >= NANOS_PER_MILLI {
      var m := n - NANOS_PER_MILLI;
      WholeMillisIsQuotient(m);
      var q, rem := m / NANOS_PER_MILLI, m % NANOS_PER_MILLI;
      assert n == (q + 1) * NANOS_PER_MILLI + rem;
      DivByQuotient(n, NANOS_PER_MILLI, q + 1, rem);
    } else {
      DivByQuotient(n, NANOS_PER_MILLI, 0, n);
    }
  }

  /** Counting milliseconds in whole seconds plus a sub-second part is the
      same as counting them in the total: the seconds contribute exactly
      1000 each, and only the sub-second part is truncated. */
  lemma MillisOfNanos(s: nat, n: nat)
    ensures (s * NANOS_PER_SEC + n) / NANOS_PER_MILLI
         == s * MILLIS_PER_SEC + n / NANOS_PER_MILLI
  {
    var q, rem := n / NANOS_PER_MILLI, n % NANOS_PER_MILLI;
    assert n == q * NANOS_PER_MILLI + rem;
    assert s * NANOS_PER_SEC == s * MILLIS_PER_SEC * NANOS_PER_MILLI;
    DivByQuotient(s * NANOS_PER_SEC + n, NANOS_PER_MILLI, s * MILLIS_PER_SEC + q, rem);
  }

  /** `DurationExt::as_millis`: `secs * 1000`, then plus the whole
      milliseconds of the sub-second part, each step a checked `u64`
      operation. The result is the total length in milliseconds, rounded
      down, and it is absent exactly when that count exceeds `u64::MAX`. */
  function AsMillis(d: Duration): (r: Option<u64>)
    ensures r.Some? <==> TotalNanos(d) / NANOS_PER_MILLI <= U64_MAX
    ensures r.Some? ==> r.value == TotalNanos(d) / NANOS_PER_MILLI
  {
    MillisOfNanos(d.secs, d.nanos);
    match CheckedMul(d.secs, MILLIS_PER_SEC)
    case None => None
    case Some(m) => CheckedAdd(m, d.nanos / NANOS_PER_MILLI)
  }

  /** `as_millis` counts the whole milliseconds contained in the duration,
      and has a result exactly when that count fits in a `u64`. */
  lemma AsMillisCountsWholeMillis(d: Duration)
    ensures AsMillis(d).Some? <==> WholeMillis(TotalNanos(d)) <= U64_MAX
    ensures AsMillis(d).Some? ==> AsMillis(d).value == WholeMillis(TotalNanos(d))
  {
    WholeMillisIsQuotient(TotalNanos(d));
  }

  /** When the whole seconds alone exceed `u64::MAX` milliseconds, the
      first checked multiply fails and there is no result. */
  lemma AsMillisSecondsOverflow(d: Duration)
    requires d.secs * MILLIS_PER_SEC > U64_MAX
    ensures AsMillis(d) == None
  {
    MillisOfNanos(d.secs, d.nanos);
  }

  /** When the seconds fit but adding the sub-second milliseconds carries
      past `u64::MAX`, there is no result either. */
  lemma AsMillisAddOverflow(d: Duration)
    requires d.secs * MILLIS_PER_SEC <= U64_MAX
    requires d.secs * MILLIS_PER_SEC + d.nanos / NANOS_PER_MILLI > U64_MAX
    ensures AsMillis(d) == None
  {
    MillisOfNanos(d.secs, d.nanos);
  }

  /** The second overflow case is reachable: the largest whole second
      count whose milliseconds fit, with 616 ms on top. */
  lemma AsMillisAddOverflowReachable()
    ensures 18_446_744_073_709_551 * MILLIS_PER_SEC <= U64_MAX
    ensures AsMillis(Duration(18_446_744_073_709_551, 616_000_000)) == None
  {
    AsMillisAddOverflow(Duration(18_446_744_073_709_551, 616_000_000));
  }

  /** The conversion truncates: the duration of the returned number of
      milliseconds is at most `d`, and `d` is less than one millisecond
      longer. */
  lemma AsMillisTruncates(d: Duration)
    requires AsMillis(d).Some?
    ensures TotalNanos(FromMillis(AsMillis(d).value)) <= TotalNanos(d)
    ensures TotalNanos(d) < TotalNanos(FromMillis(AsMillis(d).value)) + NANOS_PER_MILLI
  {
    var n := TotalNanos(d);
    var m := AsMillis(d).value;
    assert n == m * NANOS_PER_MILLI + n % NANOS_PER_MILLI;
  }

  /** A duration built from a millisecond count converts back to exactly
      that count. */
  lemma AsMillisFromMillis(m: u64)
    ensures AsMillis(FromMillis(m)) == Some(m)
  {
    DivByQuotient(m * NANOS_PER_MILLI, NANOS_PER_MILLI, m, 0);
  }

  /** The two conversions exercised by the crate's own unit test. */
  lemma AsMillisExamples()
    ensures AsMillis(Duration(1, 100_000_999)) == Some(1100)
    ensures AsMillis(FromSecs(0x1000_0000_0000_0000)) == None
  {
    DivByQuotient(1_100_000_999, NANOS_PER_MILLI, 1100, 999);
    AsMillisSecondsOverflow(FromSecs(0x1000_0000_0000_0000));
  }
}
