/**
 Signed milliseconds since the Unix epoch for a `std::time::SystemTime`
 (the `SystemTimeExt` extension trait).

 A `SystemTime` is represented by its signed distance from the Unix epoch
 in nanoseconds, no further from it in either direction than the longest
 `Duration`. `DurationSinceEpoch` stands for
 `SystemTime::duration_since(UNIX_EPOCH)`.
 */
module SystemTimeExt {
  import opened Primitives
  import opened DurationExt

  /** A signed nanosecond distance whose magnitude a `Duration` can hold. */
  type EpochOffset = n: int | -MAX_NANOS <= n <= MAX_NANOS

  datatype SystemTime = SystemTime(sinceEpoch: EpochOffset)

  const UNIX_EPOCH: SystemTime := SystemTime(0)

  function Abs(x: int): nat
  {
    if x < 0 then -x else x
  }

  /** `UNIX_EPOCH + d`: measuring it back from the epoch gives `Ok(d)`. */
  function EpochPlus(d: Duration): (t: SystemTime)
    ensures t.sinceEpoch == TotalNanos(d)
    ensures DurationSinceEpoch(t) == Ok(d)
  {
    FromNanosTotalNanos(d);
    SystemTime(TotalNanos(d))
  }

  /** `UNIX_EPOCH - d`: measuring it back from the epoch gives `Err(d)`,
      except that subtracting a zero duration leaves the epoch itself. */
  function EpochMinus(d: Duration): (t: SystemTime)
    ensures t.sinceEpoch == -(TotalNanos(d) as int)
    ensures TotalNanos(d) > 0 ==> DurationSinceEpoch(t) == Err(d)
    ensures TotalNanos(d) == 0 ==> t == UNIX_EPOCH && DurationSinceEpoch(t) == Ok(d)
  {
    FromNanosTotalNanos(d);
    SystemTime(-(TotalNanos(d) as int))
  }

  /** `t.duration_since(UNIX_EPOCH)`: the forward distance when `t` is not
      before the epoch, otherwise (as the error's `duration()`) the backward
      one. */
  function DurationSinceEpoch(t: SystemTime): (r: Result<Duration, Duration>)
    ensures r.Ok? <==> t.sinceEpoch >= 0
    ensures r.Ok? ==> TotalNanos(r.value) == t.sinceEpoch
    ensures r.Err? ==> TotalNanos(r.error) == -t.sinceEpoch
  {
    if t.sinceEpoch >= 0 then Ok(FromNanos(t.sinceEpoch))
    else Err(FromNanos(-t.sinceEpoch))
  }

  /** `to_i64`: narrows a `u64` to `i64` only when the value survives the
      cast unchanged. */
  function ToI64(n: u64): (r: Option<i64>)
    ensures r.Some? <==> n <= I64_MAX
    ensures r.Some? ==> r.value == n
  {
    if n <= I64_MAX then Some(CastU64ToI64(n)) else None
  }

  /** Without the guard in `ToI64`, every value above `i64::MAX` would be
      cast to a negative number. */
  lemma UncheckedCastIsNegative(n: u64)
    requires n > I64_MAX
    ensures CastU64ToI64(n) < 0
    ensures ToI64(n) == None
  {
  }

  /** `SystemTimeExt::as_unix_millis`: the whole milliseconds between `t`
      and the epoch, negative before the epoch. The count is rounded toward
      zero, is absent exactly when its magnitude exceeds `i64::MAX`, and is
      never `i64::MIN`. */
  function AsUnixMillis(t: SystemTime): (r: Option<i64>)
    ensures r.Some? <==> Abs(t.sinceEpoch) / NANOS_PER_MILLI <= I64_MAX
    ensures r.Some? ==> Abs(r.value) == Abs(t.sinceEpoch) / NANOS_PER_MILLI
    ensures r.Some? && t.sinceEpoch >= 0 ==> r.value >= 0
    ensures r.Some? && t.sinceEpoch < 0 ==> r.value <= 0
    ensures r.Some? ==> r.value > I64_MIN
  {
    match DurationSinceEpoch(t)
    case Ok(d) =>
      (match AsMillis(d)
       case None => None
       case Some(m) => ToI64(m))
    case Err(d) =>
      (match AsMillis(d)
       case None => None
       case Some(m) =>
         match ToI64(m)
         case None => None
         case Some(n) => Some(NegI64(n)))
  }

  /** `as_unix_millis` counts the whole milliseconds between the time and
      the epoch, and has a result exactly when that count fits in an `i64`. */
  lemma AsUnixMillisCountsWholeMillis(t: SystemTime)
    ensures AsUnixMillis(t).Some? <==> WholeMillis(Abs(t.sinceEpoch)) <= I64_MAX
    ensures AsUnixMillis(t).Some?
        ==> Abs(AsUnixMillis(t).value) == WholeMillis(Abs(t.sinceEpoch))
  {
    WholeMillisIsQuotient(Abs(t.sinceEpoch));
  }

  /** At or after the epoch the result is `as_millis` of the forward
      duration, present exactly when that fits in an `i64`. */
  lemma AsUnixMillisAfterEpoch(d: Duration)
    ensures AsUnixMillis(EpochPlus(d)).Some?
        <==> AsMillis(d).Some? && AsMillis(d).value <= I64_MAX
    ensures AsUnixMillis(EpochPlus(d)).Some?
        ==> AsUnixMillis(EpochPlus(d)).value == AsMillis(d).value
  {
    assert Abs(EpochPlus(d).sinceEpoch) == TotalNanos(d);
  }

  /** At or before the epoch the result is the negated `as_millis` of the
      backward duration, present exactly when that fits in an `i64` (at the
      epoch itself both sides are zero). */
  lemma AsUnixMillisBeforeEpoch(d: Duration)
    ensures AsUnixMillis(EpochMinus(d)).Some?
        <==> AsMillis(d).Some? && AsMillis(d).value <= I64_MAX
    ensures AsUnixMillis(EpochMinus(d)).Some?
        ==> AsUnixMillis(EpochMinus(d)).value == -(AsMillis(d).value as int)
  {
    assert Abs(EpochMinus(d).sinceEpoch) == TotalNanos(d);
  }

  /** Mirroring a time through the epoch negates its millisecond count. */
  lemma AsUnixMillisMirror(d: Duration)
    ensures AsUnixMillis(EpochMinus(d)).Some? <==> AsUnixMillis(EpochPlus(d)).Some?
    ensures AsUnixMillis(EpochMinus(d)).Some?
        ==> AsUnixMillis(EpochMinus(d)).value == -(AsUnixMillis(EpochPlus(d)).value as int)
  {
    AsUnixMillisAfterEpoch(d);
    AsUnixMillisBeforeEpoch(d);
  }

  /** The negation cannot overflow: `i64::MAX` milliseconds before the epoch
      is the earliest representable count, and one millisecond earlier
      (a backward count of exactly 2^63) gives no result rather than
      `i64::MIN`. */
  lemma AsUnixMillisNegationBoundary()
    ensures AsUnixMillis(EpochMinus(FromMillis(I64_MAX))) == Some(-I64_MAX)
    ensures AsUnixMillis(EpochMinus(FromMillis(I64_MAX + 1))) == None
  {
    AsMillisFromMillis(I64_MAX);
    AsMillisFromMillis(I64_MAX + 1);
    AsUnixMillisBeforeEpoch(FromMillis(I64_MAX));
    AsUnixMillisBeforeEpoch(FromMillis(I64_MAX + 1));
  }

  /** The three times exercised by the crate's own unit test. */
  lemma AsUnixMillisExamples()
    ensures AsUnixMillis(EpochPlus(FromMillis(100))) == Some(100)
    ensures AsUnixMillis(EpochMinus(FromMillis(100))) == Some(-100)
    ensures AsUnixMillis(EpochMinus(FromSecs(0x1000_0000_0000_0000))) == None
  {
    AsMillisFromMillis(100);
    AsUnixMillisAfterEpoch(FromMillis(100));
    AsUnixMillisBeforeEpoch(FromMillis(100));
    AsMillisExamples();
    AsUnixMillisBeforeEpoch(FromSecs(0x1000_0000_0000_0000));
  }
}
