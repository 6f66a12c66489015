# rust-time2: checked millisecond conversions, modelled in Dafny

The crate extends `std::time` with two conversions:

- `DurationExt::as_millis` turns a `Duration` (whole `u64` seconds and a
  sub-second nanosecond part below 10^9) into a whole number of milliseconds
  as a `u64`. It computes `secs * 1000 + nanos / 1_000_000` with a checked
  multiply and a checked add, and gives `None` when either step overflows.
- `SystemTimeExt::as_unix_millis` turns a `SystemTime` into signed
  milliseconds since the Unix epoch as an `i64`. It takes the distance from
  the epoch, forward or backward, converts it with `as_millis`, narrows the
  result to `i64` with `to_i64`, and negates it for times before the epoch.

The model is three modules:

- `Primitives` (`primitives.dfy`) holds Rust's `Option` and `Result`, the
  `u64` and `i64` ranges, and the `u64` operations the crate relies on.
  `checked_mul` and `checked_add` are written as the wrapped 64-bit result
  plus the usual overflow test. Their contracts state the exact behaviour:
  the result is present exactly when the true value fits, and it is then that
  value. The `u64 as i64` cast is a two's-complement reinterpretation. `i64`
  negation excludes `i64::MIN`, where Rust panics.
- `DurationExt` (`duration.dfy`) holds the `Duration` value, its length in
  nanoseconds (`TotalNanos`), the crate's constants and `as_millis`.
  `as_millis` is specified against the total length: the result is the floor
  of the nanosecond count divided by 10^6, and it is present exactly when
  that count fits in a `u64`. `WholeMillis` is a second, independent
  reading of "the number of whole milliseconds contained in" a length: it
  counts them one millisecond at a time, and is proved equal to the floor
  quotient. It adds no behaviour of its own: it is only a second reading of
  the doc comment of `as_millis` (src/duration.rs:9), against which both
  conversions are checked.
- `SystemTimeExt` (`system_time.dfy`) represents a `SystemTime` as its signed
  nanosecond distance from the epoch. `duration_since(UNIX_EPOCH)` becomes
  `DurationSinceEpoch`, which is `Ok` at or after the epoch and otherwise
  `Err` carrying the backward distance. `as_unix_millis` is specified as
  "whole milliseconds, rounded toward zero, signed like the distance". The
  result is absent exactly when the magnitude exceeds `i64::MAX`, and it is
  never `i64::MIN`.

## Model

| member | source | states |
|---|---|---|
| `Primitives.CheckedMul` | src/duration.rs:17-18 | `u64::checked_mul`: present exactly when `a * b <= u64::MAX`, and then equal to the true product (proved from the wrapped product and its overflow test) |
| `Primitives.CheckedAdd` | src/duration.rs:19 | `u64::checked_add`: present exactly when `a + b <= u64::MAX`, and then equal to the true sum (proved from the wrapped sum and its carry test) |
| `Primitives.CastU64ToI64` | src/system_time.rs:28 | `n as i64` keeps the 64 bits: the result is congruent to `n` modulo 2^64 |
| `DurationExt.NanosPerMilli` | src/duration.rs:3-5 | the derived `NANOS_PER_MILLI` is 1_000_000, and times `MILLIS_PER_SEC` gives `NANOS_PER_SEC` |
| `DurationExt.TotalNanos` | src/duration.rs:17-19 | a duration's length in nanoseconds is at most the longest `Duration`, and its seconds and sub-second part are recovered from it by division and remainder |
| `DurationExt.FromNanos` | src/system_time.rs:19-21 | the duration built from a nanosecond distance has exactly that length |
| `DurationExt.FromNanosTotalNanos` | src/system_time.rs:19-21 | rebuilding a duration from its length gives the same duration |
| `DurationExt.FromSecs` | src/duration.rs:32 | `Duration::from_secs(s)` is `s * 10^9` nanoseconds long |
| `DurationExt.FromMillis` | src/system_time.rs:43 | `Duration::from_millis(m)` is `m * 10^6` nanoseconds long |
| `DurationExt.WholeMillisIsQuotient` | src/duration.rs:9-12 | the number of whole milliseconds contained in `n` nanoseconds, counted one millisecond at a time, is `n / 10^6` rounded down |
| `DurationExt.MillisOfNanos` | src/duration.rs:17-19 | `secs * 1000 + nanos / 10^6` equals the floor of the total nanoseconds divided by 10^6 |
| `DurationExt.AsMillis` | src/duration.rs:9-20 | present exactly when the whole-millisecond count of the duration fits in a `u64`, and then equal to that count (total nanoseconds divided by 10^6, rounded down) |
| `DurationExt.AsMillisCountsWholeMillis` | src/duration.rs:9-20 | `as_millis` returns the number of whole milliseconds contained in the duration, and `None` exactly when that count exceeds `u64::MAX` |
| `DurationExt.AsMillisSecondsOverflow` | src/duration.rs:17-18 | when `secs * 1000` exceeds `u64::MAX` the result is `None` |
| `DurationExt.AsMillisAddOverflow` | src/duration.rs:19 | when `secs * 1000` fits but adding `nanos / 10^6` does not, the result is `None` |
| `DurationExt.AsMillisAddOverflowReachable` | src/duration.rs:19 | that second overflow case happens: 18_446_744_073_709_551 s and 616 ms |
| `DurationExt.AsMillisTruncates` | src/duration.rs:9-19 | the returned milliseconds, as a duration, are at most the input and less than one millisecond shorter: sub-millisecond nanoseconds are dropped, never rounded up |
| `DurationExt.AsMillisFromMillis` | src/duration.rs:16-20 | a duration made from `m` milliseconds converts back to exactly `Some(m)` |
| `DurationExt.AsMillisExamples` | src/duration.rs:29-33 | `(1 s, 100_000_999 ns)` gives `Some(1100)`; `2^60` seconds gives `None` |
| `SystemTimeExt.EpochPlus` | src/system_time.rs:43 | `UNIX_EPOCH + d` lies `d` nanoseconds after the epoch, and `duration_since(UNIX_EPOCH)` gives back `Ok(d)` |
| `SystemTimeExt.EpochMinus` | src/system_time.rs:45 | `UNIX_EPOCH - d` lies `d` nanoseconds before the epoch; `duration_since(UNIX_EPOCH)` gives back `Err(d)` for a non-zero `d`, and for a zero `d` the time is the epoch itself and the result is `Ok(d)` |
| `SystemTimeExt.DurationSinceEpoch` | src/system_time.rs:19-21 | `Ok` exactly at or after the epoch, carrying the forward distance; otherwise `Err` carrying the backward distance |
| `SystemTimeExt.ToI64` | src/system_time.rs:26-32 | present exactly when `n <= i64::MAX`, and then the same number |
| `SystemTimeExt.UncheckedCastIsNegative` | src/system_time.rs:27-31 | above `i64::MAX` the bare cast would give a negative number, and `to_i64` gives `None` |
| `SystemTimeExt.AsUnixMillis` | src/system_time.rs:10-23 | present exactly when the whole milliseconds between the time and the epoch fit in an `i64`; then its magnitude is that count rounded toward zero, its sign follows the side of the epoch, and it is never `i64::MIN` |
| `SystemTimeExt.AsUnixMillisCountsWholeMillis` | src/system_time.rs:10-23 | the magnitude of the result is the number of whole milliseconds between the time and the epoch, and the result is `None` exactly when that count exceeds `i64::MAX` |
| `SystemTimeExt.AsUnixMillisAfterEpoch` | src/system_time.rs:20 | at or after the epoch the result is `as_millis` of the forward duration when that is present and at most `i64::MAX`, and `None` otherwise |
| `Primitives.NegI64` | src/system_time.rs:21 | `-n` on `i64` is required not to be applied to `i64::MIN` (Rust panics in debug builds and wraps in release builds); the result is the negation and is never `i64::MIN`. `AsUnixMillis` meets the requirement because `ToI64` only yields values in `0..=i64::MAX` |
| `Primitives.NegI64Involutive` | src/system_time.rs:21 | negating an `i64` other than `i64::MIN` twice gives it back |
| `SystemTimeExt.AsUnixMillisBeforeEpoch` | src/system_time.rs:21 | at or before the epoch the result is minus `as_millis` of the backward duration when that is present and at most `i64::MAX`, and `None` otherwise |
| `SystemTimeExt.AsUnixMillisMirror` | src/system_time.rs:19-21 | `epoch - d` and `epoch + d` succeed together, with opposite results |
| `SystemTimeExt.AsUnixMillisNegationBoundary` | src/system_time.rs:21-28 | `i64::MAX` ms before the epoch gives `Some(-i64::MAX)`; a backward count of exactly 2^63 ms gives `None`, not `i64::MIN` |
| `SystemTimeExt.AsUnixMillisExamples` | src/system_time.rs:40-48 | epoch + 100 ms gives `Some(100)`, epoch - 100 ms gives `Some(-100)`, epoch - 2^60 s gives `None` |

## Left out

- `mul_u64` and `div_u64` appear in the generated documentation index, but
  their source is not part of this model, so the multiply and divide by a
  scalar (and the wide multiply-divide they would need) are not modelled.
- `src/lib.rs` only declares modules, re-exports the traits and gates
  `system_time` behind the `beta` feature; there is no logic to model.
- Reading the clock, and the platform's own `SystemTime` representation, are
  left out. A `SystemTime` is a signed nanosecond distance from the epoch
  whose magnitude fits in a `Duration`; real platforms allow a narrower range.
- `duration_since` is modelled only against `UNIX_EPOCH`, the one use the
  crate makes of it. Its error type `SystemTimeError` is represented by the
  `Duration` that its `duration()` method returns.
- `Duration::new` normalises an oversized nanosecond part into seconds; the
  model builds durations directly from an in-range sub-second part, which is
  all the crate's own test uses.
- `NegI64` treats negating `i64::MIN` as a caller error (Rust panics in debug
  builds and wraps in release builds); `AsUnixMillis` proves it never
  negates that value.
- The `quickcheck` and `rand` test dependencies are randomised-testing tools
  with no behaviour to model.
