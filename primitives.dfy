/**
 Fixed-width integer primitives the duration arithmetic is built from:
 Rust's `Option` and `Result`, the `u64` and `i64` ranges, the checked
 `u64` multiply and add, the `u64 as i64` cast and `i64` negation.

 Integers here are mathematical; every wrap-around of the machine types is
 written out explicitly.
 */
module Primitives {

  datatype Option<T> = None | Some(value: T)

  datatype Result<T, E> = Ok(value: T) | Err(error: E)

  const TWO_64: int := 0x1_0000_0000_0000_0000
  const U64_MAX: int := TWO_64 - 1
  const I64_MAX: int := 0x7FFF_FFFF_FFFF_FFFF
  const I64_MIN: int := -0x8000_0000_0000_0000

  type u64 = x: int | 0 <= x <= U64_MAX
  type i64 = x: int | I64_MIN <= x <= I64_MAX

  /** Division with an exact quotient and remainder pins the quotient down. */
  lemma DivByQuotient(x: int, d: int, q: int, rem: int)
    requires 0 < d && 0 <= rem < d && x == q * d + rem
    ensures x / d == q && x % d == rem
  {
    var q0, r0 := x / d, x % d;
    assert (q - q0) * d == r0 - rem;
    if q > q0 {
      MulMonotone(d, 1, q - q0);
      assert false;
    } else if q < q0 {
      MulMonotone(d, 1, q0 - q);
      assert false;
    }
  }

  /** `x * y` does not shrink when `y` is replaced by a larger factor. */
  lemma MulMonotone(x: nat, y: nat, z: nat)
    requires y <= z
    ensures x * y <= x * z
  {
  }

  /** The product as the processor leaves it: the low 64 bits. */
  function WrappingMul(a: u64, b: u64): (w: u64)
  {
    (a * b) % TWO_64
  }

  /** The sum as the processor leaves it: the low 64 bits. */
  function WrappingAdd(a: u64, b: u64): (w: u64)
  {
    (a + b) % TWO_64
  }

  /** When `b != 0`, dividing the wrapped product by `b` gives back `a`
      exactly when the true product fits in 64 bits. */
  lemma MulOverflowTest(a: u64, b: u64)
    requires b != 0
    ensures WrappingMul(a, b) / b == a <==> a * b <= U64_MAX
    ensures a * b <= U64_MAX ==> WrappingMul(a, b) == a * b
  {
    var w := WrappingMul(a, b);
    if a * b <= U64_MAX {
      DivByQuotient(a * b, TWO_64, 0, a * b);
      DivByQuotient(w, b, a, 0);
    } else {
      var q := w / b;
      assert q * b <= w;
      assert w < a * b;
      if q >= a {
        MulMonotone(b, a, q);
        assert false;
      }
    }
  }

  /** A wrapped sum is smaller than its first operand exactly when a carry
      left the 64-bit range. */
  lemma AddOverflowTest(a: u64, b: u64)
    ensures WrappingAdd(a, b) < a <==> a + b > U64_MAX
  {
    if a + b > U64_MAX {
      DivByQuotient(a + b, TWO_64, 1, a + b - TWO_64);
    } else {
      DivByQuotient(a + b, TWO_64, 0, a + b);
    }
  }

  /** `u64::checked_mul`: the wrapped product, rejected when the overflow
      test fires. */
  function CheckedMul(a: u64, b: u64): (r: Option<u64>)
    ensures r.Some? <==> a * b <= U64_MAX
    ensures r.Some? ==> r.value == a * b
  {
    var w := WrappingMul(a, b);
    if b == 0 then
      Some(w)
    else
      MulOverflowTest(a, b);
      if w / b != a then None else Some(w)
  }

  /** `u64::checked_add`: the wrapped sum, rejected when it carried out. */
  function CheckedAdd(a: u64, b: u64): (r: Option<u64>)
    ensures r.Some? <==> a + b <= U64_MAX
    ensures r.Some? ==> r.value == a + b
  {
    var w := WrappingAdd(a, b);
    AddOverflowTest(a, b);
    if w < a then
      None
    else
      DivByQuotient(a + b, TWO_64, 0, a + b);
      Some(w)
  }

  /** `n as i64` for a `u64` `n`: a two's-complement reinterpretation of the
      same 64 bits, so values above `i64::MAX` come out negative. */
  function CastU64ToI64(n: u64): (v: i64)
    ensures (v - n) % TWO_64 == 0
  {
    if n <= I64_MAX then n else n - TWO_64
  }

  /** Unary minus on `i64`; `i64::MIN` has no negation (Rust panics in
      debug builds and wraps in release builds), so it is excluded. The
      result is never `i64::MIN` itself, so it can always be negated back. */
  function NegI64(n: i64): (v: i64)
    requires n != I64_MIN
    ensures v + n == 0
    ensures v != I64_MIN
  {
    -n
  }

  /** Negating twice gives back the original value. */
  lemma NegI64Involutive(n: i64)
    requires n != I64_MIN
    ensures NegI64(NegI64(n)) == n
  {
  }
}
