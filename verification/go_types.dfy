/**
 The few pieces of Go's value model that the task manager and the shard queue
 rely on: fixed-width integers, the integer conversions between them, Go's
 truncating remainder, and an Option type for "absent" results.
 */
module GoTypes {

  newtype byte = x: int | 0 <= x < 0x100
  newtype int32 = x: int | -0x8000_0000 <= x < 0x8000_0000
  newtype int64 = x: int | -0x8000_0000_0000_0000 <= x < 0x8000_0000_0000_0000
  newtype uint32 = x: int | 0 <= x < 0x1_0000_0000
  newtype uint64 = x: int | 0 <= x < 0x1_0000_0000_0000_0000

  const TwoTo64: int := 0x1_0000_0000_0000_0000

  datatype Option<+T> = None | Some(value: T)

  function Abs(x: int): nat
  {
    if x < 0 then -x else x
  }

  /** Go's conversion `uint64(n)` of a signed value: the bit pattern is kept,
      so the result is the value modulo 2^64 (two's complement). */
  function Uint64FromInt64(n: int64): (u: uint64)
    ensures u as int == n as int % TwoTo64
    ensures n >= 0 ==> u as int == n as int
  {
    if n < 0 then (n as int + TwoTo64) as uint64 else n as int as uint64
  }

  /** Go's conversion `int64(u)`: reads the 64-bit pattern as two's complement. */
  function Int64FromUint64(u: uint64): (n: int64)
    ensures n as int % TwoTo64 == u as int
  {
    if u < 0x8000_0000_0000_0000 then u as int as int64 else (u as int - TwoTo64) as int64
  }

  /** The two conversions are inverse bijections between int64 and uint64. */
  lemma Int64Uint64Inverse(n: int64, u: uint64)
    ensures Int64FromUint64(Uint64FromInt64(n)) == n
    ensures Uint64FromInt64(Int64FromUint64(u)) == u
  {
  }

  /** Division by a positive divisor has a unique quotient and remainder. */
  lemma DivModUnique(n: int, d: int, q: int, r: int)
    requires d > 0 && 0 <= r < d && n == q * d + r
    ensures n / d == q && n % d == r
  {
    var q', r' := n / d, n % d;
    assert (q - q') * d == r' - r;
    if q > q' {
      MulAtLeast(q - q', d);
    } else if q < q' {
      MulAtLeast(q' - q, d);
    }
  }

  lemma MulAtLeast(x: int, d: int)
    requires x >= 1 && d > 0
    ensures x * d >= d
  {
    assert x * d == (x - 1) * d + d;
  }

  /** Go's `%` on signed integers truncates toward zero: the remainder has the
      sign of the dividend and is smaller in magnitude than the divisor. A zero
      divisor is a run-time panic in Go, hence the precondition. */
  function GoRem(a: int, b: int): (r: int)
    requires b != 0
    ensures a >= 0 ==> 0 <= r < Abs(b)
    ensures a < 0 ==> 0 <= -r < Abs(b)
    ensures (a - r) % Abs(b) == 0
  {
    var d, q := Abs(b), Abs(a) / Abs(b);
    var m := Abs(a) % d;
    if a >= 0 then
      DivModUnique(a - m, d, q, 0);
      m
    else
      DivModUnique(a + m, d, -q, 0);
      -m
  }
}
