/** Go's 64-bit integers and `time.Duration` arithmetic, with wrap-around written out. */
module GoTime {

  const MinInt64: int := -0x8000_0000_0000_0000
  const MaxInt64: int := 0x7fff_ffff_ffff_ffff

  /** Go's `int` on a 64-bit platform, and `int64`. */
  newtype int64 = x: int | -0x8000_0000_0000_0000 <= x < 0x8000_0000_0000_0000

  /** `time.Duration`: a count of nanoseconds held in an int64. */
  type Duration = int64

  /** `time.Second`. */
  const Second: Duration := 1_000_000_000

  /** Two's-complement wrap-around, as Go's non-constant int64 arithmetic does on overflow. */
  function Wrap(x: int): (r: int64)
    ensures (r as int - x) % 0x1_0000_0000_0000_0000 == 0
    ensures MinInt64 <= x <= MaxInt64 ==> r as int == x
  {
    ((x - MinInt64) % 0x1_0000_0000_0000_0000 + MinInt64) as int64
  }

  /** `time.Second * time.Duration(n)`: `n` seconds as a Duration. The product wraps when
      `n` is beyond about 292 years; within that range it is exactly `n` * 10^9 nanoseconds. */
  function Seconds(n: int64): (d: Duration)
    ensures -9_223_372_036 <= n as int <= 9_223_372_036 ==> d as int == n as int * 1_000_000_000
    ensures n == 0 ==> d == 0
    ensures n as int > 0 && n as int <= 9_223_372_036 ==> d > 0
  {
    Wrap(Second as int * n as int)
  }
}
