/** Time as the recorders use it: a time is a whole number of nanoseconds since Go's zero
    time (so `time.Time{}` is 0), a duration is a signed 64-bit number of nanoseconds. */
module Clock {
  const SECOND: int := 1_000_000_000
  const MINUTE: int := 60 * SECOND
  const HOUR: int := 60 * MINUTE
  /** `expiredTimeInterval`: how long a record stays live. */
  const EXPIRED_INTERVAL: int := 2 * HOUR
  const ZERO_TIME: int := 0
  const MAX_DURATION: int := 0x7FFF_FFFF_FFFF_FFFF
  const MIN_DURATION: int := -0x8000_0000_0000_0000

  /** `t.Sub(u)`: the difference, saturated to the range of a 64-bit duration. */
  function Sub(t: int, u: int): (d: int)
    ensures MIN_DURATION <= d <= MAX_DURATION
    ensures MIN_DURATION <= t - u <= MAX_DURATION ==> d == t - u
    ensures t >= u <==> d >= 0
    ensures t - u > MAX_DURATION ==> d == MAX_DURATION
    ensures t - u < MIN_DURATION ==> d == MIN_DURATION
  {
    if t - u > MAX_DURATION then MAX_DURATION
    else if t - u < MIN_DURATION then MIN_DURATION
    else t - u
  }

  /** Go's integer division, which truncates toward zero. */
  function TruncDiv(a: int, b: int): (q: int)
    requires b > 0
    ensures a >= 0 ==> q * b <= a < (q + 1) * b
    ensures a <= 0 ==> (q - 1) * b < a <= q * b
  {
    if a >= 0 then a / b else -(-a / b)
  }
}
