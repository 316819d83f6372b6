/**
 * The machine arithmetic behind Go's `time.Time` and `time.Duration`.
 *
 * An instant is the number of nanoseconds since Go's zero time (1 January of year 1, UTC), so the
 * zero time itself is 0.  A duration is a signed 64-bit count of nanoseconds.  A `time.Time` keeps
 * signed 64-bit seconds and a nanosecond part in [0, 10^9).
 */
module GoTime {

  const SECOND := 1_000_000_000
  const TWO_63 := 0x8000_0000_0000_0000
  const TWO_64 := 0x1_0000_0000_0000_0000
  const MAX_INT64 := TWO_63 - 1
  const MIN_INT64 := -TWO_63

  /** The largest `saved_by` whose conversion to nanoseconds fits in 64 bits. */
  const MAX_SAVED_BY := 9_223_372_036

  /** Two's complement wrap-around to 64 bits. */
  function Wrap64(x: int): (r: int)
    ensures MIN_INT64 <= r <= MAX_INT64
    ensures MIN_INT64 <= x <= MAX_INT64 ==> r == x
    ensures (r - x) % TWO_64 == 0
  {
    (x + TWO_63) % TWO_64 - TWO_63
  }

  /** `time.Duration(n) * time.Second`. */
  function Seconds64(n: int): int {
    Wrap64(n * SECOND)
  }

  /** `Time.Sub`: the difference, saturated at the ends of the 64-bit range. */
  function Sub64(t: int, u: int): (d: int)
    ensures MIN_INT64 <= d <= MAX_INT64
    ensures MIN_INT64 <= t - u <= MAX_INT64 ==> d == t - u
    ensures t - u > MAX_INT64 ==> d == MAX_INT64
    ensures t - u < MIN_INT64 ==> d == MIN_INT64
  {
    if t - u > MAX_INT64 then MAX_INT64 else if t - u < MIN_INT64 then MIN_INT64 else t - u
  }

  /** `Time.Add`: if the seconds part overflows it saturates at plus or minus 2^63 - 1; the nanosecond part does not. */
  function Add64(t: int, d: int): int {
    var sum := t + d;
    var seconds := sum / SECOND;
    var kept := if seconds > MAX_INT64 then MAX_INT64 else if seconds < MIN_INT64 then -MAX_INT64 else seconds;
    kept * SECOND + sum % SECOND
  }

  /** `Add64` is plain addition exactly while the seconds part stays inside 64 bits. */
  lemma Add64Exact(t: int, d: int)
    ensures Add64(t, d) == t + d <==> MIN_INT64 * SECOND <= t + d < (MAX_INT64 + 1) * SECOND
  {}

  /**
   * For a positive 64-bit count the product never exceeds the true value, and it is the true value
   * exactly when the count is at most MAX_SAVED_BY.
   */
  lemma Seconds64Error(n: int)
    requires 0 < n <= MAX_INT64
    ensures Seconds64(n) <= n * SECOND
    ensures Seconds64(n) == n * SECOND <==> n <= MAX_SAVED_BY
    ensures MIN_INT64 <= Seconds64(n) <= MAX_INT64
  {}
}
