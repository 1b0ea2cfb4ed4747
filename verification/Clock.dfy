// internal/install/manifest.go: the age of a manifest under clock skew. Times
// are nanoseconds since the epoch; now.Unix() is the whole seconds below.
module Clock {
  import opened Wrappers

  const SECOND := 1_000_000_000
  const MAX_AGE := 24 * 3600 * SECOND
  const FUTURE_LEEWAY := 5 * 60 * SECOND
  const MAX_OFFSET := 24 * 3600
  const INT64 := 0x8000_0000_0000_0000

  predicate Int64(n: int)
  {
    -INT64 <= n < INT64
  }

  // Two's complement wrap-around.
  function Wrap64(n: int): (r: int)
    ensures Int64(r)
  {
    (n + INT64) % (2 * INT64) - INT64
  }

  // time.Time.Sub saturates.
  function Sub(a: int, b: int): int
  {
    if a - b < -INT64 then -INT64 else if a - b >= INT64 then INT64 - 1 else a - b
  }

  // rtc is None when since_epoch cannot be read or parsed.
  function MeasuredRTCOffset(now: int, rtc: Option<int>): (r: int)
    ensures -MAX_OFFSET <= r <= MAX_OFFSET
  {
    match rtc
    case None => 0
    case Some(seconds) =>
      var offset := Wrap64(now / SECOND - seconds);
      if offset < -MAX_OFFSET || offset > MAX_OFFSET then 0 else offset
  }

  predicate TimestampWithinWindow(createdAt: int, current: int)
  {
    var age := Sub(current, createdAt);
    -FUTURE_LEEWAY <= age <= MAX_AGE
  }

  // The zero time.Time, the start of year 1.
  const ZERO_TIME := -62_135_596_800 * SECOND

  predicate ValidateTimestamp(createdAt: int, rtcOffset: int, writerClock: int)
  {
    && createdAt != ZERO_TIME
    && (|| TimestampWithinWindow(createdAt, writerClock)
        || (rtcOffset != 0 && -MAX_OFFSET <= rtcOffset <= MAX_OFFSET &&
            TimestampWithinWindow(createdAt, writerClock + rtcOffset * SECOND)))
  }

  // Saturation and wrap-around never change a verdict: the window is the plain
  // one, and an offset is recorded exactly when it is small.
  lemma ArithmeticIsExact(createdAt: int, current: int, now: int, seconds: int)
    requires 0 <= now / SECOND < INT64 / 2 && Int64(seconds)
    ensures TimestampWithinWindow(createdAt, current) <==> -FUTURE_LEEWAY <= current - createdAt <= MAX_AGE
    ensures MeasuredRTCOffset(now, Some(seconds)) ==
            var d := now / SECOND - seconds; if -MAX_OFFSET <= d <= MAX_OFFSET then d else 0
  {
  }

  function Distance(a: int, b: int): nat
  {
    if a < b then b - a else a - b
  }

  // The difference of two times is the 64-bit value nearest to the true one.
  lemma SubIsNearest(a: int, b: int, other: int)
    requires Int64(other)
    ensures Int64(Sub(a, b)) && Distance(Sub(a, b), a - b) <= Distance(other, a - b)
  {
  }

  // The verdict in plain numbers: at most five minutes ahead and a day behind,
  // by the writer's clock or by that clock corrected by an offset of at most a
  // day. The zero time is never accepted, and no offset is taken from a clock
  // that cannot be read.
  lemma VerdictExactly(createdAt: int, rtcOffset: int, writerClock: int)
    ensures ValidateTimestamp(createdAt, rtcOffset, writerClock) <==>
            && createdAt != -62_135_596_800_000_000_000
            && (|| -300_000_000_000 <= writerClock - createdAt <= 86_400_000_000_000
                || (-86_400 <= rtcOffset <= 86_400 &&
                    -300_000_000_000 <= writerClock + rtcOffset * 1_000_000_000 - createdAt <= 86_400_000_000_000))
    ensures MeasuredRTCOffset(createdAt, None) == 0
  {
  }

  // A manifest made at `created` on a host whose hardware clock is behind by a
  // whole number of seconds of at most a day, and read by a writer that takes
  // its time from that clock: it is accepted whenever its true age is in the
  // window.
  lemma SkewedClockIsForgiven(created: int, skew: int, read: int)
    requires 0 <= created / SECOND < INT64 / 2 - MAX_OFFSET
    requires -MAX_OFFSET <= skew <= MAX_OFFSET
    requires -FUTURE_LEEWAY <= read - created <= MAX_AGE
    ensures ValidateTimestamp(created, MeasuredRTCOffset(created, Some(created / SECOND - skew)), read - skew * SECOND)
  {
    ArithmeticIsExact(created, read, created, created / SECOND - skew);
    ArithmeticIsExact(created, read - skew * SECOND, created, created / SECOND - skew);
  }

  // With a skew of any fraction of a second the same holds up to one second
  // at either end of the window: both clocks are read in whole seconds.
  lemma AnySkewIsForgiven(created: int, skew: int, read: int)
    requires 0 <= created / SECOND < INT64 / 2 - MAX_OFFSET
    requires -(MAX_OFFSET - 1) * SECOND <= skew <= (MAX_OFFSET - 1) * SECOND
    requires -FUTURE_LEEWAY + SECOND <= read - created <= MAX_AGE - SECOND
    ensures ValidateTimestamp(created, MeasuredRTCOffset(created, Some((created - skew) / SECOND)), read - skew)
  {
    var rtc := (created - skew) / SECOND;
    var offset := created / SECOND - rtc;
    assert skew - SECOND < offset * SECOND < skew + SECOND by {
      assert created - skew == rtc * SECOND + (created - skew) % SECOND;
      assert created == created / SECOND * SECOND + created % SECOND;
    }
    ArithmeticIsExact(created, read - skew, created, rtc);
    ArithmeticIsExact(created, read - skew + offset * SECOND, created, rtc);
  }

  // However the clocks are set, what is accepted is at most two days old by
  // the writer's own clock, and at most a day and five minutes in its future.
  lemma AcceptedAgeIsBounded(createdAt: int, rtcOffset: int, writerClock: int)
    requires ValidateTimestamp(createdAt, rtcOffset, writerClock)
    ensures -FUTURE_LEEWAY - MAX_OFFSET * SECOND <= writerClock - createdAt <= MAX_AGE + MAX_OFFSET * SECOND
  {
  }
}
