/**
 * Link expiry, with times as integer milliseconds. A link lives for 30 minutes;
 * the list shows how many whole minutes it has left and flags the last five.
 */
module Expiry {

  const MinuteMs: int := 60_000
  const WindowMinutes: int := 30
  /** 30 minutes in milliseconds. */
  const ExpiryMs: int := WindowMinutes * MinuteMs
  /** A link is "expiring soon" with this many minutes left or fewer. */
  const SoonMinutes: int := 5

  /** isExpired: strictly more than 30 minutes have passed since `createdAt`. */
  predicate IsExpired(createdAt: int, now: int) {
    now - createdAt > ExpiryMs
  }

  /** The integer test is the source's test on fractional minutes, exactly. */
  lemma ExpiredInMinutes(createdAt: int, now: int)
    ensures IsExpired(createdAt, now) <==> (now - createdAt) as real / MinuteMs as real > WindowMinutes as real
  {
    var d := (now - createdAt) as real;
    assert d / 60000.0 * 60000.0 == d;
  }

  /** Once expired, a link stays expired as the clock moves on. */
  lemma ExpiredStaysExpired(createdAt: int, t1: int, t2: int)
    requires t1 <= t2 && IsExpired(createdAt, t1)
    ensures IsExpired(createdAt, t2)
  {
  }

  /**
   * getTimeLeft: 30 minus the elapsed whole minutes, never below 0. It is 0 from the
   * 30-minute mark on; before that it is `m` while elapsed time lies in the
   * (30 - m)-th minute.
   */
  function TimeLeft(createdAt: int, now: int): (m: int)
    ensures m >= 0
    ensures now - createdAt >= 0 ==> m <= WindowMinutes
    ensures m == 0 <==> now - createdAt >= ExpiryMs
    ensures m > 0 ==> (WindowMinutes - m) * MinuteMs <= now - createdAt < (WindowMinutes - m + 1) * MinuteMs
  {
    var left := WindowMinutes - (now - createdAt) / MinuteMs;
    if left > 0 then left else 0
  }

  /** Dafny's division by a positive divisor is Math.floor of the exact quotient. */
  lemma ElapsedMinutesIsFloor(createdAt: int, now: int)
    ensures ((now - createdAt) as real / MinuteMs as real).Floor == (now - createdAt) / MinuteMs
  {
    var d := now - createdAt;
    var q, r := d / MinuteMs, d % MinuteMs;
    assert d == q * MinuteMs + r && 0 <= r < MinuteMs;
    assert d as real / 60000.0 == q as real + r as real / 60000.0;
  }

  /** Time left never goes up as the clock moves on. */
  lemma TimeLeftMonotone(createdAt: int, t1: int, t2: int)
    requires t1 <= t2
    ensures TimeLeft(createdAt, t2) <= TimeLeft(createdAt, t1)
  {
    assert (t1 - createdAt) / MinuteMs <= (t2 - createdAt) / MinuteMs;
  }

  /** Until it reaches 0, time left drops by exactly one each minute. */
  lemma TimeLeftTicks(createdAt: int, now: int)
    requires TimeLeft(createdAt, now) > 0
    ensures TimeLeft(createdAt, now + MinuteMs) == TimeLeft(createdAt, now) - 1
  {
    assert (now + MinuteMs - createdAt) / MinuteMs == (now - createdAt) / MinuteMs + 1;
  }

  /** `timeLeft <= 5`: the list highlights the link. */
  predicate ExpiringSoon(createdAt: int, now: int) {
    TimeLeft(createdAt, now) <= SoonMinutes
  }

  /** A link is flagged exactly from the 25-minute mark on. */
  lemma ExpiringSoonFromMinute25(createdAt: int, now: int)
    ensures ExpiringSoon(createdAt, now) <==> now - createdAt >= (WindowMinutes - SoonMinutes) * MinuteMs
  {
  }

  /**
   * Expiry is strict, so there is one instant at which a link is still active and
   * already shows 0 minutes left: exactly 30 minutes after its creation.
   */
  lemma ActiveWithNoTimeLeft(createdAt: int, now: int)
    ensures !IsExpired(createdAt, now) && TimeLeft(createdAt, now) == 0 <==> now - createdAt == ExpiryMs
  {
  }

  /** An expired link shows 0 minutes left. */
  lemma ExpiredShowsZero(createdAt: int, now: int)
    requires IsExpired(createdAt, now)
    ensures TimeLeft(createdAt, now) == 0
  {
  }
}
