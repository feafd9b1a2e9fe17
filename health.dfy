/** `HealthController.calculateUptime`: a duration in whole seconds split into
    days, hours, minutes and seconds with Java's `long` division and remainder,
    which truncate toward zero. */
module Health {
  import opened Common

  const SecondsPerDay := 24 * 3600

  /** Java's `a / b` for a positive divisor: the quotient rounded toward zero. */
  function JavaDiv(a: int, b: int): (q: int)
    requires b > 0
    ensures a >= 0 ==> q == a / b
    ensures a < 0 ==> q == -((-a) / b)
  {
    if a >= 0 then a / b else -((-a) / b)
  }

  /** Java's `a % b`: what is left after JavaDiv; it takes the sign of `a`. */
  function JavaRem(a: int, b: int): (r: int)
    requires b > 0
    ensures a == b * JavaDiv(a, b) + r
    ensures a >= 0 ==> 0 <= r < b
    ensures a < 0 ==> -b < r <= 0
  {
    a - b * JavaDiv(a, b)
  }

  datatype Uptime = Uptime(days: int, hours: int, minutes: int, seconds: int, totalSeconds: int, formatted: string)

  /** `String.format("%d일 %d시간 %d분 %d초", days, hours, minutes, seconds)` */
  function Formatted(days: int, hours: int, minutes: int, seconds: int): (f: string)
    ensures StartsWith(f, IntToString(days) + "일 ") && EndsWith(f, IntToString(seconds) + "초")
  {
    IntToString(days) + "일 " + IntToString(hours) + "시간 " + IntToString(minutes) + "분 " + IntToString(seconds) + "초"
  }

  /** `calculateUptime`, given `Duration.between(start, end).getSeconds()`.
      The parts always add back up to the duration; for a duration that is not
      negative each part is in its clock range and the day count is unbounded. */
  method CalculateUptime(durationSeconds: int) returns (u: Uptime)
    ensures u.days * SecondsPerDay + u.hours * 3600 + u.minutes * 60 + u.seconds == durationSeconds
    ensures u.totalSeconds == durationSeconds
    ensures durationSeconds >= 0 ==>
              && u.days == durationSeconds / SecondsPerDay
              && 0 <= u.hours < 24 && 0 <= u.minutes < 60 && 0 <= u.seconds < 60
    ensures durationSeconds < 0 ==>
              && u.days <= 0 && -24 < u.hours <= 0 && -60 < u.minutes <= 0 && -60 < u.seconds <= 0
    ensures u.formatted == Formatted(u.days, u.hours, u.minutes, u.seconds)
  {
    var seconds := durationSeconds;
    var days := JavaDiv(seconds, SecondsPerDay);
    seconds := JavaRem(seconds, SecondsPerDay);
    var hours := JavaDiv(seconds, 3600);
    seconds := JavaRem(seconds, 3600);
    var minutes := JavaDiv(seconds, 60);
    seconds := JavaRem(seconds, 60);
    u := Uptime(days, hours, minutes, seconds, durationSeconds, Formatted(days, hours, minutes, seconds));
  }

  /** The split is the only one with parts in their clock ranges: days, hours,
      minutes and seconds of a non-negative duration are determined by it. */
  lemma {:induction false} UptimeSplitIsUnique(s: int, d: int, h: int, m: int, sec: int)
    requires s >= 0 && d >= 0
    requires 0 <= h < 24 && 0 <= m < 60 && 0 <= sec < 60
    requires d * SecondsPerDay + h * 3600 + m * 60 + sec == s
    ensures d == s / SecondsPerDay && h == (s % SecondsPerDay) / 3600
    ensures m == (s % 3600) / 60 && sec == s % 60
  {
    var r := h * 3600 + m * 60 + sec;
    assert 0 <= r < SecondsPerDay;
    assert s == d * SecondsPerDay + r;
    assert s / SecondsPerDay == d && s % SecondsPerDay == r by {
      DivModUnique(s, SecondsPerDay, d, r);
    }
    var r2 := m * 60 + sec;
    assert 0 <= r2 < 3600;
    DivModUnique(r, 3600, h, r2);
    DivModUnique(s, 3600, d * 24 + h, r2);
    DivModUnique(r2, 60, m, sec);
    DivModUnique(s, 60, d * 1440 + h * 60 + m, sec);
  }

  lemma DivModUnique(a: int, b: int, q: int, r: int)
    requires b > 0 && 0 <= r < b && a == q * b + r
    ensures a / b == q && a % b == r
  {
    var q0, r0 := a / b, a % b;
    assert (q - q0) * b == r0 - r;
    if q > q0 {
      MultipleAtLeast(q - q0, b);
    } else if q < q0 {
      MultipleAtLeast(q0 - q, b);
    }
  }

  lemma MultipleAtLeast(k: int, b: int)
    requires k >= 1 && b > 0
    ensures k * b >= b
  {
  }
}
