/**
  `calculateTimeLeft` of the countdown timer: the time until a release, split into whole
  days, hours, minutes and seconds. Instants are integer milliseconds; "now" is a parameter.
 */
module Countdown {
  import opened CalendarDay

  datatype TimeLeft = TimeLeft(days: int, hours: int, minutes: int, seconds: int, isPast: bool)

  /** The milliseconds a decomposition stands for. */
  function Span(t: TimeLeft): int {
    t.days * MS_PER_DAY + t.hours * MS_PER_HOUR + t.minutes * MS_PER_MINUTE + t.seconds * MS_PER_SECOND
  }

  /** A positive multiple of `m` is at least `m`. */
  lemma {:induction false} MulAtLeast(k: int, m: int)
    requires k >= 1 && m > 0
    ensures k * m >= m
    decreases k
  {
    if k > 1 {
      MulAtLeast(k - 1, m);
      assert k * m == (k - 1) * m + m;
    }
  }

  /** Quotient and remainder are the only pair with `x == q * m + r` and `0 <= r < m`. */
  lemma DivModUnique(x: int, m: int, q: int, r: int)
    requires m > 0 && x == q * m + r && 0 <= r < m
    ensures x / m == q && x % m == r
  {
    var q0, r0 := x / m, x % m;
    assert x == q0 * m + r0;
    if q0 > q {
      MulAtLeast(q0 - q, m);
    } else if q0 < q {
      MulAtLeast(q - q0, m);
    }
  }

  /** The four fields of a positive difference, and what they add up to. */
  lemma Decompose(difference: int)
    requires difference > 0
    ensures var days, hours := difference / MS_PER_DAY, (difference % MS_PER_DAY) / MS_PER_HOUR;
      var minutes, seconds := (difference % MS_PER_HOUR) / MS_PER_MINUTE, (difference % MS_PER_MINUTE) / MS_PER_SECOND;
      && 0 <= hours < 24 && 0 <= minutes < 60 && 0 <= seconds < 60
      && days * MS_PER_DAY + hours * MS_PER_HOUR + minutes * MS_PER_MINUTE + seconds * MS_PER_SECOND <= difference
      && difference < days * MS_PER_DAY + hours * MS_PER_HOUR + minutes * MS_PER_MINUTE + seconds * MS_PER_SECOND + MS_PER_SECOND
  {
    var days, r1 := difference / MS_PER_DAY, difference % MS_PER_DAY;
    var hours, r2 := r1 / MS_PER_HOUR, r1 % MS_PER_HOUR;
    DivModUnique(difference, MS_PER_HOUR, days * 24 + hours, r2);
    var minutes, r3 := r2 / MS_PER_MINUTE, r2 % MS_PER_MINUTE;
    DivModUnique(difference, MS_PER_MINUTE, (days * 24 + hours) * 60 + minutes, r3);
    var seconds := r3 / MS_PER_SECOND;
  }

  /**
    A past or present target gives all zeros and `isPast`; a future one gives whole days and
    the hours, minutes and seconds below a day, accounting for the difference to within a second.
   */
  function CalculateTimeLeft(target: int, now: int): (r: TimeLeft)
    ensures target - now <= 0 ==> r == TimeLeft(0, 0, 0, 0, true)
    ensures target - now > 0 ==>
              && !r.isPast
              && r.days == (target - now) / MS_PER_DAY
              && 0 <= r.hours < 24 && 0 <= r.minutes < 60 && 0 <= r.seconds < 60
              && Span(r) <= target - now < Span(r) + MS_PER_SECOND
  {
    var difference := target - now;
    if difference <= 0 then TimeLeft(0, 0, 0, 0, true)
    else
      Decompose(difference);
      TimeLeft(
        difference / MS_PER_DAY,
        (difference % MS_PER_DAY) / MS_PER_HOUR,
        (difference % MS_PER_HOUR) / MS_PER_MINUTE,
        (difference % MS_PER_MINUTE) / MS_PER_SECOND,
        false)
  }

  /** Whole seconds of a decomposition. */
  function TotalSeconds(t: TimeLeft): int {
    ((t.days * 24 + t.hours) * 60 + t.minutes) * 60 + t.seconds
  }

  /** A decomposition that accounts for `difference` to within a second holds its whole seconds. */
  lemma SecondsOf(difference: int, t: TimeLeft)
    requires Span(t) <= difference < Span(t) + MS_PER_SECOND
    ensures TotalSeconds(t) == difference / MS_PER_SECOND
  {
    assert Span(t) == TotalSeconds(t) * MS_PER_SECOND;
    DivModUnique(difference, MS_PER_SECOND, TotalSeconds(t), difference - Span(t));
  }

  /** Within the field bounds, the whole seconds determine every field. */
  lemma FieldsOfSeconds(t: TimeLeft)
    requires 0 <= t.hours < 24 && 0 <= t.minutes < 60 && 0 <= t.seconds < 60
    ensures t.seconds == TotalSeconds(t) % 60
    ensures t.minutes == (TotalSeconds(t) / 60) % 60
    ensures t.hours == (TotalSeconds(t) / 60 / 60) % 24
    ensures t.days == TotalSeconds(t) / 60 / 60 / 24
  {
    DivModUnique(TotalSeconds(t), 60, (t.days * 24 + t.hours) * 60 + t.minutes, t.seconds);
    DivModUnique((t.days * 24 + t.hours) * 60 + t.minutes, 60, t.days * 24 + t.hours, t.minutes);
    DivModUnique(t.days * 24 + t.hours, 24, t.days, t.hours);
  }

  /**
    The decomposition is the only one with hours below 24, minutes and seconds below 60 that
    accounts for the difference to within a second.
   */
  lemma TimeLeftUnique(target: int, now: int, t: TimeLeft)
    requires target - now > 0 && !t.isPast
    requires 0 <= t.hours < 24 && 0 <= t.minutes < 60 && 0 <= t.seconds < 60
    requires Span(t) <= target - now < Span(t) + MS_PER_SECOND
    ensures CalculateTimeLeft(target, now) == t
  {
    var r := CalculateTimeLeft(target, now);
    SecondsOf(target - now, r);
    SecondsOf(target - now, t);
    FieldsOfSeconds(r);
    FieldsOfSeconds(t);
  }
}
