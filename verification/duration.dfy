/**
  `getDuration`: splits the milliseconds elapsed since a position was opened
  into whole days, hours and minutes. The clock reading is a parameter: `diff`
  is `Date.now() - startTime`, an integer number of milliseconds.
*/
module Duration {

  const MsPerMinute: int := 1000 * 60
  const MsPerHour: int := 1000 * 60 * 60
  const MsPerDay: int := 1000 * 60 * 60 * 24

  /** The three numbers rendered as `${days}d ${hours}h ${minutes}m`. */
  datatype Span = Span(days: int, hours: int, minutes: int)

  /** `Math.trunc`: rounds toward zero. */
  function Trunc(x: real): int
  {
    if x >= 0.0 then x.Floor else -((-x).Floor)
  }

  /** JavaScript `%` on numbers: the remainder takes the sign of the dividend. */
  function Rem(x: real, m: real): real
    requires m != 0.0
  {
    x - m * (Trunc(x / m) as real)
  }

  /** `Math.floor` of each quotient, in real (floating) division as the source writes it. */
  function GetDuration(diff: int): Span
  {
    var d := diff as real;
    Span(
      (d / (MsPerDay as real)).Floor,
      Rem(d / (MsPerHour as real), 24.0).Floor,
      Rem(d / (MsPerMinute as real), 60.0).Floor)
  }

  /** `Math.floor(n / k)` for integers is integer division rounding down. */
  lemma FloorOfQuotient(n: int, k: int)
    requires k > 0
    ensures (n as real / k as real).Floor == n / k
  {
    var q, r := n / k, n % k;
    assert (n as real) == (q as real) * (k as real) + (r as real);
    assert (n as real) / (k as real) == (q as real) + (r as real) / (k as real);
    assert 0.0 <= (r as real) / (k as real) < 1.0;
  }

  /** `Math.floor((diff / MsPerHour) % 24)` for a non-negative `diff`: the whole hours within the day. */
  lemma HoursWithinDay(n: int)
    requires n >= 0
    ensures Rem(n as real / (MsPerHour as real), 24.0).Floor == (n / MsPerHour) % 24
  {
    var x := n as real / 3600000.0;
    assert MsPerHour as real == 3600000.0;
    FloorOfQuotient(n, 3600000);
    FloorOfQuotient(n, 86400000);
    NestedQuotients(n);
    assert x / 24.0 == n as real / 86400000.0;
    FloorShift(x, 24 * (n / 86400000));
  }

  /** `Math.floor((diff / MsPerMinute) % 60)` for a non-negative `diff`: the whole minutes within
      the hour. */
  lemma MinutesWithinHour(n: int)
    requires n >= 0
    ensures Rem(n as real / (MsPerMinute as real), 60.0).Floor == (n / MsPerMinute) % 60
  {
    var x := n as real / 60000.0;
    assert MsPerMinute as real == 60000.0;
    FloorOfQuotient(n, 60000);
    FloorOfQuotient(n, 3600000);
    NestedQuotients(n);
    assert x / 60.0 == n as real / 3600000.0;
    FloorShift(x, 60 * (n / 3600000));
  }

  /** Taking away a whole number moves the floor by that number. */
  lemma FloorShift(x: real, k: int)
    ensures (x - k as real).Floor == x.Floor - k
  {
  }

  /** Whole hours are whole minutes divided by 60, and whole days whole hours divided by 24. */
  lemma NestedQuotients(n: int)
    requires n >= 0
    ensures n / 3600000 == (n / 60000) / 60
    ensures n / 86400000 == (n / 3600000) / 24
  {
  }

  /** Days, hours within the day and minutes within the hour give back the whole minutes. */
  lemma Reassemble(diff: int, m: int, h: int, d: int)
    requires diff >= 0 && m == diff / 60000 && h == m / 60 && d == h / 24
    ensures d * 86400000 + (h % 24) * 3600000 + (m % 60) * 60000 == m * 60000
    ensures m * 60000 <= diff < m * 60000 + 60000
  {
    assert d * 24 + h % 24 == h;
    assert h * 60 + m % 60 == m;
  }

  /** Each field of the split, as integer division and remainder. */
  lemma DurationFields(diff: int)
    requires diff >= 0
    ensures var s := GetDuration(diff);
      && s.days == diff / MsPerDay
      && s.hours == (diff / MsPerHour) % 24
      && s.minutes == (diff / MsPerMinute) % 60
  {
    FloorOfQuotient(diff, MsPerDay);
    HoursWithinDay(diff);
    MinutesWithinHour(diff);
  }

  /** For an elapsed time that is not negative, the split is integer division and remainder:
      whole days, the hours within the day and the minutes within the hour, and together they
      give back the elapsed time to the minute. */
  lemma DurationSplit(diff: int)
    requires diff >= 0
    ensures var s := GetDuration(diff);
      && s.days == diff / MsPerDay
      && s.hours == (diff / MsPerHour) % 24
      && s.minutes == (diff / MsPerMinute) % 60
      && 0 <= s.hours < 24 && 0 <= s.minutes < 60
      && s.days * MsPerDay + s.hours * MsPerHour + s.minutes * MsPerMinute <= diff
      && diff < s.days * MsPerDay + s.hours * MsPerHour + s.minutes * MsPerMinute + MsPerMinute
  {
    DurationFields(diff);
    NestedQuotients(diff);
    var m := diff / 60000;
    Reassemble(diff, m, m / 60, m / 60 / 24);
  }
}
