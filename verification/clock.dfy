/** Instants, calendar days, weekdays and times of day on a single UTC clock
    without daylight-saving changes. */
module Clock {

  const SecondsPerMinute: int := 60
  const SecondsPerHour: int := 3600
  const SecondsPerDay: int := 86400

  /** Seconds since 1970-01-01 00:00:00 UTC; negative before that. */
  type Instant = int

  type Hour = h: int | 0 <= h < 24
  type Minute = m: int | 0 <= m < 60
  type Second = s: int | 0 <= s < 60

  /** A wall-clock time of day, as read from a string such as "23:00". */
  datatype TimeOfDay = TimeOfDay(hour: Hour, minute: Minute, second: Second)

  /** Seconds from midnight to the given time of day. */
  function SecondsOf(tod: TimeOfDay): (n: int)
    ensures 0 <= n < SecondsPerDay
  {
    tod.hour * SecondsPerHour + tod.minute * SecondsPerMinute + tod.second
  }

  /** The calendar day (days since 1970-01-01) that contains `t`. */
  function DayOf(t: Instant): int
  {
    t / SecondsPerDay
  }

  /** The time of day shown by the clock at `t`. */
  function TimeOfDayOf(t: Instant): TimeOfDay
  {
    var s := t % SecondsPerDay;
    TimeOfDay(s / SecondsPerHour, (s % SecondsPerHour) / SecondsPerMinute, s % SecondsPerMinute)
  }

  /** The hour shown by the clock at `t` (strftime('%H') read back as an integer). */
  function HourOf(t: Instant): (h: Hour)
    ensures h * SecondsPerHour <= t % SecondsPerDay < (h + 1) * SecondsPerHour
  {
    TimeOfDayOf(t).hour
  }

  /** The instant at which day `day` shows the time of day `tod`; the inverse
      of the pair (DayOf, TimeOfDayOf). */
  function At(day: int, tod: TimeOfDay): (t: Instant)
    ensures DayOf(t) == day
    ensures TimeOfDayOf(t) == tod
  {
    var t := day * SecondsPerDay + SecondsOf(tod);
    DivModUnique(t, SecondsPerDay, day, SecondsOf(tod));
    var s := SecondsOf(tod);
    DivModUnique(s, SecondsPerHour, tod.hour, tod.minute * SecondsPerMinute + tod.second);
    DivModUnique(s % SecondsPerHour, SecondsPerMinute, tod.minute, tod.second);
    DivModUnique(s, SecondsPerMinute, tod.hour * 60 + tod.minute, tod.second);
    t
  }

  /** Every instant is the clock reading of its own day: At undoes (DayOf, TimeOfDayOf). */
  lemma AtOfReading(t: Instant)
    ensures At(DayOf(t), TimeOfDayOf(t)) == t
  {
  }

  /** Euclidean division has exactly one quotient and remainder. */
  lemma DivModUnique(t: int, d: int, q: int, r: int)
    requires 0 < d
    requires 0 <= r < d
    requires t == q * d + r
    ensures t / d == q
    ensures t % d == r
  {
    var q' := t / d;
    var r' := t % d;
    assert t == q' * d + r';
    if q' > q {
      MulAtLeast(q' - q, d);
      assert false;
    } else if q' < q {
      MulAtLeast(q - q', d);
      assert false;
    }
  }

  lemma MulAtLeast(k: int, d: int)
    requires 1 <= k
    requires 0 < d
    ensures d <= k * d
  {
  }

  /** Adding whole hours to a time of day moves the hour hand modulo 24 and
      leaves minutes and seconds alone, whatever the number of hours. */
  lemma {:induction false} HourAfter(day: int, tod: TimeOfDay, hours: nat)
    ensures HourOf(At(day, tod) + hours * SecondsPerHour) == (tod.hour + hours) % 24
    ensures TimeOfDayOf(At(day, tod) + hours * SecondsPerHour)
         == TimeOfDay((tod.hour + hours) % 24, tod.minute, tod.second)
  {
    var a := (tod.hour + hours) / 24;
    var b := (tod.hour + hours) % 24;
    var later := TimeOfDay(b, tod.minute, tod.second);
    assert tod.hour + hours == a * 24 + b;
    calc {
      At(day, tod) + hours * SecondsPerHour;
      day * SecondsPerDay + (tod.hour + hours) * SecondsPerHour + tod.minute * SecondsPerMinute + tod.second;
      (day + a) * SecondsPerDay + b * SecondsPerHour + tod.minute * SecondsPerMinute + tod.second;
      At(day + a, later);
    }
  }

  /** Days of the week, counted from Sunday as 0; 1970-01-01 was a Thursday (4). */
  function Weekday(day: int): (w: int)
    ensures 0 <= w < 7
  {
    (day + 4) % 7
  }

  /** The abbreviated weekday names, lower-cased, indexed by Weekday. */
  const DayAbbreviations: seq<string> := ["sun", "mon", "tue", "wed", "thu", "fri", "sat"]

  /** strftime('%a').downcase of any instant of `day`. */
  function Abbreviation(day: int): (name: string)
    ensures name in DayAbbreviations
    ensures name == "sat" <==> Weekday(day) == 6
    ensures name == "sun" <==> Weekday(day) == 0
  {
    DayAbbreviations[Weekday(day)]
  }
}
