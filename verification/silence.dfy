/** The silence evaluation of the check: weekend silencing and the daily
    silence window (bin/check-sidekiq-dead-queue.rb, `check_for_silence`,
    `weekend?`, `time_period`, `previous_day`, `today`). */
module Silence {
  import opened Wrappers
  import opened Clock
  import opened Splitting
  import opened Options

  const WeekendMessage: string := "silence mode - dead queue checks disabled for the weekend"
  const PeriodMessage: string := "silence mode - dead queue checks disabled for time period"

  /** The library readings of the two halves of the --silence argument: the
      time of day Time.parse finds in the first (None when it raises), and
      String#to_i of the second. The second half comes out of a split on '-',
      so it holds no minus sign and to_i cannot be negative. */
  datatype Readers = Readers(timeOfDay: string -> Option<TimeOfDay>, toI: string -> nat)

  /** A parsed silence specification: a start time of day and whole hours. */
  datatype Spec = Spec(start: TimeOfDay, hours: nat)

  /** A Ruby range `first..last` of instants: both ends belong to it. */
  datatype Interval = Interval(first: Instant, last: Instant)

  /** Range#cover? on an inclusive range: no instant outside the range is
      covered (CoversBothEnds gives the instants that are). */
  predicate Covers(iv: Interval, t: Instant)
    ensures Covers(iv, t) ==> iv.first <= t && t <= iv.last
  {
    iv.first <= t <= iv.last
  }

  /** Both ends of a non-empty range, and every instant between, are covered. */
  lemma CoversBothEnds(iv: Interval, t: Instant)
    requires iv.first <= iv.last
    ensures Covers(iv, iv.first) && Covers(iv, iv.last)
    ensures iv.first <= t <= iv.last ==> Covers(iv, t)
  {
  }

  /** weekend?: the lower-cased weekday abbreviation is "sat" or "sun",
      which picks out exactly Saturdays and Sundays. */
  predicate IsWeekend(day: int)
    ensures IsWeekend(day) <==> Weekday(day) == 6 || Weekday(day) == 0
  {
    Abbreviation(day) in ["sat", "sun"]
  }

  /** today(start_time): the start time of day on the current day. */
  function Today(start: TimeOfDay, today: int): (t: Instant)
    ensures DayOf(t) == today
    ensures TimeOfDayOf(t) == start
  {
    At(today, start)
  }

  /** previous_day(start_time): the start time of day on the day before. */
  function PreviousDay(start: TimeOfDay, today: int): (t: Instant)
    ensures DayOf(t) == today - 1
    ensures TimeOfDayOf(t) == start
  {
    At(today - 1, start)
  }

  /** The silence window of `spec` as seen on day `today`. It starts at the
      configured time of day, on the previous day exactly when the start hour
      exceeds the naive end hour (start hour + hours) mod 24, and it lasts
      exactly `hours` hours. */
  function Window(spec: Spec, today: int): (iv: Interval)
    ensures TimeOfDayOf(iv.first) == spec.start
    ensures DayOf(iv.first)
         == if spec.start.hour > (spec.start.hour + spec.hours) % 24 then today - 1 else today
    ensures iv.last - iv.first == spec.hours * SecondsPerHour
  {
    var naiveEnd := Today(spec.start, today) + spec.hours * SecondsPerHour;
    HourAfter(today, spec.start, spec.hours);
    var first :=
      if spec.start.hour > HourOf(naiveEnd) then PreviousDay(spec.start, today)
      else Today(spec.start, today);
    Interval(first, first + spec.hours * SecondsPerHour)
  }

  /** Whether the split --silence argument names a window at all: the first
      two pieces must both be present. */
  predicate HasWindowParts(parts: Option<seq<string>>)
  {
    parts.Some? && |parts.value| >= 2
  }

  /** time_period: no window unless two pieces are present; an exception,
      carrying the start text, when the start does not parse; otherwise the
      window of the parsed pieces. */
  function TimePeriod(parts: Option<seq<string>>, read: Readers, today: int)
    : (r: Result<Option<Interval>, string>)
    ensures r == Success(None) <==> !HasWindowParts(parts)
    ensures r.Failure? <==> HasWindowParts(parts) && read.timeOfDay(parts.value[0]).None?
    ensures r.Success? && r.value.Some? ==>
      && TimeOfDayOf(r.value.value.first) == read.timeOfDay(parts.value[0]).value
      && r.value.value.last - r.value.value.first == read.toI(parts.value[1]) * SecondsPerHour
      && var start := read.timeOfDay(parts.value[0]).value;
         DayOf(r.value.value.first)
         == if start.hour > (start.hour + read.toI(parts.value[1])) % 24 then today - 1 else today
  {
    if HasWindowParts(parts) then
      var startText := parts.value[0];
      match read.timeOfDay(startText)
      case None => Failure(startText)
      case Some(start) => Success(Some(Window(Spec(start, read.toI(parts.value[1])), today)))
    else Success(None)
  }

  /** The outcome of check_for_silence: a silence reason, go ahead with the
      check, or the exception time_period raised. */
  datatype Decision = WeekendSilence | PeriodSilence | Proceed | Raise(error: string)

  /** The weekend branch fires. */
  predicate WeekendSilenced(c: Config, now: Instant)
  {
    SilenceWeekends(c) && IsWeekend(DayOf(now))
  }

  /** The time-period branch fires (when reached). */
  predicate PeriodSilenced(c: Config, read: Readers, now: Instant)
  {
    match TimePeriod(SilenceParts(c), read, DayOf(now))
    case Success(Some(iv)) => Covers(iv, now)
    case _ => false
  }

  /** check_for_silence: weekend first, then the time period, else proceed.
      The same clock reading serves for "today" and for "now". */
  function CheckForSilence(c: Config, read: Readers, now: Instant): (d: Decision)
    ensures d == WeekendSilence <==> WeekendSilenced(c, now)
    ensures d == PeriodSilence <==> !WeekendSilenced(c, now) && PeriodSilenced(c, read, now)
    ensures d.Raise? <==>
      !WeekendSilenced(c, now) && TimePeriod(SilenceParts(c), read, DayOf(now)).Failure?
    ensures d == Proceed <==>
      && !WeekendSilenced(c, now)
      && !PeriodSilenced(c, read, now)
      && TimePeriod(SilenceParts(c), read, DayOf(now)).Success?
  {
    if SilenceWeekends(c) && IsWeekend(DayOf(now)) then WeekendSilence
    else
      match TimePeriod(SilenceParts(c), read, DayOf(now))
      case Failure(error) => Raise(error)
      case Success(period) =>
        if period.Some? && Covers(period.value, now) then PeriodSilence else Proceed
  }

  // ---------------------------------------------------------------------
  // Properties of the window

  /** There is a window exactly when a --silence argument was given whose
      split has two pieces, i.e. a '-' followed later by some other character. */
  lemma NoWindowWithoutTwoPieces(c: Config, read: Readers, today: int)
    ensures TimePeriod(SilenceParts(c), read, today) == Success(None)
        <==> c.silence.None? || !HasInnerSeparator(c.silence.value, '-')
  {
  }

  /** A window that crosses midnight is anchored on the previous day; one that
      does not is anchored today (for windows shorter than a day). */
  lemma AnchorYesterdayIffCrossesMidnight(spec: Spec, today: int)
    requires spec.hours < 24
    ensures DayOf(Window(spec, today).first) == today - 1 <==> spec.start.hour + spec.hours >= 24
    ensures DayOf(Window(spec, today).first) == today <==> spec.start.hour + spec.hours < 24
  {
  }

  /** A window of a whole number of days starts today. */
  lemma WholeDaysAnchorToday(spec: Spec, today: int)
    requires spec.hours % 24 == 0
    ensures DayOf(Window(spec, today).first) == today
  {
  }

  /** With zero hours the window is the single start instant of today. */
  lemma ZeroHoursCoversOnlyStart(start: TimeOfDay, today: int, t: Instant)
    ensures Covers(Window(Spec(start, 0), today), t) <==> t == At(today, start)
  {
  }

  /** Wall-clock reading of the window for spans under a day: a window that
      stays within one day silences from its start to its end, both included;
      a window that crosses midnight silences only from midnight to its end,
      never from its start to midnight. */
  predicate InQuietHours(spec: Spec, now: Instant)
    requires spec.hours < 24
  {
    var s := SecondsOf(spec.start);
    var n := SecondsOf(TimeOfDayOf(now));
    var len := spec.hours * SecondsPerHour;
    if s + len < SecondsPerDay then s <= n <= s + len
    else n <= s + len - SecondsPerDay
  }

  /** The window of the current day covers `now` exactly when the clock at
      `now` reads inside the quiet hours. */
  lemma {:induction false} CoversIffQuietHours(spec: Spec, now: Instant)
    requires spec.hours < 24
    ensures Covers(Window(spec, DayOf(now)), now) <==> InQuietHours(spec, now)
  {
    var today := DayOf(now);
    var iv := Window(spec, today);
    AnchorYesterdayIffCrossesMidnight(spec, today);
    AtOfReading(now);
    AtOfReading(iv.first);
    var s := SecondsOf(spec.start);
    var n := SecondsOf(TimeOfDayOf(now));
    assert now == today * SecondsPerDay + n;
    assert spec.start.hour + spec.hours < 24 <==> s + spec.hours * SecondsPerHour < SecondsPerDay;
    if spec.start.hour + spec.hours < 24 {
      assert iv.first == today * SecondsPerDay + s;
    } else {
      assert iv.first == (today - 1) * SecondsPerDay + s;
    }
  }

  /** Examples of a window crossing midnight (23:00 for 4 hours) and
      of one that does not (09:00 for 4 hours), on day `d`. */
  lemma WindowExamples(d: int)
    ensures !Covers(Window(Spec(TimeOfDay(23, 0, 0), 4), d), At(d, TimeOfDay(23, 30, 0)))
    ensures Covers(Window(Spec(TimeOfDay(23, 0, 0), 4), d), At(d, TimeOfDay(1, 0, 0)))
    ensures Covers(Window(Spec(TimeOfDay(23, 0, 0), 4), d), At(d, TimeOfDay(3, 0, 0)))
    ensures !Covers(Window(Spec(TimeOfDay(23, 0, 0), 4), d), At(d, TimeOfDay(3, 0, 1)))
    ensures Covers(Window(Spec(TimeOfDay(9, 0, 0), 4), d), At(d, TimeOfDay(13, 0, 0)))
    ensures !Covers(Window(Spec(TimeOfDay(9, 0, 0), 4), d), At(d, TimeOfDay(8, 59, 0)))
  {
  }
}
