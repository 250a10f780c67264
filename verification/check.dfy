/** One run of the check (bin/check-sidekiq-dead-queue.rb, `run` wrapped in
    `check_for_silence`). The clock reading, the library readings of the
    --silence argument and the outcome of fetching the stats document are
    parameters: the fetch yields the dead-queue size or the error text. */
module Check {
  import opened Wrappers
  import opened Clock
  import opened Options
  import opened Reports
  import opened Silence
  import opened DeadQueue
  import opened Splitting
  import opened Decimal

  /** The report of a run, or the exception that escaped it. Weekend silencing
      takes precedence over the time period, and the stats are consulted only
      when neither silences the run. */
  function Run(c: Config, read: Readers, now: Instant, fetched: Result<int, string>): (r: RunResult)
    ensures WeekendSilenced(c, now) ==> r == Reported(Report(Ok, WeekendMessage))
    ensures !WeekendSilenced(c, now) && PeriodSilenced(c, read, now) ==>
      r == Reported(Report(Ok, PeriodMessage))
    ensures r.Raised? <==>
      !WeekendSilenced(c, now) && TimePeriod(SilenceParts(c), read, DayOf(now)).Failure?
    ensures r == Reported(CheckDeadQueue(c.url, fetched)) <==>
      && !WeekendSilenced(c, now)
      && !PeriodSilenced(c, read, now)
      && TimePeriod(SilenceParts(c), read, DayOf(now)).Success?
  {
    match CheckForSilence(c, read, now)
    case WeekendSilence => Reported(Report(Ok, WeekendMessage))
    case PeriodSilence => Reported(Report(Ok, PeriodMessage))
    case Raise(error) => Raised(error)
    case Proceed => Reported(CheckDeadQueue(c.url, fetched))
  }

  /** With neither silencing option given, every run reports on the dead queue. */
  lemma UnconfiguredAlwaysChecks(url: string, auth: Option<string>, read: Readers, now: Instant,
                                 fetched: Result<int, string>)
    ensures Run(Config(url, auth, None, None), read, now, fetched)
         == Reported(CheckDeadQueue(url, fetched))
  {
  }

  /** Any --silence-weekends argument, the string "false" included, silences
      the whole weekend, whatever window is configured and whatever the stats say. */
  lemma WeekendArgumentIsTruthy(c: Config, read: Readers, now: Instant,
                                fetched: Result<int, string>, value: string)
    requires c.silenceWeekends == Some(value)
    requires Weekday(DayOf(now)) == 6 || Weekday(DayOf(now)) == 0
    ensures Run(c, read, now, fetched) == Reported(Report(Ok, WeekendMessage))
  {
  }

  /** For a parsed silence window shorter than a day, outside a silenced
      weekend, a run is silenced exactly in the wall-clock quiet hours and
      otherwise reports on the dead queue. */
  lemma SilencedIffQuietHours(c: Config, read: Readers, now: Instant,
                              fetched: Result<int, string>, spec: Spec)
    requires HasWindowParts(SilenceParts(c))
    requires read.timeOfDay(SilenceParts(c).value[0]) == Some(spec.start)
    requires read.toI(SilenceParts(c).value[1]) == spec.hours
    requires spec.hours < 24
    requires !WeekendSilenced(c, now)
    ensures Run(c, read, now, fetched) == Reported(Report(Ok, PeriodMessage))
        <==> InQuietHours(spec, now)
    ensures !InQuietHours(spec, now) ==> Run(c, read, now, fetched) == Reported(CheckDeadQueue(c.url, fetched))
  {
    assert TimePeriod(SilenceParts(c), read, DayOf(now)) == Success(Some(Window(spec, DayOf(now))));
    CoversIffQuietHours(spec, now);
  }

  /** `--silence 23:00-4` on a day without weekend silencing: half past eleven
      at night still runs the check, one in the morning is silenced. */
  lemma NightWindowExample(read: Readers, day: int, fetched: Result<int, string>)
    requires read.timeOfDay("23:00") == Some(TimeOfDay(23, 0, 0))
    requires read.toI("4") == 4
    ensures Run(Config("http://x/stats", None, Some("23:00-4"), None), read, At(day, TimeOfDay(23, 30, 0)), fetched)
         == Reported(CheckDeadQueue("http://x/stats", fetched))
    ensures Run(Config("http://x/stats", None, Some("23:00-4"), None), read, At(day, TimeOfDay(1, 0, 0)), fetched)
         == Reported(Report(Ok, PeriodMessage))
  {
    var c := Config("http://x/stats", None, Some("23:00-4"), None);
    var parts := ["23:00", "4"];
    assert Join(parts, '-') == "23:00-4";
    SplitJoin(parts, '-');
    assert SilenceParts(c) == Some(parts);
    var spec := Spec(TimeOfDay(23, 0, 0), 4);
    SilencedIffQuietHours(c, read, At(day, TimeOfDay(23, 30, 0)), fetched, spec);
    SilencedIffQuietHours(c, read, At(day, TimeOfDay(1, 0, 0)), fetched, spec);
  }

  /** Example of an end-to-end run with an empty dead queue. */
  lemma EmptyQueueExample(read: Readers, now: Instant)
    ensures Run(Config("http://x/stats", None, None, None), read, now, Success(0))
         == Reported(Report(Ok, "sidekiq dead queue is empty"))
  {
  }

  /** Example of an end-to-end run with three dead jobs. */
  lemma ThreeDeadJobsExample(read: Readers, now: Instant)
    ensures Run(Config("http://x/stats", None, None, None), read, now, Success(3))
         == Reported(Report(Critical, "dead queue not empty (3 entries)"))
  {
    UnconfiguredAlwaysChecks("http://x/stats", None, read, now, Success(3));
    assert IntToString(3) == "3";
    var message := NotEmptyPrefix + "3" + " " + "entries" + ")";
    assert Classify(3) == Report(Critical, message);
    assert message == "dead queue not empty (3 entries)";
  }
}
