# Sidekiq dead-queue check — Dafny model

A model of the monitoring check `bin/check-sidekiq-dead-queue.rb`. The check reads the size of Sidekiq's
dead queue from the stats page and reports CRITICAL when it is not empty. Before that it decides whether
to stay quiet. It is silenced for the whole weekend when `--silence-weekends` is given. It is also
silenced during a daily window given by `--silence START-HOURS`, for example `23:00-4`.

Modules:

- `Wrappers`: `Option` and `Result`.
- `Clock`: instants in whole seconds since 1970-01-01 00:00 UTC, calendar days, weekdays and times of
  day. It also holds the arithmetic fact behind the naive end hour: adding `k` whole hours moves the
  hour to `(hour + k) mod 24` and leaves minutes and seconds alone.
- `Splitting`: Ruby's `String#split` with a one-character separator. It splits into all fields, then
  drops the trailing empty ones.
- `Decimal`: `Integer#to_s` and the parse that reads its output back.
- `Reports`: the severities and the result of a run.
- `DeadQueue`: classification of the dead-queue size, and the UNKNOWN report for a failed fetch.
- `Options`: the command-line configuration and the `--silence` split proc.
- `Silence`: `weekend?`, `today`, `previous_day`, `time_period` and `check_for_silence`.
- `Check`: one run, with the silencing precedence.

Behaviour of the code worth knowing:

- `Range#cover?` on `start..end` includes both ends, so `now == end` is silenced.
- A window shorter than a day that crosses midnight is always anchored on the previous day. `23:00-4`
  therefore silences 00:00 to 03:00 (inclusive) of the current day. It does not silence 23:00 to 24:00
  of the current day. `Silence.CoversIffQuietHours` and `Check.SilencedIffQuietHours` state this for
  every window shorter than a day. A window of 24 hours or more is anchored by the same hour
  comparison: `23:00-24` has naive end hour 23, which is not below 23, so it starts today and runs
  into the next day.
- When `Time.parse` rejects the start text, `time_period` raises. The model's `Raised` result carries
  the offending start text, not the library's exception message.
- The OK message for an empty queue is "sidekiq dead queue is empty".
- The plural word is chosen by `n > 1`, so every other non-zero count, negative ones included, reads
  "entry".

Parameters instead of ambient state:

- The clock reading `now`. The same reading provides "today" for the weekend test and for the window.
- `Silence.Readers`. These are the library readings of the two halves of the `--silence` argument:
  the time of day that `Time.parse` finds, or `None` when it raises, and `String#to_i`.
- The fetch outcome: the dead-queue size, or the error text of the failed HTTP fetch or JSON parse.

## Model

| member | source | states |
|---|---|---|
| `Clock.HourAfter` | bin/check-sidekiq-dead-queue.rb:97 | `hours.after(start).strftime('%H')` is `(start hour + hours) mod 24` for every number of hours, and minutes and seconds are unchanged |
| `Clock.At` | bin/check-sidekiq-dead-queue.rb:108-113 | Placing a time of day on a calendar day gives the instant whose day and time-of-day readings are exactly that day and time |
| `Clock.AtOfReading` | bin/check-sidekiq-dead-queue.rb:108-113 | Every instant is recovered from its day and its time-of-day reading, so `At` and the clock readings are inverse |
| `Splitting.Fields` | bin/check-sidekiq-dead-queue.rb:44 | The fields between separators contain no separator, and there is always at least one field |
| `Splitting.JoinFields` | bin/check-sidekiq-dead-queue.rb:44 | Joining the fields with the separator gives back the original string |
| `Splitting.FieldsJoin` | bin/check-sidekiq-dead-queue.rb:44 | Splitting a join of separator-free pieces gives back exactly those pieces |
| `Splitting.Split` | bin/check-sidekiq-dead-queue.rb:44 | `split('-')` is the longest prefix of the fields that does not end in an empty piece: every field after it is empty. The pieces hold no '-' |
| `Splitting.SplitJoin` | bin/check-sidekiq-dead-queue.rb:44 | `split` undoes a join when the last piece is non-empty |
| `Splitting.PositionWitness` | bin/check-sidekiq-dead-queue.rb:44 | A '-' followed later by another character produces a non-empty field after the first |
| `Splitting.FieldWitness` | bin/check-sidekiq-dead-queue.rb:44 | A non-empty field after the first comes from a '-' followed later by another character |
| `Splitting.JoinDropTrailingEmpty` | bin/check-sidekiq-dead-queue.rb:44 | Dropping the trailing empty fields removes only a tail of '-' characters from their join |
| `Splitting.JoinSplit` | bin/check-sidekiq-dead-queue.rb:44 | Joining the pieces of `split('-')` with '-' gives the argument back, less a tail of '-' characters |
| `Splitting.SplitInTwo` | bin/check-sidekiq-dead-queue.rb:44 | `split('-')` has at least two pieces if and only if a '-' is followed later by a character other than '-' |
| `Decimal.NatToString` | bin/check-sidekiq-dead-queue.rb:67 | The decimal digits of a natural number parse back to the number under a parse that rejects leading zeros |
| `Decimal.IntToString` | bin/check-sidekiq-dead-queue.rb:67 | `to_s` parses back to the integer under a parse that rejects leading zeros. It starts with '-' exactly for negatives and contains no space |
| `DeadQueue.Classify` | bin/check-sidekiq-dead-queue.rb:64-70 | OK if and only if the count is 0, with "sidekiq dead queue is empty". Otherwise CRITICAL, and the message gives back the count. It ends in " entries)" if and only if the count exceeds 1, and in " entry)" for every other non-zero count |
| `DeadQueue.CountOfMessage` | bin/check-sidekiq-dead-queue.rb:66-67 | The count and the plural word can be read back from the "dead queue not empty (n word)" message |
| `DeadQueue.CheckDeadQueue` | bin/check-sidekiq-dead-queue.rb:53-70 | A failed fetch is UNKNOWN, with a message naming the URL and the error. A fetched count is classified |
| `Clock.Abbreviation` | bin/check-sidekiq-dead-queue.rb:89 | `strftime('%a').downcase` is one of the seven abbreviations. It is "sat" exactly on Saturdays and "sun" exactly on Sundays |
| `Clock.HourOf` | bin/check-sidekiq-dead-queue.rb:96-97 | `strftime('%H').to_i` is the hour whose span contains the instant's second of the day |
| `Silence.IsWeekend` | bin/check-sidekiq-dead-queue.rb:88-91 | `weekend?` holds exactly on Saturdays and Sundays |
| `Silence.Covers` | bin/check-sidekiq-dead-queue.rb:101 | `cover?` on `start..end` covers no instant outside the range |
| `Silence.CoversBothEnds` | bin/check-sidekiq-dead-queue.rb:101 | `cover?` on a non-empty `start..end` covers both ends and every instant between |
| `Options.SilenceParts` | bin/check-sidekiq-dead-queue.rb:44 | `config[:silence]` is absent exactly when the option is. Its pieces hold no '-' and the last is not empty. Joined with '-' they give the argument up to a tail of '-' characters, which fixes the pieces. It has at least two pieces exactly when a '-' is followed later by another character |
| `Options.SilenceWeekends` | bin/check-sidekiq-dead-queue.rb:76 | `!!config[:silence_weekends]` is true for every supplied argument, "false" included, and false only when the option is omitted |
| `Silence.Today` | bin/check-sidekiq-dead-queue.rb:112-114 | `today(start_time)` is the start time of day on the current day |
| `Silence.PreviousDay` | bin/check-sidekiq-dead-queue.rb:107-110 | `previous_day(start_time)` is the start time of day on the day before |
| `Silence.Window` | bin/check-sidekiq-dead-queue.rb:96-101 | The window starts at the configured time of day. It is on the previous day if and only if start hour > (start hour + hours) mod 24, otherwise today. It ends exactly `hours` hours after its start |
| `Silence.TimePeriod` | bin/check-sidekiq-dead-queue.rb:93-105 | No window if and only if there are fewer than two pieces. An exception if and only if the start does not parse. Otherwise a window at the parsed time of day lasting `to_i` hours. It starts on the previous day if and only if start hour > (start hour + hours) mod 24, otherwise today |
| `Silence.CheckForSilence` | bin/check-sidekiq-dead-queue.rb:74-84 | Weekend silencing if and only if the option is given and the day is a weekend. The time period is consulted only otherwise, and it silences if and only if its window covers now. Otherwise the check proceeds, unless `time_period` raised |
| `Silence.NoWindowWithoutTwoPieces` | bin/check-sidekiq-dead-queue.rb:94-95 | There is no window if and only if `--silence` is absent or its text has no '-' followed later by another character |
| `Silence.AnchorYesterdayIffCrossesMidnight` | bin/check-sidekiq-dead-queue.rb:96-99 | For windows under 24 hours, the window is anchored yesterday if and only if start hour + hours reaches 24, otherwise today |
| `Silence.WholeDaysAnchorToday` | bin/check-sidekiq-dead-queue.rb:96-99 | A window of a whole number of days (hours a multiple of 24) is anchored today |
| `Silence.ZeroHoursCoversOnlyStart` | bin/check-sidekiq-dead-queue.rb:97-101 | With 0 hours, the window covers exactly one instant: today's start |
| `Silence.CoversIffQuietHours` | bin/check-sidekiq-dead-queue.rb:99-101 | For windows under a day, today's window covers now if and only if the wall clock is in the quiet hours. A same-day window counts from start to end inclusive. A midnight-crossing window counts only from midnight to its end |
| `Silence.WindowExamples` | bin/check-sidekiq-dead-queue.rb:99-101 | With `23:00-4`: 23:30 is not silenced, 01:00 and 03:00 are, 03:00:01 is not. With `09:00-4`: 13:00 is silenced and 08:59 is not |
| `Check.Run` | bin/check-sidekiq-dead-queue.rb:51-84 | Weekend silencing takes precedence over the time period. A silenced run is OK with the matching message. An unparsable start raises. The dead-queue report is produced if and only if neither silence fires and nothing raised |
| `Check.SilencedIffQuietHours` | bin/check-sidekiq-dead-queue.rb:77-83 | For a parsed window under a day, outside a silenced weekend, a run is silenced for the time period if and only if the wall clock is in the quiet hours. Otherwise it reports on the dead queue |
| `Check.NightWindowExample` | bin/check-sidekiq-dead-queue.rb:74-101 | With `--silence 23:00-4`, which the proc on line 44 splits into "23:00" and "4": at 23:30 the check still runs, and at 01:00 it is silenced |
| `Check.UnconfiguredAlwaysChecks` | bin/check-sidekiq-dead-queue.rb:74-84 | With neither silencing option, every run reports on the dead queue |
| `Check.WeekendArgumentIsTruthy` | bin/check-sidekiq-dead-queue.rb:76-78 | Any `--silence-weekends` value, "false" included, silences Saturdays and Sundays whatever window and stats there are |
| `Check.EmptyQueueExample` | bin/check-sidekiq-dead-queue.rb:64-70 | With no silencing, 0 dead jobs give OK "sidekiq dead queue is empty" |
| `Check.ThreeDeadJobsExample` | bin/check-sidekiq-dead-queue.rb:64-70 | With no silencing, 3 dead jobs give CRITICAL "dead queue not empty (3 entries)" |

## Left out

- HTTP retrieval through open-uri and the basic-auth plumbing, including the `--auth` split (lines 38, 55-59). This is network I/O in a foreign library. The fetch is a parameter: the dead-queue size, or an error text.
- `JSON.parse` and reading `stats['sidekiq']['dead']` are foreign library code. A missing key or a non-integer value, such as a float, is not modelled. The count is an integer.
- Option registration, output formatting, process exit codes, and what the host framework does with an exception that escapes `run`. These are host-framework scaffolding. An escaping exception is `Raised`.
- The message of the exception `Time.parse` raises, such as "no time information in …" or "argument out of range", is library text. `Raised` carries the offending start text instead.
- `Time.parse` and `String#to_i` are library code. They are the `Readers` parameter. A start string that names a date as well as a time is not modelled: the reader yields only a time of day.
- Time zones and daylight saving time are not modelled. The code mixes `Time.now.utc` with local-time `Time.parse` and `Date.today`. The model uses one UTC clock with no DST, and one reading of it for both "today" and "now". The unused `now` on line 75 and the second call of `time_period` on line 79 make no difference under that assumption.
- The clock is read in whole seconds. The fraction of a second in `Time.now` is not modelled.
- `Splitting.Split`: requires a separator other than a space. Ruby splits on runs of whitespace when the pattern is a single space, and the check never does that.
