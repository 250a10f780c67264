/** The command-line options of the check, as the host framework hands them
    over, and the values derived from them (bin/check-sidekiq-dead-queue.rb,
    the option declarations). */
module Options {
  import opened Wrappers
  import opened Splitting

  /** Each option's argument as given, or None when the option was omitted. */
  datatype Config = Config(
    url: string,
    auth: Option<string>,
    silence: Option<string>,
    silenceWeekends: Option<string>)

  /** config[:silence]: the --silence argument after its proc split it on '-'.
      It is absent exactly when the option is. Otherwise its pieces hold no
      '-', the last is not empty, and joined with '-' they give the argument
      up to a tail of '-' characters; there are at least two pieces exactly
      when a '-' is followed later by another character. */
  function SilenceParts(c: Config): (parts: Option<seq<string>>)
    ensures parts.Some? <==> c.silence.Some?
    ensures parts.Some? ==> forall i :: 0 <= i < |parts.value| ==> '-' !in parts.value[i]
    ensures parts.Some? ==> |parts.value| == 0 || parts.value[|parts.value| - 1] != ""
    ensures parts.Some? ==> PaddedWith(c.silence.value, Join(parts.value, '-'), '-')
    ensures parts.Some? ==> (|parts.value| >= 2 <==> HasInnerSeparator(c.silence.value, '-'))
  {
    match c.silence
    case None => None
    case Some(period) =>
      SplitInTwo(period, '-');
      JoinSplit(period, '-');
      Some(Split(period, '-'))
  }

  /** `!!config[:silence_weekends]`: any given argument, "false" included, is
      truthy; only an omitted option is falsy. */
  predicate SilenceWeekends(c: Config)
    ensures c.silenceWeekends.Some? ==> SilenceWeekends(c)
    ensures c.silenceWeekends.None? ==> !SilenceWeekends(c)
  {
    c.silenceWeekends.Some?
  }
}
