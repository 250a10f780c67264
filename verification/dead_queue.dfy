/** Classification of the dead-queue size read from the stats document
    (bin/check-sidekiq-dead-queue.rb, the body of `run`). */
module DeadQueue {
  import opened Wrappers
  import opened Decimal
  import opened Reports

  const EmptyMessage: string := "sidekiq dead queue is empty"
  const NotEmptyPrefix: string := "dead queue not empty ("
  const EntriesSuffix: string := " entries)"
  const EntrySuffix: string := " entry)"

  predicate EndsWith(s: string, suffix: string)
  {
    |suffix| <= |s| && s[|s| - |suffix|..] == suffix
  }

  /** The report for a dead queue holding `n` jobs. Only zero is healthy; the
      plural is chosen by `n > 1`, so one and every negative count read "entry". */
  function Classify(n: int): (r: Report)
    ensures r.severity == Ok <==> n == 0
    ensures r.severity == Critical <==> n != 0
    ensures n == 0 ==> r.message == EmptyMessage
    ensures n != 0 ==> CountOf(r.message) == Some(n)
    ensures n != 0 ==> (EndsWith(r.message, EntriesSuffix) <==> n > 1)
    ensures n != 0 ==> (EndsWith(r.message, EntrySuffix) <==> n <= 1)
  {
    if n != 0 then
      var word := if n > 1 then "entries" else "entry";
      var message := NotEmptyPrefix + IntToString(n) + " " + word + ")";
      CountOfMessage(n, message);
      Report(Critical, message)
    else
      Report(Ok, EmptyMessage)
  }

  /** Reads the count back out of a "dead queue not empty" message. */
  function CountOf(message: string): Option<int>
  {
    if |NotEmptyPrefix| <= |message| && message[..|NotEmptyPrefix|] == NotEmptyPrefix then
      var rest := message[|NotEmptyPrefix|..];
      if EndsWith(rest, EntriesSuffix) then ParseInt(rest[..|rest| - |EntriesSuffix|])
      else if EndsWith(rest, EntrySuffix) then ParseInt(rest[..|rest| - |EntrySuffix|])
      else None
    else None
  }

  /** The count and the plural word survive the trip through the message. */
  lemma CountOfMessage(n: int, message: string)
    requires n != 0
    requires message == NotEmptyPrefix + IntToString(n) + " " + (if n > 1 then "entries" else "entry") + ")"
    ensures CountOf(message) == Some(n)
    ensures EndsWith(message, EntriesSuffix) <==> n > 1
    ensures EndsWith(message, EntrySuffix) <==> n <= 1
  {
    var digits := IntToString(n);
    var suffix := if n > 1 then EntriesSuffix else EntrySuffix;
    assert message == NotEmptyPrefix + digits + suffix;
    CountOfWithSuffix(digits, suffix);
    SuffixesDiffer(NotEmptyPrefix + digits, suffix);
  }

  /** CountOf strips the prefix and either suffix and parses what is left. */
  lemma CountOfWithSuffix(digits: string, suffix: string)
    requires suffix == EntriesSuffix || suffix == EntrySuffix
    ensures CountOf(NotEmptyPrefix + digits + suffix) == ParseInt(digits)
  {
    var message := NotEmptyPrefix + digits + suffix;
    var rest := digits + suffix;
    assert message == NotEmptyPrefix + rest;
    Unprefix(NotEmptyPrefix, rest);
    Unsuffix(digits, suffix);
    SuffixesDiffer(digits, suffix);
  }

  /** A text ending in one of the two suffixes ends in no other one. */
  lemma SuffixesDiffer(front: string, suffix: string)
    requires suffix == EntriesSuffix || suffix == EntrySuffix
    ensures EndsWith(front + suffix, EntriesSuffix) <==> suffix == EntriesSuffix
    ensures EndsWith(front + suffix, EntrySuffix) <==> suffix == EntrySuffix
  {
    var s := front + suffix;
    Unsuffix(front, suffix);
    assert s[|s| - 2] == suffix[|suffix| - 2];
    assert EntriesSuffix[|EntriesSuffix| - 2] == 's';
    assert EntrySuffix[|EntrySuffix| - 2] == 'y';
    if EndsWith(s, EntriesSuffix) {
      assert s[|s| - 2] == EntriesSuffix[|EntriesSuffix| - 2];
    }
    if EndsWith(s, EntrySuffix) {
      assert s[|s| - 2] == EntrySuffix[|EntrySuffix| - 2];
    }
  }

  lemma Unprefix(prefix: string, rest: string)
    ensures (prefix + rest)[..|prefix|] == prefix
    ensures (prefix + rest)[|prefix|..] == rest
  {
  }

  lemma Unsuffix(front: string, suffix: string)
    ensures EndsWith(front + suffix, suffix)
    ensures (front + suffix)[..|front|] == front
  {
    assert (front + suffix)[|front|..] == suffix;
  }

  /** The check body after the fetch: a failed fetch is reported UNKNOWN with
      the URL and the error text; a fetched count is classified. */
  function CheckDeadQueue(url: string, fetched: Result<int, string>): (r: Report)
    ensures fetched.Failure? <==> r.severity == Unknown
    ensures fetched.Failure? ==>
      r.message == "Could not load Sidekiq stats from " + url + ". Error: " + fetched.error
    ensures fetched.Success? ==> r == Classify(fetched.value)
  {
    match fetched
    case Failure(error) => Report(Unknown, "Could not load Sidekiq stats from " + url + ". Error: " + error)
    case Success(n) => Classify(n)
  }
}
