/** The health check: the structural verdict on the local feed
    (`check_rss_feed_health`), the level counters over the tail of the
    generator's log (`check_recent_logs`), the overall classification of
    `generate_health_report` and the exit code of `main`. Remote access is
    an input: whether the published feed could be fetched and parsed. */
module HealthCheck {
  import opened Common
  import opened RssDocument
  import Updates
  import FeedMerge
  import FeedValidator

  datatype Status = Healthy | HealthyWithWarnings | Unhealthy

  /** The result of the feed check: an error, or the facts it reports. */
  datatype FeedHealth =
    | FeedUnhealthy(error: string)
    | FeedHealthy(itemCount: nat, recentItems: nat, lastBuild: Option<string>)

  /** Days within which an item counts as recent for the health check. */
  const RecentDays := 7

  /** `check_rss_feed_health`: the feed is healthy when the file parses, has
      a channel, and the channel has a non-empty title, link and
      description; the recent-item count never exceeds the item count. */
  function CheckFeedHealth(file: FileState<Document>, ageDays: string -> Option<int>): (h: FeedHealth)
    ensures h.FeedHealthy? <==>
      && file.Parsed? && file.doc.channel.Some?
      && HasText(file.doc.channel.value.title)
      && HasText(file.doc.channel.value.link)
      && HasText(file.doc.channel.value.description)
    ensures h.FeedHealthy? ==> h.itemCount == |ItemsOf(file.doc)| && h.recentItems <= h.itemCount
    ensures file.Missing? ==> h == FeedUnhealthy("RSS file not found")
  {
    match file
    case Missing => FeedUnhealthy("RSS file not found")
    case Unparseable => FeedUnhealthy("XML parsing error")
    case Parsed(doc) =>
      if doc.channel.None? then FeedUnhealthy("Invalid RSS structure")
      else
        var c := doc.channel.value;
        var recent := if |c.items| > 0 then CountRecent(c.items, ageDays, RecentDays) else 0;
        if !(HasText(c.title) && HasText(c.link) && HasText(c.description)) then
          FeedUnhealthy("Missing required RSS elements")
        else FeedHealthy(|c.items|, recent, c.lastBuildDate)
  }

  // ---------------------------------------------------------------------
  // Log tail

  /** How many of the last log lines are scanned. */
  const TailLength := 20

  /** The level a log line is counted under; a line is counted once, and
      ERROR takes precedence over WARNING, which takes precedence over INFO. */
  datatype Level = Error | Warn | Info | Other

  function LevelOf(line: string): Level {
    if Contains(line, " - ERROR - ") then Error
    else if Contains(line, " - WARNING - ") then Warn
    else if Contains(line, " - INFO - ") then Info
    else Other
  }

  /** `lines[-20:] if len(lines) > 20 else lines`. */
  function Tail(lines: seq<string>): (t: seq<string>)
    ensures |t| == Min(TailLength, |lines|)
    ensures t == lines[|lines| - |t|..]
  {
    if |lines| > TailLength then lines[|lines| - TailLength..] else lines
  }

  /** Reference count: the lines of `lines` counted under `level`. */
  function CountLevel(lines: seq<string>, level: Level): nat {
    if |lines| == 0 then 0
    else (if LevelOf(lines[0]) == level then 1 else 0) + CountLevel(lines[1..], level)
  }

  lemma {:induction false} CountLevelSnoc(lines: seq<string>, line: string, level: Level)
    ensures CountLevel(lines + [line], level) == CountLevel(lines, level) + (if LevelOf(line) == level then 1 else 0)
    decreases |lines|
  {
    if |lines| == 0 {
      assert lines + [line] == [line];
    } else {
      assert (lines + [line])[1..] == lines[1..] + [line];
      CountLevelSnoc(lines[1..], line, level);
    }
  }

  /** Each line is counted under at most one level, so the three counters
      together never exceed the number of lines. */
  lemma {:induction false} CountersBounded(lines: seq<string>)
    ensures CountLevel(lines, Error) + CountLevel(lines, Warn) + CountLevel(lines, Info) <= |lines|
    decreases |lines|
  {
    if |lines| > 0 {
      CountersBounded(lines[1..]);
    }
  }

  /** What `check_recent_logs` reports. */
  datatype LogCheck =
    | LogMissing
    | LogEmpty
    | LogCounts(lineCount: nat, errors: nat, warnings: nat, infos: nat)

  /** `check_recent_logs` over the log's lines (`None` when there is no log
      file): the counters cover only the last twenty lines. */
  method CheckRecentLogs(log: Option<seq<string>>) returns (r: LogCheck)
    ensures log.None? <==> r == LogMissing
    ensures log == Some([]) <==> r == LogEmpty
    ensures r.LogCounts? ==>
      && log.Some? && r.lineCount == |log.value|
      && r.errors == CountLevel(Tail(log.value), Error)
      && r.warnings == CountLevel(Tail(log.value), Warn)
      && r.infos == CountLevel(Tail(log.value), Info)
      && r.errors + r.warnings + r.infos <= Min(TailLength, r.lineCount)
  {
    if log.None? {
      return LogMissing;
    }
    var lines := log.value;
    if |lines| == 0 {
      return LogEmpty;
    }
    var recent := Tail(lines);
    var errors, warnings, infos := 0, 0, 0;
    var i := 0;
    while i < |recent|
      invariant 0 <= i <= |recent|
      invariant errors == CountLevel(recent[..i], Error)
      invariant warnings == CountLevel(recent[..i], Warn)
      invariant infos == CountLevel(recent[..i], Info)
    {
      var line := recent[i];
      assert recent[..i + 1] == recent[..i] + [line];
      CountLevelSnoc(recent[..i], line, Error);
      CountLevelSnoc(recent[..i], line, Warn);
      CountLevelSnoc(recent[..i], line, Info);
      if Contains(line, " - ERROR - ") {
        errors := errors + 1;
      } else if Contains(line, " - WARNING - ") {
        warnings := warnings + 1;
      } else if Contains(line, " - INFO - ") {
        infos := infos + 1;
      }
      i := i + 1;
    }
    assert recent[..i] == recent;
    CountersBounded(recent);
    r := LogCounts(|lines|, errors, warnings, infos);
  }

  // ---------------------------------------------------------------------
  // Overall status

  /** The checks `generate_health_report` combines. */
  datatype Checks = Checks(rssFileExists: bool, feed: FeedHealth, remoteAccessible: bool, logs: LogCheck)

  /** `recent_errors`, 0 when the log check did not count. */
  function RecentErrors(logs: LogCheck): nat {
    if logs.LogCounts? then logs.errors else 0
  }

  /** A missing feed file, an unhealthy feed and recent log errors are each
      one critical issue. */
  function CriticalIssues(c: Checks): (n: nat)
    ensures n <= 3
    ensures n == 0 <==> c.rssFileExists && c.feed.FeedHealthy? && RecentErrors(c.logs) == 0
  {
    (if !c.rssFileExists then 1 else 0)
    + (if !c.feed.FeedHealthy? then 1 else 0)
    + (if RecentErrors(c.logs) > 0 then 1 else 0)
  }

  /** Remote inaccessibility is only a warning. */
  function WarningCount(c: Checks): (n: nat)
    ensures n <= 1
    ensures n == 0 <==> c.remoteAccessible
  {
    if !c.remoteAccessible then 1 else 0
  }

  /** The overall status. */
  function Classify(c: Checks): (s: Status)
    ensures s == Healthy <==> CriticalIssues(c) == 0 && WarningCount(c) == 0
    ensures s == HealthyWithWarnings <==> CriticalIssues(c) == 0 && WarningCount(c) >= 1
    ensures s == Unhealthy <==> CriticalIssues(c) > 0
  {
    if CriticalIssues(c) == 0 then
      if WarningCount(c) == 0 then Healthy else HealthyWithWarnings
    else Unhealthy
  }

  /** The status in terms of the checks themselves: unhealthy exactly when
      the feed file is missing, the feed is unhealthy or the log tail holds
      an error; otherwise remote access alone decides between healthy and
      healthy with warnings. */
  lemma ClassifyByChecks(c: Checks)
    ensures Classify(c) == Unhealthy <==>
      !c.rssFileExists || c.feed.FeedUnhealthy? || (c.logs.LogCounts? && c.logs.errors > 0)
    ensures Classify(c) == Healthy <==>
      c.rssFileExists && c.feed.FeedHealthy? && RecentErrors(c.logs) == 0 && c.remoteAccessible
  {
  }

  /** `main`'s exit code: 1 exactly for an unhealthy system. */
  function ExitCode(s: Status): (code: int)
    ensures code == 1 <==> s == Unhealthy
    ensures code == 0 <==> s != Unhealthy
  {
    match s
    case Healthy => 0
    case HealthyWithWarnings => 0
    case Unhealthy => 1
  }

  /** The report assembled from the artifacts: the feed file (whose
      existence is also the local-file check), the remote probe and the log. */
  function Report(file: FileState<Document>, ageDays: string -> Option<int>, remoteAccessible: bool, logs: LogCheck): Checks {
    Checks(!file.Missing?, CheckFeedHealth(file, ageDays), remoteAccessible, logs)
  }

  /** A missing feed file is two critical issues at once: the local-file
      check and the feed check both fail. */
  lemma MissingFeedIsDoublyCritical(ageDays: string -> Option<int>, remoteAccessible: bool, logs: LogCheck)
    ensures CriticalIssues(Report(Missing, ageDays, remoteAccessible, logs)) >= 2
    ensures Classify(Report(Missing, ageDays, remoteAccessible, logs)) == Unhealthy
  {
  }

  /** A feed the validator accepts is healthy. The converse does not hold:
      the health check looks neither at the root tag nor at the items. Given
      the same item ages, the health check's recent-item count (seven days)
      never exceeds the validator's (thirty days). */
  lemma ValidFeedIsHealthy(doc: Document, ageDays: string -> Option<int>)
    ensures FeedValidator.ValidateStructure(Parsed(doc)).Pass? ==> CheckFeedHealth(Parsed(doc), ageDays).FeedHealthy?
    ensures CheckFeedHealth(Parsed(doc), ageDays).FeedHealthy? ==>
      CheckFeedHealth(Parsed(doc), ageDays).recentItems <= FeedValidator.ValidateContent(Parsed(doc), ageDays).recent
  {
    FeedValidator.StructureIffWellFormed(doc);
    if doc.channel.Some? {
      CountRecentMonotone(doc.channel.value.items, ageDays, RecentDays, FeedValidator.RecentWindowDays);
    }
  }

  /** The feed the generator writes always passes the feed check: its
      channel carries the fixed title, link and description. */
  lemma GeneratedFeedIsHealthy(updates: seq<Updates.UpdateRecord>, existing: set<string>, prior: FileState<Document>,
                               dates: FeedMerge.Dates, ageDays: string -> Option<int>)
    ensures CheckFeedHealth(Parsed(FeedMerge.GenerateFeed(updates, existing, prior, dates)), ageDays).FeedHealthy?
  {
    var doc := FeedMerge.GenerateFeed(updates, existing, prior, dates);
    assert doc == FeedMerge.BuildFeed(FeedMerge.Merge(updates, existing, prior, FeedMerge.MaxFeedItems, dates), dates);
  }
}
