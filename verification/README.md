# Metro-timings feed pipeline and timetable, in Dafny

This project models the core of the Metro-timings repository. The
repository publishes an RSS 2.0 feed of Dhaka Metro notices and serves a
timetable page. The model covers:

- **Change detection** (`ChangeDetector`, from `check_for_new_content`). A
  refresh is forced weekly; the check proceeds when nothing could be
  fetched; otherwise it compares the content hash with the cached one and
  writes the cache.
- **Record construction** (`Updates`, from `fetch_metro_updates`). Covers
  the title prefix, the description fallback, link resolution and the
  identity policy: a permalink GUID, or a hash of `title-summary-source`.
  Date formats are tried in order and the first match wins. A default
  record keeps the feed from ever being empty.
- **The feed merge** (`FeedMerge`, from `generate_rss_feed`,
  `load_existing_feed_guids` and the main block).
  - Fresh records are filtered by GUID.
  - Old items fill the free slots in document order, without repeating a
    GUID, and each one is read back into a record.
  - The records are stably sorted newest first and cut to 50, then written
    as `<item>`s.
  - The main block's gate regenerates the feed only when some fetched GUID
    is new.
- **The feed validator** (`FeedValidator`, from `validate_feeds.py`). Covers
  the structural check, the content counters and the exit code.
- **The health check** (`HealthCheck`, from `health_check.py`). Covers the
  feed-health verdict, the level counters over the last 20 log lines, the
  three-way classification and the exit code.
- **The timetable page logic** (`Timetable`, from `script.js`). Covers
  `timeToMinutes`, `getTimeDifference`, `getNextTrains`, the status label
  of each listed train, `updateDayDisplay`, and the first and last train
  of each direction.

The parsed XML is in `RssDocument`: an element's text is `None` when the
element is absent and `Some("")` when it is empty. A file read from disk is
`Missing`, `Unparseable` or `Parsed(doc)`. Several things are parameters:
the clock, the hash functions, `urljoin`, the `strptime` formats, the
`strftime` that writes dates, the age in days of a date text, the remote
feed probe, and the page bodies fetched over HTTP. The generator reads the
clock anew for every scraped element and for every old item it reads
back, so each of those carries its own clock reading, in microseconds
since the epoch. The model does not assume that the readings increase.

Four behaviours of the code may surprise a reader; the model follows the
code in each.
- `validate_feed_content` fails when the document has no `<channel>`, since
  the `AttributeError` is caught. It does not pass every parseable file.
- Output GUIDs are guaranteed distinct when the fetched GUIDs are
  (`FeedMerge.MergeKeepsDistinctGuids`). Two fetched records sharing a GUID
  the previous feed lacks are both selected and, if both survive the cut
  to 50 items, both written; the validator then rejects the feed
  (`FeedValidator.RepeatedFreshGuidFailsValidation`).
- Over unchanged page bodies within a week, the change check skips a rerun
  whatever was published (`ChangeDetector.SecondRunSkips`). Once the change
  check lets the run proceed, a rerun over the same fetched records skips
  only when every fetched GUID was published by the run before, which
  happens when all of them were new and they fit in the feed
  (`FeedMerge.RerunSkips`).
- `getNextTrains` lists one of today's trains even when `count <= 0`. The
  push happens before the length check.

## Model

| member | source | states |
|---|---|---|
| ChangeDetector.ForceRefreshThreshold | generate_metro_rss.py:64-81 | a refresh is forced exactly when the cached `last_check` is at least 7 × 86400 seconds old (`timedelta.days` floors) |
| ChangeDetector.Combined | generate_metro_rss.py:97-110 | the concatenated content is empty exactly when every source failed or answered with an empty body |
| ChangeDetector.Check | generate_metro_rss.py:60-137 | a forced refresh proceeds without touching the cache; the run is skipped exactly when content was fetched and its digest equals the stored hash; the cache is rewritten, with the new digest and the current time, exactly when content was fetched and its digest differs |
| ChangeDetector.SecondRunSkips | generate_metro_rss.py:112-132 | a second run over identical content, less than a week after the run that wrote the cache, is skipped |
| Updates.ResolveLink | generate_metro_rss.py:188-196 | an absolute `href` is kept, a relative one is joined to the page URL with `urljoin`, and a missing or empty one becomes the page URL |
| Updates.ParseFirst | generate_metro_rss.py:207-222 | the result is the value of the first format that parses the text, its time of day taken from the element's clock reading, and none exactly when no format parses it |
| Updates.BuildRecord | generate_metro_rss.py:177-239 | no record exactly when the title is missing or empty; the title is `[name] title`; the description is the summary, or the title if the summary is empty; permalink exactly when the link is non-empty and differs from the page URL, in which case the GUID is the link, and otherwise the GUID is the hash of `title-summary-name`; the date is the first parsed format, else the clock reading taken for this element |
| Updates.GuidIsStable | generate_metro_rss.py:198-205 | the GUID and permalink flag depend only on title, summary, link and source, never on the date text, the formats or the clock |
| Updates.CollectSource | generate_metro_rss.py:175-243 | a source yields at most one record per element, each tagged with the source and prefixed with its name, and exactly one per element when every element has a title |
| Updates.CollectSourceBuildsTitled | generate_metro_rss.py:175-239 | a source contributes exactly one record per element with title text, in page order, and each is the record built from that element |
| Updates.UndatedRecordsKeepTheirReadings | generate_metro_rss.py:224-226 | each undated record carries its own element's clock reading, so when the clock advances between two undated elements the later one is newer |
| Updates.CollectAll | generate_metro_rss.py:143-247 | every collected record comes from one of the configured sources |
| Updates.CollectAllAppend | generate_metro_rss.py:143-247 | the sources are visited in configuration order: collecting two lists of pages gives the concatenation of their records, and one page gives that page's records |
| Updates.WithDefault | generate_metro_rss.py:249-264 | the result is never empty; an empty collection becomes the single default record, which has the fixed GUID, the feed link, is a permalink and is dated now; otherwise the collection is unchanged |
| FeedMerge.SelectNew | generate_metro_rss.py:310-318 | the new records are exactly the fetched records whose GUID is not in the previous feed, in input order |
| FeedMerge.SelectNewCounts | generate_metro_rss.py:313-316 | each new record is selected as many times as it was fetched and each known one never, so the selection's length is `new_items_added` |
| FeedMerge.GateMatchesSelection | generate_metro_rss.py:403-409 | the main block's "some fetched GUID is new" holds exactly when the merge would add at least one record |
| FeedMerge.SelectOldItems | generate_metro_rss.py:320-351 | at most `limit` old items are taken, in document order, each with a non-empty GUID not yet placed, and no GUID twice |
| FeedMerge.SelectOldIsPrefixOfEligible | generate_metro_rss.py:327-351 | the loop with its early `break` takes exactly the first `limit` eligible items |
| FeedMerge.EligibleCoversEveryGuid | generate_metro_rss.py:328-330 | every unplaced non-empty GUID of the previous feed appears among the eligible items |
| FeedMerge.ReadOld | generate_metro_rss.py:331-338 | a missing title, link or description reads back as `""`, the feed link or `""`; the permalink flag holds exactly when `isPermaLink` is `"true"` |
| FeedMerge.OldPubDate | generate_metro_rss.py:337-347 | the zoned format is tried first, then the naive format read as UTC, then the clock reading taken for that item; a missing or empty date is that reading |
| FeedMerge.OldRecords | generate_metro_rss.py:320-354 | old records are taken only when a slot is free and the previous feed parsed; they are then the first eligible items of the previous feed in document order, as many as there are free slots or eligible items, each read back with the next clock reading; their GUIDs are non-empty, distinct and not among the new records |
| FeedMerge.Combine | generate_metro_rss.py:310-354 | the combined list is the new records followed by the old records, and its GUIDs are distinct when the fetched GUIDs are |
| FeedMerge.InsertKeepsOrder | generate_metro_rss.py:356-357 | inserting a record into a newest-first list keeps it newest first |
| FeedMerge.SortNewestFirst | generate_metro_rss.py:356-357 | the sort is a permutation and its result is newest first |
| FeedMerge.SortIsStable | generate_metro_rss.py:356-357 | records with equal publication dates keep their relative order |
| FeedMerge.TruncateNewestFirst | generate_metro_rss.py:359-360 | cutting to the cap keeps the list newest first, keeps everything when it fits, and drops only records no newer than every kept record |
| FeedMerge.Merge | generate_metro_rss.py:310-360 | exactly `min(cap, combined)` records, newest first, drawn from the combined list; all of it when it fits; a dropped record is no newer than any kept one |
| FeedMerge.MergeKeepsTiesInOrder | generate_metro_rss.py:356-360 | of the combined records published at any one instant, the merge keeps a prefix in combined order, since the sort is stable and the cut takes the front |
| FeedMerge.CombinedRecordOrigin | generate_metro_rss.py:313-348 | every record of the combined list is a fetched record with a new GUID or an item of the previous feed read back |
| FeedMerge.MergedRecordOrigin | generate_metro_rss.py:310-360 | every merged record is a fetched record with a new GUID or an item of the previous feed read back |
| FeedMerge.MergeKeepsDistinctGuids | generate_metro_rss.py:310-360 | the merged feed repeats no GUID whenever the fetched records repeat none |
| FeedMerge.FittingRecordIsKept | generate_metro_rss.py:321-360 | when the new records fit, each of them survives the merge |
| FeedMerge.NewRecordsArePublished | generate_metro_rss.py:310-367 | when the new records fit in the feed, every new GUID is among those the next run reads back |
| FeedMerge.MergeExample | generate_metro_rss.py:310-360 | with one new record A dated 10, a previous feed holding B dated 9 and C dated 8, and room for two items, the merge is `[A, B]` and C is pruned |
| FeedMerge.ToItem | generate_metro_rss.py:361-366 | the written item carries the record's GUID, and its title and link are non-empty exactly when the record's are |
| FeedMerge.PermalinkRoundTrip | generate_metro_rss.py:335 | the permalink flag written as `str(flag).lower()` reads back unchanged |
| FeedMerge.RecordRoundTrip | generate_metro_rss.py:329-347 | a written record reads back equal, apart from its source, whenever the date format reads back what it wrote |
| FeedMerge.BuildFeed | generate_metro_rss.py:291-303 | the document has root `rss`, version `2.0`, and a channel with non-empty title, link and description holding the written records in order |
| FeedMerge.WrittenItems | generate_metro_rss.py:359-367 | every written item has a `pubDate` and a `<guid>` whose `isPermaLink` is `"true"` or `"false"`, and written GUID texts are distinct when the records' GUIDs are |
| FeedMerge.GenerateFeed | generate_metro_rss.py:288-367 | at most 50 items, each dated and carrying a `<guid isPermaLink>`, with distinct GUID texts whenever the fetched GUIDs are distinct |
| FeedMerge.GuidsOfItems | generate_metro_rss.py:277-280 | the loaded GUIDs are exactly the non-empty GUID texts of the items |
| FeedMerge.ExistingGuids | generate_metro_rss.py:266-286 | a missing or malformed previous feed contributes no GUIDs |
| FeedMerge.Run | generate_metro_rss.py:390-420 | the feed is regenerated exactly when the change check let the run proceed and some fetched GUID is new, and it is then the merge of the fetched records with the previous feed |
| FeedMerge.RerunSkips | generate_metro_rss.py:403-420 | after a run that published a batch of new records fitting in the feed, a run over the same records skips |
| RssDocument.CountRecent | validate_feeds.py:187-203 | the recent count never exceeds the number of items |
| RssDocument.CountRecentMonotone | health_check.py:106-123 | a wider age window counts at least as many recent items |
| FeedValidator.InvalidCount | validate_feeds.py:65-107 | no item is invalid exactly when every item has a non-empty title, link and GUID |
| FeedValidator.GuidList | validate_feeds.py:109-110 | when every item has a GUID, the list holds the GUID texts of the items in order |
| FeedValidator.MissingChannelElement | validate_feeds.py:49-55 | no required channel element is missing exactly when title, link and description are all non-empty |
| FeedValidator.ValidateStructure | validate_feeds.py:21-125 | a missing file, a parse error, a wrong root and a missing channel each fail with their own reason; a version other than 2.0 and an empty channel only warn |
| FeedValidator.ValidateItems | validate_feeds.py:65-118 | the items pass exactly when each is valid and no GUID text repeats; the warnings list each missing `pubDate` and description |
| FeedValidator.StructureIffWellFormed | validate_feeds.py:21-125 | the structural check passes exactly on documents with root `rss`, a channel with non-empty title, link and description, valid items and distinct GUIDs |
| FeedValidator.VersionOnlyWarns | validate_feeds.py:38-41 | the verdict does not depend on the version attribute |
| FeedValidator.EmptyChannelPasses | validate_feeds.py:57-63 | a well-rooted feed with a complete channel and no items passes with the "no items" warning |
| FeedValidator.CountHttpLinks | validate_feeds.py:217-223 | the valid-link count is at most the item count, with equality exactly when every link starts with `http://` or `https://` |
| FeedValidator.ValidateContent | validate_feeds.py:169-232 | the content check passes exactly when the file parses and has a channel; its counters are bounded by the item count; no duplicate titles are reported exactly when the non-empty titles are distinct |
| FeedValidator.EffectiveUrl | validate_feeds.py:245-247 | unless the remote check is skipped, there is a non-empty URL to probe |
| FeedValidator.Results | validate_feeds.py:249-262 | structure and content quality are always recorded, in that order, and accessibility is recorded exactly when the remote check is not skipped |
| FeedValidator.ExitCode | validate_feeds.py:269-281 | the exit code is 0 exactly when every recorded result passed, and 1 otherwise |
| FeedValidator.MainExitCode | validate_feeds.py:234-281 | the validator exits 0 exactly when structure and content pass and, unless skipped, the feed is reachable |
| FeedValidator.GeneratedFeedPasses | validate_feeds.py:21-125 | the generator's feed passes the structural check when fetched GUIDs are distinct and non-empty and titles and links are non-empty |
| FeedValidator.RepeatedFreshGuidFailsValidation | validate_feeds.py:109-115 | two fetched records sharing a new GUID make the generator write a feed the validator rejects |
| HealthCheck.CheckFeedHealth | health_check.py:66-151 | the feed is healthy exactly when the file parses, has a channel, and that channel has non-empty title, link and description; a missing file reports "RSS file not found"; recent items never exceed the item count |
| HealthCheck.Tail | health_check.py:271 | the tail is the last `min(20, n)` lines |
| HealthCheck.CountersBounded | health_check.py:277-283 | each line is counted under at most one level, so the three counters sum to at most the number of lines |
| HealthCheck.CheckRecentLogs | health_check.py:252-305 | a missing log and an empty log are reported as such; otherwise each counter is the number of tail lines of that level, where ERROR beats WARNING beats INFO, and together they are at most `min(20, lines)` |
| HealthCheck.CriticalIssues | health_check.py:329-343 | at most three critical issues, and none exactly when the feed file exists, the feed is healthy and the log tail holds no error |
| HealthCheck.WarningCount | health_check.py:339-340 | the only warning is remote inaccessibility |
| HealthCheck.Classify | health_check.py:345-352 | healthy without issues or warnings, healthy with warnings with warnings only, unhealthy with any critical issue |
| HealthCheck.ClassifyByChecks | health_check.py:328-352 | unhealthy exactly when the feed file is missing, the feed is unhealthy or the log tail holds an error; healthy exactly when, in addition, the remote feed is accessible |
| HealthCheck.ExitCode | health_check.py:376-386 | exit code 1 exactly for an unhealthy system, 0 otherwise |
| HealthCheck.MissingFeedIsDoublyCritical | health_check.py:333-337 | a missing feed file counts as two critical issues and makes the system unhealthy |
| HealthCheck.ValidFeedIsHealthy | health_check.py:125-134 | a feed the validator accepts is healthy, and, given the same item ages, its 7-day recent count never exceeds the validator's 30-day count |
| HealthCheck.GeneratedFeedIsHealthy | health_check.py:125-144 | the generator's feed always passes the feed check |
| Timetable.ToNumber | script.js:439 | a digit string is a non-negative number; anything else is NaN |
| Timetable.TimeToMinutesOfClock | script.js:438-441 | `"H:M"` with digit strings H and M is `H * 60 + M` minutes |
| Timetable.GetTimeDifference | script.js:443-447 | the difference is NaN exactly when either time is not a clock time; otherwise it is the minutes from now to the train, clamped at 0 for a train already gone |
| Timetable.TodayTrains | script.js:415-425 | the scan returns the first `max(count, 1)` of today's departures not earlier than now, in timetable order |
| Timetable.GetNextTrains | script.js:415-436 | the result is today's later departures, cut at `max(count, 1)`, then, when fewer than `count` were found, the first `count - found` departures marked `(next day)` |
| Timetable.NextTrainsShape | script.js:415-436 | the listed trains are today's later departures followed by next-day entries from the start of the timetable; at most `count` entries for positive `count`, and exactly `count` when the timetable has that many departures |
| Timetable.FirstListedBeforeService | script.js:419-425 | before the first departure, the first listed train is the first train of the day |
| Timetable.AfterServiceOnlyNextDay | script.js:427-433 | after the last departure, only tomorrow's first `count` departures are listed |
| Timetable.NextDayEntryShowsNaN | script.js:396-402 | the page labels every non-first next-day entry "in NaN min" |
| Timetable.MinutesUntil | script.js:443-447 | the minutes until a listed entry are never negative |
| Timetable.StatusOfNextDayEntry | script.js:396-402 | with next-day entries measured to tomorrow's departure, a next-day entry shows the minutes until that departure |
| Timetable.StatusOfTodayEntry | script.js:396-402 | for an entry of today, the corrected label is the label the page shows |
| Timetable.DayDisplay | script.js:319-331 | the display shows the weekday's name, and the holiday style is on exactly on Friday (day 5) |
| Timetable.ShowTerminalTrains | script.js:456-497 | no station selected and a station without a timetable each give their own alert; otherwise one entry per direction with its first (or last) departure, undefined exactly for an empty list |

## Left out

- HTTP: fetching the source pages, the three attempts with linear backoff, and the status codes. The fetched page bodies, or their absence, are inputs. Once the last attempt fails, the loop's `continue` does not skip parsing, so a page from an earlier source, or none, may be parsed. The model has no responses and so does not model that.
- HTML selection with BeautifulSoup: each source contributes the title, summary, `href` and date text its selectors found.
- XML parsing and serialisation with ElementTree and minidom: documents are already parsed, and the pretty-printing fallback is not modelled. The channel's `language`, `copyright`, `atom:link`, `generator` and `version` elements are not modelled, since no code reads them back.
- `strptime`, `strftime`, `parsedate_to_datetime`, the UTC+6 composition of a scraped date with the time of day of the clock reading, and time zones in general: these are injected functions on microseconds since the epoch, and a scraped-date format receives the element's clock reading.
- The SHA-1 and MD5 digests: uninterpreted deterministic functions.
- Logging, printing, the JSON health report, and writing the feed, cache and report files. Only what is written is modelled: the cache value and the feed document.
- `check_for_new_content`'s handling of unexpected exceptions, a `last_check` without a zone offset (a `TypeError` that escapes the function), and a cache write that fails.
- Per-element exceptions in `fetch_metro_updates`: an element either yields a record or is skipped for lack of a title.
- A feed with several `<channel>` elements: the generator's `./channel/item` paths read the items of every channel, while the model's document holds a single channel.
- A log file that exists but cannot be read: `check_recent_logs` then reports the error without counters. The classification reads its error count as 0, exactly as for an empty log.
- `check_local_files` beyond the feed file's existence. `check_cache_status` only prints, and the classification does not read it.
- `check_remote_accessibility` and `validate_feed_accessibility`: whether the published feed counts as accessible is an unconstrained input. It covers every case of the code. A remote feed that parses but has no channel counts as accessible. When the remote feed has a channel, a local feed that does not parse or has no channel makes the check report the remote feed inaccessible, through the caught exception.
- Item ages: the validator compares a `pubDate` stripped of its zone with naive local time, while the health check compares zone-aware dates. `HealthCheck.ValidFeedIsHealthy` relates the two recent counts only under one shared age function.
- The hours since the last build in the health check: a floating-point quantity that affects only printed messages.
- HealthCheck.CheckFeedHealth: the error text for a parse failure omits the parser's message, and `last_build` does not distinguish an absent element from an empty one.
- Timetable.ToNumber: only digit strings are numbers; JavaScript's `Number` also accepts whitespace, signs, decimals and exponents, which a timetable does not contain.
- The DOM, the clock display, dropdowns, animations, scrolling, the arrival message's timers and the missing-element guard of `updateDayDisplay`.
- The order of `Object.keys` over a station's directions: a station's timetable is a sequence of (direction, departures) pairs.

## Findings

| source | as written | input that shows it | evidently intended | confidence | as-written member | corrected member |
|---|---|---|---|---|---|---|
| script.js:401-402 | every entry but the first is labelled with `getTimeDifference(currentTime, time)`, and for a next-day entry `time` is `"HH:MM (next day)"`, whose minutes part `Number` reads as NaN | times `["06:30", "06:40"]` at `"23:00"`: the list is `06:30 (next day)`, `06:40 (next day)`, and the second is labelled "in NaN min" | the minutes until that departure tomorrow (460 for the example) | high; not executed | Timetable.NextDayEntryShowsNaN | Timetable.StatusOfNextDayEntry |
