/** The change-detection gate of `check_for_new_content`: a weekly forced
    refresh, a fail-open rule when nothing could be fetched, and a content
    hash compared with the one stored in the cache file. The digest is an
    uninterpreted deterministic function and "now" is a parameter, in epoch
    seconds. This clock is never compared with the microsecond readings
    that date the feed's records. */
module ChangeDetector {
  import opened Common
  import opened RssDocument

  /** The cache file's JSON object; a key that is absent (or a
      `last_check` that does not parse) is `None`. */
  datatype Cache = Cache(contentHash: Option<string>, lastCheck: Option<int>)

  /** The verdict and, when the check overwrote the cache, what it wrote. */
  datatype Decision = Decision(proceed: bool, store: Option<Cache>)

  const SecondsPerDay := 86400

  /** Days after which a refresh is forced whatever the content. */
  const RefreshDays := 7

  /** `timedelta.days`: whole days elapsed, rounded down (Python floors,
      and Dafny's division by a positive divisor floors as well). */
  function ElapsedDays(now: int, since: int): int {
    (now - since) / SecondsPerDay
  }

  /** The cache file holds a `last_check` at least seven days old. */
  predicate ForceRefresh(cache: FileState<Cache>, now: int) {
    cache.Parsed? && cache.doc.lastCheck.Some? && ElapsedDays(now, cache.doc.lastCheck.value) >= RefreshDays
  }

  /** The forced-refresh threshold in seconds: seven days, not six and a half. */
  lemma ForceRefreshThreshold(cache: FileState<Cache>, now: int)
    requires cache.Parsed? && cache.doc.lastCheck.Some?
    ensures ForceRefresh(cache, now) <==> now - cache.doc.lastCheck.value >= RefreshDays * SecondsPerDay
  {
    var d := now - cache.doc.lastCheck.value;
    if d >= RefreshDays * SecondsPerDay {
      assert d / SecondsPerDay >= RefreshDays;
    } else {
      assert d / SecondsPerDay < RefreshDays;
    }
  }

  /** Page bodies of the sources answered with status 200, concatenated in
      source order; `None` for a source whose fetch failed. */
  function Combined(pages: seq<Option<string>>): (r: string)
    ensures |r| == 0 <==> forall k | 0 <= k < |pages| :: pages[k].None? || pages[k].value == ""
  {
    if |pages| == 0 then ""
    else
      var rest := Combined(pages[1..]);
      assert forall k | 0 <= k < |pages[1..]| :: pages[1..][k] == pages[k + 1];
      pages[0].GetOr("") + rest
  }

  /** The stored hash: absent when the cache file is missing or unreadable. */
  function StoredHash(cache: FileState<Cache>): Option<string> {
    if cache.Parsed? then cache.doc.contentHash else None
  }

  /** `check_for_new_content`. */
  function Check(cache: FileState<Cache>, pages: seq<Option<string>>, now: int, digest: string -> string): (d: Decision)
    ensures ForceRefresh(cache, now) ==> d.proceed && d.store.None?
    ensures !d.proceed <==>
      !ForceRefresh(cache, now) && Combined(pages) != "" && StoredHash(cache) == Some(digest(Combined(pages)))
    ensures d.store.Some? <==>
      !ForceRefresh(cache, now) && Combined(pages) != "" && StoredHash(cache) != Some(digest(Combined(pages)))
    ensures d.store.Some? ==> d.proceed && d.store.value == Cache(Some(digest(Combined(pages))), Some(now))
  {
    if ForceRefresh(cache, now) then Decision(true, None)
    else
      var content := Combined(pages);
      if content == "" then Decision(true, None)
      else
        var h := digest(content);
        if StoredHash(cache) == Some(h) then Decision(false, None)
        else Decision(true, Some(Cache(Some(h), Some(now))))
  }

  /** Two consecutive runs over identical page content: the second, reading
      the cache the first one wrote and less than a week later, skips. */
  lemma {:induction false} SecondRunSkips(cache: FileState<Cache>, pages: seq<Option<string>>,
                                          first: int, second: int, digest: string -> string)
    requires Check(cache, pages, first, digest).store.Some?
    requires first <= second < first + RefreshDays * SecondsPerDay
    ensures !Check(Parsed(Check(cache, pages, first, digest).store.value), pages, second, digest).proceed
  {
    var written := Check(cache, pages, first, digest).store.value;
    ForceRefreshThreshold(Parsed(written), second);
  }
}
