/** The feed merge of `generate_rss_feed` and the new-GUID gate of the
    generator's main block: fetched records are filtered against the GUIDs of
    the previous feed, old items of the previous feed fill the remaining
    slots in document order without repeating a GUID, the union is stably
    sorted newest first and cut to the feed's capacity, and each record is
    written as an RSS 2.0 `<item>` whose `<guid isPermaLink>` attribute is
    the lower-case `"true"`/`"false"`. */
module FeedMerge {
  import opened Common
  import opened RssDocument
  import opened Updates

  /** `MAX_FEED_ITEMS`. */
  const MaxFeedItems: nat := 50

  const FeedTitle := "Dhaka Metro & Public Transport Updates"
  const FeedDescription := "Latest updates on Dhaka Metro Rail (MRT), public transport, and transit announcements."

  /** The clock and the date conversions the generator uses: "now" (the
      reading written as `lastBuildDate`), the readings taken for the old
      items read back (`clock(k)` for the `k`-th of them, since the clock
      is read once per old item), the two `strptime` formats tried on an
      old `pubDate` (with and without the zone offset) and the `strftime`
      that writes a `pubDate`. */
  datatype Dates = Dates(
    now: int,
    clock: nat -> int,
    parseZoned: string -> Option<int>,
    parseNaive: string -> Option<int>,
    format: int -> string)

  /** All GUIDs of `rs` are pairwise different. */
  ghost predicate DistinctGuids(rs: seq<UpdateRecord>) {
    forall i, j | 0 <= i < j < |rs| :: rs[i].guid != rs[j].guid
  }

  /** Publication dates do not increase along `rs`. */
  ghost predicate NewestFirst(rs: seq<UpdateRecord>) {
    forall i, j | 0 <= i < j < |rs| :: rs[i].pubDate >= rs[j].pubDate
  }

  /** The set of GUIDs of `rs`. */
  function GuidSet(rs: seq<UpdateRecord>): (r: set<string>)
    ensures forall g :: g in r <==> exists k | 0 <= k < |rs| :: rs[k].guid == g
  {
    if |rs| == 0 then {}
    else
      var rest := GuidSet(rs[1..]);
      assert forall k | 0 <= k < |rs[1..]| :: rs[1..][k] == rs[k + 1];
      assert forall k | 1 <= k < |rs| :: rs[k] == rs[1..][k - 1];
      {rs[0].guid} + rest
  }

  // ---------------------------------------------------------------------
  // Fresh records

  /** The fetched records whose GUID the previous feed does not have, in
      input order; their number is `new_items_added`. */
  function SelectNew(updates: seq<UpdateRecord>, existing: set<string>): (r: seq<UpdateRecord>)
    ensures |r| <= |updates|
    ensures forall u :: u in r <==> u in updates && u.guid !in existing
    ensures Subseq(r, updates)
  {
    if |updates| == 0 then []
    else
      var rest := SelectNew(updates[1..], existing);
      assert forall u | u in updates :: u == updates[0] || u in updates[1..];
      if updates[0].guid !in existing then [updates[0]] + rest else rest
  }

  /** The selection keeps every new record as many times as it was fetched
      and drops every known one, so its length is `new_items_added`. */
  lemma {:induction false} SelectNewCounts(updates: seq<UpdateRecord>, existing: set<string>, u: UpdateRecord)
    ensures multiset(SelectNew(updates, existing))[u] == if u.guid in existing then 0 else multiset(updates)[u]
    decreases |updates|
  {
    if |updates| > 0 {
      SelectNewCounts(updates[1..], existing, u);
      assert updates == [updates[0]] + updates[1..];
    }
  }

  /** Every element of a subsequence is an element of the sequence. */
  lemma {:induction false} SubseqMembers<T>(a: seq<T>, b: seq<T>)
    requires Subseq(a, b)
    ensures forall x | x in a :: x in b
    decreases |b|
  {
    if |a| > 0 {
      if a[0] == b[0] && Subseq(a[1..], b[1..]) {
        SubseqMembers(a[1..], b[1..]);
        assert forall x | x in a :: x == a[0] || x in a[1..];
      } else {
        SubseqMembers(a, b[1..]);
      }
    }
  }

  /** Leaving records out cannot create a repeated GUID. */
  lemma {:induction false} SubseqKeepsDistinctGuids(a: seq<UpdateRecord>, b: seq<UpdateRecord>)
    requires Subseq(a, b) && DistinctGuids(b)
    ensures DistinctGuids(a)
    decreases |b|
  {
    if |a| > 0 {
      assert DistinctGuids(b[1..]) by {
        forall i, j | 0 <= i < j < |b[1..]| ensures b[1..][i].guid != b[1..][j].guid {
          assert b[1..][i] == b[i + 1] && b[1..][j] == b[j + 1];
        }
      }
      if a[0] == b[0] && Subseq(a[1..], b[1..]) {
        SubseqKeepsDistinctGuids(a[1..], b[1..]);
        SubseqMembers(a[1..], b[1..]);
        forall i, j | 0 <= i < j < |a| ensures a[i].guid != a[j].guid {
          assert a[j] == a[1..][j - 1];
          assert a[j] in a[1..];
          var m :| 0 <= m < |b[1..]| && b[1..][m] == a[j];
          assert b[1..][m] == b[m + 1];
          if i > 0 {
            assert a[i] == a[1..][i - 1];
          }
        }
      } else {
        SubseqKeepsDistinctGuids(a, b[1..]);
      }
    }
  }

  /** The generator's gate: some fetched GUID is not in the previous feed. */
  predicate HasNewGuid(fetched: seq<UpdateRecord>, existing: set<string>) {
    exists k | 0 <= k < |fetched| :: fetched[k].guid !in existing
  }

  /** The gate opens exactly when the merge would add at least one record. */
  lemma GateMatchesSelection(fetched: seq<UpdateRecord>, existing: set<string>)
    ensures HasNewGuid(fetched, existing) <==> |SelectNew(fetched, existing)| > 0
  {
    var r := SelectNew(fetched, existing);
    if HasNewGuid(fetched, existing) {
      var k :| 0 <= k < |fetched| && fetched[k].guid !in existing;
      assert fetched[k] in r;
    }
    if |r| > 0 {
      assert r[0] in fetched;
    }
  }

  // ---------------------------------------------------------------------
  // Old items of the previous feed

  /** The old items taken, in document order: an item is skipped when its
      GUID is missing or empty or already placed (a new record or an
      earlier old item); taking stops after `limit` items. */
  function SelectOldItems(olds: seq<Item>, placed: set<string>, limit: nat): (r: seq<Item>)
    ensures |r| <= limit
    ensures |r| <= |olds|
    ensures Subseq(r, olds)
    ensures forall k | 0 <= k < |r| :: HasGuid(r[k]) && GuidText(r[k]) !in placed
    ensures forall i, j | 0 <= i < j < |r| :: GuidText(r[i]) != GuidText(r[j])
  {
    if |olds| == 0 || limit == 0 then []
    else if HasGuid(olds[0]) && GuidText(olds[0]) !in placed then
      var g := GuidText(olds[0]);
      var rest := SelectOldItems(olds[1..], placed + {g}, limit - 1);
      [olds[0]] + rest
    else
      SelectOldItems(olds[1..], placed, limit)
  }

  /** Reference definition without the limit: every item whose GUID is
      non-empty and not yet placed, first occurrence of each GUID. */
  function Eligible(olds: seq<Item>, placed: set<string>): (r: seq<Item>)
    ensures forall k | 0 <= k < |r| :: HasGuid(r[k])
  {
    if |olds| == 0 then []
    else if HasGuid(olds[0]) && GuidText(olds[0]) !in placed then
      [olds[0]] + Eligible(olds[1..], placed + {GuidText(olds[0])})
    else
      Eligible(olds[1..], placed)
  }

  /** The loop with its early `break` takes exactly the first `limit`
      eligible items. */
  lemma {:induction false} SelectOldIsPrefixOfEligible(olds: seq<Item>, placed: set<string>, limit: nat)
    ensures SelectOldItems(olds, placed, limit) == Take(Eligible(olds, placed), limit)
    decreases |olds|
  {
    if |olds| == 0 || limit == 0 {
    } else if HasGuid(olds[0]) && GuidText(olds[0]) !in placed {
      var g := GuidText(olds[0]);
      SelectOldIsPrefixOfEligible(olds[1..], placed + {g}, limit - 1);
      var e := Eligible(olds[1..], placed + {g});
      assert Eligible(olds, placed) == [olds[0]] + e;
      TakeCons(olds[0], e, limit);
    } else {
      SelectOldIsPrefixOfEligible(olds[1..], placed, limit);
    }
  }

  /** Taking from a sequence with a known head. */
  lemma TakeCons<T>(x: T, s: seq<T>, n: nat)
    requires n > 0
    ensures Take([x] + s, n) == [x] + Take(s, n - 1)
  {
    if n - 1 < |s| {
      assert ([x] + s)[..n] == [x] + s[..n - 1];
    }
  }

  /** No eligible GUID is lost: every old item with a non-empty GUID that is
      not placed has its GUID text among the eligible items. */
  lemma {:induction false} EligibleCoversEveryGuid(olds: seq<Item>, placed: set<string>, k: nat)
    requires k < |olds| && HasGuid(olds[k]) && GuidText(olds[k]) !in placed
    ensures exists m | 0 <= m < |Eligible(olds, placed)| ::
      HasGuid(Eligible(olds, placed)[m]) && GuidText(Eligible(olds, placed)[m]) == GuidText(olds[k])
    decreases |olds|
  {
    var e := Eligible(olds, placed);
    if HasGuid(olds[0]) && GuidText(olds[0]) !in placed {
      var g := GuidText(olds[0]);
      if k == 0 || GuidText(olds[k]) == g {
        assert HasGuid(e[0]) && GuidText(e[0]) == GuidText(olds[k]);
      } else {
        var e' := Eligible(olds[1..], placed + {g});
        EligibleCoversEveryGuid(olds[1..], placed + {g}, k - 1);
        var m :| 0 <= m < |e'| && HasGuid(e'[m]) && GuidText(e'[m]) == GuidText(olds[1..][k - 1]);
        assert e[m + 1] == e'[m];
      }
    } else {
      var e' := Eligible(olds[1..], placed);
      EligibleCoversEveryGuid(olds[1..], placed, k - 1);
      var m :| 0 <= m < |e'| && HasGuid(e'[m]) && GuidText(e'[m]) == GuidText(olds[1..][k - 1]);
      assert e[m] == e'[m];
    }
  }

  /** Reading one old item back into a record: a missing title, link or
      description becomes `""`, `FeedLink` and `""`; the permalink flag is
      `isPermaLink == "true"` with `"false"` as the default; the date comes
      from the zoned format, else the naive format read as UTC, else the
      clock reading `at` taken for this item. */
  function ReadOld(it: Item, dates: Dates, at: int): (r: UpdateRecord)
    requires HasGuid(it)
    ensures r.guid == GuidText(it)
    ensures r.title == it.title.GetOr("") && r.link == it.link.GetOr(FeedLink) && r.description == it.description.GetOr("")
    ensures r.isPermalink <==> it.guid.value.isPermaLink == Some("true")
    ensures r.source.None?
  {
    UpdateRecord(
      it.title.GetOr(""),
      it.link.GetOr(FeedLink),
      GuidText(it),
      it.guid.value.isPermaLink.GetOr("false") == "true",
      OldPubDate(it.pubDate, dates, at),
      it.description.GetOr(""),
      None)
  }

  /** The publication date of an old item. */
  function OldPubDate(text: Option<string>, dates: Dates, at: int): (t: int)
    ensures !HasText(text) ==> t == at
    ensures HasText(text) && dates.parseZoned(text.value).Some? ==> t == dates.parseZoned(text.value).value
    ensures HasText(text) && dates.parseZoned(text.value).None? && dates.parseNaive(text.value).Some? ==>
      t == dates.parseNaive(text.value).value
    ensures HasText(text) && dates.parseZoned(text.value).None? && dates.parseNaive(text.value).None? ==>
      t == at
  {
    if HasText(text) then
      match dates.parseZoned(text.value)
      case Some(t) => t
      case None => dates.parseNaive(text.value).GetOr(at)
    else at
  }

  /** The records rebuilt from the selected old items, in the same order;
      the item at position `k` is read with the clock reading `from + k`. */
  function ReadOldItems(items: seq<Item>, dates: Dates, from: nat): (r: seq<UpdateRecord>)
    requires forall k | 0 <= k < |items| :: HasGuid(items[k])
    ensures |r| == |items|
    ensures forall k | 0 <= k < |r| :: r[k] == ReadOld(items[k], dates, dates.clock(from + k))
  {
    if |items| == 0 then []
    else [ReadOld(items[0], dates, dates.clock(from))] + ReadOldItems(items[1..], dates, from + 1)
  }

  // ---------------------------------------------------------------------
  // Merge, sort and truncate

  /** `x` is an item of the previous feed read back with one of the clock
      readings taken for old items. */
  predicate ReadBack(x: UpdateRecord, prior: FileState<Document>, dates: Dates) {
    && prior.Parsed?
    && exists i, m | 0 <= i < |ItemsOf(prior.doc)| && 0 <= m < |ItemsOf(prior.doc)| ::
         HasGuid(ItemsOf(prior.doc)[i]) && x == ReadOld(ItemsOf(prior.doc)[i], dates, dates.clock(m))
  }

  /** The old items read back from the previous feed to fill the slots the
      new records leave free: none unless there is a free slot and the
      previous feed could be parsed, and otherwise the first eligible items
      of the previous feed in document order, as many as there are free
      slots or eligible items. */
  function OldRecords(added: seq<UpdateRecord>, prior: FileState<Document>, cap: nat, dates: Dates): (r: seq<UpdateRecord>)
    ensures |r| <= Max(0, cap - |added|)
    ensures |added| >= cap || !prior.Parsed? ==> r == []
    ensures forall k | 0 <= k < |r| :: r[k].source.None? && r[k].guid != "" && r[k].guid !in GuidSet(added)
    ensures DistinctGuids(r)
    ensures prior.Parsed? && cap > |added| ==>
      && |r| == Min(cap - |added|, |Eligible(ItemsOf(prior.doc), GuidSet(added))|)
      && r == ReadOldItems(Take(Eligible(ItemsOf(prior.doc), GuidSet(added)), cap - |added|), dates, 0)
    ensures forall k | 0 <= k < |r| :: ReadBack(r[k], prior, dates)
  {
    var slots := cap - |added|;
    if slots > 0 && prior.Parsed? then
      var items := SelectOldItems(ItemsOf(prior.doc), GuidSet(added), slots);
      SelectOldIsPrefixOfEligible(ItemsOf(prior.doc), GuidSet(added), slots);
      var r := ReadOldItems(items, dates, 0);
      ReadOldKeepsGuids(items, GuidSet(added), dates);
      SelectedAreReadBack(items, prior, dates);
      r
    else []
  }

  /** Reading items back keeps their GUID texts: non-empty, unplaced and
      pairwise distinct when the items' are. */
  lemma ReadOldKeepsGuids(items: seq<Item>, placed: set<string>, dates: Dates)
    requires forall k | 0 <= k < |items| :: HasGuid(items[k]) && GuidText(items[k]) !in placed
    requires forall i, j | 0 <= i < j < |items| :: GuidText(items[i]) != GuidText(items[j])
    ensures forall k | 0 <= k < |items| ::
      var x := ReadOldItems(items, dates, 0)[k]; x.source.None? && x.guid != "" && x.guid !in placed
    ensures DistinctGuids(ReadOldItems(items, dates, 0))
  {
    var r := ReadOldItems(items, dates, 0);
    assert forall k | 0 <= k < |r| :: r[k].guid == GuidText(items[k]);
  }

  /** Old items taken from the previous feed, read back, are `ReadBack`. */
  lemma SelectedAreReadBack(items: seq<Item>, prior: FileState<Document>, dates: Dates)
    requires prior.Parsed? && Subseq(items, ItemsOf(prior.doc))
    requires forall k | 0 <= k < |items| :: HasGuid(items[k])
    ensures forall k | 0 <= k < |items| :: ReadBack(ReadOldItems(items, dates, 0)[k], prior, dates)
  {
    var r := ReadOldItems(items, dates, 0);
    SubseqMembers(items, ItemsOf(prior.doc));
    SubseqLength(items, ItemsOf(prior.doc));
    forall k | 0 <= k < |items| ensures ReadBack(r[k], prior, dates) {
      assert items[k] in ItemsOf(prior.doc);
      var i :| 0 <= i < |ItemsOf(prior.doc)| && ItemsOf(prior.doc)[i] == items[k];
      assert HasGuid(ItemsOf(prior.doc)[i]) && r[k] == ReadOld(ItemsOf(prior.doc)[i], dates, dates.clock(k));
    }
  }

  /** A subsequence is no longer than the sequence. */
  lemma {:induction false} SubseqLength<T>(a: seq<T>, b: seq<T>)
    requires Subseq(a, b)
    ensures |a| <= |b|
    decreases |b|
  {
    if |a| > 0 {
      if a[0] == b[0] && Subseq(a[1..], b[1..]) {
        SubseqLength(a[1..], b[1..]);
      } else {
        SubseqLength(a, b[1..]);
      }
    }
  }

  /** The merged list before sorting: the new records in input order, then
      the old records. */
  function Combine(updates: seq<UpdateRecord>, existing: set<string>, prior: FileState<Document>,
                   cap: nat, dates: Dates): (r: seq<UpdateRecord>)
    ensures |SelectNew(updates, existing)| <= |r|
    ensures r[..|SelectNew(updates, existing)|] == SelectNew(updates, existing)
    ensures r[|SelectNew(updates, existing)|..] == OldRecords(SelectNew(updates, existing), prior, cap, dates)
    ensures DistinctGuids(updates) ==> DistinctGuids(r)
  {
    var added := SelectNew(updates, existing);
    var kept := OldRecords(added, prior, cap, dates);
    var r := added + kept;
    assert r[..|added|] == added;
    assert DistinctGuids(updates) ==> DistinctGuids(r) by {
      if DistinctGuids(updates) {
        SubseqKeepsDistinctGuids(added, updates);
        AppendKeepsDistinctGuids(added, kept);
      }
    }
    r
  }

  /** Appending records whose GUIDs are distinct and all new keeps the GUIDs
      distinct. */
  lemma AppendKeepsDistinctGuids(added: seq<UpdateRecord>, kept: seq<UpdateRecord>)
    requires DistinctGuids(added) && DistinctGuids(kept)
    requires forall k | 0 <= k < |kept| :: kept[k].guid !in GuidSet(added)
    ensures DistinctGuids(added + kept)
  {
    var r := added + kept;
    forall i, j | 0 <= i < j < |r| ensures r[i].guid != r[j].guid {
      if j >= |added| && i < |added| {
        assert r[j] == kept[j - |added|];
        assert r[i].guid in GuidSet(added);
      } else if i >= |added| {
        assert r[i] == kept[i - |added|] && r[j] == kept[j - |added|];
      }
    }
  }

  /** Place `x` after every record strictly newer than it and before all
      others: an insertion step of a stable newest-first sort. */
  function Insert(x: UpdateRecord, s: seq<UpdateRecord>): (r: seq<UpdateRecord>)
    ensures multiset(r) == multiset(s) + multiset{x}
    ensures forall k | 0 <= k < |r| :: r[k] == x || r[k] in s
  {
    if |s| == 0 || s[0].pubDate <= x.pubDate then [x] + s
    else
      assert s == [s[0]] + s[1..];
      var rest := Insert(x, s[1..]);
      assert forall k | 0 <= k < |rest| :: rest[k] == x || rest[k] in s;
      [s[0]] + rest
  }

  lemma {:induction false} InsertKeepsOrder(x: UpdateRecord, s: seq<UpdateRecord>)
    requires NewestFirst(s)
    ensures NewestFirst(Insert(x, s))
    decreases |s|
  {
    if |s| > 0 && s[0].pubDate > x.pubDate {
      var rest := Insert(x, s[1..]);
      assert NewestFirst(s[1..]) by {
        forall i, j | 0 <= i < j < |s[1..]| ensures s[1..][i].pubDate >= s[1..][j].pubDate {
          assert s[1..][i] == s[i + 1] && s[1..][j] == s[j + 1];
        }
      }
      InsertKeepsOrder(x, s[1..]);
      forall k | 0 <= k < |rest| ensures s[0].pubDate >= rest[k].pubDate {
        if rest[k] != x {
          var m :| 0 <= m < |s[1..]| && s[1..][m] == rest[k];
          assert s[1..][m] == s[m + 1];
        }
      }
      var r := [s[0]] + rest;
      assert Insert(x, s) == r;
      forall i, j | 0 <= i < j < |r| ensures r[i].pubDate >= r[j].pubDate {
        if i > 0 {
          assert r[i] == rest[i - 1] && r[j] == rest[j - 1];
        } else {
          assert r[j] == rest[j - 1];
        }
      }
    }
  }

  /** `list.sort(key=pub_date, reverse=True)`: a permutation, newest first. */
  function SortNewestFirst(s: seq<UpdateRecord>): (r: seq<UpdateRecord>)
    ensures multiset(r) == multiset(s)
    ensures NewestFirst(r)
  {
    if |s| == 0 then []
    else
      assert s == [s[0]] + s[1..];
      var rest := SortNewestFirst(s[1..]);
      InsertKeepsOrder(s[0], rest);
      Insert(s[0], rest)
  }

  /** The records of `s` published at instant `t`, in order. */
  function PublishedAt(s: seq<UpdateRecord>, t: int): seq<UpdateRecord> {
    if |s| == 0 then []
    else (if s[0].pubDate == t then [s[0]] else []) + PublishedAt(s[1..], t)
  }

  lemma {:induction false} PublishedAtAppend(a: seq<UpdateRecord>, b: seq<UpdateRecord>, t: int)
    ensures PublishedAt(a + b, t) == PublishedAt(a, t) + PublishedAt(b, t)
    decreases |a|
  {
    if |a| == 0 {
      assert a + b == b;
    } else {
      assert (a + b)[0] == a[0];
      assert (a + b)[1..] == a[1..] + b;
      PublishedAtAppend(a[1..], b, t);
    }
  }

  lemma {:induction false} InsertIsStable(x: UpdateRecord, s: seq<UpdateRecord>, t: int)
    ensures PublishedAt(Insert(x, s), t) == (if x.pubDate == t then [x] else []) + PublishedAt(s, t)
    decreases |s|
  {
    if |s| == 0 || s[0].pubDate <= x.pubDate {
      PublishedAtAppend([x], s, t);
      PublishedAtSingle(x, t);
    } else {
      InsertIsStable(x, s[1..], t);
      PassNewer(x, s[0], Insert(x, s[1..]), s[1..], t);
      assert s == [s[0]] + s[1..];
    }
  }

  /** Stepping past a strictly newer record commutes with selecting by date. */
  lemma PassNewer(x: UpdateRecord, newer: UpdateRecord, placed: seq<UpdateRecord>, rest: seq<UpdateRecord>, t: int)
    requires newer.pubDate > x.pubDate
    requires PublishedAt(placed, t) == (if x.pubDate == t then [x] else []) + PublishedAt(rest, t)
    ensures PublishedAt([newer] + placed, t) == (if x.pubDate == t then [x] else []) + PublishedAt([newer] + rest, t)
  {
    PublishedAtAppend([newer], placed, t);
    PublishedAtAppend([newer], rest, t);
    PublishedAtSingle(newer, t);
  }

  lemma PublishedAtSingle(x: UpdateRecord, t: int)
    ensures PublishedAt([x], t) == if x.pubDate == t then [x] else []
  {
    assert [x][1..] == [];
  }

  /** The sort is stable: records with equal publication dates keep their
      relative order. */
  lemma {:induction false} SortIsStable(s: seq<UpdateRecord>, t: int)
    ensures PublishedAt(SortNewestFirst(s), t) == PublishedAt(s, t)
    decreases |s|
  {
    if |s| > 0 {
      SortIsStable(s[1..], t);
      InsertIsStable(s[0], SortNewestFirst(s[1..]), t);
    }
  }

  /** Cutting a newest-first list to `cap` keeps it newest first, keeps
      everything when it fits, and drops only records no newer than any
      record kept. */
  lemma TruncateNewestFirst(sorted: seq<UpdateRecord>, cap: nat)
    requires NewestFirst(sorted)
    ensures NewestFirst(Take(sorted, cap))
    ensures multiset(Take(sorted, cap)) <= multiset(sorted)
    ensures |sorted| <= cap ==> Take(sorted, cap) == sorted
    ensures forall x | x in multiset(sorted) - multiset(Take(sorted, cap)) ::
      forall k | 0 <= k < |Take(sorted, cap)| :: Take(sorted, cap)[k].pubDate >= x.pubDate
  {
    var r := Take(sorted, cap);
    var rest := sorted[|r|..];
    assert sorted == r + rest;
    assert multiset(sorted) == multiset(r) + multiset(rest);
    forall x | x in multiset(sorted) - multiset(r)
      ensures forall k | 0 <= k < |r| :: r[k].pubDate >= x.pubDate
    {
      assert x in multiset(rest);
      var m :| 0 <= m < |rest| && rest[m] == x;
      forall k | 0 <= k < |r| ensures r[k].pubDate >= x.pubDate {
        assert r[k] == sorted[k] && rest[m] == sorted[|r| + m];
      }
    }
  }

  /** The records that go into the feed: the combined list sorted newest
      first and cut to `cap`. Truncation keeps everything when the combined
      list fits, and otherwise drops only records no newer than any kept. */
  function Merge(updates: seq<UpdateRecord>, existing: set<string>, prior: FileState<Document>,
                 cap: nat, dates: Dates): (r: seq<UpdateRecord>)
    ensures |r| == Min(cap, |Combine(updates, existing, prior, cap, dates)|)
    ensures NewestFirst(r)
    ensures multiset(r) <= multiset(Combine(updates, existing, prior, cap, dates))
    ensures |Combine(updates, existing, prior, cap, dates)| <= cap ==>
      multiset(r) == multiset(Combine(updates, existing, prior, cap, dates))
    ensures forall x | x in multiset(Combine(updates, existing, prior, cap, dates)) - multiset(r) ::
      forall k | 0 <= k < |r| :: r[k].pubDate >= x.pubDate
  {
    var sorted := SortNewestFirst(Combine(updates, existing, prior, cap, dates));
    TruncateNewestFirst(sorted, cap);
    Take(sorted, cap)
  }

  /** Together with the contract of `Merge` this pins the merge down: of
      the records published at any one instant, the merge keeps a prefix,
      in the order in which they were combined. */
  lemma MergeKeepsTiesInOrder(updates: seq<UpdateRecord>, existing: set<string>, prior: FileState<Document>,
                              cap: nat, dates: Dates, t: int)
    ensures |PublishedAt(Merge(updates, existing, prior, cap, dates), t)| <= |PublishedAt(Combine(updates, existing, prior, cap, dates), t)|
    ensures PublishedAt(Merge(updates, existing, prior, cap, dates), t)
         == PublishedAt(Combine(updates, existing, prior, cap, dates), t)[..|PublishedAt(Merge(updates, existing, prior, cap, dates), t)|]
  {
    var combined := Combine(updates, existing, prior, cap, dates);
    SortIsStable(combined, t);
    TakePublishedPrefix(SortNewestFirst(combined), cap, t);
  }

  /** Cutting a list keeps a prefix of the records published at `t`. */
  lemma TakePublishedPrefix(s: seq<UpdateRecord>, n: nat, t: int)
    ensures |PublishedAt(Take(s, n), t)| <= |PublishedAt(s, t)|
    ensures PublishedAt(Take(s, n), t) == PublishedAt(s, t)[..|PublishedAt(Take(s, n), t)|]
  {
    var r := Take(s, n);
    assert s == r + s[|r|..];
    PublishedAtAppend(r, s[|r|..], t);
  }

  /** `x` is a fetched record with a new GUID or an item of the previous
      feed read back. */
  predicate FromInputs(x: UpdateRecord, updates: seq<UpdateRecord>, existing: set<string>,
                       prior: FileState<Document>, dates: Dates) {
    || (x in updates && x.guid !in existing)
    || ReadBack(x, prior, dates)
  }

  /** Every record of the merged feed is a fetched record with a new GUID or
      an item of the previous feed read back. */
  lemma MergedRecordOrigin(updates: seq<UpdateRecord>, existing: set<string>, prior: FileState<Document>,
                           cap: nat, dates: Dates)
    ensures forall x | x in Merge(updates, existing, prior, cap, dates) :: FromInputs(x, updates, existing, prior, dates)
  {
    var r := Merge(updates, existing, prior, cap, dates);
    var combined := Combine(updates, existing, prior, cap, dates);
    CombinedRecordOrigin(updates, existing, prior, cap, dates);
    forall x | x in r ensures FromInputs(x, updates, existing, prior, dates) {
      assert x in multiset(r);
      assert x in multiset(combined);
    }
  }

  lemma CombinedRecordOrigin(updates: seq<UpdateRecord>, existing: set<string>, prior: FileState<Document>,
                             cap: nat, dates: Dates)
    ensures forall x | x in Combine(updates, existing, prior, cap, dates) :: FromInputs(x, updates, existing, prior, dates)
  {
    var combined := Combine(updates, existing, prior, cap, dates);
    var added := SelectNew(updates, existing);
    var kept := OldRecords(added, prior, cap, dates);
    assert combined == added + kept;
    forall x | x in combined ensures FromInputs(x, updates, existing, prior, dates) {
      var m :| 0 <= m < |combined| && combined[m] == x;
      if m < |added| {
        assert x in added;
      } else {
        assert x == kept[m - |added|];
      }
    }
  }

  /** GUIDs stay pairwise distinct through the merge whenever the fresh
      records' GUIDs are pairwise distinct. */
  lemma MergeKeepsDistinctGuids(updates: seq<UpdateRecord>, existing: set<string>, prior: FileState<Document>,
                                cap: nat, dates: Dates)
    ensures DistinctGuids(updates) ==> DistinctGuids(Merge(updates, existing, prior, cap, dates))
  {
    if !DistinctGuids(updates) { return; }
    var combined := Combine(updates, existing, prior, cap, dates);
    SortKeepsDistinctGuids(combined);
    var sorted := SortNewestFirst(combined);
    var r := Merge(updates, existing, prior, cap, dates);
    assert r == Take(sorted, cap);
    forall i, j | 0 <= i < j < |r| ensures r[i].guid != r[j].guid {
      assert r[i] == sorted[i] && r[j] == sorted[j];
    }
  }

  /** Sorting cannot create a repeated GUID. */
  lemma {:induction false} SortKeepsDistinctGuids(s: seq<UpdateRecord>)
    requires DistinctGuids(s)
    ensures DistinctGuids(SortNewestFirst(s))
    decreases |s|
  {
    if |s| > 0 {
      assert DistinctGuids(s[1..]) by {
        forall i, j | 0 <= i < j < |s[1..]| ensures s[1..][i].guid != s[1..][j].guid {
          assert s[1..][i] == s[i + 1] && s[1..][j] == s[j + 1];
        }
      }
      SortKeepsDistinctGuids(s[1..]);
      var t := SortNewestFirst(s[1..]);
      forall k | 0 <= k < |t| ensures t[k].guid != s[0].guid {
        assert t[k] in multiset(s[1..]);
        var m :| 0 <= m < |s[1..]| && s[1..][m] == t[k];
        assert s[1..][m] == s[m + 1];
      }
      InsertKeepsDistinctGuids(s[0], t);
    }
  }

  lemma {:induction false} InsertKeepsDistinctGuids(x: UpdateRecord, s: seq<UpdateRecord>)
    requires DistinctGuids(s)
    requires forall k | 0 <= k < |s| :: s[k].guid != x.guid
    ensures DistinctGuids(Insert(x, s))
    decreases |s|
  {
    if |s| > 0 && s[0].pubDate > x.pubDate {
      assert DistinctGuids(s[1..]) by {
        forall i, j | 0 <= i < j < |s[1..]| ensures s[1..][i].guid != s[1..][j].guid {
          assert s[1..][i] == s[i + 1] && s[1..][j] == s[j + 1];
        }
      }
      InsertKeepsDistinctGuids(x, s[1..]);
      var rest := Insert(x, s[1..]);
      forall k | 0 <= k < |rest| ensures rest[k].guid != s[0].guid {
        assert rest[k] in multiset(s[1..]) + multiset{x};
        if rest[k] != x {
          var m :| 0 <= m < |s[1..]| && s[1..][m] == rest[k];
          assert s[1..][m] == s[m + 1];
        }
      }
    }
  }

  /** When the new records fit in the feed, every one of them is published:
      its GUID is among those the next run reads back from the feed. */
  lemma NewRecordsArePublished(updates: seq<UpdateRecord>, existing: set<string>, prior: FileState<Document>,
                               dates: Dates, u: UpdateRecord)
    requires u in updates && u.guid !in existing && u.guid != ""
    requires |SelectNew(updates, existing)| <= MaxFeedItems
    ensures u.guid in ExistingGuids(Parsed(GenerateFeed(updates, existing, prior, dates)))
  {
    FittingRecordIsKept(updates, existing, prior, MaxFeedItems, dates, u);
    var r := Merge(updates, existing, prior, MaxFeedItems, dates);
    var k :| 0 <= k < |r| && r[k] == u;
    var items := ItemsOf(GenerateFeed(updates, existing, prior, dates));
    assert items == ToItems(r, dates);
    assert items[k] == ToItem(u, dates);
  }

  /** When the new records fit, a new record survives the merge. */
  lemma FittingRecordIsKept(updates: seq<UpdateRecord>, existing: set<string>, prior: FileState<Document>,
                            cap: nat, dates: Dates, u: UpdateRecord)
    requires |SelectNew(updates, existing)| <= cap
    requires u in updates && u.guid !in existing
    ensures u in Merge(updates, existing, prior, cap, dates)
  {
    var added := SelectNew(updates, existing);
    var combined := Combine(updates, existing, prior, cap, dates);
    assert combined == added + combined[|added|..];
    assert u in added;
    assert u in multiset(combined);
    var r := Merge(updates, existing, prior, cap, dates);
    assert u in multiset(r);
  }

  /** The worked example of the merge: one new record dated 10, a previous
      feed holding B (dated 9) and C (dated 8), room for two items: the
      new record and B are kept, newest first, and C is pruned. */
  lemma MergeExample()
    ensures var a := UpdateRecord("A", "https://a", "A", true, 10, "A", Some("S"));
            var itemB := Item(Some("B"), Some("https://b"), Some("B"), Some("9"), Some(Guid("B", Some("true"))));
            var itemC := Item(Some("C"), Some("https://c"), Some("C"), Some("8"), Some(Guid("C", Some("true"))));
            var prior := Parsed(Document("rss", Some("2.0"), Some(Channel(None, None, None, None, [itemB, itemC]))));
            var dates := Dates(0, k => 0, s => if s == "9" then Some(9) else if s == "8" then Some(8) else None, s => None, t => "");
            Merge([a], {"B", "C"}, prior, 2, dates) == [a, UpdateRecord("B", "https://b", "B", true, 9, "B", None)]
  {
    var a := UpdateRecord("A", "https://a", "A", true, 10, "A", Some("S"));
    var itemB := Item(Some("B"), Some("https://b"), Some("B"), Some("9"), Some(Guid("B", Some("true"))));
    var itemC := Item(Some("C"), Some("https://c"), Some("C"), Some("8"), Some(Guid("C", Some("true"))));
    var prior := Parsed(Document("rss", Some("2.0"), Some(Channel(None, None, None, None, [itemB, itemC]))));
    var dates := Dates(0, k => 0, s => if s == "9" then Some(9) else if s == "8" then Some(8) else None, s => None, t => "");
    var b := UpdateRecord("B", "https://b", "B", true, 9, "B", None);
    assert SelectNew([a], {"B", "C"}) == [a];
    assert GuidSet([a]) == {"A"};
    assert SelectOldItems([itemB, itemC], {"A"}, 1) == [itemB];
    assert ReadOld(itemB, dates, 0) == b;
    assert OldRecords([a], prior, 2, dates) == [b];
    assert Combine([a], {"B", "C"}, prior, 2, dates) == [a, b];
    assert SortNewestFirst([b]) == [b];
    assert SortNewestFirst([a, b]) == [a, b];
  }

  // ---------------------------------------------------------------------
  // Writing and reading back the feed

  /** The `isPermaLink` attribute: `str(flag).lower()`. */
  function PermaLinkAttr(flag: bool): string {
    if flag then "true" else "false"
  }

  /** The `<item>` written for a record. */
  function ToItem(r: UpdateRecord, dates: Dates): (it: Item)
    ensures GuidText(it) == r.guid
    ensures HasText(it.title) <==> r.title != ""
    ensures HasText(it.link) <==> r.link != ""
  {
    Item(Some(r.title), Some(r.link), Some(r.description), Some(dates.format(r.pubDate)),
         Some(Guid(r.guid, Some(PermaLinkAttr(r.isPermalink)))))
  }

  function ToItems(rs: seq<UpdateRecord>, dates: Dates): (items: seq<Item>)
    ensures |items| == |rs|
    ensures forall k | 0 <= k < |rs| :: items[k] == ToItem(rs[k], dates)
  {
    if |rs| == 0 then [] else [ToItem(rs[0], dates)] + ToItems(rs[1..], dates)
  }

  /** The permalink flag survives a write and a read of the feed. */
  lemma PermalinkRoundTrip(r: UpdateRecord, dates: Dates, at: int)
    requires r.guid != ""
    ensures ReadOld(ToItem(r, dates), dates, at).isPermalink == r.isPermalink
  {
  }

  /** A whole record survives a write and a read of the feed, except for its
      source, whenever the date format reads back what it wrote; the clock
      reading taken for the item then plays no part. */
  lemma RecordRoundTrip(r: UpdateRecord, dates: Dates, at: int)
    requires r.guid != ""
    requires dates.format(r.pubDate) != "" && dates.parseZoned(dates.format(r.pubDate)) == Some(r.pubDate)
    ensures ReadOld(ToItem(r, dates), dates, at) == r.(source := None)
  {
  }

  /** The document `generate_rss_feed` writes for the merged records. */
  function BuildFeed(records: seq<UpdateRecord>, dates: Dates): (doc: Document)
    ensures doc.rootTag == "rss" && doc.version == Some("2.0") && doc.channel.Some?
    ensures HasText(doc.channel.value.title) && HasText(doc.channel.value.link) && HasText(doc.channel.value.description)
    ensures ItemsOf(doc) == ToItems(records, dates)
  {
    Document("rss", Some("2.0"), Some(Channel(
      Some(FeedTitle), Some(FeedLink), Some(FeedDescription), Some(dates.format(dates.now)),
      ToItems(records, dates))))
  }

  /** An item as the generator writes it: dated, with a `<guid>` whose
      `isPermaLink` is `"true"` or `"false"`. */
  predicate WrittenItem(it: Item) {
    && it.pubDate.Some? && it.guid.Some?
    && it.guid.value.isPermaLink in {Some("true"), Some("false")}
  }

  /** `generate_rss_feed` with the configured capacity. */
  function GenerateFeed(updates: seq<UpdateRecord>, existing: set<string>, prior: FileState<Document>,
                        dates: Dates): (doc: Document)
    ensures |ItemsOf(doc)| <= MaxFeedItems
    ensures forall k | 0 <= k < |ItemsOf(doc)| :: WrittenItem(ItemsOf(doc)[k])
    ensures DistinctGuids(updates) ==> forall i, j | 0 <= i < j < |ItemsOf(doc)| :: GuidText(ItemsOf(doc)[i]) != GuidText(ItemsOf(doc)[j])
  {
    var r := Merge(updates, existing, prior, MaxFeedItems, dates);
    MergeKeepsDistinctGuids(updates, existing, prior, MaxFeedItems, dates);
    WrittenItems(r, dates);
    BuildFeed(r, dates)
  }

  /** The written items are all `WrittenItem`s, and carry pairwise distinct
      GUID texts when the records carry pairwise distinct GUIDs. */
  lemma WrittenItems(r: seq<UpdateRecord>, dates: Dates)
    ensures forall k | 0 <= k < |ToItems(r, dates)| :: WrittenItem(ToItems(r, dates)[k])
    ensures DistinctGuids(r) ==>
      forall i, j | 0 <= i < j < |ToItems(r, dates)| :: GuidText(ToItems(r, dates)[i]) != GuidText(ToItems(r, dates)[j])
  {
    var items := ToItems(r, dates);
    forall k | 0 <= k < |items| ensures WrittenItem(items[k]) && GuidText(items[k]) == r[k].guid {
      assert items[k] == ToItem(r[k], dates);
    }
  }

  // ---------------------------------------------------------------------
  // The generator's run

  /** `load_existing_feed_guids`: the non-empty GUID texts of the items. */
  function GuidsOfItems(items: seq<Item>): (r: set<string>)
    ensures forall g :: g in r <==> exists k | 0 <= k < |items| :: HasGuid(items[k]) && GuidText(items[k]) == g
  {
    if |items| == 0 then {}
    else
      var rest := GuidsOfItems(items[1..]);
      assert forall k | 0 <= k < |items[1..]| :: items[1..][k] == items[k + 1];
      assert forall k | 1 <= k < |items| :: items[k] == items[1..][k - 1];
      (if HasGuid(items[0]) then {GuidText(items[0])} else {}) + rest
  }

  /** The GUIDs of the previous feed; none when it is missing or malformed. */
  function ExistingGuids(prior: FileState<Document>): (r: set<string>)
    ensures !prior.Parsed? ==> r == {}
    ensures prior.Parsed? ==> r == GuidsOfItems(ItemsOf(prior.doc))
  {
    if prior.Parsed? then GuidsOfItems(ItemsOf(prior.doc)) else {}
  }

  datatype RunOutcome = Skipped | Regenerated(feed: Document)

  /** The main block after fetching: the feed is rewritten only when the
      change check let the run proceed and some fetched GUID is new. */
  function Run(proceed: bool, fetched: seq<UpdateRecord>, prior: FileState<Document>, dates: Dates): (o: RunOutcome)
    ensures o.Regenerated? <==> proceed && |SelectNew(fetched, ExistingGuids(prior))| > 0
    ensures o.Regenerated? ==> o.feed == GenerateFeed(fetched, ExistingGuids(prior), prior, dates)
  {
    var existing := ExistingGuids(prior);
    GateMatchesSelection(fetched, existing);
    if proceed && |fetched| > 0 && HasNewGuid(fetched, existing) then
      Regenerated(GenerateFeed(fetched, existing, prior, dates))
    else Skipped
  }

  /** Re-running on the same fetched records changes nothing: once a run has
      published a batch of new records that fits in the feed, the next run
      over the same records finds no new GUID and skips, whatever its clock. */
  lemma RerunSkips(fetched: seq<UpdateRecord>, prior: FileState<Document>, dates: Dates, proceed: bool, later: Dates)
    requires 0 < |fetched| <= MaxFeedItems
    requires forall k | 0 <= k < |fetched| :: fetched[k].guid != "" && fetched[k].guid !in ExistingGuids(prior)
    ensures Run(true, fetched, prior, dates).Regenerated?
    ensures Run(proceed, fetched, Parsed(Run(true, fetched, prior, dates).feed), later) == Skipped
  {
    var existing := ExistingGuids(prior);
    assert fetched[0] in SelectNew(fetched, existing);
    var feed := Run(true, fetched, prior, dates).feed;
    var published := ExistingGuids(Parsed(feed));
    forall k | 0 <= k < |fetched| ensures fetched[k].guid in published {
      NewRecordsArePublished(fetched, existing, prior, dates, fetched[k]);
    }
  }
}
