/** The feed validator: the structural check of `validate_rss_structure`,
    the counters of `validate_feed_content` and the aggregation of results
    into an exit code in `main`. Diagnostics printing is not modelled; a
    failed check reports why it failed. */
module FeedValidator {
  import opened Common
  import opened RssDocument
  import opened Updates
  import opened FeedMerge

  /** Why the structural check failed. */
  datatype Failure =
    | FileNotFound
    | ParseError
    | BadRoot(tag: string)
    | NoChannel
    | MissingChannelField(name: string)
    | InvalidItems(count: nat)
    | DuplicateGuids(total: nat, unique: nat)

  /** Findings that are reported but do not fail the check. */
  datatype Warning =
    | VersionMismatch(found: Option<string>)
    | NoItems
    | MissingPubDate(position: nat)
    | MissingDescription(position: nat)

  datatype Verdict = Pass(warnings: seq<Warning>) | Fail(failure: Failure)

  const ExpectedVersion := "2.0"

  /** An item with a non-empty title, link and GUID. */
  predicate ItemValid(it: Item) {
    HasText(it.title) && HasText(it.link) && HasGuid(it)
  }

  /** The number of items that are not valid. */
  function InvalidCount(items: seq<Item>): (n: nat)
    ensures n <= |items|
    ensures n == 0 <==> forall k | 0 <= k < |items| :: ItemValid(items[k])
  {
    if |items| == 0 then 0
    else
      var rest := InvalidCount(items[1..]);
      assert forall k | 1 <= k < |items| :: items[k] == items[1..][k - 1];
      (if ItemValid(items[0]) then 0 else 1) + rest
  }

  /** The non-empty GUID texts of the items, in order. */
  function GuidList(items: seq<Item>): (gs: seq<string>)
    ensures (forall k | 0 <= k < |items| :: HasGuid(items[k])) ==>
      |gs| == |items| && forall k | 0 <= k < |items| :: gs[k] == GuidText(items[k])
  {
    if |items| == 0 then []
    else
      var rest := GuidList(items[1..]);
      assert forall k | 1 <= k < |items| :: items[k] == items[1..][k - 1];
      (if HasGuid(items[0]) then [GuidText(items[0])] else []) + rest
  }

  /** The warnings about missing optional elements, numbered from `first`. */
  function ItemWarnings(items: seq<Item>, first: nat): seq<Warning> {
    if |items| == 0 then []
    else
      (if items[0].pubDate.None? then [MissingPubDate(first)] else [])
      + (if items[0].description.None? then [MissingDescription(first)] else [])
      + ItemWarnings(items[1..], first + 1)
  }

  /** A document the structural check accepts, stated independently of the
      order in which the check looks at things. */
  ghost predicate WellFormed(doc: Document) {
    && doc.rootTag == "rss"
    && doc.channel.Some?
    && HasText(doc.channel.value.title)
    && HasText(doc.channel.value.link)
    && HasText(doc.channel.value.description)
    && (forall k | 0 <= k < |doc.channel.value.items| :: ItemValid(doc.channel.value.items[k]))
    && (forall i, j | 0 <= i < j < |doc.channel.value.items| ::
          GuidText(doc.channel.value.items[i]) != GuidText(doc.channel.value.items[j]))
  }

  /** The first missing or empty required channel element, if any. */
  function MissingChannelElement(c: Channel): (r: Option<string>)
    ensures r.None? <==> HasText(c.title) && HasText(c.link) && HasText(c.description)
  {
    if !HasText(c.title) then Some("title")
    else if !HasText(c.link) then Some("link")
    else if !HasText(c.description) then Some("description")
    else None
  }

  /** `validate_rss_structure`. */
  function ValidateStructure(file: FileState<Document>): (v: Verdict)
    ensures file.Missing? ==> v == Fail(FileNotFound)
    ensures file.Unparseable? ==> v == Fail(ParseError)
    ensures file.Parsed? && file.doc.rootTag != "rss" ==> v == Fail(BadRoot(file.doc.rootTag))
    ensures file.Parsed? && file.doc.rootTag == "rss" && file.doc.channel.None? ==> v == Fail(NoChannel)
    ensures v.Pass? && file.doc.version != Some(ExpectedVersion) ==> VersionMismatch(file.doc.version) in v.warnings
    ensures v.Pass? && |ItemsOf(file.doc)| == 0 ==> NoItems in v.warnings
  {
    match file
    case Missing => Fail(FileNotFound)
    case Unparseable => Fail(ParseError)
    case Parsed(doc) =>
      if doc.rootTag != "rss" then Fail(BadRoot(doc.rootTag))
      else
        var versionWarning := if doc.version != Some(ExpectedVersion) then [VersionMismatch(doc.version)] else [];
        if doc.channel.None? then Fail(NoChannel)
        else
          var c := doc.channel.value;
          match MissingChannelElement(c)
          case Some(name) => Fail(MissingChannelField(name))
          case None =>
            if |c.items| == 0 then Pass(versionWarning + [NoItems])
            else ValidateItems(c.items, versionWarning)
  }

  /** The item checks of a non-empty channel: every item valid, then no
      GUID repeated. */
  function ValidateItems(items: seq<Item>, earlier: seq<Warning>): (v: Verdict)
    ensures v.Pass? <==> (forall k | 0 <= k < |items| :: ItemValid(items[k]))
                         && forall i, j | 0 <= i < j < |items| :: GuidText(items[i]) != GuidText(items[j])
    ensures v.Pass? ==> v.warnings == earlier + ItemWarnings(items, 1)
  {
    var invalid := InvalidCount(items);
    if invalid > 0 then Fail(InvalidItems(invalid))
    else
      var guids := GuidList(items);
      DistinctIffNoShrink(guids);
      assert Distinct(guids) <==> forall i, j | 0 <= i < j < |items| :: GuidText(items[i]) != GuidText(items[j]) by {
        if !Distinct(guids) {
          var i, j :| 0 <= i < j < |guids| && guids[i] == guids[j];
          assert GuidText(items[i]) == GuidText(items[j]);
        }
      }
      if |guids| != |ToSet(guids)| then Fail(DuplicateGuids(|guids|, |ToSet(guids)|))
      else Pass(earlier + ItemWarnings(items, 1))
  }

  /** The structural check passes exactly on well-formed documents. */
  lemma StructureIffWellFormed(doc: Document)
    ensures ValidateStructure(Parsed(doc)).Pass? <==> WellFormed(doc)
  {
  }

  /** A version other than 2.0 is reported but never fails the check by
      itself: the verdict does not depend on the version attribute. */
  lemma VersionOnlyWarns(doc: Document, version: Option<string>)
    ensures ValidateStructure(Parsed(doc)).Pass? == ValidateStructure(Parsed(doc.(version := version))).Pass?
  {
    StructureIffWellFormed(doc);
    StructureIffWellFormed(doc.(version := version));
  }

  /** A feed without items passes as soon as the root and the channel are
      in order; no item or GUID check is reached. */
  lemma EmptyChannelPasses(doc: Document)
    requires doc.rootTag == "rss" && doc.channel.Some? && |doc.channel.value.items| == 0
    requires HasText(doc.channel.value.title) && HasText(doc.channel.value.link) && HasText(doc.channel.value.description)
    ensures ValidateStructure(Parsed(doc)) == Pass(
      (if doc.version != Some(ExpectedVersion) then [VersionMismatch(doc.version)] else []) + [NoItems])
  {
  }

  // ---------------------------------------------------------------------
  // Content quality

  /** Days within which an item counts as recent for the content check. */
  const RecentWindowDays := 30

  /** The counters of `validate_feed_content` and its result. */
  datatype ContentReport = ContentReport(passed: bool, recent: nat, duplicateTitles: nat, validLinks: nat)

  /** The non-empty titles, in order. */
  function TitleList(items: seq<Item>): (ts: seq<string>)
    ensures |ts| <= |items|
  {
    if |items| == 0 then []
    else (if HasText(items[0].title) then [items[0].title.value] else []) + TitleList(items[1..])
  }

  /** An item whose link text begins with `http://` or `https://`. */
  predicate HttpLink(it: Item) {
    HasText(it.link) && (StartsWith(it.link.value, "http://") || StartsWith(it.link.value, "https://"))
  }

  function CountHttpLinks(items: seq<Item>): (n: nat)
    ensures n <= |items|
    ensures n == |items| <==> forall k | 0 <= k < |items| :: HttpLink(items[k])
  {
    if |items| == 0 then 0
    else
      var rest := CountHttpLinks(items[1..]);
      assert forall k | 1 <= k < |items| :: items[k] == items[1..][k - 1];
      (if HttpLink(items[0]) then 1 else 0) + rest
  }

  /** `validate_feed_content`: it fails only when the file is missing or
      unparseable or has no channel; otherwise it passes and reports its
      counters. */
  function ValidateContent(file: FileState<Document>, ageDays: string -> Option<int>): (r: ContentReport)
    ensures r.passed <==> file.Parsed? && file.doc.channel.Some?
    ensures r.passed ==> r.validLinks <= |ItemsOf(file.doc)| && r.recent <= |ItemsOf(file.doc)|
    ensures r.passed ==> (r.duplicateTitles == 0 <==> Distinct(TitleList(ItemsOf(file.doc))))
  {
    if file.Parsed? && file.doc.channel.Some? then
      var items := file.doc.channel.value.items;
      if |items| == 0 then ContentReport(true, 0, 0, 0)
      else
        var titles := TitleList(items);
        DistinctIffNoShrink(titles);
        ContentReport(true, CountRecent(items, ageDays, RecentWindowDays), |titles| - |ToSet(titles)|, CountHttpLinks(items))
    else ContentReport(false, 0, 0, 0)
  }

  // ---------------------------------------------------------------------
  // Aggregation

  const DefaultFeedUrl := "https://owais5514.github.io/Metro-timings/metro_feed.xml"

  /** The command line: `--skip-remote` and `--url`. */
  datatype Options = Options(skipRemote: bool, url: Option<string>)

  /** The URL after defaulting: the published feed when none was given and
      the remote check is not skipped. */
  function EffectiveUrl(opts: Options): (u: Option<string>)
    ensures !opts.skipRemote ==> HasText(u)
  {
    if !HasText(opts.url) && !opts.skipRemote then Some(DefaultFeedUrl) else opts.url
  }

  /** The recorded results in order: structure, content quality and, when
      the remote check runs, accessibility (`accessible` stands for the
      HTTP probe of a URL). */
  function Results(structure: bool, content: bool, opts: Options, accessible: string -> bool): (rs: seq<(string, bool)>)
    ensures |rs| == 3 <==> !opts.skipRemote
    ensures |rs| == 2 || |rs| == 3
    ensures rs[0] == ("Structure", structure) && rs[1] == ("Content Quality", content)
    ensures |rs| == 3 ==> rs[2] == ("Accessibility", accessible(EffectiveUrl(opts).value))
  {
    var url := EffectiveUrl(opts);
    [("Structure", structure), ("Content Quality", content)]
    + (if !opts.skipRemote && HasText(url) then [("Accessibility", accessible(url.value))] else [])
  }

  /** The process exit code: 0 when every recorded result passed. */
  function ExitCode(rs: seq<(string, bool)>): (code: int)
    ensures code == 0 <==> forall k | 0 <= k < |rs| :: rs[k].1
    ensures code == 0 || code == 1
  {
    if |rs| == 0 then 0
    else
      var rest := ExitCode(rs[1..]);
      assert forall k | 1 <= k < |rs| :: rs[k] == rs[1..][k - 1];
      if rs[0].1 && rest == 0 then 0 else 1
  }

  /** The validator exits 0 exactly when structure and content pass and,
      unless skipped, the feed is reachable at the effective URL. */
  lemma MainExitCode(structure: bool, content: bool, opts: Options, accessible: string -> bool)
    ensures ExitCode(Results(structure, content, opts, accessible)) == 0 <==>
      structure && content && (opts.skipRemote || accessible(EffectiveUrl(opts).value))
  {
    var rs := Results(structure, content, opts, accessible);
    assert rs[0].1 == structure && rs[1].1 == content;
  }

  // ---------------------------------------------------------------------
  // The validator as a post-condition of the generator

  /** A feed the generator writes passes the structural check whenever the
      fresh records carry distinct non-empty GUIDs and non-empty titles and
      links, and the items of the previous feed carry non-empty titles and
      links. In particular no GUID is ever written twice. */
  lemma GeneratedFeedPasses(updates: seq<UpdateRecord>, existing: set<string>, prior: FileState<Document>, dates: Dates)
    requires DistinctGuids(updates)
    requires forall k | 0 <= k < |updates| :: updates[k].title != "" && updates[k].link != "" && updates[k].guid != ""
    requires prior.Parsed? ==> forall k | 0 <= k < |ItemsOf(prior.doc)| ::
      HasText(ItemsOf(prior.doc)[k].title) && HasText(ItemsOf(prior.doc)[k].link)
    ensures ValidateStructure(Parsed(GenerateFeed(updates, existing, prior, dates))).Pass?
  {
    var doc := GenerateFeed(updates, existing, prior, dates);
    var r := Merge(updates, existing, prior, MaxFeedItems, dates);
    var items := ItemsOf(doc);
    MergedRecordOrigin(updates, existing, prior, MaxFeedItems, dates);
    forall k | 0 <= k < |items| ensures ItemValid(items[k]) {
      assert items[k] == ToItem(r[k], dates);
      assert r[k] in r;
      InputRecordIsComplete(r[k], updates, existing, prior, dates);
    }
    StructureIffWellFormed(doc);
  }

  /** A record taken from the inputs has a title, a link and a GUID when
      the inputs do. */
  lemma InputRecordIsComplete(x: UpdateRecord, updates: seq<UpdateRecord>, existing: set<string>,
                              prior: FileState<Document>, dates: Dates)
    requires FromInputs(x, updates, existing, prior, dates)
    requires forall k | 0 <= k < |updates| :: updates[k].title != "" && updates[k].link != "" && updates[k].guid != ""
    requires prior.Parsed? ==> forall k | 0 <= k < |ItemsOf(prior.doc)| ::
      HasText(ItemsOf(prior.doc)[k].title) && HasText(ItemsOf(prior.doc)[k].link)
    ensures x.title != "" && x.link != "" && x.guid != ""
  {
    if !(x in updates && x.guid !in existing) {
      var i, m :| 0 <= i < |ItemsOf(prior.doc)| && 0 <= m < |ItemsOf(prior.doc)| &&
                  HasGuid(ItemsOf(prior.doc)[i]) && x == ReadOld(ItemsOf(prior.doc)[i], dates, dates.clock(m));
    }
  }

  /** Uniqueness needs distinct fresh GUIDs: two fetched records that share
      a GUID the previous feed lacks are both written, and the validator
      rejects the generator's own feed. */
  lemma RepeatedFreshGuidFailsValidation(dates: Dates)
    ensures var a := UpdateRecord("[S] A", "https://a", "https://a", true, 10, "A", Some("S"));
            var b := a.(pubDate := 9);
            ValidateStructure(Parsed(GenerateFeed([a, b], {}, Missing, dates))).Fail?
  {
    var a := UpdateRecord("[S] A", "https://a", "https://a", true, 10, "A", Some("S"));
    var b := a.(pubDate := 9);
    assert SelectNew([a, b], {}) == [a, b];
    assert Combine([a, b], {}, Missing, MaxFeedItems, dates) == [a, b];
    assert SortNewestFirst([b]) == [b];
    assert SortNewestFirst([a, b]) == [a, b];
    var doc := GenerateFeed([a, b], {}, Missing, dates);
    assert ItemsOf(doc) == ToItems([a, b], dates);
    assert GuidText(ItemsOf(doc)[0]) == GuidText(ItemsOf(doc)[1]);
    StructureIffWellFormed(doc);
  }
}
