/** Construction of update records from scraped notice elements: the
    identity policy (permalink GUID or content-hash GUID), title and
    description normalisation, the ordered list of date formats, and the
    default record that keeps the feed from ever being empty.
    Network fetching and HTML selection are outside the model: a source
    contributes the sequence of container elements its selectors found. */
module Updates {
  import opened Common

  /** One feed entry, as `fetch_metro_updates` builds it and as
      `generate_rss_feed` rebuilds it from the prior feed (then without a
      `source`). `pubDate` is in microseconds since the epoch, the
      resolution of `datetime.now`. */
  datatype UpdateRecord = UpdateRecord(
    title: string,
    link: string,
    guid: string,
    isPermalink: bool,
    pubDate: int,
    description: string,
    source: Option<string>)

  /** A configured notice page. */
  datatype Source = Source(name: string, url: string)

  /** What the selectors found inside one container element: the stripped
      text of the title, summary and date tags (`None` when no tag matched)
      and the `href` of the link tag (`None` when there is no link tag or
      no `href` attribute); with it, `readAt`, the clock reading (in
      microseconds) taken while the element is processed. The clock is read
      anew for every element, so two undated elements of one page may get
      different publication dates. */
  datatype Element = Element(
    title: Option<string>,
    summary: Option<string>,
    href: Option<string>,
    dateText: Option<string>,
    readAt: int)

  /** The site the feed describes; also the link of the default record. */
  const FeedLink := "https://owais5514.github.io/Metro-timings/"

  /** GUID of the record synthesised when nothing was scraped. */
  const DefaultGuid := "metro-timings-default"

  /** The item link: the `href` itself when it is absolute, the `href`
      resolved against the page URL by `join` (urljoin) when it is relative,
      and the page URL when there is no usable `href`. */
  function ResolveLink(src: Source, href: Option<string>, join: (string, string) -> string): (link: string)
    ensures href.None? || href == Some("") ==> link == src.url
    ensures href.Some? && (StartsWith(href.value, "http://") || StartsWith(href.value, "https://")) ==> link == href.value
    ensures href.Some? && href.value != "" && !StartsWith(href.value, "http://") && !StartsWith(href.value, "https://") ==>
      link == join(src.url, href.value)
  {
    if href.Some? && href.value != "" then
      if StartsWith(href.value, "http://") || StartsWith(href.value, "https://") then href.value
      else join(src.url, href.value)
    else src.url
  }

  /** The text hashed for a non-permalink GUID: `title-summary-name`. */
  function HashInput(title: string, summary: string, name: string): string {
    title + "-" + summary + "-" + name
  }

  /** First match wins: the value of the first format that parses `text`,
      or `None` when no format does. A format reads the date from the text
      and takes the time of day from the clock reading `at`. */
  function ParseFirst(formats: seq<(string, int) -> Option<int>>, text: string, at: int): (r: Option<int>)
    ensures r.Some? ==> exists i | 0 <= i < |formats| :: formats[i](text, at) == r && forall j | 0 <= j < i :: formats[j](text, at).None?
    ensures r.None? <==> forall i | 0 <= i < |formats| :: formats[i](text, at).None?
  {
    if |formats| == 0 then None
    else
      match formats[0](text, at)
      case Some(t) => Some(t)
      case None =>
        var r := ParseFirst(formats[1..], text, at);
        if r.Some? then
          var i :| 0 <= i < |formats[1..]| && formats[1..][i](text, at) == r
                   && forall j | 0 <= j < i :: formats[1..][j](text, at).None?;
          assert formats[i + 1](text, at) == r;
          r
        else r
  }

  /** The record built from one container element, or `None` when the
      element has no title text and is skipped. An undated element is
      dated by the clock reading taken for it. */
  function BuildRecord(src: Source, el: Element, formats: seq<(string, int) -> Option<int>>,
                       hash: string -> string, join: (string, string) -> string): (r: Option<UpdateRecord>)
    ensures r.None? <==> el.title.None? || el.title == Some("")
    ensures r.Some? ==> var t := el.title.value; var s := el.summary.GetOr("");
      && r.value.title == "[" + src.name + "] " + t
      && r.value.description == (if s != "" then s else t)
      && r.value.source == Some(src.name)
      && r.value.link == ResolveLink(src, el.href, join)
      && (r.value.isPermalink <==> r.value.link != "" && r.value.link != src.url)
      && (r.value.isPermalink ==> r.value.guid == r.value.link)
      && (!r.value.isPermalink ==> r.value.guid == hash(HashInput(t, s, src.name)))
    ensures r.Some? && (el.href.None? || el.href == Some("")) ==>
      r.value.link == src.url && !r.value.isPermalink
    ensures r.Some? && el.dateText.Some? && ParseFirst(formats, el.dateText.value, el.readAt).Some? ==>
      r.value.pubDate == ParseFirst(formats, el.dateText.value, el.readAt).value
    ensures r.Some? && (el.dateText.None? || ParseFirst(formats, el.dateText.value, el.readAt).None?) ==>
      r.value.pubDate == el.readAt
  {
    if el.title.None? || el.title.value == "" then None
    else
      var title := el.title.value;
      var summary := el.summary.GetOr("");
      var link := ResolveLink(src, el.href, join);
      var permalink := link != "" && link != src.url;
      var guid := if permalink then link else hash(HashInput(title, summary, src.name));
      var parsed := if el.dateText.Some? then ParseFirst(formats, el.dateText.value, el.readAt) else None;
      var pubDate := parsed.GetOr(el.readAt);
      Some(UpdateRecord(
        "[" + src.name + "] " + title, link, guid, permalink, pubDate,
        if summary != "" then summary else title, Some(src.name)))
  }

  /** Identity stability: the GUID and its permalink flag depend only on the
      element's title, summary and link and on the source, never on the date
      text, the date formats or the clock, so re-scraping an unchanged
      notice yields the same GUID. */
  lemma GuidIsStable(src: Source, a: Element, b: Element,
                     fa: seq<(string, int) -> Option<int>>, fb: seq<(string, int) -> Option<int>>,
                     hash: string -> string, join: (string, string) -> string)
    requires a.title == b.title && a.summary == b.summary && a.href == b.href
    requires BuildRecord(src, a, fa, hash, join).Some?
    ensures BuildRecord(src, b, fb, hash, join).Some?
    ensures BuildRecord(src, a, fa, hash, join).value.guid == BuildRecord(src, b, fb, hash, join).value.guid
    ensures BuildRecord(src, a, fa, hash, join).value.isPermalink == BuildRecord(src, b, fb, hash, join).value.isPermalink
  {
  }

  /** The records one source contributes, in element order; elements
      without a title are skipped. */
  function CollectSource(src: Source, elements: seq<Element>, formats: seq<(string, int) -> Option<int>>,
                         hash: string -> string, join: (string, string) -> string): (r: seq<UpdateRecord>)
    ensures |r| <= |elements|
    ensures forall k | 0 <= k < |r| :: r[k].source == Some(src.name) && StartsWith(r[k].title, "[" + src.name + "] ")
    ensures (forall k | 0 <= k < |elements| :: HasTitle(elements[k])) ==> |r| == |elements|
  {
    if |elements| == 0 then []
    else
      var rest := CollectSource(src, elements[1..], formats, hash, join);
      assert forall k | 0 <= k < |elements[1..]| :: elements[1..][k] == elements[k + 1];
      match BuildRecord(src, elements[0], formats, hash, join)
      case Some(u) =>
        assert (u.title)[..|"[" + src.name + "] "|] == "[" + src.name + "] ";
        [u] + rest
      case None => rest
  }

  /** The element has title text and so yields a record. */
  predicate HasTitle(el: Element) {
    el.title.Some? && el.title.value != ""
  }

  /** Reference filter: the elements with title text, in page order. */
  function Titled(elements: seq<Element>): seq<Element> {
    if |elements| == 0 then []
    else (if HasTitle(elements[0]) then [elements[0]] else []) + Titled(elements[1..])
  }

  /** A source contributes exactly one record per titled element, in page
      order, and each is the record `BuildRecord` makes of that element. */
  lemma {:induction false} CollectSourceBuildsTitled(src: Source, elements: seq<Element>, formats: seq<(string, int) -> Option<int>>,
                                                     hash: string -> string, join: (string, string) -> string)
    ensures |CollectSource(src, elements, formats, hash, join)| == |Titled(elements)|
    ensures forall k | 0 <= k < |Titled(elements)| ::
      && BuildRecord(src, Titled(elements)[k], formats, hash, join).Some?
      && CollectSource(src, elements, formats, hash, join)[k] == BuildRecord(src, Titled(elements)[k], formats, hash, join).value
    decreases |elements|
  {
    if |elements| > 0 {
      CollectSourceBuildsTitled(src, elements[1..], formats, hash, join);
      var r := CollectSource(src, elements, formats, hash, join);
      var rest := CollectSource(src, elements[1..], formats, hash, join);
      var t := Titled(elements[1..]);
      if HasTitle(elements[0]) {
        assert r == [BuildRecord(src, elements[0], formats, hash, join).value] + rest;
        assert Titled(elements) == [elements[0]] + t;
      } else {
        assert r == rest;
        assert Titled(elements) == t;
      }
    }
  }

  /** When every element is titled, the filter keeps them all. */
  lemma {:induction false} AllTitled(elements: seq<Element>)
    requires forall k | 0 <= k < |elements| :: HasTitle(elements[k])
    ensures Titled(elements) == elements
    decreases |elements|
  {
    if |elements| > 0 {
      AllTitled(elements[1..]);
      assert elements == [elements[0]] + elements[1..];
    }
  }

  /** Undated records are dated by their own element's clock reading, so
      when the clock advances between two undated elements of a page, the
      later one is newer and the feed lists it first. */
  lemma UndatedRecordsKeepTheirReadings(src: Source, elements: seq<Element>, formats: seq<(string, int) -> Option<int>>,
                                        hash: string -> string, join: (string, string) -> string)
    requires forall k | 0 <= k < |elements| :: HasTitle(elements[k]) && elements[k].dateText.None?
    ensures |CollectSource(src, elements, formats, hash, join)| == |elements|
    ensures forall k | 0 <= k < |elements| :: CollectSource(src, elements, formats, hash, join)[k].pubDate == elements[k].readAt
  {
    AllTitled(elements);
    CollectSourceBuildsTitled(src, elements, formats, hash, join);
  }

  /** The records of all sources, source by source. */
  function CollectAll(pages: seq<(Source, seq<Element>)>, formats: seq<(string, int) -> Option<int>>,
                      hash: string -> string, join: (string, string) -> string): (r: seq<UpdateRecord>)
    ensures forall k | 0 <= k < |r| :: exists p | 0 <= p < |pages| :: r[k].source == Some(pages[p].0.name)
  {
    if |pages| == 0 then []
    else
      var first := CollectSource(pages[0].0, pages[0].1, formats, hash, join);
      var rest := CollectAll(pages[1..], formats, hash, join);
      assert forall k | 0 <= k < |first| :: first[k].source == Some(pages[0].0.name);
      assert forall k | 0 <= k < |rest| :: exists p | 0 <= p < |pages| :: rest[k].source == Some(pages[p].0.name) by {
        forall k | 0 <= k < |rest| ensures exists p | 0 <= p < |pages| :: rest[k].source == Some(pages[p].0.name) {
          var p :| 0 <= p < |pages[1..]| && rest[k].source == Some(pages[1..][p].0.name);
          assert pages[1..][p] == pages[p + 1];
        }
      }
      first + rest
  }

  /** The sources are visited in configuration order and their records
      concatenated: collecting two lists of pages one after the other gives
      the concatenation, and a single page gives that page's records. */
  lemma {:induction false} CollectAllAppend(a: seq<(Source, seq<Element>)>, b: seq<(Source, seq<Element>)>,
                                            formats: seq<(string, int) -> Option<int>>,
                                            hash: string -> string, join: (string, string) -> string)
    ensures CollectAll(a + b, formats, hash, join) == CollectAll(a, formats, hash, join) + CollectAll(b, formats, hash, join)
    ensures |a| == 1 ==> CollectAll(a, formats, hash, join) == CollectSource(a[0].0, a[0].1, formats, hash, join)
    decreases |a|
  {
    if |a| == 0 {
      assert a + b == b;
    } else {
      assert (a + b)[0] == a[0];
      assert (a + b)[1..] == a[1..] + b;
      CollectAllAppend(a[1..], b, formats, hash, join);
      if |a| == 1 {
        assert CollectAll(a[1..], formats, hash, join) == [];
      }
    }
  }

  /** The record synthesised when no source yielded anything. */
  function DefaultRecord(now: int): UpdateRecord {
    UpdateRecord(
      "Dhaka Metro Timetable Available", FeedLink, DefaultGuid, true, now,
      "Check the latest Dhaka MRT-6 metro timetable and schedule information.",
      Some("Metro Timings"))
  }

  /** The scraper's result is never empty: an empty collection becomes the
      single default record, any other collection is returned unchanged. */
  function WithDefault(collected: seq<UpdateRecord>, now: int): (r: seq<UpdateRecord>)
    ensures |r| >= 1
    ensures |collected| == 0 ==> |r| == 1 && r[0].guid == DefaultGuid && r[0].link == FeedLink
                                 && r[0].isPermalink && r[0].pubDate == now
    ensures |collected| > 0 ==> r == collected
  {
    if |collected| == 0 then [DefaultRecord(now)] else collected
  }
}
