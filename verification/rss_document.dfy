/** An RSS 2.0 document as the generator writes it and as the validator and
    the health check read it, after XML parsing. Only the elements the
    scripts look at are kept. An element's text is an `Option<string>`:
    `None` when `find` returns no element, `Some("")` when the element is
    there but carries no text. */
module RssDocument {
  import opened Common

  /** What became of an attempt to read a file from disk. */
  datatype FileState<T> = Missing | Unparseable | Parsed(doc: T)

  /** A `<guid>` element: its text and its `isPermaLink` attribute, if any. */
  datatype Guid = Guid(text: string, isPermaLink: Option<string>)

  /** An `<item>` element of the channel. */
  datatype Item = Item(
    title: Option<string>,
    link: Option<string>,
    description: Option<string>,
    pubDate: Option<string>,
    guid: Option<Guid>)

  /** The `<channel>` element: the fields the scripts read and its items
      in document order. */
  datatype Channel = Channel(
    title: Option<string>,
    link: Option<string>,
    description: Option<string>,
    lastBuildDate: Option<string>,
    items: seq<Item>)

  /** The root element: its tag, its `version` attribute and its
      `<channel>` child. */
  datatype Document = Document(rootTag: string, version: Option<string>, channel: Option<Channel>)

  /** Python truthiness of `elem is not None and elem.text`. */
  predicate HasText(e: Option<string>) {
    e.Some? && e.value != ""
  }

  /** The text of the item's `<guid>`, `""` when there is none. */
  function GuidText(it: Item): string {
    if it.guid.Some? then it.guid.value.text else ""
  }

  /** The item carries a `<guid>` with non-empty text. */
  predicate HasGuid(it: Item) {
    GuidText(it) != ""
  }

  /** `root.findall('./channel/item')`: the items of the channel, none when
      there is no channel. */
  function ItemsOf(doc: Document): seq<Item> {
    if doc.channel.Some? then doc.channel.value.items else []
  }

  /** Items whose `pubDate` is at most `window` days old; `ageDays` is the
      age the date parser and the clock give, `None` when the text does not
      parse. */
  function CountRecent(items: seq<Item>, ageDays: string -> Option<int>, window: int): (n: nat)
    ensures n <= |items|
  {
    if |items| == 0 then 0
    else
      var it := items[0];
      var recent := HasText(it.pubDate) && ageDays(it.pubDate.value).Some? && ageDays(it.pubDate.value).value <= window;
      (if recent then 1 else 0) + CountRecent(items[1..], ageDays, window)
  }

  /** A wider window counts at least as many recent items. */
  lemma {:induction false} CountRecentMonotone(items: seq<Item>, ageDays: string -> Option<int>, narrow: int, wide: int)
    requires narrow <= wide
    ensures CountRecent(items, ageDays, narrow) <= CountRecent(items, ageDays, wide)
    decreases |items|
  {
    if |items| > 0 {
      CountRecentMonotone(items[1..], ageDays, narrow, wide);
    }
  }
}
