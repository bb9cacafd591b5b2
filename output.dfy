/** The item list of the generated feed (`generate_rss_xml`): entries sorted
    newest first, cut to `MAX_ITEMS`, each rendered with control characters
    removed and, when newly fetched, its title tagged with the journal code. */
module Output {
  import opened Sequences
  import opened Text
  import opened Entries
  import opened XmlChars
  import opened Journals
  import opened DateOrder

  /** At most this many items are written. */
  const MaxItems: nat := 1000

  /** One `<item>` of the RSS 2.0 channel: title, link, description, author,
      guid and publication date. */
  datatype RssItem = RssItem(
    title: string,
    link: string,
    description: string,
    author: string,
    guid: string,
    pubDate: int)

  /** The title shown, given the journal's code: a previously published item
      keeps its title; a newly fetched one gets the code in brackets in front. */
  function DisplayTitle(e: Entry, abbr: string): string
  {
    if e.isOld then e.title else "[" + abbr + "] " + e.title
  }

  /** The item written for an entry whose journal has code `abbr`: title,
      summary and journal are cleaned of illegal control characters; link, id
      and date are passed through. */
  function Render(e: Entry, abbr: string): RssItem
  {
    RssItem(
      RemoveIllegalXmlChars(DisplayTitle(e, abbr)),
      e.link,
      RemoveIllegalXmlChars(e.summary),
      RemoveIllegalXmlChars(e.journal),
      e.id,
      e.pubDate)
  }

  /** The item written for an entry, its journal's code looked up by name. */
  function RenderItem(e: Entry): RssItem
  {
    Render(e, GetJournalAbbr(e.journal))
  }

  /** The text fields of a rendered item contain no illegal control character. */
  lemma RenderedTextIsLegal(e: Entry, abbr: string)
    ensures var item := Render(e, abbr);
      && (forall i :: 0 <= i < |item.title| ==> !IsIllegalXmlChar(item.title[i]))
      && (forall i :: 0 <= i < |item.description| ==> !IsIllegalXmlChar(item.description[i]))
      && (forall i :: 0 <= i < |item.author| ==> !IsIllegalXmlChar(item.author[i]))
  {
  }

  /** A previously published item's title is written as it was read, once
      cleaned; a title that was already clean is written verbatim, so running
      the tool again never adds a second journal tag. */
  lemma HistoricalTitleVerbatim(e: Entry, abbr: string)
    requires e.isOld
    ensures Render(e, abbr).title == RemoveIllegalXmlChars(e.title)
    ensures (forall i :: 0 <= i < |e.title| ==> !IsIllegalXmlChar(e.title[i]))
      ==> Render(e, abbr).title == e.title
  {
    if forall i :: 0 <= i < |e.title| ==> !IsIllegalXmlChar(e.title[i]) {
      RemoveIllegalOnClean(e.title);
    }
  }

  /** A newly fetched item's title is "[code] title", where code and title are
      each cleaned on their own. */
  lemma FreshTitleTagged(e: Entry, abbr: string)
    requires !e.isOld
    ensures Render(e, abbr).title
      == "[" + RemoveIllegalXmlChars(abbr) + "] " + RemoveIllegalXmlChars(e.title)
  {
    RemoveIllegalAround("[", abbr, "] ", e.title);
  }

  /** The code in a fresh item's title is its journal's code from the table or
      the fallback, so at most 15 characters long before cleaning. */
  lemma FreshTitleUsesJournalCode(e: Entry)
    requires !e.isOld
    ensures RenderItem(e).title
      == "[" + RemoveIllegalXmlChars(GetJournalAbbr(e.journal)) + "] " + RemoveIllegalXmlChars(e.title)
    ensures |GetJournalAbbr(e.journal)| <= MaxAbbrLength
  {
    FreshTitleTagged(e, GetJournalAbbr(e.journal));
  }

  /** `items[:MAX_ITEMS]`: the first `MaxItems` entries, or all when fewer. */
  function KeepNewest(s: seq<Entry>): (kept: seq<Entry>)
    ensures |kept| == if |s| < MaxItems then |s| else MaxItems
    ensures kept == s[..|kept|]
  {
    if |s| <= MaxItems then s else s[..MaxItems]
  }

  /** Cutting a newest-first list drops nothing newer than what it keeps. */
  lemma KeepNewestDropsOnlyOlder(s: seq<Entry>)
    requires SortedNewestFirst(s)
    ensures var kept := KeepNewest(s);
      forall i, j :: 0 <= i < |kept| <= j < |s| ==> kept[i].pubDate >= s[j].pubDate
  {
  }

  /** The entries written, in order: the input sorted newest first and cut to
      `MaxItems`. */
  function Published(items: seq<Entry>): (kept: seq<Entry>)
    ensures |kept| == if |items| < MaxItems then |items| else MaxItems
  {
    SortByDatePermutes(items);
    KeepNewest(SortByDate(items))
  }

  /** What is published is ordered newest first. */
  lemma PublishedSorted(items: seq<Entry>)
    ensures SortedNewestFirst(Published(items))
  {
    SortByDateSorted(items);
  }

  /** What is published comes from the input, and is all of it when it fits. */
  lemma PublishedFromInput(items: seq<Entry>)
    ensures multiset(Published(items)) <= multiset(items)
    ensures |items| <= MaxItems ==> multiset(Published(items)) == multiset(items)
  {
    var sorted := SortByDate(items);
    SortByDatePermutes(items);
    PrefixSubMultiset(sorted, |Published(items)|);
  }

  /** Among entries of one date, those published are the earliest of them
      in input order: the stable sort keeps their order and the cut keeps a
      prefix of it. */
  lemma PublishedStable(items: seq<Entry>, d: int)
    ensures OfDate(Published(items), d) <= OfDate(items, d)
  {
    var sorted := SortByDate(items);
    SortByDatePermutes(items);
    OfDatePrefix(sorted, |Published(items)|, d);
    SortByDateStable(items, d);
  }

  /** Nothing cut off is newer than what is published. */
  lemma PublishedNewest(items: seq<Entry>)
    ensures forall i, j :: 0 <= i < |Published(items)| <= j < |SortByDate(items)| ==>
      Published(items)[i].pubDate >= SortByDate(items)[j].pubDate
  {
    SortByDateSorted(items);
    KeepNewestDropsOnlyOlder(SortByDate(items));
  }

  /** No two items share a guid. */
  predicate DistinctGuids(rss: seq<RssItem>)
  {
    forall i, j :: 0 <= i < j < |rss| ==> rss[i].guid != rss[j].guid
  }

  /** Entries with distinct ids are published as items with distinct guids:
      sorting keeps the ids, cutting keeps a prefix, and rendering passes each
      id through as the guid. */
  lemma PublishedGuidsDistinct(items: seq<Entry>)
    requires DistinctIds(items)
    ensures DistinctGuids(RenderAll(Published(items)))
  {
    var kept := Published(items);
    SortByDateIds(items);
    assert DistinctIds(kept) by {
      assert kept == SortByDate(items)[..|kept|];
    }
    RenderAllPointwise(kept);
  }

  /** The rendered items of a list of entries, in order. */
  function RenderAll(s: seq<Entry>): (rss: seq<RssItem>)
    ensures |rss| == |s|
    decreases |s|
  {
    if s == [] then [] else RenderAll(s[..|s| - 1]) + [RenderItem(s[|s| - 1])]
  }

  /** Each rendered item is the rendering of the entry at the same position. */
  lemma {:induction false} RenderAllPointwise(s: seq<Entry>)
    ensures forall k :: 0 <= k < |s| ==> RenderAll(s)[k] == RenderItem(s[k])
    decreases |s|
  {
    if s != [] {
      var front := s[..|s| - 1];
      RenderAllPointwise(front);
      assert RenderAll(s) == RenderAll(front) + [RenderItem(s[|s| - 1])];
      forall k | 0 <= k < |s| - 1 ensures RenderAll(s)[k] == RenderItem(s[k]) {
        assert s[k] == front[k];
      }
    }
  }

  /** `generate_rss_xml` up to the feed object: sort the list in place newest
      first, keep the first `MaxItems`, and render each kept entry in order. */
  method GenerateItems(items: array<Entry>) returns (rss: seq<RssItem>)
    modifies items
    ensures items[..] == SortByDate(old(items[..]))
    ensures rss == RenderAll(Published(old(items[..])))
  {
    SortByDateInPlace(items);
    var n := if items.Length < MaxItems then items.Length else MaxItems;
    rss := RenderEntries(items[..n]);
  }

  /** The item loop of `generate_rss_xml`: one rendered item per kept entry,
      appended in order. */
  method RenderEntries(kept: seq<Entry>) returns (rss: seq<RssItem>)
    ensures rss == RenderAll(kept)
  {
    rss := [];
    for i := 0 to |kept|
      invariant rss == RenderAll(kept[..i])
    {
      assert kept[..i + 1][..i] == kept[..i];
      rss := rss + [RenderItem(kept[i])];
    }
    assert kept[..|kept|] == kept;
  }
}
