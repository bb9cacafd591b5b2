/** `main`: with feeds and queries configured, merge the fetched entries into
    the previously published ones and render the feed's items. Fetching and
    reading the previous output are inputs: `fetched[u]` is what the feed at
    `urls[u]` yielded. */
module Pipeline {
  import opened Wrappers
  import opened Entries
  import opened Merge
  import opened Output

  /** Nothing is produced when either list is empty; otherwise the items are
      those of the existing entries followed by the appended fetched ones,
      sorted, cut and rendered, and `newCount` counts the appended entries. */
  method Run(urls: seq<string>, queries: seq<string>, existing: seq<Entry>, fetched: seq<seq<Entry>>)
    returns (items: Option<seq<RssItem>>, newCount: nat)
    requires |fetched| == |urls|
    ensures urls == [] || queries == [] ==> items.None? && newCount == 0
    ensures urls != [] && queries != [] ==>
      var merged := existing + NewEntries(Ids(existing), Flatten(fetched), queries);
      && items == Some(RenderAll(Published(merged)))
      && newCount == |merged| - |existing|
    ensures urls != [] && queries != [] && DistinctIds(existing) ==>
      items.Some? && DistinctGuids(items.value)
  {
    if urls == [] || queries == [] {
      return None, 0;
    }
    var all, seen;
    all, seen, newCount := MergeFetched(existing, fetched, queries);
    var buffer := new Entry[|all|](i requires 0 <= i < |all| => all[i]);
    assert buffer[..] == all;
    var rss := GenerateItems(buffer);
    items := Some(rss);
    if DistinctIds(existing) {
      MergedGuidsDistinct(existing, fetched, queries);
    }
  }

  /** The feed never repeats a guid: when the previously published entries
      have distinct ids, every item written has its own guid. */
  lemma MergedGuidsDistinct(existing: seq<Entry>, fetched: seq<seq<Entry>>, queries: seq<string>)
    requires DistinctIds(existing)
    ensures DistinctGuids(RenderAll(Published(existing + NewEntries(Ids(existing), Flatten(fetched), queries))))
  {
    MergeKeepsIdsDistinct(existing, Flatten(fetched), queries);
    PublishedGuidsDistinct(existing + NewEntries(Ids(existing), Flatten(fetched), queries));
  }
}
