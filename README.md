# Keyword-filtered RSS merger: a Dafny model

`get_RSS.py` builds one RSS feed out of several journal feeds. It reads the
feed URLs and the keyword queries from configuration, and it reads back the
items it published last time. It then fetches every feed and appends each
fetched entry that is new (its id was not seen yet) and that matches a query.
Finally it writes the newest `MAX_ITEMS` entries as RSS items: fresh titles
get the journal's short code in front. The title, description and author
are cleaned of the control characters XML 1.0 forbids; the link and guid are
written as fetched.

This project models that logic and proves what it promises:

- `XmlChars`: `remove_illegal_xml_chars`.
  - The result holds no illegal code point.
  - Every legal character is kept, as often as before and in order.
  - Cleaning is idempotent and works piece by piece.
- `Journals`: `JOURNAL_ABBR` and `get_journal_abbr`.
  - A name in the table gets the table's code, also when the feed title carries " - new TOC".
  - Any other name gets a truncated fallback.
  - The code has at most 15 characters.
- `Matcher`: `match_entry`, as two loops.
  - The result is true exactly when some query has all of its "AND"-separated terms in the lower-cased title and summary.
  - Its quirks are proved: an empty term matches everything, and "ANDROID" is split.
- `Merge`: the merge loop of `main`, as nested loops.
  - The existing entries stay in front, unchanged.
  - The appended entries come from the fetched ones, in fetch order.
  - They match a query and have fresh, distinct ids.
  - Every fetched entry that matches ends with its id seen: it is either appended or the duplicate of an entry already kept.
  - `seen_ids` and `new_count` agree with the list.
- `DateOrder`: the in-place, stable, newest-first sort.
  - The result is ordered and is a permutation of the input.
  - Entries of one date keep their input order.
  - Cutting to `MAX_ITEMS` keeps, among entries of one date, the earliest in input order.
- `Output`: `generate_rss_xml` up to the rfeed objects: sort, cut to `MAX_ITEMS`, then title decoration and cleaning.
  - Entries with distinct ids are written as items with distinct guids.
- `Config`: the string handling of `load_config`.
  - Splitting content on newlines or semicolons.
  - Stripping and dropping empty items.
  - Comment lines, which only the file honours.
  - Round trips.
- `Pipeline`: `main` from the point where configuration is loaded, including its early return when either list is empty.
  - The feed URLs and queries are parameters of `Pipeline.Run`; they stand for the results of `load_config`, which `Config.LoadConfig` models.
  - When the previously published entries have distinct ids, no guid is written twice.
- `Text` and `Sequences`: Python's `find`, `in`, `replace`, `split`, `join`, `strip` and `lower`, and generic sequence facts. `find`, `in`, `replace`, `split` and `join` work on any characters; `strip` and `lower` know ASCII whitespace and ASCII capitals only.

The methods keep the source's form:
- The merge appends to a list, a set and a counter.
- The sort works in place on an `array`.
- The matcher returns early.

Each method's `ensures` ties its result to a specification function, such as `NewEntries`, `SortByDate`, `Matches` or `RenderAll`. Lemmas prove the source's promises about those functions.

Two inner loops are separate methods:
- `Merge.MergeFeed` is the loop over one feed's entries.
- `Matcher.MatchQuery` is the loop over one query's terms.

Two more methods are separate:
- `Output.RenderEntries` is the item loop of `generate_rss_xml`.
- `DateOrder.InsertLast` is one pass of the sort.

**Lookup order.** The table is consulted before the ScienceDirect prefix is removed (get_RSS.py:44-49): the prefix is removed only on the fallback path.
- `Journals.AbbrLookupPrecedesPrefixRemoval` shows the consequence.
- So does `Journals.AbbrBareNameTruncated`: "Medical Image Analysis" without the prefix is not found and is shown as "Medical Image A", not "MedIA".

## Model

| member | source | states |
|---|---|---|
| XmlChars.RemoveIllegalXmlChars | get_RSS.py:70-77 | the cleaned text is never longer than the input and holds no code point 0-8, 11, 12 or 14-31 |
| XmlChars.RemoveIllegalCounts | get_RSS.py:76-77 | each legal character occurs in the result exactly as often as in the input; each illegal one does not occur |
| XmlChars.RemoveIllegalKeepsOrder | get_RSS.py:77 | the result is a subsequence of the input: kept characters stay in order |
| XmlChars.RemoveIllegalOnClean | get_RSS.py:74-77 | text without illegal characters is returned unchanged |
| XmlChars.RemoveIllegalIdempotent | get_RSS.py:70-77 | cleaning twice equals cleaning once |
| XmlChars.RemoveIllegalConcat | get_RSS.py:77 | cleaning a concatenation is concatenating the cleaned parts |
| XmlChars.RemoveIllegalAround | get_RSS.py:163-165 | cleaning legal fixed text around a code and a title cleans the code and the title separately |
| Journals.JournalAbbr | get_RSS.py:14-40 | the 21 feed titles of known journals and their display codes, entry for entry |
| Journals.TableCodesShort | get_RSS.py:14-40 | every code in the table has at most 15 characters |
| Journals.TableKeysLong | get_RSS.py:14-40 | every journal name in the table is longer than 25 characters |
| Journals.TableKeysWithoutCapitalO | get_RSS.py:14-40 | no journal name in the table holds a capital O, which occurs in " - new TOC" only once |
| Journals.GetJournalAbbr | get_RSS.py:42-50 | for every name the code has at most 15 characters |
| Journals.AbbrFallback | get_RSS.py:44-50 | when the name is not in the table once " - new TOC" is removed, the code is a prefix of length min(n, 15) of that name with the ScienceDirect prefix removed |
| Journals.AbbrPlainName | get_RSS.py:44-50 | a name with neither the suffix nor the prefix and not in the table is shown as its first 15 characters, or whole when shorter |
| Journals.AbbrFromTable | get_RSS.py:44-47 | a table key without the suffix gets its table code |
| Journals.AbbrOfSuffixedKey | get_RSS.py:44-47 | a table key followed by " - new TOC" gets the key's code, e.g. "IEEE Transactions on Medical Imaging - new TOC" gets "TMI" |
| Journals.AbbrLookupPrecedesPrefixRemoval | get_RSS.py:44-50 | a prefixed key gets the table code, while the same journal without the prefix misses the table and is truncated |
| Journals.AbbrBareNameTruncated | get_RSS.py:44-50 | "Medical Image Analysis" is shown as its first 15 characters, because the lookup precedes prefix removal |
| Text.IndexOf | get_RSS.py:145 | `s.find(pat)`: the leftmost index where the pattern occurs, or -1 (characterised by `Text.IndexOfSpec`) |
| Text.IndexOfSpec | get_RSS.py:145 | the search finds an occurrence of the pattern and no occurrence lies before it, or reports -1 when there is none |
| Text.ContainsIff | get_RSS.py:145 | `pat in s` holds exactly when the pattern occurs at some index |
| Text.ContainsEmpty | get_RSS.py:145 | the empty string occurs in every string |
| Text.RemoveAll | get_RSS.py:44 | `s.replace(pat, "")`: deletes the leftmost non-overlapping occurrences, so the result is never longer than the input |
| Text.RemoveAllAbsent | get_RSS.py:44 | removing a pattern that does not occur leaves the string unchanged |
| Text.RemoveAllIsJoinSplit | get_RSS.py:44 | `s.replace(pat, "")` equals `"".join(s.split(pat))`: removal deletes exactly the separators a split cuts at |
| Text.RemoveAllTrailing | get_RSS.py:44 | a pattern that starts nowhere in `s + pat` before `s` ends is removed from the end, leaving `s` |
| Text.MarkedPatternStartsAfter | get_RSS.py:44 | when a character occurs in the pattern once and not in `s`, no occurrence of the pattern in `s + pat` starts inside `s` |
| Text.Split | get_RSS.py:142 | `s.split(sep)` for a non-empty separator: at least one piece, the pieces between leftmost non-overlapping occurrences |
| Text.SplitAtFirst | get_RSS.py:142 | splitting yields the text before the first separator, then the split of the rest |
| Text.SplitAbsent | get_RSS.py:142 | a string without the separator splits into itself alone |
| Text.JoinSplit | get_RSS.py:142 | joining the pieces of a split with the separator gives back the string |
| Text.SplitPiecesFree | get_RSS.py:142 | no piece of a split contains the separator |
| Text.SplitJoin | get_RSS.py:58-60 | splitting the join of separator-free pieces gives back the pieces |
| Text.Strip | get_RSS.py:58 | the stripped string is no longer than the input and is empty or neither starts nor ends with whitespace |
| Text.StripKeepsChars | get_RSS.py:58 | every character of the stripped string occurs in the input |
| Text.StripIdempotent | get_RSS.py:58 | stripping twice equals stripping once |
| Text.StripPadded | get_RSS.py:58 | whitespace padding around a word that does not start or end with whitespace is exactly what is removed |
| Text.StripEmptyIff | get_RSS.py:58 | a string strips to "" exactly when it is all whitespace |
| Text.Lower | get_RSS.py:140 | ASCII `lower()`: each capital mapped to its small letter, every other character kept in place |
| Text.LowerIdempotent | get_RSS.py:140 | lower-cased text has no capital letter, and lowering again changes nothing |
| Text.LowerOfLowercase | get_RSS.py:140 | text without capital letters is its own lower-case form |
| Matcher.Keywords | get_RSS.py:142 | the terms of a query: its "AND"-separated pieces, each stripped and lower-cased (characterised by the lemmas below) |
| Matcher.SearchText | get_RSS.py:140 | the text searched is the lower-cased title, a space and the summary |
| Matcher.MatchQuery | get_RSS.py:143-148 | the inner loop answers true exactly when every term of the query is a substring of the text |
| Matcher.MatchEntry | get_RSS.py:139-150 | the result is true exactly when some query has all its terms in the lower-cased title and summary |
| Matcher.NoQueriesNoMatch | get_RSS.py:141-150 | an empty query list matches nothing |
| Matcher.EmptyTermsMatchEverything | get_RSS.py:142-148 | a query whose terms are all empty matches every entry |
| Matcher.KeywordsOfTwoPieces | get_RSS.py:142 | a query that splits into two pieces has their stripped, lower-cased forms as its terms |
| Matcher.TwoTermQuery | get_RSS.py:142 | "x AND y", with no "AND" in x or y, has exactly the terms of x and y |
| Matcher.TwoTermQueryMatches | get_RSS.py:142-148 | such a query matches exactly when both terms occur in the text |
| Matcher.AndroidIsSplit | get_RSS.py:142-148 | a query starting with "AND", such as "ANDROID", has an empty first term and matches whenever its second term occurs |
| Entries.Ids | get_RSS.py:201 | the set of ids of a list of entries |
| Entries.Flatten | get_RSS.py:207-209 | the fetched entries in url-then-feed order |
| Merge.NewEntries | get_RSS.py:209-216 | the entries the merge appends, in fetch order: an entry is taken when its id is neither seen before nor taken earlier and it matches a query |
| Merge.MergeFetched | get_RSS.py:200-217 | afterwards the list is the existing entries followed by `NewEntries` of the fetched entries, the seen set is exactly the ids in the list, and the count is the number of appended entries |
| Merge.MergeFeed | get_RSS.py:209-216 | the loop over one feed appends the entries `NewEntries` takes from it, records their ids and counts them |
| Merge.NewEntriesSnoc | get_RSS.py:209-216 | one more fetched entry is either appended, when its id is unseen and it matches, or leaves the result unchanged |
| Merge.NewEntriesAppend | get_RSS.py:207-216 | walking two lists of entries one after the other takes what the first takes, then what the second takes with those ids seen |
| Merge.NewEntriesInFetchOrder | get_RSS.py:207-214 | the appended entries are a subsequence of the fetched entries in url-then-feed order |
| Merge.NewEntriesMatch | get_RSS.py:213-214 | every appended entry matches a query |
| Merge.NewEntriesFresh | get_RSS.py:201-215 | no appended entry has an id of an existing entry, and no two appended entries share an id |
| Merge.NewEntriesComplete | get_RSS.py:210-215 | every fetched entry that matches ends with its id seen: nothing that matches is lost |
| Merge.MergeKeepsIdsDistinct | get_RSS.py:201-215 | when the existing entries have distinct ids, so does the merged list |
| Merge.DuplicateSkippedFreshAppended | get_RSS.py:210-216 | a fetched entry with an existing id is skipped while a new matching one is appended |
| DateOrder.SortByDate | get_RSS.py:156 | the stable newest-first sort, as successive insertions (characterised by the lemmas below) |
| DateOrder.SortByDateInPlace | get_RSS.py:156 | the array ends up as `SortByDate` of its old contents |
| DateOrder.InsertLast | get_RSS.py:156 | one pass moves the next element into its place in the sorted prefix and leaves the rest alone |
| DateOrder.InsertPermutes | get_RSS.py:156 | insertion adds the element and keeps every other one |
| DateOrder.InsertSorted | get_RSS.py:156 | inserting into a newest-first list keeps it newest first |
| DateOrder.SortByDateSorted | get_RSS.py:156 | the sorted list is non-increasing by date |
| DateOrder.SortByDatePermutes | get_RSS.py:156 | the sorted list is a permutation of the input |
| DateOrder.InsertStable | get_RSS.py:156 | insertion puts the element behind every entry of its own date |
| DateOrder.SortByDateStable | get_RSS.py:156 | the entries of each date appear in the sorted list in their input order |
| DateOrder.OfDatePrefix | get_RSS.py:157 | the entries of one date in a prefix are the first of that date's entries |
| DateOrder.SortByDateOnSorted | get_RSS.py:156 | a list already newest first is left as it is |
| DateOrder.InsertIds | get_RSS.py:156 | insertion adds the element's id and keeps ids distinct when that id is new |
| DateOrder.SortByDateIds | get_RSS.py:156 | sorting keeps the set of ids, and keeps them distinct |
| DateOrder.InsertAt | get_RSS.py:156 | insertion places the element after the entries at least as new and before the strictly older ones |
| Output.RenderedTextIsLegal | get_RSS.py:165-167 | title, description and author of an item hold no illegal character |
| Output.HistoricalTitleVerbatim | get_RSS.py:160-165 | a previously published title is written as cleaned, and verbatim when already clean, so no second tag is ever added |
| Output.FreshTitleTagged | get_RSS.py:161-165 | a fresh title is "[" + cleaned code + "] " + cleaned title |
| Output.FreshTitleUsesJournalCode | get_RSS.py:161-165 | the code in a fresh title is the journal's code, at most 15 characters long |
| Output.KeepNewest | get_RSS.py:157 | the cut list is the first min(n, 1000) entries |
| Output.KeepNewestDropsOnlyOlder | get_RSS.py:156-157 | no dropped entry of a newest-first list is newer than a kept one |
| Output.Published | get_RSS.py:156-157 | min(n, 1000) entries are published |
| Output.PublishedSorted | get_RSS.py:156-157 | what is published is newest first |
| Output.PublishedFromInput | get_RSS.py:156-157 | what is published is a sub-multiset of the input, and all of it when there are at most 1000 entries |
| Output.PublishedStable | get_RSS.py:156-157 | among entries of one date, the published ones are the earliest of them in input order |
| Output.PublishedNewest | get_RSS.py:156-157 | no entry cut off is newer than a published one |
| Output.PublishedGuidsDistinct | get_RSS.py:156-177 | entries with distinct ids are published as items with distinct guids |
| Output.DisplayTitle | get_RSS.py:160-163 | the title shown: an old item's title as it is, a fresh one's with the journal code in brackets in front |
| Output.Render | get_RSS.py:165-176 | the item for an entry given its journal code: cleaned title, summary and journal; link, id and date passed through |
| Output.RenderItem | get_RSS.py:160-176 | the item written for an entry: cleaned, possibly tagged title; link; cleaned summary as description; cleaned journal as author; id as guid; date |
| Output.RenderAll | get_RSS.py:159-177 | one item per entry |
| Output.RenderAllPointwise | get_RSS.py:159-177 | the k-th item is the rendering of the k-th entry |
| Output.GenerateItems | get_RSS.py:152-177 | the array is sorted in place and the items are the renderings of the published entries, in order |
| Output.RenderEntries | get_RSS.py:159-177 | the item loop yields exactly the renderings of the entries, in order |
| Config.LoadConfig | get_RSS.py:52-67 | a set, non-empty variable wins; otherwise the file's lines when the file exists; otherwise no items |
| Config.ParseConfigContent | get_RSS.py:57-60 | content with a newline is split on newlines, other content on semicolons, then filtered |
| Config.ParseConfigFile | get_RSS.py:65 | each file line is stripped and kept when non-empty and not starting with "#" as read |
| Config.StrippedNonEmpty | get_RSS.py:58-60 | each piece stripped, those that strip to "" dropped, the rest in order |
| Config.StrippedNonEmptyItems | get_RSS.py:58-60 | the filtered pieces are non-empty and stripped, and no more numerous than the pieces |
| Config.StrippedNonEmptyConcat | get_RSS.py:58-60 | filtering a concatenation filters each part |
| Config.StrippedNonEmptySingle | get_RSS.py:58-60 | a single piece is kept, stripped, exactly when it does not strip to "" |
| Config.StrippedNonEmptyOfItems | get_RSS.py:58-60 | pieces that are already non-empty and stripped pass unchanged |
| Config.StrippedAvoid | get_RSS.py:58-60 | a character absent from every piece is absent from every item |
| Config.ParseConfigContentItems | get_RSS.py:57-60 | items from the variable are non-empty, stripped, never hold a newline, and hold no semicolon when the content is one line |
| Config.SemicolonRoundTrip | get_RSS.py:59-60 | items joined by ";" on one line are read back as they were |
| Config.NewLineRoundTrip | get_RSS.py:57-58 | two or more items joined by newlines are read back as they were, semicolons inside them kept |
| Config.ParseConfigFileItems | get_RSS.py:65 | items from the file are non-empty and stripped, and no more numerous than the lines |
| Config.ParseConfigFileConcat | get_RSS.py:65 | the file is parsed line by line: parsing a concatenation parses each part |
| Config.ParseConfigFileSingle | get_RSS.py:65 | a line is kept, stripped, exactly when it does not strip to "" and does not start with "#" as read |
| Config.CommentLineDropped | get_RSS.py:65 | a line starting with "#" is dropped |
| Config.IndentedCommentKept | get_RSS.py:65 | a "#" after leading blanks does not make a comment: the line is kept, "#" included |
| Config.LoadConfigItems | get_RSS.py:52-67 | whatever the source, every configured item is non-empty and stripped |
| Config.CommentsOnlyInFile | get_RSS.py:54-65 | an item starting with "#" is kept from the variable and dropped from the file |
| Pipeline.Run | get_RSS.py:196-220 | with no feeds or no queries nothing is produced; otherwise the items are the rendering of the published part of the existing entries followed by the new ones, the count is the number appended, and no guid repeats when the existing ids are distinct |
| Pipeline.MergedGuidsDistinct | get_RSS.py:200-220 | when the previously published entries have distinct ids, the items written after the merge have distinct guids |

## Left out

- Fetching and parsing feeds (`parse_rss`, with its retries, `time.sleep` and bozo check) and reading back the previous output (`get_existing_items`) are left out: they are network and file I/O through the third-party feedparser. Fetched and existing entries are inputs of `Pipeline.Run` and `Merge.MergeFetched`.
- Building the rfeed `Item`, `Guid` and `Feed` objects and writing the file are left out, as a foreign library and I/O. `Output.RssItem` is a record of the item's fields. The channel constants and `lastBuildDate` are not modelled.
- Reading the environment, testing for the file and opening it in `load_config` are left out. The variable's value and the file's lines are `Option` parameters of `Config.LoadConfig`. The lines are given as read, so a trailing newline is part of each line and is removed by stripping.
- `print` logging is left out everywhere.
- `convert_struct_time_to_datetime`, `time.mktime` and `datetime` are left out because they depend on clock and time zone. `pubDate` is an integer and only its order matters.
- Python's `lower()` and `strip()` are modelled over ASCII only. Lowering changes only A-Z, and whitespace is tab, line feed, vertical tab, form feed, carriage return, 0x1C-0x1F and space. Non-ASCII letters and Unicode spaces are left out.
- `remove_illegal_xml_chars(None)` is left out. Model strings are never `None`, and the empty string maps to "" as in the source.
- Entries are records with every field present. `item.get('is_old', False)` is the `isOld` field, false for fetched entries.
- DateOrder.SortByDateInPlace: the model uses an in-place stable insertion sort in place of Python's Timsort. A stable sort's output is uniquely determined, so the specification `SortByDate` is the same. Running time is not modelled.
