/** Keyword queries (`match_entry`): a query is a list of terms joined by the
    literal, case-sensitive delimiter "AND"; an entry matches a query when every
    trimmed, lower-cased term is a substring of its lower-cased title and
    summary, and matches a query list when it matches any query in it. */
module Matcher {
  import opened Text
  import opened Entries

  /** The term delimiter inside a query. */
  const AndDelimiter: string := "AND"

  /** The text searched: the lower-cased title and summary joined by a space. */
  function SearchText(e: Entry): string
  {
    Lower(e.title + " " + e.summary)
  }

  /** The terms of a query: its "AND"-separated pieces, each trimmed and lower-cased. */
  function Keywords(query: string): seq<string>
  {
    var pieces := Split(query, AndDelimiter);
    seq(|pieces|, i requires 0 <= i < |pieces| => Lower(Strip(pieces[i])))
  }

  /** Every term of the query occurs in the text. */
  predicate QueryMatches(text: string, query: string)
  {
    AllOccur(text, Keywords(query))
  }

  /** Every one of the terms is a substring of the text. */
  predicate AllOccur(text: string, terms: seq<string>)
  {
    forall j :: 0 <= j < |terms| ==> Contains(text, terms[j])
  }

  /** Two terms occur when the first does and the second does. */
  lemma AllOccurPair(text: string, terms: seq<string>)
    requires |terms| == 2
    ensures AllOccur(text, terms) <==> Contains(text, terms[0]) && Contains(text, terms[1])
  {
  }

  /** Some query of the list matches the entry. */
  predicate Matches(e: Entry, queries: seq<string>)
  {
    exists i :: 0 <= i < |queries| && QueryMatches(SearchText(e), queries[i])
  }

  /** `match_entry`: try the queries in order and return true at the first
      query whose terms all occur. */
  method MatchEntry(e: Entry, queries: seq<string>) returns (r: bool)
    ensures r == Matches(e, queries)
  {
    var text := SearchText(e);
    for qi := 0 to |queries|
      invariant forall j :: 0 <= j < qi ==> !QueryMatches(text, queries[j])
    {
      var matched := MatchQuery(text, queries[qi]);
      if matched {
        assert 0 <= qi < |queries| && QueryMatches(text, queries[qi]);
        return true;
      }
      NoneMatchExtend(text, queries, qi);
    }
    return false;
  }

  /** The queries before `qi` and the one at `qi` all fail, so the first
      `qi + 1` do. */
  lemma NoneMatchExtend(text: string, queries: seq<string>, qi: nat)
    requires qi < |queries|
    requires forall j :: 0 <= j < qi ==> !QueryMatches(text, queries[j])
    requires !QueryMatches(text, queries[qi])
    ensures forall j :: 0 <= j < qi + 1 ==> !QueryMatches(text, queries[j])
  {
  }

  /** The body of the query loop of `match_entry`: split the query into terms
      and check them in order, stopping at the first one missing from the text. */
  method MatchQuery(text: string, query: string) returns (matched: bool)
    ensures matched == QueryMatches(text, query)
  {
    var keywords := Keywords(query);
    matched := true;
    var ki := 0;
    while ki < |keywords|
      invariant 0 <= ki <= |keywords|
      invariant matched
      invariant forall j :: 0 <= j < ki ==> Contains(text, keywords[j])
    {
      if !Contains(text, keywords[ki]) {
        matched := false;
        break;
      }
      ki := ki + 1;
    }
  }

  /** An empty query list matches nothing. */
  lemma NoQueriesNoMatch(e: Entry)
    ensures !Matches(e, [])
  {
  }

  /** A query whose terms are all empty (such as "", "  " or "AND") matches
      every entry, because the empty string is a substring of any text. */
  lemma EmptyTermsMatchEverything(e: Entry, queries: seq<string>, q: string)
    requires q in queries
    requires forall k :: k in Keywords(q) ==> k == ""
    ensures Matches(e, queries)
  {
    var ks := Keywords(q);
    assert forall j :: 0 <= j < |ks| ==> ks[j] in ks;
    ContainsEmpty(SearchText(e));
    var i :| 0 <= i < |queries| && queries[i] == q;
    assert QueryMatches(SearchText(e), queries[i]);
  }

  /** A query split into two pieces has their trimmed, lower-cased forms as terms. */
  lemma KeywordsOfTwoPieces(query: string, x: string, y: string)
    requires Split(query, AndDelimiter) == [x, y]
    ensures Keywords(query) == [Lower(Strip(x)), Lower(Strip(y))]
  {
    var ks := Keywords(query);
    assert |ks| == 2;
  }

  /** A query with exactly one delimiter has exactly two terms: the trimmed,
      lower-cased text before and after it. "AND" cannot overlap itself, so no
      occurrence straddles the boundary. */
  lemma TwoTermQuery(before: string, after: string)
    requires !Contains(before, AndDelimiter) && !Contains(after, AndDelimiter)
    ensures Keywords(before + AndDelimiter + after) == [Lower(Strip(before)), Lower(Strip(after))]
  {
    var q := before + AndDelimiter + after;
    var n := |before|;
    assert OccursAt(q, AndDelimiter, n) by {
      assert q[n..n + 3] == AndDelimiter;
    }
    IndexOfSpec(before, AndDelimiter);
    forall j | 0 <= j < n ensures !OccursAt(q, AndDelimiter, j) {
      if j + 3 <= n {
        assert q[j..j + 3] == before[j..j + 3];
        assert !OccursAt(before, AndDelimiter, j);
      } else {
        assert q[j..j + 3][n - j] == q[n] == 'A';
      }
    }
    SplitAtFirst(q, AndDelimiter, n);
    assert q[..n] == before && q[n + 3..] == after;
    SplitAbsent(after, AndDelimiter);
    KeywordsOfTwoPieces(q, before, after);
  }

  /** Such a query matches exactly when both of its terms occur in the text. */
  lemma TwoTermQueryMatches(text: string, before: string, after: string)
    requires !Contains(before, AndDelimiter) && !Contains(after, AndDelimiter)
    ensures QueryMatches(text, before + AndDelimiter + after)
      <==> Contains(text, Lower(Strip(before))) && Contains(text, Lower(Strip(after)))
  {
    TwoTermQuery(before, after);
    AllOccurPair(text, Keywords(before + AndDelimiter + after));
  }

  /** The delimiter is found inside words too: a query starting with "AND", such
      as "ANDROID", has an empty first term, so "ANDROID" matches any text
      containing "roid". */
  lemma AndroidIsSplit(text: string, rest: string)
    requires !Contains(rest, AndDelimiter)
    ensures Keywords(AndDelimiter + rest) == ["", Lower(Strip(rest))]
    ensures QueryMatches(text, AndDelimiter + rest) <==> Contains(text, Lower(Strip(rest)))
  {
    var q := AndDelimiter + rest;
    assert OccursAt(q, AndDelimiter, 0) by {
      assert q[..3] == AndDelimiter;
    }
    SplitAtFirst(q, AndDelimiter, 0);
    assert q[..0] == "" && q[3..] == rest;
    SplitAbsent(rest, AndDelimiter);
    KeywordsOfTwoPieces(q, "", rest);
    assert Lower(Strip("")) == "";
    AllOccurPair(text, Keywords(q));
    ContainsEmpty(text);
  }
}
