/** The incremental merge in `main`: previously published entries are kept as
    they are, and freshly fetched entries are appended when their id has not
    been seen yet and they match a query. */
module Merge {
  import opened Sequences
  import opened Entries
  import opened Matcher

  /** The entries the merge appends, given the ids seen before the fetched
      entries are walked: an entry is taken when its id is neither among those
      ids nor among the ids of entries already taken, and it matches a query. */
  function NewEntries(seed: set<string>, fetched: seq<Entry>, queries: seq<string>): seq<Entry>
    decreases |fetched|
  {
    if fetched == [] then []
    else
      var taken := NewEntries(seed, fetched[..|fetched| - 1], queries);
      var e := fetched[|fetched| - 1];
      if e.id in seed + Ids(taken) || !Matches(e, queries) then taken else taken + [e]
  }

  /** The merge loop of `main`: `seen` starts as the ids of the existing
      entries and `all` as a copy of them; the fetched entries are walked feed
      by feed. Afterwards `all` is the existing entries followed by the
      appended ones, `seen` holds exactly the ids in `all`, and `newCount`
      counts the appended entries. */
  method MergeFetched(existing: seq<Entry>, fetched: seq<seq<Entry>>, queries: seq<string>)
    returns (all: seq<Entry>, seen: set<string>, newCount: nat)
    ensures all == existing + NewEntries(Ids(existing), Flatten(fetched), queries)
    ensures seen == Ids(all)
    ensures newCount == |all| - |existing|
  {
    ghost var seed := Ids(existing);
    ghost var walked: seq<Entry> := [];
    ghost var taken: seq<Entry> := [];
    seen := Ids(existing);
    all := existing;
    newCount := 0;
    for u := 0 to |fetched|
      invariant walked == Flatten(fetched[..u])
      invariant taken == NewEntries(seed, walked, queries)
      invariant all == existing + taken
      invariant seen == seed + Ids(taken)
      invariant newCount == |taken|
    {
      ghost var second := NewEntries(seed + Ids(taken), fetched[u], queries);
      var added;
      all, seen, added := MergeFeed(all, seen, fetched[u], queries);
      newCount := newCount + added;
      assert NewEntries(seed, walked + fetched[u], queries) == taken + second by {
        NewEntriesAppend(seed, walked, fetched[u], queries);
      }
      assert seen == seed + Ids(taken + second) by {
        IdsConcat(taken, second);
      }
      assert all == existing + (taken + second);
      assert walked + fetched[u] == Flatten(fetched[..u + 1]) by {
        FlattenSnoc(fetched, u);
      }
      walked := walked + fetched[u];
      taken := taken + second;
    }
    assert fetched[..|fetched|] == fetched;
    IdsConcat(existing, taken);
  }

  /** The inner loop of the merge, over the entries of one feed: an entry whose
      id is in `seen` is skipped, otherwise it is appended and its id recorded
      when it matches a query. */
  method MergeFeed(all0: seq<Entry>, seen0: set<string>, entries: seq<Entry>, queries: seq<string>)
    returns (all: seq<Entry>, seen: set<string>, added: nat)
    ensures all == all0 + NewEntries(seen0, entries, queries)
    ensures seen == seen0 + Ids(NewEntries(seen0, entries, queries))
    ensures added == |all| - |all0|
  {
    all, seen, added := all0, seen0, 0;
    ghost var taken: seq<Entry> := [];
    for k := 0 to |entries|
      invariant taken == NewEntries(seen0, entries[..k], queries)
      invariant all == all0 + taken
      invariant seen == seen0 + Ids(taken)
      invariant added == |taken|
    {
      var entry := entries[k];
      assert entries[..k + 1] == entries[..k] + [entry];
      NewEntriesSnoc(seen0, entries[..k], entry, queries);
      if entry.id in seen {
        continue;
      }
      var isMatch := MatchEntry(entry, queries);
      if isMatch {
        IdsSnoc(taken, entry);
        taken := taken + [entry];
        all := all + [entry];
        seen := seen + {entry.id};
        added := added + 1;
      }
    }
    assert entries[..|entries|] == entries;
  }

  /** One more fetched entry either is taken or leaves the result as it was. */
  lemma NewEntriesSnoc(seed: set<string>, fetched: seq<Entry>, e: Entry, queries: seq<string>)
    ensures var taken := NewEntries(seed, fetched, queries);
      NewEntries(seed, fetched + [e], queries)
        == if e.id in seed + Ids(taken) || !Matches(e, queries) then taken else taken + [e]
  {
    assert (fetched + [e])[..|fetched|] == fetched;
  }

  /** Walking `xs` then `ys` takes what `xs` takes, then what `ys` takes once the
      ids taken from `xs` count as seen: the merge can go feed by feed. */
  lemma {:induction false} NewEntriesAppend(seed: set<string>, xs: seq<Entry>, ys: seq<Entry>, queries: seq<string>)
    ensures var first := NewEntries(seed, xs, queries);
      var second := NewEntries(seed + Ids(first), ys, queries);
      NewEntries(seed, xs + ys, queries) == first + second
    decreases |ys|
  {
    var first := NewEntries(seed, xs, queries);
    if ys == [] {
      assert xs + ys == xs;
    } else {
      var init := ys[..|ys| - 1];
      var y := ys[|ys| - 1];
      var rest := NewEntries(seed + Ids(first), init, queries);
      var skip := y.id in seed + Ids(first + rest) || !Matches(y, queries);
      assert NewEntries(seed, xs + ys, queries)
          == if skip then first + rest else (first + rest) + [y] by {
        NewEntriesAppend(seed, xs, init, queries);
        AppendLast(xs, ys);
        NewEntriesSnoc(seed, xs + init, y, queries);
      }
      assert NewEntries(seed + Ids(first), ys, queries)
          == if skip then rest else rest + [y] by {
        AppendLast([], ys);
        NewEntriesSnoc(seed + Ids(first), init, y, queries);
        IdsConcat(first, rest);
        assert seed + Ids(first + rest) == (seed + Ids(first)) + Ids(rest);
      }
      assert (first + rest) + [y] == first + (rest + [y]);
    }
  }

  /** The appended entries keep the order in which they were fetched. */
  lemma {:induction false} NewEntriesInFetchOrder(seed: set<string>, fetched: seq<Entry>, queries: seq<string>)
    ensures IsSubsequence(NewEntries(seed, fetched, queries), fetched)
    decreases |fetched|
  {
    if fetched != [] {
      var prefix := fetched[..|fetched| - 1];
      var e := fetched[|fetched| - 1];
      NewEntriesInFetchOrder(seed, prefix, queries);
      SubsequenceExtend(NewEntries(seed, prefix, queries), prefix, e);
      assert prefix + [e] == fetched;
    }
  }

  /** Every appended entry matches a query. */
  lemma {:induction false} NewEntriesMatch(seed: set<string>, fetched: seq<Entry>, queries: seq<string>)
    ensures forall i :: 0 <= i < |NewEntries(seed, fetched, queries)| ==>
      Matches(NewEntries(seed, fetched, queries)[i], queries)
    decreases |fetched|
  {
    if fetched != [] {
      NewEntriesMatch(seed, fetched[..|fetched| - 1], queries);
    }
  }

  /** No appended entry has a seed id, and no two appended entries share an id. */
  lemma {:induction false} NewEntriesFresh(seed: set<string>, fetched: seq<Entry>, queries: seq<string>)
    ensures var taken := NewEntries(seed, fetched, queries);
      && (forall i :: 0 <= i < |taken| ==> taken[i].id !in seed)
      && DistinctIds(taken)
    decreases |fetched|
  {
    if fetched != [] {
      var prefix := fetched[..|fetched| - 1];
      var e := fetched[|fetched| - 1];
      var before := NewEntries(seed, prefix, queries);
      NewEntriesFresh(seed, prefix, queries);
      if !(e.id in seed + Ids(before)) && Matches(e, queries) {
        var taken := before + [e];
        forall i | 0 <= i < |before| ensures before[i].id != e.id {
          assert before[i] in before;
        }
        assert forall i :: 0 <= i < |before| ==> taken[i] == before[i];
      }
    }
  }

  /** Nothing matching is lost: a fetched entry that matches a query ends with
      its id seen, either from the seed or from an appended entry. */
  lemma {:induction false} NewEntriesComplete(seed: set<string>, fetched: seq<Entry>, queries: seq<string>)
    ensures forall e :: e in fetched && Matches(e, queries) ==>
      e.id in seed + Ids(NewEntries(seed, fetched, queries))
    decreases |fetched|
  {
    if fetched != [] {
      var prefix := fetched[..|fetched| - 1];
      var last := fetched[|fetched| - 1];
      var before := NewEntries(seed, prefix, queries);
      NewEntriesComplete(seed, prefix, queries);
      var after := NewEntries(seed, fetched, queries);
      assert Ids(before) <= Ids(after) && (Matches(last, queries) ==> last.id in seed + Ids(after)) by {
        if !(last.id in seed + Ids(before)) && Matches(last, queries) {
          IdsSnoc(before, last);
        }
      }
      InFrontOrLast(fetched);
    }
  }

  /** When the existing entries have distinct ids, so has the merged list. */
  lemma MergeKeepsIdsDistinct(existing: seq<Entry>, fetched: seq<Entry>, queries: seq<string>)
    requires DistinctIds(existing)
    ensures DistinctIds(existing + NewEntries(Ids(existing), fetched, queries))
  {
    var taken := NewEntries(Ids(existing), fetched, queries);
    var all := existing + taken;
    NewEntriesFresh(Ids(existing), fetched, queries);
    forall i, j | 0 <= i < j < |all| ensures all[i].id != all[j].id {
      if j >= |existing| && i < |existing| {
        assert all[i] in existing;
        assert all[j] == taken[j - |existing|];
      } else if i >= |existing| {
        assert all[i] == taken[i - |existing|] && all[j] == taken[j - |existing|];
      }
    }
  }

  /** An entry whose id was already published is never appended again, while a
      new matching entry is: with one existing entry `a` and fetched entries
      `dup` (same id as `a`) then `novel` (new id, matching), exactly `novel` is
      appended. */
  lemma DuplicateSkippedFreshAppended(a: Entry, dup: Entry, novel: Entry, queries: seq<string>)
    requires dup.id == a.id && novel.id != a.id
    requires Matches(novel, queries)
    ensures [a] + NewEntries(Ids([a]), [dup, novel], queries) == [a, novel]
  {
    assert Ids([a]) == {a.id};
    assert [dup, novel][..1] == [dup];
    assert [dup][..0] == [];
    assert NewEntries(Ids([a]), [dup], queries) == [];
    assert Ids([]) == {};
  }
}
