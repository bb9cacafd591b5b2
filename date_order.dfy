/** Newest-first ordering of entries by publication date, as done by the
    stable `items.sort(key=pub_date, reverse=True)` before rendering. */
module DateOrder {
  import opened Sequences
  import opened Entries

  /** No entry is newer than one before it. */
  predicate SortedNewestFirst(s: seq<Entry>)
  {
    forall i, j :: 0 <= i < j < |s| ==> s[i].pubDate >= s[j].pubDate
  }

  /** Insert `x` into `t` after every entry at least as new as `x`, searching
      from the back: the place an insertion sort finds for it. */
  function Insert(t: seq<Entry>, x: Entry): seq<Entry>
    decreases |t|
  {
    if t == [] || t[|t| - 1].pubDate >= x.pubDate then t + [x]
    else Insert(t[..|t| - 1], x) + [t[|t| - 1]]
  }

  /** Stable newest-first sort: each entry in turn is inserted into the sorted
      sort of the entries before it. Entries with equal dates keep their input
      order, as Python's stable sort with `reverse=True` keeps them. */
  function SortByDate(s: seq<Entry>): seq<Entry>
    decreases |s|
  {
    if s == [] then [] else Insert(SortByDate(s[..|s| - 1]), s[|s| - 1])
  }

  /** The entries of `s` published at `d`, in their order in `s`. */
  function OfDate(s: seq<Entry>, d: int): seq<Entry>
    decreases |s|
  {
    if s == [] then []
    else OfDate(s[..|s| - 1], d) + (if s[|s| - 1].pubDate == d then [s[|s| - 1]] else [])
  }

  /** Insertion adds `x` and keeps every entry. */
  lemma {:induction false} InsertPermutes(t: seq<Entry>, x: Entry)
    ensures multiset(Insert(t, x)) == multiset(t) + multiset{x}
    decreases |t|
  {
    if !(t == [] || t[|t| - 1].pubDate >= x.pubDate) {
      var front := t[..|t| - 1];
      InsertPermutes(front, x);
      assert t == front + [t[|t| - 1]];
    }
  }

  /** Insertion into a sorted list gives a sorted list. */
  lemma {:induction false} InsertSorted(t: seq<Entry>, x: Entry)
    requires SortedNewestFirst(t)
    ensures SortedNewestFirst(Insert(t, x))
    decreases |t|
  {
    if t == [] || t[|t| - 1].pubDate >= x.pubDate {
      var r := t + [x];
      forall i, j | 0 <= i < j < |r| ensures r[i].pubDate >= r[j].pubDate {
        if j == |t| {
          assert r[i].pubDate >= t[|t| - 1].pubDate;
        }
      }
    } else {
      var front := t[..|t| - 1];
      var last := t[|t| - 1];
      var mid := Insert(front, x);
      InsertSorted(front, x);
      InsertPermutes(front, x);
      var r := mid + [last];
      forall i, j | 0 <= i < j < |r| ensures r[i].pubDate >= r[j].pubDate {
        if j == |mid| {
          assert mid[i] in multiset(mid);
          assert mid[i] in multiset(front) + multiset{x};
          if mid[i] != x {
            var k :| 0 <= k < |front| && front[k] == mid[i];
            assert t[k] == front[k];
          }
        }
      }
    }
  }

  /** The sort's result is ordered newest first. */
  lemma {:induction false} SortByDateSorted(s: seq<Entry>)
    ensures SortedNewestFirst(SortByDate(s))
    decreases |s|
  {
    if s != [] {
      SortByDateSorted(s[..|s| - 1]);
      InsertSorted(SortByDate(s[..|s| - 1]), s[|s| - 1]);
    }
  }

  /** The sort's result holds exactly the input's entries. */
  lemma {:induction false} SortByDatePermutes(s: seq<Entry>)
    ensures multiset(SortByDate(s)) == multiset(s)
    ensures |SortByDate(s)| == |s|
    decreases |s|
  {
    if s != [] {
      var front := s[..|s| - 1];
      SortByDatePermutes(front);
      InsertPermutes(SortByDate(front), s[|s| - 1]);
      assert s == front + [s[|s| - 1]];
    }
    assert |multiset(SortByDate(s))| == |SortByDate(s)|;
  }

  /** Insertion adds `x`'s id and keeps ids distinct when `x`'s id is new. */
  lemma {:induction false} InsertIds(t: seq<Entry>, x: Entry)
    ensures Ids(Insert(t, x)) == Ids(t) + {x.id}
    ensures DistinctIds(t) && x.id !in Ids(t) ==> DistinctIds(Insert(t, x))
    decreases |t|
  {
    if t == [] || t[|t| - 1].pubDate >= x.pubDate {
      IdsSnoc(t, x);
      DistinctIdsSnoc(t, x);
    } else {
      var front := t[..|t| - 1];
      var last := t[|t| - 1];
      assert t == front + [last];
      InsertIds(front, x);
      IdsSnoc(front, last);
      IdsSnoc(Insert(front, x), last);
      DistinctIdsSnoc(front, last);
      DistinctIdsSnoc(Insert(front, x), last);
    }
  }

  /** Sorting keeps the set of ids, and keeps them distinct. */
  lemma {:induction false} SortByDateIds(s: seq<Entry>)
    ensures Ids(SortByDate(s)) == Ids(s)
    ensures DistinctIds(s) ==> DistinctIds(SortByDate(s))
    decreases |s|
  {
    if s != [] {
      var front := s[..|s| - 1];
      var last := s[|s| - 1];
      assert s == front + [last];
      SortByDateIds(front);
      InsertIds(SortByDate(front), last);
      IdsSnoc(front, last);
      DistinctIdsSnoc(front, last);
    }
  }

  /** Filtering by date distributes over appending one entry. */
  lemma OfDateSnoc(s: seq<Entry>, y: Entry, d: int)
    ensures OfDate(s + [y], d) == OfDate(s, d) + (if y.pubDate == d then [y] else [])
  {
    assert (s + [y])[..|s|] == s;
  }

  /** Insertion places `x` behind every entry of its own date. */
  lemma {:induction false} InsertStable(t: seq<Entry>, x: Entry, d: int)
    ensures OfDate(Insert(t, x), d) == OfDate(t, d) + (if x.pubDate == d then [x] else [])
    decreases |t|
  {
    if t == [] || t[|t| - 1].pubDate >= x.pubDate {
      OfDateSnoc(t, x, d);
    } else {
      var front := t[..|t| - 1];
      var last := t[|t| - 1];
      assert Insert(t, x) == Insert(front, x) + [last];
      InsertStable(front, x, d);
      OfDateSnoc(Insert(front, x), last, d);
      AppendLast([], t);
      OfDateSnoc(front, last, d);
      if x.pubDate == d {
        assert last.pubDate != d;
      }
    }
  }

  /** Stability: the entries of any one date appear in the sorted list in the
      same order as in the input. */
  lemma {:induction false} SortByDateStable(s: seq<Entry>, d: int)
    ensures OfDate(SortByDate(s), d) == OfDate(s, d)
    decreases |s|
  {
    if s != [] {
      var front := s[..|s| - 1];
      SortByDateStable(front, d);
      InsertStable(SortByDate(front), s[|s| - 1], d);
    }
  }

  /** Filtering a prefix by date gives a prefix of the filtered list: the
      entries of one date that a prefix holds are the earliest of them. */
  lemma {:induction false} OfDatePrefix(s: seq<Entry>, k: nat, d: int)
    requires k <= |s|
    ensures OfDate(s[..k], d) <= OfDate(s, d)
    decreases |s|
  {
    if k < |s| {
      var front := s[..|s| - 1];
      assert front[..k] == s[..k];
      OfDatePrefix(front, k, d);
      assert OfDate(front, d) <= OfDate(s, d);
    } else {
      assert s[..k] == s;
    }
  }

  /** A list already ordered newest first is left as it is; this is the case
      of the previously published items, which were written out sorted. */
  lemma {:induction false} SortByDateOnSorted(s: seq<Entry>)
    requires SortedNewestFirst(s)
    ensures SortByDate(s) == s
    decreases |s|
  {
    if s != [] {
      var front := s[..|s| - 1];
      assert SortedNewestFirst(front) by {
        forall i, j | 0 <= i < j < |front| ensures front[i].pubDate >= front[j].pubDate {
          assert front[i] == s[i] && front[j] == s[j];
        }
      }
      SortByDateOnSorted(front);
      assert s == front + [s[|s| - 1]];
    }
  }

  /** Where insertion puts `x`: behind the first `j` entries when the entry
      before that point is at least as new as `x` and every entry from it on
      is strictly older. */
  lemma {:induction false} InsertAt(t: seq<Entry>, j: nat, x: Entry)
    requires j <= |t|
    requires j == 0 || t[j - 1].pubDate >= x.pubDate
    requires forall k :: j <= k < |t| ==> t[k].pubDate < x.pubDate
    ensures Insert(t, x) == t[..j] + [x] + t[j..]
    decreases |t|
  {
    if j == |t| {
      assert t[..j] == t && t[j..] == [];
    } else {
      var front := t[..|t| - 1];
      var last := t[|t| - 1];
      InsertAt(front, j, x);
      assert front[..j] == t[..j];
      assert front[j..] == t[j..|t| - 1];
      assert t[j..] == t[j..|t| - 1] + [last];
    }
  }

  /** `items.sort(key=pub_date, reverse=True)` on the array, as an insertion
      sort: each element in turn is moved into the sorted part before it. */
  method SortByDateInPlace(a: array<Entry>)
    modifies a
    ensures a[..] == SortByDate(old(a[..]))
  {
    ghost var s := a[..];
    for i := 0 to a.Length
      invariant a[..i] == SortByDate(s[..i])
      invariant a[i..] == s[i..]
    {
      assert a[i] == s[i];
      InsertLast(a, i);
      assert s[..i + 1] == s[..i] + [s[i]];
    }
    assert a[..a.Length] == a[..];
    assert s[..a.Length] == s;
  }

  /** One step of the insertion sort: `a[i]` is swapped towards the front past
      the strictly older entries of the sorted part `a[..i]`. */
  method InsertLast(a: array<Entry>, i: nat)
    requires i < a.Length
    modifies a
    ensures a[..i + 1] == Insert(old(a[..i]), old(a[i]))
    ensures a[i + 1..] == old(a[i + 1..])
  {
    var x := a[i];
    ghost var t := a[..i];
    var j := i;
    while j > 0 && a[j - 1].pubDate < x.pubDate
      invariant 0 <= j <= i
      invariant a[j] == x
      invariant forall k :: 0 <= k < j ==> a[k] == t[k]
      invariant forall k :: j < k <= i ==> a[k] == t[k - 1]
      invariant forall k :: i < k < a.Length ==> a[k] == old(a[k])
      invariant forall k :: j <= k < i ==> t[k].pubDate < x.pubDate
    {
      SwapWithNext(a, j - 1);
      j := j - 1;
    }
    InsertAt(t, j, x);
    ghost var r := t[..j] + [x] + t[j..];
    forall k | 0 <= k <= i ensures a[k] == r[k] {
      if k > j {
        assert r[k] == t[k - 1];
      }
    }
    assert a[..i + 1] == r;
  }

  /** Exchange `a[k]` and `a[k + 1]`, leaving the rest of the array alone. */
  method SwapWithNext(a: array<Entry>, k: nat)
    requires k + 1 < a.Length
    modifies a
    ensures a[k] == old(a[k + 1]) && a[k + 1] == old(a[k])
    ensures forall m :: 0 <= m < a.Length && m != k && m != k + 1 ==> a[m] == old(a[m])
  {
    a[k], a[k + 1] := a[k + 1], a[k];
  }
}
