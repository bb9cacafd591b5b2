/** The feed entry record shared by fetching, merging and rendering. */
module Entries {

  /** One feed item. `pubDate` is an opaque timestamp; `id` is the
      deduplication key (the feed's id, or the link when the feed has none);
      `isOld` marks items read back from the previous output. */
  datatype Entry = Entry(
    title: string,
    link: string,
    pubDate: int,
    summary: string,
    journal: string,
    id: string,
    isOld: bool)

  /** The ids of a list of entries. */
  function Ids(es: seq<Entry>): set<string>
  {
    set e | e in es :: e.id
  }

  /** No two entries of the list share an id. */
  predicate DistinctIds(es: seq<Entry>)
  {
    forall i, j :: 0 <= i < j < |es| ==> es[i].id != es[j].id
  }

  /** The ids of a list grown by one entry. */
  lemma IdsSnoc(es: seq<Entry>, e: Entry)
    ensures Ids(es + [e]) == Ids(es) + {e.id}
  {
    assert forall x :: x in es + [e] <==> x in es || x == e;
  }

  /** The ids of a concatenation. */
  lemma IdsConcat(a: seq<Entry>, b: seq<Entry>)
    ensures Ids(a + b) == Ids(a) + Ids(b)
  {
    assert forall x :: x in a + b <==> x in a || x in b;
  }

  /** A list grown by one entry has distinct ids exactly when the list had and
      the new entry's id is not among them. */
  lemma DistinctIdsSnoc(es: seq<Entry>, e: Entry)
    ensures DistinctIds(es + [e]) <==> DistinctIds(es) && e.id !in Ids(es)
  {
    var all := es + [e];
    if DistinctIds(all) {
      assert forall i, j :: 0 <= i < j < |es| ==> es[i] == all[i] && es[j] == all[j];
      forall i | 0 <= i < |es| ensures es[i].id != e.id {
        assert all[i] == es[i] && all[|es|] == e;
      }
    }
    if DistinctIds(es) && e.id !in Ids(es) {
      forall i, j | 0 <= i < j < |all| ensures all[i].id != all[j].id {
        if j == |es| {
          assert all[i] in es;
        } else {
          assert all[i] == es[i] && all[j] == es[j];
        }
      }
    }
  }

  /** The entries of all feeds, in feed order and within a feed in the feed's order. */
  function Flatten(feeds: seq<seq<Entry>>): (r: seq<Entry>)
    decreases |feeds|
  {
    if feeds == [] then [] else Flatten(feeds[..|feeds| - 1]) + feeds[|feeds| - 1]
  }

  /** Flattening one more feed appends its entries. */
  lemma FlattenSnoc(feeds: seq<seq<Entry>>, u: nat)
    requires u < |feeds|
    ensures Flatten(feeds[..u + 1]) == Flatten(feeds[..u]) + feeds[u]
  {
    assert feeds[..u + 1][..u] == feeds[..u];
  }
}
