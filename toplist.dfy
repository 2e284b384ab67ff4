// `dupeListToTopList` of src/Data.js:218-223 (textually identical copy at
// src/App.js:19-24): count the occurrences of every distinct element, sort
// the counts in descending order and keep the first `size` of them.

module TopList {
  import opened Common
  import opened Sorting
  import Helpers

  /** `{ thing: k, occurences: v }`, with the program's spelling. */
  datatype Entry = Entry(thing: string, occurences: nat)

  /** The default `size` of a top list. */
  const DefaultSize: nat := 5

  /** `Object.entries(countOccurrences(list))` as entries: every distinct
      element with its count, in first-seen order. */
  function Entries(list: seq<string>): (r: seq<Entry>)
    ensures |r| == |Dedup(list)|
    ensures forall i :: 0 <= i < |r| ==> r[i] == Entry(Dedup(list)[i], multiset(list)[Dedup(list)[i]])
  {
    var d := Dedup(list);
    seq(|d|, i requires 0 <= i < |d| => Entry(d[i], multiset(list)[d[i]]))
  }

  /** The comparator `a.occurences > b.occurences ? -1 : 1` read as "`a` may
      come before `b`": it never answers 0, so equal counts have no order of
      their own and may come in either order. */
  predicate ByCountDesc(a: Entry, b: Entry)
  {
    a.occurences >= b.occurences
  }

  lemma ByCountDescIsTotalPreorder()
    ensures TotalPreorder(ByCountDesc)
  {
  }

  /** `dupeListToTopList(list, size)`. */
  function TopList(list: seq<string>, size: nat): seq<Entry>
  {
    Take(Ranked(list), size)
  }

  lemma EntriesDistinct(list: seq<string>)
    ensures Distinct(Entries(list))
  {
    var e, d := Entries(list), Dedup(list);
    forall i, j | 0 <= i < j < |e| ensures e[i] != e[j] {
      assert e[i].thing == d[i] && e[j].thing == d[j];
    }
  }

  /** The sorted entries, before the cut. */
  function Ranked(list: seq<string>): seq<Entry>
  {
    SortBy(Entries(list), ByCountDesc)
  }

  lemma RankedEntries(list: seq<string>)
    ensures var s := Ranked(list);
      && |s| == |set x | x in list|
      && (forall k :: 0 <= k < |s| ==> s[k].thing in list && s[k].occurences == multiset(list)[s[k].thing])
      && (forall i, j :: 0 <= i < j < |s| ==> s[i].thing != s[j].thing)
      && (forall i, j :: 0 <= i < j < |s| ==> s[i].occurences >= s[j].occurences)
  {
    var e, d, s := Entries(list), Dedup(list), Ranked(list);
    ByCountDescIsTotalPreorder();
    SortBySpec(e, ByCountDesc);
    DistinctCardinality(d);
    assert (set x | x in list) == (set x | x in d);
    forall k | 0 <= k < |s|
      ensures s[k].thing in list && s[k].occurences == multiset(list)[s[k].thing]
    {
      assert s[k] in multiset(e);
      var m :| 0 <= m < |e| && e[m] == s[k];
    }
    EntriesDistinct(list);
    DistinctPermutation(e, s);
    forall i, j | 0 <= i < j < |s| ensures s[i].thing != s[j].thing {
      assert s[i] != s[j];
    }
  }

  /** Every distinct element of the list has its entry somewhere in the ranking. */
  lemma RankedComplete(list: seq<string>, x: string) returns (k: nat)
    requires x in list
    ensures k < |Ranked(list)| && Ranked(list)[k].thing == x
  {
    var e, d := Entries(list), Dedup(list);
    var m := FirstIndex(d, x);
    assert e[m].thing == x;
    assert e[m] in multiset(Ranked(list));
    k :| 0 <= k < |Ranked(list)| && Ranked(list)[k] == e[m];
  }

  /** Each entry of a top list is a distinct element of the list with its
      count; there are `size` entries or as many as there are distinct
      elements; the counts do not increase; and any element left out occurs
      no more often than any element shown. */
  lemma TopListSpec(list: seq<string>, size: nat)
    ensures var r := TopList(list, size);
      && |r| == (if size < |set x | x in list| then size else |set x | x in list|)
      && (forall i :: 0 <= i < |r| ==> r[i].thing in list && r[i].occurences == multiset(list)[r[i].thing])
      && (forall i, j :: 0 <= i < j < |r| ==> r[i].thing != r[j].thing)
      && (forall i, j :: 0 <= i < j < |r| ==> r[i].occurences >= r[j].occurences)
      && (forall x, i :: x in list && 0 <= i < |r| && (forall j :: 0 <= j < |r| ==> r[j].thing != x)
            ==> multiset(list)[x] <= r[i].occurences)
  {
    var s, r := Ranked(list), TopList(list, size);
    RankedEntries(list);
    assert r == s[..|r|];
    forall x, i | x in list && 0 <= i < |r| && (forall j :: 0 <= j < |r| ==> r[j].thing != x)
      ensures multiset(list)[x] <= r[i].occurences
    {
      var k := RankedComplete(list, x);
      assert k >= |r|;
      assert s[i] == r[i];
    }
  }

  /** The counts are those `countOccurrences` computes. */
  lemma EntriesAreOccurrences(list: seq<string>)
    ensures forall i :: 0 <= i < |Entries(list)| ==>
      Entries(list)[i].thing in Helpers.Occurrences(list)
      && Helpers.Occurrences(list)[Entries(list)[i].thing] == Entries(list)[i].occurences
  {
  }
}
