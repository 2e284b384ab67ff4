// The list helpers of src/Data.js:181-207 (`countOccurrences` has a
// textually identical copy at src/App.js:3-8).

module Helpers {
  import opened Common
  import opened Records

  // ---------------------------------------------------------------------
  // chunk

  /** One step of the reducer in `chunk`: start the first batch, start a new
      batch when the last one holds exactly `chunkSize` elements, or extend
      the last batch. */
  function ChunkStep<T>(acc: seq<seq<T>>, cur: T, chunkSize: int): seq<seq<T>>
  {
    if |acc| == 0 then [[cur]]
    else if |acc[|acc| - 1]| == chunkSize then acc + [[cur]]
    else acc[..|acc| - 1] + [acc[|acc| - 1] + [cur]]
  }

  /** `r` is a chunking of `arr`: the batches concatenate to `arr`, none is
      empty, and with a usable size every batch is full but the last. */
  ghost predicate Chunked<T>(r: seq<seq<T>>, arr: seq<T>, chunkSize: int)
  {
    && Flatten(r) == arr
    && (r == [] <==> arr == [])
    && (forall i :: 0 <= i < |r| ==> r[i] != [])
    && (chunkSize >= 1 ==> forall i :: 0 <= i < |r| ==> |r[i]| <= chunkSize)
    && (chunkSize >= 1 ==> forall i :: 0 <= i < |r| - 1 ==> |r[i]| == chunkSize)
  }

  /** Each reducer step keeps the batches a chunking of what has been seen. */
  lemma ChunkStepKeeps<T>(acc: seq<seq<T>>, seen: seq<T>, cur: T, chunkSize: int)
    requires Chunked(acc, seen, chunkSize)
    ensures Chunked(ChunkStep(acc, cur, chunkSize), seen + [cur], chunkSize)
  {
    if |acc| == 0 {
      assert Flatten([[cur]]) == [cur] + Flatten([]);
    } else if |acc[|acc| - 1]| == chunkSize {
      FlattenAppend(acc, [cur]);
    } else {
      var head, last := acc[..|acc| - 1], acc[|acc| - 1];
      assert acc == head + [last];
      FlattenAppend(head, last);
      FlattenAppend(head, last + [cur]);
      var r := ChunkStep(acc, cur, chunkSize);
      assert r == head + [last + [cur]];
      assert forall i :: 0 <= i < |head| ==> r[i] == acc[i];
    }
  }

  /** `chunk(arr, chunkSize)`: `arr.reduce(ChunkStep, [])`. */
  function Chunk<T>(arr: seq<T>, chunkSize: int): seq<seq<T>>
  {
    if arr == [] then [] else ChunkStep(Chunk(arr[..|arr| - 1], chunkSize), arr[|arr| - 1], chunkSize)
  }

  /** The chunks concatenate to the input, none is empty and there are none
      exactly for an empty input; with a size of at least 1 every chunk but
      the last holds exactly `chunkSize` elements and the last at most that. */
  lemma {:induction false} ChunkSpec<T>(arr: seq<T>, chunkSize: int)
    ensures var r := Chunk(arr, chunkSize);
      && Flatten(r) == arr
      && (r == [] <==> arr == [])
      && (forall i :: 0 <= i < |r| ==> r[i] != [])
      && (chunkSize >= 1 ==> forall i :: 0 <= i < |r| ==> |r[i]| <= chunkSize)
      && (chunkSize >= 1 ==> forall i :: 0 <= i < |r| - 1 ==> |r[i]| == chunkSize)
  {
    if arr != [] {
      var seen, cur := arr[..|arr| - 1], arr[|arr| - 1];
      ChunkSpec(seen, chunkSize);
      ChunkStepKeeps(Chunk(seen, chunkSize), seen, cur, chunkSize);
      assert seen + [cur] == arr;
    } else {
      assert Flatten<T>([]) == [];
    }
  }

  /** With a chunk size that no batch can reach, everything is one batch. */
  lemma {:induction false} ChunkNonPositive<T>(arr: seq<T>, chunkSize: int)
    requires chunkSize <= 0 && arr != []
    ensures Chunk(arr, chunkSize) == [arr]
  {
    var p, last := arr[..|arr| - 1], arr[|arr| - 1];
    assert Chunk(arr, chunkSize) == ChunkStep(Chunk(p, chunkSize), last, chunkSize);
    if p != [] {
      ChunkNonPositive(p, chunkSize);
      assert |p| != chunkSize;
      assert ChunkStep([p], last, chunkSize) == [p + [last]];
    }
    assert arr == p + [last];
  }

  // ---------------------------------------------------------------------
  // countOccurrences

  /** The dictionary `countOccurrences(s)` builds: every distinct element and
      its number of occurrences. */
  function Occurrences(s: seq<string>): (m: map<string, int>)
    ensures forall x :: x in m <==> x in s
    ensures forall x :: x in m ==> m[x] == multiset(s)[x] >= 1
  {
    map x | x in s :: multiset(s)[x]
  }

  /** `countOccurrences`: `a[b] = a[b] + 1 || 1` over the input, where a
      missing key gives `undefined + 1`, NaN, hence 1. */
  method CountOccurrences(arr: seq<string>) returns (counts: map<string, int>)
    ensures forall x :: x in counts <==> x in arr
    ensures forall x :: x in counts ==> counts[x] == multiset(arr)[x]
    ensures counts == Occurrences(arr)
  {
    counts := map[];
    var i := 0;
    while i < |arr|
      invariant 0 <= i <= |arr|
      invariant forall x :: x in counts <==> x in arr[..i]
      invariant forall x :: x in counts ==> counts[x] == multiset(arr[..i])[x]
    {
      var b := arr[i];
      assert arr[..i + 1] == arr[..i] + [b];
      if b in counts {
        counts := counts[b := counts[b] + 1];
      } else {
        counts := counts[b := 1];
      }
      i := i + 1;
    }
    assert arr[..i] == arr;
  }

  /** The sum of the counts in `m` of the keys `keys`. */
  function SumCounts<T>(keys: seq<T>, m: multiset<T>): nat
  {
    if keys == [] then 0 else SumCounts(keys[..|keys| - 1], m) + m[keys[|keys| - 1]]
  }

  lemma {:induction false} SumCountsAdd<T>(keys: seq<T>, s: seq<T>, x: T)
    requires Distinct(keys)
    ensures SumCounts(keys, multiset(s + [x])) == SumCounts(keys, multiset(s)) + (if x in keys then 1 else 0)
  {
    if keys != [] {
      var p := keys[..|keys| - 1];
      assert keys == p + [keys[|keys| - 1]];
      assert Distinct(p);
      SumCountsAdd(p, s, x);
      assert multiset(s + [x]) == multiset(s) + multiset{x};
    }
  }

  lemma {:induction false} SumCountsMissing<T>(keys: seq<T>, s: seq<T>, x: T)
    requires x !in keys
    ensures SumCounts(keys, multiset(s + [x])) == SumCounts(keys, multiset(s))
  {
    if keys != [] {
      var p := keys[..|keys| - 1];
      assert keys == p + [keys[|keys| - 1]];
      SumCountsMissing(p, s, x);
      assert multiset(s + [x]) == multiset(s) + multiset{x};
    }
  }

  /** The values of `countOccurrences(s)` add up to the length of `s`: the
      distinct elements, taken once each, account for every element. */
  lemma {:induction false} CountsSumToLength(s: seq<string>)
    ensures SumCounts(Dedup(s), multiset(s)) == |s|
  {
    if s != [] {
      var p := s[..|s| - 1];
      var x := s[|s| - 1];
      assert s == p + [x];
      CountsSumToLength(p);
      var d := Dedup(p);
      if x in d {
        SumCountsAdd(d, p, x);
      } else {
        SumCountsMissing(d, p, x);
        assert (d + [x])[..|d|] == d;
        assert multiset(s)[x] == 1 by {
          assert x !in p;
          assert multiset(s) == multiset(p) + multiset{x};
        }
      }
    }
  }

  // ---------------------------------------------------------------------
  // sumOccurrences

  /** The scores of the participations named `name`, in order. */
  function ScoresOf(ps: seq<Participant>, name: string): seq<int>
  {
    if ps == [] then []
    else ScoresOf(ps[..|ps| - 1], name) + (if ps[|ps| - 1].name == name then [ps[|ps| - 1].score] else [])
  }

  lemma {:induction false} ScoresOfNonEmpty(ps: seq<Participant>, name: string)
    ensures ScoresOf(ps, name) != [] <==> exists p :: p in ps && p.name == name
  {
    if ps != [] {
      var q := ps[..|ps| - 1];
      ScoresOfNonEmpty(q, name);
      assert ps == q + [ps[|ps| - 1]];
    }
  }

  lemma ScoresOfSnoc(ps: seq<Participant>, p: Participant, name: string)
    ensures ScoresOf(ps + [p], name) == ScoresOf(ps, name) + (if p.name == name then [p.score] else [])
  {
    assert (ps + [p])[..|ps|] == ps;
  }

  lemma SumDropFirstSnoc(xs: seq<int>, v: int)
    requires xs != []
    ensures Sum((xs + [v])[1..]) == Sum(xs[1..]) + v
  {
    var t := (xs + [v])[1..];
    assert t == xs[1..] + [v];
    assert t[..|t| - 1] == xs[1..];
  }

  /** `sums` holds, for each name seen in `ps`, its scores after the first. */
  ghost predicate DropFirstSums(sums: map<string, int>, ps: seq<Participant>)
  {
    && (forall name :: name in sums <==> ScoresOf(ps, name) != [])
    && (forall name :: name in sums ==> sums[name] == Sum(ScoresOf(ps, name)[1..]))
  }

  /** Adding a participation leaves the scores of the other names alone. */
  lemma ScoresOfOthers(ps: seq<Participant>, b: Participant)
    ensures forall n :: n != b.name ==> ScoresOf(ps + [b], n) == ScoresOf(ps, n)
  {
    forall n | n != b.name ensures ScoresOf(ps + [b], n) == ScoresOf(ps, n) {
      ScoresOfSnoc(ps, b, n);
      assert ScoresOf(ps, n) + [] == ScoresOf(ps, n);
    }
  }

  /** A later participation of a name adds its score. */
  lemma SumStepSeen(sums: map<string, int>, ps: seq<Participant>, b: Participant)
    requires DropFirstSums(sums, ps) && b.name in sums
    ensures DropFirstSums(sums[b.name := sums[b.name] + b.score], ps + [b])
  {
    var sums', ps' := sums[b.name := sums[b.name] + b.score], ps + [b];
    ScoresOfOthers(ps, b);
    ScoresOfSnoc(ps, b, b.name);
    forall n | n in sums' ensures sums'[n] == Sum(ScoresOf(ps', n)[1..]) {
      if n == b.name {
        SumDropFirstSnoc(ScoresOf(ps, b.name), b.score);
      }
    }
  }

  /** The first participation of a name stores 0. */
  lemma SumStepFirst(sums: map<string, int>, ps: seq<Participant>, b: Participant)
    requires DropFirstSums(sums, ps) && b.name !in sums
    ensures DropFirstSums(sums[b.name := 0], ps + [b])
  {
    ScoresOfOthers(ps, b);
    ScoresOfSnoc(ps, b, b.name);
    assert ScoresOf(ps + [b], b.name) == [b.score];
  }

  /** `sumOccurrences`: `a[b.name] = a[b.name] + b.score || 0`. The first
      participation of a name computes `undefined + score`, NaN, and stores 0;
      later ones add their score. So each name's entry is the sum of its
      scores without the first one. */
  method SumOccurrences(arr: seq<Participant>) returns (sums: map<string, int>)
    ensures forall name :: name in sums <==> exists p :: p in arr && p.name == name
    ensures forall name :: name in sums ==> ScoresOf(arr, name) != [] && sums[name] == Sum(ScoresOf(arr, name)[1..])
  {
    sums := map[];
    var i := 0;
    while i < |arr|
      invariant 0 <= i <= |arr|
      invariant DropFirstSums(sums, arr[..i])
    {
      var b := arr[i];
      assert arr[..i + 1] == arr[..i] + [b];
      if b.name in sums {
        SumStepSeen(sums, arr[..i], b);
        sums := sums[b.name := sums[b.name] + b.score];
      } else {
        SumStepFirst(sums, arr[..i], b);
        sums := sums[b.name := 0];
      }
      i := i + 1;
    }
    assert arr[..i] == arr;
    forall name ensures ScoresOf(arr, name) != [] <==> exists p :: p in arr && p.name == name {
      ScoresOfNonEmpty(arr, name);
    }
  }

  /** A name that plays once scores 0, whatever its score: the end-to-end
      example of one winner with 15 points gives 0, not 15. */
  lemma SingleScoreIsDropped(p: Participant)
    ensures Sum(ScoresOf([p], p.name)[1..]) == 0
  {
    assert [p][..0] == [];
  }
}
