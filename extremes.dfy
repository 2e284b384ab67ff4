// The extremal queries of the yearly pages: the longest play (the
// `longestGame` loop of src/App2024.js:109-118, src/App2023.js:38-47 and
// src/App.js:138-147), the oldest and newest game from the in-place year
// sort (src/App2023.js:34-36, src/App.js:134-136), the top designers,
// artists and mechanics (src/App2023.js:30-32, src/App.js:130-132) and the
// `find` of a game carrying the top tag (src/App2023.js:137-178).

module Extremes {
  import opened Common
  import opened Records
  import opened Games
  import TopList
  import Aggregates

  // ---------------------------------------------------------------------
  // longestGame

  /** The `{name, length}` object the loop updates. */
  datatype Longest = Longest(name: string, length: int)

  /** The state after the loop has seen `plays`: a play replaces the current
      record only when it is strictly longer. */
  function LongestOf(plays: seq<Play>): Longest
  {
    if plays == [] then Longest("", 0)
    else
      var acc := LongestOf(plays[..|plays| - 1]);
      var p := plays[|plays| - 1];
      if p.length > acc.length then Longest(p.game.name, p.length) else acc
  }

  /** The `myPlays.forEach` loop. */
  method LongestGame(myPlays: seq<Play>) returns (longest: Longest)
    ensures longest == LongestOf(myPlays)
  {
    var name, length := "", 0;
    var k := 0;
    while k < |myPlays|
      invariant 0 <= k <= |myPlays|
      invariant Longest(name, length) == LongestOf(myPlays[..k])
    {
      var gamePlay := myPlays[k];
      assert myPlays[..k + 1][..k] == myPlays[..k];
      if gamePlay.length > length {
        length := gamePlay.length;
        name := gamePlay.game.name;
      }
      k := k + 1;
    }
    assert myPlays[..k] == myPlays;
    longest := Longest(name, length);
  }

  /** The length found is the largest play length, or 0 when no play is
      longer than that; the name is that of the first play reaching it, and
      stays "" when there is none. */
  lemma {:induction false} LongestIsFirstMaximum(plays: seq<Play>)
    ensures var r := LongestOf(plays);
      && r.length >= 0
      && (forall i :: 0 <= i < |plays| ==> plays[i].length <= r.length)
      && (r.length == 0 ==> r.name == "")
      && (r.length > 0 ==> exists i :: (0 <= i < |plays| && plays[i].length == r.length
            && plays[i].game.name == r.name && forall j :: 0 <= j < i ==> plays[j].length < r.length))
  {
    if plays != [] {
      var q := plays[..|plays| - 1];
      LongestIsFirstMaximum(q);
      var acc, p := LongestOf(q), plays[|plays| - 1];
      assert forall i :: 0 <= i < |q| ==> plays[i] == q[i];
      if p.length > acc.length {
        assert forall j :: 0 <= j < |plays| - 1 ==> plays[j].length < p.length;
      } else if acc.length > 0 {
        var i :| 0 <= i < |q| && q[i].length == acc.length && q[i].game.name == acc.name
          && forall j :: 0 <= j < i ==> q[j].length < acc.length;
        assert plays[i] == q[i];
      }
    }
  }

  /** `gamesMetaDataByName[longestGame.name]` when no play has a positive
      length: the name looked up is "", which is found only when some game
      has "" as its primary name. */
  lemma NoPositiveLength(plays: seq<Play>, byName: map<string, Game>)
    requires forall i :: 0 <= i < |plays| ==> plays[i].length <= 0
    ensures LongestOf(plays) == Longest("", 0)
    ensures Lookup(byName, LongestOf(plays).name).Some? <==> "" in byName
  {
    LongestIsFirstMaximum(plays);
  }

  // ---------------------------------------------------------------------
  // Resolving the selected games' metadata

  /** `myGamesWithMetadata` as the page uses it: every entry must be a
      record, since `game.designers` of an undefined entry throws. */
  function Resolve(gs: seq<Option<Game>>): (r: Option<seq<Game>>)
    ensures r.Some? <==> forall i :: 0 <= i < |gs| ==> gs[i].Some?
    ensures r.Some? ==> |r.value| == |gs| && forall i :: 0 <= i < |gs| ==> gs[i] == Some(r.value[i])
  {
    if gs == [] then Some([])
    else
      var last := gs[|gs| - 1];
      match Resolve(gs[..|gs| - 1])
      case None => None
      case Some(init) =>
        if last.Some? then Some(init + [last.value]) else None
  }

  /** The metadata resolves exactly when every selected game name is a key
      of the by-name index. */
  lemma ResolveMetadata(myGames: seq<string>, byName: map<string, Game>)
    ensures Resolve(Aggregates.MyGamesWithMetadata(myGames, byName)).Some?
      <==> forall i :: 0 <= i < |myGames| ==> myGames[i] in byName
  {
  }

  // ---------------------------------------------------------------------
  // gamesChronological

  predicate SortedByYear(s: seq<Game>)
  {
    forall i, j :: 0 <= i < j < |s| ==> s[i].yearPublished <= s[j].yearPublished
  }

  /** The games before index `i` are in year order. */
  predicate SortedBelow(s: seq<Game>, i: int)
    requires 0 <= i <= |s|
  {
    forall k, l :: 0 <= k < l < i ==> s[k].yearPublished <= s[l].yearPublished
  }

  /** Inside the insertion of `s[..i + 1]`: the game moving down sits at `j`,
      the others up to `i` are in year order and those above `j` are no older
      than it. */
  predicate Inserting(s: seq<Game>, i: int, j: int)
    requires 0 <= j <= i < |s|
  {
    && (forall k, l :: 0 <= k < l <= i && k != j && l != j ==> s[k].yearPublished <= s[l].yearPublished)
    && (forall l :: j < l <= i ==> s[j].yearPublished <= s[l].yearPublished)
  }

  lemma SwapDown(s: seq<Game>, i: int, j: int)
    requires 0 < j <= i < |s| && Inserting(s, i, j)
    requires s[j - 1].yearPublished > s[j].yearPublished
    ensures Inserting(s[j - 1 := s[j]][j := s[j - 1]], i, j - 1)
    ensures multiset(s[j - 1 := s[j]][j := s[j - 1]]) == multiset(s)
  {
  }

  lemma InsertDone(s: seq<Game>, i: int, j: int)
    requires 0 <= j <= i < |s| && Inserting(s, i, j)
    requires j == 0 || s[j - 1].yearPublished <= s[j].yearPublished
    ensures SortedBelow(s, i + 1)
  {
    forall k, l | 0 <= k < l <= i ensures s[k].yearPublished <= s[l].yearPublished {
      if l == j && k < j - 1 {
        assert s[k].yearPublished <= s[j - 1].yearPublished;
      }
    }
  }

  /** `myGamesWithMetadata.sort((a, b) => a.yearPublished > b.yearPublished ? 1 : -1)`:
      the comparator never answers "equal", so only the order by year and
      the permutation are promised. */
  method SortByYear(a: array<Game>)
    modifies a
    ensures SortedByYear(a[..])
    ensures multiset(a[..]) == multiset(old(a[..]))
  {
    var i := 0;
    while i < a.Length
      invariant 0 <= i <= a.Length
      invariant SortedBelow(a[..], i)
      invariant multiset(a[..]) == multiset(old(a[..]))
    {
      var j := i;
      while j > 0 && a[j - 1].yearPublished > a[j].yearPublished
        invariant 0 <= j <= i
        invariant Inserting(a[..], i, j)
        invariant multiset(a[..]) == multiset(old(a[..]))
      {
        ghost var s := a[..];
        SwapDown(s, i, j);
        a[j - 1], a[j] := a[j], a[j - 1];
        assert a[..] == s[j - 1 := s[j]][j := s[j - 1]];
        j := j - 1;
      }
      InsertDone(a[..], i, j);
      i := i + 1;
    }
  }

  /** `gamesChronological[0]`. */
  function Oldest(s: seq<Game>): (r: Option<Game>)
    ensures r.Some? <==> |s| > 0
  {
    if |s| > 0 then Some(s[0]) else None
  }

  /** `gamesChronological.at(-1)`. */
  function Newest(s: seq<Game>): (r: Option<Game>)
    ensures r.Some? <==> |s| > 0
  {
    if |s| > 0 then Some(s[|s| - 1]) else None
  }

  /** Sorting the resolved records and reading both ends. The array is the
      list itself, sorted in place; what it holds afterwards is returned. */
  method Chronological(games: seq<Game>) returns (sorted: seq<Game>, oldest: Option<Game>, newest: Option<Game>)
    ensures SortedByYear(sorted) && multiset(sorted) == multiset(games)
    ensures oldest == Oldest(sorted) && newest == Newest(sorted)
    ensures oldest.Some? <==> |games| > 0
    ensures newest.Some? <==> |games| > 0
    ensures forall g :: g in games ==> (oldest.Some? && newest.Some?
      && oldest.value.yearPublished <= g.yearPublished <= newest.value.yearPublished)
  {
    var a := new Game[|games|](i requires 0 <= i < |games| => games[i]);
    assert a[..] == games;
    SortByYear(a);
    sorted := a[..];
    oldest, newest := Oldest(sorted), Newest(sorted);
    assert |sorted| == |games| by {
      assert |multiset(sorted)| == |multiset(games)|;
    }
    OldestNewestBounds(sorted);
    forall g | g in games ensures g in sorted {
      assert g in multiset(games);
    }
  }

  /** In a list sorted by year the first game is no newer and the last no
      older than any game of it. */
  lemma OldestNewestBounds(s: seq<Game>)
    requires SortedByYear(s)
    ensures forall g :: g in s ==> (Oldest(s).Some? && Newest(s).Some?
      && Oldest(s).value.yearPublished <= g.yearPublished <= Newest(s).value.yearPublished)
  {
    forall g | g in s
      ensures Oldest(s).value.yearPublished <= g.yearPublished <= Newest(s).value.yearPublished
    {
      var i :| 0 <= i < |s| && s[i] == g;
      assert i == 0 || s[0].yearPublished <= s[i].yearPublished;
      assert i == |s| - 1 || s[i].yearPublished <= s[|s| - 1].yearPublished;
    }
  }

  // ---------------------------------------------------------------------
  // Top designers, artists and mechanics, and the `find` of the top one

  datatype LabelKind = Designers | Artists | Mechanics

  /** `game.designers`, `game.artists` or `game.mechanics`. */
  function Labels(g: Game, kind: LabelKind): seq<string>
  {
    match kind
    case Designers => g.designers
    case Artists => g.artists
    case Mechanics => g.mechanics
  }

  function LabelLists(games: seq<Game>, kind: LabelKind): (r: seq<seq<string>>)
    ensures |r| == |games|
    ensures forall i :: 0 <= i < |games| ==> r[i] == Labels(games[i], kind)
  {
    seq(|games|, i requires 0 <= i < |games| => Labels(games[i], kind))
  }

  /** `dupeListToTopList(myGamesWithMetadata.flatMap(game => game.designers))`
      and its two siblings. */
  function TopOf(games: seq<Game>, kind: LabelKind): seq<TopList.Entry>
  {
    TopList.TopList(Flatten(LabelLists(games, kind)), TopList.DefaultSize)
  }

  /** Each tag is counted once per time it is listed by a game, summed over
      the games: a game listing a designer twice counts twice. */
  lemma TopOfCounts(games: seq<Game>, kind: LabelKind)
    ensures var r := TopOf(games, kind);
      forall i :: 0 <= i < |r| ==> r[i].occurences == SumCountIn(LabelLists(games, kind), r[i].thing)
  {
    var list := Flatten(LabelLists(games, kind));
    TopList.TopListSpec(list, TopList.DefaultSize);
    var r := TopOf(games, kind);
    forall i | 0 <= i < |r| ensures r[i].occurences == SumCountIn(LabelLists(games, kind), r[i].thing) {
      FlattenMultiset(LabelLists(games, kind), r[i].thing);
    }
  }

  /** `games.find(game => game.designers.includes(tag))`: the first game
      whose list of that kind holds the tag. */
  function Find(games: seq<Game>, kind: LabelKind, tag: string): (r: Option<Game>)
    ensures r.Some? <==> exists i :: 0 <= i < |games| && tag in Labels(games[i], kind)
    ensures r.Some? ==> exists i :: (0 <= i < |games| && games[i] == r.value && tag in Labels(r.value, kind)
      && forall j :: 0 <= j < i ==> tag !in Labels(games[j], kind))
  {
    if games == [] then None
    else if tag in Labels(games[0], kind) then Some(games[0])
    else
      var r := Find(games[1..], kind, tag);
      assert forall i :: 1 <= i < |games| ==> games[i] == games[1..][i - 1];
      if r.Some? then
        assert exists i :: (0 <= i < |games| && games[i] == r.value && tag in Labels(r.value, kind)
          && forall j :: 0 <= j < i ==> tag !in Labels(games[j], kind)) by {
          var i :| 0 <= i < |games[1..]| && games[1..][i] == r.value && tag in Labels(r.value, kind)
            && forall j :: 0 <= j < i ==> tag !in Labels(games[1..][j], kind);
          assert games[i + 1] == r.value;
        }
        r
      else r
  }

  lemma {:induction false} SumCountInPositive<T>(ss: seq<seq<T>>, x: T) returns (i: nat)
    requires SumCountIn(ss, x) > 0
    ensures i < |ss| && x in ss[i]
  {
    if multiset(ss[0])[x] > 0 {
      i := 0;
    } else {
      var k := SumCountInPositive(ss[1..], x);
      i := k + 1;
    }
  }

  /** The top tag comes from some game, so the `find` for it succeeds; it
      does so on any reordering of the games, in particular on the list the
      year sort left behind. */
  lemma FindTopSucceeds(games: seq<Game>, reordered: seq<Game>, kind: LabelKind)
    requires multiset(reordered) == multiset(games)
    requires |TopOf(games, kind)| > 0
    ensures Find(reordered, kind, TopOf(games, kind)[0].thing).Some?
  {
    var lists := LabelLists(games, kind);
    var tag := TopOf(games, kind)[0].thing;
    TopList.TopListSpec(Flatten(lists), TopList.DefaultSize);
    assert tag in multiset(Flatten(lists));
    FlattenMultiset(lists, tag);
    var i := SumCountInPositive(lists, tag);
    assert games[i] in multiset(reordered);
    var k :| 0 <= k < |reordered| && reordered[k] == games[i];
    assert tag in Labels(reordered[k], kind);
  }

  /** Conversely, with no labels of that kind at all the top list is empty
      and `topDesigners[0].thing` reads a field of undefined. */
  lemma NoLabelsNoTop(games: seq<Game>, kind: LabelKind)
    requires forall i :: 0 <= i < |games| ==> Labels(games[i], kind) == []
    ensures TopOf(games, kind) == []
  {
    var lists := LabelLists(games, kind);
    EmptyListsFlatten(lists);
    TopList.TopListSpec(Flatten(lists), TopList.DefaultSize);
  }

  lemma {:induction false} EmptyListsFlatten<T>(ss: seq<seq<T>>)
    requires forall i :: 0 <= i < |ss| ==> ss[i] == []
    ensures Flatten(ss) == []
  {
    if ss != [] {
      EmptyListsFlatten(ss[1..]);
    }
  }
}
