// The 2024 page's whole-group views (src/App2024.js:120-125, 256-265): the
// plays of Twilight Imperium, listed in reverse feed order with their
// winner, and the most played games of everybody.

module Ti4 {
  import opened Common
  import opened Records
  import TopList
  import Aggregates

  const TI4: string := "Twilight Imperium: Fourth Edition"

  /** `plays.filter((play) => play.game.name === TI4)`. */
  function Ti4Plays(plays: seq<Play>): seq<Play>
  {
    if plays == [] then []
    else Ti4Plays(plays[..|plays| - 1]) + (if plays[|plays| - 1].game.name == TI4 then [plays[|plays| - 1]] else [])
  }

  /** The filter keeps the order of the plays and takes a play exactly when
      it is of the game, as often as it occurs. */
  lemma {:induction false} Ti4PlaysSpec(plays: seq<Play>, q: Play)
    ensures multiset(Ti4Plays(plays))[q] == if q.game.name == TI4 then multiset(plays)[q] else 0
    ensures forall i :: 0 <= i < |Ti4Plays(plays)| ==> Ti4Plays(plays)[i].game.name == TI4
  {
    if plays != [] {
      var p := plays[..|plays| - 1];
      Ti4PlaysSpec(p, q);
      assert plays == p + [plays[|plays| - 1]];
    }
  }

  lemma {:induction false} Ti4PlaysAppend(a: seq<Play>, b: seq<Play>)
    ensures Ti4Plays(a + b) == Ti4Plays(a) + Ti4Plays(b)
  {
    if b != [] {
      var c := b[..|b| - 1];
      assert (a + b)[..|a + b| - 1] == a + c;
      Ti4PlaysAppend(a, c);
    } else {
      assert a + b == a;
    }
  }

  function Reverse<T>(s: seq<T>): (r: seq<T>)
    ensures |r| == |s|
    ensures forall i :: 0 <= i < |s| ==> r[i] == s[|s| - 1 - i]
  {
    if s == [] then [] else [s[|s| - 1]] + Reverse(s[..|s| - 1])
  }

  lemma ReverseReverse<T>(s: seq<T>)
    ensures Reverse(Reverse(s)) == s
  {
  }

  /** `ti4Plays.reverse()`: swap the ends inward. */
  method ReverseInPlace<T>(a: array<T>)
    modifies a
    ensures a[..] == Reverse(old(a[..]))
  {
    var i, j := 0, a.Length - 1;
    while i < j
      invariant 0 <= i <= a.Length && j == a.Length - 1 - i
      invariant i <= j + 1
      invariant forall k :: 0 <= k < i ==> a[k] == old(a[a.Length - 1 - k])
      invariant forall k :: j < k < a.Length ==> a[k] == old(a[a.Length - 1 - k])
      invariant forall k :: i <= k <= j ==> a[k] == old(a[k])
    {
      a[i], a[j] := a[j], a[i];
      i, j := i + 1, j - 1;
    }
  }

  /** `play.players.find((pl) => pl.win)`: the first winner, or undefined. */
  function FirstWinner(ps: seq<Participant>): (r: Option<Participant>)
    ensures r.Some? <==> exists i :: 0 <= i < |ps| && ps[i].win
    ensures r.Some? ==> exists i :: (0 <= i < |ps| && ps[i] == r.value && r.value.win
      && forall j :: 0 <= j < i ==> !ps[j].win)
  {
    if ps == [] then None
    else if ps[0].win then Some(ps[0])
    else
      var r := FirstWinner(ps[1..]);
      assert forall i :: 1 <= i < |ps| ==> ps[i] == ps[1..][i - 1];
      if r.Some? then
        assert exists i :: 0 <= i < |ps| && ps[i] == r.value && r.value.win && forall j :: 0 <= j < i ==> !ps[j].win by {
          var i :| 0 <= i < |ps[1..]| && ps[1..][i] == r.value && r.value.win && forall j :: 0 <= j < i ==> !ps[1..][j].win;
          assert ps[i + 1] == r.value;
        }
        r
      else r
  }

  /** The winner list: the TI4 plays reversed in place, each with its first
      winner (undefined where nobody won, which the page would fail on). */
  method Ti4Winners(plays: seq<Play>) returns (winners: seq<Option<Participant>>)
    ensures |winners| == |Ti4Plays(plays)|
    ensures forall i :: 0 <= i < |winners| ==>
      winners[i] == FirstWinner(Ti4Plays(plays)[|winners| - 1 - i].players)
  {
    var ti4 := Ti4Plays(plays);
    var a := new Play[|ti4|](i requires 0 <= i < |ti4| => ti4[i]);
    assert a[..] == ti4;
    ReverseInPlace(a);
    var reversed := a[..];
    winners := [];
    var k := 0;
    while k < |reversed|
      invariant 0 <= k <= |reversed|
      invariant |winners| == k
      invariant forall i :: 0 <= i < k ==> winners[i] == FirstWinner(reversed[i].players)
    {
      winners := winners + [FirstWinner(reversed[k].players)];
      k := k + 1;
    }
  }

  /** `globalMostPlayedGames`: the top list of the game names of all plays. */
  function GlobalMostPlayedGames(plays: seq<Play>): seq<TopList.Entry>
  {
    TopList.TopList(Aggregates.GameNames(Aggregates.MyGamesWithDupes(plays)), TopList.DefaultSize)
  }

  /** Each entry counts the plays of that game, over all players' plays. */
  lemma GlobalMostPlayedCounts(plays: seq<Play>)
    ensures var r := GlobalMostPlayedGames(plays);
      var names := Aggregates.GameNames(Aggregates.MyGamesWithDupes(plays));
      forall i :: 0 <= i < |r| ==> r[i].thing in names && r[i].occurences == multiset(names)[r[i].thing]
  {
    TopList.TopListSpec(Aggregates.GameNames(Aggregates.MyGamesWithDupes(plays)), TopList.DefaultSize);
  }
}
