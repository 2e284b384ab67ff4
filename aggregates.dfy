// The year aggregates of src/Data.js:106, 138-158: the participations of all
// plays, appearances and wins per username, the sorted list of distinct
// players, the selected player's plays, games and dates, and the win
// percentage. The older page computes `playerWins` and `uniquePlayers` the
// same way (src/App.js:113-126).

module Aggregates {
  import opened Common
  import opened Sorting
  import opened Records
  import opened Games
  import TopList
  import Helpers

  // ---------------------------------------------------------------------
  // Participations

  /** `playsJson.flatMap(gamePlay => gamePlay.players)`. */
  function PlayersWithWins(plays: seq<Play>): seq<Participant>
  {
    if plays == [] then [] else PlayersWithWins(plays[..|plays| - 1]) + plays[|plays| - 1].players
  }

  /** `playersWithWins.map(pl => pl.username)`. */
  function Usernames(ps: seq<Participant>): seq<string>
  {
    if ps == [] then [] else Usernames(ps[..|ps| - 1]) + [ps[|ps| - 1].username]
  }

  /** `playersWithWins.filter(pl => pl.win).map(pl => pl.username)`. */
  function WinnerUsernames(ps: seq<Participant>): seq<string>
  {
    if ps == [] then []
    else WinnerUsernames(ps[..|ps| - 1]) + (if ps[|ps| - 1].win then [ps[|ps| - 1].username] else [])
  }

  /** The number of participations of `u`. */
  function Appearances(ps: seq<Participant>, u: string): nat
  {
    if ps == [] then 0 else Appearances(ps[..|ps| - 1], u) + (if ps[|ps| - 1].username == u then 1 else 0)
  }

  /** The number of winning participations of `u`. */
  function WinsOf(ps: seq<Participant>, u: string): nat
  {
    if ps == [] then 0
    else WinsOf(ps[..|ps| - 1], u) + (if ps[|ps| - 1].win && ps[|ps| - 1].username == u then 1 else 0)
  }

  lemma {:induction false} UsernamesCount(ps: seq<Participant>, u: string)
    ensures multiset(Usernames(ps))[u] == Appearances(ps, u)
  {
    if ps != [] {
      UsernamesCount(ps[..|ps| - 1], u);
    }
  }

  lemma {:induction false} WinnerUsernamesCount(ps: seq<Participant>, u: string)
    ensures multiset(WinnerUsernames(ps))[u] == WinsOf(ps, u)
  {
    if ps != [] {
      WinnerUsernamesCount(ps[..|ps| - 1], u);
    }
  }

  lemma {:induction false} WinsWithinAppearances(ps: seq<Participant>, u: string)
    ensures WinsOf(ps, u) <= Appearances(ps, u)
  {
    if ps != [] {
      WinsWithinAppearances(ps[..|ps| - 1], u);
    }
  }

  lemma {:induction false} AppearancesPositive(ps: seq<Participant>, u: string)
    ensures Appearances(ps, u) > 0 <==> exists i :: 0 <= i < |ps| && ps[i].username == u
  {
    if ps != [] {
      var p := ps[..|ps| - 1];
      AppearancesPositive(p, u);
      assert ps == p + [ps[|ps| - 1]];
      if exists i :: 0 <= i < |ps| && ps[i].username == u {
        var i :| 0 <= i < |ps| && ps[i].username == u;
        if i < |p| {
          assert p[i] == ps[i];
        }
      }
    }
  }

  lemma {:induction false} WinsPositive(ps: seq<Participant>, u: string)
    ensures WinsOf(ps, u) > 0 <==> exists i :: 0 <= i < |ps| && ps[i].win && ps[i].username == u
  {
    if ps != [] {
      var p := ps[..|ps| - 1];
      WinsPositive(p, u);
      assert ps == p + [ps[|ps| - 1]];
      if exists i :: 0 <= i < |ps| && ps[i].win && ps[i].username == u {
        var i :| 0 <= i < |ps| && ps[i].win && ps[i].username == u;
        if i < |p| {
          assert p[i] == ps[i];
        }
      }
    }
  }

  lemma {:induction false} AppearancesAppend(a: seq<Participant>, b: seq<Participant>, u: string)
    ensures Appearances(a + b, u) == Appearances(a, u) + Appearances(b, u)
  {
    if b != [] {
      var c := b[..|b| - 1];
      assert (a + b)[..|a + b| - 1] == a + c;
      AppearancesAppend(a, c, u);
    } else {
      assert a + b == a;
    }
  }

  /** `playerWins` and `playerAppearances`, the two `countOccurrences`
      dictionaries: a username is a key of `playerWins` exactly when it has a
      winning participation, and then it is a key of `playerAppearances` with
      at least as large a value. */
  lemma PlayerWinsSpec(ps: seq<Participant>, u: string)
    ensures var wins, apps := Helpers.Occurrences(WinnerUsernames(ps)), Helpers.Occurrences(Usernames(ps));
      && (u in wins <==> exists i :: 0 <= i < |ps| && ps[i].win && ps[i].username == u)
      && (u in apps <==> exists i :: 0 <= i < |ps| && ps[i].username == u)
      && (u in wins ==> wins[u] == WinsOf(ps, u) && u in apps && wins[u] <= apps[u])
      && (u in apps ==> apps[u] == Appearances(ps, u))
  {
    UsernamesCount(ps, u);
    WinnerUsernamesCount(ps, u);
    WinsWithinAppearances(ps, u);
    AppearancesPositive(ps, u);
    WinsPositive(ps, u);
  }

  // ---------------------------------------------------------------------
  // The selected player's plays

  /** Some participant of `play` has username `u`. */
  predicate Includes(play: Play, u: string)
  {
    exists i :: 0 <= i < |play.players| && play.players[i].username == u
  }

  /** `gamePlay.players.find(pl => pl.username === player.username)` finds a
      participant. With no player chosen, `player` is "" and its `username`
      is undefined, which no participant's username equals. */
  predicate SelectedIn(play: Play, selected: Option<string>)
  {
    selected.Some? && Includes(play, selected.value)
  }

  /** `myPlays`: the plays the selected player took part in, in order. */
  function MyPlays(plays: seq<Play>, selected: Option<string>): seq<Play>
  {
    if plays == [] then []
    else MyPlays(plays[..|plays| - 1], selected) + (if SelectedIn(plays[|plays| - 1], selected) then [plays[|plays| - 1]] else [])
  }

  /** `myPlays` is a filter: it distributes over concatenation, keeps a
      single play exactly when the player is in it, and holds nothing when
      no player is selected. */
  lemma MyPlaysFilter(a: seq<Play>, b: seq<Play>, q: Play, selected: Option<string>)
    ensures MyPlays(a + b, selected) == MyPlays(a, selected) + MyPlays(b, selected)
    ensures MyPlays([q], selected) == if SelectedIn(q, selected) then [q] else []
    ensures MyPlays(a, None) == []
  {
    MyPlaysAppend(a, b, selected);
    MyPlaysNone(a);
    assert [q][..0] == [];
  }

  lemma {:induction false} MyPlaysAppend(a: seq<Play>, b: seq<Play>, selected: Option<string>)
    ensures MyPlays(a + b, selected) == MyPlays(a, selected) + MyPlays(b, selected)
  {
    if b != [] {
      var c := b[..|b| - 1];
      assert (a + b)[..|a + b| - 1] == a + c;
      MyPlaysAppend(a, c, selected);
    } else {
      assert a + b == a;
    }
  }

  lemma {:induction false} MyPlaysNone(a: seq<Play>)
    ensures MyPlays(a, None) == []
  {
    if a != [] {
      MyPlaysNone(a[..|a| - 1]);
    }
  }

  lemma {:induction false} MyPlaysMembers(plays: seq<Play>, selected: Option<string>, q: Play)
    ensures q in MyPlays(plays, selected) <==> q in plays && SelectedIn(q, selected)
  {
    if plays != [] {
      var p := plays[..|plays| - 1];
      MyPlaysMembers(p, selected, q);
      assert plays == p + [plays[|plays| - 1]];
    }
  }

  /** `u` is listed at most once in every play. */
  ghost predicate OncePerPlay(plays: seq<Play>, u: string)
  {
    forall k, i, j :: 0 <= k < |plays| && 0 <= i < j < |plays[k].players| ==>
      !(plays[k].players[i].username == u && plays[k].players[j].username == u)
  }

  lemma {:induction false} AppearancesAtMostOne(ps: seq<Participant>, u: string)
    requires forall i, j :: 0 <= i < j < |ps| ==> !(ps[i].username == u && ps[j].username == u)
    ensures Appearances(ps, u) <= 1
  {
    if ps != [] {
      var p := ps[..|ps| - 1];
      AppearancesAtMostOne(p, u);
      if ps[|ps| - 1].username == u {
        AppearancesPositive(p, u);
        forall i | 0 <= i < |p| ensures p[i].username != u {
          assert p[i] == ps[i];
        }
      }
    }
  }

  /** Appearances count participations, not plays: at least one per play the
      player took part in, and exactly one per play when no play lists the
      player twice. */
  lemma {:induction false} AppearancesPerPlay(plays: seq<Play>, u: string)
    ensures Appearances(PlayersWithWins(plays), u) >= |MyPlays(plays, Some(u))|
    ensures OncePerPlay(plays, u) ==> Appearances(PlayersWithWins(plays), u) == |MyPlays(plays, Some(u))|
  {
    if plays != [] {
      var p, last := plays[..|plays| - 1], plays[|plays| - 1];
      AppearancesPerPlay(p, u);
      AppearancesAppend(PlayersWithWins(p), last.players, u);
      AppearancesPositive(last.players, u);
      if OncePerPlay(plays, u) {
        assert OncePerPlay(p, u) by {
          forall k, i, j | 0 <= k < |p| && 0 <= i < j < |p[k].players|
            ensures !(p[k].players[i].username == u && p[k].players[j].username == u)
          {
            assert p[k] == plays[k];
          }
        }
        assert forall i, j :: 0 <= i < j < |last.players| ==>
          !(last.players[i].username == u && last.players[j].username == u);
        AppearancesAtMostOne(last.players, u);
      }
    }
  }

  /** A play that lists the same person twice is one play but two
      appearances. */
  lemma TwiceInOnePlay(g: GameRef, date: string, length: int, p: Participant)
    ensures var plays := [Play(g, date, length, [p, p])];
      Appearances(PlayersWithWins(plays), p.username) == 2 && |MyPlays(plays, Some(p.username))| == 1
  {
    var u := p.username;
    var play := Play(g, date, length, [p, p]);
    var plays := [play];
    assert plays[..0] == [];
    assert PlayersWithWins(plays) == [] + [p, p];
    assert [p, p][..1] == [p];
    assert [p][..0] == [];
    assert Appearances([p], u) == 1;
    assert Appearances([p, p], u) == 2;
    assert SelectedIn(play, Some(u)) by {
      assert play.players[0].username == u;
    }
    assert MyPlays(plays, Some(u)) == [] + [play];
  }

  // ---------------------------------------------------------------------
  // Dates and games

  function DateList(plays: seq<Play>): seq<string>
  {
    seq(|plays|, i requires 0 <= i < |plays| => plays[i].date)
  }

  /** `dates`, and `myDates` over `myPlays`: the distinct dates in first-seen
      order. */
  function Dates(plays: seq<Play>): seq<string>
  {
    Dedup(DateList(plays))
  }

  /** `myPlays.map(gamePlay => gamePlay.game)`. */
  function MyGamesWithDupes(myPlays: seq<Play>): seq<GameRef>
  {
    seq(|myPlays|, i requires 0 <= i < |myPlays| => myPlays[i].game)
  }

  function GameNames(refs: seq<GameRef>): seq<string>
  {
    seq(|refs|, i requires 0 <= i < |refs| => refs[i].name)
  }

  /** `myGames`: the distinct game names of the selected plays, first-seen order. */
  function MyGames(myPlays: seq<Play>): seq<string>
  {
    Dedup(GameNames(MyGamesWithDupes(myPlays)))
  }

  /** `myGames.map(gameName => gamesMetaDataByName[gameName])`. */
  function MyGamesWithMetadata(myGames: seq<string>, byName: map<string, Game>): (r: seq<Option<Game>>)
    ensures |r| == |myGames|
    ensures forall i :: 0 <= i < |r| ==> (r[i].Some? <==> myGames[i] in byName)
    ensures forall i :: 0 <= i < |r| && r[i].Some? ==> r[i].value == byName[myGames[i]]
  {
    seq(|myGames|, i requires 0 <= i < |myGames| => Lookup(byName, myGames[i]))
  }

  /** `mostPlayedGames`: the top list of the game names of the selected plays. */
  function MostPlayedGames(myPlays: seq<Play>): seq<TopList.Entry>
  {
    TopList.TopList(GameNames(MyGamesWithDupes(myPlays)), TopList.DefaultSize)
  }

  /** The dates and games lists hold each element once, in the order of
      first occurrence, and nothing else; the selected player's dates are
      among all dates. */
  lemma DatesSpec(plays: seq<Play>, selected: Option<string>)
    ensures var d := Dates(plays);
      && Distinct(d)
      && (forall i :: 0 <= i < |plays| ==> plays[i].date in d)
      && (forall i :: 0 <= i < |d| ==> exists k :: 0 <= k < |plays| && plays[k].date == d[i])
      && (forall i, j :: 0 <= i < j < |d| ==> FirstIndex(DateList(plays), d[i]) < FirstIndex(DateList(plays), d[j]))
    ensures forall i :: 0 <= i < |Dates(MyPlays(plays, selected))| ==> Dates(MyPlays(plays, selected))[i] in Dates(plays)
  {
    var dl := DateList(plays);
    DedupFirstSeen(dl);
    assert forall i :: 0 <= i < |plays| ==> dl[i] == plays[i].date;
    var mine := MyPlays(plays, selected);
    var md := Dates(mine);
    forall i | 0 <= i < |md| ensures md[i] in Dates(plays) {
      var k :| 0 <= k < |mine| && DateList(mine)[k] == md[i];
      assert mine[k] in mine;
      MyPlaysMembers(plays, selected, mine[k]);
      var j :| 0 <= j < |plays| && plays[j] == mine[k];
      assert dl[j] == md[i];
    }
  }

  // ---------------------------------------------------------------------
  // Win percentage

  /** The key `playerWins[player.username]` reads: with no player chosen,
      `player.username` is undefined, which names the key "undefined". */
  function SelectedKey(selected: Option<string>): string
  {
    match selected
    case None => "undefined"
    case Some(u) => u
  }

  /** `100 * ((playerWins[player.username] || 0) / myPlays.length)`, before
      `toFixed(1)`; no guard against an empty `myPlays`. */
  function WinPercentage(playerWins: map<string, int>, myPlaysCount: nat, selected: Option<string>): JsNumber
  {
    var key := SelectedKey(selected);
    var w := if key in playerWins then playerWins[key] else 0;
    JsDiv(100 * w, myPlaysCount)
  }

  /** With no player chosen, `myPlays` is empty and the percentage is never
      a finite number: NaN, or Infinity should some player's username be
      "undefined" and have won. */
  lemma WinPercentageWithoutPlayer(plays: seq<Play>)
    ensures var wins := Helpers.Occurrences(WinnerUsernames(PlayersWithWins(plays)));
      var r := WinPercentage(wins, |MyPlays(plays, None)|, None);
      r == NaN || r == PosInf
  {
    MyPlaysNone(plays);
    var wins := Helpers.Occurrences(WinnerUsernames(PlayersWithWins(plays)));
    if "undefined" in wins {
      assert wins["undefined"] >= 1;
    }
  }

  /** The percentage for a chosen player whose wins are `w`. */
  lemma WinPercentageOf(wins: map<string, int>, n: nat, u: string, w: nat)
    requires u in wins ==> wins[u] == w
    requires u !in wins ==> w == 0
    ensures var r := WinPercentage(wins, n, Some(u));
      && (r == NaN <==> n == 0 && w == 0)
      && (r.Fin? <==> n > 0)
      && (r.Fin? ==> r.r == ((100 * w) as real) / (n as real))
      && (r.Fin? && w <= n ==> 0.0 <= r.r <= 100.0)
  {
    if n > 0 && w <= n {
      PercentBound(w, n);
    }
  }

  lemma PercentBound(w: nat, n: nat)
    requires 0 < n && w <= n
    ensures 0.0 <= ((100 * w) as real) / (n as real) <= 100.0
  {
    var a, c, b := (100 * w) as real, (100 * n) as real, n as real;
    DivMonotone(a, c, b);
    DivNonNegative(a, b);
    assert c / b == 100.0 by {
      assert c == 100.0 * b;
    }
  }

  lemma DivMonotone(a: real, c: real, b: real)
    requires a <= c && b > 0.0
    ensures a / b <= c / b
  {
  }

  lemma DivNonNegative(a: real, b: real)
    requires a >= 0.0 && b > 0.0
    ensures a / b >= 0.0
  {
  }

  /** For a chosen player: the percentage is NaN exactly when they played
      nothing, and otherwise finite: 100 times their wins per play of theirs,
      between 0 and 100 when no play lists them twice. */
  lemma WinPercentageForPlayer(plays: seq<Play>, u: string)
    ensures var ps := PlayersWithWins(plays);
      var mine := MyPlays(plays, Some(u));
      var r := WinPercentage(Helpers.Occurrences(WinnerUsernames(ps)), |mine|, Some(u));
      && (r == NaN <==> mine == [])
      && (r.Fin? <==> mine != [])
      && (r.Fin? ==> r.r == ((100 * WinsOf(ps, u)) as real) / (|mine| as real))
      && (r.Fin? && OncePerPlay(plays, u) ==> 0.0 <= r.r <= 100.0)
  {
    var ps := PlayersWithWins(plays);
    var mine := MyPlays(plays, Some(u));
    var wins := Helpers.Occurrences(WinnerUsernames(ps));
    var w := WinsOf(ps, u);
    PlayerWinsSpec(ps, u);
    WinsPositive(ps, u);
    WinsWithinAppearances(ps, u);
    AppearancesPerPlay(plays, u);
    PlayerInSomePlay(plays, u);
    assert mine == [] ==> w == 0;
    assert OncePerPlay(plays, u) ==> w <= |mine|;
    WinPercentageOf(wins, |mine|, u, w);
  }

  /** A participant of some play makes that play one of their plays. */
  lemma {:induction false} PlayerInSomePlay(plays: seq<Play>, u: string)
    ensures MyPlays(plays, Some(u)) == [] ==> Appearances(PlayersWithWins(plays), u) == 0
  {
    if plays != [] {
      var p, last := plays[..|plays| - 1], plays[|plays| - 1];
      AppearancesAppend(PlayersWithWins(p), last.players, u);
      AppearancesPositive(last.players, u);
      PlayerInSomePlay(p, u);
    }
  }

  // ---------------------------------------------------------------------
  // uniquePlayers

  /** `JSON.stringify({ name: pl.name, username: pl.username })`, parsed back. */
  function Keys(ps: seq<Participant>): seq<PlayerKey>
  {
    seq(|ps|, i requires 0 <= i < |ps| => PlayerKey(ps[i].name, ps[i].username))
  }

  /** The comparator `a.name > b.name ? 1 : -1` read as "`a` may come before
      `b`": it never answers 0, so players with the same name may come in
      either order. */
  predicate ByName(a: PlayerKey, b: PlayerKey)
  {
    StrLe(a.name, b.name)
  }

  lemma ByNameIsTotalPreorder()
    ensures TotalPreorder(ByName)
  {
    forall a: PlayerKey, b: PlayerKey ensures ByName(a, b) || ByName(b, a) {
      StrLeTotal(a.name, b.name);
    }
    forall a: PlayerKey, b: PlayerKey, c: PlayerKey | ByName(a, b) && ByName(b, c) ensures ByName(a, c) {
      StrLeTransitive(a.name, b.name, c.name);
    }
  }

  /** `uniquePlayers`: the distinct (name, username) pairs, sorted by name. */
  function UniquePlayers(keys: seq<PlayerKey>): seq<PlayerKey>
  {
    SortBy(Dedup(keys), ByName)
  }

  /** The pairs are exactly those of the participations, none twice, in
      non-decreasing name order. */
  lemma UniquePlayersSpec(keys: seq<PlayerKey>)
    ensures var r := UniquePlayers(keys);
      && (forall i :: 0 <= i < |r| ==> r[i] in keys)
      && (forall j :: 0 <= j < |keys| ==> keys[j] in r)
      && Distinct(r)
      && |r| == |set k | k in keys|
      && (forall i, j :: 0 <= i < j < |r| ==> StrLe(r[i].name, r[j].name))
  {
    UniquePlayersSameKeys(keys);
    var d := Dedup(keys);
    var r := UniquePlayers(keys);
    ByNameIsTotalPreorder();
    SortBySpec(d, ByName);
    DistinctPermutation(d, r);
    DistinctCardinality(d);
    assert (set k | k in keys) == (set k | k in d);
  }

  lemma UniquePlayersSameKeys(keys: seq<PlayerKey>)
    ensures var r := UniquePlayers(keys);
      && (forall i :: 0 <= i < |r| ==> r[i] in keys)
      && (forall j :: 0 <= j < |keys| ==> keys[j] in r)
  {
    var d := Dedup(keys);
    var r := UniquePlayers(keys);
    ByNameIsTotalPreorder();
    SortBySpec(d, ByName);
    forall i | 0 <= i < |r| ensures r[i] in keys {
      assert r[i] in multiset(d);
    }
    forall j | 0 <= j < |keys| ensures keys[j] in r {
      assert keys[j] in d;
      assert keys[j] in multiset(r);
    }
  }

  /** Every unique player's name is a key of `playerScores`, so the
      leaderboard's `playerScores[uPl.name]` is always defined. */
  lemma UniquePlayerHasScore(ps: seq<Participant>, i: int)
    requires 0 <= i < |UniquePlayers(Keys(ps))|
    ensures exists p :: p in ps && p.name == UniquePlayers(Keys(ps))[i].name
  {
    UniquePlayersSpec(Keys(ps));
    var k := UniquePlayers(Keys(ps))[i];
    var j :| 0 <= j < |ps| && Keys(ps)[j] == k;
    assert ps[j] in ps;
  }

  /** The older page drops `win` and keeps the same two fields, in the same
      order, so it builds the same list from the same names and usernames. */
  function LegacyKeys(ps: seq<LegacyParticipant>): seq<PlayerKey>
  {
    seq(|ps|, i requires 0 <= i < |ps| => PlayerKey(ps[i].name, ps[i].username))
  }

  lemma LegacyUniquePlayersAgree(legacy: seq<LegacyParticipant>, ps: seq<Participant>)
    requires |legacy| == |ps|
    requires forall i :: 0 <= i < |ps| ==> legacy[i].name == ps[i].name && legacy[i].username == ps[i].username
    ensures UniquePlayers(LegacyKeys(legacy)) == UniquePlayers(Keys(ps))
  {
    assert LegacyKeys(legacy) == Keys(ps);
  }

  /** src/App.js's participants: every raw participant canonicalised by the
      older chain. */
  function LegacyParticipants(raws: seq<RawParticipant>): (r: seq<LegacyParticipant>)
    ensures |r| == |raws|
    ensures forall i :: 0 <= i < |raws| ==> r[i] == LegacyCanonicalize(raws[i])
  {
    seq(|raws|, i requires 0 <= i < |raws| => LegacyCanonicalize(raws[i]))
  }

  /** From the same feed, the older page and the current one list the same
      unique players, as long as nobody is named by one of the two rules
      only the current chain has. */
  lemma LegacyUniquePlayersFromFeed(raws: seq<RawParticipant>)
    requires forall i :: 0 <= i < |raws| ==> raws[i].name != "Meidi" && raws[i].name != "Fredrik Bystam"
    ensures UniquePlayers(LegacyKeys(LegacyParticipants(raws))) == UniquePlayers(Keys(CanonicalizeAll(Renames, raws)))
  {
    var legacy, ps := LegacyParticipants(raws), CanonicalizeAll(Renames, raws);
    forall i | 0 <= i < |ps|
      ensures legacy[i].name == ps[i].name && legacy[i].username == ps[i].username
    {
      LegacyAgrees(raws[i]);
    }
    LegacyUniquePlayersAgree(legacy, ps);
  }
}
