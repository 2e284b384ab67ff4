// `useBggForYear` of src/Data.js:5-179 once both feeds have arrived: it
// parses the plays, indexes the games and derives every per-year and
// per-player value the pages show. The two feeds are parameters; `None`
// stands for a feed not yet loaded.

module Year {
  import opened Common
  import opened Records
  import opened Helpers
  import opened Games
  import opened Aggregates
  import TopList

  /** The object `useBggForYear` returns when it is not loading. */
  datatype YearData = YearData(
    plays: seq<Play>,
    dates: seq<string>,
    games: seq<Game>,
    gamesMetaDataById: map<string, Game>,
    gamesMetaDataByName: map<string, Game>,
    playerWins: map<string, int>,
    playerScores: map<string, int>,
    playerAppearances: map<string, int>,
    uniquePlayers: seq<PlayerKey>,
    myPlays: seq<Play>,
    myGamesWithDupes: seq<GameRef>,
    myGames: seq<string>,
    myGamesWithMetadata: seq<Option<Game>>,
    myDates: seq<string>,
    mostPlayedGames: seq<TopList.Entry>,
    winPercentage: JsNumber)

  /** What each field of the year is, in terms of the feeds. */
  ghost predicate YearOf(raws: seq<RawPlay>, items: seq<RawGame>, selected: Option<string>, y: YearData)
  {
    var ps := PlayersWithWins(y.plays);
    && |y.plays| == |raws|
    && (forall i :: 0 <= i < |raws| ==> y.plays[i] == CanonicalPlay(Renames, raws[i]))
    && y.dates == Dates(y.plays)
    && y.games == GameRecords(items)
    && LastWriteWins(Ids(items), GameRecords(items), |items|, y.gamesMetaDataById)
    && LastWriteWins(Names(items), GameRecords(items), |items|, y.gamesMetaDataByName)
    && y.playerWins == Occurrences(WinnerUsernames(ps))
    && y.playerAppearances == Occurrences(Usernames(ps))
    && (forall name :: name in y.playerScores <==> exists p :: p in ps && p.name == name)
    && (forall name :: name in y.playerScores ==>
          ScoresOf(ps, name) != [] && y.playerScores[name] == Sum(ScoresOf(ps, name)[1..]))
    && y.uniquePlayers == UniquePlayers(Keys(ps))
    && y.myPlays == MyPlays(y.plays, selected)
    && y.myGamesWithDupes == MyGamesWithDupes(y.myPlays)
    && y.myGames == MyGames(y.myPlays)
    && y.myGamesWithMetadata == MyGamesWithMetadata(y.myGames, y.gamesMetaDataByName)
    && y.myDates == Dates(y.myPlays)
    && y.mostPlayedGames == MostPlayedGames(y.myPlays)
    && y.winPercentage == WinPercentage(y.playerWins, |y.myPlays|, selected)
  }

  /** `useBggForYear(year, player)`: loading until both feeds are there; then
      every field as `YearOf` says, wins never above appearances, and a
      score for every unique player. */
  method UseBggForYear(playsFeed: Option<seq<RawPlay>>, thingsFeed: Option<seq<RawGame>>, selected: Option<string>)
    returns (y: Option<YearData>)
    ensures y.None? <==> playsFeed.None? || thingsFeed.None?
    ensures y.Some? ==> YearOf(playsFeed.value, thingsFeed.value, selected, y.value)
    ensures y.Some? ==> forall u :: u in y.value.playerWins ==>
      u in y.value.playerAppearances && y.value.playerWins[u] <= y.value.playerAppearances[u]
    ensures y.Some? ==> forall i :: 0 <= i < |y.value.uniquePlayers| ==>
      y.value.uniquePlayers[i].name in y.value.playerScores
  {
    if playsFeed.None? || thingsFeed.None? {
      return None;
    }
    var plays := ParsePlays(Renames, playsFeed.value);
    var dates := Dates(plays);
    var gamesJson, byId, byName := BuildGameIndex(thingsFeed.value);
    var ps := PlayersWithWins(plays);
    var playerAppearances := CountOccurrences(Usernames(ps));
    var playerWins := CountOccurrences(WinnerUsernames(ps));
    var playerScores := SumOccurrences(ps);
    var uniquePlayers := UniquePlayers(Keys(ps));
    var myPlays := MyPlays(plays, selected);
    var myGamesWithDupes := MyGamesWithDupes(myPlays);
    var myGames := MyGames(myPlays);
    var myGamesWithMetadata := MyGamesWithMetadata(myGames, byName);
    var myDates := Dates(myPlays);
    var mostPlayedGames := MostPlayedGames(myPlays);
    var winPercentage := WinPercentage(playerWins, |myPlays|, selected);
    forall u | u in playerWins ensures u in playerAppearances && playerWins[u] <= playerAppearances[u] {
      PlayerWinsSpec(ps, u);
    }
    forall i | 0 <= i < |uniquePlayers| ensures uniquePlayers[i].name in playerScores {
      UniquePlayerHasScore(ps, i);
    }
    y := Some(YearData(plays, dates, gamesJson, byId, byName, playerWins, playerScores, playerAppearances,
                       uniquePlayers, myPlays, myGamesWithDupes, myGames, myGamesWithMetadata, myDates,
                       mostPlayedGames, winPercentage));
  }
}
