# brarre-wrapped: the statistics layer, in Dafny

brarre-wrapped is a small React site that shows a yearly "wrapped" page for a
board-gaming group. It takes the group's BoardGameGeek play log and the metadata
of the games played. From these it derives who played, who won, the longest
play, the most played games and each player's favourite designers, artists and
mechanics. The 2024 page adds a marathon leaderboard.

This project models the layer between the XML feeds and the markup. That layer
covers:

- turning `<player>` attributes into canonical participants (nicknames renamed,
  usernames derived);
- the helpers `chunk`, `countOccurrences`, `sumOccurrences`,
  `dupeListToTopList` and `minutesToHM`;
- the per-year aggregates of `useBggForYear`;
- the 2024 marathon table and its sort toggle;
- the Twilight Imperium winner list;
- the extremal queries of the 2023 page.

The model follows the code as written, including its sharp edges:

- `sumOccurrences` drops each name's first score;
- the win percentage is not guarded against division by zero;
- the `pointsPerAppearance` column uses the missing field `points` as its
  secondary key;
- `ratio` is infinite for points without wins;
- designer, artist and mechanic lists are not deduplicated.

Modules, one per file:

- `Common` (common.dfy): Option and JavaScript numbers (NaN, ±Infinity and
  `|| 0`), first-seen deduplication, flattening, sums and `slice`.
- `Sorting` (sorting.dfy): a stable insertion sort over a total preorder, used
  as the model of `Array.prototype.sort`, and ordinal string order.
- `Records` (records.dfy): plays and participants, the renaming chains of
  src/Data.js and of the older src/App.js, and the in-place field updates of
  the `map` callback, written as a class.
- `Helpers` (helpers.dfy): `chunk`, and the dictionary folds
  `countOccurrences` and `sumOccurrences`, written as loops over a map.
- `Duration` (duration.dfy): `minutesToHM` and a parser for the phrases it
  writes.
- `TopList` (toplist.dfy): `dupeListToTopList`.
- `Games` (games.dfy): game records and the `forEach` loop that builds
  `gamesJson` and the by-id and by-name indexes.
- `Aggregates` (aggregates.dfy): wins, appearances, `uniquePlayers`,
  `myPlays`, `myGames`, the date lists and `winPercentage`.
- `Year` (year.dfy): `useBggForYear` as a whole.
- `Marathon` (marathon.dfy): the leaderboard rows, the two-key signed
  comparator and the sort state.
- `Ti4` (ti4.dfy): the Twilight Imperium plays, reversed in place, and the
  global top list.
- `Extremes` (extremes.dfy):
  - the `longestGame` loop;
  - the in-place year sort with oldest and newest;
  - the top designers, artists and mechanics;
  - the `find` of a game carrying the top one.

The helpers in src/App.js (`countOccurrences`, `minutesToHM`,
`dupeListToTopList`) are textually the same as those in src/Data.js. They
share one model.

Where the description of the system and the code disagree, the model follows
the code:

- Top-list ties are not promised to keep encounter order, because the
  comparator never answers "equal".
- Wins and appearances count participations, not plays.
- Scores drop the first score of each name.
- The win percentage is NaN for an empty selection, not 0.
- An unset player gives an empty selection, not global statistics.
- `ratio` is ±Infinity, not 0, when wins are 0 and points are not.
- The `pointsPerAppearance` column breaks ties on nothing, not on points.
- The oldest and newest game come from a sort with an inconsistent
  comparator, so ties there are not promised to keep input order.
- A selected game missing from the index makes the 2023 page throw; it is not
  skipped.

## Model

| member | source | states |
|---|---|---|
| Common.JsDiv | src/Data.js:158 | JavaScript division of integers: the exact quotient for a non-zero divisor; for 0 it is NaN for 0/0, +Infinity for a positive dividend and -Infinity for a negative one |
| Common.OrZero | src/App2024.js:65-68 | `x \|\| 0`: NaN and 0 become 0, infinities and other finite values pass through and are never NaN |
| Common.Dedup | src/Data.js:106 | `Array.from(new Set(s))`: every element of the result is in `s`, every element of `s` is in it, and no element repeats |
| Common.DedupFirstSeen | src/Data.js:152-154 | the deduplicated list is in order of first occurrence in the input |
| Common.DistinctCardinality | src/Data.js:142-147 | a list without repeats has as many elements as its set |
| Common.Take | src/Data.js:222 | `slice(0, n)`: the first `min(n, length)` elements |
| Common.RemoveSpaces | src/Data.js:100 | `replaceAll(" ", "")`: the result holds no space and is no longer than the input |
| Common.RemoveSpacesIdempotent | src/Data.js:100 | removing spaces twice is removing them once |
| Common.FlattenMultiset | src/App2023.js:30-32 | `flatMap` keeps every occurrence: an element occurs in the flattened list as often as in all the lists together |
| Sorting.SortBySpec | src/Data.js:221 | the stable sort over a total preorder returns a permutation of its input that is sorted |
| Sorting.SortByStable | src/App2024.js:70-82 | elements the preorder ties keep their input order |
| Sorting.StrLeTotal | src/Data.js:147 | ordinal string order compares any two strings |
| Sorting.StrLeTransitive | src/Data.js:147 | ordinal string order is transitive |
| Sorting.StrLeAntisymmetric | src/Data.js:147 | two strings each at most the other are equal |
| Records.CanonicalizeAll | src/Data.js:84-103 | one canonical participant per raw one, in order |
| Records.ParticipantRecord.constructor | src/Data.js:76-83 | the extracted record: name, username, score and colour as read; `win` and `new` true exactly when the attribute is "1" |
| Records.ParticipantRecord.Canonicalize | src/Data.js:84-103 | the in-place update: the name after the owner rule and the renaming chain, then the username kept, or derived from the new name without spaces when it is falsy; the other fields unchanged |
| Records.ParseParticipants | src/Data.js:75-103 | the loop over the `<player>` records equals canonicalising each of them |
| Records.ParsePlays | src/Data.js:67-105 | one play per `<play>`, in order, with its game, date, length and canonical participants |
| Records.RenameTablesWellFormed | src/Data.js:88-98 | both renaming tables have distinct sources, no target is again a source, and the owner's name is no rule's source |
| Records.RenameHit | src/Data.js:88-98 | a name that is a rule's source becomes that rule's target |
| Records.RenameMiss | src/Data.js:88-98 | a name that is no source is left as it is |
| Records.RenameIdempotent | src/Data.js:88-98 | renaming a renamed name changes nothing |
| Records.RenameResultIsTarget | src/Data.js:88-98 | a name that is changed becomes one of the targets |
| Records.OwnerIsRenamed | src/Data.js:85-87 | username "wohlfart" gets the name "Martin Wohlfart" and keeps its username |
| Records.NicknameIsRenamed | src/Data.js:88-98 | each of the five nicknames becomes its full name, whatever the username (other than the owner's) |
| Records.OtherNamesKept | src/Data.js:88-98 | a name no rule mentions is kept |
| Records.UsernameDerivation | src/Data.js:99-101 | an empty or absent username becomes the renamed name with spaces removed; a non-empty one is kept; `win`/`new` are true iff the attribute is "1" |
| Records.CanonicalizeIdempotent | src/Data.js:84-103 | canonicalising a canonical participant again changes nothing, except in the case below |
| Records.CanonicalizeNotIdempotentForOwnerName | src/Data.js:85-101 | the counterexample to idempotence: a participant named "wohlfart" without username keeps the name and gets the derived username "wohlfart", and a second pass then renames them "Martin Wohlfart" |
| Records.LegacyKeepsMeidi | src/App.js:72-78 | the older four-rule chain leaves "Meidi" alone where the newer one renames her |
| Records.LegacyAgrees | src/App.js:63-83 | off "Meidi" and "Fredrik Bystam", the older canonicalisation gives the same name, username and win as the newer |
| Records.RenameExtension | src/Data.js:94-98 | rules appended to a chain do not change names they do not mention |
| Helpers.ChunkSpec | src/Data.js:181-193 | the chunks concatenate to the input; none is empty; no chunks exactly for no input; with size at least 1 each chunk holds at most `size` elements and all but the last exactly `size` |
| Helpers.ChunkNonPositive | src/Data.js:186 | with a size below 1 the test never fires and the whole input is one chunk |
| Helpers.Occurrences | src/Data.js:195-200 | the keys are exactly the input's elements, each mapped to its number of occurrences, at least 1 |
| Helpers.CountOccurrences | src/Data.js:195-200 | the `reduce` loop builds exactly that dictionary |
| Helpers.CountsSumToLength | src/Data.js:195-200 | the counts sum to the input length |
| Helpers.SumOccurrences | src/Data.js:202-207 | the keys are exactly the names that occur; each value is the sum of that name's scores after its first, which `undefined + score \|\| 0` turns into 0 |
| Helpers.ScoresOfNonEmpty | src/Data.js:202-207 | a name has scores exactly when some participant carries it |
| Helpers.SingleScoreIsDropped | src/Data.js:204 | a name seen once gets 0, whatever its score |
| Duration.JsRem60 | src/Data.js:211 | JavaScript's `d % 60`: the remainder for `d >= 0`, never positive for `d < 0` |
| Duration.MinutesToHM | src/Data.js:209-216 | the phrase is empty exactly when `d <= 0` |
| Duration.ParseNatToString | src/Data.js:213-214 | a number's decimal digits read back as that number |
| Duration.WordsOfDisplay | src/Data.js:213-215 | the words of the phrase are `h timme/timmar`, then `och` when both parts exist, then `m minut/minuter` |
| Duration.DurationRoundTrip | src/Data.js:209-216 | parsing the phrase for `d` minutes gives `d` back, so the phrase says exactly how long it was (90 reads "1 timme och 30 minuter") |
| Duration.DisplayVocabulary | src/Data.js:213-214 | "och" appears iff there are hours and minutes; "timme"/"minut" iff the count is 1; "timmar"/"minuter" iff it is above 1 |
| Duration.NinetyMinutes | src/Data.js:209-216 | 90 minutes is written "1 timme och 30 minuter" |
| TopList.Entries | src/Data.js:219-220 | one entry per distinct label, in first-seen order, with its number of occurrences |
| TopList.EntriesAreOccurrences | src/Data.js:219 | each entry agrees with the dictionary `countOccurrences` builds |
| TopList.EntriesDistinct | src/Data.js:219-220 | no two entries are equal |
| TopList.ByCountDescIsTotalPreorder | src/Data.js:221 | "count at least" is a total preorder, so the sort it stands for is well defined |
| TopList.RankedEntries | src/Data.js:219-221 | the ranked entries cover every distinct label once, with the right counts, in non-increasing count order |
| TopList.RankedComplete | src/Data.js:219-221 | every label of the input has a ranked entry |
| TopList.TopListSpec | src/Data.js:218-223 | the length is min(size, distinct labels); labels are distinct and occur in the input; each count equals the label's occurrences; counts do not increase; an omitted label counts no more than any shown one |
| Games.LinkValues | src/Data.js:123-131 | at most one value per link |
| Games.LinkValuesAppend | src/Data.js:123-131 | values keep document order |
| Games.LinkValuesCount | src/Data.js:123-131 | each value occurs as often as the links of that type carrying it: no deduplication |
| Games.GameRecords | src/Data.js:115-132 | one record per item, in feed order |
| Games.LastWriteWinsStep | src/Data.js:134-135 | one store keeps "every key seen, holding the last value stored under it" |
| Games.BuildGameIndex | src/Data.js:108-136 | the loop pushes every record in feed order and leaves both indexes holding, for each id and each primary name, the last item with it |
| Games.IndexLookup | src/App.js:87-111 | every id and name of the feed is a key, and an item no later item shares its key with is what the key holds |
| Games.Lookup | src/Data.js:153 | `gamesMetaDataByName[name]` is defined exactly when the name is a key |
| Aggregates.UsernamesCount | src/Data.js:139 | the appearances dictionary counts a username once per participation |
| Aggregates.WinnerUsernamesCount | src/Data.js:140 | the wins dictionary counts a username once per winning participation |
| Aggregates.WinsWithinAppearances | src/Data.js:139-140 | wins never exceed appearances |
| Aggregates.AppearancesPositive | src/Data.js:139 | a username has appearances exactly when it takes part somewhere |
| Aggregates.WinsPositive | src/Data.js:140 | a username has wins exactly when it wins somewhere |
| Aggregates.AppearancesAppend | src/Data.js:138 | appearances add up over concatenated plays |
| Aggregates.PlayerWinsSpec | src/App.js:113-114 | the keys of `playerWins` are exactly the usernames with a winning participation, valued by their number, and each is also in the appearances with a count at least as large |
| Aggregates.MyPlaysFilter | src/Data.js:149 | `myPlays` is an order-keeping filter: it distributes over concatenation and keeps a single play exactly when the player is in it |
| Aggregates.MyPlaysNone | src/Data.js:149 | with no player selected `player.username` is undefined and no play is kept |
| Aggregates.MyPlaysMembers | src/Data.js:149 | a play is in `myPlays` iff it is a play the player takes part in |
| Aggregates.AppearancesAtMostOne | src/Data.js:139 | a username listed at most once in a play appears at most once there |
| Aggregates.AppearancesPerPlay | src/Data.js:139-149 | appearances are at least the number of the player's plays, and equal it when nobody is listed twice in one play |
| Aggregates.TwiceInOnePlay | src/Data.js:138-139 | a player listed twice in one play has two appearances but one play, so appearances count participations |
| Aggregates.MyGamesWithMetadata | src/Data.js:153 | entry `i` is defined iff game name `i` is a key of the by-name index, and is then that key's record |
| Aggregates.DatesSpec | src/Data.js:106-154 | `dates` and `myDates` hold every date once, only dates that occur, in first-seen order; every date of the selection is a date of the year |
| Aggregates.WinPercentageWithoutPlayer | src/Data.js:158 | with no player selected the lookup is of the key "undefined" and the selection is empty, so the value is NaN, or +Infinity when a player has the username "undefined" and has won |
| Aggregates.WinPercentageOf | src/Data.js:158 | the value is NaN iff there are no plays and no wins, finite iff there are plays, then `100 * wins / plays`, and within 0..100 when wins do not exceed plays |
| Aggregates.WinPercentageForPlayer | src/Data.js:158 | for a selected player: NaN iff the selection is empty; otherwise 100 times their winning participations over their plays, within 0..100 when nobody is listed twice in a play |
| Aggregates.PlayerInSomePlay | src/Data.js:139-149 | a player with no plays has no appearances |
| Aggregates.ByNameIsTotalPreorder | src/Data.js:147 | ordering players by name is a total preorder |
| Aggregates.UniquePlayersSpec | src/Data.js:142-147 | the (name, username) pairs are exactly those of all participants, none repeats, and they are in non-decreasing ordinal order of name |
| Aggregates.UniquePlayerHasScore | src/Data.js:141-147 | every unique player's name has a score entry |
| Aggregates.LegacyUniquePlayersAgree | src/App.js:115-119 | the older version, which deletes `win` before deduplicating, gives the same list |
| Aggregates.LegacyUniquePlayersFromFeed | src/App.js:62-119 | from the same raw participants, none named "Meidi" or "Fredrik Bystam", the older page's canonicalisation and unique-player list give the same list as the current page |
| Year.UseBggForYear | src/Data.js:47-178 | loading exactly while a feed is missing; otherwise every field is the value the definitions above give, wins never exceed appearances, and every unique player has a score |
| Marathon.Rows | src/App2024.js:57-69 | one row per unique player, in the same order |
| Marathon.RowSpec | src/App2024.js:58-68 | points as read; wins and appearances default to 0; `ratio` is 0 only for 0 points, ±Infinity for points without wins and the quotient otherwise; without appearances `winsPerAppearance` is 0 and `pointsPerAppearance` is 0 for no points and ±Infinity, of the sign of the points, otherwise; with appearances both are the quotients |
| Marathon.GtTrichotomy | src/App2024.js:71-78 | two column values are ordered one way, the other way, or equal |
| Marathon.RowLeIsTotalPreorder | src/App2024.js:70-82 | the signed two-key comparator is a consistent total preorder in both directions |
| Marathon.RowLeTransitive | src/App2024.js:70-82 | the comparator is transitive |
| Marathon.Resort | src/App2024.js:53-83 | no update exactly when `uniquePlayers` is missing |
| Marathon.SortRowsSpec | src/App2024.js:31-82 | the sorted table is a permutation of the rows, ordered by main key and, among equal main keys, by secondary key; descending or ascending as the sign says |
| Marathon.SortRowsStable | src/App2024.js:70-82 | rows equal on both keys keep their input order |
| Marathon.PointsPerAppearanceTies | src/App2024.js:49-52 | the secondary key of `pointsPerAppearance` is the missing field `points`, so two rows equal on the main key are tied |
| Marathon.SecondaryBreaksTies | src/App2024.js:33-48 | for the other five columns the secondary key (wins, or vp for wins) decides between rows equal on the main key |
| Marathon.UnknownColumnKeepsOrder | src/App2024.js:33-82 | an unknown column name leaves both keys undefined and the table in its input order |
| Marathon.Toggle | src/App2024.js:86-92 | picking the current column flips the direction; picking another column sets it, descending |
| Marathon.ToggleTwice | src/App2024.js:86-92 | two identical picks restore the state exactly when the pick was the current column |
| Marathon.MarathonTable.constructor | src/App2024.js:8-9 | an empty table sorted on ("vp", descending) |
| Marathon.MarathonTable.Refresh | src/App2024.js:94-96 | the effect re-sorts the table by the current state, leaving it alone without `uniquePlayers` |
| Marathon.MarathonTable.InitialFill | src/App2024.js:98-103 | an empty table with loaded data is filled sorted on "vp", descending |
| Marathon.MarathonTable.ChangeSortOn | src/App2024.js:86-96 | the state becomes the toggled one and the table is re-sorted by it |
| Ti4.Ti4PlaysSpec | src/App2024.js:120-121 | the filter keeps exactly the plays of Twilight Imperium: Fourth Edition, each as often as it occurs |
| Ti4.Ti4PlaysAppend | src/App2024.js:121 | the filter keeps play order |
| Ti4.Reverse | src/App2024.js:260 | element `i` of the reversal is element `n - 1 - i` of the list |
| Ti4.ReverseReverse | src/App2024.js:260 | reversing twice gives the list back |
| Ti4.ReverseInPlace | src/App2024.js:260 | `reverse()` leaves the array holding the reversal of its old contents |
| Ti4.FirstWinner | src/App2024.js:262 | `find` of a winner: defined iff some participant won, and then the first one who did |
| Ti4.Ti4Winners | src/App2024.js:260-264 | one entry per Twilight Imperium play, in reverse feed order, each the play's first winner |
| Ti4.GlobalMostPlayedCounts | src/App2024.js:123-125 | each entry of the global top list counts the plays of that game over all players |
| Extremes.LongestGame | src/App2024.js:109-118 | the `forEach` loop ends in the state the strict-`>` fold gives |
| Extremes.LongestIsFirstMaximum | src/App2023.js:38-47 | the length is the largest play length, or 0 if none is positive; the name is that of the first play reaching it, and "" when the length is 0 |
| Extremes.NoPositiveLength | src/App2023.js:38-103 | with no positive length the image lookup is of "", which succeeds only if some game's primary name is "" |
| Extremes.Resolve | src/App2023.js:30 | the selected games have metadata only if every entry is defined; it then lists them in order |
| Extremes.ResolveMetadata | src/Data.js:153 | the metadata resolves exactly when every selected game name is in the by-name index |
| Extremes.SortByYear | src/App2023.js:34 | the in-place sort leaves a permutation of the games in non-decreasing year order |
| Extremes.Oldest | src/App2023.js:35 | `gamesChronological[0]` is undefined exactly for no games |
| Extremes.Newest | src/App2023.js:36 | `gamesChronological.at(-1)` is undefined exactly for no games |
| Extremes.Chronological | src/App2023.js:34-36 | the sorted list is a permutation in year order; both ends are defined iff there are games, and the oldest year is at most and the newest at least every game's year |
| Extremes.OldestNewestBounds | src/App2023.js:35-36 | in a list sorted by year, the first game is no newer and the last no older than any |
| Extremes.LabelLists | src/App2023.js:30-32 | the designer, artist or mechanic list of each game, in order |
| Extremes.TopOfCounts | src/App2023.js:30-32 | each top designer, artist or mechanic counts one per listing summed over the games, so a game listing it twice counts twice |
| Extremes.Find | src/App2023.js:137 | `find` by label: defined iff some game's list of that kind holds the label, and then the first such game |
| Extremes.FindTopSucceeds | src/App2023.js:137-178 | when a top list is non-empty, the `find` for its first label succeeds, also on the games as the year sort reordered them |
| Extremes.NoLabelsNoTop | src/App2023.js:137 | with no labels of a kind the top list is empty, so `topDesigners[0].thing` reads a field of undefined |

## Left out

- Network and XML: the `fetch` calls, `DOMParser`, `querySelector`, `getAttribute` and `innerHTML` are not modelled. Their outputs are the already-extracted records (`RawParticipant`, `RawPlay`, `RawGame`), with `Option` for attributes that may be absent.
- `Promise.all` over the chunked requests is not modelled. Only `chunk` is.
- React is not modelled: `useState`, `useEffect`, `useCallback` and `document.title`. Values are plain arguments, and the marathon state is a class whose methods stand for the effects.
- JSX, styled components, the confetti and the routing in src/index.js are presentation only.
- Floating point: `toFixed` formatting is not modelled, and JavaScript numbers are modelled as exact reals with NaN and ±Infinity.
- `Number(...)` and `parseInt(...)` giving NaN are not modelled. Scores, lengths and years are integers. A NaN length acts like 0 in `longestGame`, since `NaN > x` is false.
- Order of `Object.entries`: entries are in insertion order. JavaScript's rule that integer-like keys come first is not modelled.
- The inconsistent comparators at src/Data.js:147, src/Data.js:221 and src/App2023.js:34 never answer "equal". Their tie order is engine-defined, so it is modelled by a stable sort and only permutation and sortedness are stated.
- Keys inherited from an object's prototype (`"constructor"`, `"__proto__"`) are not modelled. Dictionaries are maps.
- String comparison is over Dafny characters. UTF-16 code units versus code points is not modelled.
- A `<player>` without a `name` attribute is not modelled. JavaScript would read null name as "null" or throw in `replaceAll`, and the name is taken to be present.
- Thumbnails, images, descriptions and colours are opaque strings. They are passed through unchanged.
- `dupeListToTopList` with a negative size is not modelled. `slice(0, -k)` drops from the end, and the size is a `nat` (the pages only use the default 5).
- `Records.CanonicalizeIdempotent`: idempotence is stated only off the case where the derived username is "wohlfart", because there a second pass sets the owner's name; `Records.CanonicalizeNotIdempotentForOwnerName` exhibits that case.
- `Marathon.Rows`: requires every unique player's name to be a key of `playerScores`. `Year.UseBggForYear` proves this of the values the hook returns; the NaN row a missing name would give is not modelled.
- `Marathon.RowSpec`: also requires positive counts and every key of the wins to be a key of the appearances. The hook's dictionaries meet this: they are `Helpers.Occurrences` dictionaries, and `Year.UseBggForYear` states the inclusion. Without it `wins / 0` would be ±Infinity.
- `Extremes.Chronological`: the crash of `flatMap` on an undefined game (src/App2023.js:30) happens before the sort, so the sort is modelled only on fully resolved games (`Extremes.Resolve`). JavaScript's placing of undefined entries last is not modelled.
- Ti4: the page reads `.name` and `.color` of the first winner. A play nobody won would throw there; the model gives `None` for it.
