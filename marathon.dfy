// The 2024 page's marathon table (src/App2024.js:31-103): one row per
// unique player with points, wins, appearances and three ratios, sorted by
// a column picked in the table header, first on that column and then on a
// fixed second column, in either direction.

module Marathon {
  import opened Common
  import opened Sorting
  import opened Records

  /** A row of `maratonTabell`. `vp`, `wins` and `appearances` are integers;
      the ratios are JavaScript numbers after `|| 0`, so never NaN. */
  datatype Row = Row(
    name: string,
    vp: int,
    wins: int,
    ratio: Ext,
    appearances: int,
    winsPerAppearance: Ext,
    pointsPerAppearance: Ext)

  /** `dict[key] || 0` on one of the count dictionaries, whose values are
      never 0. */
  function CountOrZero(dict: map<string, int>, key: string): int
  {
    if key in dict then dict[key] else 0
  }

  /** The row built for one unique player. */
  function MakeRow(uPl: PlayerKey, playerScores: map<string, int>, playerWins: map<string, int>,
                   playerAppearances: map<string, int>): Row
    requires uPl.name in playerScores
  {
    var vp := playerScores[uPl.name];
    var wins := CountOrZero(playerWins, uPl.username);
    var appearances := CountOrZero(playerAppearances, uPl.username);
    Row(uPl.name, vp, wins, OrZero(JsDiv(vp, wins)), appearances,
        OrZero(JsDiv(wins, appearances)), OrZero(JsDiv(vp, appearances)))
  }

  /** `uniquePlayers.map(uPl => { ... })`. */
  function Rows(uniquePlayers: seq<PlayerKey>, playerScores: map<string, int>, playerWins: map<string, int>,
                playerAppearances: map<string, int>): (r: seq<Row>)
    requires forall i :: 0 <= i < |uniquePlayers| ==> uniquePlayers[i].name in playerScores
    ensures |r| == |uniquePlayers|
    ensures forall i :: 0 <= i < |r| ==>
      r[i] == MakeRow(uniquePlayers[i], playerScores, playerWins, playerAppearances)
  {
    seq(|uniquePlayers|, i requires 0 <= i < |uniquePlayers| =>
      MakeRow(uniquePlayers[i], playerScores, playerWins, playerAppearances))
  }

  /** What a row holds: the player's name and points; wins and appearances
      default to 0; the ratio is 0 exactly when the points are 0, and
      infinite, of the sign of the points, when there are points but no wins;
      without appearances the wins per appearance are 0, and the points per
      appearance are 0 for no points and otherwise infinite, of the sign of
      the points. */
  lemma RowSpec(uPl: PlayerKey, playerScores: map<string, int>, playerWins: map<string, int>,
                playerAppearances: map<string, int>)
    requires uPl.name in playerScores
    requires forall k :: k in playerWins ==> playerWins[k] > 0
    requires forall k :: k in playerAppearances ==> playerAppearances[k] > 0
    requires forall k :: k in playerWins ==> k in playerAppearances
    ensures var row := MakeRow(uPl, playerScores, playerWins, playerAppearances);
      && row.name == uPl.name && row.vp == playerScores[uPl.name]
      && (row.wins == 0 <==> uPl.username !in playerWins)
      && (row.appearances == 0 <==> uPl.username !in playerAppearances)
      && (row.ratio == Finite(0.0) <==> row.vp == 0)
      && (row.ratio == PlusInf <==> row.wins == 0 && row.vp > 0)
      && (row.ratio == MinusInf <==> row.wins == 0 && row.vp < 0)
      && (row.wins != 0 ==> row.ratio == Finite(row.vp as real / row.wins as real))
      && (row.appearances == 0 ==> row.winsPerAppearance == Finite(0.0))
      && (row.appearances == 0 && row.vp == 0 ==> row.pointsPerAppearance == Finite(0.0))
      && (row.appearances == 0 && row.vp > 0 ==> row.pointsPerAppearance == PlusInf)
      && (row.appearances == 0 && row.vp < 0 ==> row.pointsPerAppearance == MinusInf)
      && (row.appearances != 0 ==> row.winsPerAppearance == Finite(row.wins as real / row.appearances as real))
      && (row.appearances != 0 ==> row.pointsPerAppearance == Finite(row.vp as real / row.appearances as real))
  {
    var row := MakeRow(uPl, playerScores, playerWins, playerAppearances);
    if row.wins != 0 {
      assert row.vp as real / row.wins as real == 0.0 ==> row.vp == 0;
    }
  }

  // ---------------------------------------------------------------------
  // The comparator

  /** The column values the comparator reads: `a[main]`, `a[secondary]`.
      A name that is no column, such as "points", reads `undefined`. */
  function Column(row: Row, field: Option<string>): Option<Ext>
  {
    match field
    case None => None
    case Some(f) =>
      if f == "vp" then Some(Finite(row.vp as real))
      else if f == "wins" then Some(Finite(row.wins as real))
      else if f == "ratio" then Some(row.ratio)
      else if f == "appearances" then Some(Finite(row.appearances as real))
      else if f == "winsPerAppearance" then Some(row.winsPerAppearance)
      else if f == "pointsPerAppearance" then Some(row.pointsPerAppearance)
      else None
  }

  /** JavaScript's `>` on two column values: false when either is `undefined`. */
  predicate Gt(a: Option<Ext>, b: Option<Ext>)
  {
    a.Some? && b.Some? && ExtGt(a.value, b.value)
  }

  /** The `main` and `secondary` columns chosen from `sortOn`; an unknown
      `sortOn` leaves both `undefined`. */
  function Columns(sortOn: string): (Option<string>, Option<string>)
  {
    if sortOn == "vp" then (Some("vp"), Some("wins"))
    else if sortOn == "wins" then (Some("wins"), Some("vp"))
    else if sortOn == "ratio" then (Some("ratio"), Some("wins"))
    else if sortOn == "appearances" then (Some("appearances"), Some("wins"))
    else if sortOn == "winsPerAppearance" then (Some("winsPerAppearance"), Some("wins"))
    else if sortOn == "pointsPerAppearance" then (Some("pointsPerAppearance"), Some("points"))
    else (None, None)
  }

  /** `descending ? 1 : -1`. */
  function Sign(descending: bool): int
  {
    if descending then 1 else -1
  }

  /** The comparator of the `sort` at src/App2024.js:70-82. */
  function Compare(a: Row, b: Row, main: Option<string>, secondary: Option<string>, sign: int): int
  {
    if Gt(Column(a, main), Column(b, main)) then -1 * sign
    else if Gt(Column(b, main), Column(a, main)) then 1 * sign
    else if Gt(Column(a, secondary), Column(b, secondary)) then -1 * sign
    else if Gt(Column(b, secondary), Column(a, secondary)) then 1 * sign
    else 0
  }

  /** "`a` may stay before `b`": the comparator does not put `b` first. */
  predicate RowLe(a: Row, b: Row, main: Option<string>, secondary: Option<string>, sign: int)
  {
    Compare(a, b, main, secondary, sign) <= 0
  }

  lemma GtTrichotomy(a: Option<Ext>, b: Option<Ext>)
    requires a.Some? && b.Some?
    ensures Gt(a, b) || Gt(b, a) || a == b
    ensures !(Gt(a, b) && Gt(b, a))
  {
    ExtTrichotomy(a.value, b.value);
  }

  /** Whatever the column and the direction, the comparator is consistent,
      so the sort is well defined. */
  lemma RowLeIsTotalPreorder(main: Option<string>, secondary: Option<string>, sign: int)
    requires sign == 1 || sign == -1
    ensures TotalPreorder((a, b) => RowLe(a, b, main, secondary, sign))
  {
    forall a: Row, b: Row ensures RowLe(a, b, main, secondary, sign) || RowLe(b, a, main, secondary, sign) {
      if Column(a, main).Some? && Column(b, main).Some? {
        GtTrichotomy(Column(a, main), Column(b, main));
      }
      if Column(a, secondary).Some? && Column(b, secondary).Some? {
        GtTrichotomy(Column(a, secondary), Column(b, secondary));
      }
    }
    forall a: Row, b: Row, c: Row | RowLe(a, b, main, secondary, sign) && RowLe(b, c, main, secondary, sign)
      ensures RowLe(a, c, main, secondary, sign)
    {
      RowLeTransitive(a, b, c, main, secondary, sign);
    }
  }

  lemma RowLeTransitive(a: Row, b: Row, c: Row, main: Option<string>, secondary: Option<string>, sign: int)
    requires sign == 1 || sign == -1
    requires RowLe(a, b, main, secondary, sign) && RowLe(b, c, main, secondary, sign)
    ensures RowLe(a, c, main, secondary, sign)
  {
    var am, bm, cm := Column(a, main), Column(b, main), Column(c, main);
    var as_, bs, cs := Column(a, secondary), Column(b, secondary), Column(c, secondary);
    // The columns are present for all rows or for none.
    assert am.Some? == bm.Some? == cm.Some?;
    assert as_.Some? == bs.Some? == cs.Some?;
    if am.Some? {
      ExtTrichotomy(am.value, bm.value);
      ExtTrichotomy(bm.value, cm.value);
      ExtTrichotomy(am.value, cm.value);
      if ExtGt(am.value, bm.value) && ExtGt(bm.value, cm.value) { ExtGtTransitive(am.value, bm.value, cm.value); }
      if ExtGt(cm.value, bm.value) && ExtGt(bm.value, am.value) { ExtGtTransitive(cm.value, bm.value, am.value); }
    }
    if as_.Some? {
      ExtTrichotomy(as_.value, bs.value);
      ExtTrichotomy(bs.value, cs.value);
      ExtTrichotomy(as_.value, cs.value);
      if ExtGt(as_.value, bs.value) && ExtGt(bs.value, cs.value) { ExtGtTransitive(as_.value, bs.value, cs.value); }
      if ExtGt(cs.value, bs.value) && ExtGt(bs.value, as_.value) { ExtGtTransitive(cs.value, bs.value, as_.value); }
    }
  }

  // ---------------------------------------------------------------------
  // resortMaratonTabell

  function SortRows(rows: seq<Row>, sortOn: string, descending: bool): seq<Row>
  {
    var (main, secondary) := Columns(sortOn);
    SortBy(rows, (a, b) => RowLe(a, b, main, secondary, Sign(descending)))
  }

  /** `resortMaratonTabell(sortOn, descending)`: the new table, or `None` when
      `uniquePlayers` is not loaded and the table is left as it is. */
  function Resort(sortOn: string, descending: bool, uniquePlayers: Option<seq<PlayerKey>>,
                  playerScores: map<string, int>, playerWins: map<string, int>,
                  playerAppearances: map<string, int>): (r: Option<seq<Row>>)
    requires uniquePlayers.Some? ==> forall i :: 0 <= i < |uniquePlayers.value| ==> uniquePlayers.value[i].name in playerScores
    ensures r.None? <==> uniquePlayers.None?
  {
    match uniquePlayers
    case None => None
    case Some(ups) => Some(SortRows(Rows(ups, playerScores, playerWins, playerAppearances), sortOn, descending))
  }

  /** The main column's value, as the comparator reads it. */
  function MainValue(row: Row, sortOn: string): Option<Ext>
  {
    Column(row, Columns(sortOn).0)
  }

  function SecondaryValue(row: Row, sortOn: string): Option<Ext>
  {
    Column(row, Columns(sortOn).1)
  }

  /** The sorted table is a rearrangement of the rows. Descending, the main
      column does not increase down the table, and among equal main values
      the secondary column does not increase; ascending, both are reversed.
      Rows equal on both columns keep their order. */
  lemma SortRowsSpec(rows: seq<Row>, sortOn: string, descending: bool)
    ensures var r := SortRows(rows, sortOn, descending);
      && multiset(r) == multiset(rows)
      && (forall i, j :: 0 <= i < j < |r| ==>
            var (mi, mj, si, sj) := (MainValue(r[i], sortOn), MainValue(r[j], sortOn), SecondaryValue(r[i], sortOn), SecondaryValue(r[j], sortOn));
            if descending then !Gt(mj, mi) && (mi == mj ==> !Gt(sj, si))
            else !Gt(mi, mj) && (mi == mj ==> !Gt(si, sj)))
  {
    var (main, secondary) := Columns(sortOn);
    var le := (a, b) => RowLe(a, b, main, secondary, Sign(descending));
    RowLeIsTotalPreorder(main, secondary, Sign(descending));
    SortBySpec(rows, le);
    var r := SortRows(rows, sortOn, descending);
    forall i, j | 0 <= i < j < |r|
      ensures var (mi, mj, si, sj) := (MainValue(r[i], sortOn), MainValue(r[j], sortOn), SecondaryValue(r[i], sortOn), SecondaryValue(r[j], sortOn));
        if descending then !Gt(mj, mi) && (mi == mj ==> !Gt(sj, si))
        else !Gt(mi, mj) && (mi == mj ==> !Gt(si, sj))
    {
      assert le(r[i], r[j]);
      var (mi, mj) := (MainValue(r[i], sortOn), MainValue(r[j], sortOn));
      if mi.Some? && mj.Some? {
        GtTrichotomy(mi, mj);
      }
    }
  }

  /** Stability: the rows the comparator calls equal to any row `e` keep the
      order they had in `uniquePlayers`, that is, name order. */
  lemma SortRowsStable(rows: seq<Row>, sortOn: string, descending: bool, e: Row)
    ensures var (main, secondary) := Columns(sortOn);
      var le := (a, b) => RowLe(a, b, main, secondary, Sign(descending));
      TiedWith(SortRows(rows, sortOn, descending), e, le) == TiedWith(rows, e, le)
  {
    var (main, secondary) := Columns(sortOn);
    RowLeIsTotalPreorder(main, secondary, Sign(descending));
    SortByStable(rows, e, (a, b) => RowLe(a, b, main, secondary, Sign(descending)));
  }

  /** The secondary column of `pointsPerAppearance` is "points", which no row
      has: two rows are tied exactly when their points per appearance are
      equal, whatever else they hold. */
  lemma PointsPerAppearanceTies(a: Row, b: Row, descending: bool)
    ensures var (main, secondary) := Columns("pointsPerAppearance");
      (Equivalent(a, b, (x, y) => RowLe(x, y, main, secondary, Sign(descending)))
       <==> a.pointsPerAppearance == b.pointsPerAppearance)
  {
    ExtTrichotomy(a.pointsPerAppearance, b.pointsPerAppearance);
  }

  /** For every other column the secondary column does break ties. */
  lemma SecondaryBreaksTies(a: Row, b: Row, sortOn: string, descending: bool)
    requires sortOn in {"vp", "wins", "ratio", "appearances", "winsPerAppearance"}
    ensures var (main, secondary) := Columns(sortOn);
      (Equivalent(a, b, (x, y) => RowLe(x, y, main, secondary, Sign(descending)))
       <==> MainValue(a, sortOn) == MainValue(b, sortOn) && SecondaryValue(a, sortOn) == SecondaryValue(b, sortOn))
  {
    var (ma, mb) := (MainValue(a, sortOn), MainValue(b, sortOn));
    var (sa, sb) := (SecondaryValue(a, sortOn), SecondaryValue(b, sortOn));
    GtTrichotomy(ma, mb);
    GtTrichotomy(sa, sb);
  }

  /** An unknown column compares every pair equal: the table keeps name order. */
  lemma UnknownColumnKeepsOrder(rows: seq<Row>, sortOn: string, descending: bool)
    requires sortOn !in {"vp", "wins", "ratio", "appearances", "winsPerAppearance", "pointsPerAppearance"}
    ensures SortRows(rows, sortOn, descending) == rows
  {
    var le := (a, b) => RowLe(a, b, None, None, Sign(descending));
    assert forall a, b :: le(a, b);
    AllTiedSortIsIdentity(rows, le);
  }

  lemma {:induction false} AllTiedSortIsIdentity(rows: seq<Row>, le: (Row, Row) -> bool)
    requires forall a, b :: le(a, b)
    ensures SortBy(rows, le) == rows
  {
    if rows != [] {
      AllTiedSortIsIdentity(rows[1..], le);
      assert SortBy(rows, le) == Insert(rows[0], rows[1..], le);
      if rows[1..] != [] {
        assert le(rows[0], rows[1..][0]);
      }
    }
  }

  // ---------------------------------------------------------------------
  // The sort state

  /** `sortOn`: the column and whether the order is descending. */
  datatype SortState = SortState(key: string, descending: bool)

  const InitialSortState: SortState := SortState("vp", true)

  /** `changeSortOn(newSortOn)`: the current column flips the direction,
      another column is sorted descending. */
  function Toggle(s: SortState, newSortOn: string): (r: SortState)
    ensures r.key == newSortOn
    ensures newSortOn == s.key ==> r.descending == !s.descending
    ensures newSortOn != s.key ==> r.descending
  {
    if newSortOn == s.key then SortState(newSortOn, !s.descending) else SortState(newSortOn, true)
  }

  /** Picking the same column twice restores the state exactly when that
      column was already the current one. */
  lemma ToggleTwice(s: SortState, k: string)
    ensures Toggle(Toggle(s, k), k) == s <==> k == s.key
  {
  }

  /** The table and its sort state: `maratonTabell` and `sortOn`, with the
      effects that re-sort the table. */
  class MarathonTable {
    var sortOn: SortState
    var maratonTabell: seq<Row>

    constructor ()
      ensures sortOn == InitialSortState && maratonTabell == []
    {
      sortOn := InitialSortState;
      maratonTabell := [];
    }

    /** `resortMaratonTabell(sortOn[0], sortOn[1])`, storing the result. */
    method Refresh(uniquePlayers: Option<seq<PlayerKey>>, playerScores: map<string, int>,
                   playerWins: map<string, int>, playerAppearances: map<string, int>)
      requires uniquePlayers.Some? ==> forall i :: 0 <= i < |uniquePlayers.value| ==> uniquePlayers.value[i].name in playerScores
      modifies this
      ensures sortOn == old(sortOn)
      ensures maratonTabell == match Resort(sortOn.key, sortOn.descending, uniquePlayers, playerScores, playerWins, playerAppearances)
        case None => old(maratonTabell)
        case Some(t) => t
    {
      var r := Resort(sortOn.key, sortOn.descending, uniquePlayers, playerScores, playerWins, playerAppearances);
      if r.Some? {
        maratonTabell := r.value;
      }
    }

    /** The first fill: an empty table and loaded data sort by "vp",
        descending. */
    method InitialFill(uniquePlayers: Option<seq<PlayerKey>>, playerScores: map<string, int>,
                       playerWins: map<string, int>, playerAppearances: map<string, int>)
      requires uniquePlayers.Some? ==> forall i :: 0 <= i < |uniquePlayers.value| ==> uniquePlayers.value[i].name in playerScores
      modifies this
      ensures sortOn == old(sortOn)
      ensures old(maratonTabell) == [] && uniquePlayers.Some? ==>
        maratonTabell == SortRows(Rows(uniquePlayers.value, playerScores, playerWins, playerAppearances), "vp", true)
      ensures !(old(maratonTabell) == [] && uniquePlayers.Some?) ==> maratonTabell == old(maratonTabell)
    {
      if uniquePlayers.Some? && |maratonTabell| == 0 {
        maratonTabell := SortRows(Rows(uniquePlayers.value, playerScores, playerWins, playerAppearances), "vp", true);
      }
    }

    /** `changeSortOn(newSortOn)`, followed by the effect that re-sorts the
        table whenever `sortOn` changes. */
    method ChangeSortOn(newSortOn: string, uniquePlayers: Option<seq<PlayerKey>>, playerScores: map<string, int>,
                        playerWins: map<string, int>, playerAppearances: map<string, int>)
      requires uniquePlayers.Some? ==> forall i :: 0 <= i < |uniquePlayers.value| ==> uniquePlayers.value[i].name in playerScores
      modifies this
      ensures sortOn == Toggle(old(sortOn), newSortOn)
      ensures maratonTabell == match Resort(sortOn.key, sortOn.descending, uniquePlayers, playerScores, playerWins, playerAppearances)
        case None => old(maratonTabell)
        case Some(t) => t
    {
      if newSortOn == sortOn.key {
        sortOn := SortState(newSortOn, !sortOn.descending);
      } else {
        sortOn := SortState(newSortOn, true);
      }
      Refresh(uniquePlayers, playerScores, playerWins, playerAppearances);
    }
  }
}
