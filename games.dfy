// Game metadata: the record built for each `<item>` of the BoardGameGeek
// "things" feed and the three collections filled in by the `games.forEach`
// loop of src/Data.js:108-136 (the same loop is at src/App.js:87-111).

module Games {
  import opened Common

  /** The `type` attributes of the `<link>` elements that are kept. */
  const MechanicLink: string := "boardgamemechanic"
  const DesignerLink: string := "boardgamedesigner"
  const ArtistLink: string := "boardgameartist"

  /** A `<link type=".." value="..">` element of an item. */
  datatype Link = Link(kind: string, value: string)

  /** The attribute values of an `<item>`, once extracted from the XML. */
  datatype RawGame = RawGame(
    id: string,
    name: string,          // the value of `name[type="primary"]`
    thumbnail: string,
    image: string,
    description: string,
    yearPublished: int,
    links: seq<Link>)

  /** `itemAsJson`. */
  datatype Game = Game(
    thumbnail: string,
    image: string,
    name: string,
    description: string,
    yearPublished: int,
    mechanics: seq<string>,
    designers: seq<string>,
    artists: seq<string>)

  /** The values of the links of type `kind`, in document order:
      `querySelectorAll('link[type="kind"]').map(l => l.getAttribute("value"))`. */
  function LinkValues(links: seq<Link>, kind: string): (r: seq<string>)
    ensures |r| <= |links|
  {
    if links == [] then []
    else
      var last := links[|links| - 1];
      LinkValues(links[..|links| - 1], kind) + (if last.kind == kind then [last.value] else [])
  }

  /** The values keep document order: the links of a concatenation give the
      concatenation of the values. */
  lemma {:induction false} LinkValuesAppend(a: seq<Link>, b: seq<Link>, kind: string)
    ensures LinkValues(a + b, kind) == LinkValues(a, kind) + LinkValues(b, kind)
  {
    if b != [] {
      var c := b[..|b| - 1];
      assert (a + b)[..|a + b| - 1] == a + c;
      LinkValuesAppend(a, c, kind);
    } else {
      assert a + b == a;
    }
  }

  /** Nothing is deduplicated: a value occurs as often as the links of that
      type that carry it. */
  lemma {:induction false} LinkValuesCount(links: seq<Link>, kind: string, v: string)
    ensures multiset(LinkValues(links, kind))[v] == multiset(links)[Link(kind, v)]
  {
    if links != [] {
      var p := links[..|links| - 1];
      assert links == p + [links[|links| - 1]];
      LinkValuesCount(p, kind, v);
    }
  }

  function ToGame(item: RawGame): Game
  {
    Game(item.thumbnail, item.image, item.name, item.description, item.yearPublished,
         LinkValues(item.links, MechanicLink),
         LinkValues(item.links, DesignerLink),
         LinkValues(item.links, ArtistLink))
  }

  /** `m` is what storing `vals[i]` under `keys[i]` for `i` from 0 below `n`
      leaves: the keys seen, each holding the value stored last. */
  ghost predicate LastWriteWins<V>(keys: seq<string>, vals: seq<V>, n: int, m: map<string, V>)
    requires 0 <= n <= |keys| == |vals|
  {
    && (forall k :: k in m <==> exists i :: 0 <= i < n && keys[i] == k)
    && (forall i :: 0 <= i < n && (forall j :: i < j < n ==> keys[j] != keys[i]) ==> m[keys[i]] == vals[i])
  }

  lemma LastWriteWinsStep<V>(keys: seq<string>, vals: seq<V>, n: int, m: map<string, V>)
    requires 0 <= n < |keys| == |vals|
    requires LastWriteWins(keys, vals, n, m)
    ensures LastWriteWins(keys, vals, n + 1, m[keys[n] := vals[n]])
  {
    var m' := m[keys[n] := vals[n]];
    forall i | 0 <= i < n + 1 && (forall j :: i < j < n + 1 ==> keys[j] != keys[i])
      ensures m'[keys[i]] == vals[i]
    {
      if i < n {
        assert keys[n] != keys[i];
      }
    }
  }

  function Ids(items: seq<RawGame>): seq<string>
  {
    seq(|items|, i requires 0 <= i < |items| => items[i].id)
  }

  function Names(items: seq<RawGame>): seq<string>
  {
    seq(|items|, i requires 0 <= i < |items| => items[i].name)
  }

  function GameRecords(items: seq<RawGame>): (r: seq<Game>)
    ensures |r| == |items|
    ensures forall i :: 0 <= i < |items| ==> r[i] == ToGame(items[i])
  {
    seq(|items|, i requires 0 <= i < |items| => ToGame(items[i]))
  }

  /** The `games.forEach` loop: push every record onto `gamesJson` and store
      it under its id and under its primary name, a later item overwriting
      an earlier one with the same key. */
  method BuildGameIndex(items: seq<RawGame>)
    returns (gamesJson: seq<Game>, byId: map<string, Game>, byName: map<string, Game>)
    ensures gamesJson == GameRecords(items)
    ensures LastWriteWins(Ids(items), GameRecords(items), |items|, byId)
    ensures LastWriteWins(Names(items), GameRecords(items), |items|, byName)
  {
    gamesJson, byId, byName := [], map[], map[];
    ghost var ids, names, recs := Ids(items), Names(items), GameRecords(items);
    var n := 0;
    while n < |items|
      invariant 0 <= n <= |items|
      invariant |gamesJson| == n
      invariant forall k :: 0 <= k < n ==> gamesJson[k] == recs[k]
      invariant LastWriteWins(ids, recs, n, byId)
      invariant LastWriteWins(names, recs, n, byName)
    {
      var item := items[n];
      var itemAsJson := ToGame(item);
      LastWriteWinsStep(ids, recs, n, byId);
      LastWriteWinsStep(names, recs, n, byName);
      gamesJson := gamesJson + [itemAsJson];
      byId := byId[item.id := itemAsJson];
      byName := byName[item.name := itemAsJson];
      n := n + 1;
    }
  }

  /** Reading one key back from a map built by last-write-wins. */
  lemma LastWriteWinsAt<V>(keys: seq<string>, vals: seq<V>, m: map<string, V>, i: int)
    requires |keys| == |vals|
    requires LastWriteWins(keys, vals, |keys|, m)
    requires 0 <= i < |keys|
    ensures keys[i] in m
    ensures (forall j :: i < j < |keys| ==> keys[j] != keys[i]) ==> m[keys[i]] == vals[i]
  {
  }

  /** Read back: every id seen is a key, and holds the record of the last item
      with that id; likewise for primary names. */
  lemma IndexLookup(items: seq<RawGame>, byId: map<string, Game>, byName: map<string, Game>, i: int)
    requires LastWriteWins(Ids(items), GameRecords(items), |items|, byId)
    requires LastWriteWins(Names(items), GameRecords(items), |items|, byName)
    requires 0 <= i < |items|
    ensures items[i].id in byId && items[i].name in byName
    ensures (forall j :: i < j < |items| ==> items[j].id != items[i].id) ==> byId[items[i].id] == ToGame(items[i])
    ensures (forall j :: i < j < |items| ==> items[j].name != items[i].name) ==> byName[items[i].name] == ToGame(items[i])
  {
    IdLookup(items, byId, i);
    NameLookup(items, byName, i);
  }

  lemma IdLookup(items: seq<RawGame>, byId: map<string, Game>, i: int)
    requires LastWriteWins(Ids(items), GameRecords(items), |items|, byId)
    requires 0 <= i < |items|
    ensures items[i].id in byId
    ensures (forall j :: i < j < |items| ==> items[j].id != items[i].id) ==> byId[items[i].id] == ToGame(items[i])
  {
    var ids := Ids(items);
    LastWriteWinsAt(ids, GameRecords(items), byId, i);
    assert ids[i] == items[i].id;
    if forall j :: i < j < |items| ==> items[j].id != items[i].id {
      assert forall j :: i < j < |items| ==> ids[j] != ids[i];
    }
  }

  lemma NameLookup(items: seq<RawGame>, byName: map<string, Game>, i: int)
    requires LastWriteWins(Names(items), GameRecords(items), |items|, byName)
    requires 0 <= i < |items|
    ensures items[i].name in byName
    ensures (forall j :: i < j < |items| ==> items[j].name != items[i].name) ==> byName[items[i].name] == ToGame(items[i])
  {
    var names := Names(items);
    LastWriteWinsAt(names, GameRecords(items), byName, i);
    assert names[i] == items[i].name;
    if forall j :: i < j < |items| ==> items[j].name != items[i].name {
      assert forall j :: i < j < |items| ==> names[j] != names[i];
    }
  }

  /** `gamesMetaDataByName[name]`: the record, or `undefined`. */
  function Lookup(byName: map<string, Game>, name: string): (r: Option<Game>)
    ensures r.Some? <==> name in byName
    ensures r.Some? ==> r.value == byName[name]
  {
    if name in byName then Some(byName[name]) else None
  }
}
