// The records extracted from the plays feed, and the canonicalisation of
// participants: nicknames are renamed to full names, then a missing
// username is derived from the renamed name (src/Data.js:67-105; the older
// copy with four rules is src/App.js:53-85).

module Records {
  import opened Common

  /** A `<player>` element's attributes as extracted from the feed. `score`
      is the value of `Number(...)` and the optional ones are absent
      attributes (`getAttribute` gives null). */
  datatype RawParticipant = RawParticipant(
    name: string,
    username: Option<string>,
    win: Option<string>,
    score: int,
    color: Option<string>,
    isNew: Option<string>)

  /** A participant after canonicalisation. */
  datatype Participant = Participant(
    name: string,
    username: string,
    win: bool,
    score: int,
    color: Option<string>,
    isNew: bool)

  /** The game of a play, as recorded at play time. */
  datatype GameRef = GameRef(name: string, id: string)

  datatype RawPlay = RawPlay(game: GameRef, date: string, length: int, players: seq<RawParticipant>)

  datatype Play = Play(game: GameRef, date: string, length: int, players: seq<Participant>)

  /** The `{name, username}` pair that identifies a player. */
  datatype PlayerKey = PlayerKey(name: string, username: string)

  /** One branch of the `if (pl.name === from) pl.name = to` chain. */
  datatype Rename = Rename(from: string, to: string)

  const OwnerUsername: string := "wohlfart"
  const OwnerName: string := "Martin Wohlfart"

  /** The renaming chain of src/Data.js:88-98. */
  const Renames: seq<Rename> := [
    Rename("Lisa", "Lisa Wohlfart"),
    Rename("Erik", "Erik Ekberg"),
    Rename("Cesse", "Cecilia Apitzsch"),
    Rename("Meidi", "Meidi Tõnisson-Bystam"),
    Rename("Fredrik Bystam", "Fredrik Tõnisson-Bystam")
  ]

  /** The older renaming chain of src/App.js:72-78. */
  const LegacyRenames: seq<Rename> := [
    Rename("Lisa", "Lisa Wohlfart"),
    Rename("Erik", "Erik Ekberg"),
    Rename("Cesse", "Cecilia Apitzsch")
  ]

  /** An `if`/`else if` chain: the first rule whose `from` is `name` applies. */
  function RenameByName(rules: seq<Rename>, name: string): string
  {
    if rules == [] then name
    else if name == rules[0].from then rules[0].to
    else RenameByName(rules[1..], name)
  }

  function CanonicalName(rules: seq<Rename>, name: string, username: Option<string>): string
  {
    RenameByName(rules, if username == Some(OwnerUsername) then OwnerName else name)
  }

  /** `!pl.username`: an absent or empty attribute. */
  predicate Falsy(username: Option<string>)
  {
    username == None || username == Some("")
  }

  function CanonicalUsername(username: Option<string>, canonicalName: string): string
  {
    if Falsy(username) then RemoveSpaces(canonicalName) else username.value
  }

  /** What the two `map` calls of src/Data.js:76-103 produce for one `<player>`. */
  function Canonicalize(rules: seq<Rename>, raw: RawParticipant): Participant
  {
    var n := CanonicalName(rules, raw.name, raw.username);
    Participant(n, CanonicalUsername(raw.username, n), raw.win == Some("1"),
                raw.score, raw.color, raw.isNew == Some("1"))
  }

  function CanonicalizeAll(rules: seq<Rename>, raws: seq<RawParticipant>): (ps: seq<Participant>)
    ensures |ps| == |raws|
    ensures forall i :: 0 <= i < |raws| ==> ps[i] == Canonicalize(rules, raws[i])
  {
    if raws == [] then []
    else [Canonicalize(rules, raws[0])] + CanonicalizeAll(rules, raws[1..])
  }

  function CanonicalPlay(rules: seq<Rename>, raw: RawPlay): Play
  {
    Play(raw.game, raw.date, raw.length, CanonicalizeAll(rules, raw.players))
  }

  /** The participant object of the first `map`, whose `name` and `username`
      the second `map` overwrites in place. */
  class ParticipantRecord {
    var name: string
    var username: Option<string>
    var win: bool
    var score: int
    var color: Option<string>
    var isNew: bool

    constructor (raw: RawParticipant)
      ensures name == raw.name && username == raw.username
      ensures win == (raw.win == Some("1")) && isNew == (raw.isNew == Some("1"))
      ensures score == raw.score && color == raw.color
    {
      name := raw.name;
      username := raw.username;
      win := raw.win == Some("1");
      score := raw.score;
      color := raw.color;
      isNew := raw.isNew == Some("1");
    }

    function Snapshot(): Participant
      reads this
    {
      Participant(name, if username.Some? then username.value else "", win, score, color, isNew)
    }

    /** The body of the second `map`: rename, then derive a missing username. */
    method Canonicalize(rules: seq<Rename>)
      modifies this
      ensures name == CanonicalName(rules, old(name), old(username))
      ensures username == Some(CanonicalUsername(old(username), name))
      ensures win == old(win) && score == old(score) && color == old(color) && isNew == old(isNew)
    {
      if username == Some(OwnerUsername) {
        name := OwnerName;
      }
      var i := 0;
      while i < |rules| && name != rules[i].from
        invariant 0 <= i <= |rules|
        invariant RenameByName(rules, name) == RenameByName(rules[i..], name)
      {
        assert rules[i..][1..] == rules[i + 1..];
        i := i + 1;
      }
      if i < |rules| {
        name := rules[i].to;
      }
      if Falsy(username) {
        username := Some(RemoveSpaces(name));
      }
    }
  }

  /** The `<player>` elements of one play, turned into canonical participants. */
  method ParseParticipants(rules: seq<Rename>, raws: seq<RawParticipant>) returns (ps: seq<Participant>)
    ensures ps == CanonicalizeAll(rules, raws)
  {
    ps := [];
    var i := 0;
    while i < |raws|
      invariant 0 <= i <= |raws|
      invariant |ps| == i
      invariant forall k :: 0 <= k < i ==> ps[k] == Canonicalize(rules, raws[k])
    {
      var pl := new ParticipantRecord(raws[i]);
      pl.Canonicalize(rules);
      ps := ps + [pl.Snapshot()];
      i := i + 1;
    }
  }

  /** The `playsJson` mapping of src/Data.js:67-105, one play at a time. */
  method ParsePlays(rules: seq<Rename>, raws: seq<RawPlay>) returns (plays: seq<Play>)
    ensures |plays| == |raws|
    ensures forall i :: 0 <= i < |raws| ==> plays[i] == CanonicalPlay(rules, raws[i])
  {
    plays := [];
    var i := 0;
    while i < |raws|
      invariant 0 <= i <= |raws|
      invariant |plays| == i
      invariant forall k :: 0 <= k < i ==> plays[k] == CanonicalPlay(rules, raws[k])
    {
      var ps := ParseParticipants(rules, raws[i].players);
      plays := plays + [Play(raws[i].game, raws[i].date, raws[i].length, ps)];
      i := i + 1;
    }
  }

  // ---------------------------------------------------------------------
  // Properties of the canonicalisation

  /** No rule renames to a name that some rule renames from, and the owner's
      name is no rule's source. */
  ghost predicate RulesClosed(rules: seq<Rename>)
  {
    && (forall i, j :: 0 <= i < |rules| && 0 <= j < |rules| ==> rules[i].to != rules[j].from)
    && (forall j :: 0 <= j < |rules| ==> rules[j].from != OwnerName)
  }

  ghost predicate SourcesDistinct(rules: seq<Rename>)
  {
    forall i, j :: 0 <= i < j < |rules| ==> rules[i].from != rules[j].from
  }

  /** No target has the length of a source, and no source has the length
      of the owner's name. */
  lemma RenamesClosed()
    ensures RulesClosed(Renames)
  {
    assert forall i :: 0 <= i < |Renames| ==> |Renames[i].to| in {11, 13, 16, 21, 23};
    assert forall j :: 0 <= j < |Renames| ==> |Renames[j].from| in {4, 5, 14};
  }

  /** The sources start with five different letters. */
  lemma RenameSourcesDistinct()
    ensures SourcesDistinct(Renames)
  {
    assert Renames[0].from[0] == 'L' && Renames[1].from[0] == 'E' && Renames[2].from[0] == 'C';
    assert Renames[3].from[0] == 'M' && Renames[4].from[0] == 'F';
  }

  lemma RenameTablesWellFormed()
    ensures RulesClosed(Renames) && SourcesDistinct(Renames)
    ensures RulesClosed(LegacyRenames) && SourcesDistinct(LegacyRenames)
  {
    RenamesClosed();
    RenameSourcesDistinct();
    var prefix := Renames[..3];
    assert LegacyRenames == prefix;
    assert forall i :: 0 <= i < |prefix| ==> prefix[i] == Renames[i];
  }

  lemma {:induction false} RenameHit(rules: seq<Rename>, i: nat)
    requires i < |rules| && SourcesDistinct(rules)
    ensures RenameByName(rules, rules[i].from) == rules[i].to
  {
    if i > 0 {
      assert rules[1..][i - 1] == rules[i];
      RenameHit(rules[1..], i - 1);
    }
  }

  lemma {:induction false} RenameMiss(rules: seq<Rename>, name: string)
    requires forall j :: 0 <= j < |rules| ==> rules[j].from != name
    ensures RenameByName(rules, name) == name
  {
    if rules != [] {
      assert forall j :: 0 <= j < |rules[1..]| ==> rules[1..][j] == rules[j + 1];
      RenameMiss(rules[1..], name);
    }
  }

  /** A renamed name is never renamed again. */
  lemma {:induction false} RenameIdempotent(rules: seq<Rename>, name: string)
    requires RulesClosed(rules)
    ensures RenameByName(rules, RenameByName(rules, name)) == RenameByName(rules, name)
  {
    if rules != [] {
      if name == rules[0].from {
        RenameMiss(rules, rules[0].to);
      } else {
        assert forall j :: 0 <= j < |rules[1..]| ==> rules[1..][j] == rules[j + 1];
        assert RulesClosed(rules[1..]);
        RenameIdempotent(rules[1..], name);
        var n := RenameByName(rules[1..], name);
        if n != name {
          RenameResultIsTarget(rules[1..], name);
          assert n != rules[0].from;
        } else {
          assert n != rules[0].from;
        }
      }
    }
  }

  lemma {:induction false} RenameResultIsTarget(rules: seq<Rename>, name: string)
    requires RenameByName(rules, name) != name
    ensures exists i :: 0 <= i < |rules| && rules[i].to == RenameByName(rules, name)
  {
    if rules[0].from != name {
      RenameResultIsTarget(rules[1..], name);
      var i :| 0 <= i < |rules[1..]| && rules[1..][i].to == RenameByName(rules, name);
      assert rules[i + 1].to == RenameByName(rules, name);
    }
  }

  /** Username "wohlfart" always ends up as "Martin Wohlfart", whatever the name. */
  lemma OwnerIsRenamed(raw: RawParticipant)
    requires raw.username == Some(OwnerUsername)
    ensures Canonicalize(Renames, raw).name == OwnerName
    ensures Canonicalize(Renames, raw).username == OwnerUsername
  {
    RenameMiss(Renames, OwnerName);
  }

  /** Each nickname rule applies to every participant whose username is not
      the owner's, whatever the username (absent, empty or another one). */
  lemma NicknameIsRenamed(raw: RawParticipant, i: nat)
    requires i < |Renames| && raw.name == Renames[i].from
    requires raw.username != Some(OwnerUsername)
    ensures Canonicalize(Renames, raw).name == Renames[i].to
  {
    RenameHit(Renames, i);
  }

  /** Names that no rule mentions are left alone. */
  lemma OtherNamesKept(rules: seq<Rename>, raw: RawParticipant)
    requires forall j :: 0 <= j < |rules| ==> rules[j].from != raw.name
    requires raw.username != Some(OwnerUsername)
    ensures Canonicalize(rules, raw).name == raw.name
  {
    RenameMiss(rules, raw.name);
  }

  /** The synthetic username is derived from the renamed name, and a
      non-empty username is kept. */
  lemma UsernameDerivation(rules: seq<Rename>, raw: RawParticipant)
    ensures var p := Canonicalize(rules, raw);
      && (Falsy(raw.username) ==> p.username == RemoveSpaces(p.name) && ' ' !in p.username)
      && (!Falsy(raw.username) ==> p.username == raw.username.value)
      && (p.win <==> raw.win == Some("1"))
      && (p.isNew <==> raw.isNew == Some("1"))
  {
  }

  /** The second `map` applied to an already canonical participant. */
  function Recanonicalize(rules: seq<Rename>, p: Participant): Participant
  {
    var n := CanonicalName(rules, p.name, Some(p.username));
    p.(name := n, username := CanonicalUsername(Some(p.username), n))
  }

  /** Canonicalising twice gives the same record as canonicalising once,
      unless the username derived from the name is the owner's. */
  lemma CanonicalizeIdempotent(rules: seq<Rename>, raw: RawParticipant)
    requires RulesClosed(rules)
    requires !(Falsy(raw.username) && CanonicalUsername(raw.username, CanonicalName(rules, raw.name, raw.username)) == OwnerUsername)
    ensures Recanonicalize(rules, Canonicalize(rules, raw)) == Canonicalize(rules, raw)
  {
    var p := Canonicalize(rules, raw);
    RenameMiss(rules, OwnerName);
    if raw.username == Some(OwnerUsername) {
      assert p.name == OwnerName;
    } else {
      RenameIdempotent(rules, raw.name);
      assert p.username != OwnerUsername;
      assert CanonicalName(rules, p.name, Some(p.username)) == p.name;
    }
    assert CanonicalUsername(Some(p.username), p.name) == p.username;
  }

  /** The exception: a participant without username whose name is
      "wohlfart" gets the owner's username, and a second pass would rename
      them to "Martin Wohlfart". */
  lemma CanonicalizeNotIdempotentForOwnerName()
    ensures var raw := RawParticipant(OwnerUsername, None, None, 0, None, None);
      var p := Canonicalize(Renames, raw);
      p.name == OwnerUsername && p.username == OwnerUsername &&
      Recanonicalize(Renames, p).name == OwnerName
  {
    RenameMiss(Renames, OwnerUsername);
    RenameMiss(Renames, OwnerName);
    RemoveSpacesNoSpace(OwnerUsername);
  }

  // ---------------------------------------------------------------------
  // The older copy in src/App.js

  /** src/App.js keeps only name, username and win. */
  datatype LegacyParticipant = LegacyParticipant(name: string, username: string, win: bool)

  function LegacyCanonicalize(raw: RawParticipant): LegacyParticipant
  {
    var p := Canonicalize(LegacyRenames, raw);
    LegacyParticipant(p.name, p.username, p.win)
  }

  /** The older chain does not rename "Meidi"; the current one does. */
  lemma LegacyKeepsMeidi(raw: RawParticipant)
    requires raw.name == "Meidi" && raw.username != Some(OwnerUsername)
    ensures LegacyCanonicalize(raw).name == "Meidi"
    ensures Canonicalize(Renames, raw).name == "Meidi Tõnisson-Bystam"
  {
    RenameMiss(LegacyRenames, "Meidi");
    RenameHit(Renames, 3);
  }

  /** Apart from the two rules it lacks, the older copy agrees with the current one. */
  lemma LegacyAgrees(raw: RawParticipant)
    requires raw.name != "Meidi" && raw.name != "Fredrik Bystam"
    ensures var p := Canonicalize(Renames, raw);
      LegacyCanonicalize(raw) == LegacyParticipant(p.name, p.username, p.win)
  {
    var n := if raw.username == Some(OwnerUsername) then OwnerName else raw.name;
    var extra := [Rename("Meidi", "Meidi Tõnisson-Bystam"), Rename("Fredrik Bystam", "Fredrik Tõnisson-Bystam")];
    assert Renames == LegacyRenames + extra;
    RenameExtension(LegacyRenames, extra, n);
  }

  /** Rules appended to a chain change nothing for names they do not match. */
  lemma {:induction false} RenameExtension(a: seq<Rename>, b: seq<Rename>, name: string)
    requires forall j :: 0 <= j < |b| ==> b[j].from != name
    ensures RenameByName(a + b, name) == RenameByName(a, name)
  {
    if a == [] {
      assert a + b == b;
      RenameMiss(b, name);
    } else {
      assert (a + b)[1..] == a[1..] + b;
      RenameExtension(a[1..], b, name);
    }
  }
}
