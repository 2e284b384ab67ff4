// `minutesToHM`, the Swedish hours-and-minutes formatter of
// src/Data.js:209-216 (textually identical copy at src/App.js:10-17),
// together with a parser for the phrases it writes. Parsing a formatted
// duration gives the duration back, so the phrase is unambiguous and
// grammatical; the words it uses are stated separately.

module Duration {
  import opened Common

  predicate IsDigit(c: char)
  {
    '0' <= c <= '9'
  }

  function DigitChar(k: nat): (c: char)
    requires k < 10
    ensures IsDigit(c)
  {
    ('0' as int + k) as char
  }

  /** JavaScript's decimal rendering of a non-negative integer. */
  function NatToString(n: nat): (s: string)
    ensures |s| >= 1
    ensures forall i :: 0 <= i < |s| ==> IsDigit(s[i])
  {
    if n < 10 then [DigitChar(n)] else NatToString(n / 10) + [DigitChar(n % 10)]
  }

  function ParseNat(s: string): Option<nat>
  {
    if s == [] || !IsDigit(s[|s| - 1]) then None
    else
      var d := s[|s| - 1] as int - '0' as int;
      if |s| == 1 then Some(d)
      else match ParseNat(s[..|s| - 1])
        case None => None
        case Some(v) => Some(10 * v + d)
  }

  lemma {:induction false} ParseNatToString(n: nat)
    ensures ParseNat(NatToString(n)) == Some(n)
  {
    if n >= 10 {
      ParseNatToString(n / 10);
      var s := NatToString(n);
      assert s[..|s| - 1] == NatToString(n / 10);
    }
  }

  /** `h === 1 ? " timme" : " timmar"` without its leading space. */
  function HourWord(h: int): string
  {
    if h == 1 then "timme" else "timmar"
  }

  function MinuteWord(m: int): string
  {
    if m == 1 then "minut" else "minuter"
  }

  /** `Math.floor(d % 60)`: JavaScript's `%` takes the sign of the dividend. */
  function JsRem60(d: int): (m: int)
    ensures -60 < m < 60
    ensures d >= 0 ==> m == d % 60
    ensures d < 0 ==> m <= 0
  {
    if d >= 0 then d % 60 else -((-d) % 60)
  }

  /** `hDisplay + mDisplay` for `h` hours and `m` minutes. */
  function Display(h: int, m: int): (r: string)
    ensures r == "" <==> h <= 0 && m <= 0
  {
    var hDisplay := if h > 0 then NatToString(h) + " " + HourWord(h) else "";
    var mDisplay := if m > 0 then (if h > 0 then " och " else "") + NatToString(m) + " " + MinuteWord(m) else "";
    assert h > 0 ==> |hDisplay| > 0;
    assert m > 0 ==> |mDisplay| > 0;
    hDisplay + mDisplay
  }

  /** `minutesToHM(d)`. `Math.floor(d / 60)` is Dafny's `d / 60`, since
      division by a positive number rounds down in both. */
  function MinutesToHM(d: int): (r: string)
    ensures r == "" <==> d <= 0
  {
    assert d > 0 ==> d / 60 > 0 || JsRem60(d) > 0;
    Display(d / 60, JsRem60(d))
  }

  // ---------------------------------------------------------------------
  // Words and the reference parser

  /** The words of `s`, split at every space (`s.split(" ")`). */
  function Words(s: string): (w: seq<string>)
    ensures |w| >= 1
    decreases |s|
  {
    if ' ' !in s then [s]
    else
      var i := FirstIndex(s, ' ');
      [s[..i]] + Words(s[i + 1..])
  }

  lemma WordsFirst(a: string, b: string)
    requires ' ' !in a
    ensures Words(a + " " + b) == [a] + Words(b)
  {
    var s := a + " " + b;
    assert s[|a|] == ' ';
    assert forall j :: 0 <= j < |a| ==> s[j] == a[j];
    var i := FirstIndex(s, ' ');
    assert i == |a|;
    assert s[..i] == a;
    assert s[i + 1..] == b;
  }

  lemma DigitsHaveNoSpace(n: nat)
    ensures ' ' !in NatToString(n)
  {
    var s := NatToString(n);
    assert forall i :: 0 <= i < |s| ==> s[i] != ' ';
  }

  lemma WordsSingle(a: string)
    requires ' ' !in a
    ensures Words(a) == [a]
  {
  }

  lemma Words2(a: string, b: string)
    requires ' ' !in a && ' ' !in b
    ensures Words(a + " " + b) == [a, b]
  {
    WordsFirst(a, b);
    WordsSingle(b);
  }

  lemma Words3(a: string, b: string, c: string)
    requires ' ' !in a && ' ' !in b && ' ' !in c
    ensures Words(a + " " + (b + " " + c)) == [a, b, c]
  {
    Words2(b, c);
    WordsFirst(a, b + " " + c);
  }

  lemma Words4(a: string, b: string, c: string, d: string)
    requires ' ' !in a && ' ' !in b && ' ' !in c && ' ' !in d
    ensures Words(a + " " + (b + " " + (c + " " + d))) == [a, b, c, d]
  {
    Words3(b, c, d);
    WordsFirst(a, b + " " + (c + " " + d));
  }

  lemma Words5(a: string, b: string, c: string, d: string, e: string)
    requires ' ' !in a && ' ' !in b && ' ' !in c && ' ' !in d && ' ' !in e
    ensures Words(a + " " + (b + " " + (c + " " + (d + " " + e)))) == [a, b, c, d, e]
  {
    Words4(b, c, d, e);
    WordsFirst(a, b + " " + (c + " " + (d + " " + e)));
  }

  lemma UnitsHaveNoSpace(k: int)
    ensures ' ' !in HourWord(k) && ' ' !in MinuteWord(k) && ' ' !in "och"
  {
  }

  /** The words `minutesToHM` writes for `h` hours and `m` minutes. */
  function DisplayWords(h: int, m: int): seq<string>
    requires h >= 0 && m >= 0
  {
    (if h > 0 then [NatToString(h), HourWord(h)] else [])
    + (if h > 0 && m > 0 then ["och"] else [])
    + (if m > 0 then [NatToString(m), MinuteWord(m)] else [])
  }

  /** The five words of "<hs> <hw> och <ms> <mw>", built the way
      `minutesToHM` builds it. */
  lemma WordsOfJoined(hs: string, hw: string, ms: string, mw: string)
    requires ' ' !in hs && ' ' !in hw && ' ' !in ms && ' ' !in mw
    ensures Words((hs + " " + hw) + (" och " + ms + " " + mw)) == [hs, hw, "och", ms, mw]
  {
    var tail := ms + " " + mw;
    assert " och " + ms + " " + mw == " " + ("och" + " " + tail);
    assert (hs + " " + hw) + (" " + ("och" + " " + tail)) == hs + " " + (hw + " " + ("och" + " " + tail));
    Words5(hs, hw, "och", ms, mw);
  }

  lemma WordsHoursAndMinutes(h: nat, m: nat)
    requires h > 0 && m > 0
    ensures Words(Display(h, m)) == DisplayWords(h, m)
  {
    DigitsHaveNoSpace(h);
    DigitsHaveNoSpace(m);
    UnitsHaveNoSpace(h);
    UnitsHaveNoSpace(m);
    WordsOfJoined(NatToString(h), HourWord(h), NatToString(m), MinuteWord(m));
  }

  lemma WordsHoursOnly(h: nat)
    requires h > 0
    ensures Words(Display(h, 0)) == DisplayWords(h, 0)
  {
    DigitsHaveNoSpace(h);
    UnitsHaveNoSpace(h);
    assert Display(h, 0) == NatToString(h) + " " + HourWord(h);
    Words2(NatToString(h), HourWord(h));
  }

  lemma WordsMinutesOnly(m: nat)
    requires m > 0
    ensures Words(Display(0, m)) == DisplayWords(0, m)
  {
    DigitsHaveNoSpace(m);
    UnitsHaveNoSpace(m);
    assert Display(0, m) == NatToString(m) + " " + MinuteWord(m);
    Words2(NatToString(m), MinuteWord(m));
  }

  /** The words of a non-empty phrase are those `DisplayWords` lists. */
  lemma WordsOfDisplay(d: int)
    requires d > 0
    ensures Words(MinutesToHM(d)) == DisplayWords(d / 60, d % 60)
  {
    var h, m := d / 60, d % 60;
    assert MinutesToHM(d) == Display(h, m);
    if h > 0 && m > 0 {
      WordsHoursAndMinutes(h, m);
    } else if h > 0 {
      WordsHoursOnly(h);
    } else {
      WordsMinutesOnly(m);
    }
  }

  /** Reads the words "<n> timme|timmar", "<n> minut|minuter" with
      0 < n < 60, or the two joined by "och", insisting on the singular
      exactly for 1. The empty phrase is no time at all. */
  function ParseWords(w: seq<string>): Option<int>
  {
    if w == [""] then Some(0)
    else if |w| == 2 then
      match ParseNat(w[0])
      case None => None
      case Some(n) =>
        if n > 0 && w[1] == HourWord(n) then Some(60 * n)
        else if 0 < n < 60 && w[1] == MinuteWord(n) then Some(n)
        else None
    else if |w| == 5 && w[2] == "och" then
      match (ParseNat(w[0]), ParseNat(w[3]))
      case (Some(h), Some(m)) =>
        if h > 0 && w[1] == HourWord(h) && 0 < m < 60 && w[4] == MinuteWord(m) then Some(60 * h + m)
        else None
      case _ => None
    else None
  }

  /** The reference reading of a duration phrase. */
  function ParseHM(s: string): Option<int>
  {
    ParseWords(Words(s))
  }

  lemma ParseHoursAndMinutes(h: nat, m: nat)
    requires h > 0 && 0 < m < 60
    ensures ParseWords(DisplayWords(h, m)) == Some(60 * h + m)
  {
    ParseNatToString(h);
    ParseNatToString(m);
    DigitsAreNoWord(h, "");
    assert DisplayWords(h, m) == [NatToString(h), HourWord(h), "och", NatToString(m), MinuteWord(m)];
  }

  lemma ParseHoursOnly(h: nat)
    requires h > 0
    ensures ParseWords(DisplayWords(h, 0)) == Some(60 * h)
  {
    ParseNatToString(h);
    DigitsAreNoWord(h, "");
    assert DisplayWords(h, 0) == [NatToString(h), HourWord(h)];
  }

  lemma ParseMinutesOnly(m: nat)
    requires 0 < m < 60
    ensures ParseWords(DisplayWords(0, m)) == Some(m)
  {
    ParseNatToString(m);
    DigitsAreNoWord(m, "");
    assert DisplayWords(0, m) == [NatToString(m), MinuteWord(m)];
    assert MinuteWord(m) != HourWord(m);
  }

  /** The reference parser reads the words back as the duration. */
  lemma ParseDisplayWords(h: nat, m: nat)
    requires m < 60 && (h > 0 || m > 0)
    ensures ParseWords(DisplayWords(h, m)) == Some(60 * h + m)
  {
    if h > 0 && m > 0 {
      ParseHoursAndMinutes(h, m);
    } else if h > 0 {
      ParseHoursOnly(h);
    } else {
      ParseMinutesOnly(m);
    }
  }

  lemma DivMod60(d: int)
    requires d > 0
    ensures d / 60 >= 0 && 0 <= d % 60 < 60
    ensures 60 * (d / 60) + d % 60 == d
    ensures d / 60 > 0 || d % 60 > 0
  {
  }

  lemma RoundTripHM(h: nat, m: nat)
    requires m < 60 && (h > 0 || m > 0)
    ensures ParseHM(Display(h, m)) == Some(60 * h + m)
  {
    if h > 0 && m > 0 {
      WordsHoursAndMinutes(h, m);
    } else if h > 0 {
      WordsHoursOnly(h);
    } else {
      WordsMinutesOnly(m);
    }
    ParseDisplayWords(h, m);
  }

  lemma RoundTripPositive(d: int)
    requires d > 0
    ensures ParseHM(MinutesToHM(d)) == Some(d)
  {
    DivMod60(d);
    RoundTripHM(d / 60, d % 60);
  }

  /** Parsing the phrase for `d` minutes gives back `d`. */
  lemma DurationRoundTrip(d: nat)
    ensures ParseHM(MinutesToHM(d)) == Some(d)
  {
    if d > 0 {
      RoundTripPositive(d);
    } else {
      assert Words("") == [""];
    }
  }

  /** A digit string is none of the words of a phrase, nor empty. */
  lemma DigitsAreNoWord(n: nat, word: string)
    requires word in {"", "och", "timme", "timmar", "minut", "minuter"}
    ensures NatToString(n) != word
  {
    if word != "" {
      assert !IsDigit(word[0]);
    }
  }

  lemma DisplayWordsVocabulary(h: nat, m: nat)
    ensures var w := DisplayWords(h, m);
      && ("och" in w <==> h > 0 && m > 0)
      && ("timme" in w <==> h == 1)
      && ("timmar" in w <==> h > 1)
      && ("minut" in w <==> m == 1)
      && ("minuter" in w <==> m > 1)
  {
    DigitsAreNoWord(h, "och");
    DigitsAreNoWord(h, "timme");
    DigitsAreNoWord(h, "timmar");
    DigitsAreNoWord(h, "minut");
    DigitsAreNoWord(h, "minuter");
    DigitsAreNoWord(m, "och");
    DigitsAreNoWord(m, "timme");
    DigitsAreNoWord(m, "timmar");
    DigitsAreNoWord(m, "minut");
    DigitsAreNoWord(m, "minuter");
  }

  lemma SmallNumerals()
    ensures NatToString(1) == "1" && NatToString(30) == "30"
  {
    assert NatToString(30) == NatToString(3) + [DigitChar(0)];
  }

  /** An hour and a half. */
  lemma NinetyMinutes()
    ensures MinutesToHM(90) == "1 timme och 30 minuter"
  {
    SmallNumerals();
    var hDisplay, mDisplay := "1" + " " + "timme", " och " + "30" + " " + "minuter";
    assert MinutesToHM(90) == hDisplay + mDisplay;
  }

  /** The words used: "och" exactly when there are both hours and minutes,
      the singular exactly for 1, the plural otherwise. */
  lemma DisplayVocabulary(d: nat)
    ensures var h, m, w := d / 60, d % 60, Words(MinutesToHM(d));
      && ("och" in w <==> h > 0 && m > 0)
      && ("timme" in w <==> h == 1)
      && ("timmar" in w <==> h > 1)
      && ("minut" in w <==> m == 1)
      && ("minuter" in w <==> m > 1)
  {
    if d == 0 {
      assert MinutesToHM(d) == "";
      assert Words("") == [""];
    } else {
      WordsOfDisplay(d);
      DisplayWordsVocabulary(d / 60, d % 60);
    }
  }
}
