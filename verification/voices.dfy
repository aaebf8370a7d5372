/**
  Voice selection of the free voice generator: every response line is voiced
  by a Microsoft Edge neural voice chosen from the piece role named in the
  response id and from an accent theme inferred from the personality's name
  and theme, through a constant two-level table with a three-step fallback.
 */
module Voices {
  import opened Text

  /** The chess piece a response is spoken by. */
  datatype Role = King | Queen | Rook | Bishop | Knight | Pawn {
    /** The role's name, both as searched for in response ids and as a table key. */
    function Key(): string {
      match this
      case King => "king"
      case Queen => "queen"
      case Rook => "rook"
      case Bishop => "bishop"
      case Knight => "knight"
      case Pawn => "pawn"
    }
  }

  /** The roles looked for in a response id, in the order they are tried; Pawn is what remains. */
  const RolePriority: seq<Role> := [King, Queen, Rook, Bishop, Knight]

  /** The role named by a response id: the first keyword of `RolePriority` it contains, else Pawn. */
  function RoleOf(id: string): (r: Role)
    ensures r != Pawn ==> Contains(id, r.Key())
    ensures Contains(id, "king") ==> r == King
  {
    if Contains(id, King.Key()) then King
    else if Contains(id, Queen.Key()) then Queen
    else if Contains(id, Rook.Key()) then Rook
    else if Contains(id, Bishop.Key()) then Bishop
    else if Contains(id, Knight.Key()) then Knight
    else Pawn
  }

  /** Index `i` of `RolePriority` is the first keyword the id contains. */
  predicate FirstRoleMatch(id: string, i: int) {
    && 0 <= i < |RolePriority|
    && Contains(id, RolePriority[i].Key())
    && forall j :: 0 <= j < i ==> !Contains(id, RolePriority[j].Key())
  }

  /** Role priority: of several keywords in the id, the earliest in `RolePriority` decides. */
  lemma RoleIsFirstMatch(id: string, i: int)
    requires FirstRoleMatch(id, i)
    ensures RoleOf(id) == RolePriority[i]
  {
    assert RolePriority[0] == King && RolePriority[1] == Queen && RolePriority[2] == Rook;
    assert RolePriority[3] == Bishop && RolePriority[4] == Knight;
  }

  /** Pawn is the role exactly when the id contains none of the keywords. */
  lemma PawnIffNoKeyword(id: string)
    ensures RoleOf(id) == Pawn <==> forall i :: 0 <= i < |RolePriority| ==> !Contains(id, RolePriority[i].Key())
  {
    assert RolePriority[0] == King && RolePriority[1] == Queen && RolePriority[2] == Rook;
    assert RolePriority[3] == Bishop && RolePriority[4] == Knight;
  }

  /**
    Roles are found by substring, not by word: an id naming a pawn's attack
    ("pawn_attacking") contains "king" and is voiced as the king.
   */
  lemma KeywordInsideWordSelectsRole()
    ensures RoleOf("pawn_attacking") == King
  {
    var id := "pawn_attacking";
    assert id[10..14] == "king";
    OccurrenceContains(id, "king", 10);
  }

  /** The accent themes a personality can map to; Default is the plain English set. */
  datatype Theme = Default | Italian | French | Sicilian | Royal | Russian {
    /** The theme's key in the voice table. */
    function Key(): string {
      match this
      case Default => "default"
      case Italian => "italian"
      case French => "french"
      case Sicilian => "sicilian"
      case Royal => "royal"
      case Russian => "russian"
    }
  }

  /** A theme is chosen when the lower-cased name contains `nameKeyword` or the lower-cased theme contains `themeKeyword`. */
  datatype ThemeRule = ThemeRule(theme: Theme, nameKeyword: string, themeKeyword: string)

  /**
    The theme rules in the order they are tried. The royal rule is the odd one:
    it looks for "cleric" in the name but "royal" in the theme.
   */
  const ThemeRules: seq<ThemeRule> := [
    ThemeRule(Italian, "italian", "italian"),
    ThemeRule(French, "french", "french"),
    ThemeRule(Sicilian, "sicilian", "sicilian"),
    ThemeRule(Royal, "cleric", "royal"),
    ThemeRule(Russian, "russian", "russian")
  ]

  predicate RuleFires(rule: ThemeRule, name: string, theme: string) {
    Contains(ToLower(name), rule.nameKeyword) || Contains(ToLower(theme), rule.themeKeyword)
  }

  /** The accent theme of a personality, from its name and its declared theme, ignoring case. */
  function ThemeOf(name: string, theme: string): (t: Theme)
    ensures t == Italian <==> Contains(ToLower(name), "italian") || Contains(ToLower(theme), "italian")
    ensures t == Royal ==> Contains(ToLower(name), "cleric") || Contains(ToLower(theme), "royal")
  {
    var n := ToLower(name);
    var th := ToLower(theme);
    if Contains(n, "italian") || Contains(th, "italian") then Italian
    else if Contains(n, "french") || Contains(th, "french") then French
    else if Contains(n, "sicilian") || Contains(th, "sicilian") then Sicilian
    else if Contains(n, "cleric") || Contains(th, "royal") then Royal
    else if Contains(n, "russian") || Contains(th, "russian") then Russian
    else Default
  }

  /** Index `i` of `ThemeRules` is the first rule that fires. */
  predicate FirstThemeMatch(name: string, theme: string, i: int) {
    && 0 <= i < |ThemeRules|
    && RuleFires(ThemeRules[i], name, theme)
    && forall j :: 0 <= j < i ==> !RuleFires(ThemeRules[j], name, theme)
  }

  /** Theme priority: of several rules that fire, the earliest in `ThemeRules` decides. */
  lemma ThemeIsFirstMatch(name: string, theme: string, i: int)
    requires FirstThemeMatch(name, theme, i)
    ensures ThemeOf(name, theme) == ThemeRules[i].theme
  {
    ThemeRulesSpelledOut();
  }

  /** The default theme is chosen exactly when no rule fires. */
  lemma DefaultIffNoRuleFires(name: string, theme: string)
    ensures ThemeOf(name, theme) == Default <==> forall i :: 0 <= i < |ThemeRules| ==> !RuleFires(ThemeRules[i], name, theme)
  {
    ThemeRulesSpelledOut();
  }

  lemma ThemeRulesSpelledOut()
    ensures ThemeRules[0] == ThemeRule(Italian, "italian", "italian")
    ensures ThemeRules[1] == ThemeRule(French, "french", "french")
    ensures ThemeRules[2] == ThemeRule(Sicilian, "sicilian", "sicilian")
    ensures ThemeRules[3] == ThemeRule(Royal, "cleric", "royal")
    ensures ThemeRules[4] == ThemeRule(Russian, "russian", "russian")
  {
  }

  /** Only the lower-cased name and theme matter. */
  lemma ThemeIgnoresCase(name: string, theme: string)
    ensures ThemeOf(ToLower(name), ToLower(theme)) == ThemeOf(name, theme)
  {
    ToLowerIdempotent(name);
    ToLowerIdempotent(theme);
  }

  /** "Italian" written in any capitalisation anywhere in the name wins over every other keyword. */
  lemma ItalianInAnyCaseWins(name: string, theme: string, word: string)
    requires ToLower(word) == "italian"
    requires Contains(name, word)
    ensures ThemeOf(name, theme) == Italian
  {
    ContainsSurvivesLower(name, word);
  }

  /** "Italian" at index 7 of a name gives the Italian theme, whatever precedes it. */
  lemma ItalianAtSeven(name: string, theme: string)
    requires |name| >= 14 && name[7..14] == "Italian"
    ensures ThemeOf(name, theme) == Italian
  {
    var word := "Italian";
    OccurrenceContains(name, word, 7);
    assert ToLower(word) == "italian";
    ItalianInAnyCaseWins(name, theme, word);
  }

  /** A name holding both "Italian" and "French" is given the Italian theme. */
  lemma ItalianBeforeFrench()
    ensures ThemeOf("French Italian Duo", "default") == Italian
  {
    ItalianAtSeven("French Italian Duo", "default");
  }

  /** The royal theme comes from "cleric" in the name ... */
  lemma ClericNameIsRoyal()
    ensures ThemeOf("Cleric", "") == Royal
  {
    var n, th := ToLower("Cleric"), ToLower("");
    assert n == "cleric" && th == "";
    assert !Contains(n, "italian") && !Contains(n, "french") && !Contains(n, "sicilian") by {
      ShortDoesNotContain(n, "italian");
      NoRoomForFirstChar(n, "french");
      ShortDoesNotContain(n, "sicilian");
    }
    assert !Contains(th, "italian") && !Contains(th, "french") && !Contains(th, "sicilian") by {
      ShortDoesNotContain(th, "italian");
      ShortDoesNotContain(th, "french");
      ShortDoesNotContain(th, "sicilian");
    }
    assert Contains(n, "cleric") by {
      OccurrenceContains(n, "cleric", 0);
    }
  }

  /** ... or from "royal" in the theme. */
  lemma RoyalThemeIsRoyal()
    ensures ThemeOf("", "Royal") == Royal
  {
    var n, th := ToLower(""), ToLower("Royal");
    assert n == "" && th == "royal";
    assert !Contains(n, "italian") && !Contains(n, "french") && !Contains(n, "sicilian") by {
      ShortDoesNotContain(n, "italian");
      ShortDoesNotContain(n, "french");
      ShortDoesNotContain(n, "sicilian");
    }
    assert !Contains(th, "italian") && !Contains(th, "french") && !Contains(th, "sicilian") by {
      ShortDoesNotContain(th, "italian");
      ShortDoesNotContain(th, "french");
      ShortDoesNotContain(th, "sicilian");
    }
    assert Contains(th, "royal") by {
      OccurrenceContains(th, "royal", 0);
    }
  }

  /** Royal asymmetry: "royal" in the name selects nothing ... */
  lemma RoyalNameFallsThrough()
    ensures ThemeOf("Royal", "") == Default
  {
    var n, th := ToLower("Royal"), ToLower("");
    assert n == "royal" && th == "";
    assert !Contains(n, "italian") && !Contains(n, "french") && !Contains(n, "sicilian")
        && !Contains(n, "cleric") && !Contains(n, "russian") by {
      ShortDoesNotContain(n, "italian");
      ShortDoesNotContain(n, "french");
      ShortDoesNotContain(n, "sicilian");
      ShortDoesNotContain(n, "cleric");
      ShortDoesNotContain(n, "russian");
    }
    assert !Contains(th, "italian") && !Contains(th, "french") && !Contains(th, "sicilian")
        && !Contains(th, "royal") && !Contains(th, "russian") by {
      ShortDoesNotContain(th, "italian");
      ShortDoesNotContain(th, "french");
      ShortDoesNotContain(th, "sicilian");
      ShortDoesNotContain(th, "royal");
      ShortDoesNotContain(th, "russian");
    }
  }

  /** ... and neither does "cleric" in the theme. */
  lemma ClericThemeFallsThrough()
    ensures ThemeOf("", "Cleric") == Default
  {
    var n, th := ToLower(""), ToLower("Cleric");
    assert n == "" && th == "cleric";
    assert !Contains(n, "italian") && !Contains(n, "french") && !Contains(n, "sicilian")
        && !Contains(n, "cleric") && !Contains(n, "russian") by {
      ShortDoesNotContain(n, "italian");
      ShortDoesNotContain(n, "french");
      ShortDoesNotContain(n, "sicilian");
      ShortDoesNotContain(n, "cleric");
      ShortDoesNotContain(n, "russian");
    }
    assert !Contains(th, "italian") && !Contains(th, "french") && !Contains(th, "sicilian")
        && !Contains(th, "royal") && !Contains(th, "russian") by {
      ShortDoesNotContain(th, "italian");
      NoRoomForFirstChar(th, "french");
      ShortDoesNotContain(th, "sicilian");
      NoRoomForFirstChar(th, "royal");
      ShortDoesNotContain(th, "russian");
    }
  }

  /** Voices by role for the plain English theme; also the last-resort voice per role. */
  const DefaultMapping: map<string, string> := map[
    "king" := "en-GB-RyanNeural",
    "queen" := "en-GB-SoniaNeural",
    "rook" := "en-US-ChristopherNeural",
    "bishop" := "en-GB-ThomasNeural",
    "knight" := "en-US-GuyNeural",
    "pawn" := "en-US-AnaNeural"
  ]

  /** Per theme, voices by role key, with "default" standing for every role not listed. */
  const ThemeMapping: map<string, map<string, string>> := map[
    "default" := DefaultMapping,
    "italian" := map["default" := "it-IT-DiegoNeural", "queen" := "it-IT-ElsaNeural"],
    "french" := map["default" := "fr-FR-HenriNeural", "queen" := "fr-FR-DeniseNeural"],
    "sicilian" := map["default" := "it-IT-IsabellaNeural", "bishop" := "it-IT-DiegoNeural"],
    "royal" := map["default" := "en-GB-RyanNeural", "bishop" := "en-IE-ConnorNeural"],
    "russian" := map["default" := "ru-RU-DmitryNeural", "queen" := "ru-RU-SvetlanaNeural"]
  ]

  /** The key standing for "any other role" inside a theme's entry. */
  const AnyRoleKey := "default"

  /** The voice used when every table lookup misses. */
  const FallbackVoice := "en-US-AriaNeural"

  function GetOr(m: map<string, string>, k: string, d: string): string {
    if k in m then m[k] else d
  }

  /** The table entry for a theme key, or the default voices for an unknown key. */
  function ThemeVoices(key: string): (voices: map<string, string>)
    ensures voices in ThemeMapping.Values
    ensures key !in ThemeMapping ==> voices == ThemeMapping[Default.Key()]
  {
    var d := Default.Key();
    assert d in ThemeMapping && ThemeMapping[d] == DefaultMapping;
    if key in ThemeMapping then ThemeMapping[key] else DefaultMapping
  }

  /** A voice stored somewhere in the table. */
  predicate IsStoredVoice(v: string) {
    exists t, k :: t in ThemeMapping && k in ThemeMapping[t] && ThemeMapping[t][k] == v
  }

  /**
    The three-step fallback: the theme's entry for the role, else the theme's
    "default" entry, else the default theme's entry for the role, else the
    literal fallback voice.
   */
  function Lookup(voices: map<string, string>, role: string): (v: string)
    ensures role in voices ==> v == voices[role]
    ensures role !in voices && AnyRoleKey in voices ==> v == voices[AnyRoleKey]
    ensures role !in voices && AnyRoleKey !in voices && role in DefaultMapping ==> v == DefaultMapping[role]
    ensures role !in voices && AnyRoleKey !in voices && role !in DefaultMapping ==> v == FallbackVoice
  {
    GetOr(voices, role, GetOr(voices, AnyRoleKey, GetOr(DefaultMapping, role, FallbackVoice)))
  }

  /** The voice for one response of a personality. */
  function VoiceFor(name: string, theme: string, id: string): (v: string)
    ensures IsStoredVoice(v)
    ensures v != FallbackVoice
  {
    var t := ThemeOf(name, theme);
    var r := RoleOf(id);
    LookupMatchesTable(t, r);
    ExpectedVoiceIsStored(t, r);
    Lookup(ThemeVoices(t.Key()), r.Key())
  }

  /** The table written out theme by theme: what each (theme, role) pair is voiced by. */
  function ExpectedVoice(t: Theme, r: Role): string {
    match t
    case Default =>
      (match r
       case King => "en-GB-RyanNeural"
       case Queen => "en-GB-SoniaNeural"
       case Rook => "en-US-ChristopherNeural"
       case Bishop => "en-GB-ThomasNeural"
       case Knight => "en-US-GuyNeural"
       case Pawn => "en-US-AnaNeural")
    case Italian => if r == Queen then "it-IT-ElsaNeural" else "it-IT-DiegoNeural"
    case French => if r == Queen then "fr-FR-DeniseNeural" else "fr-FR-HenriNeural"
    case Sicilian => if r == Bishop then "it-IT-DiegoNeural" else "it-IT-IsabellaNeural"
    case Royal => if r == Bishop then "en-IE-ConnorNeural" else "en-GB-RyanNeural"
    case Russian => if r == Queen then "ru-RU-SvetlanaNeural" else "ru-RU-DmitryNeural"
  }

  /** Every inferred theme has a table entry, so the unknown-key fallback is never taken. */
  lemma ThemeKeysInTable(t: Theme)
    ensures t.Key() in ThemeMapping
    ensures ThemeVoices(t.Key()) == ThemeMapping[t.Key()]
  {
  }

  /** Every non-default theme names an "any role" voice, and the default theme names every role. */
  lemma TableIsComplete(t: Theme, r: Role)
    ensures t != Default ==> AnyRoleKey in ThemeMapping[t.Key()]
    ensures r.Key() in ThemeMapping[Default.Key()]
    ensures ThemeMapping[Default.Key()] == DefaultMapping
  {
  }

  /** The lookup on the table gives exactly the voice written out for each theme and role. */
  lemma LookupMatchesTable(t: Theme, r: Role)
    ensures Lookup(ThemeVoices(t.Key()), r.Key()) == ExpectedVoice(t, r)
  {
    var voices := ThemeMapping[t.Key()];
    assert ThemeVoices(t.Key()) == voices;
    match t
    case Default =>
      assert voices == DefaultMapping;
    case Italian =>
      assert voices == map["default" := "it-IT-DiegoNeural", "queen" := "it-IT-ElsaNeural"];
    case French =>
      assert voices == map["default" := "fr-FR-HenriNeural", "queen" := "fr-FR-DeniseNeural"];
    case Sicilian =>
      assert voices == map["default" := "it-IT-IsabellaNeural", "bishop" := "it-IT-DiegoNeural"];
    case Royal =>
      assert voices == map["default" := "en-GB-RyanNeural", "bishop" := "en-IE-ConnorNeural"];
    case Russian =>
      assert voices == map["default" := "ru-RU-DmitryNeural", "queen" := "ru-RU-SvetlanaNeural"];
  }

  /** Every voice of the decision table is a voice stored in the table, never the literal fallback. */
  lemma ExpectedVoiceIsStored(t: Theme, r: Role)
    ensures IsStoredVoice(ExpectedVoice(t, r))
    ensures ExpectedVoice(t, r) != FallbackVoice
  {
    var v := ExpectedVoice(t, r);
    var key := if t == Default then r.Key() else if v == ThemeMapping[t.Key()][AnyRoleKey] then AnyRoleKey else r.Key();
    assert t.Key() in ThemeMapping && key in ThemeMapping[t.Key()] && ThemeMapping[t.Key()][key] == v;
  }

  /** The voice of a response is the written-out entry for its inferred theme and role. */
  lemma VoiceForMatchesTable(name: string, theme: string, id: string)
    ensures VoiceFor(name, theme, id) == ExpectedVoice(ThemeOf(name, theme), RoleOf(id))
  {
    LookupMatchesTable(ThemeOf(name, theme), RoleOf(id));
  }

  /** Under the default theme every role gets its own default voice. */
  lemma DefaultThemeUsesDefaultMapping(name: string, theme: string, id: string)
    requires ThemeOf(name, theme) == Default
    ensures RoleOf(id).Key() in DefaultMapping
    ensures VoiceFor(name, theme, id) == DefaultMapping[RoleOf(id).Key()]
  {
  }
}
