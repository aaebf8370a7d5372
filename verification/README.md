# Voice selection for pre-recorded personality lines

This project models, in Dafny, the pure logic of the free voice generator
`scripts/generate_voices_free.py` of en-croissant's chess personalities. The
generator records every response line of every personality with a Microsoft
Edge neural voice. The model covers how that voice is chosen and which lines
are recorded with which words:

- **Role** (`Voices.RoleOf`): the piece role is read off the response id by
  substring tests in the order king, queen, rook, bishop, knight. An id that
  contains none of these is a pawn line.
- **Theme** (`Voices.ThemeOf`): the accent theme is read off the lower-cased
  personality name and theme in the order italian, french, sicilian, royal,
  russian. Anything else gets the default theme. The royal rule is asymmetric:
  it fires on "cleric" in the name or on "royal" in the theme.
- **Voice** (`Voices.VoiceFor`): the constant table `THEME_MAPPING` is the
  Dafny constant `Voices.ThemeMapping`, and `DEFAULT_MAPPING` is
  `Voices.DefaultMapping`. The lookup falls back in three steps: the theme's
  entry for the role, then the theme's `default` entry, then the default
  theme's entry for the role, then the literal `en-US-AriaNeural`.
- **Jobs** (`Jobs.CollectJobs`): a response record becomes a recording job only
  if it has both an `id` and a `text`. Every `{capturedPiece}` in the text is
  spoken as `piece`.

Module `Text` holds the string primitives over `seq<char>`:

- Python's `sub in s` (`Contains`).
- ASCII `str.lower()` (`ToLower`).
- `str.replace` (`ReplaceAll`).

Each operation has a partner it is proved against:

- The if-chains of `RoleOf` and `ThemeOf` are checked against declarative
  "first matching rule" definitions (`RolePriority`, `ThemeRules`).
- The table lookup is checked against a theme-by-theme decision table
  (`ExpectedVoice`).
- The replacement is proved to leave no placeholder, to leave
  placeholder-free text unchanged, and to follow Python's left-to-right
  rewriting step by step (plain text copied, a placeholder spoken as "piece").
- The collection loops are proved equal to recursive definitions of the job
  list, and those are proved to hold one job per complete record, in record
  order.

The model proves one observation about the code as written. Roles are found by
substring, not by word. So an id such as `pawn_attacking` contains `king` and is
voiced as the king (`Voices.KeywordInsideWordSelectsRole`). Nothing in the
script says whether this is intended, so the model keeps it.

Only the generator script is modelled. The TypeScript engine that picks which
response to say during a game is not part of this model.

## Model

| member | source | states |
|---|---|---|
| Text.Contains | scripts/generate_voices_free.py:48-52 | a keyword can only be found in a string at least as long as it, and the empty keyword is found in every string |
| Text.ContainsIffOccurs | scripts/generate_voices_free.py:48-52 | the left-to-right scan used for `in` holds exactly when the keyword occurs at some index of the string |
| Text.ToLower | scripts/generate_voices_free.py:56-57 | lower-casing keeps the length, maps each ASCII capital to its lower-case letter, keeps every other character, and leaves no ASCII capital |
| Text.ToLowerIdempotent | scripts/generate_voices_free.py:56-57 | lower-casing an already lower-cased string changes nothing |
| Text.ContainsSurvivesLower | scripts/generate_voices_free.py:56-68 | if a name contains a word, its lower-cased form contains the lower-cased word, so keyword tests ignore case |
| Text.ReplaceAll | scripts/generate_voices_free.py:104 | replacing in text that does not contain the pattern returns the text unchanged |
| Text.ReplaceCopiesPlainPrefix | scripts/generate_voices_free.py:104 | text before the first possible start of the pattern is copied through, and replacement continues on the rest |
| Text.ReplaceLeadingPattern | scripts/generate_voices_free.py:104 | a pattern at the front becomes the replacement, and scanning resumes right after the pattern, so occurrences do not overlap |
| Text.ReplaceRemovesPattern | scripts/generate_voices_free.py:104 | if the pattern's first character is absent from the replacement and no proper suffix of the pattern lines up with the replacement, then no occurrence of the pattern survives the replacement |
| Voices.RoleOf | scripts/generate_voices_free.py:46-52 | a non-pawn role's keyword occurs in the id, and an id containing "king" is always a king line, whatever else it contains |
| Voices.RoleIsFirstMatch | scripts/generate_voices_free.py:47-52 | when keyword i is the first of king, queen, rook, bishop, knight that the id contains, the role is role i |
| Voices.PawnIffNoKeyword | scripts/generate_voices_free.py:47-52 | the role is pawn exactly when the id contains none of the five keywords |
| Voices.KeywordInsideWordSelectsRole | scripts/generate_voices_free.py:48 | "pawn_attacking" is voiced as the king, because matching is by substring |
| Voices.ThemeOf | scripts/generate_voices_free.py:54-68 | the theme is italian exactly when the lower-cased name or theme contains "italian"; a royal theme implies "cleric" in the lower-cased name or "royal" in the lower-cased theme |
| Voices.ThemeIsFirstMatch | scripts/generate_voices_free.py:59-68 | when rule i is the first of the italian, french, sicilian, royal, russian rules that fires, the theme is rule i's theme |
| Voices.DefaultIffNoRuleFires | scripts/generate_voices_free.py:55-68 | the theme is default exactly when none of the five rules fires |
| Voices.ThemeIgnoresCase | scripts/generate_voices_free.py:56-57 | the theme of a name and theme equals the theme of their lower-cased forms |
| Voices.ItalianInAnyCaseWins | scripts/generate_voices_free.py:56-60 | a name containing "italian" in any capitalisation gets the italian theme, whatever else name and theme contain |
| Voices.ItalianAtSeven | scripts/generate_voices_free.py:56-60 | a name with "Italian" at index 7 gets the italian theme, whatever the theme and the earlier characters say |
| Voices.ItalianBeforeFrench | scripts/generate_voices_free.py:59-62 | the name "French Italian Duo" gets the italian theme |
| Voices.ClericNameIsRoyal | scripts/generate_voices_free.py:65-66 | the name "Cleric" with an empty theme selects the royal theme |
| Voices.RoyalThemeIsRoyal | scripts/generate_voices_free.py:65-66 | the theme "Royal" with an empty name selects the royal theme |
| Voices.RoyalNameFallsThrough | scripts/generate_voices_free.py:65-66 | the name "Royal" with an empty theme falls through to the default theme |
| Voices.ClericThemeFallsThrough | scripts/generate_voices_free.py:65-66 | the theme "Cleric" with an empty name falls through to the default theme |
| Voices.ThemeVoices | scripts/generate_voices_free.py:71 | the voices for a theme key are one of the table's entries, and an unknown key gets the default theme's entry |
| Voices.Lookup | scripts/generate_voices_free.py:73-74 | the theme's voice for the role wins; else the theme's "default" voice; else the default theme's voice for the role; else the literal `en-US-AriaNeural` |
| Voices.VoiceFor | scripts/generate_voices_free.py:45-74 | the chosen voice is stored somewhere in the table and is never the literal `en-US-AriaNeural` fallback |
| Voices.ThemeKeysInTable | scripts/generate_voices_free.py:71 | every theme key the generator can infer is a key of the table, so the unknown-theme fallback is never taken |
| Voices.TableIsComplete | scripts/generate_voices_free.py:12-43 | every non-default theme has a "default" voice, the default theme names all six roles, and `DEFAULT_MAPPING` is the default theme's entry |
| Voices.LookupMatchesTable | scripts/generate_voices_free.py:12-41 | for every theme and role, the fallback lookup gives the voice of the written-out decision table |
| Voices.ExpectedVoiceIsStored | scripts/generate_voices_free.py:12-41 | every voice of the decision table is stored under some theme and key of the table and differs from `en-US-AriaNeural` |
| Voices.VoiceForMatchesTable | scripts/generate_voices_free.py:45-74 | a response's voice is the decision-table voice for the theme and role inferred from its personality and id |
| Voices.DefaultThemeUsesDefaultMapping | scripts/generate_voices_free.py:43-74 | under the default theme every role is in `DEFAULT_MAPPING` and gets exactly that voice |
| Jobs.PlaceholderSeparated | scripts/generate_voices_free.py:104 | replacing `{capturedPiece}` by "piece" meets the conditions under which no placeholder can be rebuilt |
| Jobs.Speakable | scripts/generate_voices_free.py:104 | the recorded words contain no `{capturedPiece}`, and a text without it is recorded unchanged |
| Jobs.SpeakableKeepsPlainText | scripts/generate_voices_free.py:104 | text free of `{` at the front of a line is recorded as written, followed by the rest processed in turn |
| Jobs.SpeakableReplacesPlaceholder | scripts/generate_voices_free.py:104 | a `{capturedPiece}` at the front of a line is recorded as "piece", followed by the rest processed in turn |
| Jobs.SpeakableKeepsOtherChar | scripts/generate_voices_free.py:104 | a character that does not start a placeholder, including a lone `{`, is recorded as written |
| Jobs.SpeakableExample | scripts/generate_voices_free.py:104 | "I took your {capturedPiece}!" is recorded as "I took your piece!" |
| Jobs.JobFor | scripts/generate_voices_free.py:102-107 | a complete record's job keeps its id, speaks its text with no placeholder, unchanged when it had none, in a voice stored in the table |
| Jobs.CountComplete | scripts/generate_voices_free.py:101-102 | the number of records with both an id and a text is at most the number of records, and equals it exactly when every record is complete |
| Jobs.ResponseJobs | scripts/generate_voices_free.py:101-107 | there are as many jobs as complete records; each complete record has a job and each job comes from a complete record; every job has no placeholder and uses the personality's voice for its id |
| Jobs.InRecordOrderStep | scripts/generate_voices_free.py:101-107 | appending one record keeps the job list in record order: a complete record appends its job, any other record appends nothing |
| Jobs.ResponseJobsInRecordOrder | scripts/generate_voices_free.py:101-107 | the complete record at index k yields the job at the position counting the complete records before k, so no job is repeated, dropped or moved |
| Jobs.PersonalityJobs | scripts/generate_voices_free.py:97-107 | a personality has one job per complete response, none when it has no response list, each voiced for its name and theme, read as "default" when missing |
| Jobs.IncompleteRecordsAddNothing | scripts/generate_voices_free.py:102 | a record lacking an id or a text adds no job |
| Jobs.FileJobs | scripts/generate_voices_free.py:96-107 | no job of a personality file speaks the placeholder; every job is the job of a complete response of some personality of the file, and every complete response of every personality has its job in the list |
| Jobs.FileJobsAppend | scripts/generate_voices_free.py:96-107 | the jobs of one more personality are appended after those of the personalities before it |
| Jobs.CollectResponseJobs | scripts/generate_voices_free.py:101-107 | the loop over one personality's responses builds exactly the recursive job list for that personality |
| Jobs.CollectJobs | scripts/generate_voices_free.py:96-107 | the loop over the personalities builds exactly the job list of the file in order, with missing name or theme read as "default"; a file with no personality list yields no jobs |

## Left out

- `generate_audio` (lines 76-89) is left out. It checks whether a file exists, calls the `edge_tts` speech service and writes the file. These are I/O and a foreign library.
- The batched `asyncio.gather` loop (lines 109-113) and `main` (lines 115-129) are left out. They are asynchronous scheduling, directory listing and directory creation. The model stops at the job list that would be handed to them.
- JSON loading (lines 92-93) is left out. Its input is taken as already-parsed records, where any field may be missing (`Option`).
- A JSON field present with a non-string value is left out, because fields are modelled as strings or absent. What Python does then depends on the value. A null or numeric name or theme raises at `.lower()` (line 56), and a numeric id raises at `'king' in response_id` (line 48). A list or object id does not raise there: `in` becomes a membership test on it. A non-string text raises at `.replace` (line 104).
- A `personalities` or `responses` field that is present but null or not a list raises a TypeError when iterated (lines 96 and 101). `Option<seq<…>>` cannot represent such values, so these errors are not modelled.
- A response record that is not an object is left out. A number or null raises at the `in` tests of line 102. A string or list is searched by those tests: it is skipped unless it holds both `text` and `id`, and otherwise it raises when indexed at line 104.
- Path construction from `os.getcwd()` (lines 7-8, 77) is left out because it depends on the environment. The `print` logging is left out too.
- Text.ToLower: models ASCII lower-casing only. Python's `str.lower()` also maps non-ASCII capitals. For example, the Kelvin sign lower-cases to an ASCII `k`, and the capital dotted I (U+0130) lower-cases to `i` followed by a combining dot (U+0307). None of the theme keywords contains `k`, and in every keyword an `i` is followed by a letter, never by U+0307, so no theme decision changes, but the model does not claim equality with Python on non-ASCII text.
- Text.ReplaceAll: requires a non-empty pattern. Python's `replace` with an empty pattern inserts the replacement between characters. The generator only ever replaces the fixed non-empty placeholder.
- Voices.Lookup: Python evaluates the nested `.get` defaults eagerly. They are pure, so the model writes them as one fallback chain with the same result.
- The generator script is the only source file modelled. The TypeScript response-selection engine (condition evaluation, weighted choice, identity tracking, variant assignment, emission gating) is not part of this model.
