# Stellaris save game info: the extractor, in Dafny

This project models the part of `stellaris_save_game_info.py` that turns the
`gamestate` text of a Stellaris save into the two ordered reports the window
shows. It proves properties of that model.

- **Pattern tables** (`BuildPatternTable`). Every configured game field name
  becomes the pattern `\n{name}.*\n`, a "flat" field on an unindented line.
  Every galaxy field name becomes `\n\t{name}.*\n`, a "nested" field indented
  by exactly one tab. Each table is an ordered dictionary filled in configured
  order.
- **The search loop** (`SearchFields`, the source's `dictionary_searcher_regex`).
  For each table key, in order, it takes the leftmost line that matches the
  key's pattern. It deletes every newline, tab, `=`, the field name and every
  `"` from that line. It stores the result under the key, or stores the
  not-found placeholder when no line matches.
- **The derived entries** (`CalculateGameTimeLeft`, the source's
  `calculate_game_time_left`):
  - end year = starting year + `int(victory_year)`;
  - years left = end year - `int(date[:4])`.

  Both entries are written, or both get the could-not-calculate placeholder.
- **One run** (`ReadGamestate`). It searches the galaxy fields, then the game
  fields, then appends the derived entries to the game report.

The modules follow the program's pieces:

| module | file | what it holds |
|---|---|---|
| `Options` | `options.dfy` | the `Option` datatype |
| `Strings` | `strings.dfy` | substring occurrence and small slicing facts |
| `OrderedDicts` | `ordered_dict.dfy` | Python's `OrderedDict` as a class with a key sequence and a map. `Dedup` gives the key order that a sequence of insertions produces |
| `LineSearch` | `line_search.dfy` | the two pattern shapes and the leftmost `search` |
| `Cleanup` | `cleanup.dfy` | Python's `str.replace(t, "")` and the five-step clean-up chain |
| `IntParse` | `int_parse.dfy` | Python's `int(str)` on ASCII text, and `str(int)` |
| `SaveGameInfo` | `save_game_info.dfy` | the tables, the search loop, the derived values and one run |

A report value is one of four things:

- `Found(text)`: a cleaned line.
- `NotFound`: the not-found placeholder.
- `Number(n)`: a computed year.
- `CalcError`: the could-not-calculate placeholder.

The placeholders are strings in the source. The model keeps them as variants.
`PlaceholdersAreNotYears` proves the reason this is sound: `int` rejects either
placeholder text, and also its first four characters.

## Model

| member | source | states |
|---|---|---|
| `SaveGameInfo.BuildPatternTable` | stellaris_save_game_info.py:128-139 | The table's keys are the configured names, each once, in order of first occurrence. Each key maps to the pattern of its own name, in the table's shape (flat or nested). |
| `OrderedDicts.Dedup` | stellaris_save_game_info.py:130-132 | The keys an ordered fill leaves are exactly the inserted names, with no name twice. There are no more keys than insertions. |
| `OrderedDicts.DedupFirstOccurrenceOrder` | stellaris_save_game_info.py:130-132 | The keys keep the order of each name's first insertion. A repeated name never moves its key. |
| `OrderedDicts.DedupOfDistinct` | stellaris_save_game_info.py:130-132 | Distinct names are kept, all of them, in configured order. |
| `OrderedDicts.OrderedDict.Set` | stellaris_save_game_info.py:149 | `d[k] = v` replaces the value of a present key in place. A new key is appended. The map gets `k := v`. |
| `OrderedDicts.DedupAppend` | stellaris_save_game_info.py:182-188 | Inserting more keys into a filled dictionary gives the same key order as inserting everything into an empty one. |
| `OrderedDicts.DedupAppendTwo` | stellaris_save_game_info.py:160-161 | Two new, different labels written one after the other land last, in write order. |
| `LineSearch.LineEnd` | stellaris_save_game_info.py:128 | `.*\n` stops at the first newline at or after the given index. It is absent exactly when no newline follows. |
| `LineSearch.SearchFrom` | stellaris_save_game_info.py:145 | Defines the search from an index: the first index at or after it where the head occurs with a newline somewhere after it. The match runs to just after that newline. Its ensures place a match at or after the index, past the head, inside the text. |
| `LineSearch.Search` | stellaris_save_game_info.py:145 | Defines `a_pattern.search(text)`: the search from index 0. Its ensures say a match lies inside the text, is longer than the head and ends with a newline. |
| `LineSearch.SearchFromSpec` | stellaris_save_game_info.py:145 | `search` is sound: a result is a match that ends just after its line's newline. It is leftmost: no match starts earlier. No result means no match anywhere. |
| `LineSearch.MatchedTextShape` | stellaris_save_game_info.py:145-147 | The matched text is the pattern head, then a run without newlines, then one newline. |
| `LineSearch.SearchFindsFirstLine` | stellaris_save_game_info.py:145 | It is complete: given a line `head + v + "\n"` with no match before it, the search returns exactly that line. |
| `LineSearch.SearchFromIgnoresSuffix` | stellaris_save_game_info.py:145 | Text after a completed first match, later occurrences of the field included, does not change the result. |
| `LineSearch.UnterminatedLineNeverMatches` | stellaris_save_game_info.py:128 | A field on a last line with no newline after it never matches there. |
| `LineSearch.MatchStartsAtNewline` | stellaris_save_game_info.py:128 | Every match starts at a newline, so a field on the first line of the text is never found there. |
| `LineSearch.NestedNeedsExactlyOneTab` | stellaris_save_game_info.py:134 | A nested pattern does not match a line indented with no tab or with two tabs. |
| `LineSearch.FlatRejectsIndentedLine` | stellaris_save_game_info.py:128 | A flat pattern does not match a tab-indented line. |
| `Cleanup.RemoveAll` | stellaris_save_game_info.py:147-148 | Defines `s.replace(t, "")`: scanning left to right, it deletes every occurrence of `t` that does not overlap an earlier deleted one. Its ensures say the result is never longer than `s`, and an empty `t` leaves `s` unchanged. |
| `Cleanup.Clean` | stellaris_save_game_info.py:147-148 | Defines the chain of five deletions in source order: newline, tab, `=`, the field name, `"`. Its ensures say the cleaned value is never longer than the line. |
| `Cleanup.RemoveCharGone` | stellaris_save_game_info.py:147-148 | `replace(c, "")` leaves no `c`. |
| `Cleanup.RemoveAllKeeps` | stellaris_save_game_info.py:147-148 | `replace(t, "")` only deletes: every character of the result was in the input. |
| `Cleanup.RemoveCharConcat` | stellaris_save_game_info.py:147-148 | Deleting one character distributes over concatenation. |
| `Cleanup.RemoveCharAbsent` | stellaris_save_game_info.py:147-148 | Deleting a character that does not occur changes nothing. |
| `Cleanup.RemoveAbsent` | stellaris_save_game_info.py:147-148 | Deleting a string that does not occur changes nothing. |
| `Cleanup.CleanHasNoSeparators` | stellaris_save_game_info.py:147-148 | A cleaned value holds no newline, tab, `=` or `"`. |
| `Cleanup.CleanKeyValueLine` | stellaris_save_game_info.py:147-148 | The line `name=value` or `name="value"`, with its indentation and newline, cleans to exactly `value`. This holds when neither part holds a separator and the name does not occur inside the value. |
| `IntParse.LeadingSpacesSpec` | stellaris_save_game_info.py:156 | `int` skips exactly the leading run of whitespace. |
| `IntParse.TrailingEndSpec` | stellaris_save_game_info.py:156 | `int` skips exactly the trailing run of whitespace. |
| `IntParse.ShowNat` | stellaris_save_game_info.py:196-202 | `str(n)` is a non-empty run of digits that spells `n`. This is how the report renders a computed year, and it is the inverse against which the parse at line 156 is proved. |
| `IntParse.ParseInt` | stellaris_save_game_info.py:156-157 | Defines `int(s)` on ASCII text: surrounding whitespace is stripped, then an optional sign and digits, with single underscores between digits. Anything else fails. Its ensures say an accepted text holds at least one digit. |
| `IntParse.ParseDigits` | stellaris_save_game_info.py:156 | A non-empty run of digits parses to the number it spells. |
| `IntParse.ParseShowRoundTrip` | stellaris_save_game_info.py:156 | `int(str(n)) == n` for every integer, negative ones included. |
| `IntParse.YearPrefix` | stellaris_save_game_info.py:157 | The first four characters of a date that starts with a four-digit year parse to that year. |
| `IntParse.ParseRejectsForeignChar` | stellaris_save_game_info.py:156-157 | Any character that is not whitespace, a sign, a digit or `_` makes `int` fail. |
| `SaveGameInfo.Lookup` | stellaris_save_game_info.py:144-151 | Defines one iteration of the search loop: search with the key's pattern, then clean the matched line with the key, or give the not-found placeholder. Its ensures say the result is a cleaned value or the placeholder, and a cleaned value is shorter than the text. |
| `SaveGameInfo.LookupOutcome` | stellaris_save_game_info.py:143-151 | A field is reported not found exactly when no line matches its pattern. Otherwise its value is a cleaned line with no separators. |
| `SaveGameInfo.ExtractKeyValueLine` | stellaris_save_game_info.py:145-149 | When the first matching line is `name=value` (flat) or `\tname="value"` (nested), the stored value is exactly `value`. |
| `SaveGameInfo.ExtractIgnoresLaterText` | stellaris_save_game_info.py:145-149 | Text after the first matching line does not change the stored value. |
| `SaveGameInfo.LookupAll` | stellaris_save_game_info.py:143-149 | The search loop stores exactly one entry per table key. |
| `SaveGameInfo.LookupAllValues` | stellaris_save_game_info.py:143-149 | Each key's stored value is the lookup with its own pattern, whatever the order and repetitions of the keys. |
| `SaveGameInfo.SearchFields` | stellaris_save_game_info.py:141-151 | New keys are appended to the report in table order. Each key's value becomes its own extracted value or the not-found placeholder. Earlier entries of other keys are kept. |
| `SaveGameInfo.TableLookupIsExtractAll` | stellaris_save_game_info.py:128-151 | Searching with the table built from the names extracts every name with its own pattern. |
| `SaveGameInfo.VictoryYear` | stellaris_save_game_info.py:156 | Defines `int(found_gal_dict['victory_year'])`. A missing key gives no year, as does a placeholder or text that is not an integer. Its ensures say a year comes only from an extracted value or a number. |
| `SaveGameInfo.CurrentYear` | stellaris_save_game_info.py:157 | Defines `int(found_gm_dict["date"][:4])`. Its ensures say a year comes only from an extracted value, and one of the first four characters of that value is a digit. |
| `SaveGameInfo.TimeLeft` | stellaris_save_game_info.py:155-164 | Defines the try/except: both years or failure. Its ensures say the years are computed exactly when both inputs read as years. Then end year - starting year is the victory year, and years left = end year - current year. |
| `SaveGameInfo.TimeLeftFromSaveText` | stellaris_save_game_info.py:156-161 | From a victory year written as text and a date that starts with a four-digit year: end year = starting year + victory year, and years left = end year - current year. |
| `SaveGameInfo.TimeLeftAllOrNothing` | stellaris_save_game_info.py:155-164 | The calculation fails exactly when either year cannot be read. Both entries then hold the placeholder. |
| `SaveGameInfo.TimeLeftFailsWithoutInputs` | stellaris_save_game_info.py:156-157 | A missing `victory_year` or `date` key, or a not-found placeholder, makes the calculation fail. |
| `SaveGameInfo.PlaceholdersAreNotYears` | stellaris_save_game_info.py:151 | `int` rejects the not-found and could-not-calculate texts, and their first four characters, whatever error detail follows. |
| `SaveGameInfo.CalculateGameTimeLeft` | stellaris_save_game_info.py:153-164 | The game report gets `End Year (Victory)` and then `Years Left`: both numbers, or both placeholders. Nothing else changes. The inputs are read before either write. |
| `SaveGameInfo.ReadGamestate` | stellaris_save_game_info.py:178-188 | The galaxy report is every nested name's extracted value, keyed in order of first occurrence. The game report is every flat name's extracted value, then the two derived entries, which come last unless a configured game name already uses their label. |

## Left out

- The window, its text widget and how the reports are rendered are not modelled. They are presentation only.
- The file dialog, the recorded last-used file and the environment and path handling are not modelled. They are I/O.
- The configuration file is not modelled. The two name lists and the starting year are parameters.
- Opening the zip archive and reading `gamestate` (lines 172-176) is not modelled; that is I/O. A missing archive entry raises before any extraction.
- `SaveGameInfo.Lookup`: the source searches raw bytes and decodes the match as UTF-8. The model searches text, so the not-found value that a decoding fault would produce is not modelled.
- `IntParse.ParseInt`: Python's `int` also accepts Unicode digits and Unicode whitespace. The model accepts only ASCII ones.
- `IntParse.ParseInt`: Python 3.9.14 and later versions refuse by default to convert a decimal text of more than 4300 digits. The model has no such limit. A victory year longer than that reads as a number here, but in the source it gives the could-not-calculate placeholder.
- `IntParse.ParseShowRoundTrip`: under the same limit, `str(n)` raises for numbers of more than 4300 digits. The round trip is therefore promised for every integer in the model, but only up to that size in the source.
- `LineSearch.Search`: the field name is taken literally. A name holding regular-expression metacharacters would change the pattern in the source, and that is not modelled.
- The text of the placeholders is not modelled: the model keeps the kind of failure and drops the exception message appended after the fixed prefix.
- `SaveGameInfo.ExtractKeyValueLine` is stated only for a name that does not occur inside its value. Otherwise `replace(name, "")` also deletes it from the value; `Clean` models that, but no lemma states the result.
