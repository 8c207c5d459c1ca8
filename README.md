# Creature Type Generator — verified model

This project models the core of a Magic: The Gathering creature-type picker.
The program has three front ends, and each one draws a random entry from a
catalog of creature types read from `creature_types.txt`:

- **Flask back end** (`app.py`). It loads the catalog once, keeping only the
  stripped non-blank lines. `GET /api/generate` puts the chosen type at the
  front of a per-session history and cuts the history to 50 entries.
  `POST /api/reset` clears the history.
- **Kivy desktop app** (`kivy-creature-types.py`). If the catalog is empty or
  missing, it falls back to `"Default Creature"`. Its history is kept oldest
  first with no cap. Every change is saved to `generated_creatures.txt`, and
  the history is read back from that file at start-up.
- **Console script** (`creature_types_generator_basic.py`). It strips every
  catalog line but keeps blank lines as empty entries. It then loops on
  "yes"/"no" answers: "yes" prints a type and appends it to
  `generated_creatures.txt`, "no" deletes that file and stops, and anything
  else prints a complaint.

The differences between the front ends are kept as written: the history
order, the 50-entry cap, and whether blank lines are filtered.

Modules:

- `Text` (text.dfy) models Python's `str.strip()` over the full
  `str.isspace` set and `str.lower()`.
- `LineFile` (line_file.dfy) covers files. It models iterating over a text
  file (each line keeps its `'\n'`), the two loading comprehensions, the
  one-entry-per-line save format, and the save/load round trip.
- `FlaskApp` (flask_app.dfy) models the catalog, the bounded
  most-recent-first history and the session class with its two endpoints.
- `KivyApp` (kivy_app.dfy) models the application object as a class whose
  fields are the catalog, the history, the result text, the history file,
  the list-panel labels and the panel height. Its methods are the callbacks.
- `BasicCli` (basic_cli.dfy) models the catalog loop. It also models one loop
  step over an answer, the whole prompt loop as a `while` method proved equal
  to a fold over the answers, and lemmas about when the loop stops, crashes
  and logs.

Randomness is a parameter: each draw of `random.choice` is the index it
returns. A file on disk is a `File` value, either `Missing` or
`Present(text)`. The console's answers are a finite sequence of strings.
The console script draws from a possibly empty catalog, where
`random.choice` raises `IndexError` and ends the program. The model records
this case as a `crashed` outcome rather than excluding it.

## Model

| member | source | states |
|---|---|---|
| Text.Strip | app.py:41 | the stripped string is no longer than the input and has no whitespace at either end |
| Text.StripSpec | kivy-creature-types.py:133 | `strip()` returns the infix after the leading whitespace, with only whitespace after it and none at its edges; the result is empty exactly when the line is all whitespace |
| Text.StripFixed | kivy-creature-types.py:102 | a string with no whitespace at either end is left unchanged by `strip()` |
| Text.StripPadded | creature_types_generator_basic.py:17 | `strip()` removes exactly the whitespace padding around a string that has no whitespace at its ends |
| Text.Lower | creature_types_generator_basic.py:17 | `lower()` keeps the length and maps each character to its lower-case form, ASCII letters only |
| LineFile.LinesSpec | kivy-creature-types.py:132-133 | iterating over a file yields non-empty lines, each holding `'\n'` only at its end, every line but the last ending in `'\n'`, and together they spell the text |
| LineFile.LinesAppend | creature_types_generator_basic.py:22-23 | appending to a file made of whole lines adds the appended text's lines after the existing ones |
| LineFile.SerializedSnoc | kivy-creature-types.py:170-171 | writing one more entry appends the entry and a `'\n'` to the saved text |
| LineFile.StrippedNonBlankIsFiltered | app.py:41 | the filtering comprehension equals the plain stripping comprehension with the empty results dropped |
| LineFile.StrippedNonBlankMembers | kivy-creature-types.py:133 | the filtering loader keeps exactly the stripped forms of the lines that are not all whitespace; each is non-empty with no edge whitespace, and each comes from some line |
| LineFile.ParsedEntriesStorable | kivy-creature-types.py:142 | every entry read by the filtering loader is non-empty, has no edge whitespace and holds no `'\n'` |
| LineFile.LinesOfSerialized | kivy-creature-types.py:169-171 | reading back saved text yields one line per entry, each the entry followed by `'\n'` |
| LineFile.SaveLoadRoundTrip | kivy-creature-types.py:167-171 | saving storable entries and reading them back with the loader at lines 138-144 gives exactly the same entries in the same order |
| FlaskApp.LoadCatalog | app.py:40-41 | the catalog holds storable entries; every non-blank line's stripped form is in it and every entry comes from a line; it is the stripped lines with the empty ones dropped |
| FlaskApp.Take | app.py:61 | the slice `s[:n]` is the prefix of length `min(len(s), n)` |
| FlaskApp.Prepend | app.py:59-61 | the new history starts with the chosen type, holds 1 to 50 entries (old length + 1, capped), and its tail is the old history's first 49 entries |
| FlaskApp.GenerateAfterReset | tests/tests_app.py:22-33 | the first generation after a reset leaves a history of exactly the new type |
| FlaskApp.HistoryIsMostRecentFirst | app.py:58-61 | after any run of generations, the history is the drawn types newest first followed by the old history, cut to 50 entries |
| FlaskApp.Session.constructor | app.py:59 | a new session has no history key and reads as the empty history |
| FlaskApp.Session.GenerateCreature | app.py:55-62 | empty catalog: error body "No creature types available." with status 500 and the session unchanged; otherwise the history key becomes the prepended and capped history (a missing key reads as empty), and the response carries a catalog member that heads the returned history |
| FlaskApp.Session.ResetHistory | app.py:66-68 | the history becomes empty, every other session key is untouched, and success is reported |
| KivyApp.DefaultCreatureStorable | kivy-creature-types.py:55 | the fallback entry survives a save and reload |
| KivyApp.LoadCreatureTypes | kivy-creature-types.py:129-135 | a missing file gives no entries; a present file gives its stripped lines with the blank ones dropped, all storable |
| KivyApp.WriteEntries | kivy-creature-types.py:169-171 | the loop writes each entry followed by `'\n'`, and the text reads back as the entries when they are storable |
| KivyApp.CreatureGeneratorApp.Build | kivy-creature-types.py:52-59 | the catalog is the loaded one, or `["Default Creature"]` when that is empty, so it is never empty; the history is what the history file holds (empty when missing); the list panel shows it |
| KivyApp.CreatureGeneratorApp.LoadGeneratedCreatures | kivy-creature-types.py:138-144 | the history becomes the history file's stripped non-blank lines, or stays as it was when the file is missing |
| KivyApp.CreatureGeneratorApp.GenerateCreature | kivy-creature-types.py:147-156 | empty catalog: result text "No creature types loaded!" and nothing else changes; otherwise the chosen type is shown and appended at the end of the history, the file holds the new history and reads back as it, and the panel is redrawn |
| KivyApp.CreatureGeneratorApp.UpdateGeneratedList | kivy-creature-types.py:159-164 | one label per history entry in order, and a panel height of 70 per entry |
| KivyApp.CreatureGeneratorApp.SaveGeneratedCreatures | kivy-creature-types.py:167-171 | the history file is overwritten with one line per entry and reads back as the history |
| KivyApp.CreatureGeneratorApp.NewGame | kivy-creature-types.py:174-178 | empty history, empty result text, empty panel of height 0 and an empty (present) history file, with the catalog kept; every field is fixed, so a second call changes nothing |
| BasicCli.LoadCatalog | creature_types_generator_basic.py:9-12 | the catalog is every line stripped, in order, blank lines included |
| BasicCli.CatalogKeepsBlankLines | creature_types_generator_basic.py:11-12 | there is one entry per line, and an entry is empty exactly when its line is all whitespace |
| BasicCli.CatalogEntriesNewlineFree | creature_types_generator_basic.py:12 | no catalog entry holds a `'\n'` |
| BasicCli.ClassifyNormalised | creature_types_generator_basic.py:17 | an answer is read by its stripped, lowered form alone: normalising again changes nothing |
| BasicCli.ClassifyPadded | creature_types_generator_basic.py:17 | whitespace around an answer does not change how it is read |
| BasicCli.PaddedAnswers | creature_types_generator_basic.py:17-25 | "YES" and "No" with any whitespace padding read as "yes" and "no" |
| BasicCli.Step | creature_types_generator_basic.py:17-30 | the step crashes iff it reads "yes" with an empty catalog; "no" deletes the log, prints nothing and clears the flag; any other answer prints the complaint and changes nothing; "yes" prints the drawn type and appends it plus `'\n'` to the log |
| BasicCli.ReplayHalts | creature_types_generator_basic.py:16 | once the loop has stopped or crashed, later answers change nothing |
| BasicCli.ReplayNext | creature_types_generator_basic.py:16-30 | while the loop runs, reading one more answer is one more step |
| BasicCli.Run | creature_types_generator_basic.py:14-30 | the loop's outcome is the fold of the steps over the answers; it reads all answers unless it stopped or crashed first |
| BasicCli.StopsOnlyOnNo | creature_types_generator_basic.py:25-28 | with a non-empty catalog the loop never crashes, it has stopped iff some answer read as "no", and a stopped loop has deleted the log |
| BasicCli.CrashesOnYesWithEmptyCatalog | creature_types_generator_basic.py:18-19 | with an empty catalog and no "no", the loop keeps running and crashes iff some answer reads as "yes" |
| BasicCli.LogAppendsChosen | creature_types_generator_basic.py:18-23 | without a "no", the log ends as its old text followed by one line per "yes", holding the drawn types in draw order |
| BasicCli.LogGainsOneLine | creature_types_generator_basic.py:22-23 | each "yes" adds exactly one line, the drawn type and its `'\n'`, after the lines already in the log |

## Left out

- Widgets, layout, colours, fonts, window size, button touch effects and the
  Flask template page: presentation only.
- `update_text_alignment` (kivy-creature-types.py:101-103) strips the result
  text and moves the cursor. It is not modelled because every text it could
  strip (catalog entries, the fixed message, "") already has no edge
  whitespace (`Text.StripFixed`).
- Flask routing, CORS, the secret key, request logging to app.log and the
  JSON encoding: outside the logic. A response is the `Response` datatype.
- Randomness: each `random.choice` draw is an index parameter.
- File-system I/O: files are `File` values. Errors other than a missing file
  are not modelled, and neither is the directory the Kivy app resolves paths
  against.
- Universal-newline translation (`'\r\n'` and `'\r'` read as `'\n'`) and
  UTF-8 decoding: the text is taken as already decoded with `'\n'` line ends.
- Text.Lower: maps only ASCII letters, not Python's full Unicode case
  mapping.
- app.py and the console script raise when `creature_types.txt` is missing
  at start-up. The model starts from the file's text, so this crash is not
  represented.
- The console prompt text, and end of input raising `EOFError`: Run consumes
  a finite sequence of answers.
- The Kivy start-up warning print.
- Concurrency between Flask requests sharing a session cookie.
