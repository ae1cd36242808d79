# tempify: filename metadata parser and clipboard filter

tempify is a desktop tool. It reads temperature-sensor CSV exports and shows the
average temperature of each day in removable result boxes. Almost all of it is
tkinter and pandas. Two pieces of it are pure string logic, and this project
models and proves those two:

- **The filename metadata parser** (`extract_sensor_name_and_dates`). It searches
  a file's base name for
  `MOCREO_ST4_(\w+)_\((\d{2}_\d{2}_\d{4}), (\d{2}_\d{2}_\d{4})\)_record`.
  The match may start anywhere in the name. On a match it returns the sensor
  token and both dates, with `_` rewritten to `/`. Otherwise it returns three
  `None`s. The model has three layers:
  - `SensorFilename.MatchesAt` says declaratively what an occurrence is.
  - `MatchAt` is a hand-written matcher for one start position. It mirrors
    greedy `\w+` with backtracking. `(` is not a word character, so the token
    always ends one character before the end of the run of word characters.
  - `Search` tries the start positions from left to right, as `re.search` does.
- **The result box text and the "Copy Data" filter.** A box shows the header
  `Sensor = <name>    Dates = <from> to <to>`, then the table of averages.
  `copy_results` turns the box text into clipboard text. It strips the text and
  splits it on `\n`. It keeps the lines that `str.split()` cuts into exactly two
  fields, writes each as `field1 + "\t" + field2`, and joins them with `\n`.
  The model covers `str.strip()`, `split('\n')`, `'\n'.join` and `str.split()`
  (module `TextLines`), the filter itself (`ClipboardCopy`), and the header
  together with the box text (`ResultText`).

Files: `chars.dfy` holds the character classes and `Option`.
`sensor_filename.dfy` holds the parser. `text_lines.dfy` holds the string
primitives. `clipboard_copy.dfy` holds the copy filter. `result_text.dfy` holds
the header and how it interacts with the filter.

## Model

| member | source | states |
|---|---|---|
| SensorFilename.MatchAtIsPattern | main.py:25 | Tried at one start position, the matcher returns groups exactly when the pattern occurs there with those groups. This holds in both directions. |
| SensorFilename.OccurrenceUnique | main.py:25 | Greedy `\w+` followed by `_(`: two occurrences at the same start have the same token and the same dates. The token is the whole text between `MOCREO_ST4_` and the `_(` before the dates, underscores included. |
| SensorFilename.Search | main.py:26 | The search returns the first start position, at or after `i`, where the pattern matches. No position before the one it returns matches. When it returns `None`, no position from `i` on matches. |
| SensorFilename.Extract | main.py:24-31 | A result's sensor token is non-empty and made of word characters. Each date has length 10, with digits everywhere except `/` at indices 2 and 5, and contains no `_`. |
| SensorFilename.ExtractFields | main.py:27-31 | The three values are all present or all `None`; never a partial extraction. When present they are the parser's result. |
| SensorFilename.MatchAt | main.py:25-26 | The matcher tried at one start position reports a hit at that position. Its partner is `MatchAtIsPattern`: the matcher agrees exactly with the declarative pattern. |
| SensorFilename.Slashed | main.py:28 | `replace('_', '/')`: the length is kept, every `_` becomes `/`, no `_` remains, and every other character is unchanged. |
| SensorFilename.SlashedDate | main.py:28 | A raw date becomes a `DD/DD/DDDD` date. Turning its slashes back into underscores gives the raw date. |
| SensorFilename.ExtractSound | main.py:26-29 | A result comes from an occurrence of the pattern: same token, dates equal to its date groups with `_` replaced by `/`, and no occurrence starts earlier. |
| SensorFilename.ExtractFindsLeftmost | main.py:26-29 | When an occurrence has no occurrence before it, the result is that occurrence's token and its two dates rewritten with `/`. |
| SensorFilename.ExtractNoneIff | main.py:26-31 | The result is `None` exactly when the pattern occurs nowhere in the name. |
| SensorFilenameFacts.ExtractInContext | main.py:26 | The search is unanchored: if a name yields a result, then so does the name with any prefix and any suffix added. |
| SensorFilenameFacts.OccurrenceGivesResult | main.py:26-27 | Any occurrence of the pattern, at any position, makes the search succeed. |
| SensorFilenameFacts.NoPrefixNoMatch | main.py:25-31 | A name that does not contain `MOCREO_ST4_` gives `None`. |
| SensorFilenameFacts.ExtractOfPatternText | main.py:26-29 | A name that starts with the pattern text for a token and two dates gives that token and those dates with `/`, whatever follows. |
| SensorFilenameFacts.ExampleRecordName | main.py:24-29 | `MOCREO_ST4_A1_(01_02_2023, 03_04_2023)_record_extra` gives `A1`, `01/02/2023`, `03/04/2023`. |
| SensorFilenameFacts.ExampleUnderscoreToken | main.py:25-28 | `MOCREO_ST4_A_B_(01_02_2023, 03_04_2023)_record` gives the token `A_B`: `\w` includes `_`. |
| SensorFilenameFacts.ExampleNoMatch | main.py:30-31 | `random_file_name` gives `None`. |
| TextLines.Strip | main.py:65 | `strip()` returns text no longer than its input that neither starts nor ends with whitespace. |
| TextLines.StripCutsOnlySpace | main.py:65 | The stripped text is a slice of the input with only whitespace on either side of it: nothing but leading and trailing whitespace is cut. |
| TextLines.SplitLines | main.py:65 | `split('\n')` always gives at least one piece, and no piece holds a newline. Its partners are `JoinSplitLines` and `SplitJoinLines`. |
| TextLines.JoinLines | main.py:67 | `'\n'.join` is empty for no lines. Otherwise it starts with the first line's first character and ends with the last line's last character. Its partner is `SplitJoinLines`. |
| TextLines.JoinSplitLines | main.py:65 | Joining the pieces of `split('\n')` with newlines gives back the text. |
| TextLines.SplitJoinLines | main.py:67 | Splitting on `\n` the join of a non-empty list of newline-free lines gives back the lines. |
| TextLines.Fields | main.py:66 | Every piece `str.split()` returns is non-empty and free of whitespace. `FieldsOfSpaced` and `SpacedFields` pin it down completely. |
| TextLines.FieldsOfSpaced | main.py:66 | Fields laid out between whitespace gaps split back into exactly those fields. The gaps may be any whitespace, empty at the two ends, and may differ from one another. |
| TextLines.SpacedFields | main.py:66 | Every text is its own `split()` fields laid out between such gaps. With `FieldsOfSpaced`, the fields are therefore the maximal runs of non-whitespace, in order. |
| TextLines.FieldsKeepAllText | main.py:66 | `str.split()` loses nothing but whitespace: the fields, concatenated, are the line with every whitespace character deleted. |
| TextLines.FieldsOfJoin | main.py:66 | Fields joined by any non-empty run of whitespace split back into the same fields. |
| TextLines.FieldsOfPair | main.py:66 | Two fields joined by any non-empty run of whitespace split back into exactly those two fields. |
| ClipboardCopy.CopyText | main.py:64-67 | The clipboard text is empty or begins and ends with a non-space character. In particular it has no trailing newline. |
| ClipboardCopy.TwoFieldLines | main.py:66 | The kept pairs are no more than the lines, and each is two fields. `TwoFieldLinesSelect` states exactly which lines are kept. |
| ClipboardCopy.TwoFieldLinesOfRows | main.py:66 | Rows of two fields, each row with its own non-empty whitespace separator, are all kept, with their fields. |
| ClipboardCopy.TwoFieldLinesSelect | main.py:66 | The kept pairs come, in increasing line order, from lines whose `split()` gives exactly those two fields. Every line with exactly two fields is kept. |
| ClipboardCopy.CopyOutputLines | main.py:65-67 | The clipboard lines are the stripped text's two-field lines, in order, as `field1\tfield2`. When there are no such lines the clipboard text is empty. |
| ClipboardCopy.CopyOfRows | main.py:65-67 | Text whose lines are two fields is copied as the same rows, tab-separated. Each line may have its own run of blanks between its fields. |
| ClipboardCopy.CopyIdempotent | main.py:65-67 | Filtering the filter's own output returns it unchanged. |
| ClipboardCopy.CopySkipsFirstLine | main.py:65-66 | A first line that does not have two fields, and has no whitespace at either end, changes nothing in the clipboard text. |
| ResultText.Header | main.py:44 | The header line `Sensor = <name>    Dates = <from> to <to>`. Its partners are `HeaderFields` (its eight fields) and `HeaderIsOneLine`. |
| ResultText.HeaderIsOneLine | main.py:44 | For parsed metadata the header holds no newline, starts with `S` and ends with a non-space character. |
| ResultText.ResultBoxText | main.py:42-44 | A box is built exactly when the base name yields metadata. Its lines are the header of that metadata followed by the table's lines, with nothing in between. |
| ResultText.HeaderFields | main.py:44 | For any parsed metadata, the header splits into eight fields: `Sensor`, `=`, name, `Dates`, `=`, from, `to`, to. |
| ResultText.HeaderNeverCopied | main.py:63-67 | Copying a result box gives the same clipboard text as copying its table alone, because the header line is never copied. |
| ResultText.CopyRecoversTable | main.py:63-67 | A table of (date, value) lines comes back from the clipboard as the same pairs in the same order, tab-separated, without the header. Each line may have its own run of blanks, as when values are right-aligned. |
| ResultText.ExtractedAreFields | main.py:25-28 | Each of the three parsed fields is a single non-empty, whitespace-free field. |

## Left out

- `calculate_average_temperature` (main.py:13-22): CSV loading, timestamp parsing, a floating-point group-by mean and `round(1)`. These are all pandas calls. The table text it produces (`averages.to_string()`) is a parameter of `ResultBoxText`. `CopyRecoversTable` takes that table as any list of (date, value) lines, each with its own run of blanks between the two fields. Other lines in pandas' rendering, such as a line holding only the index name, are not part of that round trip. `CopyOutputLines` and `TwoFieldLinesSelect` show that any line without exactly two fields is dropped.
- All tkinter code: the file dialog, result boxes and their removal, clearing, the expand toggle, the loading bar, menus, the window and the about box (main.py:34-37, 45-59, 71-176). `upload_csv`'s lines 42-44 are modelled: the file name is parsed, and the box text is built when all three values are present.
- Reading the Text widget and writing the clipboard (main.py:64, 68-69). The model is the string function between them. The widget adds a trailing newline, which `strip()` removes anyway.
- The check `averages is not None` (main.py:39), which skips files whose CSV failed to load, belongs to the aggregation and is not modelled; `ResultBoxText` takes the table text as given.
- `os.path.basename` and `os.path.splitext` (main.py:41). The parser's input is the base name without its extension.
- Character classes: Python matches `\w` and `\d` against all of Unicode. The model keeps their ASCII members: letters, digits, `_`, and `0`-`9`. Whitespace for `strip()` and `split()` is Python's full `str.isspace()` set.
- The dates are only checked for shape (`\d{2}_\d{2}_\d{4}`), as the pattern does. Nothing interprets them as calendar dates.
