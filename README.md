# Colour detection: verified model of the lookup core

The application lets a user upload an image, pick a pixel, and see the name of
the closest colour in a reference table loaded from `colors.csv`. Two pieces of
its logic are modelled here and proved correct:

- **Loading and column resolution** (module `Columns`, with the string helpers
  in `Text`). When the table is loaded, every column header is stripped of
  surrounding whitespace. The header row is then searched for the red, green
  and blue columns (a header whose lower-case form is `r`, `g` or `b`) and for
  the colour-name column (a header whose lower-case form contains both `color`
  and `name`). Each is the first qualifying header in table order. If any of
  the four is not found, the result `MissingColumns` lists the missing fields
  in the order R, G, B, color_name; the text shown to the user is built from
  that list by `MissingMessage`. Otherwise the four header names are
  returned.
- **Nearest-colour lookup** (module `Matcher`). One pass over the table rows
  keeps the smallest Manhattan distance `|R-r| + |G-g| + |B-b|` seen so far and
  the name of the row that has it. A row replaces the current best only when
  it is strictly closer, so ties go to the earliest row. An empty table gives
  the empty name `""`. The method `ClosestColorName` is proved against the
  reference function `FirstNearest` and the predicate `IsFirstNearest`, which
  says that the row is at minimal distance and that every earlier row is
  strictly farther away.

The source starts the running minimum at floating-point infinity, which only
means "no row seen yet". The model keeps an `Option<nat>` instead: `None`
stands for infinity and loses to every distance. The table is a `seq` of
`ColorEntry(name, Rgb(r, g, b))` values. Dafny sequences are values, so the
scan cannot change the rows or the query. `LookupTwice` states the resulting
determinism.

On an empty table the model returns `""`, as the code does. It does not
signal an error.

## Model

| member | source | states |
|---|---|---|
| `Text.Strip` | app.py:10 | The stripped header is the part of the raw header between a whitespace-only prefix and a whitespace-only suffix, and it neither starts nor ends with whitespace |
| `Text.StripIdempotent` | app.py:10 | Stripping an already stripped header changes nothing |
| `Text.StripPadded` | app.py:10 | Whitespace added around a header that neither starts nor ends with whitespace is removed again by the strip, and nothing else is |
| `Columns.StripHeaders` | app.py:10 | Loading keeps the number of headers, strips each header, and leaves no header that starts or ends with whitespace |
| `Columns.StripHeadersIdempotent` | app.py:10 | Stripping the header row a second time changes nothing |
| `Columns.MixedCaseHeadersLoad` | app.py:10 | For any four non-empty headers without surrounding whitespace, loading the row with a space on each side of the third gives the four headers back, as "r", "G", " B ", "Color Name" loads to "r", "G", "B", "Color Name" |
| `Text.Lower` | app.py:20-23 | Lower-casing keeps the length and maps each character on its own: an upper-case ASCII letter to its lower-case letter, any other character to itself |
| `Text.LowerIsLetter` | app.py:20-22 | A header lower-cases to a one-letter channel name exactly when it is that letter in lower or upper case (the match is case-insensitive) |
| `Text.Contains` | app.py:23 | The substring test holds exactly when some window of the string equals the searched word, the empty word included |
| `Columns.Matches` | app.py:20-22 | A header qualifies for R, G or B exactly when it is that letter in lower or upper case |
| `Columns.FirstMatch` | app.py:20-23 | The index found for a field belongs to a qualifying header and no earlier header qualifies; if none is found, no header qualifies |
| `Columns.FirstMatchIsFirstColumn` | app.py:20-23 | The header at the index found is a qualifying header that occurs at or before every qualifying header |
| `Columns.Column` | app.py:20-23 | The column chosen for a field is absent exactly when no header qualifies; otherwise it is a qualifying header occurring at or before every qualifying header |
| `Columns.QualifiesAsColorName` | app.py:23 | A header whose lower-case form is "color", one separator character and "name" qualifies as the colour-name column |
| `Columns.ColorNameHeadersQualify` | app.py:23 | The headers "Color Name" and "color_name" both qualify as the colour-name column |
| `Columns.MissingOf` | app.py:25-29 | The list built from four "not found" flags holds each field exactly when its flag is set, in the order R, G, B, color_name without repeats |
| `Columns.MissingFields` | app.py:25-29 | Each of R, G, B, color_name is in the missing list exactly when its column was not found, and the list follows that fixed order without repeats |
| `Columns.CompatibleColumns` | app.py:15-35 | Resolution succeeds exactly when nothing is missing; on failure it returns the non-empty missing list; on success each of the four returned headers is the first qualifying header for its field |
| `Columns.ResolvedAt` | app.py:31-35 | When every field has a qualifying header, resolution returns the headers at the first qualifying indices |
| `Columns.Label` | app.py:26-29 | A missing field is reported as one of "R", "G", "B", "color_name", none of which contains a comma |
| `Text.Join` | app.py:32 | Splitting the joined text at the separator gives back the parts, for any non-empty list of parts none of which contains the separator's first character |
| `Columns.MissingMessage` | app.py:32 | The error text starts with "Missing columns in colors.csv: "; for no missing fields it is that prefix alone; otherwise splitting the rest at ", " gives back the labels of the missing fields in order; with one missing field it is the prefix followed by that field's label |
| `Columns.OnlyBlueMessage` | app.py:32 | With only B missing, the message is "Missing columns in colors.csv: B" |
| `Columns.FirstMatchIgnoresCase` | app.py:20-23 | Two header rows that agree once lower-cased resolve every field to the same position |
| `Columns.ResolutionIgnoresCase` | app.py:17-33 | Two header rows that agree once lower-cased both resolve or both fail, with the same missing fields |
| `Columns.MixedCaseHeadersResolveAsIs` | app.py:20-35 | The headers "r", "G", "B", "Color Name" resolve to those four columns |
| `Columns.MixedCaseHeadersResolve` | app.py:10-35 | After loading strips them, the headers "r", "G", " B ", "Color Name" resolve to "r", "G", "B", "Color Name" |
| `Columns.BluelessFirstMatches` | app.py:20-23 | In the row "R", "G", "color_name" red, green and the colour name are found at positions 0, 1 and 2, and no header qualifies as blue |
| `Columns.BluelessMissing` | app.py:25-33 | When red, green and the colour name are found and blue is not, resolution fails with exactly B missing |
| `Columns.OnlyBlueMissing` | app.py:25-33 | The header row "R", "G", "color_name" fails to resolve with exactly B missing |
| `Matcher.Distance` | app.py:41 | The Manhattan distance is a natural number and is 0 exactly when the row's triple equals the query |
| `Matcher.FirstNearest` | app.py:40-44 | For a non-empty table the chosen row has no strictly closer row, and every row before it is strictly farther away (ties go to the earliest row) |
| `Matcher.FirstNearestUnique` | app.py:42-44 | At most one row satisfies "minimal distance and every earlier row strictly farther", so the tie-break determines the row |
| `Matcher.ClosestColorName` | app.py:37-45 | An empty table gives ""; otherwise the result is the name of a row at minimal distance whose earlier rows are all strictly farther, and it equals the reference `NearestName` |
| `Matcher.LookupTwice` | app.py:37-45 | Two lookups with the same query and table return the same name |
| `Matcher.ExactMatchFound` | app.py:41-44 | If some row has exactly the query's colour, the chosen row has that colour (distance 0) and comes no later than that row |
| `Matcher.RedBeatsGreen` | app.py:37-45 | Against rows red (255,0,0) and green (0,255,0) the query (250,10,5) gives "red" (distance 20 against 500) |

## Left out

- Reading `colors.csv` with pandas and the session cache on `load_colors` (app.py:7-12): file I/O and framework memoisation. Only the header strip at line 10 is modelled.
- The debug display of the loaded table (app.py:11) and all other Streamlit calls (titles, uploads, number inputs, the button, the markdown and the HTML swatch, `st.stop`): presentation glue.
- `st.error` (app.py:32) becomes the `MissingColumns` result and the `MissingMessage` text. `main`'s check for `None` columns (app.py:63-65) is the `Resolved?` test on that result.
- The unused list of lower-cased headers (app.py:17): it has no effect on the result.
- Image decoding and pixel indexing (app.py:56-57, 75-76): foreign libraries. The query triple is a parameter. The coordinate bounds come from UI widget limits (app.py:70-72).
- Projecting a DataFrame row onto the resolved columns and the `int(...)` conversion of its cells (app.py:41): the table is given as rows that already hold a name and three integer channels. A cell that does not convert to an integer is not modelled.
- `Text.Lower`: ASCII lower-casing only. Python's `str.lower` also maps non-ASCII letters.
- `Text.Strip`: only the ASCII whitespace characters (codes 9-13 and 28-32) are stripped. Python's `str.strip` also strips non-ASCII whitespace such as U+00A0 and U+0085.
- Non-string column headers: pandas' `str.strip` on the header index turns them into missing values (NaN), and `col.lower()` would then fail. Every header is a string here.
- Two raw headers that strip to the same name (for example "R" and " R"): the source then resolves the repeated name, `df.loc[i, "R"]` at app.py:41 returns two cells and `int(...)` raises. The model resolves such a row like any other and scans rows that are already projected onto one value per column, so the failure is not modelled.
- Columns.Matches: its contract states the channel cases only; the colour-name case is stated through `Text.Contains`, whose contract fixes the substring test, and through `QualifiesAsColorName`.
