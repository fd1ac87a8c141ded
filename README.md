# Card sheet parser of the memory-match game backend

The game's backend reads a Google Sheet of trivia cards and serves it as a
list of `{id, question, answer}` records. The logic in it is
`normalize_rows` (backend/app.py). It takes the raw value grid of the
sheet: row 0 is the header, the later rows hold data, and every row is a
list of cells. It works as follows:

- A grid with fewer than two rows gives no cards and no error, whatever its
  header says.
- The header cells are stripped of whitespace and lower-cased. The first
  column named `id`, the first named `question` and the first named
  `answer` are looked up. If any of the three is missing, it raises
  `RuntimeError("Sheet must include headers: id, question, answer (row 1)")`.
- Each data row is padded in place with `""` up to the header's width. The
  padding is visible to the caller, who owns the row lists.
- The stripped cells at the three columns are read. A row is skipped when
  all three are empty. Otherwise it becomes a card, in row order.

The project has four files:

- `wrappers.dfy` (module `Wrappers`): `Option` and `Result`. They stand in
  for Python's `None` and for the raised exception.
- `text.dfy` (module `Text`): the Python built-ins `str.strip()` and
  `str.lower()` on ASCII. It proves what `strip` removes, when it leaves
  nothing, that surrounding whitespace does not matter, and that `strip`
  and `lower` commute.
- `app.dfy` (module `App`): the parser itself.
  - Data model: `Card`, `Columns`, and the error `RuntimeError(message)`.
    A data row is a `class Row` with a `cells: seq<string>` field, because
    the parser appends to it in place.
  - Pure parts: the header comprehension (`NormalizeHeader`, `HeaderKey`)
    and `col_index` (`ColIndex`, `HeaderColumns`).
  - Specification: `Normalize`, which parses a grid given as values.
  - Imperative parts: `NormalizeRows` runs the header check and then
    `PadAndCollect`, the `for row in values[1:]` loop. Its body
    (`ReadRow`) pads the row with `Row.PadTo`, the `while` loop, and then
    reads the three cells. `NormalizeRows` is proved to return `Normalize`
    of the grid as the caller passed it in. It is also proved to leave
    every data row padded, or, on the early returns, every row unchanged.
    Rows may be aliased (the same list twice in the grid), as in Python.
    Padding is idempotent, so the contract holds for aliased rows too.
  - Lemmas about `Normalize`: the error condition, the order and the
    filter rule, the count bound, and that other columns are irrelevant.
- `app_examples.dfy` (module `AppExamples`): worked instances. A header
  with mixed case, surrounding blanks and a repeated name. A grid with a
  short row, a blank row and a row longer than the header.

Card ids are meant to be unique, but this parser does not enforce
that: duplicate ids and empty ids pass through, and
a row with only a question or only an answer still becomes a card. The
model follows the code (`KeptIndicesSpec` states the keep rule exactly).

## Model

| member | source | states |
|---|---|---|
| `Text.IsSpace` | backend/app.py:62-64 | the characters `strip` removes: Python's `isspace` on ASCII, that is tab, line feed, vertical tab, form feed, carriage return, 0x1C-0x1F and space |
| `Text.TrimStart` | backend/app.py:62-64 | the left half of `strip`: its result is empty or starts with a non-whitespace character |
| `Text.TrimEnd` | backend/app.py:62-64 | the right half of `strip`: its result is empty or ends with a non-whitespace character |
| `Text.TrimStartSpec` | backend/app.py:62-64 | what the left half of `strip` drops is exactly a whitespace prefix of the cell |
| `Text.TrimEndSpec` | backend/app.py:62-64 | what the right half of `strip` drops is exactly a whitespace suffix of the cell |
| `Text.Strip` | backend/app.py:62-64 | a stripped cell neither begins nor ends with whitespace |
| `Text.StripSpec` | backend/app.py:62-64 | a stripped cell is the middle of the cell between a whitespace prefix and a whitespace suffix |
| `Text.Lower` | backend/app.py:41 | `.lower()` on a header cell: same length, each `A`-`Z` replaced by its lower-case letter, every other character kept |
| `Text.StripEmptyIff` | backend/app.py:66 | a stripped field is empty exactly when the cell is all whitespace, so whitespace-only cells count as empty for the skip rule |
| `Text.StripIgnoresSurroundingSpace` | backend/app.py:41 | whitespace added around a cell does not change its stripped value |
| `Text.StripLowerCommute` | backend/app.py:41 | stripping then lower-casing equals lower-casing then stripping |
| `App.HeaderKey` | backend/app.py:41 | the key a header cell is compared by: `str(h).strip().lower()`, that is `Lower` of `Strip` of the cell |
| `App.NormalizeHeader` | backend/app.py:41 | the header comprehension: one key per header cell, in column order (LookupColumn relates lookups in it to the raw cells) |
| `App.HeaderKeyIgnoresCase` | backend/app.py:41 | header cells that differ only in ASCII letter case get the same key |
| `App.HeaderKeyIgnoresSurroundingSpace` | backend/app.py:41 | whitespace around a header cell does not change its key |
| `App.ColIndex` | backend/app.py:43-47 | `header.index(name)`: the first position holding `name`, or `None` exactly when `name` is absent |
| `App.LookupColumn` | backend/app.py:41-47 | a lookup in the normalised header finds the first cell whose stripped, lower-cased text is the name, and fails exactly when no cell has it |
| `App.HeaderColumns` | backend/app.py:49-51 | every found column index lies within the header row |
| `App.HeaderColumnsSpec` | backend/app.py:41-54 | each of `id`, `question`, `answer` resolves to its first matching header cell; the lookup fails exactly when one of the three names matches no cell |
| `App.Normalize` | backend/app.py:38-54 | a grid of fewer than two rows gives `Success([])`, even with a bad header; a failure always carries the "must include headers" message |
| `App.NormalizeFailsIff` | backend/app.py:49-54 | with at least two rows, parsing fails exactly when one of the three names is missing from the header; a failure holds no records |
| `App.Row.constructor` | backend/app.py:57-60 | a row is a caller-owned list of cells; the constructor makes a row holding exactly the given cells, which the parser may later extend in place |
| `App.Row.PadTo` | backend/app.py:59-60 | the row becomes its old cells followed by as many `""` as it lacked up to the width; a row already that long is unchanged |
| `App.Padded` | backend/app.py:59-60 | the row after `while len(row) < width: row.append("")`: unchanged when already `width` long, else followed by the missing `""` cells (PaddedSpec characterises it) |
| `App.PaddedSpec` | backend/app.py:58-64 | after padding, the row has at least the header's width, keeps its cells, gains only `""`, and is unchanged if it was long enough; each column below the width holds the row's cell or `""` |
| `App.PaddedIdempotent` | backend/app.py:59-60 | padding a row that is already padded changes nothing |
| `App.RecordOf` | backend/app.py:62-64 | the record a data row yields: its stripped cells at the `id`, `question` and `answer` columns, a missing cell reading as `""` |
| `App.IsBlank` | backend/app.py:66 | the skip test: the stripped id, question and answer are all empty |
| `App.RecordOfPadded` | backend/app.py:59-64 | padding does not change the record a row yields |
| `App.ReadRow` | backend/app.py:59-69 | the loop body pads the row in place and yields the row's trimmed id, question and answer, or nothing when all three are empty |
| `App.PadAndCollect` | backend/app.py:56-71 | the row loop returns the records of the non-blank rows in order and leaves every row padded to the header width, aliased rows included |
| `App.NormalizeRows` | backend/app.py:33-71 | the parser returns `Normalize` of the grid as passed in; on success every data row is padded in place; on the early returns no row changes |
| `App.Records` | backend/app.py:56-69 | the records of the non-blank data rows in row order (RecordsFollowKeptIndices and KeptIndicesSpec characterise it) |
| `App.KeptIndices` | backend/app.py:66-69 | the kept positions are strictly increasing positions of data rows |
| `App.KeptIndicesSpec` | backend/app.py:66-69 | a row is kept exactly when its trimmed id, question and answer are not all empty; one non-empty field is enough |
| `App.RecordsFollowKeptIndices` | backend/app.py:56-71 | there is one record per kept row, in row order, and each is that row's record |
| `App.NormalizeInRowOrder` | backend/app.py:56-71 | with a good header, the output is one card per kept data row, in row order, and never the header; each field is the trimmed cell at its column, and a missing cell reads as `""`; a data row is kept exactly when it is not blank |
| `App.RecordsLength` | backend/app.py:56-69 | the records are no more than the rows |
| `App.NormalizeCount` | backend/app.py:56-71 | the output has at most `len(values) - 1` cards, and none when there are fewer than two rows |
| `App.RecordsDependOnlyOnColumns` | backend/app.py:62-69 | rows that agree at the three columns yield the same records |
| `App.NormalizeIgnoresOtherColumns` | backend/app.py:62-69 | two grids whose headers resolve to the same columns, and whose data rows agree at those columns, parse to the same result |
| `AppExamples.ExampleHeaderKeys` | backend/app.py:41 | ` ID`, `Question ` and `ANSWER` normalise to `id`, `question` and `answer` |
| `AppExamples.ExampleHeader` | backend/app.py:41-51 | the header ` ID, Question , ANSWER, id` resolves to columns 0, 1, 2; the repeated `id` is ignored |
| `AppExamples.ExamplePlainHeader` | backend/app.py:41-51 | the header `id, question, answer` resolves to columns 0, 1, 2 |
| `AppExamples.ExampleRowRecords` | backend/app.py:59-67 | a short row reads its missing answer as `""`; a row of blanks is blank; a cell beyond the three columns is ignored |
| `AppExamples.ExampleRecords` | backend/app.py:56-69 | of three data rows, the blank middle one is skipped and the other two keep their order |
| `AppExamples.ExampleGrid` | backend/app.py:33-71 | a four-row grid parses to exactly two cards |

## Left out

- `get_sheets_service` (backend/app.py:22-30) is not modelled. It reads environment variables, parses service-account JSON and builds a Google API client.
- The Flask routes `health` and `cards` (backend/app.py:74-91) are not modelled. Neither are CORS, `load_dotenv` and `app.run` (backend/app.py:94-95). They are HTTP plumbing and a remote Sheets fetch. The `count` field of the response is `len` of the parsed list.
- `str()` coercion of cells is not modelled (backend/app.py:41, 62-64). Cells are strings here; numbers or booleans that the Sheets API might return are not represented.
- The `not values` test also accepts `None`, which is not modelled. The model takes a sequence, and the only caller passes `resp.get("values", [])`, which is a list.
- The raised `RuntimeError` is a `Failure` value. There is no stack unwinding. The state on failure is stated explicitly: no row has changed.
- Text.Strip: removes only ASCII whitespace (tab, line feed, vertical tab, form feed, carriage return, 0x1C-0x1F, space). Python's `str.strip()` also removes non-ASCII Unicode whitespace such as U+0085, U+00A0 and U+3000.
- Text.Lower: maps only `A`-`Z`. Python's `str.lower()` also lower-cases non-ASCII letters, some of them into several characters.
- The game's turn/match state machine, round builder and mismatch timer are not part of this model. They live in the frontend TypeScript.
