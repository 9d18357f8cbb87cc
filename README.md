# CSV editor table model

A Dafny model of the table logic inside the `CSVEditor` React component of
csv-craftopia (`src/pages/Index.jsx`). The component loads a comma-separated
file, lets the user edit cells, add rows and delete rows, and downloads the
result as comma-separated text. It does this with plain string operations:
the text is split on `'\n'`, each line on `','`, and the download joins
everything back with the same two characters. There is no quoting, and the
code returns no error values; only `handleEdit` can throw, for an index that
names no row.

The model has four modules:

- `Wrappers` — `Option`, used for a property holding `undefined`.
- `Text` — `Split` and `Join`, JavaScript's `String.prototype.split` and
  `Array.prototype.join` for a one-character separator, with the lemmas that
  make them inverses (`JoinSplit`, `SplitJoin`) and the piece-count fact
  that a string with n separators splits into n + 1 pieces.
- `Csv` — a row is a `map<string, Option<string>>` (a JavaScript object whose
  properties may hold `undefined`), a `Table` is the `headers`/`data` pair.
  `Parse` is the `reader.onload` body and `Serialize` the `csv` expression
  of `handleDownload`. Each row is described by `RowOf`: every header is a
  key, and it holds the line's field at the header's LAST position, because
  the `reduce` writes keys in order and a repeated header is overwritten.
  The lemmas state how the parser treats short lines (`undefined`), long
  lines (extra fields ignored), empty input and a trailing newline, what the
  serializer writes on each line, and the two round trips.
- `Editor` — class `CsvEditor` with the component state as fields `headers`
  and `data`, and one method per handler: `Load` (`reader.onload`), `Edit`
  (`handleEdit`), `AddRow` (`handleAddRow`), `DeleteRow` (`handleDeleteRow`)
  and `Download` (`handleDownload`). The row-building `reduce` is the
  method `BuildRow`, a loop proved to build exactly `RowOf`. `Valid()` is the
  invariant every handler keeps: every row has a key for every header.

The code does no quoting (RFC 4180 section 2, rules 5-7), returns no
error values (only `handleEdit` can throw, for an index that names no
row), keeps the blank record after a trailing newline and lets
`handleEdit` write any key. The model does the same: repeated headers are
accepted and the last position wins, short rows get `undefined`, long rows
are truncated, a trailing newline yields an extra row, and `Edit` accepts
any key.

The two round trips proved are:

- `Csv.RoundTrip`: for a table with at least one header, where no header or
  cell contains `','` or `'\n'`, and where every row has exactly the header
  keys with defined values, `Parse(Serialize(t)) == t`. Distinct headers
  are not needed, since a row holds one value per name and the serializer
  writes it at every position of that name. `Csv.ParseSerialize` states the
  general case: rows come back cut to their header keys, with `undefined`
  read back as `""`.
- `Csv.SerializeParse`: when the headers of `text` are distinct and every
  later line has exactly one field per header, `Serialize(Parse(text)) ==
  text`.

## Model

| member | source | states |
|---|---|---|
| `Text.Split` | src/pages/Index.jsx:18-21 | `split` on one character gives one piece more than there are separators, so `""` gives `[""]` |
| `Text.SplitPiecesAvoidSeparator` | src/pages/Index.jsx:18-21 | no piece of a split contains the separator |
| `Text.SplitNoSeparator` | src/pages/Index.jsx:19 | a string without the separator splits into itself alone |
| `Text.SplitAround` | src/pages/Index.jsx:18 | a separator between two texts splits them apart: the split of `a + sep + b` is the split of `a` followed by the split of `b` |
| `Text.SplitFirst` | src/pages/Index.jsx:18-19 | the first piece of a split is the text before the first separator |
| `Text.JoinSplit` | src/pages/Index.jsx:18-21 | joining the pieces of a split with the same separator gives the text back |
| `Text.SplitJoin` | src/pages/Index.jsx:57-60 | splitting the join of at least one separator-free piece gives the pieces back |
| `Text.JoinAvoids` | src/pages/Index.jsx:58-59 | a character other than the separator occurs in a join only if it occurs in some piece |
| `Csv.LastIndexOf` | src/pages/Index.jsx:22-25 | the position returned holds the header name and no later position does |
| `Csv.RowOfKeys` | src/pages/Index.jsx:22-25 | the row object built for a line has exactly the header names as keys |
| `Csv.RowOfAt` | src/pages/Index.jsx:21-25 | at the last position of a header name the row holds that position's field, or `undefined` when the line has fewer fields; an earlier position of a repeated name is overwritten |
| `Csv.RowOfIgnoresExtraFields` | src/pages/Index.jsx:21-25 | fields beyond the number of headers do not change the row |
| `Csv.RowOfExtend` | src/pages/Index.jsx:22-25 | one step of the `reduce`: processing the next header writes its field over whatever that key held |
| `Csv.Parse` | src/pages/Index.jsx:17-26 | there is at least one header, and exactly as many rows as the text has `'\n'` characters |
| `Csv.ParseEmpty` | src/pages/Index.jsx:18-20 | empty input gives one header with the empty name and no rows |
| `Csv.ParseHeaders` | src/pages/Index.jsx:18-19 | the headers are the `','`-split of the text before the first `'\n'` |
| `Csv.ParsedRow` | src/pages/Index.jsx:20-21 | row r is built from the fields of line r + 1 |
| `Csv.ParseRowsAt` | src/pages/Index.jsx:20 | the `map` over the lines keeps their order: element r is built from line r |
| `Csv.ParseRowsSnoc` | src/pages/Index.jsx:20 | one more line at the end gives one more row at the end and leaves the others as they were |
| `Csv.ParseRowKeys` | src/pages/Index.jsx:20-25 | every parsed row has every header as a key and no other key |
| `Csv.ParseField` | src/pages/Index.jsx:20-25 | in row r, the last position of a header name holds the field at that position of line r + 1, or `undefined` when the line is too short |
| `Csv.ParseTrailingNewline` | src/pages/Index.jsx:18-25 | a trailing `'\n'` keeps the headers and rows and adds one row in which the first header maps to `""` unless its name occurs again later; every header whose last position is not 0 is `undefined` |
| `Csv.SerializeFields` | src/pages/Index.jsx:57-60 | for a delimiter-free table the output has one line per row plus the header line, the header line is the headers joined by `','`, and field i of line r + 1 is row r's value under header i with `undefined` written as `""` |
| `Csv.RowLinesAt` | src/pages/Index.jsx:59 | the `map` over the rows keeps their order: line r is row r's cells in header order joined by `','` |
| `Csv.SerializeIgnoresOtherKeys` | src/pages/Index.jsx:59 | rows that agree on the header keys serialize identically: other keys never reach the output |
| `Csv.RowOfCells` | src/pages/Index.jsx:59 | building a row from the values the serializer writes for a row gives that row cut to its header keys with `undefined` as `""` |
| `Csv.CellsOfRowOf` | src/pages/Index.jsx:21-25 | with distinct headers and one field per header, the serializer writes a parsed line's fields back in order |
| `Csv.LineOfRowOf` | src/pages/Index.jsx:21-25 | with distinct headers, a line with one field per header, built into a row and written back, is the same line |
| `Csv.SerializedLine` | src/pages/Index.jsx:57-60 | under the same condition, line k of the serialized parse of a text is line k of the text |
| `Csv.ParseSerialize` | src/pages/Index.jsx:57-60 | parsing the serialized text of a delimiter-free table with a header gives the same headers and the same rows in order, cut to the header keys with `undefined` read as `""` |
| `Csv.RoundTrip` | src/pages/Index.jsx:18-26 | a delimiter-free table with a header whose rows have exactly the header keys, all defined, is parsed back from its serialization unchanged |
| `Csv.SerializeParse` | src/pages/Index.jsx:57-60 | serializing parsed text gives the text back when the headers are distinct and every later line has one field per header |
| `Editor.BuildRow` | src/pages/Index.jsx:22-25 | the key-by-key `reduce` loop builds exactly the row `RowOf` describes |
| `Editor.CsvEditor.constructor` | src/pages/Index.jsx:9-10 | the editor starts with no headers and no rows |
| `Editor.CsvEditor.Load` | src/pages/Index.jsx:16-30 | after loading, the state is the parse of the text and every row covers the headers |
| `Editor.CsvEditor.Edit` | src/pages/Index.jsx:37-41 | with an index naming a row, that row gets `header` set to `value` and every other row and key is unchanged; with any other index the handler throws and nothing changes; the headers and row count never change; a key outside the headers leaves the downloaded text unchanged |
| `Editor.CsvEditor.AddRow` | src/pages/Index.jsx:43-49 | one row more, the old rows unchanged and in order, the new last row mapping exactly the headers to `""` |
| `Editor.CsvEditor.DeleteRow` | src/pages/Index.jsx:51-54 | an in-range index removes exactly that row and keeps the others in order; any other index changes nothing |
| `Editor.CsvEditor.Download` | src/pages/Index.jsx:56-60 | the downloaded text is the serialization of the current headers and rows; when there is a header and no header or cell holds ',' or '\n', parsing it back gives the same headers and, row by row in order, each row cut to its header columns with `undefined` read as ""; when moreover every row holds exactly the headers, all defined, it gives back the current state unchanged |

## Left out

- Reading the file (`useDropzone`, `FileReader`, `readAsText`, src/pages/Index.jsx:12-16, 32, 35): `Load` takes the already-read text.
- The download side effects (`Blob`, `URL.createObjectURL`, the hidden link and its click, the `edited_data.csv` name, src/pages/Index.jsx:62-72): `Download` returns the text that would be handed to the browser.
- The JSX rendering and React's `useState` machinery (src/pages/Index.jsx:75-129): the state is two fields of a class, and a handler's `setData` is an assignment.
- The shallow copy in `handleEdit`: `[...data]` copies the array but not the row objects, so the edit also changes the row object shared with the previous state. Only the resulting state is modelled, rows as values.
- Special object keys: a header named `__proto__` (assigning a string to it is ignored) and reads of inherited properties such as `toString` for a key a row lacks. Rows are plain maps, and a missing key reads as `undefined`.
- Editor.CsvEditor.Edit: `index` is an integer; a JavaScript handler could also be called with a non-integer or string index, which the component never does.
- Carriage returns: `\r\n` line ends leave the `\r` at the end of the last field of each line, in the model as in the code; no normalisation happens.
