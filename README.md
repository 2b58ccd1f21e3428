# excel-extractor core, modelled in Dafny

The server accepts an uploaded spreadsheet, turns the first worksheet into a
list of headers and a list of row records, keeps them in a module-level slot,
and renders the rows filtered by three exact-match criteria (`Final_Status`,
`Country`, `QA_Status`) and a free-text job-title search (`Job_Titles`). This
project models that logic, all of it in `server.js`:

- **Cell normaliser** (`cell_normaliser.dfy`): a raw cell value becomes the
  stored value through a fixed priority chain (hyperlink anchor, rich text,
  formula result, text, serialisation) followed by JavaScript's `value || ''`.
  Cell values are a tagged union with JavaScript truthiness
  (`js_values.dfy`).
- **Sheet extractor** (`sheet_extractor.dfy`): the `eachRow` / `forEach`
  loops, as methods with loop invariants, proved against the specification
  functions `RecordOf` and `Extracted`.
- **Parsed-data store** (`parsed_data.dfy`): a class whose `Replace` method
  overwrites both fields, and the upload handler whose failures leave the
  store untouched.
- **Row filter** (`row_filter.dfy`): the view handler's step-by-step
  narrowing, the term list built from the search input (`text.dfy`), and
  `getUnique`.
- `seqs.dfy` holds `Filter` (for `Array.prototype.filter`) and its lemmas;
  `wrappers.dfy` holds `Option`.

The stored cell value is not always a string: numbers, booleans, dates
and objects that reach `value || ''` unchanged are stored as they are (a
formula's numeric result stays a number). A date cell is an object, so it is
stored as its JSON form, a quoted ISO string. A formula whose result is falsy
(`0`, `false`, `""`) is stored as its text or its serialisation, never as the
result.

## Model

| member | source | states |
|---|---|---|
| `JsValues.Truthy` | server.js:57-71 | definition: JavaScript truthiness, as tested at lines 57-71 and again at 96, 107, 111, 114 and 121: `undefined`, `null`, `""`, `0` and `false` are falsy; every other string, number and boolean, and every date or object, is truthy |
| `JsValues.IsObject` | server.js:57 | definition: `typeof value === 'object'` for a value that is not `null`, which holds exactly for dates and structured cells |
| `JsValues.OrEmpty` | server.js:71 | the result of `value \|\| ''` is truthy or the empty string, and is truthy exactly when `value` is |
| `JsValues.JsString` | server.js:116 | definition: `toString()` of a job title: a string is itself, an integer its decimal form with a leading `-` when negative, a boolean `true`/`false`, a date its ISO form, an object `[object Object]` |
| `JsValues.Json` | server.js:67 | `JSON.stringify` of a value is never empty, and an object's form starts with `{`; the definition writes a date as its ISO string in double quotes and a structured cell as its present properties in a fixed order (simplified as stated under "## Left out", on the `JsValues.Json` line) |
| `CellNormaliser.Anchor` | server.js:59 | definition: the template literal `<a href="${hyperlink}" target="_blank">${text}</a>` |
| `CellNormaliser.Normalise` | server.js:55-71 | a stored value is truthy or the empty string; every falsy raw value is stored as `''`; a truthy value that is not an object is stored unchanged |
| `CellNormaliser.NormalisePriority` | server.js:57-68 | for a structured cell: hyperlink and text both present give the anchor; otherwise rich text gives its runs joined with no separator; otherwise a truthy result; otherwise a non-empty text; otherwise the serialisation |
| `CellNormaliser.FalsyResultFallsThrough` | server.js:62-67 | a falsy formula result is never the stored value; the cell's text or its serialisation is stored instead |
| `CellNormaliser.ZeroResultIsSerialised` | server.js:62-67 | the formula `A1-A1` with result 0 is stored as a string starting with `{`, not as 0 |
| `CellNormaliser.NormaliseDate` | server.js:57-67 | a date cell is stored as its quoted ISO form |
| `CellNormaliser.StoredObjectComesFromResult` | server.js:57-71 | a stored object is always the truthy object result of a formula cell that is neither a full hyperlink nor rich text |
| `CellNormaliser.NormaliseStable` | server.js:57-71 | normalising a stored non-object value again changes nothing |
| `SheetExtractor.CellAt` | server.js:54-55 | definition: `row.getCell(index + 1).value`; a column past the row's last cell reads as `null`, since ExcelJS creates an empty cell there |
| `SheetExtractor.RecordOf` | server.js:52-72 | a record has exactly the headers as keys, and every value in it is truthy or the empty string |
| `SheetExtractor.RecordOfAt` | server.js:53-71 | the value under a header is the normalised cell of column i+1, where i is that header's last position |
| `SheetExtractor.RecordOfDistinct` | server.js:53-71 | with distinct headers, header i holds the normalised value of column i+1 |
| `SheetExtractor.BuildRecord` | server.js:52-72 | the `forEach` loop builds the record `RecordOf` gives, with one key per header |
| `SheetExtractor.Extracted` | server.js:49-75 | definition: the records `eachRow` pushes, one `RecordOf` per visited row whose number is not 1, in visiting order |
| `SheetExtractor.ExtractedShape` | server.js:49-75 | one record per visited row other than row 1, in visiting order, each built from that row's cells |
| `SheetExtractor.DataRowsAreVisitOrder` | server.js:49-50 | the rows that become records are, in visiting order, exactly the visited rows not numbered 1 |
| `SheetExtractor.Extract` | server.js:46-75 | headers are row 1's values; the `eachRow` loop pushes exactly one record per data row, in order, record j built from data row j |
| `ParsedData.Store.constructor` | server.js:30-33 | the store starts with no headers and no rows |
| `ParsedData.Store.Replace` | server.js:80-81 | both fields are overwritten with the new headers and rows |
| `ParsedData.Upload` | server.js:39-88 | a readable sheet whose file is deleted leads to a redirect to `/view` and a store holding exactly the new extraction; a missing or unreadable file, or a failed delete, answers "Error processing file" and leaves the store unchanged |
| `ParsedData.ReplaceNotMerge` | server.js:78-81 | after two successful uploads the store holds only the second extraction |
| `Text.Join` | server.js:61 | definition: `pieces.join(sep)`: empty for no pieces, otherwise the pieces in order with `sep` between neighbours; line 61 joins the rich-text runs with `''` |
| `Text.Trim` | server.js:107 | the trimmed string has no white space at either end |
| `Text.TrimRemovesBlankEnds` | server.js:110 | trimming keeps a contiguous part of the input and removes only white space before and after it |
| `Text.TrimEmptyIffBlank` | server.js:107 | trimming gives the empty string exactly when the input is all white space |
| `Text.TrimTrimmed` | server.js:110 | trimming a string with no white space at its ends returns it unchanged |
| `Text.Lower` | server.js:110 | `toLowerCase()` (used at lines 110 and 116) keeps the length; the definition lower-cases each ASCII letter and leaves every other character as it is |
| `Text.LowerAt` | server.js:110 | lower-casing maps each character on its own and leaves no upper-case letter |
| `Text.LowerNoUpper` | server.js:110 | lower-casing a string without upper-case letters returns it unchanged |
| `Text.Contains` | server.js:116 | definition: `hay.includes(needle)`: `needle` occurs in `hay` as a contiguous run starting at some position |
| `Text.Split` | server.js:109 | `split(/\r?\n\|,/)` always gives at least one piece; the definition cuts at a comma, a line feed, or a carriage return directly followed by a line feed |
| `Text.SplitPiecesHaveNoSeparator` | server.js:109 | no piece of `split(/\r?\n\|,/)` contains a comma or a line feed |
| `Text.SplitJoin` | server.js:109 | splitting pieces that were joined with commas gives those pieces back |
| `Seqs.Filter` | server.js:97 | `Array.prototype.filter` (used at lines 97, 100, 103, 111, 113 and 121) returns no more elements than it was given, each satisfying the predicate and taken from the input; the definition keeps them in their original order |
| `RowFilter.ExactFilter` | server.js:97 | definition: `rows.filter(r => r[field] === value)`, a missing field reading as `undefined` |
| `RowFilter.Narrow` | server.js:96-104 | definition: one guarded step; it filters only when the criterion is present, non-empty and not `All`, and otherwise passes the rows through |
| `RowFilter.ExactFilterSpec` | server.js:96-104 | an exact-match filter keeps, in order, exactly the rows whose field is the criterion string, each as many times as it occurs: duplicate rows are not merged |
| `RowFilter.ExactFiltersCommute` | server.js:96-104 | two exact-match filters give the same rows in either order |
| `RowFilter.CleanTerms` | server.js:110-111 | definition: each piece trimmed and lower-cased, in order, with the pieces that become empty dropped |
| `RowFilter.Terms` | server.js:108-111 | definition: the cleaned pieces of the split search input |
| `RowFilter.CleanTermsAreTerms` | server.js:110-111 | pieces with no separator clean up into non-empty, trimmed, lower-case terms |
| `RowFilter.TermsAreTerms` | server.js:108-111 | every search term is non-empty, trimmed, lower case and free of separators |
| `RowFilter.CleanTermsOfTerms` | server.js:110-111 | terms that are already clean pass through trimming, lower-casing and the empty-piece filter unchanged |
| `RowFilter.TermsOfJoined` | server.js:108-111 | the search terms of a comma-separated list of terms are that list |
| `RowFilter.SearchRequestedIffNotBlank` | server.js:107 | a present search input filters exactly when it is not all white space |
| `RowFilter.SomeTermInIffExists` | server.js:115-117 | `some` over the terms holds exactly when at least one term occurs in the title |
| `RowFilter.TitleMatchesIffSomeTerm` | server.js:113-118 | a row survives the search exactly when its job title is truthy and its lower-cased form contains at least one term |
| `RowFilter.TextFilter` | server.js:113-118 | definition: keeps, in order, the rows whose job title is truthy and whose lower-cased title contains some term |
| `RowFilter.Search` | server.js:107-118 | definition: applies the text filter with the input's terms only when the input is present and not blank, and otherwise passes the rows through |
| `RowFilter.NoTermsRemovesAll` | server.js:107-118 | a non-blank input with no terms removes every row |
| `RowFilter.CommasOnlyHasNoTerms` | server.js:107-111 | the input ", ," is not blank and yields no terms |
| `RowFilter.ViewRows` | server.js:94-119 | definition: the `Final_Status`, `Country` and `QA_Status` steps, in that order, then the search |
| `RowFilter.ViewRowsIsFilter` | server.js:94-119 | the chain of filters equals one filter by the conjunction of the active criteria |
| `RowFilter.ViewRowsSpec` | server.js:94-119 | the view keeps an order-preserving subsequence of the rows; a row is kept exactly when it meets every active criterion (AND), and then as many times as it occurs in the stored rows |
| `RowFilter.NoCriteriaKeepsAll` | server.js:94-119 | with every criterion absent or `All` and no search, every row is shown in its order |
| `RowFilter.DistinctTruthy` | server.js:121 | the dropdown list has no duplicates, and a value is listed exactly when it is truthy and occurs in the column |
| `RowFilter.ColumnValues` | server.js:121 | definition: `rows.map(r => r[field])`, one value per row, `undefined` where the field is missing |
| `RowFilter.ColumnMembership` | server.js:121 | a value occurs in the mapped column exactly when some row holds it in that field |
| `RowFilter.DistinctTruthyFirstSeen` | server.js:121 | dropdown values are listed in the order of their first occurrence |
| `RowFilter.Unique` | server.js:121 | definition: `getUnique(field)` is the distinct truthy values of the column over the unfiltered rows |
| `RowFilter.UniqueSpec` | server.js:121 | a dropdown value is truthy and is some row's field value, and every such value is listed |
| `RowFilter.View` | server.js:90-133 | the page shows the stored headers and the filtered rows; the three dropdown lists depend only on the unfiltered stored rows, never on the criteria; the criteria are echoed back |

## Left out

- HTTP routing, `res.render` and the EJS template, the `GET /` page, redirect handling and `app.listen` with its port (server.js:7-10, 35-37, 123-138): framework I/O. The handlers return a `Response` or `Page` value instead.
- Multer disk storage, the timestamped file name and creation of the upload directory (server.js:12-28): file-system side effects. Deleting the uploaded file is a boolean input saying whether `fs.unlinkSync` succeeded.
- ExcelJS `readFile` and which rows `eachRow` visits (server.js:42-44, 49): a foreign library. The worksheet is an input (row 1's values and the visited rows in order); a missing file field, an unreadable file and a workbook with no worksheet are all `None`.
- Header cells are strings. Non-string header values (used as keys through `String()`) and holes in the header array (which `forEach` skips) are not modelled.
- JsValues.Json: a simplified `JSON.stringify` (fixed key order, no escaping, only the properties the model knows). The lemmas rely on its output being non-empty, on an object's form starting with `{`, and on a date's form being its ISO string in double quotes (`NormaliseDate`). Two cells whose real JSON differs only in what the model ignores serialise alike here: an empty `text` and no `text`, or an extra property such as `tooltip`. The exact filters and `getUnique` can then treat as equal two stored strings that the source keeps apart.
- JsValues.JsString: a date converts to its ISO form; JavaScript's `Date.prototype.toString` depends on the time zone.
- Structured cells carry only `hyperlink`, `text`, `richText` (the text of each run), `formula`, `result` and `error`; an absent string property and an empty one are the same. Hyperlink text that is itself rich text, shared formulas and run formatting are not modelled.
- Numbers are integers: floating point, `NaN` and `-0` are not modelled.
- `trim` and `toLowerCase` are ASCII only.
- A JavaScript `Set` and `===` compare objects by identity; the model compares values structurally, so `DistinctTruthy` lists two equal-looking object values once where the source lists both.
- A query parameter given more than once (an array in Express) is not modelled; each criterion is absent or one string.
- Logging of upload errors with `console.error` (server.js:85).
- The race between a concurrent upload and a view on the shared store: concurrency is out of scope.
