# Klinos Insight table ingestion, modelled in Dafny

This project models the logic of the single-page app in `src/App.jsx`. The app
lets a user select CSV, TXT, JSON, XLSX and PDF files, normalises each file into
a table `{name, headers, rows}`, previews the first rows of every table, and
relates tables that share a column name. It also accepts pasted JSON as an
extra table, and keeps a manual "file → column" mapping.

The model is organised as follows:

- **Text helpers** (`text.dfy`, `split.dfy`): JavaScript's `\s`, `trim`, ASCII
  `toLowerCase`, `filter(Boolean)` and `join`. `String.prototype.split` is
  modelled for the three regular expressions the app uses (`/\r\n|\n/`,
  `/[;,|\t]+|\s{2,}/`, `/[|;]+|\t+|\s{2,}/`) and the string `","`, with
  leftmost-alternative, greedy matching. The proofs show that splitting loses nothing: the fields
  interleaved with the separators give back the input. They also show that no
  field contains a separator, and that the split is the only cutting whose
  separators are each the longest match at the leftmost matching position.
- **File name gate and dispatch** (`extension.dfy`, `ingest.dfy`): `getExtension`,
  the `endsWith` gate of a batch, the dispatch to a parser by extension, and
  the batch result in selection order.
- **Parsers**:
  - `textparsers.dfy`: CSV and TXT.
  - `json.dfy`: JSON, over a JSON value datatype with `Object.keys`, property
    access and `String()` coercion.
  - `sheet.dfy`: XLSX post-processing.
  - `pdf.dfy`: PDF line grouping (an imperative loop proved against a grouping
    function) and the tabular split.
- **Relations** (`relate.dfy`): `handleAutoRelate`, written as methods whose
  loops fill the column map.
- **Preview** (`preview.dfy`): the 5-row projection.
- **Session state** (`session.dfy`): a class whose methods are the app's state
  updates. `fileColumns` is a method with a loop.

Notable behaviours of the code:

- Deleting a table leaves its manual mapping entry in place.
- Deleting removes every uploaded table with that name.
- A JSON file that fails to parse becomes one "Conteúdo" cell holding the first
  1000 characters of the text.
- A PDF page is tabular as soon as its first line has more than one field.
- Choosing the empty option of a mapping stores `""` under that file's key.
- Auto-relating throws, and leaves the relations as they were, when some
  header is named like an `Object.prototype` member (see "## Findings").

## Model

| member | source | states |
|---|---|---|
| Extension.LastIndexOf | src/App.jsx:32 | the index is -1 or holds the character, and no later index holds it |
| Extension.GetExtensionSpec | src/App.jsx:31-34 | the extension is the lower-cased text after the last dot, and "" when the name has no dot |
| Extension.GateMatchesDispatch | src/App.jsx:133-135 | a name passes the `endsWith` gate exactly when `getExtension` yields csv, txt, json, xlsx or pdf, so the "Formato não processado" branch is unreachable for accepted files |
| Text.Trim | src/App.jsx:49 | the trimmed string is no longer than the input and has no `\s` at either end |
| Text.TrimFixpoint | src/App.jsx:49 | a string is its own trim exactly when it is empty or has clean ends; trimming is idempotent |
| Text.TrimKeepsMiddle | src/App.jsx:49 | trim removes only `\s` characters, and only from the ends |
| Text.LowerIdempotent | src/App.jsx:33 | lower-casing twice is lower-casing once |
| Text.DropEmpty | src/App.jsx:47 | `filter(Boolean)` keeps exactly the non-empty strings, and never yields more strings than it is given |
| Text.DropEmptySingle | src/App.jsx:47 | one string is kept as it is when non-empty and dropped when empty |
| Text.DropEmptyConcat | src/App.jsx:47 | filtering a concatenation is concatenating the filtered parts, so the kept strings stay in their order |
| Text.IndexRoundTrip | src/App.jsx:173-175 | printing an array index and reading the property key back gives the index |
| Split.SplitFromJoins | src/App.jsx:47 | the fields of a split, interleaved with the matched separators, give back the scanned text |
| Split.SplitFromFields | src/App.jsx:47 | no field of a split contains a separator match |
| Split.SplitFromSeparators | src/App.jsx:47 | every separator of a split is a full match of the pattern |
| Split.CutCharacterised | src/App.jsx:47-61 | for every pattern (the PDF split at line 109 included), a list of fields and separators is the split of a line or a text exactly when each separator is the longest match at the first position after the previous one where the pattern matches, and the last field is the rest |
| Split.SplitLinesSound | src/App.jsx:47-56 | splitting on `\r\n` or `\n` cuts at line breaks only, and no line contains `\n` |
| Split.LinesDropCR | src/App.jsx:47-56 | a line ended by a lone `\n` never ends in `\r`: every `\r\n` is taken whole as one break |
| Split.CommaSplitJoin | src/App.jsx:49-50 | joining the comma fields with "," gives back the line, and no field contains "," |
| Split.DelimitedSplitSound | src/App.jsx:58-61 | a TXT separator, and likewise a PDF separator of line 109, is a run of delimiters or of at least two spaces; a field has no delimiter and no two adjacent spaces |
| TextParsers.NonEmptyLinesSound | src/App.jsx:47-56 | the kept lines are non-empty and contain no line break, and every non-empty piece of the split is kept |
| TextParsers.CsvCellsSound | src/App.jsx:49-50 | a line gives one more cell than it has commas, and every cell is trimmed and comma-free |
| TextParsers.ParseCsvSpec | src/App.jsx:46-52 | no non-empty line gives no headers and no rows; otherwise the headers are the cells of the first line and there is one row per later line |
| TextParsers.ParseCsvExample | src/App.jsx:46-52 | `"a,b\n1,2\n3,4"` gives headers a, b and rows [1, 2], [3, 4] |
| TextParsers.ParseTxtSpec | src/App.jsx:54-69 | the headers are never empty; the single "Conteúdo" header with one row per line exactly when the first line has at most one non-empty field; otherwise the fields and one row per later line |
| TextParsers.TxtCellsClean | src/App.jsx:58-61 | every TXT cell is trimmed and free of semicolons, commas, pipes and tabs |
| JsonTable.RowCells | src/App.jsx:175 | a row has one cell per header, each the property printed, and fails exactly when some cell's `String()` throws |
| JsonTable.ArrayRows | src/App.jsx:174-176 | one row per array element, failing exactly when some row fails |
| JsonTable.FirstElement | src/App.jsx:173 | `data[0]` of a non-empty array root is its first element |
| JsonTable.ArrayRootRows | src/App.jsx:172-179 | with an array root, the headers are the keys of element 0, each element gives one row with one cell per header, and a missing or null property gives "" |
| JsonTable.NonArrayRootHasNoRows | src/App.jsx:174-176 | an object, string, number or boolean root gives no rows and does not throw |
| JsonTable.NormalizeFails | src/App.jsx:171-179 | the `try` body throws exactly when `JSON.parse` fails, the root is null, or the root is an array with a cell, under the keys of element 0, whose `String()` throws |
| JsonTable.CellThrows | src/App.jsx:175 | a cell throws exactly when its property is present, not null, and holds an object with an own `toString` |
| JsonTable.FileFailureFallback | src/App.jsx:178-179 | whenever the `try` body throws, the file becomes the one-row "Conteúdo" table holding its first 1000 characters |
| JsonTable.PastedFailureFallback | src/App.jsx:209-211 | whenever the `try` body throws, the pasted text becomes the table "JSON Inválido" with one "Conteúdo" cell holding the whole text |
| JsonTable.ThrowingCellFallback | src/App.jsx:175-179 | a file with text "t" that parses to `[{"a":{"toString":1}}]` gives the fallback table holding "t" |
| JsonTable.ToJsStringTotal | src/App.jsx:175 | `String(v)` throws exactly when some object inside `v` has an own `toString` member |
| JsonTable.ArrayOfArrays | src/App.jsx:173-175 | an array of arrays gets headers "0".."n-1", and each cell is the element at that index printed, or "" |
| JsonTable.ObjectRowCell | src/App.jsx:175 | an object row's cell under a header it has is that member printed |
| JsonTable.ObjectsExample | src/App.jsx:172-179 | `[{"x":1,"y":2},{"x":3}]` gives headers x, y and rows [1, 2], [3, ""] |
| SheetTable.CellString | src/App.jsx:76-77 | an empty cell prints as "" and a text cell as its text |
| SheetTable.SheetGridShape | src/App.jsx:75-77 | one header per cell of row 0, one row per later sheet row with as many cells, each cell its value printed |
| SheetTable.TextSheetRoundTrip | src/App.jsx:75-77 | a sheet of text cells reads back as exactly those texts, the first row as headers |
| PdfText.GroupLines | src/App.jsx:93-105 | the loop's lines are the page lines: one per group of fragments, joined by a space |
| PdfText.JoinGroupsSpec | src/App.jsx:99-105 | there is one line per group, and line k is the strings of group k joined by a single space |
| PdfText.GroupsAreLineGrouping | src/App.jsx:96-105 | the groups concatenate back to the fragments in order, no group holds a break of more than 5 between neighbours, and a break separates each group from the next |
| PdfText.PdfCellsClean | src/App.jsx:108-110 | every PDF cell is non-empty, trimmed and free of pipes, semicolons and tabs |
| PdfText.LinesGridSpec | src/App.jsx:112-117 | tabular exactly when the first line has more than one cell: then those headers and one row per later line; otherwise the "Conteúdo" header and one single-cell row per line |
| PdfText.PdfGrid | src/App.jsx:119-122 | when the PDF library throws, the table is the single "Conteúdo" header with the one row "Pré-visualização indisponível para este PDF" |
| PdfText.PdfPageGrid | src/App.jsx:93-117 | a readable page's table is built from a line grouping of its fragments: no fragments gives the "Conteúdo" header and no rows; otherwise tabular exactly when the first group's text has more than one cell, with one row per later group, else one rejoined row per group |
| Ingest.ParseFile | src/App.jsx:146-190 | a parsed file's table carries the file's name |
| Ingest.ParseAll | src/App.jsx:195 | the batch resolves exactly when every file does, with one table per file in selection order |
| Ingest.AcceptedBatch | src/App.jsx:133-196 | an accepted batch yields exactly one table per file, named after it and in order, with no file reaching the unprocessed-format branch |
| Relate.StrLessTransitive | src/App.jsx:236 | the column order is transitive |
| Relate.StrLessTotal | src/App.jsx:236 | any two distinct columns are ordered one way or the other |
| Relate.StrLessIrreflexive | src/App.jsx:236 | no column comes before itself |
| Relate.OccurrenceOfTable | src/App.jsx:226-231 | the visited (header, name) pairs are exactly those of some table |
| Relate.OccurrenceInTable | src/App.jsx:227-230 | the pairs one table contributes are exactly (h, its name) for each of its headers h |
| Relate.SharedHeaderHolders | src/App.jsx:226-234 | two differently named tables whose only header is c both end up in the set of c, in upload order |
| Relate.HoldersSpec | src/App.jsx:229-230 | a column's set lists each name once, and exactly the names met with that column |
| Relate.HoldersOfUnseen | src/App.jsx:229 | a header never met has no entry |
| Relate.ColumnsSpec | src/App.jsx:233 | the map's keys are distinct, and are exactly the headers met |
| Relate.HoldersAreHolders | src/App.jsx:225-234 | a relation's names are distinct, and are exactly the names of tables having that header |
| Relate.OneNameOneHolder | src/App.jsx:230 | when every table has the same name, a column has at most that one holder |
| Relate.AddOccurrence | src/App.jsx:228-230 | adding one header keeps the map equal to the column sets of everything visited |
| Relate.BuildColumnMap | src/App.jsx:225-232 | the two loops leave every header mapped to the set of names holding it |
| Relate.InsertSorted | src/App.jsx:236 | inserting a new column keeps the list sorted and adds exactly that relation |
| Relate.UsefulSorted | src/App.jsx:233-236 | the output is sorted with no column twice, and holds exactly the entries with at least 2 names |
| Relate.AutoRelate | src/App.jsx:222-238 | sorted, no column twice, every relation with at least 2 distinct names each holding the column, every column held by 2 distinct names present, and no relation when all tables share one name |
| Relate.AutoRelateAsWritten | src/App.jsx:227-231 | as written, the handler throws exactly when some header names an `Object.prototype` member, and otherwise agrees with the corrected one |
| Relate.ConstructorHeader | src/App.jsx:227-231 | two tables sharing the header "constructor": as written nothing is produced, corrected they are related |
| Preview.ProjectSpec | src/App.jsx:330-373 | a block shows the first min(5, number of rows) rows unchanged, counts them all, and has the "… mostrando 5 de N linhas" notice exactly when rows are hidden |
| Preview.Blocks | src/App.jsx:241 | the pasted tables come first, then the uploaded ones, one block each |
| SessionState.Without | src/App.jsx:342 | the filter keeps exactly the tables of other names |
| SessionState.WithoutConcat | src/App.jsx:342 | the filter works piecewise over a concatenation, so the kept tables stay in order |
| SessionState.WithoutIdempotent | src/App.jsx:342 | deleting a name twice is deleting it once |
| SessionState.WithoutAbsent | src/App.jsx:342 | deleting a name no table has changes nothing |
| SessionState.LastWith | src/App.jsx:39-41 | the index is the last table with that name, or -1 when there is none |
| SessionState.ColumnsByName | src/App.jsx:37-43 | every table name maps to the headers of the last table with that name, and nothing else is mapped |
| SessionState.Session.constructor | src/App.jsx:12-22 | the session starts with no tables, relations or mapping, and the message "Nenhum ficheiro selecionado" |
| SessionState.Session.Upload | src/App.jsx:128-197 | an empty selection changes nothing; an unsupported name only sets "Ficheiro não suportado"; otherwise the message is cleared and the batch is appended after the existing tables |
| SessionState.Session.ClearTables | src/App.jsx:317 | the uploaded tables are emptied and nothing else changes |
| SessionState.Session.DeleteTable | src/App.jsx:342 | every uploaded table with that name is removed and the rest kept; the mapping is untouched |
| SessionState.Session.SetMapping | src/App.jsx:430 | only that file's key of the mapping changes |
| SessionState.Session.ClearAllRelations | src/App.jsx:216-219 | relations and mapping are emptied and the tables are left as they are |
| SessionState.Session.SetJsonData | src/App.jsx:295 | the pasted text is replaced and nothing else changes |
| SessionState.Session.PreviewPastedJson | src/App.jsx:201-212 | the pasted table replaces the previous one, and nothing else changes |
| SessionState.Session.AutoRelate | src/App.jsx:222-238 | as written: when some header of the uploaded or pasted tables names an `Object.prototype` member the relations are left unchanged; otherwise they are the relations of those tables together, sorted by column |
| SessionState.Session.AutoRelateCorrected | src/App.jsx:222-238 | with a safely keyed column map: the relations of the uploaded and pasted tables together, sorted by column, whatever the header names |
| SessionState.Session.FileColumns | src/App.jsx:37-43 | the columns per name of the uploaded and pasted tables, the last table of a name winning |

## Left out

- Rendering, styling, navigation links, the collapsible panels (`expandedJson`, `showManual`, `showAdvanced`) and the inert advanced-relations panel: presentation only.
- `FileReader`, promises and `Promise.all` are modelled as a sequential map over already-read contents. A file whose read or decode never completes makes the whole batch append nothing. Concurrent batches are not modelled.
- `XLSX.read`/`sheet_to_json`, `pdfjsLib.getDocument`/`getTextContent` and `JSON.parse` are foreign code. Their results are inputs to the model: a sheet, the page's text fragments, a JSON value. Whether those inputs match the file bytes is not modelled.
- Sparse rows from `sheet_to_json` (holes that `map` skips) are modelled as empty cells printed as "".
- Numbers in JSON and spreadsheet cells are integers only. Floating-point values and their printing are not modelled.
- Text.IntToString: prints every integer in plain decimal digits. JavaScript's `String` switches to exponent form from 1e21 and holds integers exactly only up to 2^53, so the model agrees with it only below those bounds.
- JsonTable.Lookup: the model admits objects that repeat a key, which `JSON.parse` never yields (its last duplicate wins). Lookup takes the first member with the key and `Object.keys` would list such a key once, so the model agrees with the code only on objects without repeated keys, the only ones the parser produces.
- PDF `y` coordinates are integers; floating-point positions are not modelled.
- `toLowerCase` lower-cases ASCII letters only; other Unicode case mappings are not modelled.
- Relate.StrLess: code-point lexicographic order stands for `localeCompare`, whose locale collation is not modelled.
- String lengths count code points, not UTF-16 code units. This affects `text.slice(0, 1000)` on text outside the Basic Multilingual Plane.
- JsonTable.Property: only own members of objects, array elements, string characters and `length` are modelled. Inherited members such as `constructor` are not, so a header naming one reads as missing.
- Text.ParseIndex: array index keys ignore the 2^32 − 1 bound on array indices.
- `e.target.value = ""` resets the file input, a DOM side effect.
- The PDF.js worker set-up from a CDN is configuration.
- `tailwind.config.js` and `src/index.js` are not part of this model: build configuration and the React bootstrap.

## Findings

| source | as written | input that shows it | evidently intended | confidence | as-written member | corrected member |
|---|---|---|---|---|---|---|
| src/App.jsx:227-231 | `colMap` is a plain object, so `colMap[key]` finds inherited `Object.prototype` members. `!colMap[key]` is false for them, and `colMap[key].add(...)` throws a TypeError before `setRelations` | two tables `a.csv` and `b.csv`, both with the header `constructor` (likewise `toString`, `valueOf`, `__proto__`, …) | relate them like any other shared column, e.g. with a `Map` or `Object.create(null)` | high, not executed | Relate.AutoRelateAsWritten | Relate.AutoRelate |
