# CSV file viewer: stored names, comparator and selection, in Dafny

This project models the statable core of a small CSV viewer, a web app that
uploads CSV files, stores them on the server, lists them and shows one as a table.
The core has four parts:

- **The stored-name scheme.** The server stores each upload as
  `<decimal upload time>-<original name>`. The file list reads that name back two
  ways: the time text is everything before the first hyphen, and the display name
  is `split("-").slice(1).join()`.
- **The table comparator.** `getComparator` picks a numeric or a locale-text
  comparison on one column. For the descending direction it swaps the operands.
  `columnIsNumeric` classifies a column by its first row.
- **File selection.** `onFileChange` turns fetched rows into the selected file, or
  keeps the previous selection when anything fails.
- **The server's status decisions.** These are the responses of the upload, the
  file-listing and the file-data routes, decided over the outcomes of the
  file-system calls.

Everything is pure: datatypes, functions and lemmas. The files are:

- `js_text.dfy`: `JsText`. It holds the JavaScript
  string built-ins the scheme relies on. These are `split` with a one-character
  separator, `join`, a character replacement, and the decimal text of a
  non-negative integer together with its inverse.
- `js_values.dfy`: `JsValues` and `Http`. `JsValues` holds cell values, row
  objects, `row[key]`, `Object.keys`, `Number(v)`, `String(v)`, numbers that may be
  NaN, and how `Array.prototype.sort` reads a comparator's result. `Http` holds the
  response values.
- `server.dfy`: `Wrappers` (Option) and `Server`, modelling src/server/main.ts.
- `client.dfy`: `Client`, modelling src/client/App.tsx.
- `end_to_end.dfy`: `EndToEnd`. Its lemmas connect the two source files: what the
  client makes of the names and responses the server produces.

Inputs that come from outside the program are parameters:

- the clock reading `Date.now()` (`now: nat`);
- the outcome of the file-system calls (`DirListing`, `FileLookup`);
- the rows the CSV decoder produces;
- the outcome of `fetch` (`DataFetch`);
- `Number()` on a string (`parseNumber`);
- `String.prototype.localeCompare` (`localeCompare`).

Where the code departs from what it evidently means to do, the model follows
the code and records the departure under "## Findings". `getFileName`, which its
comment says "returns the file name", in fact turns every hyphen of the original
name into a comma. `columnIsNumeric` tests `instanceof Number`, which no value
decoded from JSON satisfies.

## Model

| member | source | states |
|---|---|---|
| `JsText.Split` | src/client/App.tsx:285 | `split("-")` yields at least one piece. No piece contains the separator. The first piece is the prefix of the string up to the first separator, or the whole string when there is none |
| `JsText.Join` | src/client/App.tsx:285 | `join` of no parts is ""; a character in no part and not in the separator is not in the result |
| `JsText.SplitWithoutSeparator` | src/client/App.tsx:285 | a string without the separator splits into exactly one piece, the string itself |
| `JsText.SplitAtFirst` | src/client/App.tsx:285 | splitting `a + sep + b`, where `a` has no separator, gives `a` followed by the pieces of `b` |
| `JsText.JoinSplitReplaces` | src/client/App.tsx:285 | splitting at one character and joining with another replaces every occurrence of the first with the second |
| `JsText.JoinSplitRoundTrip` | src/client/App.tsx:285 | splitting and joining with the same character gives the string back |
| `JsText.ReplaceCharIdentityIff` | src/client/App.tsx:285 | replacing a character with a different one leaves a string unchanged iff the character does not occur in it |
| `JsText.Decimal` | src/server/main.ts:19 | the decimal text of the upload time is non-empty, all digits (so it has no hyphen), and starts with '0' only when it is "0", for time 0 |
| `JsText.DecimalRoundTrip` | src/client/App.tsx:279 | reading the decimal text back as a number gives the time back |
| `JsText.DigitsValue` | src/client/App.tsx:279 | reference value of a digit string, the inverse of `Decimal` (see `DecimalRoundTrip`); it is 0 exactly when every digit is 0 |
| `JsText.DecimalInjective` | src/server/main.ts:19 | two times have the same decimal text iff they are equal |
| `JsValues.Sub` | src/client/App.tsx:296 | `x - y`: a number exactly when both operands are numbers, and then the difference |
| `JsValues.SortOrder` | src/client/App.tsx:294-312 | how `sort` reads a comparator's result: negative, positive or (for 0 and NaN) a tie |
| `JsValues.IntText` | src/client/App.tsx:300 | `String(n)` for a whole number below 2^53 in magnitude: non-empty, digits after a leading "-" that appears exactly when n is negative |
| `JsValues.IntTextRoundTrip` | src/client/App.tsx:300 | reading the digits of `String(n)` back gives the magnitude of n |
| `JsValues.Keys` | src/client/App.tsx:95 | `Object.keys(row)`: one name per field, in field order |
| `JsValues.Get` | src/client/App.tsx:296 | `row[key]`: `undefined` when the row has no such field, otherwise a value stored under that key |
| `JsValues.ToNumber` | src/client/App.tsx:296 | `Number(v)`: `undefined` gives NaN, null gives 0, booleans give 1 and 0, numbers and `Number` objects give their value; only `undefined` and strings can give NaN |
| `JsValues.ToText` | src/client/App.tsx:300 | `String(v)`: a missing cell reads as "undefined", a text that only the string "undefined" shares with it |
| `JsValues.TransportValue` | src/server/main.ts:73 | a defined value after the JSON round trip is a JSON value; a JSON value arrives unchanged; a `Number` object arrives as its number |
| `JsValues.TransportRow` | src/server/main.ts:73 | a row after `res.json` and `response.json()`: every value is a JSON value; its fields are exactly the defined fields of the row, each with its transported value; a row of JSON values arrives unchanged |
| `JsValues.TransportFieldsConcat` | src/server/main.ts:73 | transporting a concatenation of fields transports each part, so the kept fields stay in their order |
| `JsValues.TransportRows` | src/server/main.ts:73 | the row array after the JSON round trip: same length and order, each row transported, unchanged when every row holds JSON values |
| `Http.IsOk` | src/client/App.tsx:83 | `response.ok`: a status in the 200 range, so none of the server's error statuses 400, 404 and 500 is ok |
| `Server.StoredName` | src/server/main.ts:18-20 | the stored name has length `len(decimal(now)) + 1 + len(originalname)`, ends with the original name, and its first hyphen-separated piece is the decimal time |
| `Server.StoredNameInjective` | src/server/main.ts:19 | two uploads get the same stored name iff their times and original names are both equal: equal inputs collide, different times never do |
| `Server.UploadResponse` | src/server/main.ts:28-35 | a 2xx status iff the request carried a file; no file gives 400 "No file uploaded"; a file gives 200 "File uploaded successfully" |
| `Server.FileNamesResponse` | src/server/main.ts:41-51 | a 2xx status iff the directory was read; a read error gives 500 "Error reading files"; otherwise the listing is returned unchanged |
| `Server.FileDataResponse` | src/server/main.ts:54-76 | an inaccessible path gives 404 "File not found" and nothing else does; a read failure gives 500 "Error reading file" and nothing else does; decoded rows give a 2xx status with the rows in order |
| `Client.TimestampText` | src/client/App.tsx:278-281 | the text handed to `Number` is a hyphen-free prefix of the name that ends at the first hyphen or at the end of the name |
| `Client.TimestampTextUnique` | src/client/App.tsx:279 | a string with those three properties is the time text: the time text is exactly the part of the name before the first hyphen |
| `Client.GetFileNameWithoutHyphen` | src/client/App.tsx:284-286 | a name without a hyphen is displayed as the empty string |
| `Client.GetFileNameAfterFirstHyphen` | src/client/App.tsx:284-286 | for a name with a hyphen, the display name is the text after the first hyphen with every further hyphen turned into a comma |
| `Client.GetFileName` | src/client/App.tsx:284-286 | `split("-").slice(1).join()`: no hyphen survives into the display name (characterised further by the two lemmas below) |
| `Client.GetFileNameIntended` | src/client/App.tsx:284-286 | with `join("-")`, the display name is exactly the text after the first hyphen, or empty when there is no hyphen |
| `Client.ColumnIsNumeric` | src/client/App.tsx:288-290 | `data[0]?.[colName] instanceof Number`: true only when the dataset is non-empty and its first row has the column |
| `Client.ColumnIsNumericFirstRowOnly` | src/client/App.tsx:288-290 | an empty dataset has no numeric column; datasets whose first rows agree in the column are classified alike |
| `Client.ColumnIsNumericNeverOnJson` | src/client/App.tsx:288-290 | on rows decoded from JSON the classification is always false |
| `Client.ColumnIsNumericMissesJsonNumbers` | src/client/App.tsx:289 | a first-row JSON number 5 is classified as text as written, and as numeric by the intended rule |
| `Client.ColumnIsNumericIntended` | src/client/App.tsx:288-290 | intended rule: a JSON number in the first row makes the column numeric; a column the first row lacks, or an empty dataset, makes it text |
| `Client.ColumnIsNumericIntendedExample` | src/client/App.tsx:289 | under the intended rule, the dataset `[{x:"5"},{x:"abc"}]` is numeric, because only the first row counts |
| `Client.CellCompare` | src/client/App.tsx:294-302 | the base comparison of two cells: the text comparison is never NaN; the numeric one is NaN exactly when one of the cells coerces to NaN |
| `Client.GetComparator` | src/client/App.tsx:292-315 | ascending compares the two rows' cells in the column with the base comparison; descending compares them with the operands swapped; the numeric subtraction is used iff `isNumeric`, and otherwise the locale comparison of the cells' texts |
| `Client.DescendingSwapsOperands` | src/client/App.tsx:306-312 | `getComparator(c, n, false)(a, b) == getComparator(c, n, true)(b, a)` for all rows |
| `Client.ComparatorReadsOnlyColumn` | src/client/App.tsx:294-302 | rows that agree in the column compare alike, whatever their other fields hold |
| `Client.DescendingReversesAscending` | src/client/App.tsx:304-314 | if the ascending comparator is antisymmetric, so is the descending one, and it reverses every verdict of the ascending one |
| `Client.NumericComparatorAntisymmetric` | src/client/App.tsx:295-297 | the numeric comparator is antisymmetric in both directions as the sort reads it: a NaN result reads as a tie both ways |
| `Client.TextComparatorAntisymmetric` | src/client/App.tsx:299-301 | the text comparator is antisymmetric whenever the sign of the locale comparison flips with its operands |
| `Client.NumericComparatorTransitiveOnNumbers` | src/client/App.tsx:295-297 | on rows whose cells are numbers, the numeric comparator's "not after" verdict is transitive |
| `Client.NaNCellBreaksTransitivity` | src/client/App.tsx:295-297 | a missing cell ties with 1 and with 2 while 1 sorts before 2, so the sort gets no consistent order |
| `Client.Accepted` | src/client/App.tsx:83-92 | a fetch that `onFileChange` accepts got a response with a JSON, non-empty array body, and none of the server's error statuses 400, 404 and 500 |
| `Client.OnFileChange` | src/client/App.tsx:80-103 | every failure keeps the previous selection: no response, a non-2xx status, a body that is not JSON, or an empty array. Otherwise the column names are the keys of the first row and the rows are kept in the same order |
| `Client.SelectionColumnsAreFirstRowFields` | src/client/App.tsx:94-97 | after a selection, the column names are exactly the field names of the first row |
| `EndToEnd.TimestampOfStoredName` | src/server/main.ts:19 | the time text of a stored name is the decimal upload time, and reading it as a number gives the upload time back |
| `EndToEnd.TimestampNumberOfStoredName` | src/client/App.tsx:279 | if `Number` agrees with the digit-string value on digit strings below 2^53, the number parsed from a stored name's time text is the upload time, for every time a `Date` can hold |
| `EndToEnd.DisplayNameOfStoredName` | src/client/App.tsx:285 | the display name of a stored name is the original name with every hyphen replaced by a comma |
| `EndToEnd.DisplayNameRoundTripIff` | src/client/App.tsx:284-286 | the display name of a stored name equals the original name iff the original name has no hyphen |
| `EndToEnd.HyphenatedNameListedWithComma` | src/client/App.tsx:285 | an original name `before-after` (such as "my-data.csv") is listed as `before,after`, which differs from it |
| `EndToEnd.IntendedDisplayNameRoundTrip` | src/client/App.tsx:285 | with `join("-")`, the display name of every stored name is its original name |
| `EndToEnd.Delivered` | src/server/main.ts:73 | the response as the client's `response.json()` sees it: same status, text bodies unchanged, row bodies after the JSON round trip |
| `EndToEnd.SelectThroughFileData` | src/server/main.ts:59-75 | selecting through the file-data route: a missing or unreadable file keeps the previous selection, and so does an empty file; non-empty decoded rows become the selection as the JSON round trip delivers them |
| `EndToEnd.SelectThroughFileDataJsonRows` | src/client/App.tsx:94-97 | rows made of JSON values arrive unchanged, so the selection holds exactly the decoded rows and its columns are the first row's keys |
| `EndToEnd.UndefinedCellDroppedInTransit` | src/server/main.ts:73 | a decoded first row `{a: undefined}` reaches the client as `{}`, so the selection has no columns |
| `EndToEnd.UnknownFileKeepsSelection` | src/server/main.ts:61-64 | a file the server does not know (404) leaves the previous selection in place |

## Left out

- React components, rendering, contexts and hooks (`App`, `FileInputCard`, `FileInfoCard`, `DataTable*`). These are presentation. Their `useState` state (`storedFiles`, `selectedFile`, `selectedColumn`) is not modelled as state; `OnFileChange` gives the next value of `selectedFile`. The only variable mutated in place is the row counter in `FileInfoCard`.
- `onFileUpload`, `loadStoredFiles` and the initial `useEffect` on the client. These are network glue outside the modelled core.
- `fetch`, `async`/`await`, `FormData` and `response.json()`. Their outcomes are inputs (`DataFetch`). A text body counts as not JSON, which holds for every message the server sends.
- Express routing, multer's disk storage, `fs.access`, `fs.readFile`, `fs.readdir`, `ViteExpress.listen` and the logging. Only the decisions over their outcomes are modelled. The upload directory path is not modelled.
- The CSV decoder `csv2json`. It is a foreign library, so its rows are taken as given. If it rejects inside the `async` read callback, the rejection is never handled: no response is sent, and under Node's default handling of unhandled rejections the server process ends. That case is not modelled.
- `new Date(...).toLocaleString()` in `getTimeString`. It is locale and clock formatting. The model stops at the time text and at reading a digit string as its value.
- `Number()` on an arbitrary string. It is floating-point parsing, so it is the parameter `parseNumber`. `DigitsValue` is a separate reference definition for digit strings; the two are tied only by the hypothesis of `EndToEnd.TimestampNumberOfStoredName`.
- JSON transport: `JsValues.TransportRow` models what `JSON.stringify` drops or rewrites in the value kinds modelled here (`undefined` fields, `Number` objects); field-order rewriting and other value kinds are not modelled.
- `String.prototype.localeCompare`. It is locale dependent, so it is the parameter `localeCompare`.
- Client.GetComparator: numbers are whole numbers. Floating-point subtraction, rounding, Infinity and -0 are not modelled. NaN is modelled.
- Server.StoredName: the time is a non-negative integer. A clock before 1970 is not modelled. `Decimal` is the exact decimal text of the time; JavaScript is guaranteed to write exact digits below 2^53, and `Date.now()` never exceeds 8.64e15, which is below that.
- JsValues.IntText: it writes every digit of any whole number. JavaScript's `String(n)` is guaranteed exact only below 2^53 (`String(2**60)` is "1152921504606847000"), and from 1e21 up it uses exponent notation ("1e+21"). Neither is modelled.
- JsValues.Get: only the row's own fields are modelled. `row[key]` also finds names inherited from `Object.prototype` (`toString`, `constructor`, `valueOf`, `__proto__`), for which the model gives `undefined`. A column comes from `Object.keys` of the first row, so it is an own field there; the model can differ only on another row that lacks that field.
- Row field order: fields are held in the order `Object.keys` lists them. The rule that integer-like keys come first, and duplicate keys in the JSON text, are not modelled. Cells holding nested objects or arrays are not modelled either.
- There is no event stream, delete route, in-place sort or header-click toggling in the code, so nothing models them.
- src/client/main.tsx. It is React bootstrapping plus an unused second express stub.

## Findings

| source | as written | input that shows it | evidently intended | confidence | as-written member | corrected member |
|---|---|---|---|---|---|---|
| src/client/App.tsx:285 | `split("-").slice(1).join()` joins with the default separator "," | upload "my-data.csv": the list shows "my,data.csv" | `join("-")`, so the list shows the original name | medium; not executed | `EndToEnd.HyphenatedNameListedWithComma` | `EndToEnd.IntendedDisplayNameRoundTrip` |
| src/client/App.tsx:289 | `data[0]?.[colName] instanceof Number`, which is true only for a `Number` object | `[{x: 5}]` decoded from JSON: column x is classified as text | numeric iff `Number(data[0][colName])` is not NaN | medium; not executed | `Client.ColumnIsNumericMissesJsonNumbers` | `Client.ColumnIsNumericIntended` |
