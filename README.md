# CSV ⇄ JSON converter front end: validation, row parsing and session state

This project models the core of a small React front end that converts files between CSV and JSON.
The model covers `src/App.jsx` and proves properties of it in Dafny. The front end does these things:

- It validates the selected file in the browser before any request. A CSV file must hold at least one newline, and its first ten data lines become a preview. A JSON file must parse to a non-empty array, and the whole array becomes the preview.
- It sends a validated file to a conversion service. The endpoint is chosen by the file name's suffix.
- It keeps the converted data and a download artifact.
- It holds all of this in separate state slots that its event handlers set one at a time.

The model has one module per concern:

| file | module | what it models |
|---|---|---|
| `wrappers.dfy` | `Wrappers` | `Option` (JavaScript's `null`) and `Result` (a value or a thrown error's message) |
| `js_strings.dfy` | `JsStrings` | the string built-ins the code relies on: `split` on one character, `trim` (ECMAScript's white-space set), `endsWith` |
| `json.dfy` | `Json` | a parsed JSON value and the outcome of `JSON.parse`, taken as given |
| `csv_rows.dfy` | `CsvRows` | the row builder shared by the CSV preview and the CSV response: split a line on commas, zip it with the header fields, trim keys and values, pad with `''` |
| `formats.dfy` | `Formats` | the two suffix tests (`.json` for validation, `.csv` for the endpoint and the download name), the endpoint and the download name |
| `validation.dfy` | `Validation` | the verdict of the file reader's `onload` callback: the CSV and JSON branches and their error messages |
| `conversion.dfy` | `Conversion` | what `handleConvert` makes of the service's reply: converted data, the artifact, or the error message |
| `app.dfy` | `App` | class `Session`: the `useState` slots as fields, and the handlers as methods that keep an invariant |

A row is a `map<string, string>`, because the source builds a plain object. So two headers that trim to the same name collapse, and the last one wins (`CsvRows.RowValue`).

A header that trims to `__proto__` produces no key. Assigning a string to that key of a plain object calls the prototype setter, which ignores the string. The model keeps this case (`CsvRows.RowKeys`).

The service's reply is an input to `Session.HandleConvert`. The request is that method's output: the endpoint it would post to, or none.

## Behaviour worth knowing

- The format is decided twice, by two different suffix tests. Validation tests for `.json` (src/App.jsx:44). The endpoint and the download name test for `.csv` (src/App.jsx:118, src/App.jsx:171). So `x.txt` and `report.CSV` are validated as CSV but sent to the json-to-csv endpoint (`Formats.FormatsAgreeIff`, `Formats.MismatchExamples`).
- The JSON error text asks for "an array of objects", but the check is only that the value is an array and is not empty (src/App.jsx:47-52). So `[1, 2]` is accepted (`Validation.JsonElementsNotChecked`).
- A failed conversion sets `serverError` only (src/App.jsx:158-160). The earlier `convertedData` and `downloadUrl` stay as they were (`App.Session.HandleConvert`).
- `handleFileChange` does not touch `validationStatus` (src/App.jsx:84-94), so the previous verdict stands until the new `onload` fires (`App.Session.HandleFileChange`). The upload component hides the file input while a file is selected. The user must therefore remove the file first, and removing it does reset the verdict.
- The CSV response parser reads every line of the reply. A reply that ends in a newline gets a last row of empty strings (`Conversion.TrailingNewlineRow`).

## Model

| member | source | states |
|---|---|---|
| `JsStrings.Split` | src/App.jsx:58 | splitting on one character gives one piece more than there are separators, and no piece holds the separator |
| `JsStrings.JoinSplit` | src/App.jsx:58 | joining the pieces of a split with the same separator gives back the original text |
| `JsStrings.SplitJoin` | src/App.jsx:58 | splitting lines that were joined by newlines, none of them holding a newline, gives back exactly those lines |
| `JsStrings.EndsWith` | src/App.jsx:44 | `endsWith`, case-sensitive; the lemmas `Formats.SuffixesExclusive` and `Formats.MismatchExamples` state that no name ends in both `.json` and `.csv` and that `report.CSV` does not end in `.csv` |
| `JsStrings.TrimStart` | src/App.jsx:66 | the leading half of `trim`; `TrimStartShape` pins it down as the longest suffix that does not start with white space |
| `JsStrings.TrimEnd` | src/App.jsx:66 | the trailing half of `trim`; `TrimEndShape` pins it down as the longest prefix that does not end with white space |
| `JsStrings.Trim` | src/App.jsx:66 | `trim` over ECMAScript's WhiteSpace and LineTerminator set; `TrimShape` (the unique white-space-free slice), `TrimIdempotent` and `TrimEmptyIff` carry its contract |
| `JsStrings.TrimStartShape` | src/App.jsx:66 | removing leading white space leaves the longest suffix that does not start with white space, and everything removed is white space |
| `JsStrings.TrimEndShape` | src/App.jsx:66 | removing trailing white space leaves the longest prefix that does not end with white space, and everything removed is white space |
| `JsStrings.TrimShape` | src/App.jsx:66 | a trimmed text is a slice of the original with only white space on either side, and it neither starts nor ends with white space |
| `JsStrings.TrimIdempotent` | src/App.jsx:66 | trimming twice gives the same result as trimming once |
| `JsStrings.TrimEmptyIff` | src/App.jsx:66 | a field trims to the empty string exactly when it is all white space |
| `CsvRows.RowUpTo` | src/App.jsx:65-68 | the `reduce` accumulator after the first n headers; `RowUpToKeys`, `RowUpToValue`, `DistinctKeyCount` and `RowDependsOnFields` state its keys, its values and its size by induction on n |
| `CsvRows.BuildRow` | src/App.jsx:65-68 | the whole `reduce` from `{}` over one line's fields; `RowKeys`, `RowValue`, `RowZip`, `ExtraFieldsDropped` and `MissingFieldsEmpty` carry its contract |
| `CsvRows.LineRow` | src/App.jsx:64-68 | the row of one text line, split on commas; `EmptyLineRow` and `ShortLineExample` carry its contract |
| `CsvRows.RowsOf` | src/App.jsx:63-69 | the `map` over lines: one row per line, in order, each the row of that line; `Validation.CsvPreviewOfLines` and `Conversion.CsvResponseOfLines` build on it |
| `CsvRows.RowKeys` | src/App.jsx:65-68 | a row's keys are exactly the trimmed header names, leaving out `__proto__` |
| `CsvRows.RowValue` | src/App.jsx:65-68 | under each header name is the trimmed field at the position of the last header with that name, or `''` when the line is shorter |
| `CsvRows.RowZip` | src/App.jsx:62-68 | with distinct header names a row has exactly one key per header, each holding the trimmed field at that position or `''` |
| `CsvRows.RowDependsOnFields` | src/App.jsx:64-66 | a row depends only on the trimmed fields at header positions |
| `CsvRows.ExtraFieldsDropped` | src/App.jsx:64-66 | fields beyond the header count are dropped |
| `CsvRows.MissingFieldsEmpty` | src/App.jsx:66 | a short line gives the same row as that line padded with empty fields |
| `CsvRows.EmptyLineRow` | src/App.jsx:142-148 | an empty line gives a row whose every value is `''` |
| `CsvRows.ShortLineExample` | src/App.jsx:62-68 | headers `name,age` and the line `Alice` give `{name: "Alice", age: ""}` |
| `Formats.ValidationFormat` | src/App.jsx:44 | the branch `onload` takes: JSON exactly when the name ends in `.json`, CSV otherwise |
| `Formats.SourceFormat` | src/App.jsx:118-132 | the branch `handleConvert` takes: CSV exactly when the name ends in `.csv`, JSON otherwise; `FormatsAgreeIff` relates it to `ValidationFormat` |
| `Formats.FormatsAgreeIff` | src/App.jsx:44-120 | the validation format and the conversion format agree exactly for names ending in `.json` or `.csv`; any other name is validated as CSV and converted as JSON |
| `Formats.SuffixesExclusive` | src/App.jsx:44-118 | no name ends in both `.json` and `.csv` |
| `Formats.MismatchExamples` | src/App.jsx:44-120 | `x.txt` and `report.CSV` are validated as CSV and converted as JSON, because the suffix test is case-sensitive |
| `Formats.EndpointFor` | src/App.jsx:118-120 | the csv-to-json endpoint is chosen exactly for names ending in `.csv`; every other name gets json-to-csv |
| `Formats.DownloadName` | src/App.jsx:171 | the download is named `converted.json` exactly for a `.csv` file, and `converted.csv` otherwise |
| `Validation.Validate` | src/App.jsx:43-78 | the `onload` try/catch: the preview or the thrown message; `ValidateFollowsSuffix`, `JsonElementsNotChecked` and `CsvEndToEndExample` carry its contract |
| `Validation.ValidateFollowsSuffix` | src/App.jsx:44-61 | only a `.json` name gets a JSON preview and its verdict ignores the text; any other name is judged on its text alone, and refused with "CSV must have headers and at least one row" exactly when the text holds no newline |
| `Validation.CsvPreview` | src/App.jsx:58-69 | the CSV branch; `CsvRejectedIffNoNewline`, `CsvPreviewOfLines`, `CsvPreviewSize` and `HeaderWithTrailingNewline` carry its contract |
| `Validation.JsonPreview` | src/App.jsx:44-55 | a parse error passes on its message; a non-array fails with "JSON must be an array of objects"; an empty array fails with "JSON array is empty"; any other array succeeds, and the preview is the whole array, untruncated |
| `Validation.JsonElementsNotChecked` | src/App.jsx:44-53 | a `.json` file whose array holds any elements, objects or not, is valid, with the whole array as its preview |
| `Validation.CsvRejectedIffNoNewline` | src/App.jsx:58-61 | CSV content fails with "CSV must have headers and at least one row" exactly when it contains no newline |
| `Validation.CsvPreviewOfLines` | src/App.jsx:58-69 | for a header line and data lines joined by newlines, the preview holds the rows of the first ten data lines, in file order, each zipped with the header fields |
| `Validation.CsvPreviewSize` | src/App.jsx:63 | an accepted CSV preview has min(10, number of newlines) rows |
| `Validation.HeaderWithTrailingNewline` | src/App.jsx:58-69 | a header line followed by a single newline is accepted, with one preview row whose values are all `''` |
| `Validation.CsvEndToEndExample` | src/App.jsx:44-73 | `data.csv` holding `a,b\n1,2\n3,4` is valid, with the preview `[{a:"1",b:"2"},{a:"3",b:"4"}]` |
| `Conversion.MimeType` | src/App.jsx:137-149 | the Blob's type; `OutcomeFormats` and `App.Session.HandleDownload` state that it is `application/json` exactly for a download named `converted.json` |
| `Conversion.NullReadMessage` | src/App.jsx:128-135 | the TypeError thrown on reading `error` or `data` of a `null` body; `ServiceErrorMessage` and `OutcomeFormats` state when it is the stored error and that it is never empty |
| `Conversion.Outcome` | src/App.jsx:117-160 | the `handleConvert` try/catch: converted data and artifact, or the stored error; `OutcomeFormats` and `NotOkFails` carry its contract |
| `Conversion.CsvResponseRows` | src/App.jsx:141-148 | the json-to-csv branch's rows; `CsvResponseOfLines`, `CsvResponseSize`, `TrailingNewlineRow` and `PreviewIsResponsePrefix` carry its contract |
| `Conversion.CaughtMessage` | src/App.jsx:158-160 | the stored server error is never empty: it is the thrown message, or "Failed to connect to server. Please try again." exactly when that message is empty |
| `Conversion.ServiceErrorMessage` | src/App.jsx:127-130 | a non-ok reply's error is the body's non-empty `error` string; it is "Conversion failed" when the body is not an object, has no `error`, or has an `error` that is empty or not a string; a `null` body throws the TypeError for reading `error`; a body that is not JSON passes on the parser's message |
| `Conversion.NotOkFails` | src/App.jsx:127-130 | a non-ok reply fails whatever its body, with the service's `error` string when present and "Conversion failed" when absent |
| `Conversion.OutcomeFormats` | src/App.jsx:117-151 | a successful conversion of a `.csv` file yields JSON data and a JSON artifact, any other name yields CSV; the download name's extension agrees with the artifact's MIME type; every failure carries a non-empty message |
| `Conversion.CsvResponseOfLines` | src/App.jsx:141-148 | the CSV reply gives one row per line after the header line, with no ten-row cap and no error when there is no data line |
| `Conversion.CsvResponseSize` | src/App.jsx:142 | the CSV reply gives one row per newline in its text |
| `Conversion.TrailingNewlineRow` | src/App.jsx:141-148 | a CSV reply ending in a newline gets an extra last row whose values are all `''` |
| `Conversion.PreviewIsResponsePrefix` | src/App.jsx:58-148 | for accepted CSV, the input preview is the first min(10, newlines) rows that the response parser would build; refused CSV gives the response parser no rows |
| `App.Session.constructor` | src/App.jsx:10-19 | every slot starts `null` and `loading` starts false |
| `App.Session.OnLoad` | src/App.jsx:40-79 | a valid file sets status `valid`, clears the error and stores the preview; any thrown error sets status `invalid`, stores its message and clears the preview; nothing else changes |
| `App.Session.HandleFileChange` | src/App.jsx:84-94 | with no file selected nothing changes; otherwise the file is stored and the converted data, download, server error and success message are cleared; the verdict is left as it was |
| `App.Session.HandleFileRemove` | src/App.jsx:96-105 | the file, verdict, error, preview, converted data, download, server error and success message all return to `null` |
| `App.Session.HandleConvert` | src/App.jsx:107-164 | without a selected file whose status is `valid`, nothing changes and no request is made; otherwise the request goes to the endpoint the name selects; a success stores the data, the download and the success message and triggers a history refresh; a failure stores the error and keeps the previous result; `loading` ends false; the invariant holds throughout |
| `App.Session.SuccessMessageExpired` | src/App.jsx:155 | the timer clears the success message and keeps the invariant |
| `App.Session.HandleDownload` | src/App.jsx:166-175 | there is no download without a download link; otherwise the file is named after the selected file's suffix, and its extension agrees with the artifact's MIME type in every state reached when each conversion completes before the next event |

## Left out

- Network I/O is not modelled: `fetch`, `FormData` and the base URL taken from the build environment. The reply to a conversion is an input to `HandleConvert`, and the request it makes is its output.
- `fetchHistory` and the `conversionHistory` slot are left out, because they are only a network read and a display. `HandleConvert` returns whether a history refresh is triggered.
- The asynchrony of `FileReader` is not modelled. `OnLoad` is a transition of its own and accepts a verdict for any file, as the source does. No ordering between a selection and a late `onload` is claimed.
- `HandleConvert` is one atomic transition. The intermediate state during the await, with `loading` true, is not observable. Nor is a file removed during that await. In the source, a removal alone can leave a download link with no file behind it. A removal followed by a new selection pairs the old result with the new file, so the download name and the MIME type can disagree: a pending `a.csv` conversion stores JSON, and the download of the newly selected `b.json` is named `converted.csv`.
- The internals of `JSON.parse` and `JSON.stringify` are not modelled. A parse outcome is given with each file and each reply, and JSON numbers are kept as text.
- `Blob`, `URL.createObjectURL` and the anchor click are browser effects. The download link is modelled as the artifact it points to.
- `setTimeout` is a timer. `SuccessMessageExpired` is the transition it fires, at any time.
- JSX rendering and the components under `src/components/` are display-only.
- A row is a map, so the key order of a JavaScript object is not modelled. That order lists integer-like keys first.
- `Conversion.ServiceErrorMessage` treats an `error` member that is not a string as absent. The source would turn a truthy non-string into its string form, and number formatting is not modelled.
- `Conversion.NullReadMessage` uses V8's wording for the TypeError raised when reading a member of `null`. Other engines word it differently.
