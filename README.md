# CSV event import, modelled in Dafny

This project models the CSV import of an event timeline application. The model covers:

- the form request that guards the upload;
- the import service, which parses the file, checks its first row and processes every data row inside one transaction;
- the two controller endpoints that report a file's line count and answer an import with a JSON message.

Both endpoints sit behind the form request. A request that fails its checks is answered with the request's messages, and the controller does not run.

A file has a header line and rows of the form `name;description;date;tags`. Each valid row creates one event dated `YYYY-MM-DD`, unless an event with the same name on the same day is already stored. The row's comma-separated tags are looked up ignoring case, and a tag that is missing is created with a random palette colour. A failing row does not stop the import. It adds an entry `Ligne N: <message>` to the report.

The files are:

- `wrappers.dfy`: `Option` and `Result`.
- `php.dfy`: the PHP built-ins the code relies on. These are `trim`, `explode`/`implode`, `empty` on strings, ASCII `LOWER`, integers written into strings, and the way `fgets` cuts a file into lines.
- `dates.dfy`: strict `Y-m-d` dates.
- `uploads.dfy`: the uploaded file.
- `persistence.dfy`: events, tags, and the store, a class updated in place.
- `import_csv_request.dfy`: the validation rules, their messages, and the after-hook.
- `csv_import_service.dfy`: each step of the service twice. A function on a snapshot of the store is the specification. A method works on the store and is proved to agree with it. The parse is the code as written, with its ceiling on physical line numbers.
- `csv_import_properties.dfy`: what the service promises, proved about those functions.
- `event_controller.dfy`: `countCsvLines`, `validateCsvImport` and `importCsv`.
- `accepted_files.dfy`: what the import does with a file the request accepts.
- `row_ceiling_finding.dfy`: the row-ceiling discrepancy listed under Findings. It holds a file that shows it, and the corrected parse and import with what is proved about them.

A failing row is reported at its position among the kept rows plus 2, not at its physical line: blank lines are dropped before rows are numbered.

## Model

| member | source | states |
|---|---|---|
| ImportCsvRequest.FailedRulesMessages | app/Http/Requests/ImportCsvRequest.php:23-46 | a message is recorded exactly when some rule fails and that rule's custom message is it, in both directions |
| ImportCsvRequest.FailedRulesAppend | app/Http/Requests/ImportCsvRequest.php:25-31 | the rules are applied in their declared order: the messages of a list are those of its first part, then those of the rest |
| ImportCsvRequest.FailedRules | app/Http/Requests/ImportCsvRequest.php:23-46 | no more messages than rules, and none exactly when every rule holds |
| ImportCsvRequest.RuleErrors | app/Http/Requests/ImportCsvRequest.php:23-46 | a missing file gets only "Un fichier CSV est requis."; a failed upload gets only the upload-failed message; otherwise the size message when it exceeds 10240 KB, then the type message when its guessed extension is not csv or txt; no message exactly when the upload succeeded within both |
| ImportCsvRequest.ShapeError | app/Http/Requests/ImportCsvRequest.php:64-100 | no message exactly when the first line is truthy, its trimmed text has 4 `;`-separated columns, and 1 to 1000 lines follow it |
| ImportCsvRequest.RowCountError | app/Http/Requests/ImportCsvRequest.php:89-100 | the line-count checks pass exactly when 1 to 1000 lines follow the header |
| ImportCsvRequest.AfterHookError | app/Http/Requests/ImportCsvRequest.php:51-103 | the hook adds nothing exactly when no uploaded file is present, or the file opens and is well shaped |
| ImportCsvRequest.ErrorBag.Add | app/Http/Requests/ImportCsvRequest.php:60 | the message is appended to the bag |
| ImportCsvRequest.AfterHook | app/Http/Requests/ImportCsvRequest.php:53-102 | the bag gains exactly the hook's one message, if any |
| ImportCsvRequest.CheckShape | app/Http/Requests/ImportCsvRequest.php:64-100 | reading the first line, splitting it, then counting the remaining lines one by one adds exactly ShapeError's message |
| ImportCsvRequest.Validate | app/Http/Requests/ImportCsvRequest.php:23-103 | the errors are the rules' messages followed by the hook's; they are empty exactly when a file is present, passes every rule and is well shaped |
| ImportCsvRequest.PassingFileShape | app/Http/Requests/ImportCsvRequest.php:58-100 | an uploaded file passes the hook exactly when it opens, its first line is truthy with 4 columns, and 1 to 1000 lines follow |
| ImportCsvRequest.FalsyFirstLine | app/Http/Requests/ImportCsvRequest.php:64-69 | an empty file, or one holding just "0", gets the empty-file message |
| ImportCsvRequest.ColumnsCheckedFirst | app/Http/Requests/ImportCsvRequest.php:72-77 | a bad column count is reported with the count found, whatever the file's length |
| ImportCsvRequest.DataLineCount | app/Http/Requests/ImportCsvRequest.php:83-90 | the data-line count is one per line feed, plus one for an unterminated last line, minus the header; blank lines are counted |
| ImportCsvRequest.TooManyLinesReported | app/Http/Requests/ImportCsvRequest.php:89-94 | with a good header, more than 1000 following lines are reported with their count, before the minimum is checked |
| ImportCsvRequest.TooFewLinesReported | app/Http/Requests/ImportCsvRequest.php:96-99 | a truthy 4-column header with no line after it gets the minimum-rows message |
| ImportCsvRequest.ColumnsMessageNamesCount | app/Http/Requests/ImportCsvRequest.php:74 | different column counts give different messages |
| ImportCsvRequest.TooManyRowsMessageNamesCount | app/Http/Requests/ImportCsvRequest.php:92 | different line counts give different messages |
| ImportCsvRequest.HeaderColumnsCountsSemicolons | app/Http/Requests/ImportCsvRequest.php:72-73 | the column count is one more than the number of `;` in the trimmed first line |
| Php.TrimStart | app/Services/CsvImportService.php:126-129 | trim() (Trim) removes from the front exactly the leading spaces, tabs, line feeds, carriage returns, NULs and vertical tabs, and leaves a visible first character |
| Php.TrimEnd | app/Services/CsvImportService.php:126-129 | trim() removes from the back exactly the trailing whitespace characters it strips, and leaves a visible last character |
| Php.NatToString | app/Services/CsvImportService.php:113 | a number is written as decimal digits without leading zeros |
| Php.TrimIdempotent | app/Services/CsvImportService.php:126-129 | trimming a trimmed field changes nothing |
| Php.SplitCount | app/Http/Requests/ImportCsvRequest.php:72 | explode (Split) returns one more piece than there are delimiters |
| Php.JoinSplit | app/Services/CsvImportService.php:163 | implode undoes explode |
| Php.SplitJoin | app/Services/CsvImportService.php:163 | explode undoes implode when no piece holds the delimiter |
| Php.SplitPiecesLackDelimiter | app/Services/CsvImportService.php:163 | no piece explode returns contains the delimiter |
| Php.NatToStringRoundTrip | app/Services/CsvImportService.php:113 | the decimal digits written for a line number read back as that number |
| Php.NatToStringInjective | app/Services/CsvImportService.php:113 | different numbers are written differently |
| Php.ChunksAreLines | app/Services/CsvImportService.php:48 | every value fgets (Chunks) returns is a non-empty line, and each one but the last ends with its line feed |
| Php.ChunksConcat | app/Services/CsvImportService.php:48 | the lines fgets returns, glued back together, are the file |
| Php.ChunksCount | app/Http/Controllers/EventController.php:128-131 | fgets returns one line per line feed, plus one for an unterminated last line |
| Dates.ParseYmdSound | app/Services/CsvImportService.php:137 | a date string ParseYmd accepts is a real calendar day that formats back to the same string |
| Dates.FormatYmd | app/Services/CsvImportService.php:147 | a calendar day is written as four digits, `-`, two digits, `-`, two digits |
| Dates.ParseFormat | app/Services/CsvImportService.php:137-147 | a formatted calendar day parses back to itself |
| Persistence.FindTag | app/Services/CsvImportService.php:202-204 | a tag found is a stored tag |
| Persistence.FindTagFirstMatch | app/Services/CsvImportService.php:202-204 | the lookup returns the first tag whose name matches ignoring case, and returns nothing only when no tag matches |
| CsvImportService.RandomColor | app/Services/CsvImportService.php:222-246 | a new tag's colour is one of the 17 palette colours |
| CsvImportService.BeyondByFrom | app/Services/CsvImportService.php:58-62 | any kept line numbered past the ceiling trips it |
| CsvImportService.ParseCsv | app/Services/CsvImportService.php:38-72 | parseCsv as written equals Parse: an unreadable file fails; a kept row on physical line 1001 or later, the header counted, fails with too many rows; no kept row fails; otherwise the kept rows |
| CsvImportService.ReadRows | app/Services/CsvImportService.php:45-69 | the read loop equals ParseLines: it keeps the non-blank lines' rows in order and stops at the first kept row past the ceiling |
| CsvImportService.StructureError | app/Services/CsvImportService.php:77-87 | validateCsvStructure passes exactly when some row was parsed and the first has 4 fields; it reports no data exactly when none was parsed |
| CsvImportService.GetOrCreateTag | app/Services/CsvImportService.php:199-217 | the store ends as ResolveTag says and the returned id and created flag agree with it |
| CsvImportService.ProcessRow | app/Services/CsvImportService.php:123-194 | the store and outcome are RowStep's, for every row, including rows with fewer than 4 fields |
| CsvImportService.StoreEvent | app/Services/CsvImportService.php:145-193 | a stored name and day is skipped; anything else is written |
| CsvImportService.WriteEvent | app/Services/CsvImportService.php:158-193 | the tags are resolved, then one event is appended with their ids |
| CsvImportService.ResolveTagNames | app/Services/CsvImportService.php:162-175 | the tag loop leaves the store, ids and created count that ResolveTags gives |
| CsvImportService.NonEmptyTrimmed | app/Services/CsvImportService.php:163-164 | no tag name kept is falsy |
| CsvImportProperties.NonEmptyTrimmedSound | app/Services/CsvImportService.php:163-164 | every tag name kept is the trim of a piece of the column, and none is falsy |
| CsvImportProperties.NonEmptyTrimmedComplete | app/Services/CsvImportService.php:163-164 | every piece whose trim is not falsy gives a tag name |
| CsvImportProperties.NonEmptyTrimmedAppend | app/Services/CsvImportService.php:163-164 | the names of two runs of pieces are the names of the first followed by those of the second, so the column's order is kept |
| CsvImportProperties.TagNamesSplit | app/Services/CsvImportService.php:162-164 | the falsy-column short-cut gives what exploding, trimming and filtering would give |
| CsvImportService.ProcessImport | app/Services/CsvImportService.php:92-118 | the store and report are ImportRows': every data row processed in order from the store it started with |
| CsvImportService.ImportRow | app/Services/CsvImportService.php:104-114 | one iteration processes the next row and records it at line index + 2 |
| CsvImportService.ImportParsed | app/Services/CsvImportService.php:21-33 | what follows the parse: a thrown parse or structure exception leaves the store as it was |
| CsvImportService.Import | app/Services/CsvImportService.php:21-33 | importEvents as written, over Parse: a failed import leaves the store unchanged |
| CsvImportService.ImportEvents | app/Services/CsvImportService.php:21-33 | the method parses as written, checks the first row, then processes the rows; the store and result are Import's, and on failure the store is unchanged |
| CsvImportProperties.KeptByAppend | app/Services/CsvImportService.php:48-56 | the rows of two parts of a file are the first part's, then the second's: file order is kept |
| CsvImportProperties.KeptBySource | app/Services/CsvImportService.php:52-56 | every kept row is the fields of a non-blank line |
| CsvImportProperties.KeptByLine | app/Services/CsvImportService.php:52-56 | every non-blank line is kept |
| CsvImportProperties.KeptByWithoutBlanks | app/Services/CsvImportService.php:52-56 | without blank lines, row i is line i's fields |
| CsvImportProperties.KeptByWithinCeiling | app/Services/CsvImportService.php:58-62 | without a kept row beyond the ceiling, at most ceiling rows are kept |
| CsvImportProperties.ShortWithinCeiling | app/Services/CsvImportService.php:58-62 | a file no longer than the ceiling never trips it |
| CsvImportProperties.KeptRowNotBlank | app/Services/CsvImportService.php:52-54 | some field of each kept row is neither "" nor "0" |
| CsvImportProperties.ParsedRows | app/Services/CsvImportService.php:38-72 | a successful parse as written returns the kept rows: at least one, and at most 999 after the first, since the header counts against the ceiling of 1000 |
| CsvImportProperties.CeilingOnPhysicalLines | app/Services/CsvImportService.php:46-62 | a kept row on physical line 1001 or later aborts the parse, whatever was kept before it |
| CsvImportProperties.TooManyRowsExactly | app/Services/CsvImportService.php:38-72 | the too-many-rows exception is thrown exactly when the file opens and a kept row lies on line 1001 or later |
| CsvImportProperties.TooManyRowsFromLine | app/Services/CsvImportService.php:58-62 | the too-many-rows exception names a kept row on line 1001 or later |
| CsvImportProperties.FindTagIs | app/Services/CsvImportService.php:202-204 | the first matching tag is the one found |
| CsvImportProperties.FindTagExtend | app/Services/CsvImportService.php:202-204 | storing more tags does not change a successful lookup |
| CsvImportProperties.FindTagSameKey | app/Services/CsvImportService.php:203 | names equal ignoring case find the same tag |
| CsvImportProperties.ResolveTagFinds | app/Services/CsvImportService.php:199-217 | ResolveTag only appends tags, and a later lookup finds the returned id |
| CsvImportProperties.ResolveTagFacts | app/Services/CsvImportService.php:199-217 | ResolveTag's tag matches the name; one is created, with a palette colour, exactly when none matched; otherwise nothing changes |
| CsvImportProperties.ResolveTagsShape | app/Services/CsvImportService.php:162-175 | the tag loop keeps events, appends exactly as many tags as it reports created, all in the palette, and collects one id per name |
| CsvImportProperties.FindsAllExtend | app/Services/CsvImportService.php:166-174 | lookups that succeed keep their ids once more tags are stored |
| CsvImportProperties.ResolveTagsFindIds | app/Services/CsvImportService.php:166-174 | after the loop, looking up each name finds exactly the id collected for it |
| CsvImportProperties.CaseVariantsShareTag | app/Services/CsvImportService.php:166-174 | names in one tags field that differ only in case get the same tag |
| CsvImportProperties.ResolveTagKeepsDistinct | app/Services/CsvImportService.php:199-217 | getOrCreateTag never creates a second tag with the same name ignoring case |
| CsvImportProperties.ResolveTagsKeepDistinct | app/Services/CsvImportService.php:162-175 | the tag loop keeps tag names distinct ignoring case |
| CsvImportProperties.Check | app/Services/CsvImportService.php:123-143 | a valid row has its 4 fields, its name is the trimmed first field and is truthy, and its day is the one the trimmed date field spells |
| CsvImportProperties.RowVerdict | app/Services/CsvImportService.php:123-143 | RowError's checks: a row is valid exactly when it has 4 fields, a truthy trimmed name and a trimmed date that spells a calendar day; otherwise its message is the first failing check's: missing field, then name, then date |
| CsvImportProperties.CreatedEvent | app/Services/CsvImportService.php:158-193 | the event created has the name and day, the description or none when it is falsy, and exactly the ids its tag names find; it is appended after the stored events |
| CsvImportProperties.RowStepOutcome | app/Services/CsvImportService.php:123-194 | RowStep: a row fails exactly when invalid, with its own message and no write; a valid row is skipped exactly when its name and day are stored, with no write; otherwise one event with its key is appended, with as many tags as reported |
| CsvImportProperties.CreatedRowEvent | app/Services/CsvImportService.php:126-193 | a created event has the trimmed, truthy name, the description or none, the day the date column spells, a key not stored before, and the tags its tags column names |
| CsvImportProperties.KnownKeySkipped | app/Services/CsvImportService.php:145-156 | a valid row whose name and day are stored (HasEvent) is skipped and changes nothing |
| CsvImportProperties.SameRowTwice | app/Services/CsvImportService.php:145-156 | a row created once is skipped the second time, whatever colours are drawn |
| CsvImportProperties.RowStepKeepsDistinct | app/Services/CsvImportService.php:158-175 | processRow never creates two tags with the same name ignoring case |
| CsvImportProperties.StepKeepsUnique | app/Services/CsvImportService.php:145-182 | processRow never stores two events with the same name and day |
| CsvImportProperties.ErrorsBy | app/Services/CsvImportService.php:104-114 | there are no more report entries than rows |
| CsvImportProperties.ErrorsAndValid | app/Services/CsvImportService.php:104-114 | every row is either valid or reported once |
| CsvImportProperties.RowStepsSound | app/Services/CsvImportService.php:123-194 | processRow keeps its promise whatever colours are drawn |
| CsvImportProperties.ImportWithAccounting | app/Services/CsvImportService.php:92-118 | the row loop (ImportWith) reports the invalid rows' entries in file order at their lines, one created or skipped per valid row, and appends exactly the events and tags it counts |
| CsvImportProperties.ImportWithKeepsInvariants | app/Services/CsvImportService.php:92-118 | the row loop keeps event keys unique and tag names distinct |
| CsvImportProperties.HasEventExtend | app/Services/CsvImportService.php:146-148 | a stored name and day stays stored (HasEvent) as events are appended |
| CsvImportProperties.ImportWithStoresKeys | app/Services/CsvImportService.php:92-118 | after the loop every valid row's name and day is stored |
| CsvImportProperties.ImportWithAllKnown | app/Services/CsvImportService.php:92-118 | when every valid row's key is stored, every valid row is skipped and nothing is written |
| CsvImportProperties.ImportAccounting | app/Services/CsvImportService.php:92-118 | processImport's report (ImportRows): the failing rows' entries in order, one created or skipped per valid row, and exactly the counted events and tags appended |
| CsvImportProperties.ImportTotals | app/Services/CsvImportService.php:104-114 | created + skipped + errors equals the number of data rows |
| CsvImportProperties.ImportKeepsInvariants | app/Services/CsvImportService.php:92-118 | processImport never stores two events with the same name and day, nor two tags with the same name ignoring case |
| CsvImportProperties.ReimportChangesNothing | app/Services/CsvImportService.php:92-156 | importing the same rows again skips every valid row, fails the others at the same lines, and writes nothing |
| CsvImportProperties.ImportWithNewKeys | app/Services/CsvImportService.php:92-118 | the row loop only appends, and every event it appends has the name and day of a valid row |
| CsvImportProperties.ImportWithAllFresh | app/Services/CsvImportService.php:92-118 | rows whose keys are new and pairwise distinct are all created: nothing is skipped |
| CsvImportProperties.ErrorsByAllValid | app/Services/CsvImportService.php:111-113 | a run of valid rows reports no errors |
| CsvImportProperties.FreshImportCreatesAll | app/Services/CsvImportService.php:92-156 | importing rows whose names and days are neither stored nor repeated skips nothing, creates and appends one event per valid row, and reports no errors when every row is valid |
| AcceptedFiles.HeaderFieldsMatchColumns | app/Services/CsvImportService.php:83-85 | the fields parseCsv reads from a line are as many as the columns the after-hook counts on it |
| AcceptedFiles.AcceptedHeaderPassesStructure | app/Services/CsvImportService.php:77-87 | for a file the after-hook accepts whose header line is kept, validateCsvStructure passes |
| AcceptedFiles.CeilingOnShortFile | app/Services/CsvImportService.php:58-62 | in a file of at most 1001 lines, the ceiling trips exactly when line 1001 is kept |
| AcceptedFiles.AcceptedFileCeiling | app/Services/CsvImportService.php:38-72 | parseCsv refuses a file the after-hook accepts for too many rows exactly when its line 1001 is kept |
| AcceptedFiles.AcceptedFileFailures | app/Services/CsvImportService.php:21-87 | importEvents fails on an accepted file only with the no-valid-data, column or too-many-rows message, the last exactly when line 1001 is kept |
| AcceptedFiles.AcceptedFileImports | app/Services/CsvImportService.php:21-33 | an accepted file whose header line is kept, and whose line 1001, if any, is blank, is imported |
| EventController.CountCsvLines | app/Http/Controllers/EventController.php:121-135 | 0 for a file that does not open; else the number of lines fgets returns, which is one per line feed plus one for an unterminated last line |
| EventController.ValidateCsvImport | app/Http/Controllers/EventController.php:99-116 | a refused file gets the request's messages; an accepted one gets its size and line count, which lies between 2 and 1001 |
| EventController.ImportCsv | app/Http/Controllers/EventController.php:140-175 | a request failing the form request's checks is refused with exactly their messages and the store is untouched; otherwise the store ends as importEvents as written leaves it and the response is ImportResponse of its outcome |
| EventController.BuildResponse | app/Http/Controllers/EventController.php:143-173 | the message built sentence by sentence is ImportResponse's, SuccessMessage's sentences for a report |
| EventController.AppendNote | app/Http/Controllers/EventController.php:148-156 | a count's sentence (Note) is appended only when the count is not 0 |
| EventController.ResponseShape | app/Http/Controllers/EventController.php:140-175 | ImportResponse: success answers 200 with the report, and warnings exactly when the report has errors; an exception answers 422 with its message and no stats |
| EventController.QuietImport | app/Http/Controllers/EventController.php:147-156 | the message is the bare sentence exactly when nothing was created or skipped |
| EventController.MessageTellsOutcome | app/Http/Controllers/EventController.php:147-171 | the message starts with the success sentence exactly when the import succeeded |
| RowCeilingFinding.RulesAccept | app/Http/Requests/ImportCsvRequest.php:23-33 | a readable upload of a header and at most 1000 data lines of at most 1 KB each is within 10 MB and passes every declared rule |
| RowCeilingFinding.HookAccepts | app/Http/Requests/ImportCsvRequest.php:51-103 | the after-hook accepts a header with four columns followed by 1 to 1000 data lines |
| RowCeilingFinding.ValidatorAccepts | app/Http/Requests/ImportCsvRequest.php:23-103 | a readable upload of a header and 1 to 1000 data lines passes the rules and the after-hook |
| RowCeilingFinding.AsWrittenCeiling | app/Services/CsvImportService.php:46-62 | as written, parseCsv refuses a header plus k data lines exactly when k reaches 1000 |
| RowCeilingFinding.HeaderCountedAgainstCeiling | app/Services/CsvImportService.php:58-62 | a header plus 1000 data lines passes validation and is refused by parseCsv as written |
| RowCeilingFinding.HeaderCountedAnswer | app/Http/Controllers/EventController.php:169-173 | importCsv answers that file with 422 and the too-many-rows message, and writes nothing |
| RowCeilingFinding.ValidatedFileParses | app/Services/CsvImportService.php:38-72 | with the ceiling on data lines, a file the after-hook accepts parses to its kept rows, or fails only when none is kept |
| RowCeilingFinding.CorrectedFailures | app/Services/CsvImportService.php:21-87 | the corrected import fails on an accepted file only for no kept row or a first row without 4 fields, never for too many rows |
| RowCeilingFinding.CorrectedImportSucceeds | app/Services/CsvImportService.php:21-33 | the corrected import of an accepted file whose header line is kept returns a report, and importCsv answers 200 |
| RowCeilingFinding.CorrectedAcceptsFile | app/Services/CsvImportService.php:38-72 | the corrected parse keeps the header and all k data rows of such a file |
| RowCeilingFinding.CorrectedAcceptsFullFile | app/Services/CsvImportService.php:58-62 | the file the as-written parse refuses parses to 1000 data rows under the corrected one |

## Left out

- Opening files, closing handles, and reading bytes from disk are not modelled. An upload is its content, together with whether `fopen` succeeds. `fgets` is the cut of that content into lines.
- `fgetcsv` quoting, escaping, and enclosure characters are not modelled. A row is the line without its `\n`, its `\r\n` or a lone final `\r`, as `fgetcsv` drops them, exploded on `;`.
- ParseYmd: a date is exactly `YYYY-MM-DD` with real calendar ranges. Carbon's `createFromFormat('Y-m-d')` also accepts unpadded months and days, and rolls an overflowing day into the next month (`2024-02-30` becomes `2024-03-01`); the model rejects all of these with the date message. Carbon throws on trailing data, and so does the model.
- The random colour draw is a parameter `rng` from the number of stored tags to a palette index. Any sequence of `array_rand` results is such a function.
- The JSON-path syntax of the tag lookup and the database collation of `where('name', …)` are not modelled. The lookup compares names after ASCII lower-casing, and the duplicate check compares names exactly.
- Database failures are not modelled, and neither are throwables that are not `Exception`s. The transaction therefore always commits. A row cannot fail after creating a tag.
- The upload's MIME sniffing is not modelled. It is the extension guessed for the file. The declared size is independent of the content.
- The request's private `validateCsvStructure` and `isValidDate` are never called, so they are not part of this model.
- Laravel's JSON body for a failed validation is not modelled. The model returns the list of messages the request records.
- `validateCsvImport`'s `name` and `mime_type` fields and its constant message are not modelled. Only the size and the line count are kept.
- Events' and tags' timestamps and the tag translation layer are not modelled. An id is the position in the store.
- Parse, ParseCsv: when `fopen` fails, the running application does not reach the `!$handle` branch. The framework turns fopen's warning into an exception, so importCsv answers 422 with fopen's own message. The model follows the code's branch and fails with "Impossible de lire le fichier CSV.".
- AfterHookError, AfterHook: likewise, an upload that does not open raises an exception in the after-hook, which the application answers with status 500. The model records "Impossible de lire le fichier CSV." as the branch says.
- CountCsvLines: likewise, an upload that does not open raises an exception, answered with status 500, instead of returning 0.
- RuleErrors: a failed upload gets the framework's default English message for the `uploaded` failure. Translation files are not part of this model.

## Findings

| source | as written | input that shows it | evidently intended | confidence | as-written member | corrected member |
|---|---|---|---|---|---|---|
| app/Services/CsvImportService.php:46-62 | `$lineNumber` counts the header, and a kept row on a line numbered above 1000 aborts the import | an upload of the header `name;description;date;tags` and 1000 lines `Concert;;2024-05-01;` passes the request's check of at most 1000 data lines, yet importCsv answers 422 with "Erreur lors de l'import : Le fichier CSV contient trop de lignes (maximum: 1000)." | the ceiling of 1000 applies to the data lines after the header, as the request validator counts them | not executed | RowCeilingFinding.HeaderCountedAgainstCeiling | RowCeilingFinding.CorrectedImportSucceeds |
