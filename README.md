# Batch affidavit generator — a Dafny model

The system takes General Procedure Claim (GPC) PDFs of the Western
Australian Magistrates Court and produces a Form 11 affidavit of service
for each one. It has five parts:

- **A browser client (`app.js`).** It filters the dropped files and sends
  each PDF to an extractor and then to a generator. It keeps the generated
  affidavits in a session state that counts successes and errors and offers
  single and staggered bulk downloads.
- **Two extractors.** `extract-gpc-data.js` works on the PDF and
  `extract-gpc-data.mjs` works on document text. Each asks a language model
  for a JSON description of the case and picks the JSON out of the reply.
- **Four generators.**
  - A docxtemplater handler (`netlify/functions/generate-affidavit.js`).
  - Two single-defendant Form 11 handlers (`generate-affidavit.mjs` at the
    root and under `netlify/functions/`).
  - The "PS" handler (`generate-affidavit-ps.mjs`). It reads the registry,
    the lodgement date and the lodging party out of the claim text, and
    rewrites the template XML itself.
- **A python-docx generator (`generate_affidavit.py`).** It clones the
  First Defendant table once per extra defendant, labels the tables, deletes
  the template's unfilled ones and fills the service statement.

One module per source file:

| module | file | form |
|---|---|---|
| `BatchSession` | app.js | class `AppState` with methods and loops; the filters, lookups and schedules as functions |
| `DocxTables` | generate_affidavit.py | class `Body` editing its element list in place; the loops proved against specification functions |
| `XmlEscape`, `DefendantName`, `Phone`, `GpcText`, `ServiceStatement`, `PsHandler` | generate-affidavit-ps.mjs | functions; the loops of `extractRegistryInfo` and the step-by-step `processDocument` and `fillServiceStatementPS` as methods |
| `TemplateHandler` | netlify/functions/generate-affidavit.js | functions |
| `BlankServiceHandler` | generate-affidavit.mjs | functions |
| `ServiceDetailsHandler` | netlify/functions/generate-affidavit.mjs | functions |
| `PdfExtract` | netlify/functions/extract-gpc-data.js | functions |
| `TextExtract` | netlify/functions/extract-gpc-data.mjs | functions |
| `Http`, `JsValues`, `Filenames`, `Text`, `Wrappers` | shared | the handler prologue, JavaScript values, output file names, string operations, `Option` |

**How the environment enters the model.** Everything outside the program is
a parameter. That covers:

- `JSON.parse` (a partial function);
- the language model;
- busboy;
- the template engines and read template files;
- the raw-XML table fills of the PS handler;
- `formatAddress`;
- `toLocaleDateString`;
- for the browser, what `fetch` and `URL.createObjectURL` answer for each file, and whether the user confirms.

**How the model relates to its specification.**

- JavaScript values are a datatype. The datatype carries truthiness,
  property reads that throw on `null`/`undefined`, and `String(v)`. Each
  thrown exception is a `Completion`.
- Python's `IndexError` and `ValueError` are `Outcome`s.
- Each regular expression the code applies to text becomes a deterministic
  scan. Its contract states the leftmost, greedy or lazy, match the engine
  would report.

**Where the code and its description disagree.**

- **Empty defendant list.** The description of the
  docxtemplater handler says an empty list is rejected. But `[]` is truthy
  in JavaScript, so the code accepts it and renders no defendant rows. The
  model follows the code (`TemplateHandler.EmptyDefendantListIsAccepted`).
- **The prune guard.** In the python generator the guard `idx <
  len(doc.tables)` of generate_affidavit.py:95 always holds. A removal only
  shortens the list above the index still to be visited. The model
  therefore has no branch for it.

## Model

| member | source | states |
|---|---|---|
| BatchSession.AppState.constructor | app.js:2-8 | the initial state: no files, no affidavits, all three counts zero |
| BatchSession.AppState.ProcessFiles | app.js:61-98 | what the state is after the batch: <br>• the files and their count are recorded; <br>• the entry list is exactly the successes of the replies, in file order; <br>• `successCount` is their number and `errorCount` is the rest; <br>• `Valid` holds; <br>• progress is reported as `(0, n)`, then `(i+1, n)` after each file |
| BatchSession.AppState.ProcessOne | app.js:84-91 | one file of the loop: a success appends its entry and counts one success, a failure counts one error and appends nothing; the file list and total stay as they were |
| BatchSession.AppState.Drop | app.js:38-51 | an alert with no state change exactly when no dropped file is a PDF; otherwise the filtered PDFs are processed |
| BatchSession.AppState.HandleFileSelect | app.js:54-59 | an empty choice changes nothing; otherwise the chosen files are processed unfiltered |
| BatchSession.AppState.DownloadSingleAffidavit | app.js:256-266 | clicks the anchor of the first entry with that file name, and nothing when no entry has it |
| BatchSession.AppState.DownloadAllAffidavits | app.js:275-284 | the timers set are one per entry, in list order, the `k`-th after `k*500` ms, so the downloads start half a second apart; there are none for an empty list, and between batches there are as many as `successCount` |
| BatchSession.AppState.StartOver | app.js:286-311 | when confirmed: <br>• every blob URL is revoked, in list order; <br>• the state is the initial one. <br>Otherwise nothing changes. |
| BatchSession.DropFilter | app.js:42-44 | the drop filter: the dropped files that are PDFs by MIME type or by a lowered name ending `.pdf`, in drop order (properties in `DropFilterKeepsExactlyPdfs`, `DropFilterCounts` and `DropFilterAppend`) |
| BatchSession.DropFilterKeepsExactlyPdfs | app.js:42-44 | a file is kept if and only if it was dropped and is a PDF by type or by lowered name |
| BatchSession.DropFilterCounts | app.js:42-44 | each PDF is kept as many times as it was dropped; every other file is kept zero times |
| BatchSession.DropFilterAppend | app.js:42-44 | filtering keeps the order: the filter of a concatenation is the concatenation of the filters |
| BatchSession.PdfNameIgnoresCase | app.js:43 | a name ending in `.pdf` in any letter case passes whatever its MIME type |
| BatchSession.NonPdfNameIsDropped | app.js:42-44 | a file whose type is not `application/pdf` and whose name does not end in `f`/`F` is rejected |
| BatchSession.Attempt | app.js:131-199 | a file yields an entry exactly when all of these hold: <br>• extraction succeeded; <br>• `data.error` can be read and is falsy; <br>• generation succeeded; <br>• `caseNumber` is a string. <br>The entry is named `Affidavit_{case with / as -}.docx` and carries that file's case number, claimant, defendants, URL and blob |
| BatchSession.Pushed | app.js:148-155 | one file adds at most one entry, and adds one exactly when it succeeds |
| BatchSession.Successes | app.js:79-94 | the entries a batch appends: each file's `Pushed` entry, in file order (properties in `SuccessesAppend`, `SuccessesCount` and `SuccessesOrigin`) |
| BatchSession.SuccessesAppend | app.js:79-94 | each file is handled on its own and in order: the entries of a concatenated batch are the two batches' entries one after the other |
| BatchSession.FailureDoesNotStopBatch | app.js:83-91 | a failing file adds nothing and the files after it still add their entries |
| BatchSession.SuccessesCount | app.js:79-94 | a batch has at most as many entries as files, and exactly as many when no file fails |
| BatchSession.SuccessesOrigin | app.js:79-94 | every entry of a batch is well named and is the result of one of the files |
| BatchSession.FindAffidavit | app.js:257 | the result is the first entry with that name: <br>• `None` exactly when no entry has it; <br>• otherwise the index of a matching entry with no match before it |
| BatchSession.SingleDownload | app.js:256-265 | nothing is clicked exactly when no entry has the name; otherwise the click is the anchor (URL and name) of the first entry with that name |
| BatchSession.Schedule | app.js:278-282 | one timer per entry, the `k`-th at `k*500` ms carrying entry `k`'s file name |
| BatchSession.DistinctNamesDownloadEachOnce | app.js:275-283 | with distinct file names, "download all" clicks every entry exactly once, in list order |
| BatchSession.DuplicateNameDownloadsFirstTwice | app.js:256-283 | as written: two entries with one file name make "download all" click the first entry twice |
| BatchSession.CollidingCasesLoseOne | app.js:146 | as written: the case numbers `A/1` and `A-1` share a file name, so the second affidavit is never downloaded |
| BatchSession.IndexScheduleDownloadsEachOnce | app.js:275-283 | corrected: timers that carry positions click every entry exactly once, in list order, whatever the names |
| DocxTables.Positions | netlify/functions/generate_affidavit.py:93-96 | `doc.tables`: the positions of the body's tables, each one holding a table |
| DocxTables.PositionsOrdered | netlify/functions/generate_affidavit.py:93-96 | the tables are listed in document order, each exactly once, and none is missed |
| DocxTables.PositionsAppend | netlify/functions/generate_affidavit.py:73-78 | the tables of a concatenation are those of the first part, then those of the second shifted past it |
| DocxTables.SetCell | netlify/functions/generate_affidavit.py:22 | a cell assignment: <br>• it raises IndexError exactly when the table, row or cell is missing; <br>• otherwise only that cell of that table changes and no table moves |
| DocxTables.SetCellFrame | netlify/functions/generate_affidavit.py:22-25 | after an assignment the cell reads back the new text and every other cell keeps its own |
| DocxTables.InsertAt | netlify/functions/generate_affidavit.py:65-70 | `list.insert`: places the element at the index, or appends when the index is at or past the end |
| DocxTables.Body.Insert | netlify/functions/generate_affidavit.py:65 | the body after `parent.insert(i, x)` |
| DocxTables.Body.Remove | netlify/functions/generate_affidavit.py:104-105 | the body loses exactly the element at `p` |
| DocxTables.Body.Assign | netlify/functions/generate_affidavit.py:87-89 | succeeds exactly when the cell exists; the body is then the assigned one, and otherwise it is unchanged |
| DocxTables.Body.CloneDefendants | netlify/functions/generate_affidavit.py:40-71 | the body after the clone loop is `Cloned(old, pos, ClonesFor(count))`: that many copies of the First Defendant table (and its spacing) right after it and its spacing |
| DocxTables.Body.LabelDefendants | netlify/functions/generate_affidavit.py:81-89 | the body after labelling, or the error it raises, is that of `Labelled` |
| DocxTables.PruneSpec | netlify/functions/generate_affidavit.py:91-105 | the deletion pass on values: tables 0 and 1 and what precedes table 2 are kept, the rest goes through the `Pruned` filter (properties in `PrunedMeaning` and `PruneKeepsFront`) |
| DocxTables.Body.Prune | netlify/functions/generate_affidavit.py:91-105 | the body after the reverse deletion pass, or the IndexError it raises, is that of `PruneSpec` |
| DocxTables.Body.PruneOne | netlify/functions/generate_affidavit.py:95-105 | one pass for table `idx`: everything from that table on is the filtered tail, and a table that cannot be checked raises the whole pass's error |
| DocxTables.Generate | netlify/functions/generate_affidavit.py:13-130 | the whole generator on values: header cells, cloning, labelling, the deletion pass, the defendant lookup and the statement fill, with the first error raised (properties in `GeneratedOnlyForListedDefendant`, `HeaderIsFilled`, `PruneKeepsFront`) |
| DocxTables.Body.GenerateAffidavit | netlify/functions/generate_affidavit.py:13-130 | the whole generator on the loaded template: the body, or the error raised, is that of `Generate` |
| DocxTables.Body.FillServiceStatement | netlify/functions/generate_affidavit.py:113-123 | every cell of every table is filled in place, as `Filled` describes |
| DocxTables.FillTable | netlify/functions/generate_affidavit.py:115-123 | one table filled row by row, as `FillElement` |
| DocxTables.FillCells | netlify/functions/generate_affidavit.py:116-123 | one row filled cell by cell, as `FillRow` |
| DocxTables.ClonesFor | netlify/functions/generate_affidavit.py:53-55 | at most five clones; with at least one defendant, the number of defendant tables is `min(count, 6)` |
| DocxTables.CloneUnit | netlify/functions/generate_affidavit.py:44-45 | the unit copied is the First Defendant table, followed by its spacing element when there is one |
| DocxTables.ClonedStep | netlify/functions/generate_affidavit.py:58-71 | one pass of the loop inserts the table copy at `insert_pos` and then the spacing copy after it |
| DocxTables.ClonedPositions | netlify/functions/generate_affidavit.py:42-71 | where the tables of the cloned body are: <br>• the first `k0+1` as before; <br>• one at the start of every inserted unit; <br>• then the rest, shifted |
| DocxTables.ClonedTables | netlify/functions/generate_affidavit.py:53-71 | with a spacing element that is not a table: <br>• cloning adds exactly `n` tables; <br>• the tables up to the First Defendant's are kept; <br>• every new table equals the First Defendant table |
| DocxTables.ClonedKeepsFront | netlify/functions/generate_affidavit.py:42-48 | cloning leaves every cell of the tables before the First Defendant table as it was |
| DocxTables.Labelled | netlify/functions/generate_affidavit.py:83-89 | labelling never moves a table |
| DocxTables.LabelledCell | netlify/functions/generate_affidavit.py:83-89 | after labelling: <br>• for each defendant with a table `2+i`, row 0 cell 0 holds `"{ordinal} Defendant"` and cell 1 holds the defendant; <br>• every other cell is unchanged |
| DocxTables.LabellingStopsAtSix | netlify/functions/generate_affidavit.py:81-87 | with more than six defendants and a seventh defendant table, labelling raises IndexError (there is no seventh ordinal) |
| DocxTables.CheckUnfilled | netlify/functions/generate_affidavit.py:97-103 | a table counts as unfilled only when cell 0 of row 0 names the Third to Sixth Defendant and cell 1 still holds `[Defendant`; the only error is IndexError |
| DocxTables.Pruned | netlify/functions/generate_affidavit.py:97-105 | the filter only raises IndexError |
| DocxTables.PrunedMeaning | netlify/functions/generate_affidavit.py:97-105 | the filter: <br>• raises exactly when some table cannot be checked; <br>• otherwise keeps only input elements and no unfilled table; <br>• keeps every element that is not an unfilled table |
| DocxTables.PruneRaises | netlify/functions/generate_affidavit.py:96-98 | a table from the third on whose first-row cells are missing makes the whole pass raise IndexError |
| DocxTables.PruneStep | netlify/functions/generate_affidavit.py:96-105 | the checked table is dropped exactly when unfilled; the elements after it up to the next table are kept |
| DocxTables.FilledPositions | netlify/functions/generate_affidavit.py:114-123 | the statement fill moves no table |
| DocxTables.FillStatement | netlify/functions/generate_affidavit.py:114-123 | the text of a cell after the fill: in a cell holding `duly serve`, `[Name]` becomes the defendant, `[Defendant]` the ordinal label, `[Date]`, `[time am/pm]` and `[Place]` become `''` and `[Name of process]` becomes `General Procedure Claim`; any other cell is kept (properties in `FieldSurvives` and `StatementNamesProcess`) |
| DocxTables.FilledCell | netlify/functions/generate_affidavit.py:114-123 | after the fill every existing cell holds the filled text of what it held, and no cell appears or disappears |
| DocxTables.BracketedApart | netlify/functions/generate_affidavit.py:118-123 | two different bracketed fields never overlap in a text |
| DocxTables.FieldSurvives | netlify/functions/generate_affidavit.py:118-123 | replacing one bracketed field keeps every occurrence of a different one |
| DocxTables.StatementNamesProcess | netlify/functions/generate_affidavit.py:117-123 | a "duly serve" cell holding `[Name of process]` ends up naming the General Procedure Claim |
| DocxTables.IndexFrom | netlify/functions/generate_affidavit.py:110 | the first position of the name at or after `i`, or a ValueError when there is none |
| DocxTables.IndexOfName | netlify/functions/generate_affidavit.py:110 | `list.index`: <br>• it raises ValueError exactly when the name is not listed; <br>• otherwise it returns the first position of the name |
| DocxTables.GeneratedOnlyForListedDefendant | netlify/functions/generate_affidavit.py:109-111 | a document is produced only for a listed defendant whose first position is among the six ordinals |
| DocxTables.PruneKeepsFront | netlify/functions/generate_affidavit.py:94 | the deletion pass never touches the cells of tables 0 and 1 |
| DocxTables.FrontCellKept | netlify/functions/generate_affidavit.py:28-123 | a cell of tables 0 and 1 without "duly serve" passes the defendant steps unchanged |
| DocxTables.HeaderIsFilled | netlify/functions/generate_affidavit.py:22-25 | in the finished document, when the two values contain no "duly serve": <br>• table 0, row 1, cell 4 holds the case number; <br>• table 1, row 0, cell 1 holds the claimant |
| XmlEscape.EscapeXml | netlify/functions/generate-affidavit-ps.mjs:603-608 | the five chained global replaces, `&` first (properties in `EscapeXmlIsPerChar` and `EscapeXmlIsSafe`) |
| XmlEscape.EscapeValue | netlify/functions/generate-affidavit-ps.mjs:601-602 | a falsy value escapes to `''` |
| XmlEscape.EscapeXmlIsPerChar | netlify/functions/generate-affidavit-ps.mjs:603-608 | the chain of five replaces writes each character as its own entity or as itself: no later replace touches an earlier one's output |
| XmlEscape.EscapeXmlIsSafe | netlify/functions/generate-affidavit-ps.mjs:601-609 | for the escaped text: <br>• no `<`, `>`, `"` or `'` is left; <br>• every `&` begins one of the five entities; <br>• reading the entities back gives the input |
| XmlEscape.EscapedHasNoMarkup | netlify/functions/generate-affidavit-ps.mjs:603-608 | the escaped text holds no markup character |
| XmlEscape.EscapedAmpersandsStartEntities | netlify/functions/generate-affidavit-ps.mjs:603-608 | every `&` of the escaped text starts an entity |
| XmlEscape.UnescapeEscaped | netlify/functions/generate-affidavit-ps.mjs:603-608 | un-escaping the escaped text recovers the input |
| XmlEscape.PlainTextIsUnchanged | netlify/functions/generate-affidavit-ps.mjs:603-608 | text with no `&` and no markup character passes unchanged |
| DefendantName.FormatDefendantName | netlify/functions/generate-affidavit-ps.mjs:613-626 | the trimmed name split on whitespace; one word is upper-cased, otherwise the earlier words are capitalised and the last upper-cased, joined by single spaces (properties in `FormatDefendantNameWords` and `FormatDefendantNameIsIdempotent`) |
| DefendantName.FormatValue | netlify/functions/generate-affidavit-ps.mjs:611-612 | on any value: <br>• `''` for a falsy one; <br>• a TypeError exactly for a truthy value that is not a string; <br>• the formatter on a string |
| DefendantName.Capitalise | netlify/functions/generate-affidavit-ps.mjs:623 | the length is kept; the first letter is upper-cased and every later one lower-cased |
| DefendantName.CapitaliseAll | netlify/functions/generate-affidavit-ps.mjs:622-623 | every given name is capitalised, in place |
| DefendantName.CasedWords | netlify/functions/generate-affidavit-ps.mjs:617-624 | the last word is upper-cased and every earlier word capitalised; the number of words is kept |
| DefendantName.FormatIsJoinOfCasedWords | netlify/functions/generate-affidavit-ps.mjs:614-626 | the formatted name is the cased words joined by single spaces |
| DefendantName.FormatDefendantNameWords | netlify/functions/generate-affidavit-ps.mjs:611-627 | for a non-blank name: <br>• the output is trimmed and has as many words as the input; <br>• the last word is upper-cased; <br>• every earlier word is capitalised |
| DefendantName.SingleWordIsUpperCased | netlify/functions/generate-affidavit-ps.mjs:617-619 | a one-word name comes out trimmed and upper-cased |
| DefendantName.FormatDefendantNameIsIdempotent | netlify/functions/generate-affidavit-ps.mjs:611-627 | formatting a formatted name changes nothing |
| DefendantName.SplitJoinedWords | netlify/functions/generate-affidavit-ps.mjs:614 | splitting on whitespace recovers words that were joined by single spaces |
| DefendantName.SplitTrimmedIsWords | netlify/functions/generate-affidavit-ps.mjs:614 | splitting a trimmed non-empty text gives non-empty words without spaces |
| DefendantName.JoinedWordsAreAName | netlify/functions/generate-affidavit-ps.mjs:624-626 | words joined by single spaces form a trimmed name that splits back into them |
| DefendantName.CasedWordsAreStable | netlify/functions/generate-affidavit-ps.mjs:621-624 | casing cased words again changes nothing |
| Phone.FormatPhoneNumber | netlify/functions/generate-affidavit-ps.mjs:659-679 | as written: `''` for empty input; ten digits starting `0` in the area-code layout `(d0d1) d2..d5 d6..d9`; any other input unchanged (properties in `MobileBranchIsDead` and `FormattingKeepsDigits`) |
| Phone.Digits | netlify/functions/generate-affidavit-ps.mjs:662 | `replace(/\D/g,'')`: only digits, never longer than the input |
| Phone.DigitsAppend | netlify/functions/generate-affidavit-ps.mjs:662 | the digits of a concatenation are the digits of each part, in order |
| Phone.DigitsOfDigits | netlify/functions/generate-affidavit-ps.mjs:662 | a text of digits is its own digit string |
| Phone.MobileBranchIsDead | netlify/functions/generate-affidavit-ps.mjs:664-676 | as written: every ten-digit number starting `04` gets the area-code layout, so the mobile layout is never produced |
| Phone.MobileNumberExample | netlify/functions/generate-affidavit-ps.mjs:664-669 | as written: `0412345678` is formatted `(04) 1234 5678` |
| Phone.FormatPhoneNumberIntended | netlify/functions/generate-affidavit-ps.mjs:659-679 | corrected formatter: <br>• `''` for empty input; <br>• the mobile layout for ten digits starting `04`; <br>• the area-code layout for other ten-digit numbers starting `0`; <br>• the input itself otherwise |
| Phone.LayoutsKeepDigits | netlify/functions/generate-affidavit-ps.mjs:665-675 | both layouts only add brackets and spaces: their digits are the ten digits in order |
| Phone.FormattingKeepsDigits | netlify/functions/generate-affidavit-ps.mjs:659-679 | neither version of the formatter loses, adds or reorders a digit |
| Filenames.SafeCaseNumber | netlify/functions/generate-affidavit-ps.mjs:115 | the length is kept: every `/` becomes `-` and every other character stays |
| Filenames.CaseFilename | app.js:146 | `Affidavit_{case number with / as -}.docx`, the browser's and the docxtemplater handler's file name (property in `CaseFilenamesCollide`) |
| Filenames.DefendantFilename | netlify/functions/generate-affidavit-ps.mjs:114-116 | `Affidavit_{case number with / as -}_{name with non-alphanumerics as _}.docx` (property in `DefendantFilenameSegments`) |
| Filenames.SafeName | netlify/functions/generate-affidavit-ps.mjs:114 | the length is kept: every character outside `[A-Za-z0-9]` becomes `_` and the others stay |
| Filenames.SafeCaseNumberHasNoSlash | netlify/functions/generate-affidavit-ps.mjs:115 | the case segment has the input's length and no `/` |
| Filenames.SafeNameIsWordChars | netlify/functions/generate-affidavit-ps.mjs:114 | the name segment has the input's length, holds only `[A-Za-z0-9_]` and keeps every alphanumeric character |
| Filenames.SanitisingIsIdempotent | netlify/functions/generate-affidavit-ps.mjs:114-115 | sanitising a sanitised segment changes nothing |
| Filenames.DefendantFilenameSegments | netlify/functions/generate-affidavit-ps.mjs:114-116 | the name is `Affidavit_`, the case segment, `_`, the name segment and `.docx`, each at its own place |
| Filenames.CaseFilenamesCollide | app.js:146 | distinct case numbers can give one file name (`A/1` and `A-1`) |
| Filenames.CaseNumberParts | netlify/functions/generate-affidavit-ps.mjs:115 | a case number of slash-separated parts becomes the same parts joined by `-` (`GCLM/2763/2024` gives `GCLM-2763-2024`) |
| GpcText.StreetGivingBack | netlify/functions/generate-affidavit-ps.mjs:324 | the engine's backtracking over `\d+\s+[A-Za-z\s]+?(?=…)`: <br>• the most spaces that work are taken; <br>• with them, the shortest end is taken |
| GpcText.StreetFrom | netlify/functions/generate-affidavit-ps.mjs:324 | a street match at that start when one exists, and `None` exactly when none does |
| GpcText.FirstStreet | netlify/functions/generate-affidavit-ps.mjs:324 | in the text after `REGISTRY AT:`, the leftmost start of the unanchored street match, and the end the engine reports there |
| GpcText.CityLazyEnd | netlify/functions/generate-affidavit-ps.mjs:329 | the lazy `[A-Z\s]+?` stops at the shortest end where `\s+WA\s+\d{4}` follows |
| GpcText.FirstCity | netlify/functions/generate-affidavit-ps.mjs:364 | the leftmost town match `…WA dddd` |
| GpcText.BeforeCourtWords | netlify/functions/generate-affidavit-ps.mjs:338 | `split(...)[0]`: the prefix before the first `\s+(MAGISTRATES\|Case\|Ph:)`, or all of the text |
| GpcText.NameOfLine | netlify/functions/generate-affidavit-ps.mjs:350 | the shortest prefix with no `(` that ends the line or precedes `\s+(` |
| GpcText.FindRegistryLine | netlify/functions/generate-affidavit-ps.mjs:307-312 | the first line holding `REGISTRY AT:`, and `None` exactly when none does |
| GpcText.ExtractRegistryInfo | netlify/functions/generate-affidavit-ps.mjs:297-373 | the two loops compute `RegistryInfoOf(gpcText)` |
| GpcText.FindRegistryStart | netlify/functions/generate-affidavit-ps.mjs:305-312 | the first loop finds the first line holding `REGISTRY AT:`, or -1 when no line holds it, as `FindRegistryLine` states |
| GpcText.ScanFollowingLines | netlify/functions/generate-affidavit-ps.mjs:344-369 | the second loop updates the fields from lines `start+1` up to `min(start+6, count)` |
| GpcText.TakeReading | netlify/functions/generate-affidavit-ps.mjs:345-368 | one pass: <br>• the name is taken only on the first following line; <br>• a street or town is taken only while that field is empty |
| GpcText.RegistryInfoOf | netlify/functions/generate-affidavit-ps.mjs:297-373 | the registry name, street and town read from the first `REGISTRY AT:` line and the five lines after it (properties in `NoRegistryLineLeavesBlank`, `OnlyFiveLinesAfterAreRead` and `FoundFieldsAreKept`) |
| GpcText.NoRegistryLineLeavesBlank | netlify/functions/generate-affidavit-ps.mjs:304-317 | without a registry line, all three fields are empty |
| GpcText.ScanFromReadsOnlyItsLines | netlify/functions/generate-affidavit-ps.mjs:344 | the loop reads only the lines in its range |
| GpcText.OnlyFiveLinesAfterAreRead | netlify/functions/generate-affidavit-ps.mjs:344-369 | two texts that agree on the registry line and the five after it give the same registry details |
| GpcText.FoundFieldsAreKept | netlify/functions/generate-affidavit-ps.mjs:347-368 | a street or town, once found, is never replaced; the name changes only on the line right after the registry line |
| GpcText.DateAfterLabel | netlify/functions/generate-affidavit-ps.mjs:376 | a reported date start holds `dd/dd/dddd` |
| GpcText.FirstDatedLabel | netlify/functions/generate-affidavit-ps.mjs:376 | the leftmost `Date lodged:` (in any case) followed by a date; `None` exactly when there is none |
| GpcText.ExtractDateLodged | netlify/functions/generate-affidavit-ps.mjs:375-385 | the result is `''` or a `dd/dd/dddd` date; it is `''` exactly when no label is followed by a date |
| GpcText.FirstDatedLabelWins | netlify/functions/generate-affidavit-ps.mjs:376-380 | the date after the first dated label is returned; undated labels before it are passed over |
| GpcText.LodgedBy | netlify/functions/generate-affidavit-ps.mjs:399-405 | `Defendant's Lawyer` when the text holds `Defendant's address` or `Defendant details`, or `defendant ref:` in any case; otherwise `Claimant's Lawyer` (properties in `DefendantMarkerAnywhere` and `ReferenceMarkerInAnyCase`) |
| GpcText.DefendantMarkerAnywhere | netlify/functions/generate-affidavit-ps.mjs:399-405 | a page with any defendant marker makes the lodging party the defendant's lawyer, whatever text surrounds it |
| GpcText.ReferenceMarkerInAnyCase | netlify/functions/generate-affidavit-ps.mjs:399-405 | a `defendant ref:` marker in any letter case, anywhere in the text, makes the lodging party the defendant's lawyer |
| ServiceStatement.OrdinalFrom | netlify/functions/generate-affidavit-ps.mjs:715 | the alternation `(First\|…\|Sixth)` takes the first alternative from `k` on that matches here; `None` when none matches |
| ServiceStatement.OrdinalsArePrefixFree | netlify/functions/generate-affidavit-ps.mjs:715 | no two ordinal words match at the same place, so the alternation never needs a second try |
| ServiceStatement.PhraseAt | netlify/functions/generate-affidavit-ps.mjs:715 | a match of `the\s+…\s+Defendant` starts with `the` and ends with `Defendant` |
| ServiceStatement.ServiceStatement | netlify/functions/generate-affidavit-ps.mjs:711-740 | the four steps throw exactly when the address is truthy and not a string |
| ServiceStatement.FillServiceStatementPS | netlify/functions/generate-affidavit-ps.mjs:711-740 | reassigning `result` step by step gives `ServiceStatement` |
| ServiceStatement.ReplaceOrdinalPhrases | netlify/functions/generate-affidavit-ps.mjs:714-717 | the global replace of `the\s+(First\|…\|Sixth)\s+Defendant` by the name, scanning left to right and resuming after each match (properties in `NoPhraseKeepsText` and `OrdinalsArePrefixFree`) |
| ServiceStatement.NoPhraseKeepsText | netlify/functions/generate-affidavit-ps.mjs:714-717 | with no phrase match the global replace copies the text |
| ServiceStatement.NothingToFillKeepsStatement | netlify/functions/generate-affidavit-ps.mjs:711-740 | a statement holding none of the four patterns comes back unchanged |
| ServiceStatement.PlaceholdersDoNotOverlap | netlify/functions/generate-affidavit-ps.mjs:727-734 | a `[Place]` and a `[date]` never overlap |
| ServiceStatement.PlaceIsLeftWithoutAddress | netlify/functions/generate-affidavit-ps.mjs:724-737 | without an address the statement has at least as many `[Place]` as the naming steps left: the date step touches none of them |
| ServiceStatement.DateIsLeftWithoutDate | netlify/functions/generate-affidavit-ps.mjs:724-737 | without a date the statement has at least as many `[date]` as the naming steps left: the address step touches none of them |
| ServiceStatement.DateFillsEveryPlaceholder | netlify/functions/generate-affidavit-ps.mjs:732-737 | a lodgement date `dd/dd/dddd` leaves no `[date]` behind |
| PsHandler.ArrayIndexOf | netlify/functions/generate-affidavit-ps.mjs:153 | `indexOf`: the first strictly equal element, and `None` (-1) exactly when there is none |
| PsHandler.DefendantIndex | netlify/functions/generate-affidavit-ps.mjs:153 | `defendants.indexOf(current)`: the first strictly equal entry of an array, the first occurrence in a string, and a TypeError otherwise |
| PsHandler.DefendantOrdinal | netlify/functions/generate-affidavit-ps.mjs:154-155 | `ordinals[index] \|\| 'First'`: the ordinal of a position below six, and `First` for -1 or a later position |
| PsHandler.OrdinalOfListedDefendant | netlify/functions/generate-affidavit-ps.mjs:153-155 | the ordinal is that of the defendant's first position when it is below six, and `First` otherwise |
| PsHandler.FormatAll | netlify/functions/generate-affidavit-ps.mjs:179 | `map` formats every entry in place; it throws a TypeError exactly when some entry is a truthy non-string |
| PsHandler.DefendantsLine | netlify/functions/generate-affidavit-ps.mjs:179 | only TypeErrors, and one for anything that is not an array |
| PsHandler.DefendantsLineOfNames | netlify/functions/generate-affidavit-ps.mjs:179 | a list of names gives the formatted names joined by `, ` |
| PsHandler.Document | netlify/functions/generate-affidavit-ps.mjs:150-190 | `processDocument` fails only with a TypeError; success requires a string claimant, an array of defendants and a formattable current defendant |
| PsHandler.ProcessDocument | netlify/functions/generate-affidavit-ps.mjs:150-190 | reassigning `result` step by step gives `Document` |
| PsHandler.Handle | netlify/functions/generate-affidavit-ps.mjs:5-148 | 405 exactly for a non-POST request. <br>A success requires all of these: <br>• a parsed body with every required field truthy; <br>• string fields and an array of defendants; <br>• a template. <br>It is named `Affidavit_{case}_{defendant}.docx` |
| PsHandler.FirstMissingFieldIsReported | netlify/functions/generate-affidavit-ps.mjs:21-30 | the first falsy field in the order case number, claimant, defendant name, all defendants, claim text gets the 400 naming it |
| PsHandler.MissingTemplateIsReported | netlify/functions/generate-affidavit-ps.mjs:76-89 | an admitted request with no readable template gets the template-specific 500 |
| PsHandler.NonStringClaimTextFails | netlify/functions/generate-affidavit-ps.mjs:38 | a truthy claim text that is not a string ends in the generic 500 with a TypeError |
| Http.Admit | netlify/functions/generate-affidavit-ps.mjs:9-30 | the shared prologue: <br>• the method is refused exactly when it is not POST; <br>• an unparsable body fails; <br>• admission means every required field is truthy; <br>• a missing field is reported with its name |
| Http.FirstFalsyFieldIsReported | netlify/functions/generate-affidavit-ps.mjs:22-30 | the first falsy required field is the one reported |
| Http.AdmitDependsOnTruthiness | netlify/functions/generate-affidavit-ps.mjs:9-30 | admission depends only on the method, the parse and which required fields are truthy |
| JsValues.FirstMissing | netlify/functions/generate-affidavit-ps.mjs:22-30 | the early-return loop: <br>• it throws exactly when the data is null or undefined; <br>• otherwise it returns the first falsy required field, or none |
| JsValues.FirstMissingDependsOnTruthiness | netlify/functions/generate-affidavit-ps.mjs:22-30 | the loop looks only at whether each field is truthy |
| JsValues.SetProp | netlify/functions/extract-gpc-data.mjs:74 | in strict mode, assignment succeeds exactly on objects and arrays; an object gains or overwrites the field; any other value throws a TypeError |
| JsValues.NatToString | netlify/functions/generate-affidavit.js:37 | a number is written as a non-empty string of digits |
| JsValues.NatToStringInjective | netlify/functions/generate-affidavit.js:37 | different numbers are written differently |
| TemplateHandler.Ordinal | netlify/functions/generate-affidavit.js:37 | `First` for position 0, `Second` for 1, and `{k+1}th` from position 2 on (properties in `OrdinalHead` and `OrdinalIsInjective`) |
| TemplateHandler.OrdinalHead | netlify/functions/generate-affidavit.js:37 | a label starts with a digit exactly from the third defendant on |
| TemplateHandler.OrdinalIsInjective | netlify/functions/generate-affidavit.js:37 | different positions get different labels |
| TemplateHandler.MapDefendants | netlify/functions/generate-affidavit.js:36-40 | the mapping: <br>• succeeds exactly when no element is null or undefined; <br>• keeps the length and order; <br>• copies each name and address with its position's label |
| TemplateHandler.TemplateData | netlify/functions/generate-affidavit.js:43-58 | the `setData` object: the request's registry, case number and claimant, the address or `''`, the mapped defendants, blank service fields and unticked boxes (property in `TemplateDataShape`) |
| TemplateHandler.TemplateDataShape | netlify/functions/generate-affidavit.js:43-58 | the bound data: <br>• leaves every service field blank and every box unticked; <br>• defaults the claimant's address to `''`; <br>• lists the mapped defendants |
| TemplateHandler.Handle | netlify/functions/generate-affidavit.js:6-84 | 405 exactly for a non-POST request; a success has every required field truthy, blank service fields and the file name `Affidavit_{case with / as -}.docx` |
| TemplateHandler.FirstMissingFieldIsReported | netlify/functions/generate-affidavit.js:15-23 | the first falsy field in the order registry, case number, claimant, defendants gets the 400 naming it |
| TemplateHandler.EmptyDefendantListIsAccepted | netlify/functions/generate-affidavit.js:15-40 | any request whose `defendants` is an empty array and whose other required fields are present passes validation and, when the template renders, gives a document with an empty defendant list |
| BlankServiceHandler.Handle | generate-affidavit.mjs:6-98 | 405 exactly for a non-POST request; a success has every required field truthy and the file name `Affidavit_{case}_{defendant}.docx` |
| BlankServiceHandler.FirstMissingFieldIsReported | generate-affidavit.mjs:18-27 | the first falsy field in the order case number, claimant, defendant name, defendant address gets the 400 naming it |
| BlankServiceHandler.TemplateData | generate-affidavit.mjs:48-57 | the template values: case number, claimant, the defendant name twice, blank date, time and place, and the process name (property in `ServiceIsLeftBlank`) |
| BlankServiceHandler.ServiceIsLeftBlank | generate-affidavit.mjs:48-57 | the template values: <br>• date, time and place are `''`; <br>• `Defendant` and `Name` are both the defendant name; <br>• the process is `General Procedure Claim` |
| BlankServiceHandler.AddressIsOnlyValidated | generate-affidavit.mjs:19-57 | requests that differ only in a truthy address get the same reply |
| ServiceDetailsHandler.Handle | netlify/functions/generate-affidavit.mjs:6-101 | 405 exactly for a non-POST request; a success has all eight fields truthy and the unsanitised-case file name |
| ServiceDetailsHandler.FirstMissingFieldIsReported | netlify/functions/generate-affidavit.mjs:19-29 | the first falsy of the eight fields, case number through service method in that order, gets the 400 naming it |
| ServiceDetailsHandler.TemplateData | netlify/functions/generate-affidavit.mjs:56-65 | the template values: case number, claimant, the defendant twice, the formatted date, the service time and place, and the process name (property in `ServiceDetailsAreFilled`) |
| ServiceDetailsHandler.ServiceDetailsAreFilled | netlify/functions/generate-affidavit.mjs:56-65 | the formatted date, the time and the place reach the form; the defendant fills both name slots |
| ServiceDetailsHandler.DownloadName | netlify/functions/generate-affidavit.mjs:81 | `Affidavit_{case number as is}_{defendant with non-alphanumerics as _}.docx` (property in `CaseNumberIsNotSanitised`) |
| ServiceDetailsHandler.CaseNumberIsNotSanitised | netlify/functions/generate-affidavit.mjs:81 | the case number appears verbatim (any `/` kept) in the file name |
| ServiceDetailsHandler.ServiceMethodIsOnlyValidated | netlify/functions/generate-affidavit.mjs:19-65 | requests that differ only in a truthy service method get the same reply |
| ServiceDetailsHandler.GenerateIgnoresServiceMethod | netlify/functions/generate-affidavit.mjs:56-65 | the document does not depend on the service method |
| PdfExtract.ContentType | netlify/functions/extract-gpc-data.js:76 | `content-type` first, then `Content-Type`; `None` exactly when both are absent or empty |
| PdfExtract.BraceSpan | netlify/functions/extract-gpc-data.js:56 | `/\{[\s\S]*\}/` matches exactly when a `{` precedes a `}`; the match is the widest such span |
| PdfExtract.JsonCandidate | netlify/functions/extract-gpc-data.js:56-57 | the brace span when there is one, the whole reply otherwise (property in `JsonCandidateIsOutermostBraces`) |
| PdfExtract.JsonCandidateIsOutermostBraces | netlify/functions/extract-gpc-data.js:56-57 | the candidate is a piece of the reply: <br>• with a brace pair, it runs from the first `{` to the last `}`; <br>• otherwise it is the whole reply |
| PdfExtract.Handle | netlify/functions/extract-gpc-data.js:4-81 | the replies: <br>• 405 exactly for a non-POST request; <br>• a content-type rejection before any parsing; <br>• 400 exactly when no PDF was uploaded; <br>• a failure of the upload parser or of the model call becomes the 500 `Failed to extract data` with its error; <br>• a candidate that does not parse gives that 500 with a SyntaxError; <br>• a candidate that parses is the success body |
| TextExtract.FenceBody | netlify/functions/extract-gpc-data.mjs:64-65 | the capture group of the fence expression: the text of `FenceSpan` with its trailing whitespace dropped, or `None` (properties in `FenceBodyShape` and `FencedReplyRoundTrip`) |
| TextExtract.FenceSpan | netlify/functions/extract-gpc-data.mjs:64-65 | where the regular expression matches: <br>• the lazy group starts after the first occurrence of the opener and all the whitespace that follows it; <br>• it ends at the first closing fence from there; <br>• there is no match exactly when the opener is absent or no closing fence starts after its first occurrence |
| TextExtract.FenceBodyShape | netlify/functions/extract-gpc-data.mjs:64-65 | a fence body holds no fence and no whitespace at either end |
| TextExtract.FencedReplyRoundTrip | netlify/functions/extract-gpc-data.mjs:64-67 | a reply that is one fenced block gives back the block's contents |
| TextExtract.ReadReply | netlify/functions/extract-gpc-data.mjs:58-71 | how the JSON is read: <br>• a reply that parses is used as is; <br>• otherwise the ```` ```json ```` fence body is parsed if there is one, else the plain fence body; <br>• the selected body's parse is the result, and a body that does not parse raises a SyntaxError; <br>• "Could not parse" is raised exactly when nothing parses and no fence is found |
| TextExtract.Handle | netlify/functions/extract-gpc-data.mjs:3-98 | the replies: <br>• 405 exactly for a non-POST request; <br>• a body that is not JSON gives the 500 with a SyntaxError; <br>• 400 exactly for a missing or empty `text`; <br>• a failure of the model call, or of reading its reply (a SyntaxError, or `Could not parse JSON from response`), becomes the 500 `Failed to extract data from GPC` with that error; <br>• a read object gets `filename` set to the request's, and a read value that is not an object or array gives the 500 with a TypeError; <br>• a success is the read object with `filename` set to the request's |

## Left out

- The language-model calls and prompts, busboy, PizZip, docxtemplater, python-docx loading and saving, and base64 encoding are parameters, or are not modelled. They are foreign libraries and network services.
- The raw-XML fills `fillTableValue`, `fillTableValueForceReplace`, `fillDefendantTable`, `fillDefendantTablePS`, `fillRegistryInfo` and `fillLawFirmInfo` are uninterpreted steps (`PsHandler.XmlSteps`). The model fixes only which values each receives and the order of the steps.
- `formatAddress` is a parameter of the service statement. Its case-insensitive street-type match with `\b` word boundaries and its backtracking suburb/state/postcode pattern are regular-expression semantics this model does not capture.
- `extractLawFirmInfo` is modelled only for its `lodgedBy` rule; its name, address, reference, e-mail and telephone patterns are not. `formatPhoneNumber` is modelled on its own.
- File reads and the probing of template paths are left out. The PS handler takes the first readable template, or none, as a parameter.
- `toLocaleDateString` is a parameter. It depends on locale data.
- DOM updates, `fetch`, `setTimeout`, `confirm`, `URL.createObjectURL`/`revokeObjectURL`, `scrollIntoView`, `alert` and the rendered download list are left out. Each file's answers and the user's confirmation are parameters, and the returned timers, anchors and revoked URLs stand for the effects.
- `generateId` is left out: it depends on the clock and on randomness.
- `embed-template.js` and `embed-template.py` are not part of this model. They generate code.
- `console.log` and `console.error`, which only trace, are left out.
- Case mapping is ASCII only. JavaScript strings are sequences of characters, not UTF-16 code units.
- Replacement strings are inserted literally. `String.replace` would expand a `$&` or `$1` inside a filled value (a name or an address holding `$`); the model does not.
- Numbers are integers: floats, `NaN` and `-0` are not modelled. Property reads of built-in properties of strings and arrays are not modelled either; the handlers read no key that is one.
- `JSON.stringify` is not modelled: how it drops `undefined` and turns values into text is not captured, so replies carry values.
- In the python generator, cells are distinct strings: python-docx repeats merged cells in `row.cells`, which is not modelled. Request fields are assumed present and of the right types, so a `KeyError` or a type error of a malformed request is not modelled.
- `processFiles` runs asynchronously. If a second batch is started while one runs, the two interleave; the model runs one batch to completion.
- BatchSession.Fired: each timer is resolved against the entry list as it was when the timers were set. A "start over" before a timer fires would make that download do nothing; this is not modelled.
- BatchSession.AppState.ProcessFiles: the blob URLs of an earlier batch are not revoked when a new batch resets the list, and the model records no such revocation either.
- PdfExtract.Handle: busboy's own errors and its choice among several uploaded files are folded into the `multipart` parameter.

## Findings

| source | as written | input that shows it | evidently intended | confidence | as-written member | corrected member |
|---|---|---|---|---|---|---|
| netlify/functions/generate-affidavit-ps.mjs:664-676 | the test for a leading `0` comes before the test for a leading `04`, so the mobile layout is unreachable | `0412345678` is formatted `(04) 1234 5678` | mobile numbers laid out `0412 345 678` | not executed | Phone.MobileBranchIsDead | Phone.FormatPhoneNumberIntended |
| app.js:275-283 | each "download all" timer carries the entry's file name and looks it up with `find`, which returns the first match | two claims numbered `A/1` and `A-1` (or two PDFs of one case): the second timer downloads the first affidavit again, and the second affidavit is never downloaded | every generated affidavit downloaded once | not executed | BatchSession.DuplicateNameDownloadsFirstTwice | BatchSession.IndexScheduleDownloadsEachOnce |
