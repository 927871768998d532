# NF-e suite: key extraction, invoice rows and batch helpers in Dafny

This project models the data-handling core of a small NF-e (Brazilian electronic
invoice) suite. The suite has three apps.

- **The barcode extractor of the combined app** (`combo_app/processors/extractor_pyzbar.py`).
  It reads every page of a DANFE and records each non-empty decoded payload as an
  "other reading". A payload whose digits alone are 44 long yields an access key.
  Keys are deduplicated, keeping the first occurrence. Module `BarcodeKeys`.
- **The PDF app.**
  - Its folder extractor (`pdf_app/extractor.py`) strips each payload. A payload
    is a key only when it is already 44 digits. Keys and other readings are
    collected in sets and returned sorted. The folder pass builds a detail table
    and a summary table; a failing file becomes an error row (module `PdfExtractor`).
  - Its upload loop (`pdf_app/app.py`) visits the unpacked names in sorted order
    and does the same aggregation. The rendering DPI is limited to 100–600 and
    defaults to 300 (module `PdfApp`).
  - Both share the table shapes in `PdfTables`.
- **The XML app** (`xml_app/app.py`). Each `det` item of a parsed invoice becomes
  one 25-field text row, numbered from 1. Dates are reformatted, and missing
  optional values default to "0" or "". The written sheet is then normalised
  column by column: values are cleaned and converted, number formats set, and
  the issuer CNPJ masked. Module `XmlInvoice`.
- **The combined app's helpers** (`combo_app/app.py`): the sheet-name rule,
  one row per XML file, the placeholder PDF summary, the names a zip is
  extracted to, and the split of a batch by suffix. Module `ComboApp`.

Shared modules:
- `Text`: Python string operations with their Python meaning — `re.sub(r"\D+", "", s)`,
  `strip`, `lower`, `endswith`, `replace`, `join`, `split`, clamped slicing, `str(n)`.
- `Paths`: `os.path.basename` and `os.path.join`, plus pathlib's `name`, `suffix` and `/`.
- `StringOrder`: Python's ordinal string order, and `sorted`.
- `Seqs`: flattening, first-occurrence deduplication and filtering.

The form follows the source:
- Loops that append to lists or add to sets are methods with loop invariants.
- The XML row builder mutates the caller's `result_list`, so it is a method of the
  class `ResultList`.
- The sheet formatter updates worksheet cells in place, so it works on an `array2`
  of cells held by the class `Worksheet`.
- Each method is proved against a specification function.
- Pure expressions are functions.

Each external effect is a parameter:
- what a file holds (its pages of decoded payloads, or a read error);
- what parsing an XML file yields;
- whether a text converts to a float.

## Model

| member | source | states |
|---|---|---|
| Text.OnlyDigits | nfe-suite/apps/combo_app/processors/extractor_pyzbar.py:13-16 | the result holds only digits and is never longer than the input |
| Text.OnlyDigitsOrEmpty | nfe-suite/apps/combo_app/processors/extractor_pyzbar.py:15-16 | `None` gives "", any text gives its digits |
| Text.OnlyDigitsAppend | nfe-suite/apps/combo_app/processors/extractor_pyzbar.py:13-16 | the digits of a concatenation are the concatenated digits, so order is kept |
| Text.OnlyDigitsKeepsDigits | nfe-suite/apps/combo_app/processors/extractor_pyzbar.py:13-16 | every digit of the input survives as often as it occurs |
| Text.OnlyDigitsFixpoint | nfe-suite/apps/combo_app/processors/extractor_pyzbar.py:13-16 | a text is its own digit form exactly when it is all digits |
| Text.OnlyDigitsIdempotent | nfe-suite/apps/combo_app/processors/extractor_pyzbar.py:13-16 | filtering twice is filtering once |
| Text.OnlyDigitsIgnoresSeparator | nfe-suite/apps/combo_app/processors/extractor_pyzbar.py:39-41 | a non-digit inside a payload (space, dot) does not change its digits |
| BarcodeKeys.KeyOf | nfe-suite/apps/combo_app/processors/extractor_pyzbar.py:39-41 | a payload yields a key iff its digit form is 44 long, and the key is that 44-digit form |
| BarcodeKeys.PayloadStep | nfe-suite/apps/combo_app/processors/extractor_pyzbar.py:35-41 | an empty payload adds nothing; a non-empty one adds itself to the readings, and its digits to the keys when they are 44 long |
| BarcodeKeys.EmptyPayloadIgnored | nfe-suite/apps/combo_app/processors/extractor_pyzbar.py:35-37 | an empty payload anywhere changes neither readings nor keys |
| BarcodeKeys.CandidatesAreKeys | nfe-suite/apps/combo_app/processors/extractor_pyzbar.py:39-41 | every key found is a 44-digit string |
| BarcodeKeys.CandidateMembership | nfe-suite/apps/combo_app/processors/extractor_pyzbar.py:39-41 | a text is a key found iff some payload's digit form is that text and 44 long |
| BarcodeKeys.CandidatesAtMostReadings | nfe-suite/apps/combo_app/processors/extractor_pyzbar.py:38-41 | before deduplication there are no more keys than readings |
| BarcodeKeys.ScanPage | nfe-suite/apps/combo_app/processors/extractor_pyzbar.py:34-41 | the inner loop extends readings and keys by exactly one page's payloads |
| Seqs.Dedup | nfe-suite/apps/combo_app/processors/extractor_pyzbar.py:43-45 | deduplication keeps the same set of elements |
| BarcodeKeys.DedupKeys | nfe-suite/apps/combo_app/processors/extractor_pyzbar.py:43-45 | the `seen`-set comprehension computes first-occurrence deduplication |
| BarcodeKeys.ExtractKeys | nfe-suite/apps/combo_app/processors/extractor_pyzbar.py:18-46 | readings are all non-empty payloads in page-then-decode order, repeats kept; keys are the deduplicated keys of those payloads |
| BarcodeKeys.ExtractedKeys | nfe-suite/apps/combo_app/processors/extractor_pyzbar.py:39-45 | returned keys are 44 digits, duplicate-free, in first-occurrence order, the same set as before deduplication, and no more than the readings |
| Text.StripLeft | nfe-suite/apps/pdf_app/extractor.py:31 | no longer than its input, and empty or starting with a non-whitespace character |
| Text.StripRight | nfe-suite/apps/pdf_app/extractor.py:31 | no longer than its input, and empty or ending with a non-whitespace character |
| Text.Strip | nfe-suite/apps/pdf_app/extractor.py:31 | never longer than its input |
| Text.StripLeftOnlySpace | nfe-suite/apps/pdf_app/extractor.py:31 | every character the left strip drops is whitespace |
| Text.StripRightOnlySpace | nfe-suite/apps/pdf_app/extractor.py:31 | every character the right strip drops is whitespace |
| Text.StripOnlySpace | nfe-suite/apps/pdf_app/extractor.py:31 | `strip` keeps one contiguous stretch of its input; everything before and after it is whitespace |
| Text.StripEnds | nfe-suite/apps/pdf_app/extractor.py:31 | what `strip` returns neither starts nor ends with whitespace |
| Text.StripLeftIsSuffix | nfe-suite/apps/pdf_app/extractor.py:31 | the left strip keeps a suffix of its input |
| Text.StripRightIsPrefix | nfe-suite/apps/pdf_app/extractor.py:31 | the right strip keeps a prefix of its input |
| Text.StripKeepsAbsent | nfe-suite/apps/xml_app/app.py:110 | stripping introduces no character |
| Text.StripUnchanged | nfe-suite/apps/xml_app/app.py:110 | text without whitespace at either end is left as it is |
| Text.StripIdempotent | nfe-suite/apps/xml_app/app.py:118 | stripping twice is stripping once |
| PdfExtractor.Classify | nfe-suite/apps/pdf_app/extractor.py:31-36 | a key is a 44-digit text; a payload is dropped iff it strips to ""; the text kept is the stripped payload |
| PdfExtractor.ClassifyMeaning | nfe-suite/apps/pdf_app/extractor.py:31-36 | the rule case by case: a stripped payload is a key iff it is 44 digits, another reading iff it is non-empty and not a key, dropped iff empty; the stored text is the stripped payload |
| PdfExtractor.SeparatorsNotTolerated | nfe-suite/apps/pdf_app/extractor.py:31-33 | a stripped payload with a non-digit inside is never a key |
| PdfExtractor.KeySetMembership | nfe-suite/apps/pdf_app/extractor.py:26-33 | the key set holds exactly the texts some payload classifies as a key |
| PdfExtractor.OtherSetMembership | nfe-suite/apps/pdf_app/extractor.py:26-36 | the other set holds exactly the texts some payload classifies as another reading |
| PdfExtractor.KeysAndOthersDisjoint | nfe-suite/apps/pdf_app/extractor.py:32-36 | keys and other readings are disjoint; keys are 44 digits; other readings are non-empty non-keys |
| PdfExtractor.PageOrderIrrelevant | nfe-suite/apps/pdf_app/extractor.py:26-33 | two files with the same pages in any order or multiplicity give the same sets |
| PdfExtractor.ScanPage | nfe-suite/apps/pdf_app/extractor.py:30-36 | the inner loop adds one page's keys and other readings to the two sets |
| PdfExtractor.ExtractKeys | nfe-suite/apps/pdf_app/extractor.py:16-42 | the file's base name, then the key set and the other set, each strictly ascending, holding exactly those sets |
| StringOrder.LtIrreflexive | nfe-suite/apps/pdf_app/extractor.py:40-41 | no text sorts before itself in Python's code-point order |
| StringOrder.LtAsymmetric | nfe-suite/apps/pdf_app/extractor.py:40-41 | two texts are never each before the other |
| StringOrder.LtTransitive | nfe-suite/apps/pdf_app/extractor.py:40-41 | the order is transitive |
| StringOrder.LtTotal | nfe-suite/apps/pdf_app/extractor.py:40-41 | of two distinct texts one sorts before the other |
| StringOrder.SortSet | nfe-suite/apps/pdf_app/extractor.py:40-41 | `sorted` of a set is the unique strictly ascending sequence of its elements |
| StringOrder.SortedSeq | nfe-suite/apps/pdf_app/extractor.py:40-41 | strictly ascending and holding exactly the set |
| PdfExtractor.SortedSetLength | nfe-suite/apps/pdf_app/extractor.py:62 | the sorted key list has as many entries as the key set |
| Paths.JoinPath | nfe-suite/apps/pdf_app/extractor.py:55 | an absolute name replaces the folder; otherwise the result starts with the folder and ends with the name, with one '/' between unless the folder is empty or ends with '/' |
| Paths.BaseName | nfe-suite/apps/pdf_app/extractor.py:39 | the base name has no '/' and is what follows the last '/' |
| Paths.BaseNameOfJoin | nfe-suite/apps/pdf_app/extractor.py:39 | the base name of a folder entry joined onto its folder is the entry |
| PdfExtractor.ProcessFolder | nfe-suite/apps/pdf_app/extractor.py:44-76 | the tables are the deduplicated detail rows and the sorted summary of the ".pdf" entries, in listing order |
| PdfExtractor.OneSummaryRowPerPdf | nfe-suite/apps/pdf_app/extractor.py:51-72 | exactly one summary row per ".pdf" entry, success or failure |
| PdfExtractor.SummaryRowsInListingOrder | nfe-suite/apps/pdf_app/extractor.py:51-72 | the summary rows are the rows of the ".pdf" entries, in listing order |
| PdfExtractor.PdfSummaryRowShape | nfe-suite/apps/pdf_app/extractor.py:56-72 | a PDF entry's row is named after it; on success it counts the keys and holds the ", "-joins of the sorted keys and of the sorted other readings; on failure it is the error row |
| PdfExtractor.SummaryRowsFollowEntries | nfe-suite/apps/pdf_app/extractor.py:56-72 | each summary row names its entry; on success it counts the keys and holds the ", "-joins of the sorted keys and of the sorted other readings; on failure it is the error row |
| PdfExtractor.EntryKeyRowsMember | nfe-suite/apps/pdf_app/extractor.py:57-59 | an entry's detail rows are exactly (entry, key) for each key of a readable ".pdf" entry |
| PdfExtractor.KeyRowsComeFromExtraction | nfe-suite/apps/pdf_app/extractor.py:51-59 | a detail row exists iff its file is a readable ".pdf" entry and its key is one of that file's keys |
| PdfTables.JoinedCell | nfe-suite/apps/pdf_app/extractor.py:63-64 | no items give "", one item gives that item |
| PdfTables.KeyRowsMember | nfe-suite/apps/pdf_app/extractor.py:58-59 | a file's detail rows are exactly (file, k) for its keys k |
| PdfTables.KeyRows | nfe-suite/apps/pdf_app/app.py:37-38 | one detail row per key, in key order, all naming the file |
| PdfTables.SuccessRowKeys | nfe-suite/apps/pdf_app/extractor.py:60-65 | the count is the number of keys; the keys cell is "" iff there are none, and splits back into exactly the keys |
| Text.Lower | nfe-suite/apps/pdf_app/extractor.py:52 | same length, each character lower-cased by its own rule |
| PdfTables.IsPdfName | nfe-suite/apps/pdf_app/extractor.py:52 | a name is processed iff its last four characters, lower-cased, are ".pdf" |
| PdfTables.SuccessRow | nfe-suite/apps/pdf_app/extractor.py:60-65 | a success row names the file, counts the keys and holds the joined keys and other readings |
| PdfTables.ErrorRow | nfe-suite/apps/pdf_app/extractor.py:66-72 | an error row names the file, has count 0, no keys, and "ERRO: " followed by the message |
| PdfTables.FinishTables | nfe-suite/apps/pdf_app/extractor.py:74-75 | detail rows are deduplicated keeping first occurrences; the summary is a permutation sorted by file name; an empty summary raises the missing-column error |
| StringOrder.SortBy | nfe-suite/apps/pdf_app/app.py:31 | `sorted(...)` gives a permutation of the input in ascending order |
| StringOrder.FilterSorted | nfe-suite/apps/pdf_app/app.py:31-33 | skipping names keeps the visited names ascending |
| StringOrder.SortBySortedIsIdentity | nfe-suite/apps/pdf_app/app.py:54 | sorting rows that are already in order leaves them as they are |
| PdfApp.SummaryOf | nfe-suite/apps/pdf_app/app.py:39-51 | a file's summary row carries its name, whatever the outcome |
| PdfApp.DetailOf | nfe-suite/apps/pdf_app/app.py:37-38 | a failed file contributes no detail rows |
| PdfApp.ProcessZip | nfe-suite/apps/pdf_app/app.py:31-54 | the loop over the sorted listing yields the deduplicated detail rows and the sorted summary of the ".pdf" names |
| PdfApp.SummaryFollowsNames | nfe-suite/apps/pdf_app/app.py:31-51 | exactly one summary row per ".pdf" name, in name order, each built from that file's outcome |
| PdfApp.SummaryRowShape | nfe-suite/apps/pdf_app/app.py:39-51 | the row rule per outcome: success: count = number of keys, cells are ", "-joins or ""; failure: count 0, no keys, "ERRO: " + message |
| PdfApp.SummaryInNameOrder | nfe-suite/apps/pdf_app/app.py:31-54 | the names were visited sorted, so the final sort leaves the summary in loop order |
| PdfApp.DetailOfMember | nfe-suite/apps/pdf_app/app.py:37-38 | a file's detail rows are exactly (file, key) for the keys of a successful outcome |
| PdfApp.DetailRowsComeFromOutcomes | nfe-suite/apps/pdf_app/app.py:31-38 | a detail row exists iff its file is a listed ".pdf" name whose extraction succeeded with that key |
| PdfApp.AsWrittenEveryFileFails | nfe-suite/apps/pdf_app/app.py:36 | with the call as written, no detail row is ever produced and every summary row has no keys |
| PdfApp.AsWrittenLosesKeys | nfe-suite/apps/pdf_app/app.py:36 | a readable PDF with a key is reported as the unpacking error, while the intended call yields its key rows |
| PdfApp.CorrectedDetailRows | nfe-suite/apps/pdf_app/app.py:36-38 | with the intended call, a detail row exists iff its file is a readable ".pdf" name and the key is one of its 44-digit payloads |
| PdfApp.CorrectedSummaryCounts | nfe-suite/apps/pdf_app/app.py:36-41 | with the intended call, a readable file's summary counts its distinct keys |
| XmlInvoice.GetTextOrZero | nfe-suite/apps/xml_app/app.py:8-9 | the element's text when it exists and is non-empty, otherwise "0"; never empty |
| XmlInvoice.TextOrEmpty | nfe-suite/apps/xml_app/app.py:50-51 | "" exactly when the discount element is missing or has no text, otherwise its text |
| XmlInvoice.FormatDate | nfe-suite/apps/xml_app/app.py:21-31 | "" exactly when the element is missing or its text empty; at most 10 characters |
| XmlInvoice.DateRoundTrip | nfe-suite/apps/xml_app/app.py:21-31 | "YYYY-MM-DD..." becomes "DD/MM/YYYY" |
| XmlInvoice.ShortDateText | nfe-suite/apps/xml_app/app.py:21-31 | with clamped slicing, a text of at most 5 characters becomes "//" and its first four characters |
| XmlInvoice.ItemRow | nfe-suite/apps/xml_app/app.py:58-68 | an item's row exists iff every element read with `.text` is present |
| XmlInvoice.ItemRowFields | nfe-suite/apps/xml_app/app.py:58-68 | 25 fields, each position stated: the nine invoice texts and four invoice totals, the two reformatted dates, the item number, the five product texts, the discount ("" default), the item total and the four tax fields ("0" default) |
| XmlInvoice.ColumnsAlign | nfe-suite/apps/xml_app/app.py:143-150 | the 25 headers name, position by position, the fields the row rules write there |
| XmlInvoice.ItemRows | nfe-suite/apps/xml_app/app.py:43-69 | the i-th row is item i's row with number i + 1; rows stop at the first item that cannot be built |
| XmlInvoice.RowsNumbered | nfe-suite/apps/xml_app/app.py:43-69 | every row has 25 fields and its item number reads back as 1, 2, ... |
| XmlInvoice.RowsComplete | nfe-suite/apps/xml_app/app.py:44-68 | every item gets a row iff there are no items or all required elements are present |
| XmlInvoice.ResultList.ExtractInfoFromXml | nfe-suite/apps/xml_app/app.py:12-69 | the list keeps its old rows and gains the item rows; it raises iff some item's row cannot be built |
| XmlInvoice.RowAppended | nfe-suite/apps/xml_app/app.py:58-69 | while all earlier items succeeded, the next item's row is appended after theirs |
| XmlInvoice.RowsEndAt | nfe-suite/apps/xml_app/app.py:44-68 | when an item's row cannot be built, the rows before it are all the rows, fewer than the items |
| XmlInvoice.RowsStop | nfe-suite/apps/xml_app/app.py:44-69 | after a failing item, later items add nothing |
| Text.ReplaceAll | nfe-suite/apps/xml_app/app.py:110 | replacing by a text of the pattern's length keeps the length; removing never lengthens |
| Text.RemoveCharIsFilter | nfe-suite/apps/xml_app/app.py:110 | removing a character keeps every other character, in order: the text filtered by "is not that character" |
| Text.ReplaceAllAppendChar | nfe-suite/apps/xml_app/app.py:110 | a character outside the pattern, appended to the text, is carried through to the end of the result unchanged |
| Text.ReplaceCharPointwise | nfe-suite/apps/xml_app/app.py:110 | replacing one character by another keeps the length, turns each occurrence into the replacement and keeps every other character in place |
| Text.DigitNotSpace | nfe-suite/apps/xml_app/app.py:110 | a digit is never stripped as whitespace |
| XmlInvoice.CleanValue | nfe-suite/apps/xml_app/app.py:110 | a cleaned value holds no '%' and no ',' |
| XmlInvoice.CleanValueDecimalSeparator | nfe-suite/apps/xml_app/app.py:110 | on a text without '$' and '%', cleaning is stripping the text in which every ',' became '.' and every other character stayed |
| XmlInvoice.CleanValueDecimalComma | nfe-suite/apps/xml_app/app.py:110 | a decimal written "a,b" with digit runs a and b cleans to "a.b" |
| XmlInvoice.CleanValueWithoutCurrency | nfe-suite/apps/xml_app/app.py:110 | on a text without '$', cleaning keeps every character but '%' in order, then turns ',' into '.' and strips |
| XmlInvoice.CleanValueCurrencyPrefix | nfe-suite/apps/xml_app/app.py:110 | a leading "R$" is removed and the rest is cleaned as if it were absent |
| XmlInvoice.CleanValuePercentSuffix | nfe-suite/apps/xml_app/app.py:110 | a trailing '%' is removed and the rest is cleaned as if it were absent |
| XmlInvoice.CleanValueMoney | nfe-suite/apps/xml_app/app.py:110 | a money value "R$a,b" with digit runs a and b cleans to "a.b" |
| XmlInvoice.CleanValuePercentage | nfe-suite/apps/xml_app/app.py:110 | a percentage "a,b%" with digit runs a and b, such as "18,00%", cleans to "a.b" |
| XmlInvoice.CleanValueShape | nfe-suite/apps/xml_app/app.py:110 | a cleaned value has no '%', no ',' and no surrounding whitespace |
| XmlInvoice.CleanValueIdempotent | nfe-suite/apps/xml_app/app.py:110 | cleaning a cleaned value without '$' changes nothing |
| XmlInvoice.CleanValueNotIdempotent | nfe-suite/apps/xml_app/app.py:110 | "R%$" cleans to "R$", which cleans to "" |
| XmlInvoice.MaskCnpj | nfe-suite/apps/xml_app/app.py:125 | 18 characters with '.', '.', '/', '-' at positions 2, 6, 10, 15 |
| XmlInvoice.MaskKeepsDigits | nfe-suite/apps/xml_app/app.py:123-125 | the mask of 14 digits holds exactly those digits, in order |
| XmlInvoice.CnpjCell | nfe-suite/apps/xml_app/app.py:122-125 | text with exactly 14 digits becomes 18 characters with the same digits; any other text is unchanged |
| XmlInvoice.CnpjCellIdempotent | nfe-suite/apps/xml_app/app.py:122-125 | masking a masked CNPJ gives it back |
| XmlInvoice.FormatCell | nfe-suite/apps/xml_app/app.py:108-127 | a cell is either left as it was or given the column's number format |
| XmlInvoice.FormatCellMeaning | nfe-suite/apps/xml_app/app.py:108-127 | the cell rule case by case: an empty cleaned value or a failed conversion leaves the cell; a change stores the column format; "@" keeps the stripped text, masked in the CNPJ column; "%" formats hold the percent number, "0" the integer, any other format the decimal |
| XmlInvoice.HeaderKey | nfe-suite/apps/xml_app/app.py:102 | a header cell contributes a name iff its value is truthy |
| XmlInvoice.HeaderKeys | nfe-suite/apps/xml_app/app.py:102 | one name per header cell, cell by cell |
| XmlInvoice.HeaderMap | nfe-suite/apps/xml_app/app.py:102 | each name mapped goes to a 1-based column holding that name, and every header name is mapped |
| XmlInvoice.HeaderMapNames | nfe-suite/apps/xml_app/app.py:102 | a name is mapped iff some header cell holds it |
| XmlInvoice.HeaderMapMeaning | nfe-suite/apps/xml_app/app.py:102 | each stripped name maps to a 1-based column holding it, the last one that does |
| XmlInvoice.HeaderMapInjective | nfe-suite/apps/xml_app/app.py:102 | two names never share a column |
| XmlInvoice.FormatNamesDistinct | nfe-suite/apps/xml_app/app.py:79-100 | the format table names each column once |
| XmlInvoice.UnformattedColumn | nfe-suite/apps/xml_app/app.py:104-107 | a column no format names keeps its cells |
| XmlInvoice.FormattedOnce | nfe-suite/apps/xml_app/app.py:104-107 | with distinct names and an injective header map, a column is formatted once, by its own format |
| XmlInvoice.FormatTableColumn | nfe-suite/apps/xml_app/app.py:79-127 | in the sheet, a column headed by a format-table name ends up formatted once with that format |
| XmlInvoice.Worksheet.FormatColumn | nfe-suite/apps/xml_app/app.py:107-127 | every cell of the column gets the cell rule; other columns are unchanged |
| XmlInvoice.Worksheet.FormatColumns | nfe-suite/apps/xml_app/app.py:104-127 | each cell ends as the cell rule applied by every format that names its column, in table order |
| XmlInvoice.Worksheet.FormatExcel | nfe-suite/apps/xml_app/app.py:102-127 | each cell ends as the formats of the header-mapped table leave it |
| ComboApp.SheetName | nfe-suite/apps/combo_app/app.py:59 | 1 to 31 characters; "Planilha" for None or ""; otherwise the name's first min(31, length) characters |
| ComboApp.SheetNameKeepsShortNames | nfe-suite/apps/combo_app/app.py:59 | a non-empty name of at most 31 characters is used as it is |
| ComboApp.SheetNameTruncates | nfe-suite/apps/combo_app/app.py:59 | names that agree on their first 31 characters give the same sheet name |
| ComboApp.FieldOf | nfe-suite/apps/combo_app/app.py:89-91 | a missing element gives "", a present one its text |
| ComboApp.XmlRowOf | nfe-suite/apps/combo_app/app.py:87-100 | the row names the file; it has an error iff parsing failed, then with empty fields and the message |
| ComboApp.XmlRows | nfe-suite/apps/combo_app/app.py:80-100 | one row per path, in input order, each the row of that path |
| ComboApp.ProcessXmls | nfe-suite/apps/combo_app/app.py:72-103 | the loop builds exactly those rows, going on after a parse failure |
| ComboApp.ProcessPdfsBasic | nfe-suite/apps/combo_app/app.py:105-117 | one "Recebido" row per path, named by the path's last component, and no key rows |
| Paths.PathName | nfe-suite/apps/combo_app/app.py:43 | the last component has no '/', and is either "" (no component) or a component other than "." |
| Paths.PathNameOfChild | nfe-suite/apps/combo_app/app.py:43 | a component placed under a folder is the name of the resulting path |
| ComboApp.TargetOf | nfe-suite/apps/combo_app/app.py:43 | a member with a last component is saved under a path named by that component |
| ComboApp.ZipTargets | nfe-suite/apps/combo_app/app.py:40-46 | no more paths than members, each the target of a file member |
| ComboApp.ExtractZipTo | nfe-suite/apps/combo_app/app.py:35-47 | returns the target of every file member, in archive order, skipping directories |
| ComboApp.ZipTargetsFollowFiles | nfe-suite/apps/combo_app/app.py:40-46 | one path per file member, the i-th being the folder joined with the i-th file member's last component |
| ComboApp.TargetNamed | nfe-suite/apps/combo_app/app.py:43 | a saved path is the folder, '/', and the member's last component, which is the path's name |
| Paths.Suffix | nfe-suite/apps/combo_app/app.py:203-204 | "" or a dot-led tail of the name with no further dot, shorter than the name |
| Paths.LastIndexOfAt | nfe-suite/apps/combo_app/app.py:203-204 | a character's last occurrence is found wherever it is |
| Paths.SuffixPresent | nfe-suite/apps/combo_app/app.py:203-204 | a name whose last '.' is interior has the tail from that dot as its suffix |
| ComboApp.SuffixDecidesXml | nfe-suite/apps/combo_app/app.py:203 | a file with an interior last dot is in the XML list iff that tail, lower-cased, is ".xml" |
| ComboApp.UpperCaseXmlIsXml | nfe-suite/apps/combo_app/app.py:203 | "nota.XML" is taken as XML |
| ComboApp.BatchSplit | nfe-suite/apps/combo_app/app.py:203-204 | the XML and PDF lists keep exactly the files of each suffix, are disjoint, and together no longer than the batch |
| ComboApp.BatchXmlRowsAreXml | nfe-suite/apps/combo_app/app.py:203-210 | the filter rule read off the table: every row of the batch's XML table names a file whose lower-cased suffix is ".xml" |

## Left out

- The Streamlit interfaces are not modelled: page setup, uploaders, buttons, previews and downloads. Neither are the session temp folder, `save_uploaded_files` and the PDF app's unpacking of its upload (`zf.extractall` in pdf_app/app.py). These are user interface and file I/O. The combined app's `extract_zip_to` is modelled as `ComboApp.ExtractZipTo`.
- PDF rasterisation, image mode conversion and barcode decoding are native calls. A file is given as its pages of decoded payload texts, or as the error reading it raised. The byte-to-text decode with `errors="ignore"` is taken as already done.
- XML parsing and the XPath lookups are a library. An invoice is given as the elements the lookups found (missing, or present with a text that may be None). A file that cannot be parsed is given as its error message.
- Spreadsheet writing is not modelled: pandas, openpyxl and xlsxwriter, `df_to_excel_bytes` beyond its sheet-name rule, and `excel_filename`, which reads the clock.
- Digits are the ASCII digits and lower-casing is ASCII only. `str.isdigit` and `\D` also accept other Unicode digits.
- XmlInvoice.FormatCell: a converted number is kept as its cleaned text plus its kind (integer, percent over 100, decimal), not as the float Python computes.
  - Whether a text converts to a float is the parameter `parses`.
  - For the "0" format, `int()` rejecting infinity and NaN is not modelled. The format table never uses that format.
  - Each column is formatted at most once (`FormattedOnce`), so a cell never sees its own converted value again.
- XmlInvoice.FormatCellMeaning: the CNPJ mask is stated for text values only. That is what the "@" format of the CNPJ column always produces.
- XmlInvoice.CleanValueIdempotent: holds only when the cleaned value has no '$'. In general cleaning is not idempotent, because removing "%" can bring "R" and "$" together (`CleanValueNotIdempotent`).
- XmlInvoice.ResultList.ExtractInfoFromXml: the AttributeError raised at a missing element is a `raised` flag. The exception itself, and the upload loop it ends, are not modelled.
- ComboApp.ExtractZipTo: file contents and writing are not modelled.
  - A member whose last component is empty (a member named ".") targets the folder itself. A member whose last component is ".." (such as "a/..") targets the folder's parent. Opening either for writing raises.
  - In the source that exception leaves `extract_zip_to`, so no paths are returned at all. The model returns the target and goes on with the next member.
  - Two members with the same last component overwrite one file on disk; both paths are still returned.
- ComboApp.XmlRowOf: the missing `erro` cell of a parsed row, which pandas fills with NaN, is `None`.
- The summary sorts in pdf_app/app.py:54 and pdf_app/extractor.py:75 are modelled as an insertion sort, which is stable. pandas' default sort is not stable. The summary rows of a batch name distinct directory entries, so both sorts give the same order.
- PdfApp.ProcessZip takes the per-file extraction as a parameter. The call as written is `PdfApp.AsWrittenExtract` and the intended call is `PdfApp.CorrectedExtract` (see Findings).
- The combined app's zip tab after the suffix split is not modelled. It is user interface and its source breaks off at line 216.

## Findings

| source | as written | input that shows it | evidently intended | confidence | as-written member | corrected member |
|---|---|---|---|---|---|---|
| nfe-suite/apps/pdf_app/app.py:36 | the loop assigns the extractor's result to two names, but `extrair_chaves_de_pdf` in pdf_app/extractor.py:16-42 returns one `PDFExtractionResult` object, which cannot be unpacked, so every readable PDF ends in the except branch as an error row | a zip holding one readable PDF whose page decodes to a 44-digit key: the summary shows "ERRO: cannot unpack non-iterable PDFExtractionResult object" and the detail table is empty | take the keys and readings from the result's `chaves_44` and `outras_leituras` fields | high; not executed | PdfApp.AsWrittenLosesKeys | PdfApp.CorrectedDetailRows |
