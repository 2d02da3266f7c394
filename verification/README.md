# Product marks service — a Dafny model of its data logic

The service is a browser-only tool for keeping "product marks" (Russian
marking codes, each either a КМДМ or a КМЧЗ mark) in a table in local
storage. This project models the logic behind it as pure functions over
immutable values and proves what that logic promises:

- the record store: add, update by id, delete by id, clear, and bulk add
  with its 13-character brand de-duplication (`storage.ts`);
- the bulk-paste handlers of the table: line splitting, trimming, optional
  Base64 decoding with a silent fallback, the pre-filter against existing
  brands, the skipped count, the local list updates after save and delete,
  the pending brand type of an edited row, and the set of rows whose code
  is shown (`ProductMarksTable.tsx`);
- the JSON import: the structural validator, the flattening of products ×
  mark codes into marks, and mark-type detection (`jsonImporter.ts`);
- GS1 separator handling before a DataMatrix image is requested, in the two
  places that do it (`CodeDisplay.tsx`, `codeGenerator.ts`);
- the share-link codec: JSON text → UTF-8 → Base64 (section 4 of RFC 4648)
  → the URL-safe alphabet of section 5 of RFC 4648 without padding, and
  back (`urlState.ts`);
- the global search filter, the PDF report cell text, code-line chunking
  and page-break arithmetic, the table-settings dialog, the toast queue
  and the theme cycle.

The browser primitives the code leans on are modelled concretely, over
strings as sequences of characters (Unicode code points, where JavaScript
counts UTF-16 code units; see "Left out"):
`String.prototype.trim` (the ECMAScript white-space and line-terminator
set), `split`, `includes`, `substring`, `toLowerCase` (ASCII and the basic
Cyrillic block), `btoa` (section 4 of RFC 4648 over a binary string),
`atob` (the WHATWG forgiving-base64 decode, returning `None` where the
browser throws), and `encodeURIComponent` / `decodeURIComponent` over
UTF-8. `JSON.stringify` / `JSON.parse` are an abstract codec
(`JsonCodec.MarkListCodec`) whose only assumed law is that parsing what was
stringified gives it back (`JsonCodec.IsFaithful`). Local storage is a
value passed in and returned; ids and timestamps (`Math.random`,
`Date.now`, `new Date().toISOString()`) are functions of the position,
passed in (`Storage.Stamps`, `JsonImporter.Clock`).

Modules follow the source: `ProductMarks` (the record type), `Storage`,
`MarksTable`, `JsonImporter`, `Gs1` and `CodeDisplay` and `CodeGenerator`
(with `BarcodeService` for the image request), `UrlState`, `GlobalSearch`,
`PdfExport`, `TableSettings`, `Toasts`, `Theme`; the platform models are
`Text`, `Base64`, `UriCodec`, `JsonCodec`; `Wrappers`, `Seqs` and
`Chains` (a list of blocks laid end to end) are general helpers.

Bulk add keys a code on its first 13 characters and always creates КМДМ
marks (`src/lib/storage.ts:63,71`); the JSON import decides the type from a
separator, an upper-case `\u001D` escape or `#` (`src/lib/jsonImporter.ts:34`).

## Model

| member | source | states |
|---|---|---|
| ProductMarks.BrandTypeFromName | src/types/ProductMark.ts:6 | a name is accepted exactly when it is one of the two brand-type names, and the value found carries that name |
| ProductMarks.MarkStatusFromName | src/types/ProductMark.ts:9 | a name is accepted exactly when it is one of the three status names, and the value found carries that name |
| ProductMarks.EnumerationsAreExact | src/types/ProductMark.ts:6-14 | `BRAND_TYPES` lists both brand types once each and `MARK_STATUSES` all three statuses once each; distinct values have distinct names |
| ProductMarks.MergeLaws | src/lib/storage.ts:41 | the spread merge of a partial update: an empty update changes nothing, a full update replaces the record, and applying the same update twice is applying it once |
| Storage.GetProductMarks | src/lib/storage.ts:6-14 | a missing or empty stored value, or one that does not parse, loads as the empty list; text that parses loads as the parsed list |
| Storage.LoadAfterSave | src/lib/storage.ts:6-22 | loading what was saved gives the saved list back |
| Storage.LoadAfterClear | src/lib/storage.ts:87-89 | after clearing, the store loads as the empty list |
| Storage.AddProductMark | src/lib/storage.ts:24-34 | exactly one record is appended at the end, carrying every given field plus the new id and creation time; earlier records are unchanged |
| Storage.FindIndex | src/lib/storage.ts:38 | the first position whose id matches, and none exactly when no record has the id |
| Storage.UpdateProductMark | src/lib/storage.ts:36-44 | an unknown id yields no record and leaves the store alone; otherwise only the first record with the id is replaced by its merge with the update, and that merged record is returned |
| Storage.DeleteProductMark | src/lib/storage.ts:46-53 | reports deletion exactly when some record had the id; afterwards no record has it, the others remain in their order and as often as before, and nothing changes when nothing matched |
| Storage.DeleteUndoesAdd | src/lib/storage.ts:24-53 | deleting a record just added under a fresh id restores the store and reports a deletion |
| Storage.KeptCodesProperties | src/lib/storage.ts:57-80 | the codes bulk add keeps are a subsequence of the input in input order, none has a pre-existing brand, their brands are pairwise distinct, and every input brand ends up among the existing or kept brands |
| Storage.KeptCodesAreFirstNew | src/lib/storage.ts:61-80 | a code is kept exactly when its brand is new and no earlier code in the batch has that brand |
| Storage.BulkAddIsIdempotent | src/lib/storage.ts:55-85 | adding the same batch again, once its brands are stored, adds nothing |
| Storage.AddProductMarksBulk | src/lib/storage.ts:55-85 | the stored list is the old list followed by the returned marks; each new mark's datamatrix is its input code and its brand is the code's first 13 characters; every new mark is КМДМ, in circulation, with empty product, barcode and supplier code; new brands are pairwise distinct |
| MarksTable.ParseLinesCleansContent | src/components/ProductMarksTable.tsx:66-75 | the parsed codes are exactly the lines that are not blank after trimming, in order, each trimmed and decoded when decoding is on |
| MarksTable.PlainLinesShape | src/components/ProductMarksTable.tsx:66-75 | without decoding every parsed code is non-empty, and has no line break when no line had one |
| MarksTable.ParseBulkData | src/components/ProductMarksTable.tsx:55-100 | blank input is rejected exactly when it is all white space; otherwise the codes are exactly the cleaned non-blank lines of the trimmed text split at line feeds, "no valid data" exactly when there are none, and at least one and at most as many codes as lines are parsed |
| MarksTable.NonBlankInputParses | src/components/ProductMarksTable.tsx:56-84 | any input that is not blank parses, so the "no valid data" branch is never taken |
| MarksTable.EncodedLineDecodes | src/components/ProductMarksTable.tsx:47-73 | a line that is the Base64 of some bytes is parsed to those bytes as a binary string |
| MarksTable.PreFilter | src/components/ProductMarksTable.tsx:112-116 | keeps, in order, exactly the codes whose 13-character prefix is not an existing brand, each as often as it occurs in the input |
| MarksTable.HandleBulkAdd | src/components/ProductMarksTable.tsx:102-159 | no data and "all exist" happen exactly in their stated cases; otherwise the skipped count is parsed minus kept, the shown list gains the stored new marks, and the store is what bulk add stores for the pre-filtered codes |
| MarksTable.RepeatedCodeKeptOnce | src/components/ProductMarksTable.tsx:112-116 | the pre-filter keeps a repeated new code twice, and bulk add then stores it once |
| MarksTable.EditData | src/components/ProductMarksTable.tsx:161-172 | the edit form holds every editable field of the row, so merging it back gives the row unchanged |
| MarksTable.ReplaceById | src/components/ProductMarksTable.tsx:179-181 | the shown list keeps its length, with the updated record at exactly the positions carrying the id |
| MarksTable.HandleSave | src/components/ProductMarksTable.tsx:174-199 | an unknown id changes neither list; otherwise the store is updated as by update-by-id, and the shown list has the record update-by-id returned at exactly the positions carrying the id, other rows unchanged |
| MarksTable.SaveKeepsListsInStep | src/components/ProductMarksTable.tsx:174-199 | when the table shows the store and ids are unique, saving leaves shown list and store equal |
| MarksTable.UntouchedSaveIsIdentity | src/components/ProductMarksTable.tsx:161-199 | editing a row and saving without changes leaves both lists as they were |
| MarksTable.HandleDelete | src/components/ProductMarksTable.tsx:201-222 | an unknown id changes neither list; otherwise the store is what delete-by-id leaves, and the shown list is a subsequence of the old one that loses exactly the records with the id, keeping every other record as often as before |
| MarksTable.DeleteKeepsListsInStep | src/components/ProductMarksTable.tsx:201-222 | when the table shows the store, deleting leaves shown list and store equal |
| MarksTable.GetBrandType | src/components/ProductMarksTable.tsx:242-247 | the pending brand type is used only for the row being edited and only when it is a valid name; otherwise the stored type |
| MarksTable.ToggleCodeVisibility | src/components/ProductMarksTable.tsx:249-259 | flips membership of exactly one id; `toggleCodeDisplay` at src/components/GlobalSearch.tsx:52-60 is the same operation |
| MarksTable.ToggleTwice | src/components/ProductMarksTable.tsx:249-259 | toggling the same id twice restores the set |
| Base64.AtobInvertsEncode | src/lib/urlState.ts:8-18 | decoding the Base64 of any bytes gives those bytes |
| Base64.BtoaAtob | src/lib/urlState.ts:8-18 | `atob(btoa(s))` is `s` for every binary string |
| Base64.DecodeOrKeep | src/lib/jsonImporter.ts:20-27 | the decoded text when decoding succeeds, and the input unchanged when it fails |
| UriCodec.EncodeUriComponent | src/components/CodeDisplay.tsx:37 | the result contains only unreserved characters and upper-case `%XX` escapes |
| UriCodec.DecodeEncodeUriComponent | src/components/CodeDisplay.tsx:37 | `decodeURIComponent` inverts `encodeURIComponent` on every string |
| UriCodec.CollapseEncodeIsUtf8 | src/lib/urlState.ts:7 | collapsing every `%XX` of the encoded text gives the UTF-8 bytes of the text as a binary string |
| UriCodec.DecodeEscapedUtf8 | src/lib/urlState.ts:19 | escaping each character of a UTF-8 binary string as lower-case `%xx` and decoding gives the original text |
| JsonCodec.StringifyInjective | src/lib/urlState.ts:5-20 | a serialisation that parses back is injective |
| JsonImporter.EveryProduct | src/lib/jsonImporter.ts:108-115 | all elements valid yields true; the call throws exactly when the first element that is not a valid product is `null` |
| JsonImporter.ValidateImportData | src/lib/jsonImporter.ts:99-116 | false for a non-object or a missing `products` array; true exactly for an object whose `products` array holds only objects with string `id`, `productCode`, `vendorCode` and array `barcodes`, `markcodes` (an empty array is valid) |
| JsonImporter.ReadProduct | src/lib/jsonImporter.ts:3-11 | the typed product carries the element's id, product code and vendor code, its barcodes and mark codes element by element, and its brand exactly when the element has a string brand |
| JsonImporter.ReadProducts | src/lib/jsonImporter.ts:84 | the `products` array read element by element, one product per element |
| JsonImporter.DetermineBrandType | src/lib/jsonImporter.ts:32-39 | КМЧЗ exactly when the text contains char 29, the upper-case `\u001D` escape or `#` |
| JsonImporter.ImportedTypeMatchesDisplay | src/lib/jsonImporter.ts:34 | the import's КМЧЗ test agrees with the GS1 test of the code display |
| JsonImporter.ImportedMarkDisplay | src/lib/jsonImporter.ts:32-39 | an imported КМЧЗ mark is always drawn through the GS1 marker replacement, never wrapped, and an imported КМДМ mark is sent as it is |
| JsonImporter.BrandOrUnknown | src/lib/jsonImporter.ts:61 | a non-empty brand is kept, anything else becomes `Unknown` |
| JsonImporter.MarkFields | src/lib/jsonImporter.ts:49-65 | one mark's fields: decoded code, its detected type, id `product_index_millis`, product and supplier codes, first barcode or empty, brand or `Unknown`, in circulation |
| JsonImporter.ConvertToProductMarks | src/lib/jsonImporter.ts:44-72 | one mark per mark code over all products: the result is as long as the products' mark code lists together |
| JsonImporter.ConvertPlacesEveryCode | src/lib/jsonImporter.ts:47-69 | mark code `i` of product `j` lands at position (codes of earlier products) + `i`, in product then code order |
| JsonImporter.ImportedMarkAt | src/lib/jsonImporter.ts:47-69 | the mark at that position has the product's fields and the decoded code |
| JsonImporter.ImportFromJson | src/lib/jsonImporter.ts:77-94 | `null` data fails as unreadable; anything else without a `products` array fails as not found; it succeeds exactly for an object whose every product is readable, and then yields the conversion of those products from clock position 0 |
| JsonImporter.ValidDataImports | src/lib/jsonImporter.ts:77-116 | data the validator accepts, whose code arrays hold strings and whose brands are strings where present, imports without error into the conversion of its products, one mark per mark code |
| JsonImporter.EncodedCodeIsDecoded | src/lib/jsonImporter.ts:49-62 | a mark code that is the Base64 of some bytes is stored as those bytes |
| Gs1.ReplaceEscapes | src/lib/codeGenerator.ts:36 | the escape scan never lengthens the text |
| Gs1.ReplaceAllAbsent | src/components/CodeDisplay.tsx:31-32 | replacing a pattern the text does not hold leaves it unchanged |
| Gs1.ReplaceEscapesAbsent | src/lib/codeGenerator.ts:35-38 | a text holding no escape of either case passes the scan unchanged |
| Gs1.EscapesGone | src/lib/codeGenerator.ts:36 | after the escape scan neither escape spelling occurs |
| Gs1.ReplaceEscapesIdempotent | src/lib/codeGenerator.ts:35-38 | replacing escapes a second time changes nothing |
| Gs1.SeparatorsAppear | src/lib/codeGenerator.ts:36 | an escape or a separator in the input yields a separator in the output |
| Gs1.OtherCharsKept | src/lib/codeGenerator.ts:36 | a character that is neither the separator nor part of an escape occurs in the output exactly when it occurs in the input |
| Gs1.PlainPrefixKept | src/lib/codeGenerator.ts:36 | text before the first backslash is copied unchanged and the scan carries on after it |
| Gs1.PlainTextKept | src/lib/codeGenerator.ts:36 | text without a backslash passes the scan unchanged |
| Gs1.EscapeSegment | src/lib/codeGenerator.ts:36 | each escape of either case becomes exactly one separator, the text before it kept in order and the scan resuming right after it |
| Gs1.LoneBackslashSegment | src/lib/codeGenerator.ts:36 | a backslash that does not open an escape is kept |
| Gs1.ReplaceCharKeepsAbsence | src/components/CodeDisplay.tsx:33 | replacing one character by another, neither of which the pattern holds, cannot create the pattern, so replacing `#` creates no escape |
| Gs1.EscapeBecomesSeparator | src/lib/codeGenerator.ts:36 | an example: `01`, the lower-case escape, `21` becomes `01`, char 29, `21` |
| CodeDisplay.ProcessGs1 | src/components/CodeDisplay.tsx:29-33 | no `#` and no escape of either case remain; detected GS1 content yields a separator; text without markers is unchanged |
| CodeDisplay.ChainIsScanThenHash | src/components/CodeDisplay.tsx:29-33 | the two repeated escape replacements find nothing, so the chain is the escape scan followed by the `#` replacement |
| CodeDisplay.PlainTextPasses | src/components/CodeDisplay.tsx:29-33 | text with neither a backslash nor `#` is unchanged |
| CodeDisplay.MarkerSegment | src/components/CodeDisplay.tsx:29-33 | each marker (an escape of either case or `#`) becomes exactly one separator, the plain text before it kept in order and processing resuming right after it |
| CodeDisplay.LoneBackslashPasses | src/components/CodeDisplay.tsx:29-33 | a backslash that does not open an escape is kept |
| CodeDisplay.DataMatrixDisplay | src/components/CodeDisplay.tsx:18-50 | four parameters with separators and three without; the data parameter decodes back to the payload; `translate-esc=on` exactly in separator mode; plain mode sends the data unchanged; separator mode sends detected GS1 content through the marker replacement and wraps other data in separators |
| CodeDisplay.ShowCode | src/components/CodeDisplay.tsx:9-15 | КМДМ selects plain mode and sends the data as it is; КМЧЗ selects separator mode, sending detected GS1 content through the marker replacement and wrapping other data in separators |
| CodeDisplay.LowerCaseEscapeIsWrapped | src/components/CodeDisplay.tsx:20-42 | text whose only marker is a lower-case `\u001d` escape is not detected, so it is wrapped with the escape left in place |
| CodeGenerator.ProcessedData | src/lib/codeGenerator.ts:30-39 | when the upper-case escape or a separator is detected, the payload is the escape scan of the trimmed text, with no escape left; otherwise the trimmed text |
| CodeGenerator.ProcessedSegment | src/lib/codeGenerator.ts:30-39 | with GS1 detected, each escape in the trimmed text becomes exactly one separator, the text before it kept in order |
| CodeGenerator.DataMatrixRequest | src/lib/codeGenerator.ts:42-64 | nine fixed parameters after the data, plus `translate-esc=on` and `eclevel=L` exactly when GS1 is detected; the data parameter decodes back to the payload |
| CodeGenerator.GenerateCode | src/lib/codeGenerator.ts:137-143 | КМДМ goes to the QR code with the data as is, everything else to the DataMatrix request |
| CodeGenerator.GeneratorTestImpliesDisplayTest | src/lib/codeGenerator.ts:30 | content the generator takes as GS1 is also GS1 for the display |
| CodeGenerator.HashMarkedOnlyOnScreen | src/lib/codeGenerator.ts:30 | `#` marks GS1 only on screen: the generator sends `01#21` unchanged and without the separator flags |
| UrlState.ToUrlSafe | src/lib/urlState.ts:10 | no `+`, no `/` and no trailing `=`; the result is a prefix of the text with the alphabet swapped |
| UrlState.PadToQuad | src/lib/urlState.ts:17 | a length that is a multiple of four, reached by appending fewer than four `=` |
| UrlState.FromUrlSafe | src/lib/urlState.ts:16-17 | a length that is a multiple of four with no `-` or `_` |
| UrlState.UrlSafeRoundTrip | src/lib/urlState.ts:10-17 | restoring the URL-safe form of any padded Base64 text gives that text back |
| UrlState.EncodeStateToParam | src/lib/urlState.ts:4-11 | the parameter holds no `+`, `/` or `=` |
| UrlState.DecodeStateFromParam | src/lib/urlState.ts:13-25 | never throws: a Base64 failure or escapes that are not UTF-8 yield no result; otherwise the result is what the JSON codec parses from the decoded text, no result when that fails |
| UrlState.ExtractStateFromLocation | src/lib/urlState.ts:35-40 | an absent or empty `s` yields no result; otherwise the decode of `s` |
| UrlState.DecodeOfEncodedUtf8 | src/lib/urlState.ts:7-20 | decoding the parameter built from some JSON text hands that text to the parser |
| UrlState.ShareLinkRoundTrip | src/lib/urlState.ts:4-40 | decoding, or extracting from a link, the parameter of any list gives the list back |
| GlobalSearch.SearchResults | src/components/GlobalSearch.tsx:19-38 | a blank query returns the list; otherwise exactly the marks with a lower-cased field containing the lower-cased query, in order and as often as they occur |
| GlobalSearch.IsSearching | src/components/GlobalSearch.tsx:42 | searching exactly when the raw query is non-empty |
| GlobalSearch.BlankQueryListsAll | src/components/GlobalSearch.tsx:20-42 | a query of spaces counts as searching yet returns every mark |
| GlobalSearch.Displayed | src/components/GlobalSearch.tsx:113 | at most the first ten results, and all of them when there are at most ten |
| GlobalSearch.ShowsMoreNotice | src/components/GlobalSearch.tsx:176-180 | the notice shows exactly when results are cut off |
| GlobalSearch.SearchIgnoresCase | src/components/GlobalSearch.tsx:24 | a query and its lower-cased form find the same marks |
| GlobalSearch.TypingMoreNarrows | src/components/GlobalSearch.tsx:25-35 | extending a non-blank query never adds results |
| PdfExport.OrElse | src/lib/pdfExport.ts:32-34 | an empty value prints as the fallback (`-` here, `N/A` at lines 135-140), any other as itself, so a cell is never empty |
| PdfExport.Ellipsize | src/lib/pdfExport.ts:36 | a brand of at most `n` characters is kept; a longer one is its first `n` characters and `...` |
| PdfExport.EllipsizeSpellings | src/lib/pdfExport.ts:145 | the detailed report's cut at 30 is the same rule |
| PdfExport.SummaryRow | src/lib/pdfExport.ts:31-39 | seven cells: product, barcode and supplier code or `-` when empty, type name, brand cut at 20 (at most 23 characters), status name, formatted date |
| PdfExport.DetailedLines | src/lib/pdfExport.ts:135-146 | six labelled lines: product, barcode and supplier code or `N/A` when empty, type name, status name, brand cut at 30 |
| PdfExport.SummaryAndDetailAgree | src/lib/pdfExport.ts:31-146 | the summary row and the detailed item show the same product, barcode and supplier code, empty ones as `-` and `N/A`; a brand of up to 20 characters appears in full in both, one of 21 to 30 is cut only in the row |
| PdfExport.Chunks | src/lib/pdfExport.ts:153-158 | every piece has 1 to 25 characters, all but the last exactly 25, and there are ⌈length / 25⌉ of them |
| PdfExport.ChunksConcat | src/lib/pdfExport.ts:153-158 | the pieces put back together are the code text |
| PdfExport.PrintedCodeText | src/lib/pdfExport.ts:160-162 | the at most six printed pieces are the first 150 characters of the code |
| PdfExport.SummaryRowPlacement | src/lib/pdfExport.ts:42-75 | every summary row is drawn at a y between 20 and 180 |
| PdfExport.DetailedItemPlacement | src/lib/pdfExport.ts:105-165 | every detailed item starts at y ≥ 20 and ends by 270 |
| PdfExport.SummaryLayoutClosedForm | src/lib/pdfExport.ts:42-75 | 16 rows on the first page from y = 53 and 21 on each later page from y = 20, 8 apart |
| PdfExport.DetailedLayoutClosedForm | src/lib/pdfExport.ts:105-165 | three items per page: from y = 50 on the first and y = 20 on later pages, 70 apart |
| TableSettings.DefaultsShowEverything | src/components/TableSettings.tsx:24-33 | the defaults show all seven columns with a brand width of 200 |
| TableSettings.ToggleColumn | src/components/TableSettings.tsx:44-47 | flips exactly that column; the other columns and the width are unchanged |
| TableSettings.ToggleColumnTwice | src/components/TableSettings.tsx:44-47 | toggling a column twice restores the settings |
| TableSettings.ClampWidth | src/components/TableSettings.tsx:50 | the width lands in [50, 500], is kept inside that range and goes to the nearer bound outside it |
| TableSettings.ClampIdempotent | src/components/TableSettings.tsx:50 | clamping twice is clamping once |
| TableSettings.ChangeWidth | src/components/TableSettings.tsx:49-52 | columns unchanged, width clamped |
| TableSettings.VisibleCount | src/components/TableSettings.tsx:63 | at most seven, seven exactly when all columns show and zero exactly when none does |
| TableSettings.ToggleMovesCountByOne | src/components/TableSettings.tsx:44-63 | a toggle lowers the count by one when the column was shown and raises it by one otherwise |
| TableSettings.ApplyEdit | src/components/TableSettings.tsx:44-61 | toggle, width change and reset edit only the local copy; reset restores the defaults |
| TableSettings.EditsStayLocal | src/components/TableSettings.tsx:44-61 | no sequence of edits changes the settings the table uses |
| TableSettings.Save | src/components/TableSettings.tsx:54-57 | the table receives the local settings and the dialog closes |
| TableSettings.ExternalChange | src/components/TableSettings.tsx:40-42 | new settings from the table replace the local copy |
| TableSettings.SaveAppliesEdits | src/components/TableSettings.tsx:54-61 | saving after edits applies exactly the edited settings, and a final reset gives the defaults |
| Toasts.AddToast | src/hooks/useToast.ts:13-17 | one notification appended at the end with the given id, title and description; the variant defaults to `default` |
| Toasts.RemoveToast | src/hooks/useToast.ts:25-27 | every notification with the id goes, the others stay in order and as often as before, and an absent id changes nothing |
| Toasts.RemoveUndoesAdd | src/hooks/useToast.ts:13-27 | dismissing a notification just added under a fresh id restores the queue |
| Toasts.RemoveKeepsOthers | src/hooks/useToast.ts:25-27 | the notifications of every other id are untouched |
| Theme.IndexOf | src/contexts/ThemeContext.tsx:27 | the first position of the theme, or -1 exactly when it is not listed |
| Theme.InitialTheme | src/contexts/ThemeContext.tsx:14-17 | the saved theme, or `light` when none or an empty one is saved |
| Theme.SetTheme | src/contexts/ThemeContext.tsx:19-23 | the theme in use and the stored value both become the argument |
| Theme.NextTheme | src/contexts/ThemeContext.tsx:25-30 | light → dark → high-contrast → light, and an unknown theme → light |
| Theme.ThreeTogglesReturn | src/contexts/ThemeContext.tsx:26-29 | three toggles return to any of the three themes |
| Theme.ToggleReloads | src/contexts/ThemeContext.tsx:14-30 | after a toggle the theme is a known one and a reload starts from it |

## Left out

- Local storage, `JSON.parse`/`JSON.stringify`, `Math.random`, `Date.now` and `new Date()`: the store is a value, JSON an abstract codec with one law, ids and times are passed in. Global uniqueness of generated ids is not assumed.
- A `JSON.parse` that returns something other than an array of records, and a write to local storage that fails (quota): the codec is typed to mark lists and saving always succeeds.
- Network and rendering: the TEC-IT image request is modelled only as its payload and parameter list; `fetch`, the CORS proxy, `loadImageAsDataUrl`, the QR code library (`generateQRCode`), the canvas fallback, React state and dialogs are outside the model.
- `createShareLink` (`src/lib/urlState.ts:27-33`): it only joins `window.location` with the parameter; the parameter itself is `UrlState.EncodeStateToParam`.
- `toast` timing: the five-second removal is the same filter as `removeToast`; the timer is not modelled. Toast ids come from `Math.random` and are passed in.
- PDF drawing (fonts, rectangles, page footers, file names) and `toLocaleDateString` / `toLocaleString`; the date cell is a parameter. Only cell text, line chunking and y arithmetic in whole millimetres are modelled.
- `highlightText` in the global search (it builds a regular expression from the query) and the stale result list passed to `onSearchResults`, a React timing effect.
- Strings are sequences of Unicode code points, while JavaScript strings are sequences of UTF-16 code units: `substring` and `length` (the 13-character brand of bulk add, `PdfExport.Ellipsize`, `PdfExport.Chunks`) count differently on text outside the Basic Multilingual Plane, and the `URIError` that `encodeURIComponent` throws on a lone surrogate cannot arise in the model.
- Text.Lower: lower-cases ASCII and the basic Cyrillic block only, not all of Unicode.
- TableSettings.ClampWidth: takes an integer, so the `NaN` a non-numeric input produces through `Number(...)` is not modelled.
- JsonImporter.ImportFromJson: elements of `products` that are not objects with the expected field types (which JavaScript would coerce or fail on in various ways) are reported as `UnreadableData` rather than modelled coercion by coercion; a non-string `brand` is treated the same way.
- The theme's effect on the document root (`classList`, `data-theme`) and the console logging.
- `App.tsx`, `PrintDialog.tsx`, `JsonImporter.tsx`, `TokenSetup.tsx`, `ui/toaster.tsx`, `ThemeToggle.tsx` and the ZPL/Gist helpers they call: UI, I/O or configuration.
