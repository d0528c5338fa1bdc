# BillForge kernels, modelled and verified in Dafny

BillForge turns scanned invoices into accounting records. Most of it is wiring; this project models the
algorithms on which the records depend and proves what they owe, for all inputs or all runs. It needs only
Dafny 4.11: `dafny verify dfyconfig.toml`.

| module | what it models |
|---|---|
| Text, Sorting, Decimal, Paging, Wrappers | split/join/trim, the stable sort, decimal numerals, grouping by page, optional values |
| OcrMerge, OcrPartition, OcrTrees | merging of neighbouring OCR blocks in place, to a fixpoint, and what a merged block has grown from |
| OcrLines, OcrLayout, OcrReading | grouping of merged blocks into text lines, and the order in which words are read |
| PdfReconcile | correcting OCR text from the text layer of a PDF by greedy box matching |
| Chunker, ChunkPages | packing long text into chunks for a prompt, along its pages or its lines |
| SchemaTree, SchemaBuilder, SchemaRegistry | database validators built by a cursor over a tree of property tables |
| S3Keys | where the file store puts, lists and reads a key |
| Ingestion | resumable polling with a printed checkpoint |
| Csv, CsvImport, CsvRoundTrip, CsvMeaning | the CSV line splitter, the import file and what it comes to |
| GlImport | importing the file's rows into the collection of GL codes |
| Amounts | printing minor units, reading amount tokens, repairing a spurious leading digit |
| ActionSeverity, ActionClassifier | a materialised classification kept up to date by hooks, and the classifier itself |
| VerifierQueue | requests serialised on a promise tail, and their retries |
| FieldMerge, FieldMeaning | merging a model's selections into current fields, with heuristic fallback |
| TcsHistory | a rate with its bounded change history |

Code that changes things step by step is modelled by methods with loops over arrays, sequences, maps or
class fields; each method equals a specification function, and the results below are about that function.
Coordinates and rates are exact reals, amounts are exact decimals in hundredths.

Four claims one might expect of the code are false; each is replaced by the exact condition, proved in both directions,
with an input that fails:

- Schemas: groups whose arrays and sub-objects do not collide may still disagree on whether a shared field may be null,
  and then the order of the groups decides (`SchemaTree.NullableDecides`). With that condition added, every order resolves
  every registration exactly when the groups are pairwise compatible (`SchemaTree.CompatibleExactly`).
- Amounts: repairing a printed result again can change it, for a token with a decimal comma, such as `56789,12`,
  which is repaired only after it was printed with a dot (`Amounts.DecimalCommaRepairedLate`, `Amounts.RepairFixpoint`).
- Fields: in strict mode the model path replaces a vendor name that is blank or no text at all, not only one that
  looks like an address (`FieldMerge.OddVendorReplaced`, `FieldMerge.StrictModelKeepsExactly`).
- Hooks: the hook finds its documents by the filter of the update, after the update. Under every classifier an inspected
  update therefore keeps the stored classification exactly when its filter still selects what it changed and inserted, and
  one that is not inspected exactly when it changes nothing classified and inserts nothing (`ActionSeverity.KeepsExactly`).
  Under a given classifier it is enough that what the hook misses is right without it (`ActionSeverity.KeepsUnderExactly`).
  With the classifier of `backend/src/services/invoice/actionClassifier.ts` the bulk approval at
  `backend/src/services/invoice/invoiceService.ts:211-222` is safe exactly if it selects no invoice classified NeedsReview,
  and the update that ends the approval workflow, at `backend/src/services/invoice/approvalWorkflowService.ts:118-125`,
  exactly if it selects none classified AwaitingApproval (`ActionClassifier.ApprovalExactly`,
  `ActionClassifier.EndWorkflowExactly`); approving parsed invoices alone is safe (`ActionClassifier.MovesByClass`).
  A `$rename` onto the status goes wrong with that classifier too (`ActionClassifier.RenameBreaksHere`).

Four further findings: a store without prefix lists nothing under an empty directory (`S3Keys.ListedExactly`); a quoted
line break, which RFC 4180 section 2 allows, always breaks the import of a CSV file (`CsvRoundTrip.FileRoundTripExactly`);
and the line number reported with a database failure is right exactly when every data line above the row was itself
accepted as a row (`GlImport.ReportedNumberExactly`); an export error hides an open critical risk, although that is ranked
graver (`ActionClassifier.GravestExactly`).

## Model

| member | source | states |
|---|---|---|
| OcrMerge.SweepProgress | backend/src/ai/ocr/ocrPostProcessor.ts:78-95 | a pass that changes anything lowers the number of live blocks; one that changes nothing has found no live pair to merge |
| OcrMerge.MergeAllSettles | backend/src/ai/ocr/ocrPostProcessor.ts:77-95 | the loop stops with no live pair left that should merge |
| OcrMerge.MergeToFixpoint | backend/src/ai/ocr/ocrPostProcessor.ts:77-95 | the in-place loop terminates and leaves exactly the fixpoint of the passes |
| OcrMerge.MergeBlocks | backend/src/ai/ocr/ocrPostProcessor.ts:33-108 | page grouping, merging and collecting yield the merged groups of all pages with only their texts fixed |
| OcrPartition.ShouldMergeSymmetric | backend/src/ai/ocr/ocrPostProcessor.ts:110-135 | the merge test does not depend on the order of its two boxes |
| OcrPartition.CombineSound | backend/src/ai/ocr/ocrPostProcessor.ts:137-152 | merging two groups keeps ascending indices, the exact hull and all non-space characters |
| OcrPartition.MergeAllKeeps | backend/src/ai/ocr/ocrPostProcessor.ts:77-95 | whatever every single merge keeps, the whole loop keeps |
| OcrPartition.MergedGroupsCorrect | backend/src/ai/ocr/ocrPostProcessor.ts:33-108 | for every sort order the merged groups partition the boxed blocks; each is ascending, on one page, with exact hull and all ink; no two on a page should still merge |
| OcrTrees.ShouldMergeMeans | backend/src/ai/ocr/ocrPostProcessor.ts:110-135 | two boxes should merge if and only if the lower one has a height, more than 70% of it is shared, and no left side lies 0.02 or more beyond a right side |
| OcrTrees.MergedGroupBuilt | backend/src/ai/ocr/ocrPostProcessor.ts:77-108 | each merged group has grown from its member blocks two parts at a time, each time two parts whose hulls so touch |
| OcrTrees.IsolatedStay | backend/src/ai/ocr/ocrPostProcessor.ts:77-108 | on a page where no two blocks touch every group is a single block |
| Paging.PagesByFirst | backend/src/ai/ocr/ocrPostProcessor.ts:38-53 | pages come in the order of their first appearance |
| OcrLines.PlaceBlocks | backend/src/ai/ocr/ocrPostProcessor.ts:195-211 | the nested first-fit loop computes the first-fit grouping of the sorted blocks |
| OcrLines.FitsLastOrNone | backend/src/ai/ocr/ocrPostProcessor.ts:199-206 | first fit lands in the last open line or in none |
| OcrLines.PlaceAllStacks | backend/src/ai/ocr/ocrPostProcessor.ts:195-211 | lines are consecutive runs of the centre order; members lie within the tolerance below their anchor, anchors rise by more than it |
| OcrLines.PageLinesStack | backend/src/ai/ocr/ocrPostProcessor.ts:172-211 | with the median-based tolerance of a page its lines are so stacked and contain its blocks in centre order |
| OcrLines.ToleranceMeans | backend/src/ai/ocr/ocrPostProcessor.ts:173-184 | the tolerance is 0.55 times the mean of the two middle positive heights, by rank, and at least 0.01; without heights 0.015 |
| OcrLines.LinesGoDown | backend/src/ai/ocr/ocrPostProcessor.ts:186-211 | in coordinates: the lines list the blocks of the page by vertical centre, members within the tolerance below the first of their line, firsts further apart |
| OcrLines.BuildLines | backend/src/ai/ocr/ocrPostProcessor.ts:154-235 | the loops over pages, blocks and groups yield the lines of all pages, in order |
| OcrLayout.LinesGrouped | backend/src/ai/ocr/ocrPostProcessor.ts:213-233 | lines partition whatever their blocks partition, with ascending indices and exact hulls |
| OcrLayout.DocumentLinesCorrect | backend/src/ai/ocr/ocrPostProcessor.ts:22-31 | end to end the lines of a document partition exactly its boxed blocks |
| OcrReading.CombineReadsLeftToRight | backend/src/ai/ocr/ocrPostProcessor.ts:137-139 | the words of a merged block are those of the left block and then those of the right one |
| OcrReading.MergedGroupsKeepWords | backend/src/ai/ocr/ocrPostProcessor.ts:33-108 | for every sort order each merged group has exactly the words of its member blocks, each as often |
| OcrReading.LineReadsLeftToRight | backend/src/ai/ocr/ocrPostProcessor.ts:213-219 | a line's words are those of its blocks from left to right, each once, with a bar at every wide gap |
| PdfReconcile.Best | ai/ocr/app/pdf_utils.py:76-89 | the running best is the first free PDF block on the page whose positive score no other exceeds |
| PdfReconcile.ReconcileBlocksWithPdfText | ai/ocr/app/pdf_utils.py:62-101 | the nested loops with the used set compute the greedy correction |
| PdfReconcile.ReconcileSafe | ai/ocr/app/pdf_utils.py:69-101 | on every input no PDF block is used twice, matched blocks share a page and score at least 0.55, and only texts change |
| PdfReconcile.DisjointShare | ai/ocr/app/pdf_utils.py:184-195 | two boxes that do not overlap share out at most the area of a third |
| PdfReconcile.OnePartner | ai/ocr/app/pdf_utils.py:91-92 | a box scores at least 0.55 with two boxes only if these overlap |
| PdfReconcile.CloseMeans | ai/ocr/app/pdf_utils.py:79-92 | in the values as received: blocks are close if and only if both have four coordinates, count for one page, 1 without a positive one, and share at least 55% of the greater box |
| PdfReconcile.MatchesAreClose | ai/ocr/app/pdf_utils.py:69-99 | without overlaps the greedy matching is exactly the relation "same page, score at least 0.55, text not blank" |
| PdfReconcile.SamePlaceMatched | ai/ocr/app/pdf_utils.py:69-99 | without overlaps, blocks of one page with one box that is not tiny are matched, and the trimmed PDF text is taken |
| PdfReconcile.ChangedText | ai/ocr/app/pdf_utils.py:92-101 | on every input a changed text is the trimmed text, not blank, of a close PDF block |
| PdfReconcile.OrderIndependent | ai/ocr/app/pdf_utils.py:69-101 | without overlaps a block is corrected alike in every order of both lists and whatever the other OCR blocks |
| PdfReconcile.OverlapsMakeOrderMatter | ai/ocr/app/pdf_utils.py:87-99 | where two PDF blocks share a place, list order decides the text |
| Chunker.SplitTextIntoChunks | backend/src/core/engine/DocumentProcessingEngine.ts:246-291 | both packing loops, with their different size tests, compute the greedy packing of pages or lines |
| ChunkPages.UnitsMean | backend/src/core/engine/DocumentProcessingEngine.ts:251-273 | with two or more pieces between form feeds that are not blank, these are the units, without the newlines that touch a feed, and the limit is one above three quarters; otherwise the units are the lines |
| ChunkPages.ChunksAlongPages | backend/src/core/engine/DocumentProcessingEngine.ts:251-273 | then no chunk holds a form feed, and each is one such piece or within that limit |
| Chunker.ChunksConserveContent | backend/src/core/engine/DocumentProcessingEngine.ts:246-291 | the chunks hold exactly the non-blank lines of the text, in order, unsplit and unduplicated, in both modes |
| Chunker.ChunksBounded | backend/src/core/engine/DocumentProcessingEngine.ts:249-290 | a chunk is one whole line or page, or at most the target (plus one for pages) and so within maxChunkChars; only blank text is passed on whole |
| Chunker.ChunksOptimal | backend/src/core/engine/DocumentProcessingEngine.ts:260-287 | no split of the lines, or pages, into fitting runs has fewer runs than there are chunks, blank lines included |
| Chunker.ChunksAttainOptimum | backend/src/core/engine/DocumentProcessingEngine.ts:260-287 | without blank units the chunks are themselves the joins of such a split |
| SchemaTree.PutClaims | backend/src/db/jsonSchemaValidators.ts:156-192 | the group written last gets all it registers |
| SchemaTree.PutKeeps | backend/src/db/jsonSchemaValidators.ts:156-192 | where a group claims nothing, what was there stays, if only objects stood on its way and nothing in its shadow |
| SchemaTree.SchemaExact | backend/src/db/jsonSchemaValidators.ts:141-195 | for compatible groups every registered prefix and field resolves to its rule and the schema holds nothing else |
| SchemaTree.SameTree | backend/src/db/jsonSchemaValidators.ts:141-195 | schemas that agree on every path are equal |
| SchemaTree.SchemaOrderIndependent | backend/src/db/jsonSchemaValidators.ts:145-192 | compatible groups give the same schema in every order |
| SchemaTree.OrderFreeExactly | backend/src/db/jsonSchemaValidators.ts:145-192 | the schema is the same for every order of the groups if and only if they are pairwise compatible |
| SchemaTree.CompatibleExactly | backend/src/db/jsonSchemaValidators.ts:145-192 | every order of the groups resolves every registration if and only if the groups are pairwise compatible |
| SchemaTree.NullableDecides | backend/src/db/jsonSchemaValidators.ts:145-192 | of two groups that differ only in whether their fields may be null, the later one decides |
| SchemaBuilder.WriteAlong | backend/src/db/jsonSchemaValidators.ts:156-191 | the cursor walk over mutable tables finishes the pending write and leaves every table of the region consistent |
| SchemaBuilder.AddGroup | backend/src/db/jsonSchemaValidators.ts:145-192 | adding a group in place turns the root's tree into the one with the group put in |
| SchemaBuilder.BuildCollectionJsonSchema | backend/src/db/jsonSchemaValidators.ts:141-195 | the tables built by the cursor stand for the schema tree of the groups |
| SchemaRegistry.InvoiceRegistryResolves | backend/src/db/jsonSchemaValidators.ts:16-53 | the invoice registration is compatible: all of it resolves in every order, and nothing else is in the schema |
| S3Keys.SegmentsClean | backend/src/storage/S3FileStore.ts:145-152 | the kept segments are trimmed, not empty, not dots, and free of slashes |
| S3Keys.SegmentsOfJoin | backend/src/storage/S3FileStore.ts:145-152 | a joined list of clean segments is read back as that list |
| S3Keys.SegmentsAt | backend/src/storage/S3FileStore.ts:145-152 | a slash of either kind parts the segments |
| S3Keys.OneSegment | backend/src/storage/S3FileStore.ts:145-152 | text without slashes is one segment, trimmed, unless nothing, a dot or two dots are left |
| S3Keys.NormalizeIdempotent | backend/src/storage/S3FileStore.ts:145-156 | normalising a key twice is normalising it once |
| S3Keys.StrippedKeyRoundTrip | backend/src/storage/S3FileStore.ts:61-62 | the key listed for a stored object maps back to the same stored key, for every prefix |
| S3Keys.ListedExactly | backend/src/storage/S3FileStore.ts:76-95 | exactly which put keys a listing shows; without any prefix at all it shows none |
| S3Keys.S3FileStore.PutObject | backend/src/storage/S3FileStore.ts:125-142 | the object is stored under the prefixed normal form, and nothing else changes |
| S3Keys.S3FileStore.GetObject | backend/src/storage/S3FileStore.ts:61-74 | the object under the prefixed normal form is returned, if there is one |
| S3Keys.S3FileStore.DeleteObject | backend/src/storage/S3FileStore.ts:106-114 | the object under the prefixed normal form, the one a put writes, goes and no other |
| S3Keys.S3FileStore.ListObjects | backend/src/storage/S3FileStore.ts:76-104 | the entries of all pages in order, without empty keys, with the prefix stripped |
| S3Keys.PutIsListedAndReadBack | backend/src/storage/S3FileStore.ts:61-142 | an object put under a directory, or anywhere in a store with a prefix when the whole store is listed, is listed, and the listed key reads that object back |
| Ingestion.CheckpointRoundTrip | backend/src/sources/S3UploadIngestionSource.ts:101-119 | a printed checkpoint is read back as its time and key, delimiters in the key included |
| Ingestion.FetchNewFiles | backend/src/sources/S3UploadIngestionSource.ts:31-85 | filter, sort and the skipping loop yield the deliverable objects behind the checkpoint, in order |
| Ingestion.StrLeMeans | backend/src/sources/S3UploadIngestionSource.ts:42-49 | keys are compared at the first place where they differ |
| Ingestion.FetchedFrom | backend/src/sources/S3UploadIngestionSource.ts:31-85 | each file of a poll carries the key, name, type, time, bytes and checkpoint of a listed object, supported and readable, after the checkpoint in time and then key |
| Ingestion.FetchedFor | backend/src/sources/S3UploadIngestionSource.ts:31-85 | each such object has its file |
| Ingestion.FetchedInOrder | backend/src/sources/S3UploadIngestionSource.ts:45-49 | the files come in strictly ascending order of time and then key |
| Ingestion.UnreadableCheckpoint | backend/src/sources/S3UploadIngestionSource.ts:103-119 | a checkpoint that does not begin with a date counts for none |
| Ingestion.QueueResumes | backend/src/sources/S3UploadIngestionSource.ts:38-49 | polling behind a queued object queues exactly the objects after it |
| Ingestion.ResumeYieldsSuffix | backend/src/sources/S3UploadIngestionSource.ts:31-85 | resuming from the checkpoint of the last consumed file yields exactly the files after it |
| Ingestion.RunsDeliverOnce | backend/src/sources/S3UploadIngestionSource.ts:31-85 | over every run from no checkpoint, whatever is uploaded when, files are delivered in strict (time, key) order, none twice, and a deliverable object at or before the checkpoint was delivered if and only if it was not written behind the checkpoint's back |
| Ingestion.PunctualRunsMissNothing | backend/src/sources/S3UploadIngestionSource.ts:31-85 | on runs whose uploads sort after the stored checkpoint no object comes too late |
| Ingestion.LateIsNeverDelivered | backend/src/sources/S3UploadIngestionSource.ts:38-49 | an object that the checkpoint has passed undelivered is never delivered on any continuation |
| Ingestion.FullPollDelivers | backend/src/sources/S3UploadIngestionSource.ts:36-82 | a poll consumed to its end adds exactly the stored, supported, readable objects behind the checkpoint |
| Csv.SplitCsvLine | backend/src/routes/compliance/glCodes.ts:76-105 | the index-skipping loop computes the fields of the quote machine |
| Csv.SplitInvertsEncode | backend/src/routes/compliance/glCodes.ts:76-105 | splitting a record encoded by RFC 4180 section 2 gives its fields back, whichever fields the writer quoted |
| CsvImport.IndexIn | backend/src/routes/compliance/glCodes.ts:40-44 | the first header that is one of the names, or none |
| CsvImport.ParseCsvContent | backend/src/routes/compliance/glCodes.ts:29-74 | rows and errors are those of the file's entries, in order |
| CsvImport.EveryEntryCounted | backend/src/routes/compliance/glCodes.ts:51-71 | every entry is a row or an error, and only one of them |
| CsvRoundTrip.RecordLine | backend/src/routes/compliance/glCodes.ts:52-70 | the line of a record gives the record's entry, whatever white space trimming takes off |
| CsvRoundTrip.BrokenRecord | backend/src/routes/compliance/glCodes.ts:30-55 | a record with a line break in a field falls apart into at least two entries |
| CsvRoundTrip.FileRoundTripExactly | backend/src/routes/compliance/glCodes.ts:29-74 | a written file is read back record by record, with right line numbers, if and only if no field holds a line break |
| CsvMeaning.FileMeans | backend/src/routes/compliance/glCodes.ts:29-74 | from header names and fields: one entry for each record, numbered by line, an error that names the missing field or the row with the trimmed fields under "code", "name" and the headers of the options |
| CsvMeaning.MissingColumn | backend/src/routes/compliance/glCodes.ts:46-49 | without a code or a name column there is one error and no row |
| CsvMeaning.ListedInOrder | backend/src/routes/compliance/glCodes.ts:51-71 | rows and errors are listed in the order of their entries |
| CsvMeaning.ListedAlone | backend/src/routes/compliance/glCodes.ts:59-70 | an accepted entry is one row, a rejected one an error |
| GlImport.GlCodeMaster.ImportCsv | backend/src/routes/compliance/glCodes.ts:216-275 | a refused file changes nothing; otherwise the loop's counters, errors and stored codes are those of the run over the rows |
| GlImport.RefusedExactly | backend/src/routes/compliance/glCodes.ts:219-235 | a file is refused if and only if it is missing or empty, has neither rows nor errors, or has more than 5000 rows |
| GlImport.StoredExactly | backend/src/routes/compliance/glCodes.ts:237-272 | whatever other writers do, no stored code is replaced, and afterwards exactly the earlier codes, the others' and those of rows that did not fail are stored |
| GlImport.EveryRowCounted | backend/src/routes/compliance/glCodes.ts:241-274 | each row is counted once, as imported, skipped or failed, and each imported one is a new code |
| GlImport.AddsWhatItCounts | backend/src/routes/compliance/glCodes.ts:241-274 | without other writers the collection grows by as many codes as are reported imported, and by nothing else |
| GlImport.FirstRowWins | backend/src/routes/compliance/glCodes.ts:248-264 | of several rows with one new code the first that does not fail is stored for good, unless another writer brought the code by then |
| GlImport.FailedExactly | backend/src/routes/compliance/glCodes.ts:248-271 | whatever others write, a row is reported as failed if and only if the database failed and its code was neither stored before the import nor created by an earlier row |
| GlImport.SeenAlone | backend/src/routes/compliance/glCodes.ts:243-264 | without other writers a new code was created if and only if some row brought it without a failure |
| GlImport.ImportTwice | backend/src/routes/compliance/glCodes.ts:237-274 | after an import without failures the same rows are all skipped and change nothing |
| GlImport.RowStandsThere | backend/src/routes/compliance/glCodes.ts:51-71 | which line of the file a row was read from |
| GlImport.ReportedNumberExactly | backend/src/routes/compliance/glCodes.ts:269-269 | a row was read from the data line that has as many rows above it as the row has in the list, and the reported number is that line's if and only if every data line above it is a row |
| Amounts.ParseAmountToken | backend/src/ai/parsers/amountParser.ts:183-232 | the branches on separators compute the token's value in hundredths, or none |
| Amounts.ReadPrinted | backend/src/utils/currency.ts:62-75 | a printed amount is read as itself with two digits, as whole units with none or three |
| Amounts.MinorUnitsRoundTrip | backend/src/utils/currency.ts:32-75 | the minor units of every currency survive printing, reading and converting back if and only if the currency has not three digits or the amount is zero |
| Amounts.ToMinorUnitsNearest | backend/src/utils/currency.ts:40-48 | the conversion to minor units is nearest to the scaled amount, halves going up |
| Amounts.KnownCurrencies | backend/src/utils/currency.ts:1-38 | the digits of yen, Kuwaiti dinars, rupees, dollars and of no currency |
| Amounts.CommasKeepValue | backend/src/ai/parsers/amountParser.ts:194-224 | commas in the integer part of a dotted token keep its value if and only if they do not turn three digits of thousands into a fraction |
| Amounts.GroupedAmount | backend/src/ai/parsers/amountParser.ts:202-217 | digits grouped by commas, or by several dots, are thousands, with a last group of at most two digits as fraction |
| Amounts.DotsThenComma | backend/src/ai/parsers/amountParser.ts:194-201 | digits grouped by dots with a comma behind them are thousands and a fraction of any length |
| Amounts.TwoSigns | backend/src/ai/parsers/amountParser.ts:185-231 | behind a first sign a second one counts as well: the rest is read with it and then negated by a first minus |
| Amounts.ReadSigned | backend/src/ai/parsers/amountParser.ts:226-226 | digits behind a sign are read as the number or its negative |
| Amounts.StraySign | backend/src/ai/parsers/amountParser.ts:226-229 | a token with a sign behind a digit has no value |
| Amounts.BareSign | backend/src/ai/parsers/amountParser.ts:186-188 | nothing, and a sign alone, have no value |
| Amounts.NoiseIgnored | backend/src/ai/parsers/amountParser.ts:183-189 | a character that is no digit, comma, dot or sign does not matter, wherever it stands |
| Amounts.HundredthsNearest | backend/src/ai/parsers/amountParser.ts:231-231 | the value rounded to two places is at most half a hundredth from the number read, whatever its sign |
| Amounts.RepairRemovesLeadingDigit | backend/src/ai/parsers/amountParser.ts:246-290 | a repair takes away one leading digit 5 to 9 and nothing else, with result below 10000 and ratio between 5 and 120 |
| Amounts.RepairExactly | backend/src/ai/parsers/amountParser.ts:246-290 | in numbers, exactly which amounts are repaired, and to what |
| Amounts.RepairedAmount | backend/src/ai/parsers/amountParser.ts:234-244 | a repaired amount keeps its sign and differs by that digit only; only tokens with a dotted fraction are repaired |
| Amounts.RepairFixpoint | backend/src/ai/parsers/amountParser.ts:234-290 | reading the printed result again changes nothing if and only if the token had a dotted fraction or its value invites no repair |
| Amounts.DecimalCommaRepairedLate | backend/src/ai/parsers/amountParser.ts:234-290 | the token `56789,12` is read unrepaired, and its printed value is repaired |
| ActionSeverity.UpdateTouchesClassification | backend/src/models/invoice/invoice.actionSeverity.ts:17-35 | the nested search finds a key on or below an inspected path exactly when there is one |
| ActionSeverity.KeyTouchesExactly | backend/src/models/invoice/invoice.actionSeverity.ts:4-13 | a key is inspected if and only if its top-level field is status, parsed, export or compliance |
| ActionSeverity.SixOperatorsInspected | backend/src/models/invoice/invoice.actionSeverity.ts:20-30 | an update by the six operators alone is inspected if and only if it names one of those fields |
| ActionSeverity.Invoices.Save | backend/src/models/invoice/invoice.actionSeverity.ts:43-47 | a save stores the classifier's values with the document |
| ActionSeverity.Invoices.PostUpdate | backend/src/models/invoice/invoice.actionSeverity.ts:50-73 | the hook refreshes every document its filter finds, where it is stale, and no other |
| ActionSeverity.KeepsUnderExactly | backend/src/models/invoice/invoice.actionSeverity.ts:49-73 | under a given classifier an update keeps every collection right if and only if inserts and changes that the hook misses are right without it |
| ActionSeverity.KeepsExactly | backend/src/models/invoice/invoice.actionSeverity.ts:49-73 | under every classifier an update keeps every collection right if and only if it is inspected and its filter still selects every document it changed or inserted, or it is not inspected and changes no classified field and inserts nothing |
| ActionSeverity.InspectedExactly | backend/src/models/invoice/invoice.actionSeverity.ts:53-56 | for inspected keys without upsert the condition for every classifier is: no change that the keys allow takes a selected document out of the filter |
| ActionSeverity.UninspectedExactly | backend/src/models/invoice/invoice.actionSeverity.ts:53-53 | for keys that are not inspected the condition for every classifier is: they write no classified field, or the filter selects nothing |
| ActionSeverity.FilterElsewhereSurvives | backend/src/models/invoice/invoice.actionSeverity.ts:54-56 | a filter on fields that the update does not write always survives |
| ActionSeverity.StatusMoveExactly | backend/src/models/invoice/invoice.actionSeverity.ts:53-56 | an update that selects by status and sets a status is safe under every classifier if and only if the new status is among those selected, or nothing is selected |
| ActionSeverity.StatusMoveUnder | backend/src/models/invoice/invoice.actionSeverity.ts:53-56 | under a given classifier, if the new status is not among them, it is safe if and only if the new status changes the classification of no selected document |
| ActionSeverity.ApprovalBreaks | backend/src/services/invoice/invoiceService.ts:211-222 | the bulk approval is inspected and yet, once its filter selects any invoice, leaves a stale classification under some classifier |
| ActionSeverity.RenameBreaks | backend/src/models/invoice/invoice.actionSeverity.ts:20-30 | a rename onto the status field is not inspected and leaves stale classifications under some classifier |
| ActionSeverity.RefreshIsNotInspected | backend/src/models/invoice/invoice.actionSeverity.ts:68-71 | the hook's own refresh triggers no second refresh |
| ActionSeverity.OnlyMissedAreStale | backend/src/models/invoice/invoice.actionSeverity.ts:37-75 | over every run of saves, removals and updates of any kind each stored classification is the classifier's, except for documents that an update changed or added out of the hook's sight and nothing has saved or refreshed since |
| ActionSeverity.RunsStayConsistent | backend/src/models/invoice/invoice.actionSeverity.ts:37-75 | if every update of a run meets that condition no document is missed and every stored classification is right |
| ActionClassifier.ReasonApplies | backend/src/services/invoice/actionClassifier.ts:44-71 | the reason found applies by itself, and none is found only if none applies |
| ActionClassifier.ReasonsMean | backend/src/services/invoice/actionClassifier.ts:44-71 | from the parts of an invoice: when each reason applies |
| ActionClassifier.PairMeans | backend/src/services/invoice/actionClassifier.ts:20-27 | the severity stored with each reason |
| ActionClassifier.GravestExactly | backend/src/services/invoice/actionClassifier.ts:20-71 | the reason found is the gravest that applies, except exactly when an export error hides an open critical risk |
| ActionClassifier.MovesByClass | backend/src/services/invoice/actionClassifier.ts:44-71 | an update from some statuses to another is safe if and only if the new one is among them or the classifier tells it from none of them |
| ActionClassifier.ApprovalExactly | backend/src/services/invoice/invoiceService.ts:211-222 | with the classifier of the code the bulk approval keeps every stored classification if and only if it selects no invoice classified NeedsReview |
| ActionClassifier.EndWorkflowExactly | backend/src/services/invoice/approvalWorkflowService.ts:118-125 | with the classifier of the code ending the workflow keeps every stored classification if and only if it selects no invoice classified AwaitingApproval |
| ActionClassifier.RenameBreaksHere | backend/src/models/invoice/invoice.actionSeverity.ts:20-30 | with the classifier of the code a rename onto the status leaves a wrong classification on any invoice it may select |
| VerifierQueue.HttpFieldVerifier.Verify | backend/src/ai/verifiers/HttpFieldVerifier.ts:67-73 | a call chains its run onto the tail and moves the tail behind the settling of its caller |
| VerifierQueue.StepKeepsInv | backend/src/ai/verifiers/HttpFieldVerifier.ts:67-73 | every step of every interleaving keeps the chain and the stages of its jobs |
| VerifierQueue.SerialInEveryInterleaving | backend/src/ai/verifiers/HttpFieldVerifier.ts:67-73 | at most one request is in flight, requests start in arrival order, and a settled caller has the outcome of its own run |
| VerifierQueue.SettledOnce | backend/src/ai/verifiers/HttpFieldVerifier.ts:67-73 | a settled caller is never settled again |
| VerifierQueue.SettledExactlyOnce | backend/src/ai/verifiers/HttpFieldVerifier.ts:67-73 | a run has at most three further steps for each call, and once nothing but a call can happen every request has been settled by exactly one step, with the outcome of its own run |
| VerifierQueue.SomeoneMoves | backend/src/ai/verifiers/HttpFieldVerifier.ts:67-73 | nothing blocks, a failed predecessor included: the oldest waiting request can always go one stage further |
| VerifierQueue.VerifySerial | backend/src/ai/verifiers/HttpFieldVerifier.ts:75-110 | between one and three posts, repeated only after connection errors and a good health probe; the last answer decides |
| FieldMerge.ApplyMode | ai/slm/app/payload_normalization.py:459-477 | the loop over the selected items computes the merge, field by field |
| FieldMerge.AppliedMeans | ai/slm/app/payload_normalization.py:459-477 | field by field: the selection wins in relaxed mode; in strict mode the current value stays unless it is empty, an address-like vendor name against a better one, or a total that is not positive against one that is |
| FieldMerge.ApplyIdempotent | ai/slm/app/payload_normalization.py:459-477 | applying the same selection twice changes nothing more, in either mode |
| FieldMerge.PickVendor | ai/slm/app/selection_heuristics.py:67-80 | a vendor candidate that no other outscores, if there is any |
| FieldMerge.PickInvoiceNumber | ai/slm/app/selection_heuristics.py:60-64 | a candidate of the right form that no other exceeds in length, if there is any |
| FieldMerge.BestTotal | ai/slm/app/selection_heuristics.py:105-117 | the positive candidate that comes first by score and then by value, if there is any |
| FieldMeaning.FirstVendor | ai/slm/app/selection_heuristics.py:67-80 | the vendor is the first of the best-scoring candidates of the right form |
| FieldMeaning.FirstNumber | ai/slm/app/selection_heuristics.py:60-64 | the invoice number is the first of the longest candidates of the right form |
| FieldMeaning.FirstCurrency | ai/slm/app/selection_heuristics.py:94-96 | the currency is the first candidate that is a known code, and INR without one |
| FieldMeaning.TotalMeans | ai/slm/app/selection_heuristics.py:99-124 | the total is the positive candidate of the greatest weight, the greater on a tie; in strict mode a positive current total holds against one too far away |
| FieldMerge.RelaxedTotalNearMaximum | ai/slm/app/selection_heuristics.py:99-124 | in relaxed mode no positive candidate exceeds the picked total by more than five per cent |
| FieldMerge.StrictTotalNearCurrent | ai/slm/app/selection_heuristics.py:119-124 | in strict mode the picked total stays within 100 or five per cent of a positive current one |
| FieldMerge.SelectWithFallback | ai/slm/app/engine.py:19-95 | popping, merging, repairing and putting back, or the fallback, compute the merged fields |
| FieldMeaning.FallbackMeans | ai/slm/app/engine.py:93-95 | on the fallback path the picks are merged, each under its name |
| FieldMeaning.BookkeepingMeans | ai/slm/app/engine.py:53-80 | on the model path a bookkeeping entry comes from the model where usable, and otherwise stays |
| FieldMeaning.ModelMeans | ai/slm/app/engine.py:58-81 | on the model path any other field but the vendor name is that of the merge |
| FieldMeaning.VendorMeans | ai/slm/app/engine.py:62-63 | the merged vendor name stays if it is text, not blank and not like an address; otherwise the best candidate replaces it |
| FieldMerge.StrictModelKeepsExactly | ai/slm/app/engine.py:60-81 | on the model path strict mode keeps a field if and only if it is not empty, no bookkeeping entry, no unsound vendor name and no total that is not positive |
| FieldMerge.OddVendorReplaced | ai/slm/app/selection_heuristics.py:49-57 | a blank vendor name, or a value that is no text, can be replaced in strict mode although it is neither empty nor like an address |
| FieldMerge.StrictFallbackKeepsExactly | ai/slm/app/engine.py:93-95 | on the fallback path it loses a field if and only if a heuristic selects it and it is empty, an address-like vendor name or a total that is not positive |
| TcsHistory.ConfigStore.PutRate | backend/src/routes/compliance/tcsConfig.ts:51-99 | the stored document and the full log after a request are those of one step; a change is logged against the rate it replaces, a bad request changes nothing, and the kept history stays the newest 1000 entries of the log |
| TcsHistory.ConfigStore.EnsureExists | backend/src/routes/compliance/tcsConfig.ts:40-46 | a document is created with its defaults only where there is none, and the history stays as it is |
| TcsHistory.ConfigStore.GetHistoryPage | backend/src/routes/compliance/tcsConfig.ts:128-143 | a page of 20 entries of the newest part of the log, counted from one |
| TcsHistory.PagesCoverHistory | backend/src/routes/compliance/tcsConfig.ts:132-139 | the pages one after the other are the history, each entry once |
| TcsHistory.SerialRuns | backend/src/routes/compliance/tcsConfig.ts:38-125 | over every serial run of rate changes, first reads and role changes the history is the newest 1000 entries of the full log, its newest rate is current, and each entry's previous rate is the next older entry's new rate, down to the initial zero |

## Left out

- OcrMerge.MergeBlocks: takes the page sort as any rearrangement, because the comparator's 1e-9 band is not transitive and fixes no order, and takes the regular expressions of the digit repair as a given function on texts.
- OcrLines.BuildLines: coordinates are exact reals, so rounding of binary floats is not modelled; the same holds for the scores of PdfReconcile and FieldMerge.
- PdfReconcile.ReconcileBlocksWithPdfText: a value that cannot be converted to text, a number or four coordinates is one absent value, whatever it was; NaN and infinite coordinates are not modelled.
- Chunker.SplitTextIntoChunks: string lengths count characters, not UTF-16 units.
- SchemaBuilder.BuildCollectionJsonSchema: property order inside an object and the special name `__proto__` are not modelled.
- S3Keys.S3FileStore.ListObjects: the continuation-token exchange is the given list of pages that answers the request; network failures are not modelled.
- Ingestion.QueueResumes: keys are compared by code points; the source compares UTF-16 units, which orders some characters beyond the basic plane differently.
- Ingestion.FetchNewFiles: file name, supported type and readability of a key are given functions, and toISOString and Date.parse are a given pair of which printing then parsing is the identity.
- Ingestion.RunsDeliverOnce: whether a key can be read does not change during a run; an object that is unreadable when the checkpoint passes it is skipped for good, as in the source. An object is its key and time: one removed and written again with the same time is the same object.
- CsvImport.ParseCsvContent: toLowerCase is a given function; both steps of the line-end clean-up are one pass.
- CsvRoundTrip.FileRoundTripExactly: is stated for records of at least two fields, because the two required columns need them, and a header without line breaks.
- Amounts.ParseAmountToken: numbers are exact decimals; rounding of binary floats and amounts too large for them are not modelled.
- ActionClassifier.ApprovalExactly: apart from the status an invoice's fields are as the schema stores them; a field of another type counts as absent.
- ActionSeverity.KeepsExactly: the classifier, the filter, the effect of an update on a document and the documents it may insert are arbitrary; concurrent writers between update and hook, and updates that bypass the hooks, are not modelled. In the lemmas about keys an update may change whatever its keys name, and a pipeline is given by the fields it writes.
- VerifierQueue.VerifySerial: the failure message is the last error's text without the fixed words put around it; waiting times and logging are not modelled.
- FieldMerge.SelectWithFallback: extraction of a selection from the model's answer, reason codes and issue texts are not modelled; the tests on texts, the scores of blocks and which value is usable for which bookkeeping entry are given functions.
- FieldMerge.StrictModelKeepsExactly: the direction that shows a replacement uses some vendor candidate and some usable bookkeeping entry.
- FieldMerge.StrictFallbackKeepsExactly: the direction that shows a replacement uses some vendor candidate and some invoice number of the right form.
- GlImport.GlCodeMaster.ImportCsv: the file-size limit, the tenant check before a save and the fields every new code gets alike are not modelled; what other writers bring before a row and whether the database fails on it are given functions, and a failure shows before a duplicate does.
- runChunkedSlm, buildLayoutText and blocks_to_text: they would only add easy members.
- The regular-expression extractors for invoices, vendors and dates, and the scoring of amount lines: heuristics without a crisp specification.
- HTTP routing, authentication, sessions, the model prompts, OCR rendering and the AWS clients: plumbing over libraries.
- Ingestion orchestration, TDS calculation, reconciliation and export: they are not part of this model.
