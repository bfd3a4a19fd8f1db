# File intake and catalog of the upload widget

This project models the upload widget `MainFeature` of a client-side file
drop page in Dafny. It covers:

- which offered files the widget accepts: at most 100 MiB, and one of nine
  media types;
- how it turns accepted files into catalog records, one upload after another,
  newest first;
- how it deletes and renames records, and when a rename edit is committed;
- how it derives the list it renders: a case-insensitive name search, then a
  stable sort by name, size, date or type;
- which icon it shows for a media type.

Modules, one per concern:

- `Text` (text.dfy): the string operations the widget relies on: `startsWith`,
  `includes`, `toLowerCase`, `trim` and `localeCompare`.
- `Intake` (intake.dfy): `validateFile` and the batch filter in front of the
  upload loop.
- `Records` (records.dfy): the record type, how a record is built from a
  file, and `getFileIcon`.
- `Edits` (edits.dfy): the pure updaters behind `deleteFile` and
  `renameFile`, and the `handleRename` guard.
- `Query` (query.dfy): `filteredFiles`, the filter followed by a stable sort.
- `Store` (store.dfy): the class `Catalog`. It holds the `files`,
  `searchTerm` and `sortBy` state and a log of notices. Its methods are the
  widget's operations, each proved against the functions above.
- `Notices`, `Seqs` and `Wrappers`: the notice type, order-preserving
  sub-sequences, and `Option`.

Values the browser supplies are parameters of the model. An `Env` gives, for
the k-th accepted file of a batch, the id, the timestamp and the two object
URLs its record receives, and whether its upload succeeds. The notifications
shown with `toast` are kept as a sequence of `Notice` values.

On these points the model follows what the code does:

- The timestamp of a record is taken when the record is built, before its
  upload is awaited (src/components/MainFeature.jsx:74, 83). It is not taken
  when the upload completes.
- Uploads of one batch run strictly one after another: `await` sits inside
  the `for` loop. They are not concurrent, so records appear in reverse batch
  order.
- Ids are not guaranteed unique (`Date.now() + Math.random()`, line 70).
  `Store.IntakeKeepsUnique` shows that uniqueness survives intake only when
  the supplied ids are new. `Edits.RemoveKeepsUnique` and
  `Edits.RenameKeepsUnique` show that delete and rename keep it.
- The rename guard compares the untrimmed text with the current name
  (line 362). So " name" commits a rename of a record called "name" to the
  same name, with a success notice (`Edits.PaddedSameNameIsCommitted`).
- `deleteFile` reports success even when no record has the id (line 119).
- The simulated upload never fails, so the `catch` branch (lines 86-93)
  cannot run in the code. The model keeps it as an upload outcome supplied
  by `Env`.

## Model

| member | source | states |
|---|---|---|
| `Text.StartsWith` | src/components/MainFeature.jsx:76 | definition; see the lemmas below |
| `Text.Contains` | src/components/MainFeature.jsx:131 | definition; see the lemmas below |
| `Text.Lower` | src/components/MainFeature.jsx:131 | definition; see the lemmas below |
| `Text.Trim` | src/components/MainFeature.jsx:362-363 | definition; see the lemmas below |
| `Text.LexCompare` | src/components/MainFeature.jsx:134 | definition; see the lemmas below |
| `Text.ContainsIff` | src/components/MainFeature.jsx:131 | the scanning `includes` holds exactly when some window of the string equals the search term |
| `Text.MissingCharNotContained` | src/components/MainFeature.jsx:145-147 | a string lacking any character of the pattern does not include it |
| `Text.TrimSlice` | src/components/MainFeature.jsx:362-363 | `trim` returns a contiguous slice of its input, and all that it cuts from either end is white space |
| `Text.TrimEnds` | src/components/MainFeature.jsx:362-363 | a non-empty trimmed string neither starts nor ends with white space |
| `Text.TrimEmptyIff` | src/components/MainFeature.jsx:362 | the trimmed text is empty exactly when the input is all white space |
| `Text.LexCompareZero` | src/components/MainFeature.jsx:134 | the name comparison returns 0 exactly for equal strings |
| `Text.LexCompareFlip` | src/components/MainFeature.jsx:134 | swapping the operands of the name comparison flips its sign |
| `Text.LexCompareTrans` | src/components/MainFeature.jsx:134 | "not after" in the name order is transitive |
| `Text.LexCompareTransStrict` | src/components/MainFeature.jsx:134 | "strictly before" then "not after" in the name order gives "strictly before" |
| `Intake.Validate` | src/components/MainFeature.jsx:17-36 | accepted iff size is at most 100 MiB and the type is one of the nine allowed; an oversized file is rejected with exactly the size notice carrying its name, whatever its type; a file within the limit whose type is not allowed is rejected with exactly the type notice carrying that type |
| `Intake.SizeBoundary` | src/components/MainFeature.jsx:18-28 | 104857600 bytes with an allowed type is accepted; 104857601 bytes is rejected as too large for any type |
| `Intake.TypeExamples` | src/components/MainFeature.jsx:19-33 | "image/png" is accepted; "application/x-msdownload" is rejected with the type notice |
| `Intake.ValidFiles` | src/components/MainFeature.jsx:64 | definition; see the lemmas below |
| `Intake.Rejections` | src/components/MainFeature.jsx:25-33 | definition; see the lemmas below |
| `Intake.RejectedFiles` | src/components/MainFeature.jsx:64 | definition; see the lemmas below |
| `Intake.ValidFilesOrdered` | src/components/MainFeature.jsx:64 | the accepted files are an order-preserving sub-sequence of the batch |
| `Intake.ValidFilesCount` | src/components/MainFeature.jsx:64 | each valid file is kept as often as the batch holds it; no invalid file is kept |
| `Intake.ValidFilesMembers` | src/components/MainFeature.jsx:64 | a file is accepted iff it is in the batch and valid |
| `Intake.RejectionsSpec` | src/components/MainFeature.jsx:25-33 | the accepted files and the notices together number the files of the batch, and every notice is an error |
| `Intake.RejectionsMatch` | src/components/MainFeature.jsx:25-33 | the k-th notice raised while filtering is exactly the verdict `validateFile` gives the k-th rejected file, so notices follow batch order and carry that file's name or type |
| `Intake.RejectedFilesOrdered` | src/components/MainFeature.jsx:64 | the rejected files are an order-preserving sub-sequence of the batch |
| `Intake.RejectedFilesCount` | src/components/MainFeature.jsx:64 | each invalid file is reported as often as the batch holds it; no valid file is reported |
| `Intake.AllRejected` | src/components/MainFeature.jsx:64-66 | a batch with no valid file leaves nothing to upload and yields one notice per file |
| `Records.MakeRecord` | src/components/MainFeature.jsx:69-77 | a new record copies name, size and type from the file and id, time and URL from the environment; it has a preview URL iff the type starts with "image/" |
| `Records.IconFor` | src/components/MainFeature.jsx:143-149 | image prefix gives Image; else "pdf" gives FileText; else "zip" gives Archive; else "word" gives FileText; else File |
| `Records.PreviewIffImageIcon` | src/components/MainFeature.jsx:76 | a record has a preview exactly when its icon is the image icon |
| `Records.PdfIcon` | src/components/MainFeature.jsx:145 | "application/pdf" shows the text icon |
| `Records.PlainTextIcon` | src/components/MainFeature.jsx:143-148 | "text/plain" shows the generic icon |
| `Records.ZipIcon` | src/components/MainFeature.jsx:146 | "application/zip" shows the archive icon |
| `Records.MsWordIcon` | src/components/MainFeature.jsx:147 | "application/msword" shows the text icon |
| `Records.DocxIcon` | src/components/MainFeature.jsx:147 | the Office Open XML word-processing type shows the text icon |
| `Records.AllowedTypeIcons` | src/components/MainFeature.jsx:143-149 | the icon of each of the nine accepted types: Image for the four images, Archive for ZIP, File for plain text, FileText otherwise |
| `Edits.Remove` | src/components/MainFeature.jsx:118 | definition; see the lemmas below |
| `Edits.Rename` | src/components/MainFeature.jsx:123-125 | definition; see the lemmas below |
| `Edits.RemoveOrdered` | src/components/MainFeature.jsx:118 | deleting keeps the remaining records in their original relative order |
| `Edits.RemoveCount` | src/components/MainFeature.jsx:118 | deleting removes every record with the id and keeps every copy of every other record |
| `Edits.RemoveMembers` | src/components/MainFeature.jsx:118 | a record survives deletion iff it was present and has a different id |
| `Edits.RemoveAbsent` | src/components/MainFeature.jsx:118 | deleting an id no record has leaves the list unchanged |
| `Edits.RemoveIdempotent` | src/components/MainFeature.jsx:118 | deleting the same id twice equals deleting it once |
| `Edits.RemoveKeepsUnique` | src/components/MainFeature.jsx:118 | deleting keeps ids unique |
| `Edits.RenameSpec` | src/components/MainFeature.jsx:123-125 | renaming keeps length and order; exactly the records with the id get the new name; no other field or record changes |
| `Edits.RenameAbsent` | src/components/MainFeature.jsx:123-125 | renaming an id no record has leaves the list unchanged |
| `Edits.RenameKeepsUnique` | src/components/MainFeature.jsx:123-125 | renaming keeps ids unique |
| `Edits.RemoveAfterRename` | src/components/MainFeature.jsx:118-125 | deleting a renamed id gives the same list as deleting it unrenamed |
| `Edits.RenameRequest` | src/components/MainFeature.jsx:361-366 | a rename is requested iff the input is not all white space and differs from the current name before trimming; the requested name is the trimmed input and is non-empty |
| `Edits.RequestedNameIsTrimmed` | src/components/MainFeature.jsx:362-363 | a committed name neither starts nor ends with white space |
| `Edits.PaddedSameNameIsCommitted` | src/components/MainFeature.jsx:362-363 | " report.pdf" on a record named "report.pdf" requests a rename to "report.pdf" |
| `Query.KeyOf` | src/components/MainFeature.jsx:133-138 | definition; see the lemmas below |
| `Query.Compare` | src/components/MainFeature.jsx:132-139 | definition; see the lemmas below |
| `Query.Sort` | src/components/MainFeature.jsx:132-140 | definition; see the lemmas below |
| `Query.Filter` | src/components/MainFeature.jsx:131 | definition; see the lemmas below |
| `Query.View` | src/components/MainFeature.jsx:130-140 | definition; see the lemmas below |
| `Query.CompareFlip` | src/components/MainFeature.jsx:132-139 | for every key, swapping the operands flips the comparator's sign |
| `Query.CompareTrans` | src/components/MainFeature.jsx:132-139 | for every key, "not after" is transitive |
| `Query.CompareTransStrict` | src/components/MainFeature.jsx:132-139 | for every key, "strictly before" then "not after" gives "strictly before" |
| `Query.InsertSorted` | src/components/MainFeature.jsx:132-139 | inserting into a sorted list keeps it sorted |
| `Query.InsertTies` | src/components/MainFeature.jsx:132-139 | an inserted record lands after every record it ties with |
| `Query.SortCount` | src/components/MainFeature.jsx:132-139 | the sort returns a permutation of its input |
| `Query.SortSorted` | src/components/MainFeature.jsx:132-139 | the sort returns its input in comparator order: names and types ascending, sizes and dates descending |
| `Query.SortStable` | src/components/MainFeature.jsx:132-139 | records that tie under the comparator keep their relative order |
| `Query.SortUnsortedIdentity` | src/components/MainFeature.jsx:138 | with an unknown key the sort returns its input unchanged |
| `Query.FilterCount` | src/components/MainFeature.jsx:131 | the filter keeps exactly the records whose lower-cased name contains the lower-cased term, each as often as present |
| `Query.FilterOrdered` | src/components/MainFeature.jsx:131 | the filter keeps catalog order |
| `Query.FilterIgnoresTermCase` | src/components/MainFeature.jsx:131 | a term and its lower-cased form select the same records, so search ignores the case of the term |
| `Query.FilterEmptyTerm` | src/components/MainFeature.jsx:131 | the empty search term keeps every record |
| `Query.ViewSpec` | src/components/MainFeature.jsx:130-140 | the view is a permutation of the matching records, sorted by the key, with ties in catalog order |
| `Query.ViewPassThrough` | src/components/MainFeature.jsx:130-140 | with no term and an unknown key the view is the catalog itself |
| `Query.SortExample` | src/components/MainFeature.jsx:134-135 | "b.txt" (10 bytes) and "a.txt" (20 bytes) come out a.txt first both by name and by size |
| `Store.Newest` | src/components/MainFeature.jsx:68-93 | definition; see the lemmas below |
| `Store.UploadNotices` | src/components/MainFeature.jsx:68-93 | definition; see the lemmas below |
| `Store.Succeeded` | src/components/MainFeature.jsx:82-84 | the indices of the uploads that succeed, strictly ascending, holding exactly the k < n whose upload succeeds |
| `Store.NewestOrder` | src/components/MainFeature.jsx:68-84 | for any mix of outcomes, the block put in front holds one record per successful upload, newest first: its i-th record is built from the file and stamp of the i-th last successful upload |
| `Store.NewestAllSucceed` | src/components/MainFeature.jsx:68-84 | when every upload of f1..fn succeeds, the block put in front is fn, ..., f1, each record built from its file |
| `Store.NewestSources` | src/components/MainFeature.jsx:68-84 | every new record comes from a successful upload of an accepted file, and every successful upload adds its record |
| `Store.NewestNoneSucceed` | src/components/MainFeature.jsx:82-93 | when no upload succeeds no record is added |
| `Store.UploadNoticesSpec` | src/components/MainFeature.jsx:85-87 | one notice per upload, in upload order: success or failure with the file's name |
| `Store.IntakeKeepsUnique` | src/components/MainFeature.jsx:70-84 | intake keeps ids unique provided each successful upload gets an id that is new |
| `Store.Catalog.constructor` | src/components/MainFeature.jsx:8-12 | the widget starts with no files, no notices, an empty search term and sort key "name" |
| `Store.Catalog.FilteredFiles` | src/components/MainFeature.jsx:130-140 | the rendered list is a permutation of the matching records, sorted by the selected key with ties in catalog order; it reads the state and changes nothing |
| `Store.Catalog.SetSearchTerm` | src/components/MainFeature.jsx:274 | changing the search term changes nothing else |
| `Store.Catalog.SetSortBy` | src/components/MainFeature.jsx:282 | changing the sort key changes nothing else |
| `Store.Catalog.ProcessFiles` | src/components/MainFeature.jsx:63-95 | rejection notices come first, then the records of successful uploads are prepended one by one, and one upload notice per accepted file is logged in order; with no valid file only the rejection notices are added |
| `Store.Catalog.DeleteFile` | src/components/MainFeature.jsx:117-120 | the list becomes the delete updater applied to it and one success notice is logged, whether or not the id was present |
| `Store.Catalog.RenameFile` | src/components/MainFeature.jsx:122-127 | the list becomes the rename updater applied to it and one success notice is logged |
| `Store.Catalog.HandleRename` | src/components/MainFeature.jsx:361-366 | when the guard passes, the record is renamed to the trimmed text with a notice; otherwise list and log are unchanged |

## Left out

- `simulateUpload` (src/components/MainFeature.jsx:39-60) is left out: its timer, its random increments and its rounding. Each upload is an outcome supplied by `Env.succeeds`.
- The `uploadProgress` map (lines 10, 47-57, 80, 88-92) is left out. It is display state fed by the timer and keyed by file name.
- `formatFileSize` (lines 152-158) is left out. It is floating-point formatting.
- Id, timestamp and object-URL generation (`Date.now() + Math.random()`, `new Date()`, `URL.createObjectURL`) are inputs, supplied by `Env.stamp`. Object URLs are never revoked in the code, and the model does not track them either.
- `toast` calls become entries of the notice log. The message wording is not modelled; each notice keeps only the file name or type it mentions.
- `localeCompare` is taken as code-point lexicographic order returning -1, 0 or 1. `toLowerCase` is taken as ASCII lower-casing. Strings are sequences of Unicode code points, not UTF-16 code units. Locale-dependent collation and case mapping are not modelled.
- `Array.prototype.sort` is modelled as a stable insertion sort. That every stable sort with this comparator gives the same list is not proved.
- Interleaving is not modelled. While `processFiles` awaits an upload, the user can delete, rename or drop another batch. The code applies each prepend to the list as it is at that moment. The model runs one batch without interruption.
- The drag-and-drop handlers (lines 98-114), view-mode switching and all markup and animation are left out. So are src/pages/Home.jsx, src/pages/NotFound.jsx and src/App.jsx, which are presentational pages, routing and theme storage.
