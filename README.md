# habang_report core, modelled in Dafny

habang_report is an Express/MongoDB server for apartment handover inspections. A customer is
registered as a **pre-inspection report** (collection `reports`). Its **defect ledger**
(`visualInspection`) is filled by a bulk photo upload that groups photos two per entry. Update
forms edit the ledger. An **equipment record** (radon, formaldehyde, thermal camera, pipes, floor
level, drains) is attached to the report. Later the report is **forked** into a post-inspection
report (collection `after-reports`) under the same id. Both kinds export a PDF and a zip of
watermarked photos.

This project models the deterministic logic inside the route handlers of `server.js`:

- the store is two maps from id to report;
- fresh ObjectIds, `Date.now()`, `Math.random()` and file existence are parameters;
- each route is a function from the store to `Result<Store, Error>`;
- the loops that change variables step by step are methods, each proved equal to a specification
  function, with the source's promises proved as lemmas about those functions.

Modules:

| file | module | contents |
|---|---|---|
| wrappers.dfy | Wrappers | `Option`, `Result` |
| seqs.dfy | Seqs | `filter` and flattening, with their algebra |
| js.dfy | Js | JavaScript semantics used by the handlers: `undefined`, truthiness, `||`, `Array.isArray(x) ? x : [x]`, `trim`, decimal printing, substring tests, `replace(/[^…]/g, "_")` |
| ledger.dfy | Ledger | defect entries, the bulk-intake loop, the new-defect row loop, removal by id, single-entry edit and delete |
| equipment.dfy | Equipment | `transformArray`, the six location tables, the equipment record |
| upload.dfy | Upload | multer's stored filename, `path.extname`, the file filter, the compression loop over file objects |
| reports.dfy | Reports | the store and the routes that change it |
| export.dfy | Export | the watermark/zip loop, font size, and the download names |

## Model

| member | source | states |
|---|---|---|
| Js.Truthy | server.js:531-533 | `undefined` and "" are exactly the falsy body values |
| Js.Or | server.js:1470-1475 | JavaScript's `or` on body values is `a` when `a` is truthy and `b` otherwise, and truthy iff either operand is |
| Js.OrDefault | server.js:234-238 | `or` with a string literal is `Or` with a defined second operand: empty only when both are falsy |
| Js.AsList | server.js:206-220 | `Array.isArray(v) ? v : [v]`: an absent key becomes one `undefined` row, one value becomes a one-element list, a repeated key keeps all its values in order |
| Js.Trim | server.js:544-548 | the result has no white space at either end and sits in the input with only white space around it |
| Js.TrimTrimmed | server.js:544-548 | a string with no white space at either end is its own trim |
| Js.TrimIdempotent | server.js:544-548 | trimming a trimmed string changes nothing |
| Js.NumberToString | server.js:64-66 | the decimal form of a number is a non-empty run of digits with no leading zero |
| Js.DecimalRoundTrip | server.js:64-66 | reading the printed digits back gives the number |
| Js.NumberToStringInjective | server.js:1345 | distinct numbers print differently |
| Js.HasInfix | server.js:72-77 | `/w/.test(s)` holds iff `w` occurs in `s` at some offset |
| Js.AsciiLower | server.js:74 | same length; each of A to Z becomes its lower-case letter and every other character stays |
| Js.ReplaceOutsideShape | server.js:65 | `ReplaceOutside` keeps the length; allowed characters stay in place, every disallowed character becomes `_`, and the result holds nothing else |
| Js.ReplaceOutsideIdempotent | server.js:1269 | sanitising a sanitised string changes nothing, and a string of allowed characters is left as it is |
| Seqs.Filter | server.js:503-505 | the result holds exactly the elements of the input that pass the test, and is no longer |
| Seqs.FilterAppend | server.js:503-505 | filtering distributes over concatenation, so the order of survivors is kept |
| Seqs.FilterFilter | server.js:503-505 | filtering by a stronger test after a weaker one is filtering by the stronger test alone |
| Seqs.ConcatMembers | server.js:1313-1314 | an element is in the flattening iff it is in one of the flattened sequences |
| Ledger.Pairs | server.js:223-230 | n photos form ceil(n/2) groups |
| Ledger.PairsAt | server.js:223-230 | group k is photos 2k and 2k+1, the latter only when it exists |
| Ledger.PairsConcat | server.js:223-230 | reading the groups in order gives the upload order back |
| Ledger.IntakeEntry | server.js:233-243 | an intake entry has its own fresh id, its group of photos and the request time; each of its five text fields is non-empty and is either the form's row value or "미입력" |
| Ledger.IntakeEntries | server.js:223-246 | ceil(n/2) entries; entry k is built from form row k and photos 2k and 2k+1 (when present) |
| Ledger.BuildIntake | server.js:223-246 | the `i += 2` / `dataIndex++` loop produces exactly the specified intake entries |
| Ledger.IntakeShape | server.js:223-246 | ceil(n/2) entries; entry k holds photos 2k and 2k+1 when present; the photos together are the upload in order; each entry has 1 or 2 photos and its own fresh id; each of location, sector, specific, content and extra is the row value when truthy and "미입력" otherwise |
| Ledger.IntakeIgnoresExtraRows | server.js:232-238 | data rows beyond the number of photo groups have no effect |
| Ledger.Rows | server.js:512-530 | one row per element of the coerced location list; row i holds location i and the i-th sector, specific, content and note, each undefined past the end of its list |
| Ledger.Complete | server.js:531-533 | a kept row has location, sector, specific and content defined (so `trim` can be called on them) |
| Ledger.Slot | server.js:536-539 | `slice(2·index, 2·index + 2)` clipped to the upload: two photos when both exist, the one photo left when only one does, none past the end |
| Ledger.ParseNewDefects | server.js:528-554 | at most one new entry per row; every new entry has an id, the request time and at most two photos |
| Ledger.CollectNewDefects | server.js:528-554 | the `forEach` that pushes into `newDefects` produces exactly the specified parse of the rows |
| Ledger.ParseStep | server.js:530-554 | one more row adds one entry exactly when it is complete, built from that row's own index |
| Ledger.KeptRowsSpec | server.js:531-533 | the kept indices are the complete rows, each once, ascending |
| Ledger.ParseCharacterisation | server.js:530-554 | a row is kept iff location, sector, specific and content are all truthy; kept entries follow row order and entry j comes from kept row K[j] |
| Ledger.NewDefectShape | server.js:541-550 | the entry `NewDefect` builds has the row's fresh id and the request time; location, sector, specific, content and a truthy note are the trims of the row values; a falsy note becomes ""; its photos are the slot of its original row index: two, one, or none |
| Ledger.SkippedRowConsumesSlot | server.js:536-539 | a skipped row still uses its slot: after an incomplete first row, the entry of the second row gets photos 2 and 3 |
| Ledger.Survivors | server.js:503-505 | an entry survives iff it has an `_id` outside the removal list; survivors are no more than before |
| Ledger.Pull | server.js:494-500 | `$pull` removes exactly the entries whose `_id` is in the list; entries without an `_id` stay |
| Ledger.PullAppend | server.js:494-500 | `$pull` on a concatenation is the concatenation of the pulls, so the kept entries keep their order |
| Ledger.PullOne | server.js:494-500 | on one entry `$pull` keeps it exactly when it has no `_id` or one outside the list |
| Ledger.Remaining | server.js:487-505 | without a removal list the ledger is kept as it is; with one, the kept entries are exactly the old entries with an `_id` outside it |
| Ledger.SurvivorsSpec | server.js:494-505 | filtering the survivors again, or filtering the `$pull` result, gives the same survivors |
| Ledger.SurvivorsAppend | server.js:503-505 | survivors of a concatenation are the concatenated survivors |
| Ledger.SurvivorsIsPull | server.js:497-505 | when every entry has an `_id`, the in-memory filter agrees with `$pull` |
| Ledger.FilterKeepsIdsDistinct | server.js:503-505 | removal keeps entry ids distinct |
| Ledger.ParsedIdsDistinct | server.js:541-542 | with an injective id supply the new entries have distinct ids |
| Ledger.AppendIdsDistinct | server.js:557 | two id-disjoint ledgers with distinct ids concatenate to one with distinct ids |
| Ledger.MergeKeepsIdsDistinct | server.js:503-557 | survivors followed by new entries never repeat an id, given distinct stored ids and a fresh, injective supply |
| Ledger.EditEntry | server.js:809-820 | same length; every entry keeps its `_id`, photos and creation time |
| Ledger.EditEntryFirstMatch | server.js:809-820 | the first entry with the id gets exactly the five submitted fields and every other entry is untouched |
| Ledger.EditEntryUnmatched | server.js:809-820 | an id no entry has changes nothing |
| Ledger.DeleteEntry | server.js:834-839 | exactly the entries with the id are removed and the result is no longer than the ledger; an absent id changes nothing |
| Ledger.DeleteEntryAppend | server.js:834-839 | deleting from a concatenation deletes from each part, so the remaining entries keep their order |
| Ledger.DeleteEntryOne | server.js:834-839 | one entry is dropped exactly when it carries the id and kept once otherwise |
| Equipment.Normalize | server.js:312 | a value becomes `true` iff it is exactly "on"; every other value passes through as itself |
| Equipment.LocationAt | server.js:309 | `keys[index]` is undefined exactly past the table's end, and otherwise that table entry |
| Equipment.TransformItem | server.js:309-313 | the object has the item's keys plus `location`; every item value is kept with "on" as `true`; the item's own `location`, when sent, overrides the table's |
| Equipment.TransformArray | server.js:307-316 | a non-array gives []; otherwise one object per item, in order, with the item's keys plus `location`; `location` is the item's own when sent, else `keys[i]`, undefined past the table's end; "on" becomes `true` |
| Equipment.TransformNeverFalse | server.js:312 | no encoded value is `false` |
| Equipment.Encode | server.js:318-340 | the record always has all six panels, each as long as its submission (a missing panel is []), and item i of every panel is `TransformItem` of the submitted item i against that panel's own location table (radon, formaldehyde, thermal camera from the `equipment` key, pipe, floor level, drain); the stamp is kept |
| Equipment.RadonNotClamped | server.js:307-316 | a fourth radon item is kept with an undefined location: no clamping to the table |
| Upload.SanitizeUploadName | server.js:65 | same length; every character outside [a-zA-Z0-9.] becomes `_` |
| Upload.StoredFilename | server.js:63-67 | the stored name ends in the sanitised original name and holds only letters, digits, dots, underscores and dashes, so no slash |
| Upload.IndexOf | server.js:63-67 | the position of the first occurrence of a character, or none when absent |
| Upload.StoredFilenameRoundTrip | server.js:63-67 | the stored name splits at its first two dashes into the decimal timestamp, the decimal random suffix and the sanitised name, which read back as the inputs |
| Upload.LastIndexOf | server.js:73-74 | the position of the last occurrence of a character, or none when absent |
| Upload.StripTrailingSlashes | server.js:73-74 | the path without the slashes it ends in |
| Upload.Basename | server.js:73-74 | the ending of the stripped path after its last slash (all of it when there is none), holding no slash |
| Upload.ExtName | server.js:73-74 | `path.extname` is empty or a dot-led ending of the basename with no further dot |
| Upload.SegmentExtension | server.js:73-74 | the extension of one segment is empty or a dot-led ending of it with no further dot |
| Upload.NamesImageType | server.js:72-76 | only a string of at least three characters can contain one of the words |
| Upload.AcceptFile | server.js:71-83 | an accepted file has a non-empty extension and a mimetype of at least three characters |
| Upload.AcceptedHasExtension | server.js:71-83 | an accepted file has an extension of a dot and at least three more characters; a name without an extension is refused |
| Upload.ExtNameOfPlainName | server.js:73-74 | a slash-free name `base.ext` has the extension ".ext", everything from its last dot on |
| Upload.FilterReadsLastExtension | server.js:71-83 | for a name `base.ext` the file is accepted iff the lower-cased ".ext" and the mimetype both name an image type; only the text after the last dot counts ("photo.png.exe" is judged by ".exe"), and containment suffices (".apng") |
| Upload.FilterIgnoresCase | server.js:73-76 | the verdict on `base.ext` equals the verdict on `base` plus the extension with its ASCII capitals lowered |
| Upload.RefusesMimetypeWithoutG | server.js:71-83 | every allowed word contains a "g", so a mimetype without one (text/plain, application/pdf) is refused whatever the name |
| Upload.DotFileRefused | server.js:71-83 | a name whose only dot leads it (".png") has no extension and is refused |
| Upload.UploadedFile.constructor | server.js:58-67 | a file object from disk storage has the stored filename and the path "upload/" + filename |
| Upload.CompressedName | server.js:188-200 | the compressed name is "compressed-" followed by the old name |
| Upload.CompressAll | server.js:187-201 | every file object now names its compressed copy: `filename` is "compressed-" + the old name and `path` is "upload/" + that |
| Reports.WithLedger | server.js:557-570 | replacing one report's ledger changes nothing else |
| Reports.Register | server.js:131-150 | under a fresh id the store gains exactly one report, with the customer fields, an empty ledger and no equipment; every old report survives unchanged; validity is kept |
| Reports.PostReport | server.js:166-262 | 400 for a missing or invalid id, then 400 for no photos, then 404 for an unknown report; otherwise only that report's ledger changes, by appending the intake entries with compressed photo names |
| Reports.HandlePostReport | server.js:166-262 | the route's guards, compression loop and grouping loop give the specified result, and the files are renamed exactly when both guards pass: each then has the compressed filename and the path `upload/` plus that filename, otherwise filename and path are untouched |
| Reports.PostReportAppends | server.js:250-255 | the old ledger is a prefix of the new one, which grows by ceil(n/2); the new entries' photos are the upload in order |
| Reports.GuardedNewDefects | server.js:1432-1461 | the guard on the raw location value (`FormTruthy`: absent or "" is falsy, any array is truthy) changes nothing: the result is the unguarded parse |
| Reports.Merge | server.js:1476 | `length > 0 ? [...a, ...b] : a` is always `a ++ b` |
| Reports.UpdateReport | server.js:441-570 | 400, then 404 for an unknown pre-report; otherwise only that report changes: its ledger becomes the survivors and then the new rows, and `updatedAt` is set |
| Reports.UpdatedLedgerContents | server.js:487-557 | an entry is in the new ledger iff it is a surviving old entry or a new one; survivors come first in their order; one new entry per complete row; no removal list keeps the old ledger as a prefix |
| Reports.SaveNewReport | server.js:1376-1486 | 400, then 404 for an unknown pre-report; otherwise a removal list is `$pull`ed from the pre-report, the after-report under the same id is written, and no other report of either collection changes |
| Reports.ForkedReport | server.js:1467-1479 | the forked document records the pre-report's id; each customer field is the body's when truthy and the pre-report's otherwise, so a customer name survives the fork unless both are falsy; both timestamps are the request's |
| Reports.ForkedAfterReport | server.js:1467-1486 | `_id` = `originalReportId` = the report id; each customer field is the truthy body value, else the pre-report's; the ledger is the pre-report's survivors and then the new rows; both timestamps are the request's; an existing after-report keeps its equipment record |
| Reports.RepeatForkOverwrites | server.js:1467-1486 | on a repeated fork the after-report's ledger depends only on the pre-report and the request, not on what the after-report held |
| Reports.ForkTwiceSameLedger | server.js:1411-1428 | the removal reaches the pre-report, so forking twice with the same list and no new rows gives the same ledger: the survivors of the original |
| Reports.UpdateAfterReport | server.js:1931-2028 | 400, then 404 for an unknown after-report; otherwise only that after-report changes: its ledger becomes the survivors and then the new rows, and `updatedAt` is set |
| Reports.EditCustomer | server.js:725-748 | a known report gets exactly the six sent customer fields and nothing else in the store changes; an unknown id changes nothing; validity is kept |
| Reports.EditCustomerLastWriteWins | server.js:725-748 | a second customer edit replaces the first completely and keeps the report's ledger and equipment |
| Reports.SetEquipment | server.js:343-350 | 400, 404, or only that report changes: its equipment record is replaced wholesale by the encoded submission |
| Reports.SaveEquipment | server.js:299-350 | 400, then 404 for an unknown pre-report; otherwise only that report changes: its equipment record becomes the encoded submission stamped `createdAt` |
| Reports.UpdateEquipment | server.js:632-683 | 400, then 404 for an unknown pre-report; otherwise only that report changes: its equipment record becomes the encoded submission stamped `updatedAt` |
| Reports.EquipmentLastWriteWins | server.js:678-681 | an update leaves nothing of the saved record, keeps the ledger, and gives the same store as updating directly |
| Reports.EditInspection | server.js:804-820 | an invalid entry id fails; otherwise only the matched report changes, by the first-match edit |
| Reports.EditInspectionOnlyHolder | server.js:808-810 | naming a report that does not hold the entry changes nothing |
| Reports.DeleteInspection | server.js:829-839 | an invalid report id fails, then an invalid entry id; an unknown report changes nothing; otherwise only that report loses the entries with the id |
| Export.AllImages | server.js:1313-1314 | a photo is in the walk iff it belongs to one of the ledger's entries |
| Export.AllImagesStep | server.js:1313-1314 | one more entry adds its photos, in order, at the end of the walk |
| Export.AllImagesAppend | server.js:1313-1314 | the walk over a concatenated ledger is the concatenated walks |
| Export.WatermarkedName | server.js:1316-1320 | the watermarked copy is "watermarked-" followed by the photo name |
| Export.EntryNameDigits | server.js:1345 | a member name built by `EntryName` is the prefix, the decimal digits of the counter (which read back as the counter) and ".jpg" |
| Export.EntryNameInjective | server.js:1345 | different counter values give different member names |
| Export.FontSize | server.js:1325-1329 | the font size is floor(h/6), with a missing or zero height counting as 600 |
| Export.ZipPlan | server.js:1311-1350 | the archive holds the photos whose file exists, in ledger order; member k is numbered k + 1 and named after that number |
| Export.PlanStep | server.js:1322-1348 | one more photo adds a member numbered one past the archive exactly when its file exists |
| Export.AssembleArchive | server.js:1311-1350 | the nested loop produces exactly the specified archive and leaves the counter one past its size |
| Export.ArchiveNamesDistinct | server.js:1344-1347 | member names never repeat |
| Export.CounterRunsAcrossEntries | server.js:1311-1350 | the counter does not restart per entry: a later part of the ledger is numbered from one past the earlier part's members |
| Export.FirstEntryNames | server.js:2097-2099 | the first member names read image-1.jpg … and after-image-1.jpg … |
| Export.AllImagesOfTwo | server.js:1313-1314 | the walk over two entries is their photos one after the other |
| Export.FourImagesNumberedInOrder | server.js:1311-1350 | two entries of two existing photos give image-1.jpg … image-4.jpg in ledger order |
| Export.MissingFileSkipsNoNumber | server.js:2066-2103 | a missing photo uses no number: the next existing one becomes after-image-2.jpg |
| Export.Collection | server.js:1290-1292 | in a valid store the collection an export reads holds documents of its own kind: pre-reports without `originalReportId`, after-reports recording their own id and having a pre-report |
| Export.DownloadImages | server.js:1286-1350 | 400 for an invalid id; 404 iff the report is missing or its ledger is empty; otherwise exactly the archive the loop builds: the existing photos in ledger order, numbered and named from 1 |
| Export.BundleName | server.js:1355 | the zip is named "report-" or "after-report-", then the id, then "-images.zip" |
| Export.PdfDownloadName | server.js:1269-1270 | no name without a customer name; otherwise the sanitised name of the same length followed by "_사전점검보고서.pdf" or "_후점검보고서.pdf" |
| Export.PdfNameStable | server.js:1869-1870 | the sanitised part of the name is a fixed point of the sanitiser |
| Export.DownloadPdfName | server.js:852-866 | 400, 404 for an unknown report, otherwise the download name of that report's customer |

## Left out

- Express routing, rendering, redirects and `res.download` are not modelled. The routes that only read or render (customer list, detail pages, `/after-report-check`, the GET edit pages) are not part of this model.
- `POST /edit-equipment/:id` (server.js:751-767) is left out. It stores the raw request body as `equipmentInspection`, without `transformArray`, no stamp and no 404. The model's `equipmentInspection` is always an encoded record, so after that route the stored value would fall outside the model.
- Reports.EditCustomer: an unsent customer field is stored by the driver as `null`; the model writes it as undefined, which is equally falsy. A malformed id (a throwing `new ObjectId`, the 500 answer) is not modelled.
- MongoDB is replaced by two in-memory maps; connection handling, atomicity and the global `db` are not modelled.
- sharp (resize, JPEG quality, metadata, SVG composite), archiver streams, html-pdf/EJS rendering and the CSS literals are foreign code and are left out. The photo height is a parameter; the watermark and the archive are values.
- `new ObjectId()`, `Date.now()`, `new Date()` and `Math.random()` are parameters. One `now` stands for all `new Date()` calls of a request. A fresh-id supply `newId` is indexed by entry ordinal for the intake and by row index for the new-defect rows.
- `ObjectId.isValid`, `new ObjectId(id)` and `JSON.parse` are not modelled. A report id arrives already checked as `Option<Id>`, and the removal list arrives already parsed. The trimming of the id in `/update-equipment-report` and a throwing `JSON.parse` fall outside the model too.
- Reports.DeleteInspection: an absent `reportId` is treated as invalid, while `new ObjectId(undefined)` actually makes a fresh id that matches no report, so the route changes nothing.
- Reports.EditInspection: which document `updateOne` matches by entry id is a parameter (`target`). Body fields that were not sent (set to `null` by the source) are not modelled: the edit takes five strings.
- Reports.SaveNewReport: the intermediate `$pull` on the pre-report is modelled, but the two writes are not atomic in the source and the model does not capture a failure between them.
- Reports.UpdateReport, Reports.SaveNewReport, Reports.UpdateAfterReport: the files uploaded under `image` are compressed by these routes but never used. Their renaming is not modelled here (it is modelled for the bulk intake).
- Reports.PostReport: failures of sharp or of the database (the 500 answer) are not modelled.
- Multer's `maxCount` limits are library behaviour. With at most two `newDefectsImages`, only row 0 can ever receive photos.
- File existence is a predicate parameter. Deleting temporary files (`unlinkSync`, the zip after download) is not modelled.
- Upload.ExtName follows Node's POSIX `path.extname` for the names multer hands over. Windows separators are not modelled.
- Export.PdfDownloadName: a missing customer name makes `replace` throw inside the PDF callback; the model returns no name and does not model the crash.
- Strings are sequences of Unicode scalar values. JavaScript counts a character outside the BMP as two code units; this matters for `replace` and `slice` only on such characters, and the model does not capture the difference.
- Upload.FilterIgnoresCase: `toLowerCase` is modelled on the ASCII letters only, so the lemma states case-insensitivity for A to Z. Other letters keep their case in the model; the verdict cannot depend on them, as every allowed word is ASCII.
- Upload.FilterReadsLastExtension: the lowering it reads is the same ASCII-only `AsciiLower`.
- Equipment.TransformItem: a submitted item is a map from field names to strings. Items that are not objects, and nested values, are not modelled.
- Reports.Register: the id is fresh because the database generates a new ObjectId; the model takes that as a precondition.
- Key order inside JavaScript objects (for example `location` first in `transformArray`) is not modelled: objects are maps.
