# SmaRo DICOM ingestion and relay: a Dafny model

SmaRo is a Windows desktop gateway. It runs a DICOM service provider (SCP) that
accepts every association and answers C-ECHO. For each C-STORE it:

1. saves the received file as `<uid>.dcm`;
2. upserts a `dicom_metadata` row for the patient, marked "In Progress" under the
   path of the compressed file;
3. normalises the file to JPEG 2000 lossless (`<uid>_converted.dcm`);
4. compresses it along an ordered chain of encapsulated transfer syntaxes
   (`<uid>_compressed.dcm`);
5. posts it to the remote Orthanc archive with the branch and client
   identifiers of auth row 1;
6. cleans up.

The reports window lists the table newest first. It purges rows older than one
day when it opens, starts and stops the server, and retries the upload of one
file by hand. A value converter shows the retry button for "Failed" rows only.

The model follows the program's structure, one module per area:

- `Wrappers`: Option, Result and Outcome.
- `Sequences`: the subsequence order that the model's filters keep.
- `Dicom`: transfer syntaxes, data elements, and the codec as an oracle.
- `Files`: the disk, a class over a path-to-file map.
- `Relay`: the multipart POST.
- `Metadata`: the two tables and their invariant.
- `DatabaseHelper`: the database class, the schema, the UNIQUE constraint and
  the purge.
- `DicomReceiver`: the service provider.
- `ViewReports`: the reports window, a class.
- `RetryVisibility`: the converter.
- `Delivery`: runs of C-STOREs and purges.

Each state-changing step is a method on the `Disk` and `Database` objects. Its
`ensures` ties the new state to a function of the old state: `Stored`,
`Processed`, `Upserted`, `Normalized`, `Compressed`. The lemmas are proved about
those functions.

Things the environment decides are parameters:

- which paths accept a write (`canWrite`) and which a delete (`canDelete`);
- what the codec does (`Codec`);
- what the HTTP exchange returns (`HttpOutcome`);
- whether the database can be read;
- the current time, as seconds.

So every catch block of the source is a reachable branch of the model. This
includes a `File.Delete` that throws. Inside the handler's try block it runs the
catch block. Inside the catch block it leaves the handler, and no C-STORE
response is sent (`StoreResponses`).

The code is modelled as written, including behaviour its own comments do not
call for. The model proves what follows from that behaviour:

- The failure branches of the C-STORE handler set "Failed" on the rows whose
  `file_path` is the *converted* path. The upsert stored the *compressed* path,
  so that update changes no row (`StatusByConvertedPathIsNoOp`). An undelivered
  object's row stays "In Progress" (`UndeliveredStoreStaysInProgress`).
- As a consequence, no run of C-STOREs and purges starting from an empty table
  ever produces a "Failed" row. The retry button is never visible
  (`Delivery.RetryNeverOffered`).
- `image_count` rises once per arrival, in the upsert. The receiver's
  "Completed" update does not add to it. Two delivered images of one patient
  leave one row with count 2 (`Delivery.TwoDeliveredImagesOfOnePatient`).
  Only the window's retry adds one on "Completed" (`ViewReports.RetryNetEffect`).
- The upsert finds a patient by `image_count > 0`, not by the row's presence.
  A row with a count of zero would be shadowed by a second row for the same
  patient (`ZeroCountRowIsNotFound`). The table invariant shows this cannot
  arise from the code's own writes (`UpsertPreservesInvariants`).
- When the upload fails, the compressed file is kept and the other two are
  deleted (`CompressedFileLeftBehind`).
- The reports window's `_allReports` list is never filled. Its paging is
  modelled over that field, and the field stays empty. `Window_Loaded` rebinds
  the grid to the paged collection (`GridSource`).

The code itself suggests two things it does not do. The model follows the code
in both cases:

- Both failure branches write "Failed" (DicomReciever.cs:123 and :132). The retry
  button is shown for "Failed" rows only (RetryVisibilityConverter.cs:10-13). So
  the code evidently means an undelivered object's row to become "Failed" and
  to be offered for retry. But the update is keyed to the converted path, so
  the row stays "In Progress" (see above).
- The comment at ViewReportsWindow.xaml.cs:261 says the "Completed" update
  increments `image_count`. That holds for the window's own update
  (ViewReportsWindow.xaml.cs:341-343). The receiver's update at
  DicomReciever.cs:111 goes through its own UpdateStatusInDatabase
  (DicomReciever.cs:328-342), which does not increment the count.

## Model

| member | source | states |
|---|---|---|
| `DicomReceiver.OnReceiveAssociationRequest` | DicomReciever.cs:34-55 | every proposed presentation context ends Accept, whatever its abstract syntax; the result only reports whether the accept was sent |
| `DicomReceiver.OnCEchoRequest` | DicomReciever.cs:74-78 | C-ECHO answers Success to the same message |
| `DicomReceiver.StoragePaths` | DicomReciever.cs:86-88 | the raw, converted and compressed paths of one SOP instance are pairwise distinct; only the third ends in `_compressed.dcm` |
| `DicomReceiver.ConvertedIsNeverCompressed` | DicomReciever.cs:87-88 | no converted path, for any UID, is a compressed path |
| `DicomReceiver.GetTagValue` | DicomReciever.cs:372-375 | an absent element, or one without a single value, reads "N/A"; otherwise the element's value |
| `DicomReceiver.GetAuthDetails` | DicomReciever.cs:344-370 | branch and client id of auth row 1; (0, 0) when the row is missing, an id is NULL or the database cannot be read |
| `DicomReceiver.SelectImageCount` | DicomReciever.cs:228-241 | the image_count of the first row with the patient id, 0 when there is none |
| `DicomReceiver.UpsertOverwritesExisting` | DicomReciever.cs:243-283 | a known patient's row is overwritten from the file with count + 1, new status, path and time, its study UID kept, every other row unchanged |
| `DicomReceiver.UpsertInsertsNew` | DicomReciever.cs:284-316 | a new patient gets one appended row describing the file with count 1, unless the study UID is taken (UNIQUE), which leaves the table as it was |
| `DicomReceiver.ZeroCountRowIsNotFound` | DicomReciever.cs:243 | a patient whose first row has count <= 0 is not found, and a second row for the same patient is inserted |
| `DicomReceiver.UpsertPreservesInvariants` | DicomReciever.cs:219-323 | the upsert keeps positive counts, one row per patient, unique study UIDs, compressed file paths and the absence of "Failed" rows |
| `DicomReceiver.UpsertKeepsColumns` | DicomReciever.cs:243-316 | after the upsert every row is an old row or carries the new path and status |
| `DicomReceiver.UpsertKeepsTableInvariant` | DicomReciever.cs:228-316 | the upsert keeps the table invariant for any path |
| `DicomReceiver.KnownPatientIsFound` | DicomReciever.cs:228-243 | under the invariant, a count <= 0 means the patient has no row |
| `DicomReceiver.UpdateKeepsTableInvariant` | DicomReciever.cs:246-263 | the UPDATE keeps patient ids and study UIDs and does not lower counts, so the invariant holds |
| `DicomReceiver.SaveDicomMetadataToDatabase` | DicomReciever.cs:219-323 | the table after the call, and the branch taken, are those of the upsert function; the table invariant is kept |
| `DicomReceiver.SetStatusByPath` | DicomReciever.cs:328-342 | exactly the rows whose file_path is the given path get the new status; nothing else changes |
| `DicomReceiver.SetStatusPreservesInvariants` | DicomReciever.cs:333 | a status update keeps the table invariant and the compressed paths, and adds "Failed" rows only when it writes "Failed" |
| `DicomReceiver.StatusByConvertedPathIsNoOp` | DicomReciever.cs:119-133 | the failure branches' update by the converted path changes no row the receiver wrote |
| `DicomReceiver.UpdateStatusInDatabase` | DicomReciever.cs:328-342 | the table becomes the status update of the old table |
| `DicomReceiver.NormalizedArtifact` | DicomReciever.cs:447-500 | the converted file is the JPEG 2000 lossless transcoding when the input loads, is in another syntax and transcodes; otherwise it is the input unchanged |
| `DicomReceiver.Normalized` | DicomReciever.cs:447-500 | normalisation fails exactly when the input is missing or the output cannot be written; otherwise only the output path changes |
| `DicomReceiver.ConvertToRequiredTransferSyntax` | DicomReciever.cs:447-500 | the disk after the call and the escaping exception are those of `Normalized` |
| `DicomReceiver.FirstSuccess` | DicomReciever.cs:403-427 | the index of the first candidate that is encapsulated, transcodes and saves; every earlier one fails |
| `DicomReceiver.FirstSuccessAt` | DicomReciever.cs:403-427 | a candidate that succeeds after only failures is the first success |
| `DicomReceiver.EncapsulatedOf` | DicomReciever.cs:408-412 | the attempted syntaxes are encapsulated members of the candidates, no more of them than candidates |
| `DicomReceiver.EncapsulatedOfSelects` | DicomReciever.cs:408-412 | exactly the encapsulated candidates are attempted, each as often as it occurs, in the candidates' order |
| `DicomReceiver.EncapsulatedOfAll` | DicomReciever.cs:408-412 | no syntax of an all-encapsulated list is skipped |
| `DicomReceiver.AllCandidatesEncapsulated` | DicomReciever.cs:385-393 | none of the six compression candidates is skipped |
| `DicomReceiver.CandidatesExamined` | DicomReciever.cs:403-427 | the loop looks at least at one candidate and at most at all; every candidate before the last one examined fails, and that last one succeeds unless the loop ran to the end |
| `DicomReceiver.Compressed` | DicomReciever.cs:376-440 | compression fails exactly when the input is missing or the output cannot be written; otherwise only the output path changes |
| `DicomReceiver.FirstSuccessWins` | DicomReciever.cs:403-427 | the output is the first succeeding candidate's transcoding (in that syntax for a codec that honours its target); exactly the candidates up to it are attempted |
| `DicomReceiver.CompressionFallsBackToCopy` | DicomReciever.cs:429-438 | when no candidate succeeds, or the file cannot be loaded, the output is a copy of the input |
| `DicomReceiver.TryCandidates` | DicomReciever.cs:403-427 | the loop stops at the first success, writing its transcoding, or writes nothing; it attempts exactly the encapsulated candidates up to the stop |
| `DicomReceiver.CompressDicomFile` | DicomReciever.cs:376-440 | the disk after the call, the escaping exception and the attempted syntaxes are those of `Compressed` and the candidate chain |
| `DicomReceiver.SendDicomFileToOrthanc` | DicomReciever.cs:147-178 | a file that exists is posted to the archive with its file name and the given ids; the result is true exactly on a 2xx response |
| `DicomReceiver.Stored` | DicomReciever.cs:80-93 | if the save of the received file throws, the handler leaves with disk and table unchanged |
| `DicomReceiver.AfterFailedUploadIsFailureCleanup` | DicomReciever.cs:119-133 | the failed-upload branch, including a catch block run after one of its deletes threw, ends exactly as the catch block alone |
| `DicomReceiver.FailureCleanupAnswers` | DicomReciever.cs:128-136 | the catch block goes on to answer Success when the received and converted files can be deleted, and throws when the received file is there and cannot be |
| `DicomReceiver.AfterDeliveryAnswers` | DicomReciever.cs:109-117 | the successful-upload branch answers Success when the received and converted files can be deleted, even when the compressed one cannot; it throws when the received file cannot be deleted |
| `DicomReceiver.ProcessedAnswers` | DicomReciever.cs:95-136 | after a successful save, the try/catch block answers Success or throws, as its deletes decide |
| `DicomReceiver.StoreResponses` | DicomReciever.cs:80-137 | the response is Success or an exception, never another status; with deletable received and converted files it is Success exactly when the save succeeds; a saved file that cannot be deleted makes the handler throw |
| `DicomReceiver.FailureCleanupKeepsRows` | DicomReciever.cs:128-133 | with compressed paths in the table, the catch block leaves every row as it was, whatever it deletes |
| `DicomReceiver.DeliveredStoreRows` | DicomReciever.cs:109-117 | a delivered object's upserted row is marked "Completed" with no further increment, whichever deletes throw |
| `DicomReceiver.UndeletableCompressedFileStays` | DicomReciever.cs:109-133 | a delivered object whose compressed file cannot be deleted gets Success; the compressed file stays and the other two are gone |
| `DicomReceiver.CleanUpAfterFailure` | DicomReciever.cs:128-133 | disk, table and response are those of `FailureCleanup`: deletes the raw and converted files, then updates the converted path to "Failed"; a delete that throws leaves the handler |
| `DicomReceiver.CleanUpAfterFailedUpload` | DicomReciever.cs:119-125 | disk, table and response are those of `AfterFailedUpload`: the catch block's steps, with a throwing delete running the catch block |
| `DicomReceiver.CleanUpAfterDelivery` | DicomReciever.cs:109-117 | disk, table and response are those of `AfterDelivery`: marks the compressed path "Completed", then deletes all three files, a throwing delete running the catch block |
| `DicomReceiver.ProcessReceivedFile` | DicomReciever.cs:95-136 | disk, table and response after the try/catch block are those of `Processed` |
| `DicomReceiver.OnCStoreRequest` | DicomReciever.cs:80-137 | disk, table and response are those of `Stored`; the table invariant is kept |
| `DicomReceiver.DeliveredStoreCleansUp` | DicomReciever.cs:109-117 | a delivered object whose files can be deleted gets Success, leaves none of its three files, and its upserted row is marked "Completed" with no further increment |
| `DicomReceiver.UndeliveredStoreStaysInProgress` | DicomReciever.cs:119-133 | a saved but undelivered object's row stays as the upsert left it ("In Progress"), whatever the deletes do; when the raw and converted files can be deleted, the answer is Success, both are gone, the compressed one stays if written, other files untouched |
| `DicomReceiver.UndeliveredStoreRows` | DicomReciever.cs:119-133 | the rows after an undelivered object are those of the upsert |
| `DicomReceiver.UndeliveredStoreFiles` | DicomReciever.cs:119-133 | with deletable raw and converted files, the files after an undelivered object are those `LeftBehind` describes |
| `DicomReceiver.NothingCompressedLeftBehind` | DicomReciever.cs:128-133 | when normalisation or compression throws, only the raw and converted paths are removed |
| `DicomReceiver.CompressedFileLeftBehind` | DicomReciever.cs:119-126 | when only the upload fails, the compressed artifact stays on disk and the other two files are gone |
| `DicomReceiver.WritesThenDeletes` | DicomReciever.cs:121-122 | writing three distinct paths and deleting the first two leaves the third |
| `DicomReceiver.StorePreservesInvariants` | DicomReciever.cs:80-137 | one C-STORE keeps the table invariant and compressed file paths, and never makes a "Failed" row |
| `DatabaseHelper.Purged` | DatabaseHelper.cs:39-41 | exactly the rows received within the last day stay, each as often as before, and only rows that were there |
| `DatabaseHelper.PurgeKeepsOrder` | DatabaseHelper.cs:39-41 | the rows that stay keep their table order |
| `DatabaseHelper.PurgePreservesInvariant` | DatabaseHelper.cs:39-41 | the purge keeps the table invariant |
| `DatabaseHelper.PurgeKeepsDistinctPatients` | DatabaseHelper.cs:39-41 | the purge keeps one row per patient |
| `DatabaseHelper.PurgeKeepsDistinctStudies` | DatabaseHelper.cs:39-41 | the purge keeps study UIDs unique |
| `DatabaseHelper.PurgePreservesNoFailed` | DatabaseHelper.cs:39-41 | the purge adds no "Failed" row |
| `DatabaseHelper.InsertIntoMetadata` | DatabaseHelper.cs:92 | an INSERT is refused exactly when the study UID is already present; otherwise the row is appended |
| `DatabaseHelper.Database.constructor` | DatabaseHelper.cs:13-23 | a new database file has no tables and no rows |
| `DatabaseHelper.Database.InitializeDatabase` | DatabaseHelper.cs:60-111 | both tables exist afterwards and every existing row is kept |
| `DatabaseHelper.Database.DeleteOldRecords` | DatabaseHelper.cs:30-58 | the table is purged; any error leaves it as it was |
| `DatabaseHelper.InitializeTwice` | DatabaseHelper.cs:68-86 | CREATE TABLE IF NOT EXISTS run twice leaves every row as it was |
| `Files.Disk.Save` | DicomReciever.cs:91 | the path holds the file, or the write fails and nothing changes |
| `Files.Disk.Copy` | DicomReciever.cs:431 | the destination holds the source's contents; a missing source or unwritable destination fails and changes nothing |
| `Files.Deleted` | DicomReciever.cs:114-116 | a delete fails exactly when the file exists and cannot be removed; otherwise the path is gone (a missing file is no error) and every other file is unchanged |
| `Files.Disk.Delete` | DicomReciever.cs:114-116 | the disk and the outcome are those of `Deleted`: a failed delete changes nothing |
| `Relay.FileName` | DicomReciever.cs:156 | the name is the suffix of the path after its last separator and contains no separator |
| `ViewReports.InsertByReceived` | ViewReportsWindow.xaml.cs:43 | inserting a row adds exactly that row |
| `ViewReports.InsertKeepsSorted` | ViewReportsWindow.xaml.cs:43 | inserting into a newest-first list keeps it newest first |
| `ViewReports.OrderByReceivedDesc` | ViewReportsWindow.xaml.cs:43 | the result is newest first and a permutation of the rows |
| `ViewReports.LoadedReports` | ViewReportsWindow.xaml.cs:48-69 | one report per row |
| `ViewReports.EveryRowIsReported` | ViewReportsWindow.xaml.cs:48-69 | every row appears among the reports with its position as serial number |
| `ViewReports.EveryReportIsARow` | ViewReportsWindow.xaml.cs:48-69 | every report is the report of some row |
| `ViewReports.ReadReports` | ViewReportsWindow.xaml.cs:48-69 | the reader loop builds the loaded reports, numbered 1..n, newest first |
| `ViewReports.Skip` | ViewReportsWindow.xaml.cs:83 | Enumerable.Skip: a non-positive count skips nothing, a count past the end leaves nothing |
| `ViewReports.Take` | ViewReportsWindow.xaml.cs:83 | Enumerable.Take: a prefix of at most n items, all of them when n reaches the length |
| `ViewReports.PageWindow` | ViewReportsWindow.xaml.cs:82-83 | page p holds the reports at positions (p - 1) * 20 onwards, at most 20 |
| `ViewReports.PageCount` | ViewReportsWindow.xaml.cs:88 | the ceiling of count / 20: enough pages for every report and no empty last page |
| `ViewReports.ReportOnItsPage` | ViewReportsWindow.xaml.cs:80-88 | report k is on page k / 20 + 1, within the page count, at position k mod 20 |
| `ViewReports.PagesWithinCountAreNonEmpty` | ViewReportsWindow.xaml.cs:100-107 | every page up to the page count holds at least one report |
| `ViewReports.CountingUpdateAgainstReceiverUpdate` | ViewReportsWindow.xaml.cs:334-352 | the window's update equals the receiver's, except that "Completed" also adds one image |
| `ViewReports.CountingUpdatePreservesInvariant` | ViewReportsWindow.xaml.cs:341-343 | the window's update keeps the table invariant |
| `ViewReports.SendDicomFileToOrthanc` | ViewReportsWindow.xaml.cs:274-321 | nothing is posted without a readable auth row with both ids or without the file; otherwise it is posted with those ids, and the result is true exactly on a 2xx response |
| `ViewReports.RetryStatuses` | ViewReportsWindow.xaml.cs:255-268 | a retry writes "In Progress", then "Completed" or "Failed" |
| `ViewReports.RetryNetEffect` | ViewReportsWindow.xaml.cs:255-268 | after a retry the file's rows are "Completed" with one more image, or "Failed" with the same count; other rows are untouched |
| `ViewReports.ReportsWindow.constructor` | ViewReportsWindow.xaml.cs:26-33 | the grid shows the table as it was before the purge, or stays unbound when the query fails; then rows older than a day are purged; page 1, no server, empty report list |
| `ViewReports.ReportsWindow.LoadData` | ViewReportsWindow.xaml.cs:35-77 | the grid is bound to every row, newest first, numbered from 1; a connection that cannot be opened or a missing table changes nothing |
| `ViewReports.ReportsWindow.WindowLoaded` | ViewReportsWindow.xaml.cs:109-113 | the grid is bound to the paged collection, which holds the current page |
| `ViewReports.ReportsWindow.LoadPagedReports` | ViewReportsWindow.xaml.cs:80-89 | the paged collection holds the current page and the page text is "page of page count" |
| `ViewReports.ReportsWindow.PreviousPage` | ViewReportsWindow.xaml.cs:91-98 | goes back one page unless on the first; the page stays within range |
| `ViewReports.ReportsWindow.NextPage` | ViewReportsWindow.xaml.cs:100-107 | goes forward one page while below the page count, onto a non-empty page; otherwise nothing changes |
| `ViewReports.ReportsWindow.StartDicomServer` | ViewReportsWindow.xaml.cs:188-230 | starts a server on auth row 1's port unless one runs; a connection that cannot be opened or a missing auth table gives the "Database error" notice, a missing row "port not found", a NULL port or failing bind the general error notice, and each leaves the server and label as they were |
| `ViewReports.ReportsWindow.StopDicomServer` | ViewReportsWindow.xaml.cs:232-252 | disposes and forgets a running server; reports "not running" otherwise |
| `ViewReports.ReportsWindow.ServerToggle` | ViewReportsWindow.xaml.cs:171-185 | the label follows the branch taken, not the outcome; a server runs after a start exactly when it says it is listening |
| `ViewReports.ReportsWindow.UpdateStatusInDatabase` | ViewReportsWindow.xaml.cs:334-352 | the table becomes the counting status update of the old table |
| `ViewReports.ReportsWindow.RetryFile` | ViewReportsWindow.xaml.cs:255-270 | writes "In Progress", uploads, then "Completed" and deletes the file, or "Failed" and keeps it; reloads the grid; a delete that throws leaves the file and skips the reload |
| `RetryVisibility.Convert` | RetryVisibilityConverter.cs:10-13 | Visible exactly for the status "Failed"; Collapsed for null and every other value |
| `RetryVisibility.ConvertBack` | RetryVisibilityConverter.cs:15-18 | always fails with NotImplemented |
| `Delivery.PurgeKeepsCompressedPaths` | DatabaseHelper.cs:39-41 | the purge keeps every file path a compressed path |
| `Delivery.RunPreservesInvariants` | DicomReciever.cs:80-137 | any run of C-STOREs and purges keeps the table invariant, compressed paths and no "Failed" rows |
| `Delivery.RetryNeverOffered` | RetryVisibilityConverter.cs:12 | from an empty table, no report shown after any run has a visible retry button |
| `Delivery.FirstDeliveredImage` | DicomReciever.cs:284-316 | a first delivered image makes one "Completed" row with count 1 |
| `Delivery.FurtherDeliveredImage` | DicomReciever.cs:243-283 | a further delivered image of the same patient overwrites the row with one more image, whichever deletes throw |
| `Delivery.TwoDeliveredImagesOfOnePatient` | DicomReciever.cs:91-117 | two delivered images of one patient whose files can be deleted: one "Completed" row, count 2, the second image's path and data, the first study UID, no file left |

## Left out

- Network transport, PDU encoding and the fo-dicom service loop are not modelled. The association request arrives as a list of presentation contexts.
- OnReceiveAssociationReleaseRequestAsync, OnReceiveAbort, OnConnectionClosed and OnCStoreRequestExceptionAsync are not modelled: they only log, reply or show a message box.
- Logging and CleanupOldLogs are not modelled: they write only to the log folder. This includes the file sizes computed in floating point.
- Message boxes, the dispatcher and the static UpdateDataGrid callback the receiver invokes are not modelled, apart from the notices the server toggle returns. Button colours are not modelled either.
- The handler's exception after a throwing delete in its catch block is modelled as the response `Threw`. What fo-dicom then sends to the peer (OnCStoreRequestExceptionAsync) is not modelled.
- RetryFile's exception after a throwing delete escapes an async void method. Its effect on the application is not modelled: the method stops with the file kept and the grid not reloaded.
- Write and delete failures are persistent for one request: `canWrite` and `canDelete` answer once per path. A File.Delete that throws in the try block and succeeds when the catch block retries it, which gives Success in the source, is not modelled. The third clause of `StoreResponses` relies on this.
- Concurrency is not modelled: async handlers and simultaneous C-STOREs run one at a time, each to completion.
- DateTime.Now, CURRENT_TIMESTAMP and datetime('now') are not modelled as clocks: the time is a parameter, in seconds.
- The contents of DICOM files, the codecs, DicomFile.Open, the HTTP client and SQLite are not modelled: they are oracles or abstract values.
- The AUTOINCREMENT id column is not modelled; table order is insertion order.
- Multi-valued data elements are not modelled: the model keeps one value or none per element.
- The ORDER BY tie order is not modelled: SQLite leaves it unspecified, and the model puts earlier-inserted rows first among equal timestamps.
- Logout, Port_Config and RetryButton_Click are not modelled: RetryButton_Click only passes the row's path to RetryFile.
- MainWindow, ConfigWindow and App are not modelled: they are configuration and login screens.
- DicomReceiver.OnCStoreRequest: requires both tables to exist and assumes the database can be opened. A database error in the status updates (which are not inside the upsert's catch) is not modelled. The upsert's refused INSERT is modelled.
- DicomReceiver.GetAuthDetails: identifiers are unbounded integers. An id outside the 32-bit range, on which GetInt32 throws, is not modelled.
- ViewReports.SendDicomFileToOrthanc: identifiers are unbounded integers, as in GetAuthDetails.
- ViewReports.ReportsWindow.RetryFile: requires the metadata table to exist, since the window's UpdateStatusInDatabase has no catch. A failing update there is not modelled.
- ViewReports.ReportsWindow.LoadData: SQLite column affinity is not modelled. The age column is INTEGER, so a numeric age may be stored as an integer, and GetString on it would throw into the catch.
- ViewReports.ReportsWindow.StartDicomServer: `port` is an unbounded integer; Convert.ToInt32 overflow is not modelled.
- DatabaseHelper.Database.DeleteOldRecords: whether the database can be opened is a parameter; the SQLite error itself is not modelled.
