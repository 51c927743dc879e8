# PDF test upload service: a verified model

The service accepts PDF medical test reports ("tests" in `app/`, "exames" in
`src/app/`). For every uploaded file it checks the name's MIME type, checks
for a test with the same name and owner (only the `app/` variant does this),
and checks the size ceiling. It then writes the bytes to an S3 bucket under
`"{user_id}/{filename}"`, asks S3 for a presigned URL and commits a metadata
row: owner, name, URL and submission time. A batch answers 200, 400 or 500,
with one message per file when any file fails, and a fixed success message
otherwise. Deleting a test looks up its row, checks that the
object exists, deletes the object and then the row. Listing a user fetches
that user's rows. A separate script pulls the haemoglobin value out of the
text of a blood-count report with one regular expression.

The model has these modules:

- `Utils`: the size ceiling and the PDF check from `app/utils.py`.
- `ObjectKeys`: the key scheme, with Python's `str(int)` written out. The
  key is proved injective. With the batch lemmas this gives that a batch for
  one user never touches another user's object, or the object under any name
  that is not among the batch's file names
  (`UploadSpec.BatchLeavesOtherObjectsAlone`).
- `Stores`: the two stores as classes.
  - `MetadataTable` holds the rows and the auto-increment counter.
  - `ObjectStore` holds the bucket's key-to-bytes map.
  - Pure queries over the rows implement `filter_by(...).first()` and `.all()`.
- `UploadSpec`: the per-file loop body and the batch fold they share, as
  pure functions. A flag says whether the duplicate-name query is made. The
  batch properties are proved as lemmas about these functions.
- `FileRouter`: the `app/routers/file.py` routes.
- `LegacyFileRouter`: the `src/app/routers/file.py` routes.
  - Each route is an imperative method over the two store objects.
  - Each method is proved equal to its spec function: `RunBatch` for upload,
    `DeleteSpec` for delete.
- `PdfProcess`: `extract_hemoglobin_value`.
  - `SearchFrom`, `MatchAt` and `TryValue` model the matcher's leftmost
    search and its backtracking.
  - The model is proved equal to `HemoglobinReference`, a direct description
    without backtracking: the first label, then the run from the first digit,
    else the last `,` or `.`.

Storage failures are inputs rather than outcomes the model decides. Per file,
they are the `put_object` error, the `generate_presigned_url` result and the
commit time. Per delete, they are the `head_object` and `delete_object`
errors. A missing key makes `head_object` fail with code `"404"`.
`mimetypes.guess_type` is a function parameter.

Presigned-URL generation is not expected to fail. When it does, the code
catches the `ClientError` like any other. The object then stays written, no
row is added and the status becomes 500, and the model does the same.
Deleting a missing record answers 404 in `app` (app/routers/file.py:97-99).
The `src/app` variant raises instead (see Findings).

## Model

| member | source | states |
|---|---|---|
| `Utils.IsPdf` | app/utils.py:18-20 | Defines `is_pdf`: true exactly when the guessed type of the name is `application/pdf`. A name with no guess is not a PDF. |
| `Utils.FileSizeWithinBounds` | app/utils.py:22-24 | Defines `file_size_within_bounds`: true exactly when the contents are at most `MAX_FILE_SIZE` bytes long. |
| `Utils.MaxFileSizeIs200MiB` | app/utils.py:6-8 | The ceiling is 200 · 1024 · 1024 = 209715200 bytes. |
| `Utils.SizeCeilingIsInclusive` | app/utils.py:22-24 | Exactly 200 MiB passes and one byte more fails. The check holds iff the length is at most 209715200. |
| `Utils.SizeCheckMonotone` | app/utils.py:22-24 | If some contents pass the size check, every shorter contents pass too. |
| `Utils.TextFileRejected` | app/utils.py:18-20 | A name whose guessed type is `text/plain` is not a PDF. The check reads only the guesser's answer for the name, never the bytes. |
| `ObjectKeys.ObjectKey` | app/routers/file.py:53 | Defines the key `f"{user_id}/{filename}"`: the decimal numeral of the user id, a `/`, then the name. Delete builds it the same way (line 104). |
| `ObjectKeys.NatToDecimal` | app/routers/file.py:53 | The numeral is non-empty and all digits. It is a single digit exactly for numbers below 10. |
| `ObjectKeys.NatToDecimalInjective` | app/routers/file.py:53 | Different user ids render as different numerals. |
| `ObjectKeys.IntToDecimal` | app/routers/file.py:53 | `str(user_id)` contains no `/` and starts with `-` exactly for negative ids. |
| `ObjectKeys.ObjectKeyInjective` | app/routers/file.py:53 | Distinct (user, name) pairs never share a key `"{user_id}/{filename}"`. |
| `Stores.FirstNamed` | app/routers/file.py:37-38 | The first row of that owner and name, if any. `None` means no row of that owner has that name. |
| `Stores.FindId` | app/routers/file.py:97-98 | The row of that owner with that id, if any. `None` means no row of that owner has that id. |
| `Stores.OwnedBy` | app/routers/file.py:133 | A row is listed iff it is in the table and belongs to the owner. |
| `Stores.Without` | app/routers/file.py:117-118 | Exactly the rows whose id differs remain. |
| `Stores.WithoutPresentId` | app/routers/file.py:117-118 | In a valid table, deleting a row by its id removes exactly that row and keeps the others in order. |
| `Stores.WithoutKeepsValid` | app/routers/file.py:117-118 | Deleting a row keeps the ids strictly increasing and below the counter. |
| `Stores.WithoutKeepsUniqueNames` | app/routers/file.py:117-118 | Deleting a row keeps each owner's display names distinct. |
| `Stores.MetadataTable.Insert` | app/routers/file.py:67-75 | The new row gets the next id and is appended; the counter grows by one. A valid table stays valid. |
| `Stores.MetadataTable.Delete` | app/routers/file.py:117-118 | The table loses the row with that id and nothing else. A valid table stays valid, and distinct names stay distinct. |
| `Stores.ObjectStore.PutObject` | app/routers/file.py:55-59 | On success the key maps to the body; on a client error nothing changes and the error is returned. |
| `Stores.HeadError` | app/routers/file.py:107-122 | The error `head_object` raises: the injected client error if there is one, else code `"404"` when the key is missing, else none. |
| `Stores.ObjectStore.HeadObject` | app/routers/file.py:107-110 | Succeeds iff no error is injected and the key exists. An injected error is reported as is; otherwise a missing key reports code `"404"`. |
| `Stores.ObjectStore.DeleteObject` | app/routers/file.py:112-115 | On success the key is gone; on a client error nothing changes. |
| `UploadSpec.Escalate` | app/routers/file.py:31-87 | The status after one more file: a storage error sets 500, a rejected file sets 400 unless the status is already 500, and a stored file keeps the status. |
| `UploadSpec.UploadStep` | app/routers/file.py:31-87 | One pass of the loop body: the PDF check, the duplicate query when its flag is on, the size check, `put_object` at the user's key, the presigned URL, then the row (next id, user, name, URL, time). The first check that fails gives the message and leaves the stores as they were. A failed put writes nothing. A failed presign keeps the written object and adds no row. |
| `UploadSpec.RunBatch` | app/routers/file.py:29-88 | The `for` loop as a left fold of `UploadStep` from status 200. Each file runs against the stores the earlier files left. It collects the messages and committed records in order and escalates the status per file. |
| `UploadSpec.RejectedFileTouchesNoStore` | app/routers/file.py:31-51 | A non-PDF, duplicate-name or oversize file leaves both stores unchanged and adds no record. The checks run in source order: a non-PDF is `NotPdf`, a PDF whose name its owner already uses is `DuplicateName` when the query is on, and an oversize file that passes both is `TooLarge`. |
| `UploadSpec.UploadedFileAddsOneRecord` | app/routers/file.py:53-84 | A file is stored iff every check and both storage calls pass. It then adds exactly the row (next id, user, name, URL, time) and writes its bytes under its key. |
| `UploadSpec.StorageErrorAddsNoRecord` | app/routers/file.py:55-75 | A client error adds no row. A failed put writes nothing. A failed presign leaves the object written. |
| `UploadSpec.OneMessagePerFile` | app/routers/file.py:30-87 | Each file appends exactly one message about itself, in input order, whatever its outcome. |
| `UploadSpec.MessageIsStepOutcome` | app/routers/file.py:30-87 | Message i is the outcome of file i against the stores the earlier files left. |
| `UploadSpec.StatusAggregation` | app/routers/file.py:29-92 | The status is 200 iff every file was stored and 500 iff any file met a storage error, wherever it stood. Otherwise it is 400. This holds for both variants. |
| `UploadSpec.StatusNeverLowered` | app/routers/file.py:33-34 | The status of a batch is at least as severe as that of any prefix, so a 500 is never lowered. |
| `UploadSpec.RowsGrowByFileInfo` | app/routers/file.py:73-84 | The table grows by exactly the `file_info` records, in input order. Their names are those of the stored files, their ids are consecutive from the counter, and the uploader owns them. |
| `UploadSpec.StepWritesOwnKeyOnly` | app/routers/file.py:53-65 | One file changes at most the object under its own key, only when its write succeeds, and removes nothing. |
| `UploadSpec.ObjectsWrittenOnlyForPassingFiles` | app/routers/file.py:31-65 | An object changes only under the key of a batch file whose checks and write succeeded. No object is removed. |
| `UploadSpec.BatchLeavesOtherObjectsAlone` | app/routers/file.py:53-59 | A batch for one user leaves the object under `ObjectKey(u, name)` as it was, present with the same bytes or absent, when `u` is another user or `name` is not among the batch's file names. |
| `UploadSpec.DuplicateCheckKeepsNamesUnique` | app/routers/file.py:37-42 | With the duplicate query, a batch keeps every owner's names unique. |
| `UploadSpec.BatchKeepsTableValid` | app/routers/file.py:67-75 | Ids remain strictly increasing and below the counter after any batch. |
| `FileRouter.ResponseOf` | app/routers/file.py:89-92 | The upload response: status 200 carries the fixed "File(s) uploaded successfully!" message; any other status carries the per-file messages. Both carry the committed records as `data`. |
| `FileRouter.UploadOneFile` | app/routers/file.py:31-87 | The loop body for one file changes the stores as the file's spec step does and returns that step's message and record. |
| `FileRouter.UploadPdfFiles` | app/routers/file.py:25-92 | The loop leaves the stores, `messages`, `file_info` and the status as the batch fold computes with the duplicate query on. The response carries them. |
| `FileRouter.SameNameTwiceInOneBatch` | app/routers/file.py:37-42 | The same new name twice in one request stores the first file and refuses the second as a duplicate. The status is 400, the one added row is the first file's, and it is the only row of that owner with that name. |
| `FileRouter.MixedBatchScenario` | app/routers/file.py:30-92 | "a.pdf" is stored and "b.txt" rejected, giving status 400 and one record in `data`. |
| `FileRouter.DeleteOutcome.Status` | app/routers/file.py:97-125 | The delete status: 200 for a deletion, 404 for a missing row, and for a client error 404 when its code is `"404"` and 500 otherwise. |
| `FileRouter.DeleteSpec` | app/routers/file.py:94-125 | `delete_file` as a function: no row of that user with that id stops with 404. Otherwise the `head_object` error or the `delete_object` error stops with both stores unchanged. If neither fails, the object's key and the row are removed. |
| `FileRouter.DeleteKeepsTableInvariants` | app/routers/file.py:94-125 | Whatever the outcome, a delete keeps a valid table valid and distinct names distinct, so the delete lemmas apply again to the state it leaves. |
| `FileRouter.DeleteFile` | app/routers/file.py:94-125 | The route's outcome and new stores are exactly `DeleteSpec`'s. |
| `FileRouter.DeleteUnknownRecordIs404` | app/routers/file.py:97-99 | No row for (user, id) gives 404, and neither store changes. |
| `FileRouter.DeleteSuccessRemovesExactlyOne` | app/routers/file.py:103-120 | A delete of an existing row succeeds iff the object exists and both calls pass. It then removes that row (the table minus position k), the object's key and nothing else. |
| `FileRouter.DeleteErrorKeepsRecord` | app/routers/file.py:121-125 | A client error keeps the row and every object. Code "404" gives 404 and any other code 500. A missing object is the 404 case. |
| `FileRouter.UploadThenDeleteRoundTrip` | app/routers/file.py:53-120 | Deleting the row an upload just committed restores the table and removes the written object. |
| `FileRouter.ToTestData` | app/routers/file.py:136-139 | A listing entry copies the record's id, owner, name, URL and submission time. |
| `FileRouter.ListUserTests` | app/routers/file.py:127-141 | An unknown user gets 404. Otherwise the answer is 200 with one entry per record of that user, in table order, possibly none. |
| `FileRouter.UploadedRecordsAreListed` | app/routers/file.py:78-84 | Every record a batch commits appears in `OwnedBy(rows, owner)`, which is what the listing returns when the owner is a known user. For an owner missing from the users table the listing still answers 404. |
| `LegacyFileRouter.ExamRefs` | src/app/routers/file.py:116-120 | One `{idExam, name}` entry per committed record, in order. |
| `LegacyFileRouter.ResponseOf` | src/app/routers/file.py:125-128 | Status 200 carries the fixed success message; any other status carries the per-file messages. Both carry `{idExam, name}` for each committed record. |
| `LegacyFileRouter.UploadOneFile` | src/app/routers/file.py:76-123 | The loop body changes the stores as the spec step without the duplicate query does. |
| `LegacyFileRouter.UploadPdfFiles` | src/app/routers/file.py:70-128 | The loop leaves the stores, messages and status as the batch fold computes without the duplicate check. `data` lists `{idExam, name}` for each committed record. |
| `LegacyFileRouter.SameNameTwiceMakesTwoRecords` | src/app/routers/file.py:75-113 | The same name twice gives two rows with consecutive ids and one shared key, and that key holds the second file's bytes. |
| `LegacyFileRouter.DeleteOutcome.Status` | src/app/routers/file.py:133-159 | 200 for a deletion, 500 for the crash on a missing row, 404 for an empty name, and for a client error 404 when its code is `"404"` and 500 otherwise. |
| `LegacyFileRouter.DeleteSpec` | src/app/routers/file.py:130-159 | The legacy delete: a missing row crashes (500), an empty name gives 404, then the `head_object` or `delete_object` error stops with both stores unchanged. If neither fails, the object's key and the row are removed. |
| `LegacyFileRouter.DeleteKeepsTableInvariants` | src/app/routers/file.py:130-159 | Whatever the outcome, a legacy delete keeps a valid table valid and distinct names distinct. |
| `LegacyFileRouter.DeleteFile` | src/app/routers/file.py:130-159 | The route's outcome and new stores are exactly the legacy `DeleteSpec`'s. |
| `LegacyFileRouter.MissingRecordCrashes` | src/app/routers/file.py:133-135 | No row for (user, id) crashes before the 404 guard: 500, and neither store changes. |
| `LegacyFileRouter.GuardFiresOnlyForEmptyName` | src/app/routers/file.py:133-135 | The "File not found" 404 fires iff the row exists and its name is empty. |
| `LegacyFileRouter.DeleteOutcomes` | src/app/routers/file.py:136-159 | A success removes the row and the object under its key. A client error keeps both stores, with 404 for code "404" and 500 otherwise. |
| `LegacyFileRouter.DuplicateDeleteLeavesDanglingRecord` | src/app/routers/file.py:91-152 | After two same-name uploads, deleting the first row removes the shared object. Deleting the second then answers 404 from `head_object` and leaves its row in place. |
| `LegacyFileRouter.ListUserExames` | src/app/routers/file.py:161-170 | 200 iff the user exists and owns a record, returning exactly that user's records. Otherwise 404 with nothing. |
| `PdfProcess.NonDigitRun` | src/data_processing/pdf_process.py:22 | Greedy `[^0-9]*` stops at the first ASCII digit or the end of the text. |
| `PdfProcess.ValueRun` | src/data_processing/pdf_process.py:22 | Greedy `[\d,.]` run: every char taken is in the class, and the next one is not. |
| `PdfProcess.TryValue` | src/data_processing/pdf_process.py:22 | The backtracking of `[^0-9]*`: the group is the greedy `[\d,.]+` run at the first end position, counted down from the greedy one, where the run is non-empty. A group found lies inside the text and holds only digits, `,` and `.`. |
| `PdfProcess.MatchAt` | src/data_processing/pdf_process.py:22-25 | The pattern anchored at one position: a match needs the label there and then a group from `TryValue`. A match starts at that position, and its group lies after the label and holds only digits, `,` and `.`. |
| `PdfProcess.SearchFrom` | src/data_processing/pdf_process.py:22-25 | A match found lies at a label occurrence at or after the start. Its group follows the label, is non-empty and holds only digits, `,` and `.`. |
| `PdfProcess.ExtractHemoglobinValue` | src/data_processing/pdf_process.py:20-31 | A value returned is non-empty and made of digits, `,` and `.` only. |
| `PdfProcess.ExtractMatchesReference` | src/data_processing/pdf_process.py:20-31 | For every text, the backtracking search gives the same result as the direct reference description. |
| `PdfProcess.NoLabelNoValue` | src/data_processing/pdf_process.py:22-31 | Without the case-sensitive literal `Hemoglobina` the result is `None`. |
| `PdfProcess.ValueFollowsLabel` | src/data_processing/pdf_process.py:22-25 | A returned value occurs in the text after an occurrence of the label. |
| `PdfProcess.FirstDigitRunAfterFirstLabel` | src/data_processing/pdf_process.py:22-29 | With a digit after the first label, the value is the maximal `[0-9,.]` run starting at the first such digit. |
| `PdfProcess.TypicalReportLine` | src/data_processing/pdf_process.py:22-29 | `"Hemoglobina: 13,5 g/dL"` gives `"13,5"`. |
| `PdfProcess.NoValueCharNoValue` | src/data_processing/pdf_process.py:22-31 | `None` when no digit, `,` or `.` follows any occurrence of the label. |
| `PdfProcess.LoneSeparatorExtracted` | src/data_processing/pdf_process.py:22 | As written, `"Hemoglobina: n.d."` yields `"."`. |
| `PdfProcess.ExtractHemoglobinNumber` | src/data_processing/pdf_process.py:20-31 | The corrected extractor returns a value iff a digit follows the first label. The value starts with a digit. |
| `PdfProcess.NumberAgreesExceptLoneSeparator` | src/data_processing/pdf_process.py:20-31 | The corrected and original extractors agree whenever the corrected one returns a value. Otherwise the original returns at most a single `,` or `.`. |
| `PdfProcess.NumberRejectsLoneSeparator` | src/data_processing/pdf_process.py:22 | The corrected extractor returns nothing for `"Hemoglobina: n.d."`. |

## Left out

- `mimetypes.guess_type` is not modelled. Its extension table is a parameter of every upload, so `is_pdf` is exactly "the guessed type is `application/pdf`".
- SQLAlchemy failures are not modelled: `db.commit` and `db.query` always succeed.
  - The orphaned object a failed commit would leave is not modelled.
  - The foreign key from a file's user id to the users table (app/models.py:21, `id_usuario` in src/app/models.py:23) is not modelled. An upload by a user missing from the users table commits its row in the model. A database that enforces the key fails that commit with a 500 and leaves the object already written behind.
- boto3 errors that are not a `ClientError` (the `BotoCoreError` family: connection errors, read timeouts, missing credentials) are not modelled. The storage replies can only carry a `ClientError` code. In the source such an error passes `except ClientError` in upload (app/routers/file.py:85, src/app/routers/file.py:121) and in delete (app/routers/file.py:121, src/app/routers/file.py:155). It aborts the whole request with a 500 and no per-file messages, and files earlier in the batch stay committed.
- The order of rows is assumed to be insertion order. The queries have no `order_by`, so the database fixes no order and the source does not guarantee this one. `.first()` and `.all()` are modelled as scans in insertion order.
- FastAPI, `async`/`await`, JSON and pydantic serialisation are not modelled. Message strings become an `Outcome` per file, and `HTTPException`s become outcomes with a `Status()`.
  - `submission_date.isoformat()` is not modelled; the timestamp is an opaque integer.
- `datetime.utcnow()` and the presigned URL are not computed. They are per-file inputs, and the URL's expiry is not modelled.
- `uploaded_file.read()` is taken to succeed and return the file's bytes.
- S3 credentials, bucket names and environment variables are not modelled.
- Concurrency is not modelled: requests run one at a time. Neither the query-then-insert race on names nor a crash between the object delete and the row delete is modelled.
- `LegacyFileRouter.DeleteFile`: `file_id` is declared `str` in the route and compared with the integer id column. The model takes it as an integer and leaves that comparison to the database.
- `LegacyFileRouter.DeleteFile`: names are strings in the model. A row whose `nome_exame` is NULL, which the `not filename` guard would also catch, is not modelled.
- `PdfProcess.IsDecimal`: Python's `\d` on `str` also matches non-ASCII decimal digits (Arabic-Indic and others). The model takes `\d` to be `[0-9]`.
- `pdf_to_text` is not modelled: it reads PDF pages through PyMuPDF. The module-level script that opens `hemograma.pdf` and prints the value is left out too.
- CORS set-up, database wiring, `routes/file_management.py` and the Java `filemanager` are not part of this model.
- The user registration and profile paths are not modelled. Users are a set of ids in `MetadataTable.users`.

## Findings

| source | as written | input that shows it | evidently intended | confidence | as-written member | corrected member |
|---|---|---|---|---|---|---|
| src/data_processing/pdf_process.py:22 | When no digit follows the label, backtracking lets `[\d,.]+` match a lone `,` or `.` and returns it as the value | the text `"Hemoglobina: n.d."` gives `"."` | a value is a number: it starts with a digit, otherwise nothing is returned | medium, not executed | `PdfProcess.LoneSeparatorExtracted` | `PdfProcess.ExtractHemoglobinNumber` |
| src/app/routers/file.py:133-135 | `.first().nome_exame` is read before the guard, so a missing row raises and the request fails with 500 | a delete for a user with no row of that id | the guard answers 404 "File not found" and no store changes | high, not executed | `LegacyFileRouter.MissingRecordCrashes` | `FileRouter.DeleteUnknownRecordIs404` |
