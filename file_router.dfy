/** The routes of app/routers/file.py: batch upload with the duplicate-name
    check, delete by numeric id, and the listing of a user's tests. */
module FileRouter {
  import opened Wrappers
  import opened Utils
  import opened ObjectKeys
  import opened Stores
  import opened UploadSpec

  // ---------------------------------------------------------------------
  // Upload

  /** The body of the upload response: the fixed success message when the
      status is 200, otherwise the list of per-file messages. */
  datatype UploadBody = AllFilesUploaded | Report(messages: seq<Message>)

  /** Status, body and `data` (the `file_info` list; each entry carries the
      fields of one committed record). */
  datatype UploadResponse = UploadResponse(status: int, body: UploadBody, data: seq<Record>)

  function ResponseOf(b: BatchResult): UploadResponse
  {
    if b.status == 200 then UploadResponse(200, AllFilesUploaded, b.added)
    else UploadResponse(b.status, Report(b.messages), b.added)
  }

  /** The body of the loop for one file: the type check, the query for a
      row of the same user and name, the size check, `put_object`, the
      presigned URL and the commit of the new row. */
  method UploadOneFile(db: MetadataTable, s3: ObjectStore, guessType: MimeGuesser, userId: int,
                       f: UploadFile, r: StorageReplies) returns (message: Message, test: Option<Record>)
    modifies db, s3
    ensures var step := UploadStep(StoreState(old(db.rows), old(db.nextId), old(s3.objects)), guessType, userId, f, r, true);
      && db.rows == step.stores.rows && db.nextId == step.stores.nextId && s3.objects == step.stores.objects
      && message == step.message && test == step.added
      && db.users == old(db.users)
  {
    if !IsPdf(guessType, f.filename) {
      return Message(f.filename, NotPdf), None;
    }
    var existing := FirstNamed(db.rows, userId, f.filename);
    if existing.Some? {
      return Message(f.filename, DuplicateName), None;
    }
    if !FileSizeWithinBounds(f.contents) {
      return Message(f.filename, TooLarge), None;
    }
    var key := ObjectKey(userId, f.filename);
    var putError := s3.PutObject(key, f.contents, r.put);
    if putError.Some? {
      return Message(f.filename, PutFailed(putError.value)), None;
    }
    // generate_presigned_url answers with the supplied reply
    match r.presign
    case Failure(code) =>
      return Message(f.filename, PresignFailed(code)), None;
    case Success(url) =>
      var rec := db.Insert(userId, f.filename, url, r.now);
      return Message(f.filename, Uploaded), Some(rec);
  }

  /** `upload_pdf_files`: the loop over the files, updating both stores,
      `messages`, `file_info` and `real_status_code`. */
  method UploadPdfFiles(db: MetadataTable, s3: ObjectStore, guessType: MimeGuesser, userId: int,
                        files: seq<UploadFile>, replies: seq<StorageReplies>) returns (resp: UploadResponse)
    requires |files| == |replies|
    modifies db, s3
    ensures var b := RunBatch(StoreState(old(db.rows), old(db.nextId), old(s3.objects)), guessType, userId, files, replies, true);
      && db.rows == b.stores.rows && db.nextId == b.stores.nextId && s3.objects == b.stores.objects
      && db.users == old(db.users)
      && resp == ResponseOf(b)
  {
    ghost var start := StoreState(db.rows, db.nextId, s3.objects);
    var fileInfo: seq<Record> := [];
    var messages: seq<Message> := [];
    var status := 200;
    for i := 0 to |files|
      invariant var b := RunBatch(start, guessType, userId, files[..i], replies[..i], true);
        && db.rows == b.stores.rows && db.nextId == b.stores.nextId && s3.objects == b.stores.objects
        && messages == b.messages && fileInfo == b.added && status == b.status
      invariant db.users == old(db.users)
    {
      BatchPrefixStep(start, guessType, userId, files, replies, true, i);
      var message, test := UploadOneFile(db, s3, guessType, userId, files[i], replies[i]);
      messages := messages + [message];
      if message.outcome.IsStorageError() {
        status := 500;
      } else if message.outcome.IsClientMistake() && status != 500 {
        status := 400;
      }
      if test.Some? {
        fileInfo := fileInfo + [test.value];
      }
    }
    assert files[..|files|] == files && replies[..|replies|] == replies;
    if status == 200 {
      resp := UploadResponse(200, AllFilesUploaded, fileInfo);
    } else {
      resp := UploadResponse(status, Report(messages), fileInfo);
    }
  }

  /** The same (user, name) twice in one request: the first file is stored,
      the second is refused as a duplicate because the check sees the row
      just committed, the status is 400 and exactly one row has that name. */
  lemma SameNameTwiceInOneBatch(s: StoreState, guessType: MimeGuesser, userId: int,
                                f1: UploadFile, f2: UploadFile, r1: StorageReplies, r2: StorageReplies)
    requires f1.filename == f2.filename
    requires IsPdf(guessType, f1.filename)
    requires FirstNamed(s.rows, userId, f1.filename).None?
    requires FileSizeWithinBounds(f1.contents)
    requires r1.put.None? && r1.presign.Success?
    ensures var b := RunBatch(s, guessType, userId, [f1, f2], [r1, r2], true);
      && |b.messages| == 2
      && b.messages[0].outcome == Uploaded && b.messages[1].outcome == DuplicateName
      && b.status == 400
      && b.added == [Record(s.nextId, userId, f1.filename, r1.presign.value, r1.now)]
      && b.stores.rows == s.rows + b.added
      && forall i :: (0 <= i < |b.stores.rows| && b.stores.rows[i].ownerId == userId &&
                      b.stores.rows[i].name == f1.filename) ==> i == |s.rows|
  {
    var rec := Record(s.nextId, userId, f1.filename, r1.presign.value, r1.now);
    UploadedFileAddsOneRecord(s, guessType, userId, f1, r1, true);
    BatchOfOne(s, guessType, userId, f1, r1, true);
    var b1 := RunBatch(s, guessType, userId, [f1], [r1], true);
    assert b1.messages == [Message(f1.filename, Uploaded)] && b1.added == [rec] && b1.status == 200;
    assert b1.stores.rows == s.rows + [rec];
    AppendedNameIsUnique(s.rows, rec);
    BatchOfTwo(s, guessType, userId, f1, f2, r1, r2, true);
    var step2 := UploadStep(b1.stores, guessType, userId, f2, r2, true);
    assert step2 == StepResult(b1.stores, Message(f2.filename, DuplicateName), None);
  }

  /** The worked batch: for user 1, "a.pdf" (17 bytes) is stored and
      "b.txt" (18 bytes) is refused as not a PDF; the status is 400 and
      `file_info` holds the one new record. */
  lemma MixedBatchScenario(s: StoreState, guessType: MimeGuesser, a: seq<byte>, t: seq<byte>,
                           ra: StorageReplies, rt: StorageReplies)
    requires |a| == 17 && |t| == 18
    requires guessType("a.pdf") == Some(PdfMimeType) && guessType("b.txt") == Some("text/plain")
    requires FirstNamed(s.rows, 1, "a.pdf").None?
    requires ra.put.None? && ra.presign.Success?
    ensures var b := RunBatch(s, guessType, 1, [UploadFile("a.pdf", a), UploadFile("b.txt", t)], [ra, rt], true);
      && b.messages == [Message("a.pdf", Uploaded), Message("b.txt", NotPdf)]
      && b.status == 400
      && b.added == [Record(s.nextId, 1, "a.pdf", ra.presign.value, ra.now)]
      && ResponseOf(b).body == Report(b.messages)
  {
    var fa, ft := UploadFile("a.pdf", a), UploadFile("b.txt", t);
    BatchOfOne(s, guessType, 1, fa, ra, true);
    BatchOfTwo(s, guessType, 1, fa, ft, ra, rt, true);
    TextFileRejected(guessType, "b.txt");
  }

  // ---------------------------------------------------------------------
  // Delete

  datatype DeleteOutcome =
    | Deleted(filename: string)
    | RecordNotFound                                // no row (user_id, file_id)
    | ObjectError(filename: string, code: ErrorCode) // head_object or delete_object raised
  {
    /** The HTTP status of the response or of the raised exception. */
    function Status(): int
    {
      match this
      case Deleted(_) => 200
      case RecordNotFound => 404
      case ObjectError(_, code) => if code == NotFoundCode then 404 else 500
    }
  }

  datatype DeleteResult = DeleteResult(stores: StoreState, outcome: DeleteOutcome)

  /** `delete_file`: look up the row, `head` the object, delete the object,
      then delete the row; any client error stops the sequence. */
  function DeleteSpec(s: StoreState, userId: int, fileId: int,
                      headFault: Option<ErrorCode>, deleteFault: Option<ErrorCode>): DeleteResult
  {
    match FindId(s.rows, userId, fileId)
    case None => DeleteResult(s, RecordNotFound)
    case Some(rec) =>
      var key := ObjectKey(userId, rec.name);
      var headError := HeadError(s.objects, key, headFault);
      if headError.Some? then DeleteResult(s, ObjectError(rec.name, headError.value))
      else if deleteFault.Some? then DeleteResult(s, ObjectError(rec.name, deleteFault.value))
      else DeleteResult(StoreState(Without(s.rows, rec.id), s.nextId, s.objects - {key}), Deleted(rec.name))
  }

  /** A delete keeps both table invariants, so the delete lemmas apply again
      to the state it leaves. */
  lemma DeleteKeepsTableInvariants(s: StoreState, userId: int, fileId: int,
                                   headFault: Option<ErrorCode>, deleteFault: Option<ErrorCode>)
    ensures var d := DeleteSpec(s, userId, fileId, headFault, deleteFault);
      TableValid(s.rows, s.nextId) ==> TableValid(d.stores.rows, d.stores.nextId)
    ensures UniqueNames(s.rows) ==> UniqueNames(DeleteSpec(s, userId, fileId, headFault, deleteFault).stores.rows)
  {
    var rec := FindId(s.rows, userId, fileId);
    if rec.Some? {
      if TableValid(s.rows, s.nextId) {
        WithoutKeepsValid(s.rows, s.nextId, rec.value.id);
      }
      if UniqueNames(s.rows) {
        WithoutKeepsUniqueNames(s.rows, rec.value.id);
      }
    }
  }

  method DeleteFile(db: MetadataTable, s3: ObjectStore, userId: int, fileId: int,
                    headFault: Option<ErrorCode>, deleteFault: Option<ErrorCode>) returns (outcome: DeleteOutcome)
    modifies db, s3
    ensures var d := DeleteSpec(StoreState(old(db.rows), old(db.nextId), old(s3.objects)), userId, fileId, headFault, deleteFault);
      && outcome == d.outcome
      && db.rows == d.stores.rows && db.nextId == d.stores.nextId && s3.objects == d.stores.objects
      && db.users == old(db.users)
  {
    var file := FindId(db.rows, userId, fileId);
    if file.None? {
      return RecordNotFound;
    }
    var filename := file.value.name;
    var key := ObjectKey(userId, filename);
    var headError := s3.HeadObject(key, headFault);
    if headError.Some? {
      return ObjectError(filename, headError.value);
    }
    var deleteError := s3.DeleteObject(key, deleteFault);
    if deleteError.Some? {
      return ObjectError(filename, deleteError.value);
    }
    db.Delete(file.value);
    return Deleted(filename);
  }

  /** No row for (user_id, file_id): 404 and neither store changes. */
  lemma DeleteUnknownRecordIs404(s: StoreState, userId: int, fileId: int,
                                 headFault: Option<ErrorCode>, deleteFault: Option<ErrorCode>)
    requires forall i :: 0 <= i < |s.rows| ==> !(s.rows[i].ownerId == userId && s.rows[i].id == fileId)
    ensures DeleteSpec(s, userId, fileId, headFault, deleteFault) == DeleteResult(s, RecordNotFound)
    ensures DeleteSpec(s, userId, fileId, headFault, deleteFault).outcome.Status() == 404
  {
  }

  /** A delete succeeds exactly when the row exists and both storage calls
      pass; it then removes that row (and only it, in a valid table) and the
      object under its key, and nothing else. */
  lemma {:induction false} DeleteSuccessRemovesExactlyOne(s: StoreState, userId: int, k: nat,
                                                          headFault: Option<ErrorCode>, deleteFault: Option<ErrorCode>)
    requires TableValid(s.rows, s.nextId)
    requires k < |s.rows| && s.rows[k].ownerId == userId
    ensures var d := DeleteSpec(s, userId, s.rows[k].id, headFault, deleteFault);
      var key := ObjectKey(userId, s.rows[k].name);
      && (d.outcome.Deleted? <==> headFault.None? && key in s.objects && deleteFault.None?)
      && (d.outcome.Deleted? ==>
            && d.outcome == Deleted(s.rows[k].name) && d.outcome.Status() == 200
            && d.stores.rows == s.rows[..k] + s.rows[k + 1..]
            && d.stores.objects == s.objects - {key}
            && d.stores.nextId == s.nextId)
  {
    FindIdInValidTable(s.rows, s.nextId, k);
    WithoutPresentId(s.rows, s.nextId, k);
  }

  /** A storage client error leaves the row (and every object) in place: the
      code "404" answers 404, any other code 500. A missing object is the
      "404" case. */
  lemma DeleteErrorKeepsRecord(s: StoreState, userId: int, fileId: int,
                               headFault: Option<ErrorCode>, deleteFault: Option<ErrorCode>)
    ensures var d := DeleteSpec(s, userId, fileId, headFault, deleteFault);
      d.outcome.ObjectError? ==>
        && d.stores == s
        && (d.outcome.Status() == 404 <==> d.outcome.code == "404")
        && (d.outcome.Status() == 500 <==> d.outcome.code != "404")
    ensures var d := DeleteSpec(s, userId, fileId, headFault, deleteFault);
      && FindId(s.rows, userId, fileId).Some? && headFault.None?
      && ObjectKey(userId, FindId(s.rows, userId, fileId).value.name) !in s.objects ==>
        d == DeleteResult(s, ObjectError(FindId(s.rows, userId, fileId).value.name, "404"))
  {
  }

  /** Delete undoes upload: deleting the row a successful upload just
      committed restores the table, and removes the object it wrote. */
  lemma UploadThenDeleteRoundTrip(s: StoreState, guessType: MimeGuesser, userId: int, f: UploadFile,
                                  r: StorageReplies)
    requires TableValid(s.rows, s.nextId)
    requires UploadStep(s, guessType, userId, f, r, true).message.outcome == Uploaded
    ensures var up := UploadStep(s, guessType, userId, f, r, true);
      var d := DeleteSpec(up.stores, userId, up.added.value.id, None, None);
      && d.outcome == Deleted(f.filename)
      && d.stores.rows == s.rows
      && d.stores.objects == s.objects - {ObjectKey(userId, f.filename)}
      && (ObjectKey(userId, f.filename) !in s.objects ==> d.stores.objects == s.objects)
  {
    var rec := Record(s.nextId, userId, f.filename, r.presign.value, r.now);
    var key := ObjectKey(userId, f.filename);
    UploadedFileAddsOneRecord(s, guessType, userId, f, r, true);
    FreshRowLookupAndDelete(s.rows, rec);
    DeleteFreshRow(s.rows, rec, s.nextId + 1, s.objects[key := f.contents]);
    assert s.objects[key := f.contents] - {key} == s.objects - {key};
  }

  /** The delete of a row that was appended with a fresh id and whose
      object exists succeeds and removes both. */
  lemma DeleteFreshRow(rows: seq<Record>, rec: Record, nextId: nat, objects: map<string, seq<byte>>)
    requires FindId(rows + [rec], rec.ownerId, rec.id) == Some(rec)
    requires Without(rows + [rec], rec.id) == rows
    requires ObjectKey(rec.ownerId, rec.name) in objects
    ensures DeleteSpec(StoreState(rows + [rec], nextId, objects), rec.ownerId, rec.id, None, None)
         == DeleteResult(StoreState(rows, nextId, objects - {ObjectKey(rec.ownerId, rec.name)}), Deleted(rec.name))
  {
  }

  // ---------------------------------------------------------------------
  // List

  /** One entry of the listing: the fields of a record, as serialised. */
  datatype TestData = TestData(id: nat, userId: int, testName: string, url: Url, submissionDate: Timestamp)

  function ToTestData(r: Record): TestData
  {
    TestData(r.id, r.ownerId, r.name, r.url, r.submitted)
  }

  datatype ListResponse = ListResponse(status: int, data: seq<TestData>)

  /** `list_user_tests`: 404 for an unknown user, otherwise 200 with one
      entry per record of that user, in table order (possibly none). */
  method ListUserTests(db: MetadataTable, userId: int) returns (resp: ListResponse)
    ensures userId !in db.users ==> resp == ListResponse(404, [])
    ensures userId in db.users ==>
      && resp.status == 200
      && |resp.data| == |OwnedBy(db.rows, userId)|
      && forall i :: 0 <= i < |resp.data| ==> resp.data[i] == ToTestData(OwnedBy(db.rows, userId)[i])
  {
    if userId !in db.users {
      return ListResponse(404, []);
    }
    var tests := OwnedBy(db.rows, userId);
    var testData: seq<TestData> := [];
    for i := 0 to |tests|
      invariant |testData| == i
      invariant forall j :: 0 <= j < i ==> testData[j] == ToTestData(tests[j])
    {
      testData := testData + [ToTestData(tests[i])];
    }
    return ListResponse(200, testData);
  }

  /** Every record a batch commits is among its owner's rows, which the
      listing returns when the owner is a known user. */
  lemma UploadedRecordsAreListed(s: StoreState, guessType: MimeGuesser, userId: int,
                                 files: seq<UploadFile>, replies: seq<StorageReplies>, x: Record)
    requires |files| == |replies|
    requires x in RunBatch(s, guessType, userId, files, replies, true).added
    ensures x in OwnedBy(RunBatch(s, guessType, userId, files, replies, true).stores.rows, userId)
  {
    RowsGrowByFileInfo(s, guessType, userId, files, replies, true);
  }
}
