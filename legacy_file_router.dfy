/** The routes of the older src/app/routers/file.py: batch upload without the
    duplicate-name check, delete by id whose lookup is not guarded, and the
    listing of a user's exams that answers 404 when there are none. */
module LegacyFileRouter {
  import opened Wrappers
  import opened Utils
  import opened ObjectKeys
  import opened Stores
  import opened UploadSpec

  // ---------------------------------------------------------------------
  // Upload

  /** One `file_info` entry: `{idExam, name}`. */
  datatype ExamRef = ExamRef(idExam: nat, name: string)

  function ExamRefs(recs: seq<Record>): (refs: seq<ExamRef>)
    ensures |refs| == |recs|
    ensures forall i :: 0 <= i < |recs| ==> refs[i] == ExamRef(recs[i].id, recs[i].name)
  {
    if recs == [] then []
    else ExamRefs(recs[..|recs| - 1]) + [ExamRef(recs[|recs| - 1].id, recs[|recs| - 1].name)]
  }

  lemma ExamRefsAppend(recs: seq<Record>, rec: Record)
    ensures ExamRefs(recs + [rec]) == ExamRefs(recs) + [ExamRef(rec.id, rec.name)]
  {
    assert (recs + [rec])[..|recs|] == recs;
  }

  datatype UploadBody = AllFilesUploaded | Report(messages: seq<Message>)

  datatype UploadResponse = UploadResponse(status: int, body: UploadBody, data: seq<ExamRef>)

  function ResponseOf(b: BatchResult): UploadResponse
  {
    if b.status == 200 then UploadResponse(200, AllFilesUploaded, ExamRefs(b.added))
    else UploadResponse(b.status, Report(b.messages), ExamRefs(b.added))
  }

  /** The body of the loop for one file: the type check, the size check,
      `put_object`, the presigned URL and the commit of the new row. */
  method UploadOneFile(db: MetadataTable, s3: ObjectStore, guessType: MimeGuesser, userId: int,
                       f: UploadFile, r: StorageReplies) returns (message: Message, exame: Option<Record>)
    modifies db, s3
    ensures var step := UploadStep(StoreState(old(db.rows), old(db.nextId), old(s3.objects)), guessType, userId, f, r, false);
      && db.rows == step.stores.rows && db.nextId == step.stores.nextId && s3.objects == step.stores.objects
      && message == step.message && exame == step.added
      && db.users == old(db.users)
  {
    if !IsPdf(guessType, f.filename) {
      return Message(f.filename, NotPdf), None;
    }
    if !FileSizeWithinBounds(f.contents) {
      return Message(f.filename, TooLarge), None;
    }
    var key := ObjectKey(userId, f.filename);
    var putError := s3.PutObject(key, f.contents, r.put);
    if putError.Some? {
      return Message(f.filename, PutFailed(putError.value)), None;
    }
    // generate_presigned_url answers with the supplied reply
    match r.presign
    case Failure(code) =>
      return Message(f.filename, PresignFailed(code)), None;
    case Success(url) =>
      var rec := db.Insert(userId, f.filename, url, r.now);
      return Message(f.filename, Uploaded), Some(rec);
  }

  /** `upload_pdf_files`: the same loop as in app/routers/file.py, without
      the duplicate-name check. */
  method UploadPdfFiles(db: MetadataTable, s3: ObjectStore, guessType: MimeGuesser, userId: int,
                        files: seq<UploadFile>, replies: seq<StorageReplies>) returns (resp: UploadResponse)
    requires |files| == |replies|
    modifies db, s3
    ensures var b := RunBatch(StoreState(old(db.rows), old(db.nextId), old(s3.objects)), guessType, userId, files, replies, false);
      && db.rows == b.stores.rows && db.nextId == b.stores.nextId && s3.objects == b.stores.objects
      && db.users == old(db.users)
      && resp == ResponseOf(b)
  {
    ghost var start := StoreState(db.rows, db.nextId, s3.objects);
    ghost var added: seq<Record> := [];
    var fileInfo: seq<ExamRef> := [];
    var messages: seq<Message> := [];
    var status := 200;
    for i := 0 to |files|
      invariant var b := RunBatch(start, guessType, userId, files[..i], replies[..i], false);
        && db.rows == b.stores.rows && db.nextId == b.stores.nextId && s3.objects == b.stores.objects
        && messages == b.messages && added == b.added && fileInfo == ExamRefs(added) && status == b.status
      invariant db.users == old(db.users)
    {
      BatchPrefixStep(start, guessType, userId, files, replies, false, i);
      var message, exame := UploadOneFile(db, s3, guessType, userId, files[i], replies[i]);
      messages := messages + [message];
      if message.outcome.IsStorageError() {
        status := 500;
      } else if message.outcome.IsClientMistake() && status != 500 {
        status := 400;
      }
      if exame.Some? {
        ExamRefsAppend(added, exame.value);
        added := added + [exame.value];
        fileInfo := fileInfo + [ExamRef(exame.value.id, exame.value.name)];
      }
    }
    assert files[..|files|] == files && replies[..|replies|] == replies;
    if status == 200 {
      resp := UploadResponse(200, AllFilesUploaded, fileInfo);
    } else {
      resp := UploadResponse(status, Report(messages), fileInfo);
    }
  }

  /** Without the check, the same name twice in one request is stored twice:
      two rows for the same (user, name) with different ids, whose objects
      share one key, which now holds the second file's bytes. */
  lemma SameNameTwiceMakesTwoRecords(s: StoreState, guessType: MimeGuesser, userId: int,
                                     f1: UploadFile, f2: UploadFile, r1: StorageReplies, r2: StorageReplies)
    requires f1.filename == f2.filename && IsPdf(guessType, f1.filename)
    requires FileSizeWithinBounds(f1.contents) && FileSizeWithinBounds(f2.contents)
    requires r1.put.None? && r1.presign.Success? && r2.put.None? && r2.presign.Success?
    ensures var b := RunBatch(s, guessType, userId, [f1, f2], [r1, r2], false);
      && b.messages == [Message(f1.filename, Uploaded), Message(f2.filename, Uploaded)]
      && b.status == 200
      && b.added == [Record(s.nextId, userId, f1.filename, r1.presign.value, r1.now),
                     Record(s.nextId + 1, userId, f2.filename, r2.presign.value, r2.now)]
      && b.stores.rows == s.rows + b.added
      && b.stores.objects == s.objects[ObjectKey(userId, f1.filename) := f2.contents]
  {
    BatchOfOne(s, guessType, userId, f1, r1, false);
    BatchOfTwo(s, guessType, userId, f1, f2, r1, r2, false);
    var key := ObjectKey(userId, f1.filename);
    assert s.objects[key := f1.contents][key := f2.contents] == s.objects[key := f2.contents];
  }

  // ---------------------------------------------------------------------
  // Delete

  datatype DeleteOutcome =
    | Deleted(filename: string)
    | LookupCrashed                                  // `.first()` gave None and `.nome_exame` raised
    | FileNotFound                                   // the row's name is empty, so the guard fires
    | ObjectError(filename: string, code: ErrorCode) // head_object or delete_object raised
  {
    /** The HTTP status: an exception other than an HTTP one is a 500. */
    function Status(): int
    {
      match this
      case Deleted(_) => 200
      case LookupCrashed => 500
      case FileNotFound => 404
      case ObjectError(_, code) => if code == NotFoundCode then 404 else 500
    }
  }

  datatype DeleteResult = DeleteResult(stores: StoreState, outcome: DeleteOutcome)

  /** `delete_file`: read the row's name (crashing when there is no row),
      refuse an empty name, `head` the object, delete the object, query the
      row again and delete it. */
  function DeleteSpec(s: StoreState, userId: int, fileId: int,
                      headFault: Option<ErrorCode>, deleteFault: Option<ErrorCode>): DeleteResult
  {
    match FindId(s.rows, userId, fileId)
    case None => DeleteResult(s, LookupCrashed)
    case Some(rec) =>
      if rec.name == "" then DeleteResult(s, FileNotFound)
      else
        var key := ObjectKey(userId, rec.name);
        var headError := HeadError(s.objects, key, headFault);
        if headError.Some? then DeleteResult(s, ObjectError(rec.name, headError.value))
        else if deleteFault.Some? then DeleteResult(s, ObjectError(rec.name, deleteFault.value))
        else DeleteResult(StoreState(Without(s.rows, rec.id), s.nextId, s.objects - {key}), Deleted(rec.name))
  }

  /** A delete keeps both table invariants. */
  lemma DeleteKeepsTableInvariants(s: StoreState, userId: int, fileId: int,
                                   headFault: Option<ErrorCode>, deleteFault: Option<ErrorCode>)
    ensures var d := DeleteSpec(s, userId, fileId, headFault, deleteFault);
      TableValid(s.rows, s.nextId) ==> TableValid(d.stores.rows, d.stores.nextId)
    ensures UniqueNames(s.rows) ==> UniqueNames(DeleteSpec(s, userId, fileId, headFault, deleteFault).stores.rows)
  {
    var rec := FindId(s.rows, userId, fileId);
    if rec.Some? {
      if TableValid(s.rows, s.nextId) {
        WithoutKeepsValid(s.rows, s.nextId, rec.value.id);
      }
      if UniqueNames(s.rows) {
        WithoutKeepsUniqueNames(s.rows, rec.value.id);
      }
    }
  }

  method DeleteFile(db: MetadataTable, s3: ObjectStore, userId: int, fileId: int,
                    headFault: Option<ErrorCode>, deleteFault: Option<ErrorCode>) returns (outcome: DeleteOutcome)
    modifies db, s3
    ensures var d := DeleteSpec(StoreState(old(db.rows), old(db.nextId), old(s3.objects)), userId, fileId, headFault, deleteFault);
      && outcome == d.outcome
      && db.rows == d.stores.rows && db.nextId == d.stores.nextId && s3.objects == d.stores.objects
      && db.users == old(db.users)
  {
    var row := FindId(db.rows, userId, fileId);
    if row.None? {
      return LookupCrashed;
    }
    var filename := row.value.name;
    if filename == "" {
      return FileNotFound;
    }
    var key := ObjectKey(userId, filename);
    var headError := s3.HeadObject(key, headFault);
    if headError.Some? {
      return ObjectError(filename, headError.value);
    }
    var deleteError := s3.DeleteObject(key, deleteFault);
    if deleteError.Some? {
      return ObjectError(filename, deleteError.value);
    }
    // the second query runs on the unchanged table and finds the same row
    var exame := FindId(db.rows, userId, fileId);
    db.Delete(exame.value);
    return Deleted(filename);
  }

  /** As written, a delete of an id the user has no row for does not reach
      the 404 guard: reading the name of the missing row raises, the
      request fails with 500, and neither store changes. */
  lemma MissingRecordCrashes(s: StoreState, userId: int, fileId: int,
                             headFault: Option<ErrorCode>, deleteFault: Option<ErrorCode>)
    requires forall i :: 0 <= i < |s.rows| ==> !(s.rows[i].ownerId == userId && s.rows[i].id == fileId)
    ensures DeleteSpec(s, userId, fileId, headFault, deleteFault) == DeleteResult(s, LookupCrashed)
    ensures DeleteSpec(s, userId, fileId, headFault, deleteFault).outcome.Status() == 500
  {
  }

  /** The 404 guard fires only for a row whose name is empty. */
  lemma GuardFiresOnlyForEmptyName(s: StoreState, userId: int, fileId: int,
                                   headFault: Option<ErrorCode>, deleteFault: Option<ErrorCode>)
    ensures DeleteSpec(s, userId, fileId, headFault, deleteFault).outcome == FileNotFound <==>
      FindId(s.rows, userId, fileId).Some? && FindId(s.rows, userId, fileId).value.name == ""
  {
  }

  /** A success removes the row and its object; a storage client error
      keeps the row and every object, answering 404 for code "404" and 500
      for any other code. */
  lemma DeleteOutcomes(s: StoreState, userId: int, fileId: int,
                       headFault: Option<ErrorCode>, deleteFault: Option<ErrorCode>)
    ensures var d := DeleteSpec(s, userId, fileId, headFault, deleteFault);
      d.outcome.Deleted? ==>
        && FindId(s.rows, userId, fileId).Some?
        && var rec := FindId(s.rows, userId, fileId).value;
           d.stores == StoreState(Without(s.rows, rec.id), s.nextId, s.objects - {ObjectKey(userId, rec.name)})
    ensures var d := DeleteSpec(s, userId, fileId, headFault, deleteFault);
      d.outcome.ObjectError? ==>
        && d.stores == s
        && (d.outcome.Status() == 404 <==> d.outcome.code == "404")
        && (d.outcome.Status() == 500 <==> d.outcome.code != "404")
  {
  }

  /** Two same-name uploads, then a delete of the first row: the second row
      stays but its object is gone, so deleting it answers 404 from the
      object lookup and the row can never be removed this way. */
  lemma DuplicateDeleteLeavesDanglingRecord(s: StoreState, guessType: MimeGuesser, userId: int,
                                            f1: UploadFile, f2: UploadFile, r1: StorageReplies, r2: StorageReplies)
    requires TableValid(s.rows, s.nextId)
    requires f1.filename == f2.filename && f1.filename != "" && IsPdf(guessType, f1.filename)
    requires FileSizeWithinBounds(f1.contents) && FileSizeWithinBounds(f2.contents)
    requires r1.put.None? && r1.presign.Success? && r2.put.None? && r2.presign.Success?
    ensures var b := RunBatch(s, guessType, userId, [f1, f2], [r1, r2], false);
      var rec2 := Record(s.nextId + 1, userId, f2.filename, r2.presign.value, r2.now);
      var d1 := DeleteSpec(b.stores, userId, s.nextId, None, None);
      var d2 := DeleteSpec(d1.stores, userId, rec2.id, None, None);
      && d1.outcome == Deleted(f1.filename)
      && d1.stores.rows == s.rows + [rec2]
      && ObjectKey(userId, f1.filename) !in d1.stores.objects
      && d2 == DeleteResult(d1.stores, ObjectError(f1.filename, "404"))
      && d2.outcome.Status() == 404
  {
    SameNameTwiceMakesTwoRecords(s, guessType, userId, f1, f2, r1, r2);
    BatchKeepsTableValid(s, guessType, userId, [f1, f2], [r1, r2], false);
    var b := RunBatch(s, guessType, userId, [f1, f2], [r1, r2], false);
    var rec1 := Record(s.nextId, userId, f1.filename, r1.presign.value, r1.now);
    var rec2 := Record(s.nextId + 1, userId, f2.filename, r2.presign.value, r2.now);
    assert b.stores == StoreState(s.rows + [rec1, rec2], b.stores.nextId, b.stores.objects);
    DeletePairTwice(s.rows, rec1, rec2, b.stores.nextId, b.stores.objects);
    var key := ObjectKey(userId, f1.filename);
    var d1 := DeleteSpec(b.stores, userId, s.nextId, None, None);
    assert d1.stores == StoreState(s.rows + [rec2], b.stores.nextId, b.stores.objects - {key});
    assert DeleteSpec(d1.stores, userId, rec2.id, None, None) == DeleteResult(d1.stores, ObjectError(f1.filename, NotFoundCode));
  }

  /** Two rows of one owner share a name and so an object key: deleting the
      first removes the object, after which the second cannot be deleted. */
  lemma DeletePairTwice(rows: seq<Record>, rec1: Record, rec2: Record, nextId: nat,
                        objects: map<string, seq<byte>>)
    requires TableValid(rows + [rec1, rec2], nextId)
    requires rec1.ownerId == rec2.ownerId && rec1.name == rec2.name && rec1.name != ""
    requires ObjectKey(rec1.ownerId, rec1.name) in objects
    ensures var d1 := DeleteSpec(StoreState(rows + [rec1, rec2], nextId, objects), rec1.ownerId, rec1.id, None, None);
      && d1 == DeleteResult(StoreState(rows + [rec2], nextId, objects - {ObjectKey(rec1.ownerId, rec1.name)}), Deleted(rec1.name))
      && DeleteSpec(d1.stores, rec2.ownerId, rec2.id, None, None) == DeleteResult(d1.stores, ObjectError(rec2.name, NotFoundCode))
  {
    var key := ObjectKey(rec1.ownerId, rec1.name);
    DeleteFirstOfPair(rows, rec1, rec2, nextId, objects, rec1.ownerId);
    forall i | 0 <= i < |rows| ensures rows[i].id != rec2.id {
      assert (rows + [rec1, rec2])[i] == rows[i];
      assert (rows + [rec1, rec2])[|rows| + 1] == rec2;
    }
    DeleteOrphan(rows, rec2, nextId, objects - {key});
  }

  /** A row whose object is gone cannot be deleted: the object lookup
      answers 404 and nothing changes. */
  lemma DeleteOrphan(rows: seq<Record>, rec: Record, nextId: nat, objects: map<string, seq<byte>>)
    requires forall i :: 0 <= i < |rows| ==> rows[i].id != rec.id
    requires rec.name != "" && ObjectKey(rec.ownerId, rec.name) !in objects
    ensures DeleteSpec(StoreState(rows + [rec], nextId, objects), rec.ownerId, rec.id, None, None)
         == DeleteResult(StoreState(rows + [rec], nextId, objects), ObjectError(rec.name, NotFoundCode))
  {
    FindFreshId(rows, rec);
  }

  /** Deleting the first of two same-name rows removes it and the shared object. */
  lemma DeleteFirstOfPair(rows: seq<Record>, rec1: Record, rec2: Record, nextId: nat,
                          objects: map<string, seq<byte>>, userId: int)
    requires TableValid(rows + [rec1, rec2], nextId)
    requires rec1.ownerId == userId
    requires rec1.name != "" && ObjectKey(userId, rec1.name) in objects
    ensures DeleteSpec(StoreState(rows + [rec1, rec2], nextId, objects), userId, rec1.id, None, None)
         == DeleteResult(StoreState(rows + [rec2], nextId, objects - {ObjectKey(userId, rec1.name)}), Deleted(rec1.name))
  {
    var all := rows + [rec1, rec2];
    var k := |rows|;
    assert all[k] == rec1;
    FindIdInValidTable(all, nextId, k);
    WithoutPresentId(all, nextId, k);
    assert all[..k] + all[k + 1..] == rows + [rec2];
  }

  // ---------------------------------------------------------------------
  // List

  datatype ListResponse = ListResponse(status: int, exames: seq<Record>)

  /** `list_user_exames`: 404 for an unknown user and 404 for a user with no
      records; otherwise 200 with all of that user's records, in table order. */
  method ListUserExames(db: MetadataTable, userId: int) returns (resp: ListResponse)
    ensures resp.status == 200 || resp.status == 404
    ensures resp.status == 200 <==> userId in db.users && exists i :: 0 <= i < |db.rows| && db.rows[i].ownerId == userId
    ensures resp.status == 200 ==> resp.exames == OwnedBy(db.rows, userId)
    ensures resp.status == 404 ==> resp.exames == []
  {
    if userId !in db.users {
      return ListResponse(404, []);
    }
    var exames := OwnedBy(db.rows, userId);
    if exames == [] {
      assert forall i :: 0 <= i < |db.rows| ==> db.rows[i] !in exames;
      return ListResponse(404, []);
    }
    assert exames[0] in db.rows;
    return ListResponse(200, exames);
  }
}
