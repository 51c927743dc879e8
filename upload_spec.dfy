/** What `upload_pdf_files` does, as a function of the stores and of the
    storage replies, in both routers. Per file, in order: the PDF check, the
    duplicate-name check (only in app/routers/file.py), the size check, the
    object write, the presigned URL and the metadata commit. The batch status
    starts at 200, a rejected file lowers it to 400 unless it is already 500,
    and a storage client error sets it to 500. */
module UploadSpec {
  import opened Wrappers
  import opened Utils
  import opened ObjectKeys
  import opened Stores

  /** One element of `files`: the client-given name and the bytes read. */
  datatype UploadFile = UploadFile(filename: string, contents: seq<byte>)

  /** What the storage calls for one file answer: the client error of
      `put_object` if it raises one, the URL or the client error of
      `generate_presigned_url`, and the time of the commit. */
  datatype StorageReplies = StorageReplies(put: Option<ErrorCode>, presign: Result<Url, ErrorCode>, now: Timestamp)

  /** The state of both stores. */
  datatype StoreState = StoreState(rows: seq<Record>, nextId: nat, objects: map<string, seq<byte>>)

  /** Why a file was or was not stored; one per file, in input order. */
  datatype Outcome =
    | Uploaded
    | NotPdf
    | DuplicateName
    | TooLarge
    | PutFailed(code: ErrorCode)      // put_object raised: nothing was written
    | PresignFailed(code: ErrorCode)  // the URL could not be made: the object is written, no row
  {
    predicate IsClientMistake() { NotPdf? || DuplicateName? || TooLarge? }
    predicate IsStorageError() { PutFailed? || PresignFailed? }
  }

  datatype Message = Message(filename: string, outcome: Outcome)

  /** The status after one more file: the one-way escalation 200, 400, 500. */
  function Escalate(status: int, outcome: Outcome): int
  {
    if outcome.IsStorageError() then 500
    else if outcome.IsClientMistake() && status != 500 then 400
    else status
  }

  /** The order of the three statuses. */
  function Severity(status: int): nat
  {
    if status == 500 then 2 else if status == 400 then 1 else 0
  }

  datatype StepResult = StepResult(stores: StoreState, message: Message, added: Option<Record>)

  /** One pass of the loop body for one file. */
  function UploadStep(s: StoreState, guessType: MimeGuesser, userId: int, f: UploadFile,
                      r: StorageReplies, checkDuplicates: bool): StepResult
  {
    if !IsPdf(guessType, f.filename) then
      StepResult(s, Message(f.filename, NotPdf), None)
    else if checkDuplicates && FirstNamed(s.rows, userId, f.filename).Some? then
      StepResult(s, Message(f.filename, DuplicateName), None)
    else if !FileSizeWithinBounds(f.contents) then
      StepResult(s, Message(f.filename, TooLarge), None)
    else if r.put.Some? then
      StepResult(s, Message(f.filename, PutFailed(r.put.value)), None)
    else
      var written := s.objects[ObjectKey(userId, f.filename) := f.contents];
      if r.presign.Failure? then
        StepResult(s.(objects := written), Message(f.filename, PresignFailed(r.presign.error)), None)
      else
        var rec := Record(s.nextId, userId, f.filename, r.presign.value, r.now);
        StepResult(StoreState(s.rows + [rec], s.nextId + 1, written), Message(f.filename, Uploaded), Some(rec))
  }

  /** The stores, `messages`, the records behind `file_info` and
      `real_status_code` after the whole loop. */
  datatype BatchResult = BatchResult(stores: StoreState, messages: seq<Message>, added: seq<Record>, status: int)

  function Added(step: StepResult): seq<Record>
  {
    if step.added.Some? then [step.added.value] else []
  }

  /** The loop over `files`, as a left fold. */
  function RunBatch(s: StoreState, guessType: MimeGuesser, userId: int, files: seq<UploadFile>,
                    replies: seq<StorageReplies>, checkDuplicates: bool): BatchResult
    requires |files| == |replies|
    decreases |files|
  {
    if files == [] then BatchResult(s, [], [], 200)
    else
      var n := |files| - 1;
      var prev := RunBatch(s, guessType, userId, files[..n], replies[..n], checkDuplicates);
      var step := UploadStep(prev.stores, guessType, userId, files[n], replies[n], checkDuplicates);
      BatchResult(step.stores, prev.messages + [step.message], prev.added + Added(step),
                  Escalate(prev.status, step.message.outcome))
  }

  /** One more file extends the batch by that file's step. */
  lemma BatchPrefixStep(s: StoreState, guessType: MimeGuesser, userId: int, files: seq<UploadFile>,
                        replies: seq<StorageReplies>, checkDuplicates: bool, i: nat)
    requires |files| == |replies| && i < |files|
    ensures var prev := RunBatch(s, guessType, userId, files[..i], replies[..i], checkDuplicates);
      var step := UploadStep(prev.stores, guessType, userId, files[i], replies[i], checkDuplicates);
      RunBatch(s, guessType, userId, files[..i + 1], replies[..i + 1], checkDuplicates) ==
        BatchResult(step.stores, prev.messages + [step.message], prev.added + Added(step),
                    Escalate(prev.status, step.message.outcome))
  {
    assert files[..i + 1][..i] == files[..i] && replies[..i + 1][..i] == replies[..i];
  }

  /** A batch of one file is that file's step from the initial status. */
  lemma BatchOfOne(s: StoreState, guessType: MimeGuesser, userId: int, f: UploadFile,
                   r: StorageReplies, checkDuplicates: bool)
    ensures var step := UploadStep(s, guessType, userId, f, r, checkDuplicates);
      RunBatch(s, guessType, userId, [f], [r], checkDuplicates) ==
        BatchResult(step.stores, [step.message], Added(step), Escalate(200, step.message.outcome))
  {
    assert [f][..0] == [] && [r][..0] == [];
  }

  /** A batch of two files is the second file's step after the first. */
  lemma BatchOfTwo(s: StoreState, guessType: MimeGuesser, userId: int, f1: UploadFile, f2: UploadFile,
                   r1: StorageReplies, r2: StorageReplies, checkDuplicates: bool)
    ensures var b1 := RunBatch(s, guessType, userId, [f1], [r1], checkDuplicates);
      var step := UploadStep(b1.stores, guessType, userId, f2, r2, checkDuplicates);
      RunBatch(s, guessType, userId, [f1, f2], [r1, r2], checkDuplicates) ==
        BatchResult(step.stores, b1.messages + [step.message], b1.added + Added(step),
                    Escalate(b1.status, step.message.outcome))
  {
    assert [f1, f2][..1] == [f1] && [r1, r2][..1] == [r1];
  }

  // ---------------------------------------------------------------------
  // One file

  /** A file refused for its type, its name or its size leaves both stores
      exactly as they were and records nothing. */
  lemma RejectedFileTouchesNoStore(s: StoreState, guessType: MimeGuesser, userId: int, f: UploadFile,
                                   r: StorageReplies, checkDuplicates: bool)
    ensures var step := UploadStep(s, guessType, userId, f, r, checkDuplicates);
      step.message.outcome.IsClientMistake() ==> step.stores == s && step.added.None?
    ensures !IsPdf(guessType, f.filename) ==> UploadStep(s, guessType, userId, f, r, checkDuplicates).message.outcome == NotPdf
    ensures IsPdf(guessType, f.filename) && checkDuplicates && FirstNamed(s.rows, userId, f.filename).Some? ==>
              UploadStep(s, guessType, userId, f, r, checkDuplicates).message.outcome == DuplicateName
    ensures IsPdf(guessType, f.filename) && !FileSizeWithinBounds(f.contents) &&
            !(checkDuplicates && FirstNamed(s.rows, userId, f.filename).Some?) ==>
              UploadStep(s, guessType, userId, f, r, checkDuplicates).message.outcome == TooLarge
  {
  }

  /** A stored file adds exactly one row — owner, name, URL, time, the next
      id — and writes its contents under "{user_id}/{filename}", and happens
      exactly when every check and both storage calls pass. */
  lemma UploadedFileAddsOneRecord(s: StoreState, guessType: MimeGuesser, userId: int, f: UploadFile,
                                  r: StorageReplies, checkDuplicates: bool)
    ensures var step := UploadStep(s, guessType, userId, f, r, checkDuplicates);
      step.message.outcome == Uploaded <==>
        && IsPdf(guessType, f.filename)
        && !(checkDuplicates && FirstNamed(s.rows, userId, f.filename).Some?)
        && FileSizeWithinBounds(f.contents)
        && r.put.None? && r.presign.Success?
    ensures var step := UploadStep(s, guessType, userId, f, r, checkDuplicates);
      step.message.outcome == Uploaded ==>
        var rec := Record(s.nextId, userId, f.filename, r.presign.value, r.now);
        && step.added == Some(rec)
        && step.stores.rows == s.rows + [rec]
        && step.stores.nextId == s.nextId + 1
        && step.stores.objects == s.objects[ObjectKey(userId, f.filename) := f.contents]
  {
  }

  /** A storage client error adds no row; a failed put writes nothing, a
      failed presign leaves the object written. */
  lemma StorageErrorAddsNoRecord(s: StoreState, guessType: MimeGuesser, userId: int, f: UploadFile,
                                 r: StorageReplies, checkDuplicates: bool)
    ensures var step := UploadStep(s, guessType, userId, f, r, checkDuplicates);
      step.message.outcome.IsStorageError() ==>
        step.added.None? && step.stores.rows == s.rows && step.stores.nextId == s.nextId
    ensures var step := UploadStep(s, guessType, userId, f, r, checkDuplicates);
      step.message.outcome.PutFailed? ==> step.stores == s
    ensures var step := UploadStep(s, guessType, userId, f, r, checkDuplicates);
      step.message.outcome.PresignFailed? ==>
        step.stores.objects == s.objects[ObjectKey(userId, f.filename) := f.contents]
  {
  }

  // ---------------------------------------------------------------------
  // The batch

  /** Every file appends exactly one message, about itself, in input order. */
  lemma {:induction false} OneMessagePerFile(s: StoreState, guessType: MimeGuesser, userId: int,
                                             files: seq<UploadFile>, replies: seq<StorageReplies>, checkDuplicates: bool)
    requires |files| == |replies|
    ensures var b := RunBatch(s, guessType, userId, files, replies, checkDuplicates);
      |b.messages| == |files| && forall i :: 0 <= i < |files| ==> b.messages[i].filename == files[i].filename
    decreases |files|
  {
    if files != [] {
      var n := |files| - 1;
      OneMessagePerFile(s, guessType, userId, files[..n], replies[..n], checkDuplicates);
    }
  }

  /** The message at position i is what the file at position i met, given
      the stores the earlier files left behind. */
  lemma {:induction false} MessageIsStepOutcome(s: StoreState, guessType: MimeGuesser, userId: int,
                                                files: seq<UploadFile>, replies: seq<StorageReplies>,
                                                checkDuplicates: bool, i: nat)
    requires |files| == |replies| && i < |files|
    ensures var before := RunBatch(s, guessType, userId, files[..i], replies[..i], checkDuplicates);
      i < |RunBatch(s, guessType, userId, files, replies, checkDuplicates).messages| &&
      RunBatch(s, guessType, userId, files, replies, checkDuplicates).messages[i] ==
        UploadStep(before.stores, guessType, userId, files[i], replies[i], checkDuplicates).message
    decreases |files|
  {
    var n := |files| - 1;
    OneMessagePerFile(s, guessType, userId, files[..n], replies[..n], checkDuplicates);
    if i < n {
      assert files[..n][..i] == files[..i] && replies[..n][..i] == replies[..i];
      MessageIsStepOutcome(s, guessType, userId, files[..n], replies[..n], checkDuplicates, i);
    } else {
      assert files[..i] == files[..n] && replies[..i] == replies[..n];
    }
  }

  predicate AllUploaded(ms: seq<Message>)
  {
    forall i :: 0 <= i < |ms| ==> ms[i].outcome == Uploaded
  }

  predicate SomeStorageError(ms: seq<Message>)
  {
    exists i :: 0 <= i < |ms| && ms[i].outcome.IsStorageError()
  }

  /** The status is 200 when every file was stored, 500 when any file met a
      storage client error wherever it stood in the batch, and 400 otherwise. */
  lemma {:induction false} StatusAggregation(s: StoreState, guessType: MimeGuesser, userId: int,
                                             files: seq<UploadFile>, replies: seq<StorageReplies>, checkDuplicates: bool)
    requires |files| == |replies|
    ensures var b := RunBatch(s, guessType, userId, files, replies, checkDuplicates);
      && (b.status == 200 <==> AllUploaded(b.messages))
      && (b.status == 500 <==> SomeStorageError(b.messages))
      && (b.status == 400 <==> !AllUploaded(b.messages) && !SomeStorageError(b.messages))
    decreases |files|
  {
    if files != [] {
      var n := |files| - 1;
      StatusAggregation(s, guessType, userId, files[..n], replies[..n], checkDuplicates);
      var prev := RunBatch(s, guessType, userId, files[..n], replies[..n], checkDuplicates);
      var b := RunBatch(s, guessType, userId, files, replies, checkDuplicates);
      var m := b.messages[|prev.messages|];
      assert b.messages == prev.messages + [m];
      assert AllUploaded(b.messages) <==> AllUploaded(prev.messages) && m.outcome == Uploaded by {
        if AllUploaded(prev.messages) && m.outcome == Uploaded {
          forall i | 0 <= i < |b.messages| ensures b.messages[i].outcome == Uploaded {
            if i < |prev.messages| { assert b.messages[i] == prev.messages[i]; }
          }
        }
        if AllUploaded(b.messages) {
          forall i | 0 <= i < |prev.messages| ensures prev.messages[i].outcome == Uploaded {
            assert b.messages[i] == prev.messages[i];
          }
        }
      }
      if m.outcome.IsStorageError() {
        assert b.messages[|prev.messages|] == m;
      } else {
        assert SomeStorageError(b.messages) <==> SomeStorageError(prev.messages) by {
          if SomeStorageError(b.messages) {
            var i :| 0 <= i < |b.messages| && b.messages[i].outcome.IsStorageError();
            assert i < |prev.messages| && prev.messages[i] == b.messages[i];
          }
          if SomeStorageError(prev.messages) {
            var i :| 0 <= i < |prev.messages| && prev.messages[i].outcome.IsStorageError();
            assert b.messages[i] == prev.messages[i];
          }
        }
      }
    }
  }

  /** The status of a longer batch is never less severe than that of its
      prefix: in particular, once 500 is reached it stays. */
  lemma {:induction false} StatusNeverLowered(s: StoreState, guessType: MimeGuesser, userId: int,
                                              files: seq<UploadFile>, replies: seq<StorageReplies>,
                                              checkDuplicates: bool, k: nat)
    requires |files| == |replies| && k <= |files|
    ensures Severity(RunBatch(s, guessType, userId, files[..k], replies[..k], checkDuplicates).status) <=
            Severity(RunBatch(s, guessType, userId, files, replies, checkDuplicates).status)
    decreases |files|
  {
    if k < |files| {
      var n := |files| - 1;
      assert files[..n][..k] == files[..k] && replies[..n][..k] == replies[..k];
      StatusNeverLowered(s, guessType, userId, files[..n], replies[..n], checkDuplicates, k);
    } else {
      assert files[..k] == files && replies[..k] == replies;
    }
  }

  function UploadedNames(ms: seq<Message>): seq<string>
  {
    if ms == [] then []
    else UploadedNames(ms[..|ms| - 1]) + (if ms[|ms| - 1].outcome == Uploaded then [ms[|ms| - 1].filename] else [])
  }

  function Names(rs: seq<Record>): seq<string>
  {
    if rs == [] then [] else Names(rs[..|rs| - 1]) + [rs[|rs| - 1].name]
  }

  /** The metadata table grows by exactly the records behind `file_info`, in
      input order: one per stored file, owned by the uploader, with ids
      handed out consecutively from the table's next id. */
  lemma {:induction false} RowsGrowByFileInfo(s: StoreState, guessType: MimeGuesser, userId: int,
                                              files: seq<UploadFile>, replies: seq<StorageReplies>, checkDuplicates: bool)
    requires |files| == |replies|
    ensures var b := RunBatch(s, guessType, userId, files, replies, checkDuplicates);
      && b.stores.rows == s.rows + b.added
      && b.stores.nextId == s.nextId + |b.added|
      && Names(b.added) == UploadedNames(b.messages)
      && (forall k :: 0 <= k < |b.added| ==> b.added[k].id == s.nextId + k && b.added[k].ownerId == userId)
    decreases |files|
  {
    if files != [] {
      var n := |files| - 1;
      RowsGrowByFileInfo(s, guessType, userId, files[..n], replies[..n], checkDuplicates);
      var prev := RunBatch(s, guessType, userId, files[..n], replies[..n], checkDuplicates);
      var step := UploadStep(prev.stores, guessType, userId, files[n], replies[n], checkDuplicates);
      StepRowsShape(prev.stores, guessType, userId, files[n], replies[n], checkDuplicates);
      var b := RunBatch(s, guessType, userId, files, replies, checkDuplicates);
      assert b.added == prev.added + Added(step) && b.messages == prev.messages + [step.message];
      UploadedNamesAppend(prev.messages, step.message);
      if step.added.Some? {
        NamesAppend(prev.added, step.added.value);
        assert b.stores.rows == (s.rows + prev.added) + [step.added.value];
        forall k | 0 <= k < |b.added| ensures b.added[k].id == s.nextId + k && b.added[k].ownerId == userId {
          if k < |prev.added| {
            assert b.added[k] == prev.added[k];
          } else {
            assert b.added[k] == step.added.value;
          }
        }
      } else {
        assert b.added == prev.added;
      }
    }
  }

  lemma NamesAppend(rs: seq<Record>, r: Record)
    ensures Names(rs + [r]) == Names(rs) + [r.name]
  {
    assert (rs + [r])[..|rs|] == rs;
  }

  lemma UploadedNamesAppend(ms: seq<Message>, m: Message)
    ensures UploadedNames(ms + [m]) == UploadedNames(ms) + (if m.outcome == Uploaded then [m.filename] else [])
  {
    assert (ms + [m])[..|ms|] == ms;
  }

  /** One step appends its own record, if any, and nothing else. */
  lemma StepRowsShape(s: StoreState, guessType: MimeGuesser, userId: int, f: UploadFile,
                      r: StorageReplies, checkDuplicates: bool)
    ensures var step := UploadStep(s, guessType, userId, f, r, checkDuplicates);
      && step.stores.rows == s.rows + Added(step)
      && step.stores.nextId == s.nextId + |Added(step)|
      && step.message.filename == f.filename
      && (step.added.Some? <==> step.message.outcome == Uploaded)
      && (step.added.Some? ==> step.added.value.id == s.nextId && step.added.value.ownerId == userId &&
                               step.added.value.name == f.filename)
  {
  }

  /** The file got past every check and its object write succeeded. */
  predicate ObjectWritten(o: Outcome)
  {
    o == Uploaded || o.PresignFailed?
  }

  /** Some file of the batch wrote its object under this key. */
  predicate WrittenByBatch(userId: int, files: seq<UploadFile>, ms: seq<Message>, key: string)
    requires |ms| == |files|
  {
    exists i :: 0 <= i < |files| && key == ObjectKey(userId, files[i].filename) && ObjectWritten(ms[i].outcome)
  }

  /** The object under this key is new or has a new body. */
  predicate Changed(before: map<string, seq<byte>>, after: map<string, seq<byte>>, key: string)
  {
    key in after && (key !in before || after[key] != before[key])
  }

  /** One file changes at most the object under its own key, and only when
      its write succeeded; it removes nothing. */
  lemma StepWritesOwnKeyOnly(s: StoreState, guessType: MimeGuesser, userId: int, f: UploadFile,
                             r: StorageReplies, checkDuplicates: bool, key: string)
    ensures var step := UploadStep(s, guessType, userId, f, r, checkDuplicates);
      && s.objects.Keys <= step.stores.objects.Keys
      && (Changed(s.objects, step.stores.objects, key) ==>
            key == ObjectKey(userId, f.filename) && ObjectWritten(step.message.outcome))
  {
  }

  /** An object changes only under the key of a file in the batch that
      passed every check and whose write succeeded; no object is removed. */
  lemma {:induction false} ObjectsWrittenOnlyForPassingFiles(s: StoreState, guessType: MimeGuesser, userId: int,
                                                             files: seq<UploadFile>, replies: seq<StorageReplies>,
                                                             checkDuplicates: bool, key: string)
    requires |files| == |replies|
    ensures var b := RunBatch(s, guessType, userId, files, replies, checkDuplicates);
      && |b.messages| == |files|
      && s.objects.Keys <= b.stores.objects.Keys
      && (Changed(s.objects, b.stores.objects, key) ==> WrittenByBatch(userId, files, b.messages, key))
    decreases |files|
  {
    OneMessagePerFile(s, guessType, userId, files, replies, checkDuplicates);
    if files != [] {
      var n := |files| - 1;
      ObjectsWrittenOnlyForPassingFiles(s, guessType, userId, files[..n], replies[..n], checkDuplicates, key);
      var prev := RunBatch(s, guessType, userId, files[..n], replies[..n], checkDuplicates);
      var step := UploadStep(prev.stores, guessType, userId, files[n], replies[n], checkDuplicates);
      var b := RunBatch(s, guessType, userId, files, replies, checkDuplicates);
      StepWritesOwnKeyOnly(prev.stores, guessType, userId, files[n], replies[n], checkDuplicates, key);
      assert b.messages == prev.messages + [step.message];
      if Changed(s.objects, b.stores.objects, key) {
        if Changed(prev.stores.objects, b.stores.objects, key) {
          assert b.messages[n] == step.message;
        } else {
          assert Changed(s.objects, prev.stores.objects, key);
          var i :| 0 <= i < n && key == ObjectKey(userId, files[..n][i].filename) && ObjectWritten(prev.messages[i].outcome);
          assert b.messages[i] == prev.messages[i] && files[..n][i] == files[i];
        }
      }
    }
  }

  /** A batch for `userId` leaves the object of every other user, and of
      every name that is not among the batch's file names, as it was. */
  lemma BatchLeavesOtherObjectsAlone(s: StoreState, guessType: MimeGuesser, userId: int,
                                     files: seq<UploadFile>, replies: seq<StorageReplies>,
                                     checkDuplicates: bool, u: int, name: string)
    requires |files| == |replies|
    requires u != userId || forall i :: 0 <= i < |files| ==> files[i].filename != name
    ensures var b := RunBatch(s, guessType, userId, files, replies, checkDuplicates);
      && (ObjectKey(u, name) in s.objects ==> ObjectKey(u, name) in b.stores.objects
                                              && b.stores.objects[ObjectKey(u, name)] == s.objects[ObjectKey(u, name)])
      && (ObjectKey(u, name) !in s.objects ==> ObjectKey(u, name) !in b.stores.objects)
  {
    var key := ObjectKey(u, name);
    ObjectsWrittenOnlyForPassingFiles(s, guessType, userId, files, replies, checkDuplicates, key);
    var b := RunBatch(s, guessType, userId, files, replies, checkDuplicates);
    if Changed(s.objects, b.stores.objects, key) {
      var i :| 0 <= i < |files| && key == ObjectKey(userId, files[i].filename) && ObjectWritten(b.messages[i].outcome);
      ObjectKeyInjective(u, name, userId, files[i].filename);
      assert false;
    }
  }

  /** With the duplicate check on, no owner ever gets two rows with the same
      name: the check sees the rows committed earlier in the same batch. */
  lemma {:induction false} DuplicateCheckKeepsNamesUnique(s: StoreState, guessType: MimeGuesser, userId: int,
                                                          files: seq<UploadFile>, replies: seq<StorageReplies>)
    requires |files| == |replies|
    requires UniqueNames(s.rows)
    ensures UniqueNames(RunBatch(s, guessType, userId, files, replies, true).stores.rows)
    decreases |files|
  {
    if files != [] {
      var n := |files| - 1;
      DuplicateCheckKeepsNamesUnique(s, guessType, userId, files[..n], replies[..n]);
      var prev := RunBatch(s, guessType, userId, files[..n], replies[..n], true);
      var step := UploadStep(prev.stores, guessType, userId, files[n], replies[n], true);
      if step.added.Some? {
        var rows := prev.stores.rows;
        assert FirstNamed(rows, userId, files[n].filename).None?;
        assert step.stores.rows == rows + [step.added.value];
      }
    }
  }

  /** Both variants keep the table's auto-increment invariant. */
  lemma {:induction false} BatchKeepsTableValid(s: StoreState, guessType: MimeGuesser, userId: int,
                                                files: seq<UploadFile>, replies: seq<StorageReplies>, checkDuplicates: bool)
    requires |files| == |replies|
    requires TableValid(s.rows, s.nextId)
    ensures var b := RunBatch(s, guessType, userId, files, replies, checkDuplicates);
      TableValid(b.stores.rows, b.stores.nextId)
    decreases |files|
  {
    if files != [] {
      var n := |files| - 1;
      BatchKeepsTableValid(s, guessType, userId, files[..n], replies[..n], checkDuplicates);
    }
  }
}
