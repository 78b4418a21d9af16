/**
 * The statement-by-statement procedures that `ResourceServiceImpl` and the CQRS handlers
 * each carry a copy of: `save`, `delete`, the three getters, `convertPdfs` and
 * `migrateGridFS`, run against the shared `Repository` and `GridFs` objects. Each one is
 * proved to leave the stores as the matching `Lifecycle` function says.
 */
module StoredFileOps {
  import opened Wrappers
  import opened Domain
  import opened Text
  import opened Persistence
  import opened PdfConverter
  import opened Lifecycle

  /** The two stores as they stand. */
  function StateOf(repository: Repository, operations: GridFs): Stores
    reads repository, operations
  {
    Stores(repository.docs, operations.files)
  }

  /**
   * How a `save` call relates the stores and write logs before and after: on a null
   * entity nothing changes and the exception is EntityNotFound; otherwise the stores,
   * the returned record and the two repository writes are those of `SaveSpec`.
   */
  predicate SaveOutcome(s0: Stores, w0: seq<StoredFile>, s1: Stores, w1: seq<StoredFile>,
                        entity: Option<StoredFile>, md5: Md5, r: Result<StoredFile, Error>)
  {
    var spec := SaveSpec(s0, entity, md5);
    && (r.Failure? <==> spec.Failure?)
    && (r.Failure? ==> r.error == spec.error && s1 == s0 && w1 == w0)
    && (r.Success? ==> s1 == spec.value.stores && r.value == spec.value.record && w1 == w0 + spec.value.writes)
  }

  /** How a delete relates the stores before and after, as `DeleteSpec` says. */
  predicate DeleteOutcome(s0: Stores, s1: Stores, id: Option<Id>, err: Option<Error>) {
    var spec := DeleteSpec(s0, id);
    && (err.Some? <==> spec.Failure?)
    && (err.Some? ==> err.value == spec.error && s1 == s0)
    && (err.None? ==> s1 == spec.value)
  }

  /**
   * `if (payload != null) { objectId = operations.store(...); entity.setXFileId(objectId) }`,
   * with the record's id as `relatedObjectId` metadata.
   */
  method StorePayload(operations: GridFs, f: StoredFile, slot: Slot, payload: Option<Bytes>,
                      name: string, contentType: string) returns (r: StoredFile)
    modifies operations
    ensures (operations.files, r) == StoreSlot(old(operations.files), f, slot, payload, name, contentType)
  {
    r := f;
    if payload.Some? {
      var objectId := operations.Store(Blob(payload.value, name, contentType, f.id));
      r := WithFileId(f, slot, objectId);
    }
  }

  /** The status and checksum rules at the start of `save`, statement by statement. */
  method ApplyChecksumRules(entity: StoredFile, md5: Md5) returns (e: StoredFile)
    ensures e == ChecksumRules(entity, md5)
  {
    e := entity;
    if e.content.Some? && |e.content.value| > 0 {
      if e.id.None? {
        e := e.(pdfConvertStatus := Some(NotConverted));
      }
      if e.md5Content.None? {
        e := e.(md5Content := Some(md5(e.content.value)));
      } else {
        var digest := md5(e.content.value);
        var contentChanged := e.md5Content.value == digest;
        if contentChanged {
          e := e.(pdfConvertStatus := Some(NotConverted), pdfContent := None, md5Content := Some(digest));
        }
      }
    } else {
      e := e.(pdfConvertStatus := Some(NotNeeded), pdfContent := None, md5Content := None);
    }
  }

  /**
   * The rest of `save`. Spring Data hands back the instance it saved, with its id set, so
   * the file ids are written into the saved record and that record is saved a second time.
   */
  method PersistRecord(repository: Repository, operations: GridFs, e: StoredFile) returns (saved: StoredFile)
    modifies repository, operations
    ensures var p := Persist(old(StateOf(repository, operations)), e);
      && StateOf(repository, operations) == p.stores
      && saved == p.record
      && repository.writes == old(repository.writes) + p.writes
    ensures old(repository.Valid()) ==> repository.Valid()
  {
    var content, originalContent, pdfContent := e.content, e.orginalContent, e.pdfContent;
    var stripped := e.(content := None, orginalContent := None, pdfContent := None);
    var savedEntity := repository.Save(stripped);

    var f := savedEntity;
    f := StorePayload(operations, f, ContentSlot, content, ContentName(savedEntity.id, e.filename), e.mimeType);
    f := StorePayload(operations, f, OriginalSlot, originalContent, OriginalName(savedEntity.id, e.filename), e.mimeType);
    f := StorePayload(operations, f, PdfSlot, pdfContent, PdfName(savedEntity.id, e.filename), "application/pdf");

    saved := repository.Save(f);
  }

  /** `save(entity)`: EntityNotFoundException for null, otherwise the rules and then the writes. */
  method Save(repository: Repository, operations: GridFs, entity: Option<StoredFile>, md5: Md5)
    returns (r: Result<StoredFile, Error>)
    modifies repository, operations
    ensures SaveOutcome(old(StateOf(repository, operations)), old(repository.writes),
                        StateOf(repository, operations), repository.writes, entity, md5, r)
    ensures old(repository.Valid()) ==> repository.Valid()
  {
    if entity.None? {
      return Failure(EntityNotFound);
    }
    var e := ApplyChecksumRules(entity.value, md5);
    var savedEntity := PersistRecord(repository, operations, e);
    r := Success(savedEntity);
  }

  /**
   * `delete(id)` of the service and `on(StoredFileDeletedEvent)` of the handler: the
   * record's GridFS objects, then the record (`delete(entity)` and `deleteById(id)` remove
   * the same document, the one stored under `id`).
   */
  method Delete(repository: Repository, operations: GridFs, id: Option<Id>) returns (err: Option<Error>)
    modifies repository, operations
    ensures DeleteOutcome(old(StateOf(repository, operations)), StateOf(repository, operations), id, err)
    ensures repository.writes == old(repository.writes)
    ensures old(repository.Valid()) ==> repository.Valid()
  {
    if id.None? {
      return Some(EntityNotFound);
    }
    var found := repository.FindById(id.value);
    if found.None? {
      return Some(EntityNotFound);
    }
    var entity := found.value;
    if entity.contentFileId.Some? {
      operations.Delete(entity.contentFileId.value);
    }
    if entity.originalContentFileId.Some? {
      operations.Delete(entity.originalContentFileId.value);
    }
    if entity.pdfContentFileId.Some? {
      operations.Delete(entity.pdfContentFileId.value);
    }
    repository.Delete(id.value);
    err := None;
    assert operations.files.blobs == old(operations.files.blobs) - ReferencedBlobs(entity) by {
      assert FileIdOf(entity, ContentSlot) == entity.contentFileId;
      assert FileIdOf(entity, OriginalSlot) == entity.originalContentFileId;
      assert FileIdOf(entity, PdfSlot) == entity.pdfContentFileId;
    }
  }

  /**
   * `if (fileId != null) { file = operations.findOne(...); if (file != null) try setX(readAllBytes) }`:
   * a missing object or a failing read only logs.
   */
  method LoadPayload(operations: GridFs, f: StoredFile, slot: Slot, unreadable: set<FileId>) returns (r: StoredFile)
    ensures r == LoadSlot(operations.files, f, slot, unreadable)
  {
    r := f;
    var fid := FileIdOf(f, slot);
    if fid.Some? {
      var file := operations.FindOne(fid);
      if file.Some? {
        var bytes := operations.ReadAllBytes(fid.value, file.value, unreadable);
        if bytes.Some? {
          r := WithPayload(f, slot, bytes.value);
        }
      }
    }
  }

  /** `getById(id)`: null when unknown, otherwise the record with its three payloads read. */
  method GetById(repository: Repository, operations: GridFs, id: Id, unreadable: set<FileId>)
    returns (r: Option<StoredFile>)
    ensures r == LoadFull(StateOf(repository, operations), id, unreadable)
  {
    var storedFile := repository.FindById(id);
    if storedFile.None? {
      return None;
    }
    var f := storedFile.value;
    f := LoadPayload(operations, f, ContentSlot, unreadable);
    f := LoadPayload(operations, f, OriginalSlot, unreadable);
    f := LoadPayload(operations, f, PdfSlot, unreadable);
    r := Some(f);
  }

  /** `getByIdNoContent(id)`: null when unknown, otherwise the record with its payloads nulled. */
  method GetByIdNoContent(repository: Repository, id: Id) returns (r: Option<StoredFile>)
    ensures r == LoadNoContent(repository.docs, id)
  {
    var storedFile := repository.FindById(id);
    if storedFile.None? {
      return None;
    }
    var f := storedFile.value;
    f := f.(content := None);
    f := f.(pdfContent := None);
    f := f.(orginalContent := None);
    r := Some(f);
  }

  /** `getByIdPdfContent(id)`: content and original nulled, the PDF read from GridFS. */
  method GetByIdPdfContent(repository: Repository, operations: GridFs, id: Id, unreadable: set<FileId>)
    returns (r: Option<StoredFile>)
    ensures r == LoadPdfOnly(StateOf(repository, operations), id, unreadable)
  {
    var storedFile := repository.FindById(id);
    if storedFile.None? {
      return None;
    }
    var f := storedFile.value;
    f := f.(content := None);
    f := f.(orginalContent := None);
    f := LoadPayload(operations, f, PdfSlot, unreadable);
    r := Some(f);
  }

  /**
   * The conversion half of one turn, once the content was read: `convertToPdf`, then the
   * status, and for a PDF a new GridFS object and its file id.
   */
  method ConvertLoadedRecord(operations: GridFs, libreOffice: string, f: StoredFile, loaded: StoredFile,
                             env: ProcessEnv, gen: Generation) returns (r: Result<StoredFile, Error>)
    modifies operations
    ensures var spec := ConvertLoaded(old(operations.files), f, loaded, env, gen);
      && (r.Failure? <==> spec.Failure?)
      && (r.Failure? ==> r.error == spec.error && operations.files == old(operations.files))
      && (r.Success? ==> operations.files == spec.value.files && r.value == spec.value.record)
  {
    var storedFile := loaded;
    var converted, thrown, command, created, removed :=
      ConvertToPdf(libreOffice, storedFile.id, storedFile.filename, storedFile.mimeType, storedFile.content, env);
    if thrown.Some? {
      return Failure(thrown.value);
    }
    if converted.None? {
      storedFile := storedFile.(pdfConvertStatus := Some(NotSupported));
    } else {
      storedFile := storedFile.(pdfConvertStatus := Some(Converted));
      var payload := if gen == ServiceGeneration then storedFile.pdfContent else converted;
      if payload.None? {
        return Failure(NullPointer);
      }
      var objectId := operations.Store(Blob(payload.value, PdfName(f.id, f.filename), "application/pdf", f.id));
      storedFile := storedFile.(pdfContentFileId := Some(objectId));
    }
    r := Success(storedFile);
  }

  /**
   * The body of the `forEach` in `convertPdfs` for one record. The content is read
   * without checking its file id first (`findOne` matches nothing for a null id).
   */
  method ConvertOne(operations: GridFs, libreOffice: string, f: StoredFile, env: ProcessEnv, md5: Md5,
                    unreadable: set<FileId>, gen: Generation) returns (r: Result<StoredFile, Error>)
    modifies operations
    ensures var spec := ProcessRecord(old(operations.files), f, env, md5, unreadable, gen);
      && (r.Failure? <==> spec.Failure?)
      && (r.Failure? ==> r.error == spec.error && operations.files == old(operations.files))
      && (r.Success? ==> operations.files == spec.value.files && r.value == spec.value.record)
  {
    var storedFile := f;
    if Contains(storedFile.mimeType, "pdf") || StartsWith(storedFile.mimeType, "image") {
      storedFile := storedFile.(pdfConvertStatus := Some(NotNeeded));
    } else {
      var file := operations.FindOne(storedFile.contentFileId);
      if file.Some? {
        var bytes := operations.ReadAllBytes(storedFile.contentFileId.value, file.value, unreadable);
        if bytes.Some? {
          storedFile := storedFile.(content := bytes);
        }
      }
      assert storedFile == LoadSlot(old(operations.files), f, ContentSlot, unreadable);
      var turn := ConvertLoadedRecord(operations, libreOffice, f, storedFile, env, gen);
      if turn.Failure? {
        return Failure(turn.error);
      }
      storedFile := turn.value;
    }
    if storedFile.md5Content.None? && storedFile.content.Some? {
      storedFile := storedFile.(md5Content := Some(md5(storedFile.content.value)));
    }
    r := Success(storedFile);
  }

  /** Once a prefix of the page has thrown, the rest of the page changes nothing. */
  lemma {:induction false} RunBatchStops(files: Files, page: seq<StoredFile>, k: nat, envs: Option<Id> -> ProcessEnv,
                                         md5: Md5, unreadable: set<FileId>, gen: Generation)
    requires k <= |page| && RunBatch(files, page[..k], envs, md5, unreadable, gen).error.Some?
    ensures RunBatch(files, page, envs, md5, unreadable, gen) == RunBatch(files, page[..k], envs, md5, unreadable, gen)
    decreases |page|
  {
    if k < |page| {
      var front := page[..|page| - 1];
      assert front[..k] == page[..k];
      RunBatchStops(files, front, k, envs, md5, unreadable, gen);
    } else {
      assert page[..k] == page;
    }
  }

  /** The batch over one more record of the page: that record's turn after the earlier ones. */
  lemma RunBatchNext(files: Files, page: seq<StoredFile>, i: nat, envs: Option<Id> -> ProcessEnv,
                     md5: Md5, unreadable: set<FileId>, gen: Generation)
    requires i < |page| && RunBatch(files, page[..i], envs, md5, unreadable, gen).error.None?
    ensures var prev := RunBatch(files, page[..i], envs, md5, unreadable, gen);
      var r := ProcessRecord(prev.files, page[i], envs(page[i].id), md5, unreadable, gen);
      RunBatch(files, page[..i + 1], envs, md5, unreadable, gen) ==
        if r.Failure? then prev.(error := Some(r.error)) else Batch(r.value.files, prev.done + [r.value.record], None)
  {
    assert page[..i + 1][..i] == page[..i];
  }

  /** The `forEach` over the page: each record's turn in order, until one throws. */
  method ConvertPage(operations: GridFs, libreOffice: string, page: seq<StoredFile>,
                     envs: Option<Id> -> ProcessEnv, md5: Md5, unreadable: set<FileId>, gen: Generation)
    returns (b: Batch)
    modifies operations
    ensures b == RunBatch(old(operations.files), page, envs, md5, unreadable, gen)
    ensures operations.files == b.files
  {
    var done: seq<StoredFile> := [];
    var i := 0;
    while i < |page|
      invariant 0 <= i <= |page|
      invariant RunBatch(old(operations.files), page[..i], envs, md5, unreadable, gen) == Batch(operations.files, done, None)
    {
      RunBatchNext(old(operations.files), page, i, envs, md5, unreadable, gen);
      var r := ConvertOne(operations, libreOffice, page[i], envs(page[i].id), md5, unreadable, gen);
      if r.Failure? {
        RunBatchStops(old(operations.files), page, i + 1, envs, md5, unreadable, gen);
        return Batch(operations.files, done, Some(r.error));
      }
      done := done + [r.value];
      i := i + 1;
    }
    assert page[..i] == page;
    b := Batch(operations.files, done, None);
  }

  /**
   * One run of the scheduled `convertPdfs`: the first page of 100 NOT_CONVERTED records,
   * each handled in turn, then `saveAll`; an exception from a turn ends the run before
   * `saveAll`. Returns the page it read and the exception that escaped.
   */
  method ConvertPdfs(repository: Repository, operations: GridFs, libreOffice: string,
                     envs: Option<Id> -> ProcessEnv, md5: Md5, unreadable: set<FileId>, gen: Generation)
    returns (page: seq<StoredFile>, err: Option<Error>)
    requires repository.Valid()
    modifies repository, operations
    ensures IsFirstPage(old(repository.docs), NotConverted, PageSize, page)
    ensures TickResult(StateOf(repository, operations), err) ==
            Tick(old(StateOf(repository, operations)), page, envs, md5, unreadable, gen)
    ensures repository.Valid()
  {
    page := repository.FindByPdfConvertStatus(NotConverted, PageSize);
    var batch := ConvertPage(operations, libreOffice, page, envs, md5, unreadable, gen);
    if batch.error.Some? {
      return page, batch.error;
    }
    repository.SaveAll(batch.done);
    err := None;
  }

  /** Migrating one more record: `save` of that record after the earlier ones. */
  lemma MigrateNext(s: Stores, all: seq<StoredFile>, i: nat, md5: Md5)
    requires i < |all|
    ensures Migrate(s, all[..i + 1], md5) == Persist(Migrate(s, all[..i], md5), ChecksumRules(all[i], md5)).stores
  {
    assert all[..i + 1][..i] == all[..i] && all[..i + 1][i] == all[i];
  }

  /** `migrateGridFS`: `save` of every record `findAll()` returns, in that order. */
  method MigrateGridFs(repository: Repository, operations: GridFs, md5: Md5) returns (all: seq<StoredFile>)
    requires repository.Valid()
    modifies repository, operations
    ensures IsAll(old(repository.docs), all)
    ensures StateOf(repository, operations) == Migrate(old(StateOf(repository, operations)), all, md5)
    ensures repository.Valid()
  {
    all := repository.FindAll();
    ghost var s0 := StateOf(repository, operations);
    var i := 0;
    while i < |all|
      invariant 0 <= i <= |all|
      invariant StateOf(repository, operations) == Migrate(s0, all[..i], md5)
      invariant repository.Valid()
    {
      MigrateNext(s0, all, i, md5);
      var saved := Save(repository, operations, Some(all[i]), md5);
      i := i + 1;
    }
    assert all[..i] == all;
  }
}
