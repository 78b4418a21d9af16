/**
 * What happens to a stored file, as functions over both stores: `save` with its
 * checksum rules and its GridFS writes, `delete`, the three getters, one run of the
 * scheduled `convertPdfs`, and `migrateGridFS`. The service (`ResourceServiceImpl`)
 * and the CQRS event and query handlers are two copies of this code; both are
 * proved against these functions.
 */
module Lifecycle {
  import opened Wrappers
  import opened Domain
  import opened Text
  import opened Persistence
  import opened PdfConverter

  /** The `storedFile` collection and the GridFS bucket together. */
  datatype Stores = Stores(docs: Docs, files: Files)

  /** `DigestUtils.md5Digest`, handed to every operation that computes a checksum. */
  type Md5 = Bytes -> Digest

  /** The file ids of `f` were all allocated before `bound`. */
  predicate FileIdsBelow(f: StoredFile, bound: FileId) {
    forall slot :: FileIdOf(f, slot).Some? ==> FileIdOf(f, slot).value < bound
  }

  /**
   * Records sit under their own ids, and no record refers to a GridFS object id that
   * has not been allocated yet (a fresh object never aliases an old reference).
   */
  predicate WellFormed(s: Stores) {
    && DocsValid(s.docs)
    && FilesValid(s.files)
    && forall k :: k in s.docs.records ==> FileIdsBelow(s.docs.records[k], s.files.nextId)
  }

  /** Non-null, non-empty content: what `save` treats as "has content". */
  predicate HasContent(e: StoredFile) {
    e.content.Some? && |e.content.value| > 0
  }

  // ---------------------------------------------------------------- save

  /**
   * The status and checksum rules at the start of `save`, as written: a new record
   * with content is queued for conversion; a missing digest is filled in; a given
   * digest is compared with the content's, and the record is re-queued (and its PDF
   * dropped) when the two are EQUAL; a record without content needs no conversion
   * and loses its PDF and digest.
   */
  function ChecksumRules(e: StoredFile, md5: Md5): (r: StoredFile)
    ensures r.(pdfConvertStatus := e.pdfConvertStatus, pdfContent := e.pdfContent, md5Content := e.md5Content) == e
  {
    if HasContent(e) then
      var queued := if e.id.None? then e.(pdfConvertStatus := Some(NotConverted)) else e;
      if queued.md5Content.None? then
        queued.(md5Content := Some(md5(e.content.value)))
      else
        var digest := md5(e.content.value);
        var contentChanged := queued.md5Content.value == digest;
        if contentChanged then
          queued.(pdfConvertStatus := Some(NotConverted), pdfContent := None, md5Content := Some(digest))
        else
          queued
    else
      e.(pdfConvertStatus := Some(NotNeeded), pdfContent := None, md5Content := None)
  }

  /** The rules as the variable name `contentChanged` means them: re-queue when the digests DIFFER. */
  function IntendedChecksumRules(e: StoredFile, md5: Md5): (r: StoredFile)
    ensures r.(pdfConvertStatus := e.pdfConvertStatus, pdfContent := e.pdfContent, md5Content := e.md5Content) == e
  {
    if HasContent(e) then
      var queued := if e.id.None? then e.(pdfConvertStatus := Some(NotConverted)) else e;
      if queued.md5Content.None? then
        queued.(md5Content := Some(md5(e.content.value)))
      else
        var digest := md5(e.content.value);
        if queued.md5Content.value != digest then
          queued.(pdfConvertStatus := Some(NotConverted), pdfContent := None, md5Content := Some(digest))
        else
          queued
    else
      e.(pdfConvertStatus := Some(NotNeeded), pdfContent := None, md5Content := None)
  }

  /** The record with its three byte payloads set to null. */
  function StripPayloads(f: StoredFile): (r: StoredFile)
    ensures NoPayload(r)
  {
    f.(content := None, orginalContent := None, pdfContent := None)
  }

  /** GridFS file names: `<id>-<filename>`, `<id>-o-<filename>`, `<id>-<filename with .pdf>`. */
  function ContentName(id: Option<Id>, filename: string): string {
    IdLabel(id) + "-" + filename
  }

  function OriginalName(id: Option<Id>, filename: string): string {
    IdLabel(id) + "-o-" + filename
  }

  function PdfName(id: Option<Id>, filename: string): string {
    IdLabel(id) + "-" + ReplaceExtension(filename, "pdf")
  }

  /**
   * Writes `payload` (when not null) to GridFS with the record's id as
   * `relatedObjectId`, and points the slot's file id at the new object.
   */
  function StoreSlot(files: Files, f: StoredFile, slot: Slot, payload: Option<Bytes>,
                     name: string, contentType: string): (r: (Files, StoredFile))
    ensures payload.None? ==> r == (files, f)
    ensures payload.Some? ==>
      && FileIdOf(r.1, slot) == Some(files.nextId)
      && r.0 == Files(files.blobs[files.nextId := Blob(payload.value, name, contentType, f.id)], files.nextId + 1)
    ensures forall other :: other != slot ==> FileIdOf(r.1, other) == FileIdOf(f, other)
    ensures forall any :: PayloadOf(r.1, any) == PayloadOf(f, any)
    ensures r.1.(contentFileId := f.contentFileId, originalContentFileId := f.originalContentFileId,
                 pdfContentFileId := f.pdfContentFileId) == f
    ensures FilesValid(files) ==> FilesValid(r.0) && Extends(r.0, files)
  {
    if payload.None? then (files, f)
    else
      var stored := StoreBlob(files, Blob(payload.value, name, contentType, f.id));
      (stored.0, WithFileId(f, slot, stored.1))
  }

  /** The three GridFS writes of `save`: content, original, PDF, each only when not null. */
  function StorePayloads(files: Files, saved: StoredFile, e: StoredFile): (r: (Files, StoredFile))
  {
    var c := StoreSlot(files, saved, ContentSlot, e.content, ContentName(saved.id, e.filename), e.mimeType);
    var o := StoreSlot(c.0, c.1, OriginalSlot, e.orginalContent, OriginalName(saved.id, e.filename), e.mimeType);
    StoreSlot(o.0, o.1, PdfSlot, e.pdfContent, PdfName(saved.id, e.filename), "application/pdf")
  }

  /** What `save` leaves behind: both stores, the record it returns, and its two repository writes. */
  datatype Saved = Saved(stores: Stores, record: StoredFile, writes: seq<StoredFile>)

  /**
   * The part of `save` after the rules: take the payloads off the record, save it,
   * store each non-null payload in GridFS, record the new file ids, save it again.
   */
  function Persist(s: Stores, e: StoredFile): (r: Saved)
  {
    var first := Upsert(s.docs, StripPayloads(e));
    var saved := first.1;
    var p := StorePayloads(s.files, saved, e);
    var second := Upsert(first.0, p.1);
    Saved(Stores(second.0, p.0), second.1, [saved, second.1])
  }

  /** `save(entity)`: EntityNotFoundException for null, otherwise the rules and then `Persist`. */
  function SaveSpec(s: Stores, entity: Option<StoredFile>, md5: Md5): (r: Result<Saved, Error>)
    ensures r.Failure? <==> entity.None?
    ensures r.Failure? ==> r.error == EntityNotFound
  {
    if entity.None? then Failure(EntityNotFound)
    else Success(Persist(s, ChecksumRules(entity.value, md5)))
  }

  // ---------------------------------------------------------------- delete

  /** The GridFS objects a record refers to. */
  function ReferencedBlobs(f: StoredFile): (r: set<FileId>)
    ensures forall fid :: fid in r <==> exists slot :: FileIdOf(f, slot) == Some(fid)
  {
    assert FileIdOf(f, ContentSlot) == f.contentFileId;
    assert FileIdOf(f, OriginalSlot) == f.originalContentFileId;
    assert FileIdOf(f, PdfSlot) == f.pdfContentFileId;
    (if f.contentFileId.Some? then {f.contentFileId.value} else {})
    + (if f.originalContentFileId.Some? then {f.originalContentFileId.value} else {})
    + (if f.pdfContentFileId.Some? then {f.pdfContentFileId.value} else {})
  }

  /**
   * `delete(id)` / `on(StoredFileDeletedEvent)`: EntityNotFoundException for a null or
   * unknown id; otherwise the record's GridFS objects and then the record are deleted.
   */
  function DeleteSpec(s: Stores, id: Option<Id>): (r: Result<Stores, Error>)
    ensures r.Failure? <==> id.None? || id.value !in s.docs.records
    ensures r.Failure? ==> r.error == EntityNotFound
  {
    if id.None? || id.value !in s.docs.records then Failure(EntityNotFound)
    else
      var e := s.docs.records[id.value];
      Success(Stores(s.docs.(records := s.docs.records - {id.value}),
                     s.files.(blobs := s.files.blobs - ReferencedBlobs(e))))
  }

  // ---------------------------------------------------------------- getters

  function WithPayload(f: StoredFile, slot: Slot, data: Bytes): (r: StoredFile)
    ensures PayloadOf(r, slot) == Some(data)
    ensures forall other :: other != slot ==> PayloadOf(r, other) == PayloadOf(f, other)
    ensures r.(content := f.content, orginalContent := f.orginalContent, pdfContent := f.pdfContent) == f
  {
    match slot
    case ContentSlot => f.(content := Some(data))
    case OriginalSlot => f.(orginalContent := Some(data))
    case PdfSlot => f.(pdfContent := Some(data))
  }

  /**
   * Reads one payload from GridFS: when the slot's file id is set, the object exists
   * and reading it does not fail, the payload becomes its bytes; otherwise the
   * record is left as it is (the failure is only logged).
   */
  function LoadSlot(files: Files, f: StoredFile, slot: Slot, unreadable: set<FileId>): (r: StoredFile)
    ensures var fid := FileIdOf(f, slot);
      PayloadOf(r, slot) ==
        if fid.Some? && fid.value in files.blobs && fid.value !in unreadable
        then Some(files.blobs[fid.value].data) else PayloadOf(f, slot)
    ensures forall other :: other != slot ==> PayloadOf(r, other) == PayloadOf(f, other)
    ensures r.(content := f.content, orginalContent := f.orginalContent, pdfContent := f.pdfContent) == f
  {
    var fid := FileIdOf(f, slot);
    if fid.Some? && fid.value in files.blobs && fid.value !in unreadable
    then WithPayload(f, slot, files.blobs[fid.value].data)
    else f
  }

  /** `getById`: the stored record with all three payloads read from GridFS; null when unknown. */
  function LoadFull(s: Stores, id: Id, unreadable: set<FileId>): Option<StoredFile> {
    if id !in s.docs.records then None
    else
      var stored := s.docs.records[id];
      var c := LoadSlot(s.files, stored, ContentSlot, unreadable);
      var o := LoadSlot(s.files, c, OriginalSlot, unreadable);
      Some(LoadSlot(s.files, o, PdfSlot, unreadable))
  }

  /** `getByIdNoContent`: the stored record with its payloads set to null; null when unknown. */
  function LoadNoContent(d: Docs, id: Id): Option<StoredFile> {
    if id !in d.records then None else Some(StripPayloads(d.records[id]))
  }

  /** `getByIdPdfContent`: content and original set to null, the PDF read from GridFS. */
  function LoadPdfOnly(s: Stores, id: Id, unreadable: set<FileId>): Option<StoredFile> {
    if id !in s.docs.records then None
    else
      var stored := s.docs.records[id];
      Some(LoadSlot(s.files, stored.(content := None, orginalContent := None), PdfSlot, unreadable))
  }

  // ---------------------------------------------------------------- convertPdfs

  /** Records per run: `PageRequest.of(0, 100)`. */
  const PageSize: nat := 100

  /**
   * The two copies of the batch differ in one expression: the service stores
   * `storedFile.getPdfContent()` where the event handler stores `converted`.
   */
  datatype Generation = ServiceGeneration | HandlerGeneration

  /** The GridFS bucket and one record after the record's turn in the batch. */
  datatype Step = Step(files: Files, record: StoredFile)

  /** The end of each turn: a null digest is computed from non-null content. */
  function BackfillMd5(f: StoredFile, md5: Md5): (r: StoredFile)
    ensures f.md5Content.None? && f.content.Some? ==> r == f.(md5Content := Some(md5(f.content.value)))
    ensures !(f.md5Content.None? && f.content.Some?) ==> r == f
  {
    if f.md5Content.None? && f.content.Some? then f.(md5Content := Some(md5(f.content.value))) else f
  }

  /**
   * The turn of a record that needs conversion, once its content was read into `loaded`:
   * a failed LibreOffice run whose log overflows the cut throws out of `convertToPdf`; no
   * PDF means NOT_SUPPORTED; a PDF means CONVERTED and a new GridFS object (whose payload
   * is null for the service when the record carries no PDF: a NullPointerException).
   */
  function ConvertLoaded(files: Files, f: StoredFile, loaded: StoredFile, env: ProcessEnv,
                         gen: Generation): Result<Step, Error>
  {
    var converted := Conversion(loaded.content, loaded.mimeType, env);
    if ConversionThrows(loaded.content, loaded.mimeType, env) then Failure(StringIndexOutOfBounds)
    else if converted.None? then
      Success(Step(files, loaded.(pdfConvertStatus := Some(NotSupported))))
    else
      var marked := loaded.(pdfConvertStatus := Some(Converted));
      var payload := if gen == ServiceGeneration then marked.pdfContent else converted;
      if payload.None? then Failure(NullPointer)
      else
        var stored := StoreBlob(files, Blob(payload.value, PdfName(f.id, f.filename), "application/pdf", f.id));
        Success(Step(stored.0, WithFileId(marked, PdfSlot, stored.1)))
  }

  /**
   * One record's turn: PDFs and images need no conversion; anything else has its
   * content read from GridFS and converted; a turn that does not throw fills in a
   * missing digest.
   */
  function ProcessRecord(files: Files, f: StoredFile, env: ProcessEnv, md5: Md5,
                         unreadable: set<FileId>, gen: Generation): Result<Step, Error>
  {
    var handled :=
      if SkipsConversion(f.mimeType) then
        Success(Step(files, f.(pdfConvertStatus := Some(NotNeeded))))
      else
        ConvertLoaded(files, f, LoadSlot(files, f, ContentSlot, unreadable), env, gen);
    match handled
    case Failure(err) => Failure(err)
    case Success(step) => Success(step.(record := BackfillMd5(step.record, md5)))
  }

  /** The batch after some records: the bucket, the records handled, and the exception if one escaped. */
  datatype Batch = Batch(files: Files, done: seq<StoredFile>, error: Option<Error>)

  /** The `forEach` over the page; an exception ends it. */
  function RunBatch(files: Files, page: seq<StoredFile>, envs: Option<Id> -> ProcessEnv, md5: Md5,
                    unreadable: set<FileId>, gen: Generation): (b: Batch)
    ensures b.error.None? ==> |b.done| == |page|
    ensures |b.done| <= |page|
  {
    if |page| == 0 then Batch(files, [], None)
    else
      var prev := RunBatch(files, page[..|page| - 1], envs, md5, unreadable, gen);
      if prev.error.Some? then prev
      else
        var f := page[|page| - 1];
        match ProcessRecord(prev.files, f, envs(f.id), md5, unreadable, gen)
        case Failure(err) => prev.(error := Some(err))
        case Success(step) => Batch(step.files, prev.done + [step.record], None)
  }

  /** A run of `convertPdfs`: the stores afterwards and the exception that escaped, if any. */
  datatype TickResult = TickResult(stores: Stores, error: Option<Error>)

  /**
   * One run of `convertPdfs` over `page`, the first page of NOT_CONVERTED records:
   * the batch, then `saveAll` of the handled records unless an exception ended it.
   */
  function Tick(s: Stores, page: seq<StoredFile>, envs: Option<Id> -> ProcessEnv, md5: Md5,
                unreadable: set<FileId>, gen: Generation): (r: TickResult)
    ensures r.error.Some? ==> r.stores.docs == s.docs
  {
    var b := RunBatch(s.files, page, envs, md5, unreadable, gen);
    if b.error.Some? then TickResult(Stores(s.docs, b.files), b.error)
    else TickResult(Stores(UpsertAll(s.docs, b.done), b.files), None)
  }

  // ---------------------------------------------------------------- migrateGridFS

  /** `migrateGridFS`: `save` of every record of `findAll()`, in that order. */
  function Migrate(s: Stores, all: seq<StoredFile>, md5: Md5): Stores {
    if |all| == 0 then s
    else Persist(Migrate(s, all[..|all| - 1], md5), ChecksumRules(all[|all| - 1], md5)).stores
  }
}
