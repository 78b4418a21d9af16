/**
 * What one run of the scheduled `convertPdfs` does, and what `migrateGridFS` does:
 * every record of the page ends NOT_NEEDED, CONVERTED or NOT_SUPPORTED, by its mime
 * type and what LibreOffice produced; the rest of the collection is untouched; the
 * content read from GridFS is written into the collection; and the service's copy
 * either stores a stale PDF or throws.
 */
module BatchProperties {
  import opened Wrappers
  import opened Domain
  import opened Text
  import opened Persistence
  import opened PdfConverter
  import opened Lifecycle

  /** The record as its turn sees it after reading its content (types that skip conversion read nothing). */
  function Loaded(f0: Files, p: StoredFile, unreadable: set<FileId>): StoredFile {
    if SkipsConversion(p.mimeType) then p else LoadSlot(f0, p, ContentSlot, unreadable)
  }

  /** The status a page record ends with: by mime type, then by whether a PDF came out. */
  function ExpectedStatus(f0: Files, p: StoredFile, env: ProcessEnv, unreadable: set<FileId>): PdfConvert {
    if SkipsConversion(p.mimeType) then NotNeeded
    else if Conversion(Loaded(f0, p, unreadable).content, p.mimeType, env).Some? then Converted
    else NotSupported
  }

  /** The bytes the turn writes as the PDF: the record's own PDF payload in the service, the converted bytes in the handler. */
  function PdfPayload(f0: Files, p: StoredFile, env: ProcessEnv, unreadable: set<FileId>, gen: Generation): Option<Bytes> {
    if gen == ServiceGeneration then p.pdfContent
    else Conversion(Loaded(f0, p, unreadable).content, p.mimeType, env)
  }

  /** The service's turn throws: a PDF came out but the record carries no PDF payload to store. */
  predicate ThrowsNullPointer(f0: Files, p: StoredFile, env: ProcessEnv, unreadable: set<FileId>, gen: Generation) {
    ExpectedStatus(f0, p, env, unreadable) == Converted && PdfPayload(f0, p, env, unreadable, gen).None?
  }

  /** The turn throws out of `convertToPdf`: LibreOffice failed and its log overflows the cut. */
  predicate LogThrows(f0: Files, p: StoredFile, env: ProcessEnv, unreadable: set<FileId>) {
    !SkipsConversion(p.mimeType) && ConversionThrows(Loaded(f0, p, unreadable).content, p.mimeType, env)
  }

  /** The turn of `p` throws, one way or the other. */
  predicate TurnThrows(f0: Files, p: StoredFile, env: ProcessEnv, unreadable: set<FileId>, gen: Generation) {
    LogThrows(f0, p, env, unreadable) || ThrowsNullPointer(f0, p, env, unreadable, gen)
  }

  /** The exception a throwing turn lets escape. */
  function TurnError(f0: Files, p: StoredFile, env: ProcessEnv, unreadable: set<FileId>): Error {
    if LogThrows(f0, p, env, unreadable) then StringIndexOutOfBounds else NullPointer
  }

  /**
   * `q` is what page record `p` becomes: the loaded record with the expected status and
   * the digest back-filled; only a converted record gets a new PDF file id, which names
   * an object of `bucket` holding the turn's PDF payload.
   */
  predicate TurnOutcome(f0: Files, bucket: Files, p: StoredFile, q: StoredFile, env: ProcessEnv, md5: Md5,
                        unreadable: set<FileId>, gen: Generation) {
    var status := ExpectedStatus(f0, p, env, unreadable);
    && q.(pdfContentFileId := p.pdfContentFileId) ==
         BackfillMd5(Loaded(f0, p, unreadable).(pdfConvertStatus := Some(status)), md5)
    && (status != Converted ==> q.pdfContentFileId == p.pdfContentFileId)
    && (status == Converted ==>
          && q.pdfContentFileId.Some? && f0.nextId <= q.pdfContentFileId.value
          && q.pdfContentFileId.value in bucket.blobs
          && PdfPayload(f0, p, env, unreadable, gen).Some?
          && bucket.blobs[q.pdfContentFileId.value] ==
               Blob(PdfPayload(f0, p, env, unreadable, gen).value, PdfName(p.id, p.filename), "application/pdf", p.id))
  }

  /** Reading a slot whose object is older than `f0` gives the same in any extension of `f0`. */
  lemma LoadSlotStable(g: Files, f0: Files, p: StoredFile, slot: Slot, unreadable: set<FileId>)
    requires Extends(g, f0) && FileIdsBelow(p, f0.nextId)
    ensures LoadSlot(g, p, slot, unreadable) == LoadSlot(f0, p, slot, unreadable)
  {
  }

  /**
   * One turn, with the bucket already extended by earlier turns: it throws exactly when
   * the service has no PDF payload to store; otherwise it only adds objects and
   * produces the outcome the bucket before the run determines.
   */
  lemma {:induction false} ProcessRecordFacts(files: Files, f0: Files, p: StoredFile, env: ProcessEnv, md5: Md5,
                                              unreadable: set<FileId>, gen: Generation)
    requires FilesValid(f0) && FilesValid(files) && Extends(files, f0) && FileIdsBelow(p, f0.nextId)
    ensures var r := ProcessRecord(files, p, env, md5, unreadable, gen);
      && (r.Failure? <==> TurnThrows(f0, p, env, unreadable, gen))
      && (r.Failure? ==> r.error == TurnError(f0, p, env, unreadable))
      && (r.Success? ==>
            && Extends(r.value.files, files) && FilesValid(r.value.files)
            && TurnOutcome(f0, r.value.files, p, r.value.record, env, md5, unreadable, gen)
            && FileIdsBelow(r.value.record, r.value.files.nextId))
  {
    LoadSlotStable(files, f0, p, ContentSlot, unreadable);
    var r := ProcessRecord(files, p, env, md5, unreadable, gen);
    if !SkipsConversion(p.mimeType) {
      ConvertLoadedOutcome(files, f0, p, env, md5, unreadable, gen);
    }
    if r.Success? {
      TurnIdsBelow(f0, r.value.files, p, r.value.record, env, md5, unreadable, gen);
    }
  }

  /** The conversion half of a turn, for a record that needs conversion. */
  lemma ConvertLoadedOutcome(files: Files, f0: Files, p: StoredFile, env: ProcessEnv, md5: Md5,
                             unreadable: set<FileId>, gen: Generation)
    requires FilesValid(f0) && FilesValid(files) && Extends(files, f0) && FileIdsBelow(p, f0.nextId)
    requires !SkipsConversion(p.mimeType)
    ensures var c := ConvertLoaded(files, p, Loaded(f0, p, unreadable), env, gen);
      && (c.Failure? <==> TurnThrows(f0, p, env, unreadable, gen))
      && (c.Failure? ==> c.error == TurnError(f0, p, env, unreadable))
      && (c.Success? ==>
            && Extends(c.value.files, files) && FilesValid(c.value.files)
            && TurnOutcome(f0, c.value.files, p, BackfillMd5(c.value.record, md5), env, md5, unreadable, gen))
  {
    var loaded := Loaded(f0, p, unreadable);
    assert loaded.pdfContent == p.pdfContent && loaded.pdfContentFileId == p.pdfContentFileId;
    var c := ConvertLoaded(files, p, loaded, env, gen);
    var converted := Conversion(loaded.content, loaded.mimeType, env);
    if ConversionThrows(loaded.content, loaded.mimeType, env) {
      assert LogThrows(f0, p, env, unreadable);
    } else if converted.None? {
      assert c == Success(Step(files, loaded.(pdfConvertStatus := Some(NotSupported))));
    } else {
      var payload := PdfPayload(f0, p, env, unreadable, gen);
      if payload.Some? {
        ConvertedOutcome(files, f0, p, env, md5, unreadable, gen);
      }
    }
  }

  /** The conversion half of a turn that produces a PDF and has a payload to store. */
  lemma ConvertedOutcome(files: Files, f0: Files, p: StoredFile, env: ProcessEnv, md5: Md5,
                         unreadable: set<FileId>, gen: Generation)
    requires FilesValid(f0) && FilesValid(files) && Extends(files, f0)
    requires !SkipsConversion(p.mimeType)
    requires !ConversionThrows(Loaded(f0, p, unreadable).content, p.mimeType, env)
    requires Conversion(Loaded(f0, p, unreadable).content, p.mimeType, env).Some?
    requires PdfPayload(f0, p, env, unreadable, gen).Some?
    ensures var c := ConvertLoaded(files, p, Loaded(f0, p, unreadable), env, gen);
      && c.Success? && Extends(c.value.files, files) && FilesValid(c.value.files)
      && TurnOutcome(f0, c.value.files, p, BackfillMd5(c.value.record, md5), env, md5, unreadable, gen)
  {
    var loaded := Loaded(f0, p, unreadable);
    var payload := PdfPayload(f0, p, env, unreadable, gen);
    var stored := StoreBlob(files, Blob(payload.value, PdfName(p.id, p.filename), "application/pdf", p.id));
    var marked := loaded.(pdfConvertStatus := Some(Converted));
    assert ConvertLoaded(files, p, loaded, env, gen) == Success(Step(stored.0, WithFileId(marked, PdfSlot, stored.1)));
  }

  /** An outcome refers only to objects allocated in its bucket. */
  lemma TurnIdsBelow(f0: Files, g: Files, p: StoredFile, q: StoredFile, env: ProcessEnv, md5: Md5,
                     unreadable: set<FileId>, gen: Generation)
    requires FilesValid(g) && f0.nextId <= g.nextId && FileIdsBelow(p, f0.nextId)
    requires TurnOutcome(f0, g, p, q, env, md5, unreadable, gen)
    ensures FileIdsBelow(q, g.nextId)
  {
    var l := Loaded(f0, p, unreadable);
    var status := ExpectedStatus(f0, p, env, unreadable);
    assert q.(pdfContentFileId := p.pdfContentFileId) == BackfillMd5(l.(pdfConvertStatus := Some(status)), md5);
    assert q.contentFileId == p.contentFileId && q.originalContentFileId == p.originalContentFileId;
    forall slot | FileIdOf(q, slot).Some?
      ensures FileIdOf(q, slot).value < g.nextId
    {
      if slot != PdfSlot || status != Converted {
        assert FileIdOf(q, slot) == FileIdOf(p, slot);
      }
    }
  }

  /** The record's old file ids all predate `f0`. */
  predicate PageBelow(page: seq<StoredFile>, bound: FileId) {
    forall i :: 0 <= i < |page| ==> FileIdsBelow(page[i], bound)
  }

  /** An outcome recorded against a bucket stays true in any extension of it. */
  lemma TurnOutcomeExtends(f0: Files, g: Files, h: Files, p: StoredFile, q: StoredFile, env: ProcessEnv, md5: Md5,
                           unreadable: set<FileId>, gen: Generation)
    requires TurnOutcome(f0, g, p, q, env, md5, unreadable, gen) && Extends(h, g)
    ensures TurnOutcome(f0, h, p, q, env, md5, unreadable, gen)
  {
  }

  /** The batch only adds objects to the bucket. */
  lemma {:induction false} RunBatchGrows(f0: Files, page: seq<StoredFile>, envs: Option<Id> -> ProcessEnv, md5: Md5,
                                         unreadable: set<FileId>, gen: Generation)
    requires FilesValid(f0) && PageBelow(page, f0.nextId)
    ensures var b := RunBatch(f0, page, envs, md5, unreadable, gen);
      Extends(b.files, f0) && FilesValid(b.files)
    decreases |page|
  {
    if |page| > 0 {
      var front := page[..|page| - 1];
      PageBelowFront(page, f0.nextId);
      RunBatchGrows(f0, front, envs, md5, unreadable, gen);
      var prev := RunBatch(f0, front, envs, md5, unreadable, gen);
      var f := page[|page| - 1];
      if prev.error.None? {
        ProcessRecordFacts(prev.files, f0, f, envs(f.id), md5, unreadable, gen);
      }
    }
  }

  /** No record of the page throws. */
  predicate NoneThrows(f0: Files, page: seq<StoredFile>, envs: Option<Id> -> ProcessEnv, unreadable: set<FileId>,
                       gen: Generation) {
    forall i :: 0 <= i < |page| ==> !TurnThrows(f0, page[i], envs(page[i].id), unreadable, gen)
  }

  /** No record of a page throws exactly when none of the earlier ones does and the last does not. */
  lemma NoneThrowsSnoc(f0: Files, page: seq<StoredFile>, envs: Option<Id> -> ProcessEnv, unreadable: set<FileId>,
                       gen: Generation)
    requires |page| > 0
    ensures var last := page[|page| - 1];
      NoneThrows(f0, page, envs, unreadable, gen) <==>
        NoneThrows(f0, page[..|page| - 1], envs, unreadable, gen)
        && !TurnThrows(f0, last, envs(last.id), unreadable, gen)
  {
    assert forall i :: 0 <= i < |page| - 1 ==> page[..|page| - 1][i] == page[i];
  }

  /** A page below a bound stays below it without its last record. */
  lemma PageBelowFront(page: seq<StoredFile>, bound: FileId)
    requires |page| > 0 && PageBelow(page, bound)
    ensures PageBelow(page[..|page| - 1], bound)
  {
    assert forall i :: 0 <= i < |page| - 1 ==> page[..|page| - 1][i] == page[i];
  }

  /** The exception of the first record of the page whose turn throws, if any. */
  function FirstThrow(f0: Files, page: seq<StoredFile>, envs: Option<Id> -> ProcessEnv, unreadable: set<FileId>,
                      gen: Generation): Option<Error>
  {
    if |page| == 0 then None
    else
      var earlier := FirstThrow(f0, page[..|page| - 1], envs, unreadable, gen);
      var last := page[|page| - 1];
      if earlier.Some? then earlier
      else if TurnThrows(f0, last, envs(last.id), unreadable, gen) then Some(TurnError(f0, last, envs(last.id), unreadable))
      else None
  }

  /**
   * The batch ends early exactly when some record of the page throws, with the exception
   * of the first such record.
   */
  lemma {:induction false} RunBatchThrows(f0: Files, page: seq<StoredFile>, envs: Option<Id> -> ProcessEnv, md5: Md5,
                                          unreadable: set<FileId>, gen: Generation)
    requires FilesValid(f0) && PageBelow(page, f0.nextId)
    ensures var b := RunBatch(f0, page, envs, md5, unreadable, gen);
      && (b.error.None? <==> NoneThrows(f0, page, envs, unreadable, gen))
      && b.error == FirstThrow(f0, page, envs, unreadable, gen)
    decreases |page|
  {
    if |page| > 0 {
      var front := page[..|page| - 1];
      PageBelowFront(page, f0.nextId);
      NoneThrowsSnoc(f0, page, envs, unreadable, gen);
      RunBatchThrows(f0, front, envs, md5, unreadable, gen);
      RunBatchGrows(f0, front, envs, md5, unreadable, gen);
      var prev := RunBatch(f0, front, envs, md5, unreadable, gen);
      var f := page[|page| - 1];
      if prev.error.None? {
        ProcessRecordFacts(prev.files, f0, f, envs(f.id), md5, unreadable, gen);
      }
    }
  }

  /** Each record handled so far has its outcome, recorded against the bucket `b.files`. */
  predicate BatchOutcomes(f0: Files, page: seq<StoredFile>, b: Batch, envs: Option<Id> -> ProcessEnv, md5: Md5,
                          unreadable: set<FileId>, gen: Generation) {
    && |b.done| <= |page|
    && forall i :: 0 <= i < |b.done| ==>
         && TurnOutcome(f0, b.files, page[i], b.done[i], envs(page[i].id), md5, unreadable, gen)
         && FileIdsBelow(b.done[i], b.files.nextId)
  }

  /** The outcomes of a batch over a prefix are outcomes over the whole page. */
  lemma OutcomesPrefix(f0: Files, front: seq<StoredFile>, page: seq<StoredFile>, b: Batch,
                       envs: Option<Id> -> ProcessEnv, md5: Md5, unreadable: set<FileId>, gen: Generation)
    requires BatchOutcomes(f0, front, b, envs, md5, unreadable, gen) && front <= page
    ensures BatchOutcomes(f0, page, b, envs, md5, unreadable, gen)
  {
    assert forall i :: 0 <= i < |front| ==> front[i] == page[i];
  }

  /** One more outcome, recorded against a bucket that extends the earlier one. */
  lemma OutcomesSnoc(f0: Files, front: seq<StoredFile>, f: StoredFile, prev: Batch, step: Step,
                     envs: Option<Id> -> ProcessEnv, md5: Md5, unreadable: set<FileId>, gen: Generation)
    requires BatchOutcomes(f0, front, prev, envs, md5, unreadable, gen) && |prev.done| == |front|
    requires Extends(step.files, prev.files)
    requires TurnOutcome(f0, step.files, f, step.record, envs(f.id), md5, unreadable, gen)
    requires FileIdsBelow(step.record, step.files.nextId)
    ensures BatchOutcomes(f0, front + [f], Batch(step.files, prev.done + [step.record], None), envs, md5, unreadable, gen)
  {
    var page := front + [f];
    var done := prev.done + [step.record];
    forall i | 0 <= i < |done|
      ensures TurnOutcome(f0, step.files, page[i], done[i], envs(page[i].id), md5, unreadable, gen)
      ensures FileIdsBelow(done[i], step.files.nextId)
    {
      if i < |front| {
        assert page[i] == front[i] && done[i] == prev.done[i];
        TurnOutcomeExtends(f0, prev.files, step.files, front[i], prev.done[i], envs(front[i].id), md5, unreadable, gen);
      }
    }
  }

  /** The records the batch handled have the outcomes the bucket before the run determines. */
  lemma {:induction false} RunBatchOutcomes(f0: Files, page: seq<StoredFile>, envs: Option<Id> -> ProcessEnv, md5: Md5,
                                            unreadable: set<FileId>, gen: Generation)
    requires FilesValid(f0) && PageBelow(page, f0.nextId)
    ensures BatchOutcomes(f0, page, RunBatch(f0, page, envs, md5, unreadable, gen), envs, md5, unreadable, gen)
    decreases |page|
  {
    if |page| > 0 {
      var front := page[..|page| - 1];
      var f := page[|page| - 1];
      PageBelowFront(page, f0.nextId);
      RunBatchOutcomes(f0, front, envs, md5, unreadable, gen);
      RunBatchGrows(f0, front, envs, md5, unreadable, gen);
      var prev := RunBatch(f0, front, envs, md5, unreadable, gen);
      if prev.error.None? {
        ProcessRecordFacts(prev.files, f0, f, envs(f.id), md5, unreadable, gen);
        var r := ProcessRecord(prev.files, f, envs(f.id), md5, unreadable, gen);
        if r.Success? {
          OutcomesSnoc(f0, front, f, prev, r.value, envs, md5, unreadable, gen);
          assert front + [f] == page;
        }
      } else {
        OutcomesPrefix(f0, front, page, prev, envs, md5, unreadable, gen);
      }
    }
  }

  /** The ids of the records of a page. */
  function PageIds(page: seq<StoredFile>): set<Id> {
    set i | 0 <= i < |page| && page[i].id.Some? :: page[i].id.value
  }

  /** `saveAll` of records with distinct ids: each is stored under its id, every other record stays. */
  lemma {:induction false} UpsertAllEffect(d: Docs, fs: seq<StoredFile>)
    requires forall i :: 0 <= i < |fs| ==> fs[i].id.Some?
    requires DistinctIds(fs)
    ensures var r := UpsertAll(d, fs);
      && (forall k :: k in r.records <==> k in d.records || k in PageIds(fs))
      && (forall i :: 0 <= i < |fs| ==> r.records[fs[i].id.value] == fs[i])
      && (forall k :: k in d.records && k !in PageIds(fs) ==> r.records[k] == d.records[k])
  {
    if |fs| > 0 {
      var front := fs[..|fs| - 1];
      var last := fs[|fs| - 1];
      assert forall i :: 0 <= i < |front| ==> front[i] == fs[i];
      UpsertAllEffect(d, front);
      assert PageIds(fs) == PageIds(front) + {last.id.value} by {
        forall k | k in PageIds(fs) ensures k in PageIds(front) + {last.id.value} {
          var i :| 0 <= i < |fs| && fs[i].id == Some(k);
          if i < |front| {
            assert front[i].id == Some(k);
          }
        }
      }
    }
  }

  /** What an outcome fixes about the record: id, name, type, content and status. */
  lemma TurnOutcomeFields(f0: Files, g: Files, p: StoredFile, q: StoredFile, env: ProcessEnv, md5: Md5,
                          unreadable: set<FileId>, gen: Generation)
    requires TurnOutcome(f0, g, p, q, env, md5, unreadable, gen)
    ensures q.id == p.id && q.filename == p.filename && q.mimeType == p.mimeType
    ensures q.content == Loaded(f0, p, unreadable).content
    ensures q.pdfConvertStatus == Some(ExpectedStatus(f0, p, env, unreadable))
    ensures q.contentFileId == p.contentFileId && q.originalContentFileId == p.originalContentFileId
    ensures q.md5Content == if p.md5Content.None? && q.content.Some? then Some(md5(q.content.value)) else p.md5Content
  {
    var status := ExpectedStatus(f0, p, env, unreadable);
    var l := Loaded(f0, p, unreadable);
    assert q.(pdfContentFileId := p.pdfContentFileId) == BackfillMd5(l.(pdfConvertStatus := Some(status)), md5);
  }

  /**
   * One run of `convertPdfs` over the first page of NOT_CONVERTED records: GridFS only
   * gains objects; the run throws exactly when some page record throws, and then the
   * collection is unchanged; otherwise the stores stay well formed, no record is added
   * or removed, records off the page are untouched, and each page record is replaced
   * by its outcome.
   */
  lemma {:induction false} TickFacts(s: Stores, page: seq<StoredFile>, envs: Option<Id> -> ProcessEnv, md5: Md5,
                                     unreadable: set<FileId>, gen: Generation)
    requires WellFormed(s) && IsFirstPage(s.docs, NotConverted, PageSize, page)
    ensures var r := Tick(s, page, envs, md5, unreadable, gen);
      && Extends(r.stores.files, s.files)
      && (r.error.None? <==> forall i :: 0 <= i < |page| ==> !TurnThrows(s.files, page[i], envs(page[i].id), unreadable, gen))
      && r.error == FirstThrow(s.files, page, envs, unreadable, gen)
      && (r.error.Some? ==> r.stores.docs == s.docs)
      && (r.error.None? ==>
            && WellFormed(r.stores)
            && r.stores.docs.records.Keys == s.docs.records.Keys
            && (forall k :: k in s.docs.records && k !in PageIds(page) ==> r.stores.docs.records[k] == s.docs.records[k])
            && (forall i :: 0 <= i < |page| ==>
                  TurnOutcome(s.files, r.stores.files, page[i], r.stores.docs.records[page[i].id.value],
                              envs(page[i].id), md5, unreadable, gen)))
  {
    StoredPageBelow(s, page);
    RunBatchGrows(s.files, page, envs, md5, unreadable, gen);
    RunBatchThrows(s.files, page, envs, md5, unreadable, gen);
    if RunBatch(s.files, page, envs, md5, unreadable, gen).error.None? {
      TickSucceeds(s, page, envs, md5, unreadable, gen);
    }
  }

  /** Stored records of well-formed stores refer only to allocated objects. */
  lemma StoredPageBelow(s: Stores, page: seq<StoredFile>)
    requires WellFormed(s) && StoredRecords(s.docs, page)
    ensures PageBelow(page, s.files.nextId)
  {
    forall i | 0 <= i < |page| ensures FileIdsBelow(page[i], s.files.nextId) {
      assert page[i] == s.docs.records[page[i].id.value];
    }
  }

  /** A batch that ran to the end handled every record of the page, keeping its id. */
  lemma DoneKeepsIds(f0: Files, page: seq<StoredFile>, envs: Option<Id> -> ProcessEnv, md5: Md5,
                     unreadable: set<FileId>, gen: Generation)
    requires FilesValid(f0) && PageBelow(page, f0.nextId)
    requires RunBatch(f0, page, envs, md5, unreadable, gen).error.None?
    ensures var done := RunBatch(f0, page, envs, md5, unreadable, gen).done;
      && |done| == |page|
      && (forall i :: 0 <= i < |page| ==> done[i].id == page[i].id)
      && PageIds(done) == PageIds(page)
  {
    RunBatchOutcomes(f0, page, envs, md5, unreadable, gen);
    var b := RunBatch(f0, page, envs, md5, unreadable, gen);
    var done := b.done;
    forall i | 0 <= i < |page|
      ensures done[i].id == page[i].id
    {
      TurnOutcomeFields(f0, b.files, page[i], done[i], envs(page[i].id), md5, unreadable, gen);
    }
    forall k ensures k in PageIds(done) <==> k in PageIds(page) {
      if k in PageIds(page) {
        var i :| 0 <= i < |page| && page[i].id == Some(k);
        assert done[i].id == Some(k);
      }
      if k in PageIds(done) {
        var i :| 0 <= i < |done| && done[i].id == Some(k);
        assert page[i].id == Some(k);
      }
    }
  }

  /** The success half of `TickFacts`: the outcomes are written back over the page records. */
  lemma TickSucceeds(s: Stores, page: seq<StoredFile>, envs: Option<Id> -> ProcessEnv, md5: Md5,
                     unreadable: set<FileId>, gen: Generation)
    requires WellFormed(s) && DistinctIds(page) && StoredRecords(s.docs, page)
    requires RunBatch(s.files, page, envs, md5, unreadable, gen).error.None?
    ensures var r := Tick(s, page, envs, md5, unreadable, gen);
      && WellFormed(r.stores)
      && r.stores.docs.records.Keys == s.docs.records.Keys
      && (forall k :: k in s.docs.records && k !in PageIds(page) ==> r.stores.docs.records[k] == s.docs.records[k])
      && (forall i :: 0 <= i < |page| ==>
            TurnOutcome(s.files, r.stores.files, page[i], r.stores.docs.records[page[i].id.value],
                        envs(page[i].id), md5, unreadable, gen))
  {
    StoredPageBelow(s, page);
    RunBatchGrows(s.files, page, envs, md5, unreadable, gen);
    RunBatchOutcomes(s.files, page, envs, md5, unreadable, gen);
    DoneKeepsIds(s.files, page, envs, md5, unreadable, gen);
    var b := RunBatch(s.files, page, envs, md5, unreadable, gen);
    var done := b.done;
    UpsertAllEffect(s.docs, done);
    var d := UpsertAll(s.docs, done);
    assert forall k :: k in PageIds(page) ==> k in s.docs.records;
    forall k | k in d.records
      ensures FileIdsBelow(d.records[k], b.files.nextId)
    {
      if k in PageIds(page) {
        var i :| 0 <= i < |page| && page[i].id == Some(k);
        assert d.records[k] == done[i];
      } else {
        assert FileIdsBelow(s.docs.records[k], s.files.nextId);
      }
    }
  }

  /** The ids of a page grow by the id of the record appended to it. */
  lemma PageIdsSnoc(page: seq<StoredFile>)
    requires |page| > 0 && page[|page| - 1].id.Some?
    ensures PageIds(page) == PageIds(page[..|page| - 1]) + {page[|page| - 1].id.value}
  {
    var front := page[..|page| - 1];
    forall k | k in PageIds(page) ensures k in PageIds(front) + {page[|page| - 1].id.value} {
      var i :| 0 <= i < |page| && page[i].id == Some(k);
      if i < |front| {
        assert front[i].id == Some(k);
      }
    }
    forall k | k in PageIds(front) ensures k in PageIds(page) {
      var i :| 0 <= i < |front| && front[i].id == Some(k);
      assert page[i].id == Some(k);
    }
  }

  /** A page with distinct ids has as many ids as records. */
  lemma {:induction false} PageIdsCount(page: seq<StoredFile>)
    requires forall i :: 0 <= i < |page| ==> page[i].id.Some?
    requires DistinctIds(page)
    ensures |PageIds(page)| == |page|
  {
    if |page| > 0 {
      var front := page[..|page| - 1];
      var last := page[|page| - 1];
      assert forall i :: 0 <= i < |front| ==> front[i] == page[i];
      PageIdsCount(front);
      PageIdsSnoc(page);
      assert last.id.value !in PageIds(front);
    }
  }

  /**
   * A run that does not throw leaves every page record with its expected status and the
   * content its turn read, and fills in a missing digest from that content.
   */
  lemma {:induction false} TickSettlesPage(s: Stores, page: seq<StoredFile>, envs: Option<Id> -> ProcessEnv, md5: Md5,
                                           unreadable: set<FileId>, gen: Generation, i: nat)
    requires WellFormed(s) && IsFirstPage(s.docs, NotConverted, PageSize, page)
    requires Tick(s, page, envs, md5, unreadable, gen).error.None?
    requires i < |page|
    ensures var after := Tick(s, page, envs, md5, unreadable, gen).stores.docs;
      && page[i].id.value in after.records
      && after.records[page[i].id.value].pdfConvertStatus == Some(ExpectedStatus(s.files, page[i], envs(page[i].id), unreadable))
      && after.records[page[i].id.value].content == Loaded(s.files, page[i], unreadable).content
      && var rec := after.records[page[i].id.value];
         rec.md5Content == if page[i].md5Content.None? && rec.content.Some? then Some(md5(rec.content.value))
                           else page[i].md5Content
  {
    TickFacts(s, page, envs, md5, unreadable, gen);
    var r := Tick(s, page, envs, md5, unreadable, gen);
    TurnOutcomeFields(s.files, r.stores.files, page[i], r.stores.docs.records[page[i].id.value], envs(page[i].id), md5, unreadable, gen);
  }

  /** Whether a record waits as NOT_CONVERTED after a run that does not throw. */
  lemma {:induction false} TickQueueMembership(s: Stores, page: seq<StoredFile>, envs: Option<Id> -> ProcessEnv, md5: Md5,
                                               unreadable: set<FileId>, gen: Generation, k: Id)
    requires WellFormed(s) && IsFirstPage(s.docs, NotConverted, PageSize, page)
    requires Tick(s, page, envs, md5, unreadable, gen).error.None?
    ensures k in Matching(Tick(s, page, envs, md5, unreadable, gen).stores.docs, NotConverted)
            <==> k in Matching(s.docs, NotConverted) && k !in PageIds(page)
  {
    if k in PageIds(page) {
      var i :| 0 <= i < |page| && page[i].id == Some(k);
      TickSettlesPage(s, page, envs, md5, unreadable, gen, i);
    } else {
      TickFacts(s, page, envs, md5, unreadable, gen);
    }
  }

  /** Taking a subset away removes exactly its elements from the count. */
  lemma SubsetDifferenceSize<T>(a: set<T>, b: set<T>)
    requires b <= a
    ensures |a - b| == |a| - |b|
  {
    assert a == (a - b) + b;
  }

  /**
   * A run that does not throw takes its whole page off the queue of NOT_CONVERTED records
   * and nothing else: the queue shrinks by 100, or to nothing when fewer were waiting.
   */
  lemma {:induction false} TickDrainsPage(s: Stores, page: seq<StoredFile>, envs: Option<Id> -> ProcessEnv, md5: Md5,
                                          unreadable: set<FileId>, gen: Generation)
    requires WellFormed(s) && IsFirstPage(s.docs, NotConverted, PageSize, page)
    requires Tick(s, page, envs, md5, unreadable, gen).error.None?
    ensures var after := Tick(s, page, envs, md5, unreadable, gen).stores.docs;
      && Matching(after, NotConverted) == Matching(s.docs, NotConverted) - PageIds(page)
      && |Matching(after, NotConverted)| == |Matching(s.docs, NotConverted)| - Min(PageSize, |Matching(s.docs, NotConverted)|)
  {
    var after := Tick(s, page, envs, md5, unreadable, gen).stores.docs;
    var before := Matching(s.docs, NotConverted);
    forall k ensures k in Matching(after, NotConverted) <==> k in before - PageIds(page) {
      TickQueueMembership(s, page, envs, md5, unreadable, gen, k);
    }
    assert PageIds(page) <= before by {
      forall k | k in PageIds(page) ensures k in before {
        var i :| 0 <= i < |page| && page[i].id == Some(k);
        assert s.docs.records[k] == page[i];
      }
    }
    PageIdsCount(page);
    SubsetDifferenceSize(before, PageIds(page));
  }

  /**
   * A page record that needs conversion but whose content object is missing or fails to
   * read, and that carries no content of its own, ends NOT_SUPPORTED: it is not retried.
   */
  lemma {:induction false} MissingContentIsNotSupported(s: Stores, page: seq<StoredFile>, envs: Option<Id> -> ProcessEnv,
                                                        md5: Md5, unreadable: set<FileId>, gen: Generation, i: nat)
    requires WellFormed(s) && IsFirstPage(s.docs, NotConverted, PageSize, page)
    requires Tick(s, page, envs, md5, unreadable, gen).error.None?
    requires i < |page| && !SkipsConversion(page[i].mimeType) && page[i].content.None?
    requires var fid := page[i].contentFileId; fid.None? || fid.value !in s.files.blobs || fid.value in unreadable
    ensures var after := Tick(s, page, envs, md5, unreadable, gen).stores.docs;
      && page[i].id.value in after.records
      && after.records[page[i].id.value].pdfConvertStatus == Some(NotSupported)
  {
    TickSettlesPage(s, page, envs, md5, unreadable, gen, i);
    assert Loaded(s.files, page[i], unreadable).content.None?;
  }

  /**
   * A page record that needs conversion and whose content object reads is saved back WITH
   * that content: after a run the collection holds the payload `save` had taken off.
   */
  lemma {:induction false} TickPersistsContent(s: Stores, page: seq<StoredFile>, envs: Option<Id> -> ProcessEnv,
                                               md5: Md5, unreadable: set<FileId>, gen: Generation, i: nat)
    requires WellFormed(s) && IsFirstPage(s.docs, NotConverted, PageSize, page)
    requires Tick(s, page, envs, md5, unreadable, gen).error.None?
    requires i < |page| && !SkipsConversion(page[i].mimeType)
    requires var fid := page[i].contentFileId; fid.Some? && fid.value in s.files.blobs && fid.value !in unreadable
    ensures var after := Tick(s, page, envs, md5, unreadable, gen).stores.docs;
      && page[i].id.value in after.records
      && after.records[page[i].id.value].content == Some(s.files.blobs[page[i].contentFileId.value].data)
      && !NoPayload(after.records[page[i].id.value])
  {
    TickSettlesPage(s, page, envs, md5, unreadable, gen, i);
  }

  /** When every throwing turn of the page throws the same exception, that is the one that escapes. */
  lemma {:induction false} FirstThrowIs(f0: Files, page: seq<StoredFile>, envs: Option<Id> -> ProcessEnv,
                                        unreadable: set<FileId>, gen: Generation, e: Error)
    requires forall j :: 0 <= j < |page| && TurnThrows(f0, page[j], envs(page[j].id), unreadable, gen) ==>
               TurnError(f0, page[j], envs(page[j].id), unreadable) == e
    ensures FirstThrow(f0, page, envs, unreadable, gen).Some? ==> FirstThrow(f0, page, envs, unreadable, gen) == Some(e)
  {
    if |page| > 0 {
      var front := page[..|page| - 1];
      assert forall j :: 0 <= j < |front| ==> front[j] == page[j];
      FirstThrowIs(f0, front, envs, unreadable, gen, e);
    }
  }

  /**
   * As written, the service's run throws when a record converts but carries no PDF payload
   * (always the case for a record `save` stored), and then saves nothing: every record of
   * the page stays NOT_CONVERTED. Unless a LibreOffice log overflows first, the exception
   * is a NullPointerException.
   */
  lemma {:induction false} ServiceConvertedWithoutPdfThrows(s: Stores, page: seq<StoredFile>, envs: Option<Id> -> ProcessEnv,
                                                            md5: Md5, unreadable: set<FileId>, i: nat)
    requires WellFormed(s) && IsFirstPage(s.docs, NotConverted, PageSize, page)
    requires i < |page| && page[i].pdfContent.None?
    requires ExpectedStatus(s.files, page[i], envs(page[i].id), unreadable) == Converted
    ensures var r := Tick(s, page, envs, md5, unreadable, ServiceGeneration);
      && r.error.Some? && r.stores.docs == s.docs
      && ((forall j :: 0 <= j < |page| ==> !LogThrows(s.files, page[j], envs(page[j].id), unreadable)) ==>
            r.error == Some(NullPointer))
  {
    TickFacts(s, page, envs, md5, unreadable, ServiceGeneration);
    assert ThrowsNullPointer(s.files, page[i], envs(page[i].id), unreadable, ServiceGeneration);
    if forall j :: 0 <= j < |page| ==> !LogThrows(s.files, page[j], envs(page[j].id), unreadable) {
      FirstThrowIs(s.files, page, envs, unreadable, ServiceGeneration, NullPointer);
    }
  }

  /**
   * As written, when the service's run does not throw, a converted record's new PDF
   * object holds the record's OLD PDF payload, not the bytes LibreOffice produced.
   */
  lemma {:induction false} ServiceStoresStalePdf(s: Stores, page: seq<StoredFile>, envs: Option<Id> -> ProcessEnv,
                                                 md5: Md5, unreadable: set<FileId>, i: nat)
    requires WellFormed(s) && IsFirstPage(s.docs, NotConverted, PageSize, page)
    requires Tick(s, page, envs, md5, unreadable, ServiceGeneration).error.None?
    requires i < |page| && ExpectedStatus(s.files, page[i], envs(page[i].id), unreadable) == Converted
    ensures var r := Tick(s, page, envs, md5, unreadable, ServiceGeneration);
      && page[i].pdfContent.Some?
      && page[i].id.value in r.stores.docs.records
      && var fid := r.stores.docs.records[page[i].id.value].pdfContentFileId;
      && fid.Some? && fid.value in r.stores.files.blobs
      && r.stores.files.blobs[fid.value].data == page[i].pdfContent.value
  {
    TickFacts(s, page, envs, md5, unreadable, ServiceGeneration);
  }

  /**
   * The handler's copy of the run has no NullPointerException: it throws exactly when some
   * LibreOffice log of the page overflows the cut, and then with StringIndexOutOfBoundsException.
   */
  lemma {:induction false} HandlerThrowsOnlyOnLog(s: Stores, page: seq<StoredFile>, envs: Option<Id> -> ProcessEnv,
                                                  md5: Md5, unreadable: set<FileId>)
    requires WellFormed(s) && IsFirstPage(s.docs, NotConverted, PageSize, page)
    ensures var r := Tick(s, page, envs, md5, unreadable, HandlerGeneration);
      && (r.error.None? <==> forall j :: 0 <= j < |page| ==> !LogThrows(s.files, page[j], envs(page[j].id), unreadable))
      && (r.error.Some? ==> r.error == Some(StringIndexOutOfBounds))
  {
    TickFacts(s, page, envs, md5, unreadable, HandlerGeneration);
    assert forall j :: 0 <= j < |page| ==>
      !ThrowsNullPointer(s.files, page[j], envs(page[j].id), unreadable, HandlerGeneration);
    FirstThrowIs(s.files, page, envs, unreadable, HandlerGeneration, StringIndexOutOfBounds);
  }

  /**
   * In the handler's copy, when the run does not throw, a converted record's PDF file id
   * names a new object, `<id>-<filename with .pdf>`, holding exactly the bytes LibreOffice
   * produced.
   */
  lemma {:induction false} HandlerStoresConvertedPdf(s: Stores, page: seq<StoredFile>, envs: Option<Id> -> ProcessEnv,
                                                     md5: Md5, unreadable: set<FileId>, i: nat)
    requires WellFormed(s) && IsFirstPage(s.docs, NotConverted, PageSize, page)
    requires Tick(s, page, envs, md5, unreadable, HandlerGeneration).error.None?
    requires i < |page| && ExpectedStatus(s.files, page[i], envs(page[i].id), unreadable) == Converted
    ensures var r := Tick(s, page, envs, md5, unreadable, HandlerGeneration);
      && page[i].id.value in r.stores.docs.records
      && var fid := r.stores.docs.records[page[i].id.value].pdfContentFileId;
      && fid.Some? && fid.value in r.stores.files.blobs && fid.value !in s.files.blobs
      && r.stores.files.blobs[fid.value] ==
           Blob(envs(page[i].id).output.value, PdfName(page[i].id, page[i].filename), "application/pdf", page[i].id)
  {
    TickFacts(s, page, envs, md5, unreadable, HandlerGeneration);
  }

  // ---------------------------------------------------------------- migrateGridFS

  /** What `save` does to a record without payloads: NOT_NEEDED, no PDF, no digest. */
  function Reset(f: StoredFile): StoredFile {
    f.(pdfConvertStatus := Some(NotNeeded), pdfContent := None, md5Content := None)
  }

  /** `Persist` of a stored record without payloads only rewrites that record; GridFS is untouched. */
  lemma PersistWithoutPayload(s: Stores, e: StoredFile)
    requires NoPayload(e) && e.id.Some? && e.id.value < s.docs.nextId
    ensures Persist(s, e).stores == Stores(s.docs.(records := s.docs.records[e.id.value := e]), s.files)
  {
    assert StripPayloads(e) == e;
  }

  /** One step of the migration on a stored record without payloads. */
  lemma MigrateStep(prev: Stores, last: StoredFile, md5: Md5)
    requires NoPayload(last) && last.id.Some? && last.id.value < prev.docs.nextId
    ensures Persist(prev, ChecksumRules(last, md5)).stores ==
      Stores(prev.docs.(records := prev.docs.records[last.id.value := Reset(last)]), prev.files)
  {
    assert ChecksumRules(last, md5) == Reset(last);
    PersistWithoutPayload(prev, Reset(last));
  }

  /** `m` is `s` with the stored records under `ids` reset and nothing else changed. */
  predicate ResetOnly(m: Stores, s: Stores, ids: set<Id>) {
    && m.files == s.files && m.docs.nextId == s.docs.nextId
    && m.docs.records.Keys == s.docs.records.Keys
    && forall k :: k in s.docs.records ==>
         m.docs.records[k] == if k in ids then Reset(s.docs.records[k]) else s.docs.records[k]
  }

  /** Resetting one more stored record extends `ResetOnly` by its id. */
  lemma ResetOneMore(s: Stores, prev: Stores, ids: set<Id>, last: StoredFile)
    requires ResetOnly(prev, s, ids)
    requires last.id.Some? && last.id.value in s.docs.records && s.docs.records[last.id.value] == last
    requires last.id.value !in ids
    ensures ResetOnly(Stores(prev.docs.(records := prev.docs.records[last.id.value := Reset(last)]), prev.files),
                      s, ids + {last.id.value})
  {
  }

  /**
   * `migrateGridFS` over records without payloads (what `save` leaves behind) writes no
   * GridFS object and resets every record it goes through to NOT_NEEDED with no digest,
   * whatever its status was, keeping its file ids; records it does not reach stay.
   */
  lemma {:induction false} MigrateResetsRecords(s: Stores, all: seq<StoredFile>, md5: Md5)
    requires WellFormed(s) && DistinctIds(all) && StoredRecords(s.docs, all)
    requires forall i :: 0 <= i < |all| ==> NoPayload(all[i])
    ensures ResetOnly(Migrate(s, all, md5), s, PageIds(all))
  {
    if |all| > 0 {
      var front := all[..|all| - 1];
      var last := all[|all| - 1];
      assert DistinctIds(front) && StoredRecords(s.docs, front) && forall i :: 0 <= i < |front| ==> NoPayload(front[i]) by {
        assert forall i :: 0 <= i < |front| ==> front[i] == all[i];
      }
      MigrateResetsRecords(s, front, md5);
      var prev := Migrate(s, front, md5);
      assert last.id.value < prev.docs.nextId;
      MigrateStep(prev, last, md5);
      PageIdsSnoc(all);
      assert last.id.value !in PageIds(front);
      ResetOneMore(s, prev, PageIds(front), last);
    }
  }

  /** After `migrateGridFS` over `findAll()`, every record without payloads is NOT_NEEDED. */
  lemma {:induction false} MigrateAllNotNeeded(s: Stores, all: seq<StoredFile>, md5: Md5)
    requires WellFormed(s) && IsAll(s.docs, all)
    requires forall k :: k in s.docs.records ==> NoPayload(s.docs.records[k])
    ensures var m := Migrate(s, all, md5);
      forall k :: k in m.docs.records ==>
        m.docs.records[k].pdfConvertStatus == Some(NotNeeded) && m.docs.records[k].md5Content.None?
  {
    assert forall i :: 0 <= i < |all| ==> NoPayload(all[i]) by {
      forall i | 0 <= i < |all| ensures NoPayload(all[i]) {
        assert all[i] == s.docs.records[all[i].id.value];
      }
    }
    MigrateResetsRecords(s, all, md5);
    PageIdsCount(all);
    assert PageIds(all) <= s.docs.records.Keys;
    SubsetOfSameSize(PageIds(all), s.docs.records.Keys);
  }

  lemma {:induction false} SubsetOfSameSize<T>(a: set<T>, b: set<T>)
    requires a <= b && |a| == |b|
    ensures a == b
    decreases |a|
  {
    if a != {} {
      var x :| x in a;
      assert b == (b - {x}) + {x};
      assert a == (a - {x}) + {x};
      SubsetOfSameSize(a - {x}, b - {x});
    } else {
      assert |b| == 0;
    }
  }
}
