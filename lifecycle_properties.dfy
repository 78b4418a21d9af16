/**
 * What the lifecycle functions guarantee, and what they do not: the checksum rules
 * as written and as intended, what `save` writes where, what `delete` removes, how
 * the getters relate, what one run of `convertPdfs` does to its page, and what
 * `migrateGridFS` does to records without payloads.
 */
module LifecycleProperties {
  import opened Wrappers
  import opened Domain
  import opened Text
  import opened Persistence
  import opened PdfConverter
  import opened Lifecycle

  // ---------------------------------------------------------------- checksum rules

  /** A record saved without an id and with content is queued for conversion with its digest. */
  lemma NewContentIsQueued(e: StoredFile, md5: Md5)
    requires HasContent(e) && e.id.None?
    ensures ChecksumRules(e, md5).pdfConvertStatus == Some(NotConverted)
    ensures ChecksumRules(e, md5).md5Content.Some?
  {
  }

  /**
   * A record with content and no digest gets the content's digest and keeps its PDF
   * payload, whatever its id; only a record without an id is queued. A known record
   * keeps the status it came with, so a record that always carries an id (the CQRS
   * entities draw one in their constructor) is never queued this way.
   */
  lemma MissingDigestIsFilled(e: StoredFile, md5: Md5)
    requires HasContent(e) && e.md5Content.None?
    ensures var r := ChecksumRules(e, md5);
      && r.md5Content == Some(md5(e.content.value))
      && r.pdfContent == e.pdfContent
      && (e.id.None? ==> r.pdfConvertStatus == Some(NotConverted))
      && (e.id.Some? ==> r.pdfConvertStatus == e.pdfConvertStatus)
  {
  }

  /** A record saved without content (null or empty) needs no conversion and keeps no PDF or digest. */
  lemma NoContentNeedsNoPdf(e: StoredFile, md5: Md5)
    requires !HasContent(e)
    ensures var r := ChecksumRules(e, md5);
      r.pdfConvertStatus == Some(NotNeeded) && r.pdfContent.None? && r.md5Content.None?
  {
  }

  /**
   * As written, saving a known record again with the SAME content (its stored digest
   * matches) drops its PDF and queues it for conversion again.
   */
  lemma SameContentIsRequeued(e: StoredFile, md5: Md5)
    requires HasContent(e) && e.id.Some? && e.md5Content == Some(md5(e.content.value))
    ensures ChecksumRules(e, md5).pdfConvertStatus == Some(NotConverted)
    ensures ChecksumRules(e, md5).pdfContent.None?
  {
  }

  /**
   * As written, saving a known record with DIFFERENT content (its stored digest does not
   * match) changes nothing: the status, the old PDF and the stale digest all stay.
   */
  lemma ChangedContentIsNotRequeued(e: StoredFile, md5: Md5)
    requires HasContent(e) && e.id.Some? && e.md5Content.Some? && e.md5Content.value != md5(e.content.value)
    ensures ChecksumRules(e, md5) == e
  {
  }

  /**
   * With the intended comparison, a known record with content and a digest is re-queued
   * exactly when its content changed, and its digest always ends up the content's.
   */
  lemma IntendedRequeuesExactlyOnChange(e: StoredFile, md5: Md5)
    requires HasContent(e) && e.id.Some? && e.md5Content.Some?
    requires e.pdfConvertStatus != Some(NotConverted)
    ensures var r := IntendedChecksumRules(e, md5);
      && (r.pdfConvertStatus == Some(NotConverted) <==> e.md5Content.value != md5(e.content.value))
      && r.md5Content == Some(md5(e.content.value))
      && (e.md5Content.value == md5(e.content.value) ==> r == e)
  {
  }

  /** Both rule sets agree whenever no digest is compared. */
  lemma RulesAgreeWithoutComparison(e: StoredFile, md5: Md5)
    requires !HasContent(e) || e.md5Content.None?
    ensures ChecksumRules(e, md5) == IntendedChecksumRules(e, md5)
  {
  }

  // ---------------------------------------------------------------- save

  /** The GridFS file name `save` gives each slot. */
  function BlobName(slot: Slot, id: Option<Id>, filename: string): string {
    match slot
    case ContentSlot => ContentName(id, filename)
    case OriginalSlot => OriginalName(id, filename)
    case PdfSlot => PdfName(id, filename)
  }

  /** The content type `save` gives each slot. */
  function BlobType(slot: Slot, mimeType: string): string {
    if slot == PdfSlot then "application/pdf" else mimeType
  }

  /**
   * The three GridFS writes: each non-null payload goes to a new object named after the
   * record, and the slot's file id points to it; a null payload leaves its file id as it
   * was; no object is deleted or overwritten; nothing but file ids changes in the record.
   */
  lemma {:induction false} StorePayloadsFacts(files: Files, saved: StoredFile, e: StoredFile)
    requires FilesValid(files)
    ensures var r := StorePayloads(files, saved, e);
      && Extends(r.0, files) && FilesValid(r.0)
      && r.1.(contentFileId := saved.contentFileId, originalContentFileId := saved.originalContentFileId,
              pdfContentFileId := saved.pdfContentFileId) == saved
      && (forall slot :: PayloadOf(e, slot).None? ==> FileIdOf(r.1, slot) == FileIdOf(saved, slot))
      && (forall slot :: PayloadOf(e, slot).Some? ==>
            && FileIdOf(r.1, slot).Some?
            && var fid := FileIdOf(r.1, slot).value;
            && files.nextId <= fid < r.0.nextId && fid in r.0.blobs
            && r.0.blobs[fid] == Blob(PayloadOf(e, slot).value, BlobName(slot, saved.id, e.filename),
                                      BlobType(slot, e.mimeType), saved.id))
  {
    var c := StoreSlot(files, saved, ContentSlot, e.content, ContentName(saved.id, e.filename), e.mimeType);
    var o := StoreSlot(c.0, c.1, OriginalSlot, e.orginalContent, OriginalName(saved.id, e.filename), e.mimeType);
    var p := StoreSlot(o.0, o.1, PdfSlot, e.pdfContent, PdfName(saved.id, e.filename), "application/pdf");
    assert StorePayloads(files, saved, e) == p;
    assert files.nextId <= c.0.nextId <= o.0.nextId <= p.0.nextId;
    forall slot | PayloadOf(e, slot).Some?
      ensures FileIdOf(p.1, slot).Some?
      ensures files.nextId <= FileIdOf(p.1, slot).value < p.0.nextId && FileIdOf(p.1, slot).value in p.0.blobs
      ensures p.0.blobs[FileIdOf(p.1, slot).value] ==
        Blob(PayloadOf(e, slot).value, BlobName(slot, saved.id, e.filename), BlobType(slot, e.mimeType), saved.id)
    {
      match slot
      case ContentSlot =>
        assert FileIdOf(p.1, slot) == Some(files.nextId);
      case OriginalSlot =>
        assert FileIdOf(p.1, slot) == Some(c.0.nextId);
      case PdfSlot =>
        assert FileIdOf(p.1, slot) == Some(o.0.nextId);
    }
  }

  /**
   * `Persist` (the body of `save` after the rules): the record is stored under its own
   * id (a fresh one when it had none) with no payload; every other record is untouched;
   * each non-null payload goes to a new GridFS object named after the record, which the
   * slot's file id now points to; a null payload leaves its file id as it was; no GridFS
   * object is deleted or overwritten (a replaced one stays behind); nothing else of the
   * record changes; and the repository sees the record first without, then with, the
   * new file ids.
   */
  lemma {:induction false} PersistFacts(s: Stores, e: StoredFile)
    requires WellFormed(s)
    ensures var r := Persist(s, e);
      var id := r.record.id;
      && id.Some?
      && (e.id.Some? ==> id == e.id)
      && (e.id.None? ==> id.value !in s.docs.records)
      && NoPayload(r.record)
      && id.value in r.stores.docs.records && r.stores.docs.records[id.value] == r.record
      && (forall k :: k != id.value ==> (k in r.stores.docs.records <==> k in s.docs.records))
      && (forall k :: k != id.value && k in s.docs.records ==> r.stores.docs.records[k] == s.docs.records[k])
      && Extends(r.stores.files, s.files) && FilesValid(r.stores.files)
      && (forall slot :: PayloadOf(e, slot).None? ==> FileIdOf(r.record, slot) == FileIdOf(e, slot))
      && (forall slot :: PayloadOf(e, slot).Some? ==>
            && FileIdOf(r.record, slot).Some?
            && var fid := FileIdOf(r.record, slot).value;
            && s.files.nextId <= fid && fid !in s.files.blobs && fid in r.stores.files.blobs
            && r.stores.files.blobs[fid] == Blob(PayloadOf(e, slot).value, BlobName(slot, id, e.filename),
                                                 BlobType(slot, e.mimeType), id))
      && r.record.(id := e.id, contentFileId := e.contentFileId, originalContentFileId := e.originalContentFileId,
                   pdfContentFileId := e.pdfContentFileId) == StripPayloads(e)
      && r.writes == [StripPayloads(e).(id := id), r.record]
      && (FileIdsBelow(e, s.files.nextId) ==> WellFormed(r.stores))
  {
    var first := Upsert(s.docs, StripPayloads(e));
    var saved := first.1;
    var p := StorePayloads(s.files, saved, e);
    var second := Upsert(first.0, p.1);
    assert Persist(s, e) == Saved(Stores(second.0, p.0), second.1, [saved, second.1]);
    StorePayloadsFacts(s.files, saved, e);
    assert second.1 == p.1;
    forall slot ensures FileIdOf(saved, slot) == FileIdOf(e, slot) {
    }
    if FileIdsBelow(e, s.files.nextId) {
      forall k | k in second.0.records
        ensures FileIdsBelow(second.0.records[k], p.0.nextId)
      {
        if k != saved.id.value {
          assert second.0.records[k] == s.docs.records[k];
          assert FileIdsBelow(s.docs.records[k], s.files.nextId);
        } else {
          forall slot | FileIdOf(p.1, slot).Some?
            ensures FileIdOf(p.1, slot).value < p.0.nextId
          {
            if PayloadOf(e, slot).None? {
              assert FileIdOf(p.1, slot) == FileIdOf(e, slot);
            }
          }
        }
      }
    }
  }

  /**
   * `save` (the rules, then `Persist`) of a non-null record: the record comes back
   * stored, payload-free, with the rules' status and digest; each payload the rules
   * leave is in a new GridFS object; no GridFS object is lost.
   */
  lemma {:induction false} SaveFacts(s: Stores, e: StoredFile, md5: Md5)
    requires WellFormed(s)
    ensures var r := SaveSpec(s, Some(e), md5);
      var ruled := ChecksumRules(e, md5);
      && r.Success?
      && var o := r.value;
      && o.record.id.Some?
      && o.stores.docs.records[o.record.id.value] == o.record
      && NoPayload(o.record)
      && o.record.pdfConvertStatus == ruled.pdfConvertStatus
      && o.record.md5Content == ruled.md5Content
      && Extends(o.stores.files, s.files)
      && (forall slot :: PayloadOf(ruled, slot).Some? ==>
            FileIdOf(o.record, slot).Some?
            && s.files.nextId <= FileIdOf(o.record, slot).value && FileIdOf(o.record, slot).value !in s.files.blobs
            && FileIdOf(o.record, slot).value in o.stores.files.blobs
            && o.stores.files.blobs[FileIdOf(o.record, slot).value].data == PayloadOf(ruled, slot).value)
      && (FileIdsBelow(e, s.files.nextId) ==> WellFormed(o.stores))
  {
    var ruled := ChecksumRules(e, md5);
    PersistFacts(s, ruled);
    assert FileIdsBelow(e, s.files.nextId) ==> FileIdsBelow(ruled, s.files.nextId) by {
      forall slot ensures FileIdOf(ruled, slot) == FileIdOf(e, slot) {
      }
    }
  }

  /**
   * Saving a record and reading it back with `getById` gives every payload the rules
   * kept (content and original always, the PDF unless it was dropped), as long as only
   * objects older than the save fail to read.
   */
  lemma {:induction false} SaveThenGetById(s: Stores, e: StoredFile, md5: Md5, unreadable: set<FileId>)
    requires WellFormed(s)
    requires forall fid :: fid in unreadable ==> fid < s.files.nextId
    ensures var ruled := ChecksumRules(e, md5);
      var o := SaveSpec(s, Some(e), md5).value;
      var got := LoadFull(o.stores, o.record.id.value, unreadable);
      && got.Some?
      && (forall slot :: PayloadOf(ruled, slot).Some? ==> PayloadOf(got.value, slot) == PayloadOf(ruled, slot))
      && (e.content.Some? ==> got.value.content == e.content)
      && (e.orginalContent.Some? ==> got.value.orginalContent == e.orginalContent)
  {
    var ruled := ChecksumRules(e, md5);
    SaveFacts(s, e, md5);
    var o := SaveSpec(s, Some(e), md5).value;
    var id := o.record.id.value;
    GetByIdReadsEachSlot(o.stores, id, unreadable);
    assert PayloadOf(ruled, ContentSlot) == e.content;
    assert PayloadOf(ruled, OriginalSlot) == e.orginalContent;
  }

  /** `save` on a null record throws EntityNotFoundException. */
  lemma SaveNullFails(s: Stores, md5: Md5)
    ensures SaveSpec(s, None, md5) == Failure(EntityNotFound)
  {
  }

  // ---------------------------------------------------------------- delete

  /**
   * `delete` of a stored record: the record is gone, every other record stays as it was,
   * and exactly the GridFS objects the record referred to are deleted.
   */
  lemma {:induction false} DeleteFacts(s: Stores, id: Id)
    requires WellFormed(s) && id in s.docs.records
    ensures var r := DeleteSpec(s, Some(id));
      var rec := s.docs.records[id];
      && r.Success?
      && id !in r.value.docs.records
      && (forall k :: k != id ==> (k in r.value.docs.records <==> k in s.docs.records))
      && (forall k :: k in r.value.docs.records ==> r.value.docs.records[k] == s.docs.records[k])
      && (forall fid :: fid in r.value.files.blobs <==>
            fid in s.files.blobs && forall slot :: FileIdOf(rec, slot) != Some(fid))
      && (forall fid :: fid in r.value.files.blobs ==> r.value.files.blobs[fid] == s.files.blobs[fid])
      && WellFormed(r.value)
  {
    var r := DeleteSpec(s, Some(id));
    var rec := s.docs.records[id];
    forall fid
      ensures fid in r.value.files.blobs <==> fid in s.files.blobs && forall slot :: FileIdOf(rec, slot) != Some(fid)
    {
      assert fid in ReferencedBlobs(rec) <==> exists slot :: FileIdOf(rec, slot) == Some(fid);
    }
  }

  /**
   * Saving a new record and deleting it again leaves the collection as it was and no
   * GridFS object that was not there before: everything the save wrote is removed.
   */
  lemma {:induction false} SaveThenDelete(s: Stores, e: StoredFile, md5: Md5)
    requires WellFormed(s) && e.id.None?
    ensures var o := SaveSpec(s, Some(e), md5).value;
      var d := DeleteSpec(o.stores, o.record.id);
      && d.Success?
      && d.value.docs.records == s.docs.records
      && d.value.files.blobs.Keys <= s.files.blobs.Keys
  {
    var ruled := ChecksumRules(e, md5);
    assert SaveSpec(s, Some(e), md5) == Success(Persist(s, ruled));
    var o := Persist(s, ruled);
    var id := o.record.id.value;
    assert id !in s.docs.records && o.stores.docs.records == s.docs.records[id := o.record] by {
      PersistFacts(s, ruled);
    }
    UpdateThenRemove(s.docs.records, id, o.record);
    DeleteRemovesNewObjects(s, ruled);
  }

  lemma UpdateThenRemove<K, V>(m: map<K, V>, k: K, v: V)
    requires k !in m
    ensures m[k := v] - {k} == m
  {
  }

  /** Deleting the record `Persist` stored removes every object `Persist` added. */
  lemma {:induction false} DeleteRemovesNewObjects(s: Stores, e: StoredFile)
    requires WellFormed(s)
    ensures var o := Persist(s, e);
      o.record.id.Some? && o.record.id.value in o.stores.docs.records &&
      DeleteSpec(o.stores, o.record.id).value.files.blobs.Keys <= s.files.blobs.Keys
  {
    var o := Persist(s, e);
    assert o.record.id.Some? && o.stores.docs.records[o.record.id.value] == o.record by {
      PersistFacts(s, e);
    }
    var d := DeleteSpec(o.stores, o.record.id);
    forall fid | fid in d.value.files.blobs
      ensures fid in s.files.blobs
    {
      if fid !in s.files.blobs {
        NewObjectHasSlot(s, e, fid);
      }
    }
  }

  /** Every object `Persist` adds is the object of one of the record's non-null payloads. */
  lemma {:induction false} NewObjectHasSlot(s: Stores, e: StoredFile, fid: FileId)
    requires WellFormed(s)
    requires fid in Persist(s, e).stores.files.blobs && fid !in s.files.blobs
    ensures exists slot :: PayloadOf(e, slot).Some? && FileIdOf(Persist(s, e).record, slot) == Some(fid)
    ensures fid in ReferencedBlobs(Persist(s, e).record)
  {
    var first := Upsert(s.docs, StripPayloads(e));
    var saved := first.1;
    var c := StoreSlot(s.files, saved, ContentSlot, e.content, ContentName(saved.id, e.filename), e.mimeType);
    var o := StoreSlot(c.0, c.1, OriginalSlot, e.orginalContent, OriginalName(saved.id, e.filename), e.mimeType);
    var p := StoreSlot(o.0, o.1, PdfSlot, e.pdfContent, PdfName(saved.id, e.filename), "application/pdf");
    assert StorePayloads(s.files, saved, e) == p;
    assert Persist(s, e).record == p.1;
    if fid in c.0.blobs && fid !in s.files.blobs {
      assert PayloadOf(e, ContentSlot).Some? && FileIdOf(p.1, ContentSlot) == Some(fid);
    } else if fid in o.0.blobs && fid !in c.0.blobs {
      assert PayloadOf(e, OriginalSlot).Some? && FileIdOf(p.1, OriginalSlot) == Some(fid);
    } else {
      assert PayloadOf(e, PdfSlot).Some? && FileIdOf(p.1, PdfSlot) == Some(fid);
    }
  }

  /** `delete` of a null or unknown id throws EntityNotFoundException and changes nothing. */
  lemma DeleteUnknownFails(s: Stores, id: Option<Id>)
    requires id.None? || id.value !in s.docs.records
    ensures DeleteSpec(s, id) == Failure(EntityNotFound)
  {
  }

  // ---------------------------------------------------------------- getters

  /**
   * `getById`: null exactly for an unknown id; otherwise the stored record in which each
   * payload whose object exists and reads is replaced by the object's bytes, and every
   * other payload is what the record itself carries.
   */
  lemma {:induction false} GetByIdReadsEachSlot(s: Stores, id: Id, unreadable: set<FileId>)
    ensures LoadFull(s, id, unreadable).None? <==> id !in s.docs.records
    ensures id in s.docs.records ==>
      var stored := s.docs.records[id];
      var got := LoadFull(s, id, unreadable).value;
      && got.(content := stored.content, orginalContent := stored.orginalContent, pdfContent := stored.pdfContent) == stored
      && forall slot :: PayloadOf(got, slot) ==
           var fid := FileIdOf(stored, slot);
           if fid.Some? && fid.value in s.files.blobs && fid.value !in unreadable
           then Some(s.files.blobs[fid.value].data) else PayloadOf(stored, slot)
  {
    if id in s.docs.records {
      var stored := s.docs.records[id];
      var c := LoadSlot(s.files, stored, ContentSlot, unreadable);
      var o := LoadSlot(s.files, c, OriginalSlot, unreadable);
      var got := LoadSlot(s.files, o, PdfSlot, unreadable);
      assert LoadFull(s, id, unreadable) == Some(got);
      forall slot ensures FileIdOf(c, slot) == FileIdOf(stored, slot) && FileIdOf(o, slot) == FileIdOf(stored, slot) {
      }
    }
  }

  /**
   * The three getters read the same record: `getByIdNoContent` is `getById` without
   * payloads, and `getByIdPdfContent` is `getById` without content and original.
   */
  lemma {:induction false} GettersAgree(s: Stores, id: Id, unreadable: set<FileId>)
    ensures LoadNoContent(s.docs, id).None? <==> LoadFull(s, id, unreadable).None?
    ensures LoadPdfOnly(s, id, unreadable).None? <==> LoadFull(s, id, unreadable).None?
    ensures LoadFull(s, id, unreadable).Some? ==>
      && LoadNoContent(s.docs, id).value == StripPayloads(LoadFull(s, id, unreadable).value)
      && LoadPdfOnly(s, id, unreadable).value ==
           LoadFull(s, id, unreadable).value.(content := None, orginalContent := None)
  {
    GetByIdReadsEachSlot(s, id, unreadable);
    if id in s.docs.records {
      var stored := s.docs.records[id];
      var got := LoadFull(s, id, unreadable).value;
      var pdfOnly := LoadPdfOnly(s, id, unreadable).value;
      assert PayloadOf(got, PdfSlot) == PayloadOf(pdfOnly, PdfSlot);
    }
  }
}
