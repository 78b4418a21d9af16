/**
 * The two stores the core writes to: the `storedFile` collection behind
 * `StoredFileRepository` (Spring Data Mongo) and the GridFS bucket behind
 * `GridFsOperations`. Their contents are values (`Docs`, `Files`); the classes
 * `Repository` and `GridFs` hold them and are the objects the service and the
 * event handler share.
 */
module Persistence {
  import opened Wrappers
  import opened Domain

  /** The records by id, and the id the store hands to the next record saved without one. */
  datatype Docs = Docs(records: map<Id, StoredFile>, nextId: Id)

  /** The GridFS files by object id, and the object id the next `store` allocates. */
  datatype Files = Files(blobs: map<FileId, Blob>, nextId: FileId)

  /** Every record sits under its own id, and every id in use is below the next fresh one. */
  predicate DocsValid(d: Docs) {
    forall k :: k in d.records ==> k < d.nextId && d.records[k].id == Some(k)
  }

  /** Every object id in use is below the next fresh one. */
  predicate FilesValid(f: Files) {
    forall k :: k in f.blobs ==> k < f.nextId
  }

  /**
   * `repository.save(f)`: a record without an id is inserted under a fresh id, which
   * is written back into it; a record with an id replaces whatever was stored there.
   */
  function Upsert(d: Docs, f: StoredFile): (r: (Docs, StoredFile))
    ensures r.1.id.Some? && r.1 == f.(id := r.1.id)
    ensures f.id.Some? ==> r.1 == f
    ensures f.id.None? && DocsValid(d) ==> r.1.id.value !in d.records
    ensures r.0.records == d.records[r.1.id.value := r.1]
    ensures DocsValid(d) ==> DocsValid(r.0)
    ensures d.nextId <= r.0.nextId
  {
    var id := if f.id.Some? then f.id.value else d.nextId;
    var saved := f.(id := Some(id));
    (Docs(d.records[id := saved], if id < d.nextId then d.nextId else id + 1), saved)
  }

  /** `repository.saveAll(fs)`: the records saved one after another, in order. */
  function UpsertAll(d: Docs, fs: seq<StoredFile>): (r: Docs)
    ensures DocsValid(d) ==> DocsValid(r)
  {
    if |fs| == 0 then d else Upsert(UpsertAll(d, fs[..|fs| - 1]), fs[|fs| - 1]).0
  }

  /** `operations.store(...)`: the blob under a fresh object id. */
  function StoreBlob(f: Files, b: Blob): (r: (Files, FileId))
    ensures FilesValid(f) ==> r.1 !in f.blobs
    ensures r.0.blobs == f.blobs[r.1 := b]
    ensures FilesValid(f) ==> FilesValid(r.0)
    ensures f.nextId <= r.1 < r.0.nextId
    ensures FilesValid(f) ==> Extends(r.0, f)
  {
    (Files(f.blobs[f.nextId := b], f.nextId + 1), f.nextId)
  }

  /**
   * `g` is `f` with objects added under fresh ids only: nothing of `f` is deleted or
   * overwritten, and every id below `f.nextId` means in `g` what it meant in `f`.
   */
  predicate Extends(g: Files, f: Files) {
    && f.nextId <= g.nextId
    && (forall k :: k in f.blobs ==> k in g.blobs && g.blobs[k] == f.blobs[k])
    && (forall k :: k in g.blobs && k < f.nextId ==> k in f.blobs)
  }

  /** The records whose conversion status is `status`. */
  function Matching(d: Docs, status: PdfConvert): set<Id> {
    set k | k in d.records && d.records[k].pdfConvertStatus == Some(status)
  }

  function Min(a: nat, b: nat): nat {
    if a < b then a else b
  }

  /** No two entries of `rs` share an id. */
  predicate DistinctIds(rs: seq<StoredFile>) {
    forall i, j :: 0 <= i < j < |rs| ==> rs[i].id != rs[j].id
  }

  /** Every entry of `rs` is a stored record, as stored. */
  predicate StoredRecords(d: Docs, rs: seq<StoredFile>) {
    forall i :: 0 <= i < |rs| ==> rs[i].id.Some? && rs[i].id.value in d.records && d.records[rs[i].id.value] == rs[i]
  }

  /**
   * The content of the first page of `findByPdfConvertStatus(status, PageRequest.of(0, limit))`:
   * `limit` matching records (all of them when there are fewer), each once.
   */
  predicate IsFirstPage(d: Docs, status: PdfConvert, limit: nat, page: seq<StoredFile>) {
    && |page| == Min(limit, |Matching(d, status)|)
    && DistinctIds(page)
    && StoredRecords(d, page)
    && (forall i :: 0 <= i < |page| ==> page[i].pdfConvertStatus == Some(status))
  }

  /** The content of `findAll()`: every stored record exactly once, in some order. */
  predicate IsAll(d: Docs, all: seq<StoredFile>) {
    && |all| == |d.records|
    && DistinctIds(all)
    && StoredRecords(d, all)
  }

  /**
   * The state of a scan that moves ids of `pool` from `pending` to `taken`, appending the
   * record of each to `rs`.
   */
  predicate Picked(d: Docs, pool: set<Id>, taken: set<Id>, pending: set<Id>, rs: seq<StoredFile>) {
    && taken * pending == {} && taken + pending == pool
    && |taken| == |rs| && |taken| + |pending| == |pool|
    && DistinctIds(rs) && StoredRecords(d, rs)
    && (forall i :: 0 <= i < |rs| ==> rs[i].id.value in taken)
  }

  /** Moving one element from `pending` to `taken` keeps them a partition of the pool. */
  lemma MoveOne<T>(pool: set<T>, taken: set<T>, pending: set<T>, k: T)
    requires taken * pending == {} && taken + pending == pool && k in pending
    ensures (taken + {k}) * (pending - {k}) == {} && (taken + {k}) + (pending - {k}) == pool
    ensures |taken + {k}| == |taken| + 1 && |pending - {k}| == |pending| - 1
  {
  }

  /** Appending a stored record whose id is not yet taken keeps the ids distinct and stored. */
  lemma AppendStored(d: Docs, rs: seq<StoredFile>, taken: set<Id>, k: Id)
    requires DocsValid(d) && DistinctIds(rs) && StoredRecords(d, rs)
    requires forall i :: 0 <= i < |rs| ==> rs[i].id.value in taken
    requires k in d.records && k !in taken
    ensures var rs' := rs + [d.records[k]];
      && DistinctIds(rs') && StoredRecords(d, rs')
      && forall i :: 0 <= i < |rs'| ==> rs'[i].id.value in taken + {k}
  {
    var rs' := rs + [d.records[k]];
    forall i | 0 <= i < |rs'| ensures rs'[i].id.value in taken + {k} {
      if i < |rs| {
        assert rs'[i] == rs[i];
      }
    }
  }

  /** Moving one more pending id over, and appending its record, keeps the scan state. */
  lemma PickStep(d: Docs, pool: set<Id>, taken: set<Id>, pending: set<Id>, rs: seq<StoredFile>, k: Id)
    requires DocsValid(d) && pool <= d.records.Keys
    requires Picked(d, pool, taken, pending, rs) && k in pending
    ensures Picked(d, pool, taken + {k}, pending - {k}, rs + [d.records[k]])
  {
    MoveOne(pool, taken, pending, k);
    AppendStored(d, rs, taken, k);
  }

  /** A scan stopped by the limit or by running out of ids has taken `Min(limit, |pool|)` records. */
  lemma PickedSize(d: Docs, pool: set<Id>, taken: set<Id>, pending: set<Id>, rs: seq<StoredFile>, limit: nat)
    requires Picked(d, pool, taken, pending, rs) && |rs| <= limit
    requires |rs| == limit || pending == {}
    ensures |rs| == Min(limit, |pool|)
  {
  }

  /** The `storedFile` collection as `StoredFileRepository` sees it. */
  class Repository {
    var docs: Docs
    /** Every record handed to `save`, in order. */
    ghost var writes: seq<StoredFile>

    /** Mongo keys each record by its `_id`. */
    predicate Valid()
      reads this
    {
      DocsValid(docs)
    }

    constructor ()
      ensures docs == Docs(map[], 0) && writes == []
      ensures Valid()
    {
      docs := Docs(map[], 0);
      writes := [];
    }

    /** `save(f)`: the stored record, with its id. */
    method Save(f: StoredFile) returns (saved: StoredFile)
      modifies this
      ensures (docs, saved) == Upsert(old(docs), f)
      ensures writes == old(writes) + [saved]
    {
      var id := if f.id.Some? then f.id.value else docs.nextId;
      saved := f.(id := Some(id));
      docs := Docs(docs.records[id := saved], if id < docs.nextId then docs.nextId else id + 1);
      writes := writes + [saved];
    }

    /** `findById(id).orElse(null)`. */
    method FindById(id: Id) returns (r: Option<StoredFile>)
      ensures r.Some? <==> id in docs.records
      ensures r.Some? ==> r.value == docs.records[id]
    {
      if id in docs.records {
        r := Some(docs.records[id]);
      } else {
        r := None;
      }
    }

    /** `delete(entity)` / `deleteById(id)`: the record is gone, nothing else changes. */
    method Delete(id: Id)
      modifies this
      ensures docs == old(docs).(records := old(docs).records - {id})
      ensures writes == old(writes)
    {
      docs := docs.(records := docs.records - {id});
    }

    /** `saveAll(fs)`. */
    method SaveAll(fs: seq<StoredFile>)
      modifies this
      ensures docs == UpsertAll(old(docs), fs)
      ensures |writes| == |old(writes)| + |fs| && writes[..|old(writes)|] == old(writes)
    {
      var i := 0;
      while i < |fs|
        invariant 0 <= i <= |fs|
        invariant docs == UpsertAll(old(docs), fs[..i])
        invariant |writes| == |old(writes)| + i && writes[..|old(writes)|] == old(writes)
      {
        ghost var before := docs;
        var saved := Save(fs[i]);
        assert fs[..i + 1][..i] == fs[..i];
        assert docs == Upsert(before, fs[i]).0;
        assert docs == UpsertAll(old(docs), fs[..i + 1]);
        i := i + 1;
      }
      assert fs[..i] == fs;
    }

    /** `findByPdfConvertStatus(status, PageRequest.of(0, limit)).getContent()`. */
    method FindByPdfConvertStatus(status: PdfConvert, limit: nat) returns (page: seq<StoredFile>)
      requires Valid()
      ensures IsFirstPage(docs, status, limit, page)
    {
      var matching := Matching(docs, status);
      var pending := matching;
      ghost var taken: set<Id> := {};
      page := [];
      while |page| < limit && pending != {}
        invariant Picked(docs, matching, taken, pending, page)
        invariant |page| <= limit
        invariant forall i :: 0 <= i < |page| ==> page[i].pdfConvertStatus == Some(status)
        decreases |pending|
      {
        var k :| k in pending;
        PickStep(docs, matching, taken, pending, page, k);
        page := page + [docs.records[k]];
        pending := pending - {k};
        taken := taken + {k};
      }
      PickedSize(docs, matching, taken, pending, page, limit);
    }

    /** `findAll()`. */
    method FindAll() returns (all: seq<StoredFile>)
      requires Valid()
      ensures IsAll(docs, all)
    {
      var pending := docs.records.Keys;
      ghost var taken: set<Id> := {};
      all := [];
      while pending != {}
        invariant Picked(docs, docs.records.Keys, taken, pending, all)
        decreases |pending|
      {
        var k :| k in pending;
        PickStep(docs, docs.records.Keys, taken, pending, all, k);
        all := all + [docs.records[k]];
        pending := pending - {k};
        taken := taken + {k};
      }
    }
  }

  /** The GridFS bucket as `GridFsOperations` sees it. */
  class GridFs {
    var files: Files

    constructor ()
      ensures files == Files(map[], 0)
    {
      files := Files(map[], 0);
    }

    /** `store(stream, filename, contentType, metadata)`: the new object id. */
    method Store(b: Blob) returns (fid: FileId)
      modifies this
      ensures (files, fid) == StoreBlob(old(files), b)
    {
      fid := files.nextId;
      files := Files(files.blobs[fid := b], files.nextId + 1);
    }

    /** `findOne(query _id is fid)`: no file matches a null id. */
    method FindOne(fid: Option<FileId>) returns (r: Option<Blob>)
      ensures r.Some? <==> fid.Some? && fid.value in files.blobs
      ensures r.Some? ==> r.value == files.blobs[fid.value]
    {
      if fid.Some? && fid.value in files.blobs {
        r := Some(files.blobs[fid.value]);
      } else {
        r := None;
      }
    }

    /**
     * `getResource(file).getContent().readAllBytes()`: None for the IOException, which
     * the stream of an object in `unreadable` throws.
     */
    method ReadAllBytes(fid: FileId, b: Blob, unreadable: set<FileId>) returns (r: Option<Bytes>)
      ensures r.Some? <==> fid !in unreadable
      ensures r.Some? ==> r.value == b.data
    {
      if fid in unreadable {
        r := None;
      } else {
        r := Some(b.data);
      }
    }

    /** `delete(query _id is fid)`: a missing object is no error. */
    method Delete(fid: FileId)
      modifies this
      ensures files == old(files).(blobs := old(files).blobs - {fid})
    {
      files := files.(blobs := files.blobs - {fid});
    }
  }
}
