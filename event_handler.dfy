/**
 * `StoredFileEventHandler`, the CQRS generation's write side: created and updated events
 * go through `save`, deleted events remove the record and its GridFS objects, and the
 * same scheduled `convertPdfs` runs here with one expression changed.
 */
module EventHandling {
  import opened Wrappers
  import opened Domain
  import opened Persistence
  import opened PdfConverter
  import opened Lifecycle
  import StoredFileOps

  class StoredFileEventHandler {
    /** `appProperties.getLibreoffice().getPath()`. */
    const libreOffice: string
    const repository: Repository
    const operations: GridFs
    /** `DigestUtils::md5Digest`. */
    const md5: Md5

    constructor (libreOffice: string, repository: Repository, operations: GridFs, md5: Md5)
      ensures this.libreOffice == libreOffice && this.repository == repository
      ensures this.operations == operations && this.md5 == md5
    {
      this.libreOffice := libreOffice;
      this.repository := repository;
      this.operations := operations;
      this.md5 := md5;
    }

    /** The collection and the bucket this handler writes to. */
    function State(): Stores
      reads repository, operations
    {
      StoredFileOps.StateOf(repository, operations)
    }

    /** Mongo keys every document by its own id. */
    predicate Valid()
      reads repository
    {
      repository.Valid()
    }

    /**
     * `save(entity)`: the same rules and writes as the service's. The handler's records
     * always carry an id, since `BaseEntity` draws a random UUID when none is given, so
     * the rules never queue a record here for being new (see `MissingDigestIsFilled`).
     */
    method Save(entity: Option<StoredFile>) returns (r: Result<StoredFile, Error>)
      requires entity.Some? ==> entity.value.id.Some?
      modifies repository, operations
      ensures StoredFileOps.SaveOutcome(old(State()), old(repository.writes), State(), repository.writes,
                                        entity, md5, r)
      ensures old(Valid()) ==> Valid()
    {
      r := StoredFileOps.Save(repository, operations, entity, md5);
    }

    /** `on(StoredFileDeletedEvent)`: the event's id is never null. */
    method OnStoredFileDeleted(id: Id) returns (err: Option<Error>)
      modifies repository, operations
      ensures StoredFileOps.DeleteOutcome(old(State()), State(), Some(id), err)
      ensures old(Valid()) ==> Valid()
    {
      err := StoredFileOps.Delete(repository, operations, Some(id));
    }

    /**
     * `convertPdfs()`, the handler's copy: a converted record's new GridFS object gets the
     * bytes LibreOffice produced.
     */
    method ConvertPdfs(envs: Option<Id> -> ProcessEnv, unreadable: set<FileId>)
      returns (page: seq<StoredFile>, err: Option<Error>)
      requires Valid()
      modifies repository, operations
      ensures IsFirstPage(old(repository.docs), NotConverted, PageSize, page)
      ensures TickResult(State(), err) == Tick(old(State()), page, envs, md5, unreadable, HandlerGeneration)
      ensures Valid()
    {
      page, err := StoredFileOps.ConvertPdfs(repository, operations, libreOffice, envs, md5,
                                             unreadable, HandlerGeneration);
    }
  }
}
