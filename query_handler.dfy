/**
 * `StoredFileQueryHandler`, the CQRS generation's read side: the three lookups by id
 * (the search query it builds is in module SearchQuery).
 */
module QueryHandling {
  import opened Wrappers
  import opened Domain
  import opened Persistence
  import opened Lifecycle
  import StoredFileOps

  class StoredFileQueryHandler {
    const repository: Repository
    const operations: GridFs

    constructor (repository: Repository, operations: GridFs)
      ensures this.repository == repository && this.operations == operations
    {
      this.repository := repository;
      this.operations := operations;
    }

    /** The collection and the bucket this handler reads. */
    function State(): Stores
      reads repository, operations
    {
      StoredFileOps.StateOf(repository, operations)
    }

    /** `getById(GetStoredFileByIdQuery)`: the response wraps null for an unknown id. */
    method GetById(id: Id, unreadable: set<FileId>) returns (r: Option<StoredFile>)
      ensures r == LoadFull(State(), id, unreadable)
    {
      r := StoredFileOps.GetById(repository, operations, id, unreadable);
    }

    /** `getByIdNoContent(GetStoredFileByIdNoContentQuery)`: null for an unknown id. */
    method GetByIdNoContent(id: Id) returns (r: Option<StoredFile>)
      ensures r == LoadNoContent(repository.docs, id)
    {
      r := StoredFileOps.GetByIdNoContent(repository, id);
    }

    /** `getByIdPdfContent(GetStoredFileByIdPdfContentQuery)`: null for an unknown id. */
    method GetByIdPdfContent(id: Id, unreadable: set<FileId>) returns (r: Option<StoredFile>)
      ensures r == LoadPdfOnly(State(), id, unreadable)
    {
      r := StoredFileOps.GetByIdPdfContent(repository, operations, id, unreadable);
    }
  }
}
