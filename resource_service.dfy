/**
 * `ResourceServiceImpl`, the first generation's service: it owns the repository and the
 * GridFS operations and runs `save`, `delete`, the getters, the scheduled `convertPdfs`
 * and `migrateGridFS` against them.
 */
module ResourceService {
  import opened Wrappers
  import opened Domain
  import opened Persistence
  import opened PdfConverter
  import opened Lifecycle
  import StoredFileOps

  class ResourceServiceImpl {
    /** `appProperties.getLibreoffice().getPath()`. */
    const libreOffice: string
    const storedFileRepository: Repository
    const operations: GridFs
    /** `jhapy.bootstrap.resourceService.migrateGridFs`. */
    const isMigrateGridFs: bool
    /** `DigestUtils::md5Digest`. */
    const md5: Md5

    constructor (libreOffice: string, storedFileRepository: Repository, operations: GridFs,
                 isMigrateGridFs: bool, md5: Md5)
      ensures this.libreOffice == libreOffice && this.storedFileRepository == storedFileRepository
      ensures this.operations == operations && this.isMigrateGridFs == isMigrateGridFs && this.md5 == md5
    {
      this.libreOffice := libreOffice;
      this.storedFileRepository := storedFileRepository;
      this.operations := operations;
      this.isMigrateGridFs := isMigrateGridFs;
      this.md5 := md5;
    }

    /** The collection and the bucket this service writes to. */
    function State(): Stores
      reads storedFileRepository, operations
    {
      StoredFileOps.StateOf(storedFileRepository, operations)
    }

    /** Mongo keys every document by its own id. */
    predicate Valid()
      reads storedFileRepository
    {
      storedFileRepository.Valid()
    }

    /** `delete(id)`: EntityNotFoundException for a null or unknown id. */
    method Delete(id: Option<Id>) returns (err: Option<Error>)
      modifies storedFileRepository, operations
      ensures StoredFileOps.DeleteOutcome(old(State()), State(), id, err)
      ensures old(Valid()) ==> Valid()
    {
      err := StoredFileOps.Delete(storedFileRepository, operations, id);
    }

    /** `getById(id)`. */
    method GetById(id: Id, unreadable: set<FileId>) returns (r: Option<StoredFile>)
      ensures r == LoadFull(State(), id, unreadable)
    {
      r := StoredFileOps.GetById(storedFileRepository, operations, id, unreadable);
    }

    /** `getByIdNoContent(id)`. */
    method GetByIdNoContent(id: Id) returns (r: Option<StoredFile>)
      ensures r == LoadNoContent(storedFileRepository.docs, id)
    {
      r := StoredFileOps.GetByIdNoContent(storedFileRepository, id);
    }

    /** `getByIdPdfContent(id)`. */
    method GetByIdPdfContent(id: Id, unreadable: set<FileId>) returns (r: Option<StoredFile>)
      ensures r == LoadPdfOnly(State(), id, unreadable)
    {
      r := StoredFileOps.GetByIdPdfContent(storedFileRepository, operations, id, unreadable);
    }

    /**
     * `convertPdfs()`, the service's copy: a converted record's new GridFS object gets
     * `storedFile.getPdfContent()`, so a null payload throws NullPointerException.
     */
    method ConvertPdfs(envs: Option<Id> -> ProcessEnv, unreadable: set<FileId>)
      returns (page: seq<StoredFile>, err: Option<Error>)
      requires Valid()
      modifies storedFileRepository, operations
      ensures IsFirstPage(old(storedFileRepository.docs), NotConverted, PageSize, page)
      ensures TickResult(State(), err) == Tick(old(State()), page, envs, md5, unreadable, ServiceGeneration)
      ensures Valid()
    {
      page, err := StoredFileOps.ConvertPdfs(storedFileRepository, operations, libreOffice, envs, md5,
                                             unreadable, ServiceGeneration);
    }

    /** `postLoad()` on ApplicationReadyEvent: the migration, when the property is set. */
    method PostLoad() returns (all: seq<StoredFile>)
      requires Valid()
      modifies storedFileRepository, operations
      ensures isMigrateGridFs ==> IsAll(old(storedFileRepository.docs), all) && State() == Migrate(old(State()), all, md5)
      ensures !isMigrateGridFs ==> all == [] && State() == old(State())
      ensures Valid()
    {
      all := [];
      if isMigrateGridFs {
        all := MigrateGridFs();
      }
    }

    /** `migrateGridFS()`: `save` of every record of `findAll()`. */
    method MigrateGridFs() returns (all: seq<StoredFile>)
      requires Valid()
      modifies storedFileRepository, operations
      ensures IsAll(old(storedFileRepository.docs), all)
      ensures State() == Migrate(old(State()), all, md5)
      ensures Valid()
    {
      all := StoredFileOps.MigrateGridFs(storedFileRepository, operations, md5);
    }

    /** `save(entity)`. */
    method Save(entity: Option<StoredFile>) returns (r: Result<StoredFile, Error>)
      modifies storedFileRepository, operations
      ensures StoredFileOps.SaveOutcome(old(State()), old(storedFileRepository.writes), State(),
                                        storedFileRepository.writes, entity, md5, r)
      ensures old(Valid()) ==> Valid()
    {
      r := StoredFileOps.Save(storedFileRepository, operations, entity, md5);
    }
  }
}
