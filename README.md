# Stored files of the jHapy resource server, in Dafny

The jHapy resource server stores uploaded files. Each file has a record in the
Mongo `storedFile` collection, and its bytes live in GridFS. There are three
payloads: the content, the original content and a PDF rendition. The server
has two generations of the same code:

- the service `ResourceServiceImpl`;
- the CQRS pair made of the write side `StoredFileEventHandler` and the read
  side `StoredFileQueryHandler`.

Both generations run the same `save`, `delete`, getters and `convertPdfs`:

- `save` applies the checksum and conversion-status rules. It saves the
  record without payloads, stores each non-null payload as a new GridFS
  object, and saves the record again with the new file ids.
- `delete` removes a record's GridFS objects, then the record.
- Three getters read a record back with all, none or only the PDF of its
  payloads.
- A scheduled `convertPdfs` takes the first 100 `NOT_CONVERTED` records. It
  converts each through LibreOffice in a temporary directory, marks each
  record `NOT_NEEDED`, `CONVERTED` or `NOT_SUPPORTED`, and saves the page.

The service alone also has `migrateGridFS`. It re-saves every record at start-up
when the migration property is set.

Around these sit:

- the Mongo search criteria the query handlers build;
- the `PageDTO` copy;
- the comma-list mapper of `GenericMapper`;
- identity in the Kotlin `BaseEntity`.

How the model is laid out:

- The collection and the bucket are values. `Persistence.Docs` is a map from
  id to record with the next fresh id. `Persistence.Files` is a map from
  object id to blob with the next fresh object id.
- These values are held by the classes `Persistence.Repository` and
  `Persistence.GridFs`, which the services share.
- Module `Lifecycle` gives every operation as a function over both stores.
- Module `StoredFileOps` holds the statement-by-statement procedures. Each is
  proved to leave the stores as the matching `Lifecycle` function says.
- The classes `ResourceService.ResourceServiceImpl`,
  `EventHandling.StoredFileEventHandler` and `QueryHandling.StoredFileQueryHandler`
  delegate to those procedures.
- `LifecycleProperties` and `BatchProperties` prove what the functions
  guarantee, and what they do not.
- The two generations differ in one expression in `convertPdfs`. The service
  stores the record's own PDF payload where the handler stores the converted
  bytes. `Lifecycle.Generation` carries that difference.

Environment stand-ins:

- MD5 (`DigestUtils.md5Digest`) is a function parameter `Md5`.
- The operating system and LibreOffice are an oracle, `PdfConverter.ProcessEnv`,
  given per record id. It includes the lines LibreOffice prints on its two
  streams.
- Whether a filter is a valid Java regular expression is a parameter `compiles`.
- GridFS objects whose stream fails to read are a parameter `unreadable`.
- Record ids and GridFS object ids are natural numbers allocated from a
  counter.

## Model

| member | source | states |
|---|---|---|
| Text.ReplaceExtension | src/main/java/org/jhapy/resource/service/ResourceServiceImpl.java:334-340 | the result ends in "." plus the new extension; what precedes is the text before the name's last '.', or the whole name when it has none |
| Text.ReplaceExtensionIdempotent | src/main/java/org/jhapy/resource/query/StoredFileEventHandler.java:262-269 | replacing the extension twice with the same dot-free extension gives what replacing it once gives |
| PdfConverter.Extension | src/main/java/org/jhapy/resource/service/ResourceServiceImpl.java:350 | the extension taken after the last '.' never contains a '.' |
| PdfConverter.Conversion | src/main/java/org/jhapy/resource/service/ResourceServiceImpl.java:342-436 | a PDF comes back only for non-empty content of a type that is neither PDF nor image, when LibreOffice exits with 0, and it is the bytes LibreOffice wrote; staged content with exit 0 gives exactly those bytes; null content, empty content, PDFs and images give null, and so does an IOException from `createTempFile`, `createTempDirectory` or `Files.write` |
| PdfConverter.StagedNameHasDot | src/main/java/org/jhapy/resource/service/ResourceServiceImpl.java:381-384 | the staged temporary file's name has a '.', and cutting it there and adding ".pdf" is replacing its extension with "pdf" |
| PdfConverter.ConvertToPdf | src/main/java/org/jhapy/resource/query/StoredFileEventHandler.java:271-369 | returns exactly `Conversion`; throws StringIndexOutOfBoundsException exactly when `ConversionThrows` holds, returning no PDF; LibreOffice is started exactly when the temp file, the temp directory and the write all succeed, with `<path> --convert-to pdf --outdir <dir> <input>`; every temporary path created is deleted in `finally`, including the produced PDF |
| PdfConverter.StreamLog | src/main/java/org/jhapy/resource/service/ResourceServiceImpl.java:390-394 | the log of a stream is each line followed by a newline, so it is at least as long as the number of lines and not empty when there is a line |
| PdfConverter.LogOverflowsExactly | src/main/java/org/jhapy/resource/service/ResourceServiceImpl.java:395-398 | cutting the last two characters off a non-empty log fails exactly when the stream was one empty line |
| PdfConverter.ReadLog | src/main/java/org/jhapy/resource/service/ResourceServiceImpl.java:391-394 | the `readLine` loop builds exactly `StreamLog` of the stream's lines |
| Persistence.Upsert | src/main/java/org/jhapy/resource/service/ResourceServiceImpl.java:308 | `repository.save`: a record without id gets a fresh id that no stored record has; a record with id replaces the one under that id; nothing else changes; ids stay keyed by themselves |
| Persistence.UpsertAll | src/main/java/org/jhapy/resource/service/ResourceServiceImpl.java:250 | `saveAll` keeps every record under its own id |
| Persistence.StoreBlob | src/main/java/org/jhapy/resource/service/ResourceServiceImpl.java:314-316 | `operations.store` puts the blob under a fresh object id that no existing object has, and keeps every existing object |
| Persistence.Repository.Save | src/main/java/org/jhapy/resource/service/ResourceServiceImpl.java:329 | the collection becomes `Upsert` of the old one, and the record saved is appended to the write log |
| Persistence.Repository.FindById | src/main/java/org/jhapy/resource/service/ResourceServiceImpl.java:86 | null exactly for an unknown id, otherwise the stored record |
| Persistence.Repository.Delete | src/main/java/org/jhapy/resource/service/ResourceServiceImpl.java:96 | only the record under the id is removed |
| Persistence.Repository.SaveAll | src/main/java/org/jhapy/resource/query/StoredFileEventHandler.java:258 | the collection becomes `UpsertAll` of the old one; one write per record is logged |
| Persistence.Repository.FindByPdfConvertStatus | src/main/java/org/jhapy/resource/service/ResourceServiceImpl.java:201-203 | the first page holds min(limit, number matching) records with the status, each stored, no id twice |
| Persistence.Repository.FindAll | src/main/java/org/jhapy/resource/service/ResourceServiceImpl.java:268 | every stored record, each exactly once |
| Persistence.GridFs.Store | src/main/java/org/jhapy/resource/service/ResourceServiceImpl.java:324-326 | the bucket becomes `StoreBlob` of the old one, and the new object id is returned |
| Persistence.GridFs.FindOne | src/main/java/org/jhapy/resource/service/ResourceServiceImpl.java:107 | null for a null or unknown object id, otherwise that object |
| Persistence.GridFs.ReadAllBytes | src/main/java/org/jhapy/resource/service/ResourceServiceImpl.java:110 | the object's bytes, or the IOException for an unreadable object |
| Persistence.GridFs.Delete | src/main/java/org/jhapy/resource/service/ResourceServiceImpl.java:91 | only that object is removed; a missing one is no error |
| Lifecycle.ChecksumRules | src/main/java/org/jhapy/resource/service/ResourceServiceImpl.java:279-298 | the rules change nothing but the status, the PDF payload and the digest |
| Lifecycle.IntendedChecksumRules | src/main/java/org/jhapy/resource/service/ResourceServiceImpl.java:286-292 | the corrected rules change nothing but the status, the PDF payload and the digest |
| Lifecycle.StripPayloads | src/main/java/org/jhapy/resource/service/ResourceServiceImpl.java:300-306 | the record saved first carries no payload |
| Lifecycle.StoreSlot | src/main/java/org/jhapy/resource/service/ResourceServiceImpl.java:313-327 | a null payload writes nothing; otherwise one new object with the payload, name, type and record id, pointed to by that slot's file id only; payloads and all other fields untouched; the bucket only grows |
| Lifecycle.SaveSpec | src/main/java/org/jhapy/resource/service/ResourceServiceImpl.java:275-278 | `save` fails, with EntityNotFoundException, exactly for a null entity |
| Lifecycle.ReferencedBlobs | src/main/java/org/jhapy/resource/service/ResourceServiceImpl.java:90-95 | an object id is referenced exactly when one of the record's three file ids names it |
| Lifecycle.DeleteSpec | src/main/java/org/jhapy/resource/service/ResourceServiceImpl.java:82-97 | `delete` fails, with EntityNotFoundException, exactly for a null or unknown id |
| Lifecycle.WithPayload | src/main/java/org/jhapy/resource/service/ResourceServiceImpl.java:138 | sets exactly one payload and nothing else |
| Lifecycle.LoadSlot | src/main/java/org/jhapy/resource/service/ResourceServiceImpl.java:105-118 | a payload becomes the object's bytes exactly when the file id is set, the object exists and it reads; otherwise the record keeps what it had; nothing else changes |
| Lifecycle.BackfillMd5 | src/main/java/org/jhapy/resource/service/ResourceServiceImpl.java:241-243 | a record with null digest and non-null content gets the digest of that content; any other record is returned unchanged |
| Lifecycle.RunBatch | src/main/java/org/jhapy/resource/service/ResourceServiceImpl.java:209-244 | the forEach handles at most the page, and all of it unless an exception escapes |
| Lifecycle.Tick | src/main/java/org/jhapy/resource/service/ResourceServiceImpl.java:197-253 | when an exception escapes, `saveAll` is not reached and the collection is unchanged |
| LifecycleProperties.NewContentIsQueued | src/main/java/org/jhapy/resource/service/ResourceServiceImpl.java:280-285 | a new record with content is queued NOT_CONVERTED and gets a digest |
| LifecycleProperties.NoContentNeedsNoPdf | src/main/java/org/jhapy/resource/service/ResourceServiceImpl.java:295-298 | a record without content is NOT_NEEDED and keeps no PDF and no digest |
| LifecycleProperties.MissingDigestIsFilled | src/main/java/org/jhapy/resource/query/StoredFileEventHandler.java:100-105 | a record with content and no digest gets MD5 of its content and keeps its PDF, whatever its id; it is queued NOT_CONVERTED only when it has no id, and a known record keeps its status |
| LifecycleProperties.SameContentIsRequeued | src/main/java/org/jhapy/resource/service/ResourceServiceImpl.java:286-292 | as written, re-saving unchanged content drops the PDF and re-queues the record |
| LifecycleProperties.ChangedContentIsNotRequeued | src/main/java/org/jhapy/resource/query/StoredFileEventHandler.java:107-113 | as written, saving changed content leaves the record as it was: old status, old PDF, stale digest |
| LifecycleProperties.IntendedRequeuesExactlyOnChange | src/main/java/org/jhapy/resource/service/ResourceServiceImpl.java:286-292 | with the corrected comparison, a known record is re-queued exactly when its digest differs, always ends with the content's digest, and is untouched when nothing changed |
| LifecycleProperties.RulesAgreeWithoutComparison | src/main/java/org/jhapy/resource/service/ResourceServiceImpl.java:279-298 | the written and corrected rules agree whenever no digest is compared |
| LifecycleProperties.StorePayloadsFacts | src/main/java/org/jhapy/resource/service/ResourceServiceImpl.java:310-327 | each non-null payload goes to a new object named after the record, pointed to by its slot; a null payload keeps its file id; no object is lost or overwritten; only file ids change |
| LifecycleProperties.PersistFacts | src/main/java/org/jhapy/resource/service/ResourceServiceImpl.java:300-331 | the record gets its id (fresh when it had none), is stored payload-free under it, others stay; new objects hold the payloads with their names and types; the repository sees it first without, then with, the new file ids; stores stay well formed |
| LifecycleProperties.SaveFacts | src/main/java/org/jhapy/resource/service/ResourceServiceImpl.java:275-332 | `save` returns the stored payload-free record with the rules' status and digest, each kept payload in a new object, no object lost |
| LifecycleProperties.SaveThenGetById | src/main/java/org/jhapy/resource/query/StoredFileQueryHandler.java:38-93 | after `save`, `getById` finds the record and returns every payload the rules kept: the content and original that were saved, and the PDF unless the rules dropped it |
| LifecycleProperties.SaveNullFails | src/main/java/org/jhapy/resource/service/ResourceServiceImpl.java:276-278 | `save(null)` throws EntityNotFoundException |
| LifecycleProperties.DeleteFacts | src/main/java/org/jhapy/resource/query/StoredFileEventHandler.java:167-185 | the record is gone, every other record stays, and exactly the objects the record named are deleted |
| LifecycleProperties.SaveThenDelete | src/main/java/org/jhapy/resource/service/ResourceServiceImpl.java:82-97 | saving a new record and deleting it restores the collection and leaves no object that was not there before |
| LifecycleProperties.DeleteRemovesNewObjects | src/main/java/org/jhapy/resource/service/ResourceServiceImpl.java:90-95 | deleting a saved record removes every object its save added |
| LifecycleProperties.NewObjectHasSlot | src/main/java/org/jhapy/resource/service/ResourceServiceImpl.java:313-327 | every object a save adds belongs to one of the record's non-null payloads and is referenced by the saved record |
| LifecycleProperties.DeleteUnknownFails | src/main/java/org/jhapy/resource/service/ResourceServiceImpl.java:83-89 | deleting a null or unknown id throws EntityNotFoundException |
| LifecycleProperties.GetByIdReadsEachSlot | src/main/java/org/jhapy/resource/service/ResourceServiceImpl.java:100-150 | `getById` is null exactly for an unknown id; otherwise each payload is its object's bytes when that object exists and reads, and stays as stored otherwise; other fields are as stored |
| LifecycleProperties.GettersAgree | src/main/java/org/jhapy/resource/query/StoredFileQueryHandler.java:96-138 | `getByIdNoContent` is `getById` without payloads and `getByIdPdfContent` is `getById` without content and original; all three are null for the same ids |
| BatchProperties.TurnOutcomeExtends | src/main/java/org/jhapy/resource/service/ResourceServiceImpl.java:209-244 | a record's outcome stays true as later turns add objects |
| BatchProperties.RunBatchGrows | src/main/java/org/jhapy/resource/service/ResourceServiceImpl.java:209-244 | the batch only adds objects to GridFS |
| BatchProperties.RunBatchThrows | src/main/java/org/jhapy/resource/service/ResourceServiceImpl.java:224-239 | the batch ends early exactly when some record throws (a LibreOffice log that overflows the cut, or a conversion with no payload to store), with the exception of the first such record |
| BatchProperties.RunBatchOutcomes | src/main/java/org/jhapy/resource/service/ResourceServiceImpl.java:209-244 | every handled record has the outcome the bucket before the run determines |
| BatchProperties.UpsertAllEffect | src/main/java/org/jhapy/resource/service/ResourceServiceImpl.java:250 | `saveAll` of records with distinct ids stores each under its id and leaves all others |
| BatchProperties.TurnOutcomeFields | src/main/java/org/jhapy/resource/service/ResourceServiceImpl.java:209-244 | a turn keeps id, name, type and the other file ids, keeps the content it read, sets the expected status, and fills a null digest from that content (any other digest is kept) |
| BatchProperties.TickFacts | src/main/java/org/jhapy/resource/service/ResourceServiceImpl.java:197-253 | a run throws exactly when some page record would, with the first such record's exception, and then the collection is unchanged; otherwise no record is added or removed, off-page records are untouched, each page record gets its outcome, and the stores stay well formed |
| BatchProperties.TickSettlesPage | src/main/java/org/jhapy/resource/query/StoredFileEventHandler.java:206-255 | after a run that does not throw, each page record has its expected status, the content its turn read, and the digest of that content when it had none (its own digest otherwise) |
| BatchProperties.TickQueueMembership | src/main/java/org/jhapy/resource/query/StoredFileEventHandler.java:190-260 | after a run that does not throw, a record is NOT_CONVERTED exactly when it was and was not on the page |
| BatchProperties.TickDrainsPage | src/main/java/org/jhapy/resource/service/ResourceServiceImpl.java:197-253 | a run that does not throw removes exactly its page from the NOT_CONVERTED queue, which shrinks by min(100, its size) |
| BatchProperties.MissingContentIsNotSupported | src/main/java/org/jhapy/resource/service/ResourceServiceImpl.java:212-230 | a record to convert whose content object is missing or unreadable, and which carries no content, ends NOT_SUPPORTED |
| BatchProperties.TickPersistsContent | src/main/java/org/jhapy/resource/service/ResourceServiceImpl.java:215-250 | a record to convert whose content reads is saved back carrying that content payload |
| BatchProperties.ServiceConvertedWithoutPdfThrows | src/main/java/org/jhapy/resource/service/ResourceServiceImpl.java:233-235 | in the service, a record that converts but has no PDF payload makes the run throw, and nothing is saved; when no LibreOffice log of the page overflows, the exception is a NullPointerException |
| BatchProperties.ServiceStoresStalePdf | src/main/java/org/jhapy/resource/service/ResourceServiceImpl.java:224-239 | in the service, a converted record's new PDF object holds the record's old PDF payload |
| BatchProperties.HandlerThrowsOnlyOnLog | src/main/java/org/jhapy/resource/query/StoredFileEventHandler.java:232-251 | the handler's run has no NullPointerException: it throws exactly when some LibreOffice log of the page overflows the cut, and then with StringIndexOutOfBoundsException |
| BatchProperties.HandlerStoresConvertedPdf | src/main/java/org/jhapy/resource/query/StoredFileEventHandler.java:232-251 | in the handler, when the run does not throw, a converted record's PDF file id names a new object `<id>-<name>.pdf` holding exactly the bytes LibreOffice produced |
| BatchProperties.PersistWithoutPayload | src/main/java/org/jhapy/resource/service/ResourceServiceImpl.java:300-331 | saving a stored payload-free record rewrites only that record and writes no object |
| BatchProperties.MigrateStep | src/main/java/org/jhapy/resource/service/ResourceServiceImpl.java:269 | re-saving a payload-free record resets it to NOT_NEEDED with no PDF and no digest, and writes no object |
| BatchProperties.MigrateResetsRecords | src/main/java/org/jhapy/resource/service/ResourceServiceImpl.java:264-271 | `migrateGridFS` over payload-free records writes no object and resets exactly the records it goes through, keeping their file ids |
| BatchProperties.MigrateAllNotNeeded | src/main/java/org/jhapy/resource/service/ResourceServiceImpl.java:264-271 | after `migrateGridFS` over `findAll()` on payload-free records, every record is NOT_NEEDED with no digest, whatever its status was |
| StoredFileOps.StorePayload | src/main/java/org/jhapy/resource/query/StoredFileEventHandler.java:133-161 | the bucket and the record become what `StoreSlot` says |
| StoredFileOps.ApplyChecksumRules | src/main/java/org/jhapy/resource/query/StoredFileEventHandler.java:100-119 | the statements of the status and checksum rules give `ChecksumRules` |
| StoredFileOps.PersistRecord | src/main/java/org/jhapy/resource/query/StoredFileEventHandler.java:121-164 | the two saves and three GridFS writes leave the stores, the returned record and the write log as `Persist` says, and keep ids keyed by themselves |
| StoredFileOps.Save | src/main/java/org/jhapy/resource/query/StoredFileEventHandler.java:96-165 | the statements of `save` leave the stores, the result and the write log as `SaveSpec` says, and keep ids keyed by themselves |
| StoredFileOps.Delete | src/main/java/org/jhapy/resource/service/ResourceServiceImpl.java:82-97 | the statements of `delete` leave the stores as `DeleteSpec` says and write nothing |
| StoredFileOps.LoadPayload | src/main/java/org/jhapy/resource/query/StoredFileQueryHandler.java:58-71 | reading one slot gives `LoadSlot` |
| StoredFileOps.GetById | src/main/java/org/jhapy/resource/service/ResourceServiceImpl.java:100-150 | the statements give `LoadFull` |
| StoredFileOps.GetByIdNoContent | src/main/java/org/jhapy/resource/service/ResourceServiceImpl.java:153-163 | the statements give the stored record without payloads, or null |
| StoredFileOps.GetByIdPdfContent | src/main/java/org/jhapy/resource/service/ResourceServiceImpl.java:166-192 | the statements give `LoadPdfOnly` |
| StoredFileOps.ConvertLoadedRecord | src/main/java/org/jhapy/resource/service/ResourceServiceImpl.java:224-239 | the conversion half of a turn does what `ConvertLoaded` says: the exception it throws, or the new status, GridFS object and PDF file id |
| StoredFileOps.ConvertOne | src/main/java/org/jhapy/resource/service/ResourceServiceImpl.java:209-244 | one turn of the forEach does what `ProcessRecord` says, and throws without writing |
| StoredFileOps.RunBatchStops | src/main/java/org/jhapy/resource/service/ResourceServiceImpl.java:209-244 | once a turn has thrown, the rest of the page changes nothing |
| StoredFileOps.ConvertPage | src/main/java/org/jhapy/resource/query/StoredFileEventHandler.java:203-255 | the loop over the page computes `RunBatch` |
| StoredFileOps.ConvertPdfs | src/main/java/org/jhapy/resource/service/ResourceServiceImpl.java:197-253 | reads the first page of NOT_CONVERTED records and leaves the stores and exception as `Tick` of that page says |
| StoredFileOps.MigrateGridFs | src/main/java/org/jhapy/resource/service/ResourceServiceImpl.java:264-271 | saves every record of `findAll()` in order, leaving the stores as `Migrate` says |
| ResourceService.ResourceServiceImpl.constructor | src/main/java/org/jhapy/resource/service/ResourceServiceImpl.java:71-79 | holds the repository, the GridFS operations, the LibreOffice path and the migration flag it is given |
| ResourceService.ResourceServiceImpl.Delete | src/main/java/org/jhapy/resource/service/ResourceServiceImpl.java:82-97 | `DeleteSpec` on the service's stores |
| ResourceService.ResourceServiceImpl.GetById | src/main/java/org/jhapy/resource/service/ResourceServiceImpl.java:100-150 | `LoadFull` on the service's stores |
| ResourceService.ResourceServiceImpl.GetByIdNoContent | src/main/java/org/jhapy/resource/service/ResourceServiceImpl.java:153-163 | `LoadNoContent` on the service's collection |
| ResourceService.ResourceServiceImpl.GetByIdPdfContent | src/main/java/org/jhapy/resource/service/ResourceServiceImpl.java:166-192 | `LoadPdfOnly` on the service's stores |
| ResourceService.ResourceServiceImpl.ConvertPdfs | src/main/java/org/jhapy/resource/service/ResourceServiceImpl.java:195-253 | `Tick` of the service generation on the page read |
| ResourceService.ResourceServiceImpl.PostLoad | src/main/java/org/jhapy/resource/service/ResourceServiceImpl.java:255-260 | migrates exactly when the property is set, and otherwise changes nothing |
| ResourceService.ResourceServiceImpl.MigrateGridFs | src/main/java/org/jhapy/resource/service/ResourceServiceImpl.java:262-271 | `Migrate` over `findAll()` on the service's stores |
| ResourceService.ResourceServiceImpl.Save | src/main/java/org/jhapy/resource/service/ResourceServiceImpl.java:273-332 | `SaveSpec` on the service's stores, with both writes logged |
| EventHandling.StoredFileEventHandler.constructor | src/main/java/org/jhapy/resource/query/StoredFileEventHandler.java:44-53 | holds the repository, the GridFS operations and the LibreOffice path it is given |
| EventHandling.StoredFileEventHandler.Save | src/main/java/org/jhapy/resource/query/StoredFileEventHandler.java:96-165 | `SaveSpec` on the handler's stores, with both writes logged, for the records the handler gets, which always carry an id |
| EventHandling.StoredFileEventHandler.OnStoredFileDeleted | src/main/java/org/jhapy/resource/query/StoredFileEventHandler.java:166-185 | `DeleteSpec` of the event's id on the handler's stores |
| EventHandling.StoredFileEventHandler.ConvertPdfs | src/main/java/org/jhapy/resource/query/StoredFileEventHandler.java:188-260 | `Tick` of the handler generation on the page read |
| QueryHandling.StoredFileQueryHandler.constructor | src/main/java/org/jhapy/resource/query/StoredFileQueryHandler.java:30-35 | holds the repository and the GridFS operations it is given |
| QueryHandling.StoredFileQueryHandler.GetById | src/main/java/org/jhapy/resource/query/StoredFileQueryHandler.java:37-93 | `LoadFull` on the handler's stores |
| QueryHandling.StoredFileQueryHandler.GetByIdNoContent | src/main/java/org/jhapy/resource/query/StoredFileQueryHandler.java:95-107 | `LoadNoContent` on the handler's collection |
| QueryHandling.StoredFileQueryHandler.GetByIdPdfContent | src/main/java/org/jhapy/resource/query/StoredFileQueryHandler.java:109-138 | `LoadPdfOnly` on the handler's stores |
| SearchQuery.Criteria.AndOperator | src/main/java/org/jhapy/resource/query/BaseQueryHandler.java:146-148 | registers exactly the given `$and` operands on the root |
| SearchQuery.BaseSearchPredicates | src/main/java/org/jhapy/resource/query/BaseQueryHandler.java:128-149 | `isActive == true` first unless inactive records are shown, then one `$or` of case-insensitive unicode regexes on name and description when the filter is not blank, and nothing else |
| SearchQuery.StoredFileSearchPredicates | src/main/java/org/jhapy/resource/query/StoredFileQueryHandler.java:161-176 | one `$or` of plain regexes on filename and mimeType first when the filter is not blank, then `isActive == true` unless inactive records are shown, and nothing else |
| SearchQuery.BaseBuildSearchQuery | src/main/java/org/jhapy/resource/query/BaseQueryHandler.java:128-149 | a non-blank filter that is no valid regular expression throws PatternSyntaxException and leaves the root without `$and`; otherwise the root gets those predicates under `$and`, or no `$and` when there are none |
| SearchQuery.StoredFileBuildSearchQuery | src/main/java/org/jhapy/resource/query/StoredFileQueryHandler.java:161-176 | the root gets those predicates under `$and`, or no `$and` when there are none |
| SearchQuery.NothingToFilter | src/main/java/org/jhapy/resource/query/BaseQueryHandler.java:146-148 | a blank filter with inactive records shown leaves both roots without `$and` |
| SearchQuery.BuildersDifferInOrder | src/main/java/org/jhapy/resource/query/StoredFileQueryHandler.java:165-174 | the stored-file builder puts the text filter before the activity filter, the base builder after |
| SearchQuery.ToDtoPage | src/main/java/org/jhapy/resource/query/BaseQueryHandler.java:34-44 | the page numbers are copied from the domain page, and the content is the given data, not the domain content |
| GenericMapper.MapFromString | src/main/java/org/jhapy/resource/converter/GenericMapper.java:27-30 | null exactly for a null or blank string; otherwise comma-free parts, the last of them not empty, which joined with ',' give the string up to its trailing commas (`split` drops trailing empty strings) |
| GenericMapper.MapToString | src/main/java/org/jhapy/resource/converter/GenericMapper.java:32-35 | null exactly for a null or empty list; otherwise the elements joined by ',': one comma between each pair, and cutting at every comma gives the elements back when none of them holds a comma |
| GenericMapper.MapRoundTrip | src/main/java/org/jhapy/resource/converter/GenericMapper.java:27-35 | a non-blank list of comma-free strings, the last not empty, survives both maps unchanged |
| BaseEntityModel.BaseEntity.constructor | src/main/java/org/jhapy/resource/domain/BaseEntity.kt:31-62 | the id is the given one or a fresh random one; persisted exactly when an id was given; active; no audit data |
| BaseEntityModel.BaseEntity.SetId | src/main/java/org/jhapy/resource/domain/BaseEntity.kt:66-68 | only the id changes; `persisted` is kept |
| BaseEntityModel.BaseEntity.IsNew | src/main/java/org/jhapy/resource/domain/BaseEntity.kt:70 | new exactly when not persisted |
| BaseEntityModel.BaseEntity.HashCode | src/main/java/org/jhapy/resource/domain/BaseEntity.kt:72 | the UUID's hash of the id |
| BaseEntityModel.BaseEntity.Equals | src/main/java/org/jhapy/resource/domain/BaseEntity.kt:74-81 | true for itself, false for null and non-entities, otherwise exactly when the ids agree; equal entities hash alike |
| BaseEntityModel.EqualsSymmetric | src/main/java/org/jhapy/resource/domain/BaseEntity.kt:74-81 | `equals` is symmetric between entities |
| BaseEntityModel.EqualsTransitive | src/main/java/org/jhapy/resource/domain/BaseEntity.kt:74-81 | `equals` is transitive between entities |

## Left out

- Logging, timing and the conversion counters are not modelled. LibreOffice's stdout and stderr are modelled only as the lines read on a failed exit, because cutting a one-character log throws; an IOException while reading them is not modelled.
- Spring transactions (`@Transactional`) are not modelled. An exception in `convertPdfs` leaves the GridFS objects already stored in the run in place: the model rolls nothing back.
- GridFS write failures and Mongo errors are not modelled: only read failures (IOException from `readAllBytes`), the NullPointerException and the StringIndexOutOfBoundsException of the log cut are exceptions the model has in the batch.
- A null id passed to the getters (`findById(null)` throws IllegalArgumentException in Spring Data) is not modelled: the getters take a non-null id.
- A null filename or mime type (`NullPointerException` in `contains`, `lastIndexOf`) is not modelled: the record's filename and mime type are strings.
- Java's `String` of UTF-16 code units is modelled as a sequence of characters.
- MD5, `UUID.randomUUID()`, ObjectId generation and the temporary file names are parameters: digests come from a function, object ids and record ids from counters, temp names from `ProcessEnv`.
- Ids are natural numbers for both generations. The String id of the service and the UUID of the CQRS records only appear through `IdLabel` in GridFS names. The UUID itself is in `BaseEntityModel`.
- Scheduling (`@Scheduled(fixedRate = 60000)`) and concurrency between a run of `convertPdfs` and `save` are not modelled: each call runs alone.
- Optimistic locking (`@Version`) and the audit fields are not modelled. `clientId`, `createdBy`, `modifiedBy` and `version` are carried on `BaseEntity` but never set; the timestamps `created` and `modified` are not carried.
- The DTO conversion (`StoredFileConverter`, the MapStruct part of `GenericMapper`), `convert(Pageable)` in `toDtoPage`, and the query update emits of the event handler are not modelled.
- `on(StoredFileCreatedEvent)` and `on(StoredFileUpdatedEvent)` only convert the event and call `save`. The conversion is not part of this model, so they are covered by `EventHandling.StoredFileEventHandler.Save`.
- `getAll`, `findAnyMatching` and `countAnyMatching` run Mongo queries. Those queries are not modelled; only the criteria they build are.
- A record's identity across `save` is modelled by value: Spring Data sets the id on the very object passed in and returns it, and the model continues with the returned record.
- Persistence.Repository.SaveAll: the write log grows by one entry per record and keeps its prefix, but the entries are not named one by one.
- Which strings are valid Java regular expressions is a parameter `compiles` of `SearchQuery.BaseBuildSearchQuery`. The stored-file override hands the filter to Mongo as a string and compiles nothing, so it has no such failure.
- SearchQuery.Criteria.AndOperator: requires a root without `$and`, as every caller passes a fresh `Criteria`; a second `andOperator` would throw in Spring.

## Findings

| source | as written | input that shows it | evidently intended | confidence | as-written member | corrected member |
|---|---|---|---|---|---|---|
| src/main/java/org/jhapy/resource/service/ResourceServiceImpl.java:286-292 | `contentChanged = Arrays.equals(stored digest, new digest)`, so the record is re-queued when the content is the SAME | a stored record with content "a" and digest md5("a"), saved again unchanged, loses its PDF and is queued again; saved with content "b", it keeps the old PDF and the digest of "a" (the event handler has the same code at StoredFileEventHandler.java:107-113) | re-queue and drop the PDF when the digests DIFFER | not executed | LifecycleProperties.SameContentIsRequeued | LifecycleProperties.IntendedRequeuesExactlyOnChange |
| src/main/java/org/jhapy/resource/service/ResourceServiceImpl.java:233-235 | the converted record's new PDF object is built from `storedFile.getPdfContent()`, with the line that would set it commented out | any NOT_CONVERTED record of a convertible type saved by `save` (which nulls the PDF payload) for which LibreOffice succeeds: the run throws NullPointerException and nothing is saved; a record still carrying an old PDF payload gets that old PDF stored instead | store the converted bytes, as StoredFileEventHandler.java:235-243 does | not executed | BatchProperties.ServiceConvertedWithoutPdfThrows | BatchProperties.HandlerStoresConvertedPdf |

The corrected checksum rules are `Lifecycle.IntendedChecksumRules`. The procedures keep the rules as written (`Lifecycle.ChecksumRules`), because both generations run that code. `LifecycleProperties.RulesAgreeWithoutComparison` shows the two differ only when a stored digest is compared. The corrected PDF step is the handler generation, which `EventHandling` runs.
