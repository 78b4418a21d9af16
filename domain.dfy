/**
 * The stored-file record and the values around it, shared by both generations of the
 * resource server (the Java `StoredFile` with a String id and the Kotlin `StoredFile`
 * with a UUID id).
 */
module Domain {
  import opened Wrappers

  newtype byte = x: int | 0 <= x < 256

  type Bytes = seq<byte>

  /** An MD5 digest as the record keeps it (a byte array). */
  type Digest = seq<byte>

  /** Record ids. The old service keeps a nullable String, the CQRS generation a UUID. */
  type Id = nat

  /** GridFS object ids, as recorded in the `...FileId` fields. */
  type FileId = nat

  /** `PdfConvert` / `PdfConvertEnum`. */
  datatype PdfConvert = NotConverted | Converted | NotSupported | NotNeeded

  /**
   * A stored file. `content`, `orginalContent` (sic) and `pdfContent` are transient byte
   * payloads; the three `...FileId` fields point into GridFS. Every nullable field of the
   * source is an Option here.
   */
  datatype StoredFile = StoredFile(
    id: Option<Id>,
    filename: string,
    mimeType: string,
    filesize: int,
    content: Option<Bytes>,
    contentFileId: Option<FileId>,
    md5Content: Option<Digest>,
    orginalContent: Option<Bytes>,
    originalContentFileId: Option<FileId>,
    pdfConvertStatus: Option<PdfConvert>,
    pdfContent: Option<Bytes>,
    pdfContentFileId: Option<FileId>,
    metadata: map<string, string>,
    relatedObjectId: Option<nat>,
    relatedObjectClass: Option<string>)

  /** True when the record carries none of its three byte payloads. */
  predicate NoPayload(f: StoredFile) {
    f.content.None? && f.orginalContent.None? && f.pdfContent.None?
  }

  /** A GridFS file: its bytes, file name, content type and the `relatedObjectId` metadata entry. */
  datatype Blob = Blob(data: Bytes, filename: string, contentType: string, relatedObjectId: Option<Id>)

  /** The exceptions the core lets escape. */
  datatype Error =
    | EntityNotFound   // EntityNotFoundException
    | NullPointer      // NullPointerException from `new ByteArrayInputStream(null)`
    | StringIndexOutOfBounds  // from `strBuilder.substring(0, strBuilder.length() - 2)` on a one-character log

  /** The three payload slots of a record. */
  datatype Slot = ContentSlot | OriginalSlot | PdfSlot

  function PayloadOf(f: StoredFile, slot: Slot): Option<Bytes> {
    match slot
    case ContentSlot => f.content
    case OriginalSlot => f.orginalContent
    case PdfSlot => f.pdfContent
  }

  function FileIdOf(f: StoredFile, slot: Slot): Option<FileId> {
    match slot
    case ContentSlot => f.contentFileId
    case OriginalSlot => f.originalContentFileId
    case PdfSlot => f.pdfContentFileId
  }

  /** `f` with the file id of `slot` replaced by `fid`, every other field unchanged. */
  function WithFileId(f: StoredFile, slot: Slot, fid: FileId): (r: StoredFile)
    ensures FileIdOf(r, slot) == Some(fid)
    ensures forall other :: other != slot ==> FileIdOf(r, other) == FileIdOf(f, other)
    ensures forall s :: PayloadOf(r, s) == PayloadOf(f, s)
    ensures r.id == f.id && r.filename == f.filename && r.mimeType == f.mimeType
    ensures r.md5Content == f.md5Content && r.pdfConvertStatus == f.pdfConvertStatus
  {
    match slot
    case ContentSlot => f.(contentFileId := Some(fid))
    case OriginalSlot => f.(originalContentFileId := Some(fid))
    case PdfSlot => f.(pdfContentFileId := Some(fid))
  }

  /** The decimal text of a natural number. */
  function Decimal(n: nat): (s: string)
    ensures |s| > 0
    ensures forall k :: 0 <= k < |s| ==> '0' <= s[k] <= '9'
  {
    var d := (('0' as int) + n % 10) as char;
    if n < 10 then [d] else Decimal(n / 10) + [d]
  }

  /** `String.valueOf(id)`: Java renders a null id as "null". */
  function IdLabel(id: Option<Id>): (s: string)
    ensures id.None? ==> s == "null"
    ensures id.Some? ==> '.' !in s && '-' !in s && |s| > 0
  {
    match id
    case None => "null"
    case Some(n) => Decimal(n)
  }
}
