/**
 * The shared record types: the document row, the detection result, the
 * processing status reported per stage, and the shapes the store accepts.
 */
module Schema {
  import opened Wrappers

  /** A position rectangle, in page or image coordinates. */
  datatype Rect = Rect(x: int, y: int, width: int, height: int)

  /** One detected Aadhaar, PAN or phone number: the matched text, its mask and an optional position. */
  datatype Entry = Entry(original: string, redacted: string, position: Option<Rect>)

  datatype RegionKind = Photo | Signature | QrCode

  /** A visual area to black out; unlike an Entry its position is mandatory. */
  datatype Region = Region(kind: RegionKind, position: Rect)

  datatype SensitiveDataDetection = SensitiveDataDetection(
    aadhaarNumbers: seq<Entry>,
    panNumbers: seq<Entry>,
    phoneNumbers: seq<Entry>,
    blurredRegions: seq<Region>)

  /** The six stages a ProcessingStatus may report. */
  datatype Stage = Upload | Ocr | Detection | Redaction | Complete | Error

  /** What the pipeline reports at each step; the store keeps only the stage name. */
  datatype ProcessingStatus = ProcessingStatus(stage: Stage, progress: int, message: string, error: Option<string>)

  /** The string stored in a record's processingStatus column for a stage. */
  function StageName(s: Stage): string
  {
    match s
    case Upload => "upload"
    case Ocr => "ocr"
    case Detection => "detection"
    case Redaction => "redaction"
    case Complete => "complete"
    case Error => "error"
  }

  /** The column default of processingStatus; it is not the name of any stage. */
  const DefaultStatus: string := "pending"

  /** Stage names are distinct, and the default status lies outside the stage set. */
  lemma StageNames(a: Stage, b: Stage)
    ensures StageName(a) == StageName(b) <==> a == b
    ensures StageName(a) != DefaultStatus
  {
    if StageName(a) == StageName(b) {
      match a
      case Upload => assert StageName(b)[0] == 'u';
      case Ocr => assert StageName(b)[0] == 'o';
      case Detection => assert StageName(b)[..2] == "de";
      case Redaction => assert StageName(b)[0] == 'r';
      case Complete => assert StageName(b)[0] == 'c';
      case Error => assert StageName(b)[..2] == "er";
    }
    assert StageName(a)[0] != 'p';
  }

  /**
   * A document row. Timestamps are values of a logical clock; the nullable
   * columns redactedPath and detectedSensitiveData are Options.
   */
  datatype Document = Document(
    id: string,
    filename: string,
    originalPath: string,
    redactedPath: Option<string>,
    fileType: string,
    fileSize: int,
    processingStatus: string,
    detectedSensitiveData: Option<SensitiveDataDetection>,
    createdAt: int,
    updatedAt: int)

  /**
   * The insert shape: a row without id, createdAt and updatedAt. The columns
   * with a default or a null value may be omitted (None).
   */
  datatype InsertDocument = InsertDocument(
    filename: string,
    originalPath: string,
    redactedPath: Option<string>,
    fileType: string,
    fileSize: int,
    processingStatus: Option<string>,
    detectedSensitiveData: Option<SensitiveDataDetection>)

  /**
   * A partial row: None leaves the field alone; for the nullable columns,
   * Some(None) writes null.
   */
  datatype Patch = Patch(
    id: Option<string>,
    filename: Option<string>,
    originalPath: Option<string>,
    redactedPath: Option<Option<string>>,
    fileType: Option<string>,
    fileSize: Option<int>,
    processingStatus: Option<string>,
    detectedSensitiveData: Option<Option<SensitiveDataDetection>>,
    createdAt: Option<int>,
    updatedAt: Option<int>)

  const EmptyPatch: Patch := Patch(None, None, None, None, None, None, None, None, None, None)

  /** The record overwritten by the fields the patch supplies, with updatedAt set to now. */
  function ApplyPatch(d: Document, p: Patch, now: int): (r: Document)
    ensures r.updatedAt == now
    ensures p.processingStatus.None? ==> r.processingStatus == d.processingStatus
    ensures p.redactedPath.None? ==> r.redactedPath == d.redactedPath
    ensures p.detectedSensitiveData.None? ==> r.detectedSensitiveData == d.detectedSensitiveData
  {
    Document(
      if p.id.Some? then p.id.value else d.id,
      if p.filename.Some? then p.filename.value else d.filename,
      if p.originalPath.Some? then p.originalPath.value else d.originalPath,
      if p.redactedPath.Some? then p.redactedPath.value else d.redactedPath,
      if p.fileType.Some? then p.fileType.value else d.fileType,
      if p.fileSize.Some? then p.fileSize.value else d.fileSize,
      if p.processingStatus.Some? then p.processingStatus.value else d.processingStatus,
      if p.detectedSensitiveData.Some? then p.detectedSensitiveData.value else d.detectedSensitiveData,
      if p.createdAt.Some? then p.createdAt.value else d.createdAt,
      now)
  }

  /** One Option field of a patch laid over another: the later one wins where it is present. */
  function Over<T>(earlier: Option<T>, later: Option<T>): Option<T>
  {
    if later.Some? then later else earlier
  }

  /** Two patches merged into one, as two successive spreads `{...d, ...p, ...q}`. */
  function MergePatch(p: Patch, q: Patch): Patch
  {
    Patch(
      Over(p.id, q.id), Over(p.filename, q.filename), Over(p.originalPath, q.originalPath),
      Over(p.redactedPath, q.redactedPath), Over(p.fileType, q.fileType), Over(p.fileSize, q.fileSize),
      Over(p.processingStatus, q.processingStatus),
      Over(p.detectedSensitiveData, q.detectedSensitiveData),
      Over(p.createdAt, q.createdAt), Over(p.updatedAt, q.updatedAt))
  }

  /** Applying two patches in turn is applying their merge once: later fields win, nothing else moves. */
  lemma PatchesCompose(d: Document, p: Patch, q: Patch, t1: int, t2: int)
    ensures ApplyPatch(ApplyPatch(d, p, t1), q, t2) == ApplyPatch(d, MergePatch(p, q), t2)
  {
  }

  /** A patch that supplies nothing changes nothing but updatedAt. */
  lemma EmptyPatchOnlyTouches(d: Document, now: int)
    ensures ApplyPatch(d, EmptyPatch, now) == d.(updatedAt := now)
  {
  }

  /** Applying the same patch again leaves the record as it was, apart from the timestamp. */
  lemma PatchIdempotent(d: Document, p: Patch, t1: int, t2: int)
    ensures ApplyPatch(ApplyPatch(d, p, t1), p, t2) == ApplyPatch(d, p, t2)
  {
  }

  /** The patch updateProcessingStatus issues: the stage name only. */
  function StatusPatch(stage: Stage): (p: Patch)
    ensures p.processingStatus == Some(StageName(stage))
    ensures p.redactedPath.None? && p.detectedSensitiveData.None? && p.id.None?
  {
    EmptyPatch.(processingStatus := Some(StageName(stage)))
  }
}
