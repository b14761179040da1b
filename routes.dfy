/**
 * The server's route logic: the upload filter and the record it creates,
 * the background processing run, the file route and the delete route.
 * The OCR engine's answer, what the renderers find on disk and whether the
 * file system cooperates are inputs; the store is the MemStorage instance.
 */
module Routes {
  import opened Wrappers
  import opened Schema
  import opened Storage
  import opened Sanitize
  import Detector
  import Renderer

  // ---------------------------------------------------------------------
  // Upload
  // ---------------------------------------------------------------------

  /** multer's size limit: 10 MiB. */
  const MaxFileSize := 10 * 1024 * 1024

  /** The content types the upload filter lets through. */
  const AllowedTypes: seq<string> := ["application/pdf", "image/jpeg", "image/png", "image/jpg"]

  /** The multipart file multer stores under `uploads/` and describes on `req.file`. */
  datatype UploadedFile = UploadedFile(originalName: string, path: string, mimeType: string, size: nat)

  /** Why an upload creates no record. */
  datatype UploadError = NoFileUploaded | InvalidFileType | FileTooLarge

  /**
   * What the upload route makes of a request: multer's type filter, then
   * its size limit, then the handler's missing-file check; an accepted
   * file becomes a pending record with no redacted path and no detection.
   */
  function Admit(file: Option<UploadedFile>): (r: Result<InsertDocument, UploadError>)
    ensures r.Failure? <==> file.None? || file.value.mimeType !in AllowedTypes || file.value.size > MaxFileSize
    ensures file.None? ==> r.error == NoFileUploaded
    ensures file.Some? && file.value.mimeType !in AllowedTypes ==> r.error == InvalidFileType
    ensures r.Success? ==>
      && r.value.processingStatus == Some(DefaultStatus) && r.value.redactedPath.None?
      && r.value.detectedSensitiveData.None? && r.value.fileSize == file.value.size
  {
    match file
    case None => Failure(NoFileUploaded)
    case Some(f) =>
      if f.mimeType !in AllowedTypes then Failure(InvalidFileType)
      else if f.size > MaxFileSize then Failure(FileTooLarge)
      else Success(InsertDocument(f.originalName, f.path, None, f.mimeType, f.size, Some(DefaultStatus), None))
  }

  /** A file is admitted exactly when its type is one of the four allowed and it is at most 10 MiB. */
  lemma AdmitIff(f: UploadedFile)
    ensures Admit(Some(f)).Success? <==>
      f.mimeType in {"application/pdf", "image/jpeg", "image/png", "image/jpg"} && f.size <= 10485760
  {
  }

  /** POST /api/documents/upload, with the id `randomUUID()` would pick. */
  method UploadRoute(store: MemStorage, file: Option<UploadedFile>, id: string) returns (r: Result<Document, UploadError>)
    requires store.Valid() && id !in store.documents
    modifies store
    ensures store.Valid()
    ensures r.Failure? <==> Admit(file).Failure?
    ensures r.Failure? ==> r.error == Admit(file).error && unchanged(store)
    ensures r.Success? ==>
      && r.value == NewRecord(Admit(file).value, id, store.clock)
      && store.clock == old(store.clock) + 1
      && store.documents == old(store.documents)[id := r.value]
      && store.log == old(store.log) + [Put(id, r.value)]
  {
    var admitted := Admit(file);
    if admitted.Failure? {
      return Failure(admitted.error);
    }
    var doc := store.CreateDocument(admitted.value, id);
    r := Success(doc);
  }

  /** The record of an accepted upload starts pending, with null redactedPath and null detection. */
  lemma UploadedRecord(file: Option<UploadedFile>, id: string, now: int)
    requires Admit(file).Success?
    ensures var d := NewRecord(Admit(file).value, id, now);
      && d.processingStatus == "pending" && d.redactedPath.None? && d.detectedSensitiveData.None?
      && d.id == id && d.originalPath == file.value.path && d.fileType == file.value.mimeType
      && d.fileType in AllowedTypes && d.fileSize <= MaxFileSize
      && Consistent(d)
  {
  }

  // ---------------------------------------------------------------------
  // Processing run
  // ---------------------------------------------------------------------

  /**
   * `ocrService.extractText`: PDFs always throw; for images the engine's
   * answer (None when it throws) is the text.
   */
  function ExtractText(fileType: string, ocr: Option<string>): (r: Option<string>)
    ensures fileType == Renderer.PdfType ==> r.None?
    ensures fileType != Renderer.PdfType ==> r == ocr
  {
    if fileType == Renderer.PdfType then None else ocr
  }

  /** How a run over an existing record ends. */
  datatype RunOutcome =
    | ExtractionFailed
    | RenderingFailed
    | Completed(redactedPath: string, detection: SensitiveDataDetection)

  /** The outcome of processDocumentAsync for the record, from the OCR answer, the original file and the file system. */
  function PlanRun(doc: Document, ocr: Option<string>, original: Renderer.Original, fs: Renderer.FileSystem): (o: RunOutcome)
    ensures doc.fileType == Renderer.PdfType || ocr.None? ==> o == ExtractionFailed
    ensures !fs.mkdirOk && o != ExtractionFailed ==> o == RenderingFailed
    ensures o.Completed? ==> fs.writeOk && o.redactedPath == RedactedPathFor(doc.originalPath)
  {
    match ExtractText(doc.fileType, ocr)
    case None => ExtractionFailed
    case Some(text) =>
      var detection := Detector.Detect(text);
      match Renderer.Render(doc.originalPath, doc.fileType, detection, original, fs)
      case Failure(_) => RenderingFailed
      case Success(out) => Completed(out.path, detection)
  }

  /** The single update that publishes the results: path, detection and `complete` together. */
  function CommitPatch(redactedPath: string, detection: SensitiveDataDetection): Patch
  {
    EmptyPatch.(redactedPath := Some(Some(redactedPath)),
                processingStatus := Some(StageName(Complete)),
                detectedSensitiveData := Some(Some(detection)))
  }

  /** The updates a run issues, in order. */
  function RunPatches(o: RunOutcome): (r: seq<Patch>)
    ensures 2 <= |r| <= 5 && r[0] == StatusPatch(Ocr)
    ensures r[|r| - 1] == StatusPatch(if o.Completed? then Complete else Error)
  {
    match o
    case ExtractionFailed => [StatusPatch(Ocr), StatusPatch(Error)]
    case RenderingFailed => [StatusPatch(Ocr), StatusPatch(Detection), StatusPatch(Redaction), StatusPatch(Error)]
    case Completed(path, detection) =>
      [StatusPatch(Ocr), StatusPatch(Detection), StatusPatch(Redaction), CommitPatch(path, detection), StatusPatch(Complete)]
  }

  /** The successive versions of the record as the patches are applied, one clock tick each, from time t. */
  function Replay(d: Document, patches: seq<Patch>, t: int): (r: seq<Document>)
    ensures |r| == |patches|
    decreases |patches|
  {
    if patches == [] then []
    else
      var next := ApplyPatch(d, patches[0], t + 1);
      [next] + Replay(next, patches[1..], t + 1)
  }

  /** Each update takes one clock tick: the last version is stamped t plus the number of updates. */
  lemma {:induction false} ReplayLastTime(d: Document, patches: seq<Patch>, t: int)
    requires patches != []
    ensures Replay(d, patches, t)[|patches| - 1].updatedAt == t + |patches|
    decreases |patches|
  {
    if |patches| > 1 {
      ReplayLastTime(ApplyPatch(d, patches[0], t + 1), patches[1..], t + 1);
    }
  }

  /** The record after the patches. */
  function Final(d: Document, patches: seq<Patch>, t: int): (r: Document)
    ensures patches == [] ==> r == d
    ensures patches != [] ==> r.updatedAt == t + |patches|
  {
    var docs := Replay(d, patches, t);
    if docs == [] then d else ReplayLastTime(d, patches, t); docs[|docs| - 1]
  }

  /** The writes the store logs for the successive versions of record id. */
  function Puts(id: string, docs: seq<Document>): (r: seq<Write>)
    ensures |r| == |docs| && forall i | 0 <= i < |docs| :: r[i] == Put(id, docs[i])
  {
    seq(|docs|, i requires 0 <= i < |docs| => Put(id, docs[i]))
  }

  lemma {:induction false} ReplaySnoc(d: Document, patches: seq<Patch>, p: Patch, t: int)
    ensures Replay(d, patches + [p], t) == Replay(d, patches, t) + [ApplyPatch(Final(d, patches, t), p, t + |patches| + 1)]
    decreases |patches|
  {
    if patches != [] {
      var next := ApplyPatch(d, patches[0], t + 1);
      assert (patches + [p])[1..] == patches[1..] + [p];
      ReplaySnoc(next, patches[1..], p, t + 1);
    }
  }

  /** One more update of a replayed record: the invariant the run keeps after each store call. */
  lemma ReplayStep(id: string, d: Document, patches: seq<Patch>, p: Patch, t: int)
    ensures Final(d, patches + [p], t) == ApplyPatch(Final(d, patches, t), p, t + |patches| + 1)
    ensures Puts(id, Replay(d, patches + [p], t)) == Puts(id, Replay(d, patches, t)) + [Put(id, Final(d, patches + [p], t))]
  {
    ReplaySnoc(d, patches, p, t);
  }

  /** A pipeline-driven record: redactedPath and the detection result are set exactly when the stage is `complete`. */
  predicate Consistent(d: Document)
  {
    && (d.redactedPath.Some? <==> d.processingStatus == StageName(Complete))
    && (d.detectedSensitiveData.Some? <==> d.processingStatus == StageName(Complete))
  }

  /**
   * The store part-way through a run over record id: the record is the
   * last version after the updates issued so far, the clock has ticked once
   * per update and every version has been logged in turn.
   */
  ghost predicate InRun(store: MemStorage, id: string, d0: Document, docs0: map<string, Document>,
                        t0: int, log0: seq<Write>, done: seq<Patch>)
    reads store
  {
    && store.Valid()
    && store.documents == docs0[id := Final(d0, done, t0)]
    && store.clock == t0 + |done|
    && store.log == log0 + Puts(id, Replay(d0, done, t0))
  }

  /** One `updateProcessingStatus` call of the run. */
  method StatusStep(store: MemStorage, id: string, status: ProcessingStatus, ghost d0: Document,
                    ghost docs0: map<string, Document>, ghost t0: int, ghost log0: seq<Write>, ghost done: seq<Patch>)
    requires InRun(store, id, d0, docs0, t0, log0, done)
    modifies store
    ensures InRun(store, id, d0, docs0, t0, log0, done + [StatusPatch(status.stage)])
  {
    ghost var p := StatusPatch(status.stage);
    ghost var before := Final(d0, done, t0);
    store.UpdateProcessingStatus(id, status);
    ReplayStep(id, d0, done, p, t0);
    ghost var after := Final(d0, done + [p], t0);
    assert after == ApplyPatch(before, p, store.clock);
    assert store.documents == old(store.documents)[id := after];
    MapUpdateTwice(docs0, id, before, after);
  }

  /** The `updateDocument` call that publishes the results. */
  method CommitStep(store: MemStorage, id: string, redactedPath: string, detection: SensitiveDataDetection,
                    ghost d0: Document, ghost docs0: map<string, Document>, ghost t0: int, ghost log0: seq<Write>,
                    ghost done: seq<Patch>)
    requires InRun(store, id, d0, docs0, t0, log0, done)
    modifies store
    ensures InRun(store, id, d0, docs0, t0, log0, done + [CommitPatch(redactedPath, detection)])
  {
    var p := CommitPatch(redactedPath, detection);
    assert p.id.None?;
    ghost var before := Final(d0, done, t0);
    assert id in store.documents && store.documents[id] == before;
    var _ := store.UpdateDocument(id, p);
    ReplayStep(id, d0, done, p, t0);
    ghost var after := Final(d0, done + [p], t0);
    assert after == ApplyPatch(before, p, store.clock);
    assert store.documents == old(store.documents)[id := after];
    MapUpdateTwice(docs0, id, before, after);
  }

  lemma MapUpdateTwice<K, V>(m: map<K, V>, k: K, a: V, b: V)
    ensures m[k := a][k := b] == m[k := b]
  {
  }

  /** The patch lists in the order the run issues them, one call at a time. */
  lemma RunPatchesInOrder(path: string, detection: SensitiveDataDetection)
    ensures RunPatches(ExtractionFailed) == [StatusPatch(Ocr)] + [StatusPatch(Error)]
    ensures RunPatches(RenderingFailed) ==
      [StatusPatch(Ocr)] + [StatusPatch(Detection)] + [StatusPatch(Redaction)] + [StatusPatch(Error)]
    ensures RunPatches(Completed(path, detection)) ==
      [StatusPatch(Ocr)] + [StatusPatch(Detection)] + [StatusPatch(Redaction)] + [CommitPatch(path, detection)] + [StatusPatch(Complete)]
  {
  }

  /** Once text was extracted, the outcome is decided by what rendering the detection gives. */
  lemma PlanRunAfterExtraction(doc: Document, ocr: Option<string>, text: string, original: Renderer.Original,
                               fs: Renderer.FileSystem, rendered: Result<Renderer.Rendered, Renderer.RenderError>)
    requires ExtractText(doc.fileType, ocr) == Some(text)
    requires rendered == Renderer.Render(doc.originalPath, doc.fileType, Detector.Detect(text), original, fs)
    ensures rendered.Failure? ==> PlanRun(doc, ocr, original, fs) == RenderingFailed
    ensures rendered.Success? ==> PlanRun(doc, ocr, original, fs) == Completed(rendered.value.path, Detector.Detect(text))
  {
  }

  /**
   * processDocumentAsync for one record, run to the end without
   * interleaving: the store ends with the record's last version and has
   * logged every version in turn; for an unknown id nothing changes.
   */
  method ProcessDocument(store: MemStorage, id: string, ocr: Option<string>,
                         original: Renderer.Original, fs: Renderer.FileSystem)
    requires store.Valid()
    modifies store
    ensures store.Valid()
    ensures id !in old(store.documents) ==>
      store.documents == old(store.documents) && store.clock == old(store.clock) && store.log == old(store.log)
    ensures id in old(store.documents) ==>
      var d0 := old(store.documents)[id];
      InRun(store, id, d0, old(store.documents), old(store.clock), old(store.log), RunPatches(PlanRun(d0, ocr, original, fs)))
  {
    ghost var docs0, t0, log0 := store.documents, store.clock, store.log;
    store.UpdateProcessingStatus(id, ProcessingStatus(Ocr, 25, "Extracting text from document...", None));
    var document := store.GetDocument(id);
    if document.None? {
      return;
    }
    ghost var d0 := docs0[id];
    ReplayStep(id, d0, [], StatusPatch(Ocr), t0);
    assert [] + [StatusPatch(Ocr)] == [StatusPatch(Ocr)];
    assert InRun(store, id, d0, docs0, t0, log0, [StatusPatch(Ocr)]);
    var doc := document.value;

    var text := ExtractText(doc.fileType, ocr);
    if text.None? {
      StatusStep(store, id, ProcessingStatus(Error, 0, "Processing failed", Some("Failed to extract text from document")),
                 d0, docs0, t0, log0, [StatusPatch(Ocr)]);
      RunPatchesInOrder("", SensitiveDataDetection([], [], [], []));
      assert PlanRun(d0, ocr, original, fs) == ExtractionFailed;
      return;
    }
    RedactText(store, id, doc, text.value, ocr, original, fs, d0, docs0, t0, log0);
  }

  /** The part of the run after text extraction succeeded: detection, redaction, then commit or error. */
  method RedactText(store: MemStorage, id: string, doc: Document, text: string, ghost ocr: Option<string>,
                    original: Renderer.Original, fs: Renderer.FileSystem, ghost d0: Document,
                    ghost docs0: map<string, Document>, ghost t0: int, ghost log0: seq<Write>)
    requires doc.fileType == d0.fileType && doc.originalPath == d0.originalPath
    requires ExtractText(doc.fileType, ocr) == Some(text)
    requires InRun(store, id, d0, docs0, t0, log0, [StatusPatch(Ocr)])
    modifies store
    ensures InRun(store, id, d0, docs0, t0, log0, RunPatches(PlanRun(d0, ocr, original, fs)))
  {
    ghost var done := [StatusPatch(Ocr)];
    StatusStep(store, id, ProcessingStatus(Detection, 50, "Detecting sensitive information...", None), d0, docs0, t0, log0, done);
    done := done + [StatusPatch(Detection)];
    var detection := Detector.DetectSensitiveData(text);

    StatusStep(store, id, ProcessingStatus(Redaction, 75, "Redacting sensitive information...", None), d0, docs0, t0, log0, done);
    done := done + [StatusPatch(Redaction)];
    var rendered := Renderer.CreateRedactedDocument(doc.originalPath, doc.fileType, detection, original, fs);
    PlanRunAfterExtraction(d0, ocr, text, original, fs, rendered);
    if rendered.Failure? {
      StatusStep(store, id, ProcessingStatus(Error, 0, "Processing failed", Renderer.ErrorMessage(rendered.error)), d0, docs0, t0, log0, done);
      RunPatchesInOrder("", detection);
      return;
    }

    CommitStep(store, id, rendered.value.path, detection, d0, docs0, t0, log0, done);
    done := done + [CommitPatch(rendered.value.path, detection)];
    StatusStep(store, id, ProcessingStatus(Complete, 100, "Document processing complete", None), d0, docs0, t0, log0, done);
    RunPatchesInOrder(rendered.value.path, detection);
  }

  // ---------------------------------------------------------------------
  // What a run leaves behind
  // ---------------------------------------------------------------------

  /** Every version in the list is Consistent. */
  ghost predicate AllConsistent(docs: seq<Document>)
  {
    forall i | 0 <= i < |docs| :: Consistent(docs[i])
  }

  lemma ConsistentSnoc(d: Document, patches: seq<Patch>, p: Patch, t: int)
    requires AllConsistent(Replay(d, patches, t))
    requires Consistent(ApplyPatch(Final(d, patches, t), p, t + |patches| + 1))
    ensures AllConsistent(Replay(d, patches + [p], t))
  {
    ReplaySnoc(d, patches, p, t);
  }

  /** The record after a run, for each way the run can end: only the stage, the results and the timestamp change. */
  lemma RunFinal(d0: Document, o: RunOutcome, t: int)
    ensures var f := Final(d0, RunPatches(o), t);
      && f == d0.(processingStatus := f.processingStatus, redactedPath := f.redactedPath,
                  detectedSensitiveData := f.detectedSensitiveData, updatedAt := t + |RunPatches(o)|)
      && (o.Completed? ==>
            f.processingStatus == "complete" && f.redactedPath == Some(o.redactedPath)
            && f.detectedSensitiveData == Some(o.detection))
      && (!o.Completed? ==>
            f.processingStatus == "error" && f.redactedPath == d0.redactedPath
            && f.detectedSensitiveData == d0.detectedSensitiveData)
  {
    match o
    case ExtractionFailed => FinalExtractionFailed(d0, t);
    case RenderingFailed => FinalRenderingFailed(d0, t);
    case Completed(path, detection) => FinalCompleted(d0, path, detection, t);
  }

  /** The record after one more update, without the log. */
  lemma FinalSnoc(d: Document, patches: seq<Patch>, p: Patch, t: int)
    ensures Final(d, patches + [p], t) == ApplyPatch(Final(d, patches, t), p, t + |patches| + 1)
  {
    ReplaySnoc(d, patches, p, t);
  }

  /** The publishing update sets the stage, the path and the detection, and the timestamp. */
  lemma CommitOnto(d: Document, path: string, detection: SensitiveDataDetection, now: int)
    ensures ApplyPatch(d, CommitPatch(path, detection), now) ==
      d.(processingStatus := "complete", redactedPath := Some(path), detectedSensitiveData := Some(detection),
         updatedAt := now)
  {
  }

  /** The record after the three stage updates every run past extraction issues. */
  lemma FinalThroughRedaction(d0: Document, t: int)
    ensures Final(d0, [StatusPatch(Ocr)] + [StatusPatch(Detection)] + [StatusPatch(Redaction)], t) ==
      d0.(processingStatus := "redaction", updatedAt := t + 3)
  {
    var p1, p2 := [StatusPatch(Ocr)], [StatusPatch(Ocr)] + [StatusPatch(Detection)];
    FinalSnoc(d0, [], StatusPatch(Ocr), t);
    assert [] + [StatusPatch(Ocr)] == p1;
    StatusUpdateOnlyStage(d0, Ocr, t + 1);
    var f1 := Final(d0, p1, t);
    FinalSnoc(d0, p1, StatusPatch(Detection), t);
    StatusUpdateOnlyStage(f1, Detection, t + 2);
    var f2 := Final(d0, p2, t);
    FinalSnoc(d0, p2, StatusPatch(Redaction), t);
    StatusUpdateOnlyStage(f2, Redaction, t + 3);
  }

  lemma FinalExtractionFailed(d0: Document, t: int)
    ensures Final(d0, RunPatches(ExtractionFailed), t) == d0.(processingStatus := "error", updatedAt := t + 2)
  {
    RunPatchesInOrder("", SensitiveDataDetection([], [], [], []));
    FinalSnoc(d0, [], StatusPatch(Ocr), t);
    assert [] + [StatusPatch(Ocr)] == [StatusPatch(Ocr)];
    StatusUpdateOnlyStage(d0, Ocr, t + 1);
    var f1 := Final(d0, [StatusPatch(Ocr)], t);
    FinalSnoc(d0, [StatusPatch(Ocr)], StatusPatch(Error), t);
    StatusUpdateOnlyStage(f1, Error, t + 2);
  }

  lemma FinalRenderingFailed(d0: Document, t: int)
    ensures Final(d0, RunPatches(RenderingFailed), t) == d0.(processingStatus := "error", updatedAt := t + 4)
  {
    RunPatchesInOrder("", SensitiveDataDetection([], [], [], []));
    var p3 := [StatusPatch(Ocr)] + [StatusPatch(Detection)] + [StatusPatch(Redaction)];
    FinalThroughRedaction(d0, t);
    var f3 := Final(d0, p3, t);
    FinalSnoc(d0, p3, StatusPatch(Error), t);
    StatusUpdateOnlyStage(f3, Error, t + 4);
  }

  lemma FinalCompleted(d0: Document, path: string, detection: SensitiveDataDetection, t: int)
    ensures Final(d0, RunPatches(Completed(path, detection)), t) ==
      d0.(processingStatus := "complete", redactedPath := Some(path), detectedSensitiveData := Some(detection),
          updatedAt := t + 5)
  {
    RunPatchesInOrder(path, detection);
    var p3 := [StatusPatch(Ocr)] + [StatusPatch(Detection)] + [StatusPatch(Redaction)];
    var p4 := p3 + [CommitPatch(path, detection)];
    FinalThroughRedaction(d0, t);
    var f3 := Final(d0, p3, t);
    FinalSnoc(d0, p3, CommitPatch(path, detection), t);
    CommitOnto(f3, path, detection, t + 4);
    var f4 := Final(d0, p4, t);
    FinalSnoc(d0, p4, StatusPatch(Complete), t);
    StatusUpdateOnlyStage(f4, Complete, t + 5);
  }

  /**
   * Publishing is atomic: starting from a record without results, every
   * version a run writes has a redacted path and a detection result exactly
   * when its stage is `complete`, so no reader sees one without the other.
   */
  lemma RunKeepsConsistent(d0: Document, o: RunOutcome, t: int)
    requires d0.redactedPath.None? && d0.detectedSensitiveData.None?
    ensures AllConsistent(Replay(d0, RunPatches(o), t))
  {
    var path := if o.Completed? then o.redactedPath else "";
    var detection := if o.Completed? then o.detection else SensitiveDataDetection([], [], [], []);
    RunPatchesInOrder(path, detection);
    var p1, p2, p3 := [StatusPatch(Ocr)], [StatusPatch(Ocr)] + [StatusPatch(Detection)],
      [StatusPatch(Ocr)] + [StatusPatch(Detection)] + [StatusPatch(Redaction)];
    StatusUpdateOnlyStage(d0, Ocr, t + 1);
    ConsistentSnoc(d0, [], StatusPatch(Ocr), t);
    assert [] + [StatusPatch(Ocr)] == p1;
    FinalSnoc(d0, [], StatusPatch(Ocr), t);
    var f1 := Final(d0, p1, t);
    if o.ExtractionFailed? {
      StatusUpdateOnlyStage(f1, Error, t + 2);
      ConsistentSnoc(d0, p1, StatusPatch(Error), t);
    } else {
      StatusUpdateOnlyStage(f1, Detection, t + 2);
      ConsistentSnoc(d0, p1, StatusPatch(Detection), t);
      FinalSnoc(d0, p1, StatusPatch(Detection), t);
      var f2 := Final(d0, p2, t);
      StatusUpdateOnlyStage(f2, Redaction, t + 3);
      ConsistentSnoc(d0, p2, StatusPatch(Redaction), t);
      FinalSnoc(d0, p2, StatusPatch(Redaction), t);
      var f3 := Final(d0, p3, t);
      if o.RenderingFailed? {
        StatusUpdateOnlyStage(f3, Error, t + 4);
        ConsistentSnoc(d0, p3, StatusPatch(Error), t);
      } else {
        CommitOnto(f3, path, detection, t + 4);
        ConsistentSnoc(d0, p3, CommitPatch(path, detection), t);
        FinalSnoc(d0, p3, CommitPatch(path, detection), t);
        var f4 := Final(d0, p3 + [CommitPatch(path, detection)], t);
        StatusUpdateOnlyStage(f4, Complete, t + 5);
        ConsistentSnoc(d0, p3 + [CommitPatch(path, detection)], StatusPatch(Complete), t);
      }
    }
  }

  /**
   * A run completes exactly when the file is not a PDF, the OCR engine
   * answered and rendering succeeded; then it publishes the redacted path
   * derived from the original's name and the detection of the text.
   */
  lemma PlanRunCompletes(doc: Document, ocr: Option<string>, original: Renderer.Original, fs: Renderer.FileSystem)
    ensures PlanRun(doc, ocr, original, fs).Completed? <==>
      && doc.fileType != Renderer.PdfType && ocr.Some?
      && Renderer.Render(doc.originalPath, doc.fileType, Detector.Detect(ocr.value), original, fs).Success?
    ensures PlanRun(doc, ocr, original, fs).Completed? ==>
      && PlanRun(doc, ocr, original, fs).redactedPath == RedactedPathFor(doc.originalPath)
      && PlanRun(doc, ocr, original, fs).detection == Detector.Detect(ocr.value)
  {
    if ExtractText(doc.fileType, ocr).Some? {
      var out := Renderer.Render(doc.originalPath, doc.fileType, Detector.Detect(ocr.value), original, fs);
      if out.Success? {
        Renderer.RenderedArtifact(doc.originalPath, doc.fileType, Detector.Detect(ocr.value), original, fs);
      }
    }
  }

  /** Text extraction always throws for PDFs, so every PDF run ends in `error` with no results. */
  lemma PdfRunFails(doc: Document, ocr: Option<string>, original: Renderer.Original, fs: Renderer.FileSystem, t: int)
    requires doc.fileType == Renderer.PdfType
    ensures PlanRun(doc, ocr, original, fs) == ExtractionFailed
    ensures Final(doc, RunPatches(PlanRun(doc, ocr, original, fs)), t).processingStatus == "error"
  {
    RunFinal(doc, ExtractionFailed, t);
  }

  // ---------------------------------------------------------------------
  // GET /api/documents/:id/file/:type
  // ---------------------------------------------------------------------

  /** The files on disk, by path. */
  type Disk = set<string>

  /** The answers of the file route. */
  datatype FileResponse =
    | DocumentNotFound
    | FileNotAvailable(kind: string)
    | DownloadFailed
    | Serve(path: string, contentType: string, disposition: string)

  /** The path the route reads: the redacted file for `redacted`, the original for any other type. */
  function FilePathFor(doc: Document, kind: string): (r: Option<string>)
    ensures r.Some? ==> r.value == doc.originalPath || r == doc.redactedPath
    ensures kind != "redacted" ==> r == Some(doc.originalPath)
  {
    if kind == "redacted" then doc.redactedPath else Some(doc.originalPath)
  }

  /** How the Content-Disposition header starts. */
  const DispositionPrefix := "inline; filename=\""

  /** The Content-Disposition header: inline, named after the type and the sanitised file name. */
  function Disposition(kind: string, filename: string): (h: string)
    ensures 20 + |kind| <= |h| <= 20 + |kind| + MaxNameLength && h[|h| - 1] == '"'
  {
    DispositionPrefix + kind + "_" + SanitizeFilename(filename) + "\""
  }

  /** The file route's answer for the record (if any), the requested type and the disk. */
  function ServeFile(doc: Option<Document>, kind: string, disk: Disk): (r: FileResponse)
    ensures r == DocumentNotFound <==> doc.None?
    ensures r.Serve? ==> r.path in disk && r.path != "" && r.contentType == doc.value.fileType
    ensures r.FileNotAvailable? ==> r.kind == kind
  {
    match doc
    case None => DocumentNotFound
    case Some(d) =>
      var path := FilePathFor(d, kind);
      if path.None? || path.value == "" then FileNotAvailable(kind)
      else if path.value !in disk then DownloadFailed
      else Serve(path.value, d.fileType, Disposition(kind, d.filename))
  }

  /**
   * A file is served exactly when the record exists, the chosen path is set
   * and non-empty and the file is on disk; it is the redacted file only when
   * that was asked for, served as the record's type.
   */
  lemma ServeFileIff(doc: Option<Document>, kind: string, disk: Disk)
    ensures ServeFile(doc, kind, disk).Serve? <==>
      doc.Some? && (if kind == "redacted" then doc.value.redactedPath else Some(doc.value.originalPath)) in
        (set p <- disk | p != "" :: Some(p))
    ensures ServeFile(doc, kind, disk).Serve? ==>
      && ServeFile(doc, kind, disk).contentType == doc.value.fileType
      && (kind == "redacted" ==> doc.value.redactedPath == Some(ServeFile(doc, kind, disk).path))
      && (kind != "redacted" ==> ServeFile(doc, kind, disk).path == doc.value.originalPath)
  {
  }

  /** Before processing completes there is no redacted file to serve. */
  lemma NoRedactedBeforeComplete(d: Document, disk: Disk)
    requires Consistent(d) && d.processingStatus != "complete"
    ensures ServeFile(Some(d), "redacted", disk) == FileNotAvailable("redacted")
  {
  }

  /**
   * The header is `inline; filename="<type>_<name>"` where the name is a
   * clean file name, so the name part holds no quote. The type part is the
   * request's `:type` parameter, copied unchecked (`DispositionCopiesKind`).
   */
  lemma DispositionIsQuoted(kind: string, filename: string)
    ensures var h := Disposition(kind, filename);
      var name := h[|DispositionPrefix + kind + "_"| .. |h| - 1];
      && h[..|DispositionPrefix + kind + "_"|] == DispositionPrefix + kind + "_"
      && h[|h| - 1] == '"'
      && IsClean(name) && '"' !in name && |name| <= 100
  {
    var name := SanitizeFilename(filename);
    SanitizedIsClean(filename);
    var prefix := DispositionPrefix + kind + "_";
    var h := Disposition(kind, filename);
    assert h == prefix + name + "\"";
    assert h[|prefix| .. |h| - 1] == name;
  }

  /**
   * The requested type goes into the quoted value as it is, right after
   * `inline; filename="`: nothing keeps a quote out of it.
   */
  lemma DispositionCopiesKind(kind: string, filename: string)
    ensures var h, k := Disposition(kind, filename), |DispositionPrefix|;
      && k + |kind| < |h| - 1 && h[..k] == DispositionPrefix
      && h[k..k + |kind|] == kind && h[k + |kind|] == '_'
  {
    var h, k := Disposition(kind, filename), |DispositionPrefix|;
    var c := DispositionPrefix + kind;
    assert c[..k] == DispositionPrefix && c[k..] == kind;
    assert h == c + "_" + SanitizeFilename(filename) + "\"";
    assert h[..|c|] == c && h[|c|] == '_';
  }

  // ---------------------------------------------------------------------
  // DELETE /api/documents/:id
  // ---------------------------------------------------------------------

  /**
   * The disk after the clean-up: the original is unlinked; only if that
   * succeeded is a set, non-empty redacted path unlinked too. A failed
   * unlink is caught and ends the clean-up.
   */
  function CleanUp(doc: Document, disk: Disk): (r: Disk)
    ensures r <= disk
    ensures forall p <- disk - r :: p == doc.originalPath || Some(p) == doc.redactedPath
  {
    if doc.originalPath !in disk then disk
    else
      var rest := disk - {doc.originalPath};
      if doc.redactedPath.Some? && doc.redactedPath.value != "" then rest - {doc.redactedPath.value} else rest
  }

  /**
   * The clean-up removes the record's files and nothing else; when the
   * original was already gone nothing is removed, not even the redacted file.
   */
  lemma CleanUpRemovesOwnFiles(doc: Document, disk: Disk)
    ensures CleanUp(doc, disk) <= disk
    ensures doc.originalPath in disk ==>
      doc.originalPath !in CleanUp(doc, disk) &&
      (doc.redactedPath.Some? && doc.redactedPath.value != "" ==> doc.redactedPath.value !in CleanUp(doc, disk))
    ensures doc.originalPath !in disk ==> CleanUp(doc, disk) == disk
    ensures forall p <- disk :: p !in CleanUp(doc, disk) ==> p == doc.originalPath || Some(p) == doc.redactedPath
  {
  }

  /** DELETE /api/documents/:id: files first, then the record; `found` is false for the 404 answer. */
  method DeleteRoute(store: MemStorage, disk: Disk, id: string) returns (found: bool, diskAfter: Disk)
    requires store.Valid()
    modifies store
    ensures store.Valid()
    ensures found <==> id in old(store.documents)
    ensures diskAfter == if found then CleanUp(old(store.documents)[id], disk) else disk
    ensures store.documents == old(store.documents) - {id} && id !in store.documents
    ensures store.clock == old(store.clock)
  {
    var document := store.GetDocument(id);
    diskAfter := disk;
    if document.Some? {
      var doc := document.value;
      if doc.originalPath in diskAfter {
        diskAfter := diskAfter - {doc.originalPath};
        if doc.redactedPath.Some? && doc.redactedPath.value != "" {
          diskAfter := diskAfter - {doc.redactedPath.value};
        }
      }
    }
    found := store.DeleteDocument(id);
  }
}
