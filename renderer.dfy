/**
 * `createRedactedDocument`: the artifact's path, the directory it is
 * written to, and the branch that renders it. What the renderers would
 * read from disk and whether the file system cooperates are inputs.
 */
module Renderer {
  import opened Wrappers
  import opened Schema
  import opened Layout
  import opened Sanitize

  /** The one content type rendered as a PDF; every other type goes to the image renderer. */
  const PdfType := "application/pdf"

  /** What the file at the original path turns out to be when a renderer opens it. */
  datatype Original =
    | PdfFile(pageHeights: seq<int>)
    | ImageFile(width: Option<nat>, height: Option<nat>)
    | Unreadable

  /** Whether creating `uploads/redacted` and writing the artifact succeed. */
  datatype FileSystem = FileSystem(mkdirOk: bool, writeOk: bool)

  /** What is drawn into the artifact. */
  datatype Artifact = PdfArtifact(pages: seq<PageMarks>) | ImageArtifact(marks: ImageMarks)

  /** The artifact together with the path it is written to. */
  datatype Rendered = Rendered(path: string, artifact: Artifact)

  /** `mkdir` failed, or the PDF or the image renderer threw. */
  datatype RenderError = DirectoryFailed | PdfFailed | ImageFailed

  /**
   * The message of the error each failure throws. A failed `mkdir` throws the
   * file system's own error, whose text is not part of this model.
   */
  function ErrorMessage(e: RenderError): Option<string>
  {
    match e
    case DirectoryFailed => None
    case PdfFailed => Some("Failed to redact PDF document")
    case ImageFailed => Some("Failed to redact image document")
  }

  /** The outcome of createRedactedDocument, as a function of what it is given and what it finds. */
  function Render(originalPath: string, fileType: string, d: SensitiveDataDetection, original: Original, fs: FileSystem)
    : (r: Result<Rendered, RenderError>)
    ensures r == Failure(DirectoryFailed) <==> !fs.mkdirOk
    ensures r.Success? ==> fs.writeOk && r.value.path == RedactedPathFor(originalPath)
    ensures r.Success? ==> (r.value.artifact.PdfArtifact? <==> fileType == PdfType)
    ensures r.Failure? && fs.mkdirOk ==> r.error == (if fileType == PdfType then PdfFailed else ImageFailed)
  {
    var path := RedactedPathFor(originalPath);
    if !fs.mkdirOk then Failure(DirectoryFailed)
    else if fileType == PdfType then
      if original.PdfFile? && fs.writeOk
      then Success(Rendered(path, PdfArtifact(PdfLayout(original.pageHeights, d))))
      else Failure(PdfFailed)
    else
      if original.ImageFile? && original.width.Some? && original.height.Some?
         && original.width.value > 0 && original.height.value > 0 && fs.writeOk
      then Success(Rendered(path, ImageArtifact(ImageLayout(original.width.value, original.height.value, d.blurredRegions))))
      else Failure(ImageFailed)
  }

  /** createRedactedDocument: name the artifact, make its directory, then render by content type. */
  method CreateRedactedDocument(originalPath: string, fileType: string, d: SensitiveDataDetection,
                                original: Original, fs: FileSystem)
    returns (r: Result<Rendered, RenderError>)
    ensures r == Render(originalPath, fileType, d, original, fs)
  {
    var redactedPath := RedactedPathFor(originalPath);
    if !fs.mkdirOk {
      return Failure(DirectoryFailed);
    }
    if fileType == PdfType {
      if !original.PdfFile? {
        return Failure(PdfFailed);
      }
      var pages := RedactPdf(original.pageHeights, d);
      if !fs.writeOk {
        return Failure(PdfFailed);
      }
      r := Success(Rendered(redactedPath, PdfArtifact(pages)));
    } else {
      if !original.ImageFile? {
        return Failure(ImageFailed);
      }
      var marks := RedactImage(original.width, original.height, d.blurredRegions);
      if marks.Failure? {
        return Failure(ImageFailed);
      }
      if !fs.writeOk {
        return Failure(ImageFailed);
      }
      var w, h := original.width.value, original.height.value;
      assert marks.value == ImageLayout(w, h, d.blurredRegions);
      r := Success(Rendered(redactedPath, ImageArtifact(marks.value)));
    }
  }

  /**
   * A successful rendering is written to the sanitised redacted path; it is
   * a PDF exactly for `application/pdf`, one laid-out page per page of the
   * original, and otherwise an image with one overlay per blurred region.
   */
  lemma RenderedArtifact(originalPath: string, fileType: string, d: SensitiveDataDetection, original: Original, fs: FileSystem)
    requires Render(originalPath, fileType, d, original, fs).Success?
    ensures var out := Render(originalPath, fileType, d, original, fs).value;
      && out.path == RedactedPathFor(originalPath)
      && (out.artifact.PdfArtifact? <==> fileType == PdfType)
      && (out.artifact.PdfArtifact? ==>
            && original.PdfFile? && |out.artifact.pages| == |original.pageHeights|
            && forall i | 0 <= i < |out.artifact.pages| :: out.artifact.pages[i] == PageLayout(original.pageHeights[i], d))
      && (out.artifact.ImageArtifact? ==>
            && original.ImageFile? && |out.artifact.marks.overlays| == |d.blurredRegions|
            && out.artifact.marks.watermark == ImageWatermark)
  {
  }

  /** Rendering fails exactly when the directory, the file or its decoding fails, or an image has no size. */
  lemma RenderFails(originalPath: string, fileType: string, d: SensitiveDataDetection, original: Original, fs: FileSystem)
    ensures Render(originalPath, fileType, d, original, fs).Failure? <==>
      || !fs.mkdirOk || !fs.writeOk
      || (fileType == PdfType && !original.PdfFile?)
      || (fileType != PdfType && !(original.ImageFile? && original.width.Some? && original.height.Some?
                                   && original.width.value > 0 && original.height.value > 0))
  {
  }
}
