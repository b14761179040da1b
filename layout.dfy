/**
 * The coordinates the redaction service hands to its renderers: the
 * rectangles drawn on every PDF page and the overlays composited onto an
 * image. The renderers themselves only receive these values.
 */
module Layout {
  import opened Wrappers
  import opened Schema

  // ---------------------------------------------------------------------
  // PDF pages
  // ---------------------------------------------------------------------

  /** Where the `REDACTED DOCUMENT` text is drawn. */
  datatype TextMark = TextMark(x: int, y: int)

  /** What one page receives: its black rectangles, top to bottom, and the watermark. */
  datatype PageMarks = PageMarks(boxes: seq<Rect>, watermark: TextMark)

  const BoxX := 50
  const BoxHeight := 15
  const AadhaarBoxWidth := 200
  const PanBoxWidth := 150
  const PhoneBoxWidth := 120
  const MaxPhoneBoxes := 3

  function Min(a: int, b: int): int { if a <= b then a else b }

  /**
   * The page layout in closed form: one Aadhaar box at height-100 if any
   * Aadhaar number was found, a PAN box 25 below it (or in its place), and
   * up to three phone boxes 20 apart below those.
   */
  function PageLayout(height: int, d: SensitiveDataDetection): (m: PageMarks)
    ensures |m.boxes| <= 2 + MaxPhoneBoxes && m.watermark == TextMark(BoxX, height - 50)
  {
    var top := height - 100;
    var panY := if |d.aadhaarNumbers| > 0 then top - 25 else top;
    var phoneY := if |d.panNumbers| > 0 then panY - 25 else panY;
    var phones := Min(|d.phoneNumbers|, MaxPhoneBoxes);
    PageMarks(
      (if |d.aadhaarNumbers| > 0 then [Rect(BoxX, top, AadhaarBoxWidth, BoxHeight)] else [])
      + (if |d.panNumbers| > 0 then [Rect(BoxX, panY, PanBoxWidth, BoxHeight)] else [])
      + PhoneBoxes(phoneY, phones),
      TextMark(BoxX, height - 50))
  }

  /** n phone boxes, the first at y and each next one 20 lower. */
  function PhoneBoxes(y: int, n: nat): (r: seq<Rect>)
    ensures |r| == n
    ensures forall i | 0 <= i < n :: r[i] == Rect(BoxX, y - 20 * i, PhoneBoxWidth, BoxHeight)
  {
    seq(n, i => Rect(BoxX, y - 20 * i, PhoneBoxWidth, BoxHeight))
  }

  /** Every page laid out by its own height. */
  function PdfLayout(pageHeights: seq<int>, d: SensitiveDataDetection): (r: seq<PageMarks>)
    ensures |r| == |pageHeights|
    ensures forall i | 0 <= i < |r| :: r[i] == PageLayout(pageHeights[i], d)
  {
    seq(|pageHeights|, i requires 0 <= i < |pageHeights| => PageLayout(pageHeights[i], d))
  }

  /**
   * `redactPDF`: for each page (given by its height), the rectangles drawn
   * while yOffset walks down the page, then the watermark.
   */
  method RedactPdf(pageHeights: seq<int>, d: SensitiveDataDetection) returns (pages: seq<PageMarks>)
    ensures pages == PdfLayout(pageHeights, d)
  {
    pages := [];
    for p := 0 to |pageHeights|
      invariant |pages| == p
      invariant forall i | 0 <= i < p :: pages[i] == PageLayout(pageHeights[i], d)
    {
      var height := pageHeights[p];
      var yOffset := height - 100;
      var boxes: seq<Rect> := [];
      if |d.aadhaarNumbers| > 0 {
        boxes := boxes + [Rect(BoxX, yOffset, AadhaarBoxWidth, BoxHeight)];
        yOffset := yOffset - 25;
      }
      if |d.panNumbers| > 0 {
        boxes := boxes + [Rect(BoxX, yOffset, PanBoxWidth, BoxHeight)];
        yOffset := yOffset - 25;
      }
      ghost var head, phoneY := boxes, yOffset;
      if |d.phoneNumbers| > 0 {
        for i := 0 to Min(|d.phoneNumbers|, MaxPhoneBoxes)
          invariant boxes == head + PhoneBoxes(phoneY, i)
          invariant yOffset == phoneY - 20 * i
        {
          assert PhoneBoxes(phoneY, i + 1) == PhoneBoxes(phoneY, i) + [Rect(BoxX, yOffset, PhoneBoxWidth, BoxHeight)];
          boxes := boxes + [Rect(BoxX, yOffset, PhoneBoxWidth, BoxHeight)];
          yOffset := yOffset - 20;
        }
      }
      pages := pages + [PageMarks(boxes, TextMark(BoxX, height - 50))];
    }
    assert pages == PdfLayout(pageHeights, d);
  }

  /**
   * Every page gets the same rectangles, placed relative to its own top:
   * between pages of heights h1 and h2 each box moves by h2 - h1 and
   * nothing else changes.
   */
  lemma PagesAlike(h1: int, h2: int, d: SensitiveDataDetection)
    ensures var b1, b2 := PageLayout(h1, d).boxes, PageLayout(h2, d).boxes;
      && |b1| == |b2|
      && forall k | 0 <= k < |b1| :: b2[k] == b1[k].(y := b1[k].y + (h2 - h1))
  {
    var b1, b2 := PageLayout(h1, d).boxes, PageLayout(h2, d).boxes;
    var n := Min(|d.phoneNumbers|, MaxPhoneBoxes);
    var k0 := (if |d.aadhaarNumbers| > 0 then 1 else 0) + (if |d.panNumbers| > 0 then 1 else 0);
    forall k | k0 <= k < |b1| ensures b2[k] == b1[k].(y := b1[k].y + (h2 - h1)) {
      assert b1[k].width == 120;
    }
  }

  /** The number of boxes: one per category with a match, phones capped at three. */
  lemma PageBoxCount(height: int, d: SensitiveDataDetection)
    ensures |PageLayout(height, d).boxes| ==
      (if |d.aadhaarNumbers| > 0 then 1 else 0) + (if |d.panNumbers| > 0 then 1 else 0)
      + Min(|d.phoneNumbers|, 3)
  {
  }

  /**
   * Every box sits at x = 50 and is 15 high; the first is at height-100;
   * each next box is at least 20 lower (25 after the Aadhaar and PAN boxes);
   * the watermark is at (50, height-50), above every box.
   */
  lemma PageBoxesStacked(height: int, d: SensitiveDataDetection)
    ensures var m := PageLayout(height, d);
      && (forall b <- m.boxes :: b.x == 50 && b.height == 15 && b.y <= height - 100 < m.watermark.y)
      && (m.boxes != [] ==> m.boxes[0].y == height - 100)
      && (forall i | 0 <= i < |m.boxes| - 1 :: m.boxes[i + 1].y <= m.boxes[i].y - 20)
      && m.watermark == TextMark(50, height - 50)
  {
    var m := PageLayout(height, d);
    var top := height - 100;
    var panY := if |d.aadhaarNumbers| > 0 then top - 25 else top;
    var phoneY := if |d.panNumbers| > 0 then panY - 25 else panY;
    var a := if |d.aadhaarNumbers| > 0 then [Rect(BoxX, top, AadhaarBoxWidth, BoxHeight)] else [];
    var p := if |d.panNumbers| > 0 then [Rect(BoxX, panY, PanBoxWidth, BoxHeight)] else [];
    var ph := PhoneBoxes(phoneY, Min(|d.phoneNumbers|, MaxPhoneBoxes));
    assert m.boxes == a + p + ph;
    forall i | 0 <= i < |m.boxes| - 1 ensures m.boxes[i + 1].y <= m.boxes[i].y - 20 {
      if i + 1 >= |a| + |p| {
        if i >= |a| + |p| {
          assert m.boxes[i] == ph[i - |a| - |p|] && m.boxes[i + 1] == ph[i + 1 - |a| - |p|];
        } else {
          assert m.boxes[i + 1] == ph[0];
        }
      }
    }
  }

  /**
   * Which boxes appear: a 200-wide one exactly when Aadhaar numbers were
   * found, then a 150-wide one exactly when PANs were, then only 120-wide
   * phone boxes.
   */
  lemma PageBoxWidths(height: int, d: SensitiveDataDetection)
    ensures var m := PageLayout(height, d);
      var k := (if |d.aadhaarNumbers| > 0 then 1 else 0) + (if |d.panNumbers| > 0 then 1 else 0);
      && k <= |m.boxes|
      && ((exists b <- m.boxes :: b.width == 200) <==> |d.aadhaarNumbers| > 0)
      && ((exists b <- m.boxes :: b.width == 150) <==> |d.panNumbers| > 0)
      && (|d.aadhaarNumbers| > 0 ==> m.boxes[0].width == 200)
      && (forall i | k <= i < |m.boxes| :: m.boxes[i].width == 120)
  {
    var m := PageLayout(height, d);
    var top := height - 100;
    var panY := if |d.aadhaarNumbers| > 0 then top - 25 else top;
    var phoneY := if |d.panNumbers| > 0 then panY - 25 else panY;
    var a := if |d.aadhaarNumbers| > 0 then [Rect(BoxX, top, AadhaarBoxWidth, BoxHeight)] else [];
    var p := if |d.panNumbers| > 0 then [Rect(BoxX, panY, PanBoxWidth, BoxHeight)] else [];
    var ph := PhoneBoxes(phoneY, Min(|d.phoneNumbers|, MaxPhoneBoxes));
    assert m.boxes == a + p + ph;
    if |d.aadhaarNumbers| > 0 { assert m.boxes[0] in m.boxes; }
    if |d.panNumbers| > 0 { assert m.boxes[|a|] in m.boxes; }
  }

  // ---------------------------------------------------------------------
  // Images
  // ---------------------------------------------------------------------

  /** An SVG overlay of the given size composited with its top-left corner at (left, top). */
  datatype Overlay = Overlay(top: int, left: int, width: int, height: int)

  /** What the image receives: one overlay per blurred region and the watermark. */
  datatype ImageMarks = ImageMarks(overlays: seq<Overlay>, watermark: Overlay)

  const ImageWatermark := Overlay(10, 10, 200, 30)

  /** `Math.max(0, Math.min(v, extent - size))`. */
  function Clamp(v: int, size: int, extent: int): (r: int)
    ensures r >= 0 && (r == 0 || r == v || r == extent - size)
  {
    if v <= extent - size then (if v < 0 then 0 else v)
    else (if extent - size < 0 then 0 else extent - size)
  }

  /** The overlay for one region: the region's size, at clamped coordinates. */
  function OverlayFor(imageWidth: int, imageHeight: int, r: Region): (o: Overlay)
    ensures o.width == r.position.width && o.height == r.position.height
    ensures o.top >= 0 && o.left >= 0
  {
    Overlay(Clamp(r.position.y, r.position.height, imageHeight),
            Clamp(r.position.x, r.position.width, imageWidth),
            r.position.width, r.position.height)
  }

  function ImageLayout(imageWidth: int, imageHeight: int, regions: seq<Region>): (r: ImageMarks)
    ensures |r.overlays| == |regions|
  {
    ImageMarks(seq(|regions|, i requires 0 <= i < |regions| => OverlayFor(imageWidth, imageHeight, regions[i])),
               ImageWatermark)
  }

  /** Why rendering an image fails: `!metadata.width || !metadata.height`. */
  datatype ImageError = MissingDimensions

  /**
   * `redactImage`: the image's width and height as the metadata reports
   * them (absent or 0 is an error), then one clamped overlay per region.
   */
  method RedactImage(width: Option<nat>, height: Option<nat>, regions: seq<Region>)
    returns (r: Result<ImageMarks, ImageError>)
    ensures r.Failure? <==> width.None? || height.None? || width.value == 0 || height.value == 0
    ensures r.Success? ==> r.value == ImageLayout(width.value, height.value, regions)
  {
    if width.None? || height.None? || width.value == 0 || height.value == 0 {
      return Failure(MissingDimensions);
    }
    var w, h := width.value, height.value;
    var overlays: seq<Overlay> := [];
    for i := 0 to |regions|
      invariant |overlays| == i
      invariant forall j | 0 <= j < i :: overlays[j] == OverlayFor(w, h, regions[j])
    {
      var p := regions[i].position;
      overlays := overlays + [Overlay(Clamp(p.y, p.height, h), Clamp(p.x, p.width, w), p.width, p.height)];
    }
    r := Success(ImageMarks(overlays, ImageWatermark));
  }

  /**
   * The clamped coordinate is never negative; when the overlay fits it ends
   * inside the image; a coordinate already inside is not moved; an overlay
   * larger than the image is pinned to 0.
   */
  lemma ClampProperties(v: int, size: int, extent: int)
    ensures Clamp(v, size, extent) >= 0
    ensures 0 <= size <= extent ==> Clamp(v, size, extent) + size <= extent
    ensures 0 <= v && v + size <= extent ==> Clamp(v, size, extent) == v
    ensures size > extent ==> Clamp(v, size, extent) == 0
    ensures Clamp(v, size, extent) == (if v < extent - size then v else extent - size)
         || Clamp(v, size, extent) == 0
  {
  }

  /** Every overlay of a region that fits lies inside the image, and one already inside stays where it was. */
  lemma OverlaysInside(imageWidth: nat, imageHeight: nat, regions: seq<Region>, i: nat)
    requires i < |regions|
    ensures var o := ImageLayout(imageWidth, imageHeight, regions).overlays[i];
      var p := regions[i].position;
      && o.top >= 0 && o.left >= 0 && o.width == p.width && o.height == p.height
      && (0 <= p.height <= imageHeight ==> o.top + o.height <= imageHeight)
      && (0 <= p.width <= imageWidth ==> o.left + o.width <= imageWidth)
      && (0 <= p.x && p.x + p.width <= imageWidth && 0 <= p.y && p.y + p.height <= imageHeight ==>
            o.left == p.x && o.top == p.y)
  {
    var p := regions[i].position;
    ClampProperties(p.y, p.height, imageHeight);
    ClampProperties(p.x, p.width, imageWidth);
  }
}
