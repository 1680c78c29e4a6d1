/** A model of the crop-with-padding step of the asset cropping script.

    The script opens each PNG asset, asks the image library for the bounding
    box of its non-transparent pixels, grows that box by a padding on every
    side, clamps it to the image, crops to it and writes the result back over
    the input file.  Pixel scanning, the crop itself and the file write belong
    to the image library; here the bounding box is an input, and an image is
    represented only by its size and the box of its visible content.
 */
module CropAssets {

  datatype Option<T> = None | Some(value: T)

  /** A rectangle in the image library's convention: (left, upper, right,
      lower) in pixels, with right and lower exclusive. */
  datatype Box = Box(left: int, top: int, right: int, bottom: int)

  function Width(b: Box): int { b.right - b.left }

  function Height(b: Box): int { b.bottom - b.top }

  predicate Ordered(b: Box) {
    b.left <= b.right && b.top <= b.bottom
  }

  /** No edge of `b` lies outside the w x h image. */
  predicate WithinEdges(b: Box, w: int, h: int) {
    0 <= b.left && 0 <= b.top && b.right <= w && b.bottom <= h
  }

  /** `b` is a well-formed rectangle of the w x h image, as the bounding-box
      finder returns it. */
  predicate Inside(b: Box, w: int, h: int) {
    Ordered(b) && WithinEdges(b, w, h)
  }

  predicate Encloses(outer: Box, inner: Box) {
    outer.left <= inner.left && outer.top <= inner.top &&
    inner.right <= outer.right && inner.bottom <= outer.bottom
  }

  /** What one call of the cropping routine decides for one image. */
  datatype Outcome = SkipFullyTransparent | CropTo(rect: Box)

  function Max(a: int, b: int): int { if a < b then b else a }

  function Min(a: int, b: int): int { if a < b then a else b }

  /** The left or upper edge after padding: it moves out by exactly
      `padding` when the margin allows it, otherwise it stops at 0. */
  function PadLow(c: int, padding: int): (r: int)
    ensures 0 <= r
    ensures c >= padding ==> r == c - padding
    ensures c < padding ==> r == 0
  {
    Max(0, c - padding)
  }

  /** The right or lower edge after padding: it moves out by exactly
      `padding` when the margin allows it, otherwise it stops at `limit`. */
  function PadHigh(c: int, padding: int, limit: int): (r: int)
    ensures r <= limit
    ensures c + padding <= limit ==> r == c + padding
    ensures c + padding > limit ==> r == limit
  {
    Min(limit, c + padding)
  }

  /** The crop rectangle for a w x h image whose non-transparent content has
      bounding box `bbox` (None when every pixel is transparent). */
  function PaddedRect(w: int, h: int, bbox: Option<Box>, padding: int): (o: Outcome)
    ensures o.SkipFullyTransparent? <==> bbox.None?
    ensures o.CropTo? ==> WithinEdges(o.rect, w, h)
  {
    match bbox
    case None => SkipFullyTransparent
    case Some(b) =>
      CropTo(Box(PadLow(b.left, padding), PadLow(b.top, padding),
                 PadHigh(b.right, padding, w), PadHigh(b.bottom, padding, h)))
  }

  /** For a box inside the image and a non-negative padding, the rectangle is
      a well-formed rectangle of the image that keeps the whole box. */
  lemma PaddedRectInsideAndEnclosing(w: int, h: int, b: Box, padding: int)
    requires Inside(b, w, h) && padding >= 0
    ensures PaddedRect(w, h, Some(b), padding).CropTo?
    ensures Inside(PaddedRect(w, h, Some(b), padding).rect, w, h)
    ensures Encloses(PaddedRect(w, h, Some(b), padding).rect, b)
  {
  }

  /** The cropped image is at least as large as the content and at most as
      large as the original image, in each dimension. */
  lemma CropSizeBounds(w: int, h: int, b: Box, padding: int)
    requires Inside(b, w, h) && padding >= 0
    ensures var r := PaddedRect(w, h, Some(b), padding).rect;
      Width(b) <= Width(r) <= w && Height(b) <= Height(r) <= h
  {
  }

  /** With no padding the crop rectangle is the bounding box itself. */
  lemma ZeroPaddingIsExact(w: int, h: int, b: Box)
    requires Inside(b, w, h)
    ensures PaddedRect(w, h, Some(b), 0) == CropTo(b)
  {
  }

  /** Each edge of the rectangle depends only on the matching edge of the box,
      the padding and, for the right and lower edges, the image size. */
  lemma EdgesAreIndependent(w: int, h: int, b: Box, w': int, h': int, b': Box, padding: int)
    ensures var r, r' := PaddedRect(w, h, Some(b), padding).rect, PaddedRect(w', h', Some(b'), padding).rect;
      && (b.left == b'.left ==> r.left == r'.left)
      && (b.top == b'.top ==> r.top == r'.top)
      && (b.right == b'.right && w == w' ==> r.right == r'.right)
      && (b.bottom == b'.bottom && h == h' ==> r.bottom == r'.bottom)
  {
  }

  /** A 100 x 50 image with content well away from the edges, padding 2. */
  lemma ScenarioInteriorContent()
    ensures PaddedRect(100, 50, Some(Box(10, 10, 90, 40)), 2) == CropTo(Box(8, 8, 92, 42))
  {
  }

  /** Content touching all four edges: every side is clamped. */
  lemma ScenarioContentTouchesEdges()
    ensures PaddedRect(100, 50, Some(Box(0, 0, 100, 50)), 2) == CropTo(Box(0, 0, 100, 50))
  {
  }

  /** The file the result is written to: the given output path, or the input
      path itself (the image is overwritten) when none is given. */
  function OutputPath(inputPath: string, outputPath: Option<string>): (r: string)
    ensures outputPath.None? ==> r == inputPath
    ensures outputPath.Some? ==> r == outputPath.value
  {
    match outputPath
    case None => inputPath
    case Some(p) => p
  }

  /** An image file as far as the script can tell: its size and the bounding
      box of its non-transparent pixels. */
  datatype Asset = Asset(width: nat, height: nat, content: Option<Box>)

  predicate ValidAsset(a: Asset) {
    a.content.Some? ==> Inside(a.content.value, a.width, a.height)
  }

  function Translate(b: Box, dx: int, dy: int): Box {
    Box(b.left + dx, b.top + dy, b.right + dx, b.bottom + dy)
  }

  /** The transparent margin between content box `c` and the edges of a
      w x h image is at most `padding` on every side. */
  predicate MarginsAtMost(c: Box, w: int, h: int, padding: int) {
    c.left <= padding && c.top <= padding && w - c.right <= padding && h - c.bottom <= padding
  }

  /** The file written back by one call with no output path, so that
      `OutputPath(input, None)` is the input file itself: a fully transparent
      image is not written; otherwise the image becomes the crop rectangle,
      and its content is the same box seen from the rectangle's upper-left
      corner. */
  function CropTransparent(a: Asset, padding: int): (r: Asset)
    requires ValidAsset(a) && padding >= 0
    ensures ValidAsset(r)
    ensures r.content.None? <==> a.content.None?
    ensures a.content.None? ==> r == a
    ensures r.width <= a.width && r.height <= a.height
    ensures r.content.Some? ==>
      Width(r.content.value) == Width(a.content.value) &&
      Height(r.content.value) == Height(a.content.value)
    ensures a.content.Some? ==>
      var c, c' := a.content.value, r.content.value;
      && c'.left == Min(c.left, padding)
      && c'.top == Min(c.top, padding)
      && r.width - c'.right == Min(a.width - c.right, padding)
      && r.height - c'.bottom == Min(a.height - c.bottom, padding)
  {
    match PaddedRect(a.width, a.height, a.content, padding)
    case SkipFullyTransparent => a
    case CropTo(rect) =>
      PaddedRectInsideAndEnclosing(a.width, a.height, a.content.value, padding);
      Asset(Width(rect), Height(rect), Some(Translate(a.content.value, -rect.left, -rect.top)))
  }

  /** Cropping an image that has just been cropped with the same padding
      keeps its size and content box: every edge of its content is within
      `padding` of the image edge or already at it. */
  lemma CropTransparentIdempotent(a: Asset, padding: int)
    requires ValidAsset(a) && padding >= 0
    ensures CropTransparent(CropTransparent(a, padding), padding) == CropTransparent(a, padding)
  {
  }

  /** A call keeps the file's size and content box exactly when the file is
      fully transparent or every transparent margin is already at most
      `padding`; a wider margin makes the image shrink. */
  lemma CropTransparentFixpoint(a: Asset, padding: int)
    requires ValidAsset(a) && padding >= 0
    ensures CropTransparent(a, padding) == a <==>
      a.content.None? || MarginsAtMost(a.content.value, a.width, a.height, padding)
  {
  }

  /** A 10 x 10 image with a margin of 5 around its content, padding 2:
      the margin is wider than the padding, so the image shrinks. */
  lemma ScenarioWideMarginShrinks()
    ensures CropTransparent(Asset(10, 10, Some(Box(5, 5, 6, 6))), 2) == Asset(5, 5, Some(Box(2, 2, 3, 3)))
  {
  }

  /** The asset after `n` executions of the script over one file; one pass
      of its loop is `n == 1`. */
  function Rerun(a: Asset, padding: int, n: nat): (r: Asset)
    requires ValidAsset(a) && padding >= 0
    ensures ValidAsset(r)
    ensures r.content.None? <==> a.content.None?
    decreases n
  {
    if n == 0 then a else CropTransparent(Rerun(a, padding, n - 1), padding)
  }

  /** Running the script again over its own output leaves the size and
      content box as the first run made them. */
  lemma {:induction false} RerunIsFirstRun(a: Asset, padding: int, n: nat)
    requires ValidAsset(a) && padding >= 0 && n >= 1
    ensures Rerun(a, padding, n) == CropTransparent(a, padding)
  {
    if n > 1 {
      RerunIsFirstRun(a, padding, n - 1);
      CropTransparentIdempotent(a, padding);
    }
  }
}
