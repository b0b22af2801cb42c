/**
 * The integer part of the image normaliser: how much a small page image is
 * enlarged before recognition.  Pixel operations (grey-scale conversion,
 * bicubic resampling, autocontrast) are not modelled; a prepared image only
 * records its size and the bitmap it was derived from.
 */
module Imaging {

  /** An image dimension in pixels. */
  type Dim = x: int | x > 0 witness 1

  /** The default `min_dim`: images whose longer side is below it are enlarged. */
  const MinDim: nat := 1200

  /** A decoded page bitmap; `content` stands for its pixels. */
  datatype Bitmap = Bitmap(width: Dim, height: Dim, content: nat)

  /** The grey-scale, contrast-stretched, possibly enlarged image given to OCR. */
  datatype Prepared = Prepared(width: Dim, height: Dim, source: Bitmap)

  function Longer(w: Dim, h: Dim): Dim { if w >= h then w else h }

  /** `int(min_dim / max(w, h)) + 1` when the longer side is below `min_dim`,
      otherwise no enlargement: the least whole factor that takes the longer
      side strictly past `min_dim`. */
  function UpscaleFactor(w: Dim, h: Dim, minDim: nat): (k: Dim)
    ensures Longer(w, h) >= minDim ==> k == 1
    ensures Longer(w, h) < minDim ==>
      2 <= k && Longer(w, h) * k > minDim && Longer(w, h) * (k - 1) <= minDim
  {
    var m := Longer(w, h);
    if m < minDim then
      assert minDim == m * (minDim / m) + minDim % m;
      minDim / m + 1
    else 1
  }

  /** Both sides are multiplied by the same factor. */
  lemma UpscaleKeepsAspect(w: Dim, h: Dim, k: Dim)
    ensures (w * k) * h == (h * k) * w
    ensures w <= w * k && h <= h * k
  {
  }

  /** `preprocess_for_ocr(img, min_dim)`: the image's size after enlargement. */
  function Preprocess(b: Bitmap, minDim: nat): (p: Prepared)
    ensures p.source == b
    ensures p.width == b.width * UpscaleFactor(b.width, b.height, minDim)
    ensures p.height == b.height * UpscaleFactor(b.width, b.height, minDim)
    ensures p.width * b.height == p.height * b.width
    ensures b.width <= p.width && b.height <= p.height
    ensures minDim <= Longer(b.width, b.height) ==> p.width == b.width && p.height == b.height
    ensures Longer(b.width, b.height) < minDim ==> Longer(p.width, p.height) > minDim
  {
    var k := UpscaleFactor(b.width, b.height, minDim);
    UpscaleKeepsAspect(b.width, b.height, k);
    LongerScales(b.width, b.height, k);
    Prepared(b.width * k, b.height * k, b)
  }

  lemma LongerScales(w: Dim, h: Dim, k: Dim)
    ensures Longer(w * k, h * k) == Longer(w, h) * k
  {
    if w >= h {
      assert w * k >= h * k;
    } else {
      assert w * k < h * k;
    }
  }
}
