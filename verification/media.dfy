/**
 * The image ingestion pipeline of api/index.php: `processImage` (dimension
 * guards, centred crop to the configured aspect ratio, responsive variant
 * selection, content-addressed file names), the upload checks of
 * `handleUploadMedia`, and the file removal of `handleDeleteMedia`.
 *
 * GD decoding, resampling and encoding, `md5_file` and `finfo` sniffing are
 * oracles: the decoded size, the hash and the sniffed MIME type arrive as
 * parameters. Float arithmetic is replaced by exact rationals (`real`),
 * and PHP's `(int)` cast by truncation toward zero.
 */
module Media {
  import opened Wrappers
  import opened PhpStrings
  import opened Sequences
  import Session
  import RateLimit

  // ---------------------------------------------------------------------------
  // Configuration
  // ---------------------------------------------------------------------------

  /** A positive rational aspect ratio width/height, `num/den`. */
  datatype Ratio = Ratio(num: int, den: int)

  predicate ValidRatio(ratio: Ratio) {
    ratio.num > 0 && ratio.den > 0
  }

  function RatioValue(ratio: Ratio): real
    requires ValidRatio(ratio)
  {
    ratio.num as real / ratio.den as real
  }

  /** `IMAGE_ASPECT_RATIO` of the default configuration: 0.75. */
  const DefaultRatio: Ratio := Ratio(3, 4)

  /** `IMAGE_SIZES` of the default configuration, ascending. */
  const DefaultSizes: seq<int> := [480, 768, 1080, 1440, 1920]

  /** The per-side and total-pixel ceilings `processImage` hard-codes. */
  const MaxDimension: int := 10000
  const MaxPixels: int := 25000000

  /** The configuration `processImage` reads: `UPLOAD_PATH`, `IMAGE_ASPECT_RATIO`, `IMAGE_SIZES`. */
  datatype ImageConfig = ImageConfig(uploadPath: string, ratio: Ratio, sizes: seq<int>)

  /** The size GD reports for a decoded image (`imagesx`, `imagesy`). */
  datatype ImageSize = ImageSize(width: int, height: int)

  /** Why `processImage` throws. */
  datatype ImageError =
    | InvalidImage         // imagecreatefromstring failed
    | DimensionsTooLarge   // a side above 10000
    | ResolutionTooHigh    // more than 25 megapixels
    | EmptyCanvas          // imagecreatetruecolor's ValueError for an extent below 1

  // ---------------------------------------------------------------------------
  // Dimension guards
  // ---------------------------------------------------------------------------

  /** The two guards, in the order the source applies them; None means both pass. */
  function CheckDimensions(width: int, height: int): (r: Option<ImageError>)
    ensures r == Some(DimensionsTooLarge) <==> width > MaxDimension || height > MaxDimension
    ensures r == Some(ResolutionTooHigh)
            <==> width <= MaxDimension && height <= MaxDimension && width * height > MaxPixels
    ensures r.None? <==> width <= MaxDimension && height <= MaxDimension && width * height <= MaxPixels
  {
    if width > MaxDimension || height > MaxDimension then Some(DimensionsTooLarge)
    else if width * height > MaxPixels then Some(ResolutionTooHigh)
    else None
  }

  /** Neither guard subsumes the other. */
  lemma GuardsAreIndependent()
    ensures CheckDimensions(6000, 6000) == Some(ResolutionTooHigh)
    ensures CheckDimensions(10001, 1) == Some(DimensionsTooLarge)
    ensures CheckDimensions(10000, 2500) == None
  {
  }

  // ---------------------------------------------------------------------------
  // Crop geometry
  // ---------------------------------------------------------------------------

  /** A crop rectangle in source pixels, before any truncation. */
  datatype Crop = Crop(srcX: real, srcY: real, width: real, height: real)

  /** `$width / $height > $targetRatio`, cross-multiplied over integers. */
  predicate WiderThan(width: int, height: int, ratio: Ratio) {
    width * ratio.den > height * ratio.num
  }

  lemma DivLess(a: real, b: real, c: real)
    requires b > 0.0
    ensures a / b < c <==> a < c * b
    ensures a / b <= c <==> a <= c * b
  {
  }

  lemma DivMulCancel(a: real, b: real)
    requires b != 0.0
    ensures (a / b) * b == a
  {
  }

  /** The integer comparison is the rational comparison the source makes with floats. */
  lemma WiderThanIsRatioComparison(width: int, height: int, ratio: Ratio)
    requires width > 0 && height > 0 && ValidRatio(ratio)
    ensures WiderThan(width, height, ratio) <==> width as real / height as real > RatioValue(ratio)
  {
    var w, h, n, d := width as real, height as real, ratio.num as real, ratio.den as real;
    DivLess(n, d, w / h);
    DivLess(w, h, n / d);
    assert (w / h) * d > n <==> w * d > n * h by {
      assert (w / h) * d == (w * d) / h;
      DivLess(n * h, h, w * d / h);
      DivLess(w * d, h, n);
    }
  }

  /**
   * The crop `processImage` computes: when the source is wider than the
   * ratio it keeps the full height and cuts the sides; otherwise it keeps
   * the full width and cuts top and bottom.
   */
  function ComputeCrop(width: int, height: int, ratio: Ratio): (c: Crop)
    requires width > 0 && height > 0 && ValidRatio(ratio)
    ensures 0.0 <= c.srcX && c.srcX + c.width <= width as real
    ensures 0.0 <= c.srcY && c.srcY + c.height <= height as real
    ensures c.srcX == width as real - (c.srcX + c.width)
    ensures c.srcY == height as real - (c.srcY + c.height)
    ensures c.width > 0.0 && c.height > 0.0
    ensures c.width * ratio.den as real == c.height * ratio.num as real
    ensures WiderThan(width, height, ratio) ==> c.height == height as real && c.srcY == 0.0
    ensures !WiderThan(width, height, ratio) ==> c.width == width as real && c.srcX == 0.0
  {
    var w, h, n, d := width as real, height as real, ratio.num as real, ratio.den as real;
    if WiderThan(width, height, ratio) then
      var targetWidth := h * RatioValue(ratio);
      assert targetWidth == (h * n) / d;
      DivLess(h * n, d, w);
      DivMulCancel(h * n, d);
      Crop((w - targetWidth) / 2.0, 0.0, targetWidth, h)
    else
      var targetHeight := w / RatioValue(ratio);
      assert targetHeight == (w * d) / n;
      DivLess(w * d, n, h);
      DivMulCancel(w * d, n);
      Crop(0.0, (h - targetHeight) / 2.0, w, targetHeight)
  }

  /** 1600×1200 at 3/4 keeps the full height: 900×1200 from x = 350. */
  lemma CropExample()
    ensures ComputeCrop(1600, 1200, DefaultRatio) == Crop(350.0, 0.0, 900.0, 1200.0)
  {
    assert WiderThan(1600, 1200, DefaultRatio);
  }

  /** No rectangle of the target ratio that fits in the source is larger than the crop. */
  lemma CropIsLargest(width: int, height: int, ratio: Ratio, w: real, h: real)
    requires width > 0 && height > 0 && ValidRatio(ratio)
    requires 0.0 < w <= width as real && 0.0 < h <= height as real
    requires w * ratio.den as real == h * ratio.num as real
    ensures w <= ComputeCrop(width, height, ratio).width
    ensures h <= ComputeCrop(width, height, ratio).height
  {
    var c := ComputeCrop(width, height, ratio);
    var n, d := ratio.num as real, ratio.den as real;
    if WiderThan(width, height, ratio) {
      assert w * d == h * n && c.width * d == c.height * n;
      assert w * d <= c.width * d;
    } else {
      assert w * d == h * n && c.width * d == c.height * n;
      assert h * n <= c.height * n;
    }
  }

  /** PHP's `(int)` cast of a float: truncation toward zero. */
  function Trunc(x: real): (r: int)
    ensures x >= 0.0 ==> r as real <= x < r as real + 1.0
  {
    if x >= 0.0 then x.Floor else -((-x).Floor)
  }

  /** The truncated crop rectangle still lies inside the source image. */
  lemma TruncatedCropContained(width: int, height: int, ratio: Ratio)
    requires width > 0 && height > 0 && ValidRatio(ratio)
    ensures 0 <= Trunc(ComputeCrop(width, height, ratio).srcX)
    ensures Trunc(ComputeCrop(width, height, ratio).srcX) + Trunc(ComputeCrop(width, height, ratio).width) <= width
    ensures 0 <= Trunc(ComputeCrop(width, height, ratio).srcY)
    ensures Trunc(ComputeCrop(width, height, ratio).srcY) + Trunc(ComputeCrop(width, height, ratio).height) <= height
  {
  }

  /**
   * The truncated output size deviates from the target ratio by less than
   * one pixel on each side: `-den < width*den - height*num < num`.
   */
  lemma TruncatedRatioClose(cropWidth: real, cropHeight: real, ratio: Ratio)
    requires ValidRatio(ratio) && cropWidth >= 0.0 && cropHeight >= 0.0
    requires cropWidth * ratio.den as real == cropHeight * ratio.num as real
    ensures -ratio.den < Trunc(cropWidth) * ratio.den - Trunc(cropHeight) * ratio.num < ratio.num
  {
    RoundedRatioClose(cropWidth, cropHeight, Trunc(cropWidth), Trunc(cropHeight), ratio.num, ratio.den);
  }

  lemma RoundedRatioClose(cw: real, ch: real, tw: int, th: int, num: int, den: int)
    requires num > 0 && den > 0
    requires tw as real <= cw < tw as real + 1.0 && th as real <= ch < th as real + 1.0
    requires cw * den as real == ch * num as real
    ensures -den < tw * den - th * num < num
  {
    var n, d := num as real, den as real;
    var p, e := TruncFraction(cw, tw, d);
    var q, f := TruncFraction(ch, th, n);
    CastProduct(tw, den);
    CastProduct(th, num);
    WithinOne(tw * den - th * num, p, q, e, f, cw * d, num, den);
  }

  /** Splitting `c * x` at the truncation `t` of `c`: the fractional part contributes less than `x`. */
  lemma TruncFraction(c: real, t: int, x: real) returns (whole: real, frac: real)
    requires t as real <= c < t as real + 1.0 && x > 0.0
    ensures whole == t as real * x && c * x == whole + frac && 0.0 <= frac < x
  {
    var e := c - t as real;
    whole, frac := t as real * x, e * x;
    FractionTimes(e, x);
    SplitTimes(c, t as real, e, x);
  }

  /** The linear core: `k = p - q` where `p + e = q + f` and `e`, `f` are fractions of den and num. */
  lemma WithinOne(k: int, p: real, q: real, e: real, f: real, c: real, num: int, den: int)
    requires k as real == p - q && c == p + e && c == q + f
    requires 0.0 <= e < den as real && 0.0 <= f < num as real
    ensures -den < k < num
  {
  }

  lemma CastProduct(a: int, b: int)
    ensures (a * b) as real == a as real * b as real
  {
  }

  lemma SplitTimes(whole: real, part: real, rest: real, x: real)
    requires whole == part + rest
    ensures whole * x == part * x + rest * x
  {
  }

  lemma FractionTimes(e: real, x: real)
    requires 0.0 <= e < 1.0 && x > 0.0
    ensures 0.0 <= e * x < x
  {
  }

  // ---------------------------------------------------------------------------
  // Responsive variants
  // ---------------------------------------------------------------------------

  /**
   * The configured sizes the variant loop keeps: those strictly below the
   * untruncated crop width (`$size >= $targetWidth` skips), in configured order.
   */
  function SelectSizes(sizes: seq<int>, targetWidth: real): (r: seq<int>)
    ensures |r| <= |sizes|
    ensures forall i :: 0 <= i < |r| ==> (r[i] as real) < targetWidth
    ensures forall s :: (s as real) < targetWidth ==> multiset(r)[s] == multiset(sizes)[s]
    ensures forall s :: s in r ==> s in sizes
    ensures SubsequenceOf(r, sizes)
    decreases |sizes|
  {
    if |sizes| == 0 then []
    else
      var rest := SelectSizes(sizes[1..], targetWidth);
      assert sizes == [sizes[0]] + sizes[1..];
      if (sizes[0] as real) < targetWidth then
        assert ([sizes[0]] + rest)[1..] == rest;
        [sizes[0]] + rest
      else
        assert |rest| > 0 ==> rest[0] != sizes[0];
        rest
  }

  predicate StrictlyAscending(s: seq<int>) {
    forall i, j :: 0 <= i < j < |s| ==> s[i] < s[j]
  }

  /**
   * With ascending sizes (as configured by default) the selection is a
   * prefix of the list, and the first size left out is at least the crop width.
   */
  lemma {:induction false} AscendingSelectsPrefix(sizes: seq<int>, targetWidth: real)
    requires StrictlyAscending(sizes)
    ensures SelectSizes(sizes, targetWidth) == sizes[..|SelectSizes(sizes, targetWidth)|]
    ensures |SelectSizes(sizes, targetWidth)| < |sizes|
            ==> (sizes[|SelectSizes(sizes, targetWidth)|] as real) >= targetWidth
    decreases |sizes|
  {
    if |sizes| > 0 {
      var rest := sizes[1..];
      assert StrictlyAscending(rest) by {
        forall i, j | 0 <= i < j < |rest| ensures rest[i] < rest[j] {
          assert rest[i] == sizes[i + 1] && rest[j] == sizes[j + 1];
        }
      }
      AscendingSelectsPrefix(rest, targetWidth);
      var r := SelectSizes(rest, targetWidth);
      if (sizes[0] as real) < targetWidth {
        assert SelectSizes(sizes, targetWidth) == [sizes[0]] + r;
        assert sizes[..|r| + 1] == [sizes[0]] + rest[..|r|];
      } else {
        forall i | 0 <= i < |rest| ensures (rest[i] as real) >= targetWidth {
          assert rest[i] == sizes[i + 1] > sizes[0];
        }
        NoneSelected(rest, targetWidth);
      }
    }
  }

  /** When no configured size is below the crop width, no variant is made. */
  lemma {:induction false} NoneSelected(sizes: seq<int>, targetWidth: real)
    requires forall i :: 0 <= i < |sizes| ==> (sizes[i] as real) >= targetWidth
    ensures SelectSizes(sizes, targetWidth) == []
    decreases |sizes|
  {
    if |sizes| > 0 {
      NoneSelected(sizes[1..], targetWidth);
    }
  }

  /** With the default sizes and a 900-pixel crop, the 480 and 768 variants are made. */
  lemma DefaultSizesExample()
    ensures SelectSizes(DefaultSizes, 900.0) == [480, 768]
  {
  }

  /** `$targetHeight * ($size / $targetWidth)`: the variant's untruncated height. */
  function VariantHeight(size: int, crop: Crop): real
    requires crop.width > 0.0
  {
    crop.height * (size as real / crop.width)
  }

  /** A variant keeps the crop's exact ratio: its height is `size * den / num`. */
  lemma VariantKeepsRatio(size: int, crop: Crop, ratio: Ratio)
    requires ValidRatio(ratio) && crop.width > 0.0
    requires crop.width * ratio.den as real == crop.height * ratio.num as real
    ensures VariantHeight(size, crop) * ratio.num as real == size as real * ratio.den as real
  {
    var n, d := ratio.num as real, ratio.den as real;
    calc {
      VariantHeight(size, crop) * n;
      (crop.height * n) * (size as real / crop.width);
      (crop.width * d) * (size as real / crop.width);
      { DivMulCancel(size as real, crop.width); }
      size as real * d;
    }
  }

  /** One responsive variant as recorded in `sizes_json`. */
  datatype SizeVariant = SizeVariant(width: int, path: string)

  /** `imagecreatetruecolor` accepts the variant's canvas (both extents at least 1). */
  predicate VariantCanvasOk(size: int, crop: Crop)
    requires crop.width > 0.0
  {
    size >= 1 && Trunc(VariantHeight(size, crop)) >= 1
  }

  /**
   * Every canvas `processImage` asks `imagecreatetruecolor` for has both
   * extents at least 1: the crop, and the variant of each selected size.
   */
  predicate CanvasesOk(crop: Crop, selected: seq<int>) {
    && Trunc(crop.width) >= 1 && Trunc(crop.height) >= 1
    && crop.width > 0.0
    && forall s :: s in selected ==> VariantCanvasOk(s, crop)
  }

  // ---------------------------------------------------------------------------
  // Content-addressed names
  // ---------------------------------------------------------------------------

  /** `"$uploadPath/{$basename}.$ext"` with the extension of the claimed file name. */
  function PrimaryPath(dir: string, hash: string, originalName: string): string {
    dir + "/" + hash + "." + Extension(originalName)
  }

  /** `"$uploadPath/{$basename}.webp"`. */
  function WebpPath(dir: string, hash: string): string {
    dir + "/" + hash + ".webp"
  }

  /** `"$uploadPath/{$basename}_{$size}w.webp"`. */
  function VariantPath(dir: string, hash: string, size: int): string {
    dir + "/" + hash + "_" + IntToDecimal(size) + "w.webp"
  }

  function Variants(dir: string, hash: string, sizes: seq<int>): (r: seq<SizeVariant>)
    ensures |r| == |sizes|
    ensures forall i :: 0 <= i < |r| ==> r[i] == SizeVariant(sizes[i], VariantPath(dir, hash, sizes[i]))
  {
    seq(|sizes|, i requires 0 <= i < |sizes| => SizeVariant(sizes[i], VariantPath(dir, hash, sizes[i])))
  }

  // ---------------------------------------------------------------------------
  // processImage
  // ---------------------------------------------------------------------------

  /** What `processImage` returns: stored paths, output size, and the variants. */
  datatype MediaArtifact = MediaArtifact(
    pathOriginal: string,
    pathWebp: string,
    width: int,
    height: int,
    sizes: seq<SizeVariant>)

  /**
   * `processImage($tmpPath, $originalName)`. `hash` is `md5_file` of the
   * upload, `decoded` the GD image's size (None when decoding fails). The
   * encoders' return values are ignored by the source, so writing is not
   * modelled as a failure.
   */
  function ProcessImage(cfg: ImageConfig, hash: string, originalName: string, decoded: Option<ImageSize>)
    : (r: Result<MediaArtifact, ImageError>)
    requires ValidRatio(cfg.ratio)
    requires decoded.Some? ==> decoded.value.width > 0 && decoded.value.height > 0
    ensures decoded.None? ==> r == Failure(InvalidImage)
    ensures decoded.Some? ==>
              var size := decoded.value;
              && (r == Failure(DimensionsTooLarge) <==> size.width > MaxDimension || size.height > MaxDimension)
              && (r == Failure(ResolutionTooHigh) <==>
                    size.width <= MaxDimension && size.height <= MaxDimension && size.width * size.height > MaxPixels)
    ensures r.Success? ==>
              var size := decoded.value;
              var crop := ComputeCrop(size.width, size.height, cfg.ratio);
              && size.width <= MaxDimension && size.height <= MaxDimension
              && size.width * size.height <= MaxPixels
              && 1 <= r.value.width <= size.width && 1 <= r.value.height <= size.height
              && r.value.width as real <= crop.width < r.value.width as real + 1.0
              && r.value.height as real <= crop.height < r.value.height as real + 1.0
              && r.value.pathOriginal == PrimaryPath(cfg.uploadPath, hash, originalName)
              && r.value.pathWebp == WebpPath(cfg.uploadPath, hash)
              && r.value.sizes == Variants(cfg.uploadPath, hash, SelectSizes(cfg.sizes, crop.width))
    ensures r.Success? ==> forall v :: v in r.value.sizes ==>
              v.width in cfg.sizes && v.width < r.value.width + 1
              && VariantCanvasOk(v.width, ComputeCrop(decoded.value.width, decoded.value.height, cfg.ratio))
    ensures decoded.Some? && CheckDimensions(decoded.value.width, decoded.value.height).None? ==>
              var crop := ComputeCrop(decoded.value.width, decoded.value.height, cfg.ratio);
              && (r.Success? <==> CanvasesOk(crop, SelectSizes(cfg.sizes, crop.width)))
              && (r.Failure? ==> r.error == EmptyCanvas)
  {
    match decoded
    case None => Failure(InvalidImage)
    case Some(size) =>
      match CheckDimensions(size.width, size.height)
      case Some(e) => Failure(e)
      case None =>
        var crop := ComputeCrop(size.width, size.height, cfg.ratio);
        var selected := SelectSizes(cfg.sizes, crop.width);
        if !CanvasesOk(crop, selected) then Failure(EmptyCanvas)
        else Success(CroppedArtifact(cfg.uploadPath, hash, originalName, crop, selected))
  }

  /** The artifact of a crop whose canvases are all non-empty. */
  function CroppedArtifact(dir: string, hash: string, originalName: string, crop: Crop, selected: seq<int>)
    : (a: MediaArtifact)
    requires CanvasesOk(crop, selected)
    requires forall i :: 0 <= i < |selected| ==> (selected[i] as real) < crop.width
    ensures a.width == Trunc(crop.width) && a.height == Trunc(crop.height)
    ensures a.pathOriginal == PrimaryPath(dir, hash, originalName) && a.pathWebp == WebpPath(dir, hash)
    ensures a.sizes == Variants(dir, hash, selected)
    ensures forall v :: v in a.sizes ==> v.width in selected && v.width < a.width + 1 && VariantCanvasOk(v.width, crop)
  {
    var variants := Variants(dir, hash, selected);
    assert forall v :: v in variants ==> v.width in selected;
    var truncWidth := Trunc(crop.width);
    assert forall s :: s in selected ==> s < truncWidth + 1;
    MediaArtifact(PrimaryPath(dir, hash, originalName), WebpPath(dir, hash), truncWidth, Trunc(crop.height), variants)
  }

  /**
   * A 1600×1200 upload at the default ratio and sizes: a 900×1200 image
   * with the 480 and 768 variants, the original kept under its extension.
   */
  lemma ProcessImageExample(dir: string, hash: string, name: string)
    ensures ProcessImage(ImageConfig(dir, DefaultRatio, DefaultSizes), hash, name, Some(ImageSize(1600, 1200)))
         == Success(MediaArtifact(dir + "/" + hash + "." + Extension(name), dir + "/" + hash + ".webp", 900, 1200,
                                  [SizeVariant(480, dir + "/" + hash + "_480w.webp"),
                                   SizeVariant(768, dir + "/" + hash + "_768w.webp")]))
  {
    var cfg := ImageConfig(dir, DefaultRatio, DefaultSizes);
    var decoded := Some(ImageSize(1600, 1200));
    var variants := [SizeVariant(480, dir + "/" + hash + "_480w.webp"),
                     SizeVariant(768, dir + "/" + hash + "_768w.webp")];
    assert Variants(dir, hash, [480, 768]) == variants by {
      ExampleNames(dir, hash);
      assert Variants(dir, hash, [480, 768])
          == [SizeVariant(480, VariantPath(dir, hash, 480)), SizeVariant(768, VariantPath(dir, hash, 768))];
    }
    assert ProcessImage(cfg, hash, name, decoded)
        == Success(MediaArtifact(PrimaryPath(dir, hash, name), WebpPath(dir, hash), 900, 1200,
                                 Variants(dir, hash, [480, 768]))) by {
      ProcessImageGeometryExample(dir, hash, name);
    }
  }

  lemma ProcessImageGeometryExample(dir: string, hash: string, name: string)
    ensures ProcessImage(ImageConfig(dir, DefaultRatio, DefaultSizes), hash, name, Some(ImageSize(1600, 1200)))
         == Success(MediaArtifact(PrimaryPath(dir, hash, name), WebpPath(dir, hash), 900, 1200,
                                  Variants(dir, hash, [480, 768])))
  {
    var cfg := ImageConfig(dir, DefaultRatio, DefaultSizes);
    var crop := Crop(350.0, 0.0, 900.0, 1200.0);
    assert ComputeCrop(1600, 1200, DefaultRatio) == crop by { CropExample(); }
    assert SelectSizes(DefaultSizes, crop.width) == [480, 768] by { DefaultSizesExample(); }
    assert Trunc(crop.width) == 900 && Trunc(crop.height) == 1200;
    assert CanvasesOk(crop, [480, 768]) by { VariantCanvasExample(crop); }
    ProcessImageCropped(cfg, hash, name, ImageSize(1600, 1200), crop, [480, 768]);
  }

  /** With the guards passed and every canvas non-empty, the upload yields the artifact of its crop. */
  lemma ProcessImageCropped(cfg: ImageConfig, hash: string, name: string, size: ImageSize, crop: Crop, selected: seq<int>)
    requires ValidRatio(cfg.ratio) && size.width > 0 && size.height > 0
    requires CheckDimensions(size.width, size.height).None?
    requires ComputeCrop(size.width, size.height, cfg.ratio) == crop
    requires SelectSizes(cfg.sizes, crop.width) == selected && CanvasesOk(crop, selected)
    ensures ProcessImage(cfg, hash, name, Some(size))
         == Success(MediaArtifact(PrimaryPath(cfg.uploadPath, hash, name), WebpPath(cfg.uploadPath, hash),
                                  Trunc(crop.width), Trunc(crop.height), Variants(cfg.uploadPath, hash, selected)))
  {
  }

  lemma VariantCanvasExample(crop: Crop)
    requires crop == Crop(350.0, 0.0, 900.0, 1200.0)
    ensures VariantCanvasOk(480, crop) && VariantCanvasOk(768, crop)
  {
    assert VariantHeight(480, crop) == 640.0;
    assert VariantHeight(768, crop) == 1024.0;
  }

  lemma ExampleNames(dir: string, hash: string)
    ensures VariantPath(dir, hash, 480) == dir + "/" + hash + "_480w.webp"
    ensures VariantPath(dir, hash, 768) == dir + "/" + hash + "_768w.webp"
  {
    VariantName480(dir, hash);
    VariantName768(dir, hash);
  }

  lemma VariantName480(dir: string, hash: string)
    ensures VariantPath(dir, hash, 480) == dir + "/" + hash + "_480w.webp"
  {
    DecimalExamples();
    VariantPathText(dir, hash, 480, "480", "_480w.webp");
  }

  lemma VariantName768(dir: string, hash: string)
    ensures VariantPath(dir, hash, 768) == dir + "/" + hash + "_768w.webp"
  {
    DecimalExamples();
    VariantPathText(dir, hash, 768, "768", "_768w.webp");
  }

  /** `pathinfo` reads the extension "jpg" from "photo.jpg". */
  lemma ExtensionExample()
    ensures Extension("photo.jpg") == "jpg"
  {
    ExtensionOfName("photo", "jpg", "photo.jpg");
  }

  lemma DecimalExamples()
    ensures IntToDecimal(480) == "480" && IntToDecimal(768) == "768"
  {
    assert NatToDecimal(48) == "48";
    assert NatToDecimal(76) == "76";
  }

  lemma VariantPathText(dir: string, hash: string, size: int, digits: string, tail: string)
    requires IntToDecimal(size) == digits && tail == "_" + digits + "w.webp"
    ensures VariantPath(dir, hash, size) == dir + "/" + hash + tail
  {
    var stem := dir + "/" + hash;
    AppendAssociative(stem + "_", digits, "w.webp");
    AppendAssociative(stem, "_", digits + "w.webp");
    AppendAssociative("_", digits, "w.webp");
  }

  /**
   * A 1×1 image (ratio 1 > 3/4) crops to 0.75×1, which truncates to a zero
   * width that `imagecreatetruecolor` refuses.
   */
  lemma TinyImageFails(hash: string, name: string)
    ensures ProcessImage(ImageConfig("up", DefaultRatio, DefaultSizes), hash, name, Some(ImageSize(1, 1)))
         == Failure(EmptyCanvas)
  {
    assert ComputeCrop(1, 1, DefaultRatio).width == 0.75;
  }

  // ---------------------------------------------------------------------------
  // Deletion: the glob contract of handleDeleteMedia
  // ---------------------------------------------------------------------------

  /**
   * `$path` is matched by `glob("$dir/{$base}_*.*")`: it starts with the
   * literal prefix, and the rest is one path component that contains a '.'.
   */
  predicate MatchesVariantGlob(dir: string, base: string, path: string) {
    var prefix := dir + "/" + base + "_";
    StartsWith(path, prefix) && '/' !in path[|prefix|..] && '.' in path[|prefix|..]
  }

  /** The files `glob("$dir/{$base}_*.*")` returns. */
  function VariantGlob(dir: string, base: string, files: set<string>): set<string> {
    set f | f in files && MatchesVariantGlob(dir, base, f)
  }

  /**
   * What the delete handler unlinks for a media row: both stored paths, and
   * every match of the glob built from `dirname` and `pathinfo` of the
   * primary path.
   */
  function DeletedPaths(row: MediaRow, files: set<string>): set<string> {
    {row.pathOriginal, row.pathWebp} + VariantGlob(Dirname(row.pathOriginal), Filename(row.pathOriginal), files)
  }

  /** An md5 digest as `md5_file` prints it: 32 lower-case hex digits. */
  predicate IsMd5Hex(h: string) {
    |h| == 32 && forall i :: 0 <= i < |h| ==> IsDigit(h[i]) || 'a' <= h[i] <= 'f'
  }

  lemma Md5HasNoSeparators(h: string)
    requires IsMd5Hex(h)
    ensures '/' !in h && '.' !in h && '_' !in h
  {
    forall i | 0 <= i < |h| ensures h[i] != '/' && h[i] != '.' && h[i] != '_' {
      assert IsDigit(h[i]) || 'a' <= h[i] <= 'f';
    }
  }

  lemma DecimalTail(size: int)
    ensures '/' !in IntToDecimal(size) + "w.webp"
    ensures '.' in IntToDecimal(size) + "w.webp"
  {
    var t := IntToDecimal(size) + "w.webp";
    assert t[|t| - 5] == '.';
    forall i | 0 <= i < |t| ensures t[i] != '/' {
      if i < |IntToDecimal(size)| { assert t[i] == IntToDecimal(size)[i]; }
    }
  }

  /**
   * The delete handler's view of a stored primary path: its directory is the
   * upload directory and its file name (without extension) is the hash.
   */
  lemma PrimaryPathParts(dir: string, hash: string, originalName: string)
    requires |dir| > 0 && '/' !in hash
    ensures Dirname(PrimaryPath(dir, hash, originalName)) == dir
    ensures Filename(PrimaryPath(dir, hash, originalName)) == hash
  {
    var ext := Extension(originalName);
    var name := hash + "." + ext;
    var p := PrimaryPath(dir, hash, originalName);
    assert '/' !in name by { NoSlashJoined(hash, ext); }
    assert p == dir + "/" + name by { JoinedAssoc(dir + "/", hash, ext); }
    assert Dirname(p) == dir && Basename(p) == name by { PathParts(dir, name); }
    assert NameStem(name) == hash by { NameParts(hash, ext); }
  }

  lemma JoinedAssoc(prefix: string, stem: string, ext: string)
    ensures prefix + stem + "." + ext == prefix + (stem + "." + ext)
  {
  }

  lemma NoSlashJoined(stem: string, ext: string)
    requires '/' !in stem && '/' !in ext
    ensures '/' !in stem + "." + ext
  {
    assert '/' !in stem + ".";
  }

  /** For a row written by the upload handler, the delete glob is built from the upload directory and the hash. */
  lemma StoredRowGlob(dir: string, hash: string, originalName: string, files: set<string>)
    requires |dir| > 0 && '/' !in hash
    ensures DeletedPaths(MediaRow(PrimaryPath(dir, hash, originalName), WebpPath(dir, hash)), files)
         == {PrimaryPath(dir, hash, originalName), WebpPath(dir, hash)} + VariantGlob(dir, hash, files)
  {
    PrimaryPathParts(dir, hash, originalName);
  }

  /** Every variant path matches the glob of its upload. */
  lemma VariantMatchesGlob(dir: string, hash: string, size: int)
    ensures MatchesVariantGlob(dir, hash, VariantPath(dir, hash, size))
  {
    var prefix := dir + "/" + hash + "_";
    var tail := IntToDecimal(size) + "w.webp";
    assert VariantPath(dir, hash, size) == prefix + tail;
    assert (prefix + tail)[|prefix|..] == tail;
    assert (prefix + tail)[..|prefix|] == prefix;
    DecimalTail(size);
  }

  /** Neither the primary nor the WebP path matches the glob, so it removes only variants. */
  lemma StoredPathsMissGlob(dir: string, hash: string, originalName: string)
    ensures !MatchesVariantGlob(dir, hash, PrimaryPath(dir, hash, originalName))
    ensures !MatchesVariantGlob(dir, hash, WebpPath(dir, hash))
  {
    var prefix := dir + "/" + hash + "_";
    var p := PrimaryPath(dir, hash, originalName);
    var q := WebpPath(dir, hash);
    assert prefix[|prefix| - 1] == '_';
    assert p[..|prefix|][|prefix| - 1] == '.';
    assert q[..|prefix|][|prefix| - 1] == '.';
  }

  /** The primary, WebP and variant paths of an artifact. */
  function ArtifactPaths(a: MediaArtifact): set<string> {
    {a.pathOriginal, a.pathWebp} + set v | v in a.sizes :: v.path
  }

  /** The `media` row the upload handler inserts for an artifact. */
  function RowOf(a: MediaArtifact): MediaRow {
    MediaRow(a.pathOriginal, a.pathWebp)
  }

  /**
   * Deleting the media row of a processed upload removes every file the
   * upload produced, provided its variant files are on disk for the glob.
   */
  lemma DeleteRemovesArtifact(cfg: ImageConfig, hash: string, originalName: string, size: ImageSize,
                              files: set<string>)
    requires ValidRatio(cfg.ratio) && size.width > 0 && size.height > 0
    requires |cfg.uploadPath| > 0 && '/' !in hash
    requires ProcessImage(cfg, hash, originalName, Some(size)).Success?
    requires var a := ProcessImage(cfg, hash, originalName, Some(size)).value;
             forall v :: v in a.sizes ==> v.path in files
    ensures var a := ProcessImage(cfg, hash, originalName, Some(size)).value;
            ArtifactPaths(a) <= DeletedPaths(RowOf(a), files)
  {
    var a := ProcessImage(cfg, hash, originalName, Some(size)).value;
    var dir := cfg.uploadPath;
    StoredRowGlob(dir, hash, originalName, files);
    forall v | v in a.sizes
      ensures v.path in VariantGlob(dir, hash, files)
    {
      var i :| 0 <= i < |a.sizes| && a.sizes[i] == v;
      VariantMatchesGlob(dir, hash, v.width);
    }
  }

  /** Every path a stored row's deletion removes starts with the upload directory and the hash. */
  lemma DeletedPathsShareStem(dir: string, hash: string, originalName: string, files: set<string>, path: string)
    requires path in {PrimaryPath(dir, hash, originalName), WebpPath(dir, hash)} + VariantGlob(dir, hash, files)
    ensures StartsWith(path, dir + "/" + hash)
  {
    var stem := dir + "/" + hash;
    var glob := VariantGlob(dir, hash, files);
    assert forall p :: p in glob ==> StartsWith(p, stem) by {
      forall p | p in glob ensures StartsWith(p, stem) { VariantGlobSharesStem(dir, hash, files, p); }
    }
    PrimaryPathSharesStem(dir, hash, originalName);
    WebpPathSharesStem(dir, hash);
    UnionSharesStem(path, PrimaryPath(dir, hash, originalName), WebpPath(dir, hash), glob, stem);
  }

  lemma UnionSharesStem(path: string, p: string, q: string, glob: set<string>, stem: string)
    requires StartsWith(p, stem) && StartsWith(q, stem)
    requires forall g :: g in glob ==> StartsWith(g, stem)
    requires path in {p, q} + glob
    ensures StartsWith(path, stem)
  {
  }

  lemma PrimaryPathSharesStem(dir: string, hash: string, originalName: string)
    ensures StartsWith(PrimaryPath(dir, hash, originalName), dir + "/" + hash)
  {
    StartsWithAppend(dir + "/" + hash, ".", Extension(originalName));
  }

  lemma WebpPathSharesStem(dir: string, hash: string)
    ensures StartsWith(WebpPath(dir, hash), dir + "/" + hash)
  {
    StartsWithAppend(dir + "/" + hash, ".webp", "");
  }

  lemma VariantGlobSharesStem(dir: string, hash: string, files: set<string>, path: string)
    requires path in VariantGlob(dir, hash, files)
    ensures StartsWith(path, dir + "/" + hash)
  {
    var stem := dir + "/" + hash;
    var prefix := stem + "_";
    assert MatchesVariantGlob(dir, hash, path);
    assert path[..|prefix|] == prefix;
    assert path[..|stem|] == prefix[..|stem|];
  }

  /** Two distinct names of one length give disjoint path stems. */
  lemma DistinctStems(dir: string, hash: string, other: string, path: string)
    requires |hash| == |other| && hash != other
    requires StartsWith(path, dir + "/" + hash)
    ensures !StartsWith(path, dir + "/" + other)
  {
    var stem, otherStem := dir + "/" + hash, dir + "/" + other;
    assert stem[|dir| + 1..] == hash && otherStem[|dir| + 1..] == other;
    assert stem != otherStem;
    assert path[..|stem|] == stem;
  }

  /**
   * Deletion stays within one upload: with md5 names, the files of an
   * upload with a different hash are never removed.
   */
  lemma DeleteSparesOtherUploads(dir: string, hash: string, other: string, originalName: string,
                                 files: set<string>, path: string)
    requires |dir| > 0 && IsMd5Hex(hash) && IsMd5Hex(other) && hash != other
    requires path in DeletedPaths(MediaRow(PrimaryPath(dir, hash, originalName), WebpPath(dir, hash)), files)
    ensures StartsWith(path, dir + "/" + hash)
    ensures !StartsWith(path, dir + "/" + other)
  {
    Md5HasNoSeparators(hash);
    StoredRowGlob(dir, hash, originalName, files);
    DeletedPathsShareStem(dir, hash, originalName, files, path);
    DistinctStems(dir, hash, other, path);
  }

  // ---------------------------------------------------------------------------
  // handleUploadMedia
  // ---------------------------------------------------------------------------

  /** One entry of `$_FILES`: claimed name, size, PHP upload error code, and the `finfo` MIME type. */
  datatype UploadedFile = UploadedFile(name: string, size: int, errorCode: int, sniffedMime: string)

  const UploadErrOk: int := 0
  const UploadMaxMb: int := 10
  const AllowedTypes: seq<string> := ["image/jpeg", "image/png", "image/webp"]
  const UploadLimit: int := 20
  const UploadWindow: int := 3600

  /** The HTTP outcomes of `handleUploadMedia` other than success. */
  datatype UploadError =
    | Unauthenticated          // 401
    | InvalidCsrf              // 403
    | UploadLimitExceeded      // 429
    | NoFile                   // 400
    | UploadFailed             // 400
    | FileTooLarge             // 400
    | InvalidFileType          // 400
    | ProcessingFailed(ImageError)  // 500 "Failed to process image", from `catch (Exception $e)`
    | UncaughtValueError       // EmptyCanvas: a ValueError is an Error, which neither catch block takes

  /** The rate-limit key of a user's uploads. */
  function UploadKey(userId: int): string {
    "upload:" + IntToDecimal(userId)
  }

  /**
   * The checks `handleUploadMedia` makes before `processImage`, in handler
   * order: authentication, CSRF from the POST body, the per-user rate
   * limit, the `$_FILES` entry, its size, and the sniffed-type allow-list.
   * Returns the first failure (None when all pass) and the rate-limit table.
   */
  function UploadChecks(s: Session.Session, postedToken: Option<string>,
                        limits: seq<RateLimit.Entry>, now: int, storeFails: bool, file: Option<UploadedFile>)
    : (r: (Option<UploadError>, seq<RateLimit.Entry>))
    ensures r.0 == Some(Unauthenticated) <==> !Session.IsAuthenticated(s)
    ensures (!Session.IsAuthenticated(s) || r.0 == Some(InvalidCsrf)) ==> r.1 == limits
    ensures r.0.None? <==>
              && Session.IsAuthenticated(s)
              && postedToken.Some? && Session.ValidateCsrfToken(s, postedToken.value)
              && RateLimit.CheckRateLimit(limits, UploadKey(s.userId.value), UploadLimit, UploadWindow, now, storeFails).allowed
              && file.Some? && file.value.errorCode == UploadErrOk
              && file.value.size <= UploadMaxMb * 1024 * 1024
              && file.value.sniffedMime in AllowedTypes
    ensures Session.IsAuthenticated(s) ==>
              (r.0 == Some(InvalidCsrf) <==> postedToken.None? || !Session.ValidateCsrfToken(s, postedToken.value))
    ensures Session.IsAuthenticated(s) && postedToken.Some? && Session.ValidateCsrfToken(s, postedToken.value) ==>
              var d := RateLimit.CheckRateLimit(limits, UploadKey(s.userId.value), UploadLimit, UploadWindow, now, storeFails);
              && r.1 == d.table
              && (r.0 == Some(UploadLimitExceeded) <==> !d.allowed)
              && (d.allowed ==> (r.0 == Some(NoFile) <==> file.None?))
              && (d.allowed && file.Some? ==>
                    && (r.0 == Some(UploadFailed) <==> file.value.errorCode != UploadErrOk)
                    && (file.value.errorCode == UploadErrOk ==>
                          (r.0 == Some(FileTooLarge) <==> file.value.size > UploadMaxMb * 1024 * 1024))
                    && (file.value.errorCode == UploadErrOk && file.value.size <= UploadMaxMb * 1024 * 1024 ==>
                          (r.0 == Some(InvalidFileType) <==> file.value.sniffedMime !in AllowedTypes)))
  {
    if !Session.IsAuthenticated(s) then (Some(Unauthenticated), limits)
    else if postedToken.None? || !Session.ValidateCsrfToken(s, postedToken.value) then (Some(InvalidCsrf), limits)
    else
      var d := RateLimit.CheckRateLimit(limits, UploadKey(s.userId.value), UploadLimit, UploadWindow, now, storeFails);
      if !d.allowed then (Some(UploadLimitExceeded), d.table)
      else if file.None? then (Some(NoFile), d.table)
      else if file.value.errorCode != UploadErrOk then (Some(UploadFailed), d.table)
      else if file.value.size > UploadMaxMb * 1024 * 1024 then (Some(FileTooLarge), d.table)
      else if file.value.sniffedMime !in AllowedTypes then (Some(InvalidFileType), d.table)
      else (None, d.table)
  }

  /**
   * `handleUploadMedia` after the session is started: the checks, then
   * `processImage` on the claimed name. Returns the outcome and the
   * rate-limit table afterwards.
   */
  function UploadMedia(s: Session.Session, postedToken: Option<string>,
                       limits: seq<RateLimit.Entry>, now: int, storeFails: bool,
                       file: Option<UploadedFile>, cfg: ImageConfig, hash: string, decoded: Option<ImageSize>)
    : (r: (Result<MediaArtifact, UploadError>, seq<RateLimit.Entry>))
    requires ValidRatio(cfg.ratio)
    requires decoded.Some? ==> decoded.value.width > 0 && decoded.value.height > 0
    ensures r.1 == UploadChecks(s, postedToken, limits, now, storeFails, file).1
    ensures UploadChecks(s, postedToken, limits, now, storeFails, file).0.Some? ==>
              r.0 == Failure(UploadChecks(s, postedToken, limits, now, storeFails, file).0.value)
    ensures r.0.Success? <==>
              UploadChecks(s, postedToken, limits, now, storeFails, file).0.None?
              && ProcessImage(cfg, hash, file.value.name, decoded).Success?
    ensures r.0.Success? ==> Success(r.0.value) == ProcessImage(cfg, hash, file.value.name, decoded)
    ensures UploadChecks(s, postedToken, limits, now, storeFails, file).0.None?
            && ProcessImage(cfg, hash, file.value.name, decoded).Failure?
            && ProcessImage(cfg, hash, file.value.name, decoded).error != EmptyCanvas
            ==> r.0 == Failure(ProcessingFailed(ProcessImage(cfg, hash, file.value.name, decoded).error))
    ensures r.0 == Failure(UncaughtValueError) <==>
              UploadChecks(s, postedToken, limits, now, storeFails, file).0.None?
              && ProcessImage(cfg, hash, file.value.name, decoded) == Failure(EmptyCanvas)
  {
    var (err, table) := UploadChecks(s, postedToken, limits, now, storeFails, file);
    if err.Some? then (Failure(err.value), table)
    else
      match ProcessImage(cfg, hash, file.value.name, decoded)
      case Success(a) => (Success(a), table)
      case Failure(e) => if e == EmptyCanvas then (Failure(UncaughtValueError), table)
                         else (Failure(ProcessingFailed(e)), table)
  }

  /** The claimed name only picks the primary path: any other name gives the same outcome otherwise. */
  lemma ProcessImageRename(cfg: ImageConfig, hash: string, name: string, otherName: string, decoded: Option<ImageSize>)
    requires ValidRatio(cfg.ratio)
    requires decoded.Some? ==> decoded.value.width > 0 && decoded.value.height > 0
    ensures var r1, r2 := ProcessImage(cfg, hash, name, decoded), ProcessImage(cfg, hash, otherName, decoded);
            && (r1.Failure? ==> r2 == r1)
            && (r1.Success? ==> r2 == Success(r1.value.(pathOriginal := PrimaryPath(cfg.uploadPath, hash, otherName))))
  {
  }

  /**
   * The claimed file name decides nothing but the stored extension: renaming
   * the upload gives the same outcome, the same rate-limit table, and on
   * success the same artifact with only `pathOriginal` changed.
   */
  lemma ClaimedNameOnlyPicksExtension(s: Session.Session, postedToken: Option<string>,
                                      limits: seq<RateLimit.Entry>, now: int, storeFails: bool,
                                      f: UploadedFile, otherName: string,
                                      cfg: ImageConfig, hash: string, decoded: Option<ImageSize>)
    requires ValidRatio(cfg.ratio)
    requires decoded.Some? ==> decoded.value.width > 0 && decoded.value.height > 0
    ensures var r1 := UploadMedia(s, postedToken, limits, now, storeFails, Some(f), cfg, hash, decoded);
            var r2 := UploadMedia(s, postedToken, limits, now, storeFails, Some(f.(name := otherName)), cfg, hash, decoded);
            && r1.1 == r2.1
            && (r1.0.Failure? ==> r2.0 == r1.0)
            && (r1.0.Success? ==> r2.0 == Success(r1.0.value.(pathOriginal := PrimaryPath(cfg.uploadPath, hash, otherName))))
  {
    var g := f.(name := otherName);
    assert UploadChecks(s, postedToken, limits, now, storeFails, Some(f))
        == UploadChecks(s, postedToken, limits, now, storeFails, Some(g));
    ProcessImageRename(cfg, hash, f.name, otherName, decoded);
  }

  /** The type gate reads the sniffed type only: a GIF named "x.png" is refused. */
  lemma GifNamedPngRefused(s: Session.Session, token: string, limits: seq<RateLimit.Entry>,
                           now: int, cfg: ImageConfig, hash: string, decoded: Option<ImageSize>)
    requires ValidRatio(cfg.ratio)
    requires decoded.Some? ==> decoded.value.width > 0 && decoded.value.height > 0
    requires Session.IsAuthenticated(s) && Session.ValidateCsrfToken(s, token)
    requires RateLimit.CheckRateLimit(limits, UploadKey(s.userId.value), UploadLimit, UploadWindow, now, false).allowed
    ensures UploadMedia(s, Some(token), limits, now, false, Some(UploadedFile("x.png", 100, 0, "image/gif")),
                        cfg, hash, decoded).0 == Failure(InvalidFileType)
  {
    assert "image/gif" !in AllowedTypes;
  }

  /**
   * The stored extension comes from the claimed name, whatever type the
   * content was sniffed as: a PNG uploaded as "x.jpg" is kept as ".jpg".
   */
  lemma StoredExtensionFromClaimedName(s: Session.Session, token: Option<string>, limits: seq<RateLimit.Entry>,
                                       now: int, storeFails: bool, cfg: ImageConfig, hash: string,
                                       decoded: Option<ImageSize>, f: UploadedFile)
    requires ValidRatio(cfg.ratio)
    requires decoded.Some? ==> decoded.value.width > 0 && decoded.value.height > 0
    ensures var r := UploadMedia(s, token, limits, now, storeFails, Some(f), cfg, hash, decoded).0;
            r.Success? ==> r.value.pathOriginal == cfg.uploadPath + "/" + hash + "." + Extension(f.name)
  {
  }

  lemma ExtensionOfName(stem: string, ext: string, name: string)
    requires '/' !in stem && '/' !in ext && '.' !in ext && name == stem + "." + ext
    ensures Extension(name) == ext
  {
    FileNameParts(stem, ext);
  }

  // ---------------------------------------------------------------------------
  // handleDeleteMedia
  // ---------------------------------------------------------------------------

  /** The paths of one `media` row. */
  datatype MediaRow = MediaRow(pathOriginal: string, pathWebp: string)

  /** The stores `handleDeleteMedia` touches. */
  datatype MediaStore = MediaStore(media: map<int, MediaRow>, files: set<string>)

  datatype DeleteMediaError = DeleteUnauthenticated | DeleteInvalidCsrf | MediaInUse

  /**
   * `handleDeleteMedia($id)`: refused while any tile's `bg_media_id` is the
   * id; otherwise the row's files are unlinked (when the row exists) and
   * the row is deleted. `tileMediaIds` holds each tile's `bg_media_id`.
   */
  function DeleteMedia(s: Session.Session, token: string, id: int, tileMediaIds: seq<Option<int>>,
                       store: MediaStore): (r: Result<MediaStore, DeleteMediaError>)
    ensures r.Success? <==> Session.IsAuthenticated(s) && Session.ValidateCsrfToken(s, token)
                            && Some(id) !in tileMediaIds
    ensures r.Success? ==> r.value.media.Keys == store.media.Keys - {id}
    ensures r.Success? ==> forall k :: k in r.value.media ==> r.value.media[k] == store.media[k]
    ensures r.Success? && id !in store.media ==> r.value.files == store.files
    ensures r.Success? && id in store.media ==>
              r.value.files == store.files - DeletedPaths(store.media[id], store.files)
  {
    if !Session.IsAuthenticated(s) then Failure(DeleteUnauthenticated)
    else if !Session.ValidateCsrfToken(s, token) then Failure(DeleteInvalidCsrf)
    else if Some(id) in tileMediaIds then Failure(MediaInUse)
    else
      var files := if id in store.media then store.files - DeletedPaths(store.media[id], store.files) else store.files;
      Success(MediaStore(store.media - {id}, files))
  }
}
