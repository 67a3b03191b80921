/**
 * One image through `process_image`, with the imaging library abstracted:
 * the decoded image is its stored size, its EXIF orientation tag and its
 * ICC profile, and the encoded result is the size it was resampled to and
 * the encoder settings it was saved with. Pixels are not modelled.
 */
module Transform {
  import opened Wrappers
  import opened Sizing

  /** Encoder effort the converter always asks for (the WebP `method` option, its slowest and smallest). */
  const WebpMethod := 6

  /** EXIF orientation tag value of an image without one (no rotation, no mirroring). */
  const NoOrientation := 1

  /**
   * What decoding an input file yields: the size as stored in the file, the
   * EXIF orientation tag (1 when there is none) and the embedded ICC
   * profile, an opaque byte string when present.
   */
  datatype Decoded = Decoded(stored: Size, orientation: int, icc: Option<seq<bv8>>)

  /** The per-run settings that reach `process_image`. */
  datatype Settings = Settings(target: Size, quality: int, keepAspectRatio: bool, noUpscale: bool, lossless: bool)

  /** What `save` is asked to write: resampled size, encoder options and the profile. */
  datatype Encoded = Encoded(size: Size, quality: int, lossless: bool, effort: int, icc: Option<seq<bv8>>)

  /**
   * Orientations 5 to 8 turn the picture a quarter (transpose, rotate 270,
   * transverse, rotate 90); 2 to 4 flip or turn it half; 1 and any other
   * value leave it as stored.
   */
  predicate Transposes(orientation: int)
  {
    5 <= orientation <= 8
  }

  /** The size the picture has once its orientation tag is applied (`exif_transpose`). */
  function DisplayedSize(img: Decoded): (r: Size)
    ensures multiset{r.w, r.h} == multiset{img.stored.w, img.stored.h}
    ensures !Transposes(img.orientation) ==> r == img.stored
  {
    if Transposes(img.orientation) then Size(img.stored.h, img.stored.w) else img.stored
  }

  /**
   * `process_image` as written: the output size is resolved from the size as
   * stored, before the orientation is applied, and the turned picture is then
   * resampled to that size.
   */
  function ProcessImage(img: Decoded, s: Settings): (out: Encoded)
    ensures out.icc == img.icc
    ensures out.effort == WebpMethod && out.quality == s.quality && out.lossless == s.lossless
    ensures out.size == TargetSize(img.stored, s.target, s.keepAspectRatio, s.noUpscale)
  {
    var size := TargetSize(img.stored, s.target, s.keepAspectRatio, s.noUpscale);
    Encoded(size, s.quality, s.lossless, WebpMethod, img.icc)
  }

  /**
   * The same step resolving the output size from the displayed size, which
   * keeps the aspect ratio of the picture the user sees.
   */
  function ProcessImageOriented(img: Decoded, s: Settings): (out: Encoded)
    ensures out.icc == img.icc
    ensures out.effort == WebpMethod && out.quality == s.quality && out.lossless == s.lossless
    ensures out.size == TargetSize(DisplayedSize(img), s.target, s.keepAspectRatio, s.noUpscale)
  {
    var size := TargetSize(DisplayedSize(img), s.target, s.keepAspectRatio, s.noUpscale);
    Encoded(size, s.quality, s.lossless, WebpMethod, img.icc)
  }

  /** Without a turning orientation both versions give the same output. */
  lemma OrientedAgreesWhenUpright(img: Decoded, s: Settings)
    requires !Transposes(img.orientation)
    ensures ProcessImageOriented(img, s) == ProcessImage(img, s)
  {
  }

  /**
   * A photo stored 800x600 with orientation 6 is seen as 600x800. With the
   * aspect ratio kept, enlarging forbidden and a 1000x1000 box, nothing needs
   * resizing, yet the as-written step resamples the upright 600x800 picture
   * to 800x600: the output is stretched.
   */
  lemma RotatedPhotoIsStretched()
    ensures var img := Decoded(Size(800, 600), 6, None);
            var s := Settings(Size(1000, 1000), 80, true, true, false);
            && DisplayedSize(img) == Size(600, 800)
            && ProcessImage(img, s).size == Size(800, 600)
            && ProcessImageOriented(img, s).size == Size(600, 800)
  {
    var img := Decoded(Size(800, 600), 6, None);
    var s := Settings(Size(1000, 1000), 80, true, true, false);
    AspectNoUpscaleKeepsFittingImage(Size(800, 600), Size(1000, 1000));
    AspectNoUpscaleKeepsFittingImage(Size(600, 800), Size(1000, 1000));
  }

  /**
   * The corrected step, aspect-locked, for a real image and a positive box:
   * the output fits the box and both sides follow one factor of the
   * displayed size, and without enlarging a displayed picture that fits is
   * written at its displayed size.
   */
  lemma OrientedKeepsDisplayedAspect(img: Decoded, s: Settings)
    requires img.stored.w > 0 && img.stored.h > 0
    requires s.target.w > 0 && s.target.h > 0
    requires s.keepAspectRatio
    ensures var d, out := DisplayedSize(img), ProcessImageOriented(img, s).size;
            var k := Scale(d, s.target, s.noUpscale);
            && 1 <= out.w <= s.target.w && 1 <= out.h <= s.target.h
            && k > 0.0
            && Approximates(out.w, d.w as real * k)
            && Approximates(out.h, d.h as real * k)
            && (s.noUpscale && d.w <= s.target.w && d.h <= s.target.h ==> out == d)
  {
    var d := DisplayedSize(img);
    AspectFitsTargetBox(d, s.target, s.noUpscale);
    AspectWidthFollowsScale(d, s.target, s.noUpscale);
    AspectHeightFollowsScale(d, s.target, s.noUpscale);
    if s.noUpscale && d.w <= s.target.w && d.h <= s.target.h {
      AspectNoUpscaleKeepsFittingImage(d, s.target);
    }
  }
}
