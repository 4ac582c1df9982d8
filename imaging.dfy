/** The conversion engine of the watcher (`invert_image`): the pixel data of
    an image is split by mode, the tonal channels are negated and the alpha
    channel is carried over untouched. Opening, saving and PIL's own colour
    conversion are foreign code and enter as parameters. */
module Imaging {
  import opened Options

  const ModeRGBA: string := "RGBA"
  const ModeRGB: string := "RGB"
  const ModeL: string := "L"
  const ModeI16: string := "I;16"

  /** Largest sample of an 8-bit and of a 16-bit channel. */
  const Max8: int := 255
  const Max16: int := 65535

  /** The raw content of an image: its mode and one band (channel) of samples
      per channel, each band listing every pixel. */
  datatype Raster = Raster(mode: string, bands: seq<seq<int>>)

  predicate InRange(band: seq<int>, max: int) {
    forall i :: 0 <= i < |band| ==> 0 <= band[i] <= max
  }

  /** The shape PIL guarantees of every image: all bands cover the same
      pixels, and the modes that the watcher dispatches on have their number
      of bands and their sample range. */
  predicate WellFormed(r: Raster) {
    && |r.bands| >= 1
    && (forall c :: 0 <= c < |r.bands| ==> |r.bands[c]| == |r.bands[0]|)
    && (r.mode == ModeRGBA ==> |r.bands| == 4)
    && (r.mode == ModeRGB ==> |r.bands| == 3)
    && (r.mode == ModeL || r.mode == ModeI16 ==> |r.bands| == 1)
    && (r.mode == ModeRGBA || r.mode == ModeRGB || r.mode == ModeL ==>
          forall c :: 0 <= c < |r.bands| ==> InRange(r.bands[c], Max8))
    && (r.mode == ModeI16 ==> InRange(r.bands[0], Max16))
  }

  type Image = r: Raster | WellFormed(r) witness Raster(ModeL, [[]])

  /** Every sample of every band is an 8-bit value. */
  predicate EightBit(img: Image) {
    forall c :: 0 <= c < |img.bands| ==> InRange(img.bands[c], Max8)
  }

  /** The modes that are inverted without PIL's colour conversion. */
  predicate IsDirectMode(mode: string) {
    mode == ModeRGBA || mode == ModeRGB || mode == ModeL || mode == ModeI16
  }

  /** The per-sample rule of `ImageOps.invert` on an 8-bit band. */
  function NegateBand(band: seq<int>): (r: seq<int>)
    requires InRange(band, Max8)
    ensures |r| == |band| && InRange(r, Max8)
    ensures forall i :: 0 <= i < |band| ==> r[i] == Max8 - band[i]
  {
    seq(|band|, i requires 0 <= i < |band| => Max8 - band[i])
  }

  function NegateBands(bands: seq<seq<int>>): (r: seq<seq<int>>)
    requires forall c :: 0 <= c < |bands| ==> InRange(bands[c], Max8)
    ensures |r| == |bands|
    ensures forall c :: 0 <= c < |bands| ==> r[c] == NegateBand(bands[c])
  {
    seq(|bands|, c requires 0 <= c < |bands| => NegateBand(bands[c]))
  }

  /** `ImageOps.invert`: the model accepts exactly the `L` and `RGB` modes
      and fails on every other one. */
  function ImageOpsInvert(img: Image): (r: Option<Image>)
    ensures r.Some? <==> img.mode == ModeRGB || img.mode == ModeL
    ensures r.Some? ==>
      && r.value.mode == img.mode
      && |r.value.bands| == |img.bands|
      && forall c :: 0 <= c < |img.bands| ==>
           |r.value.bands[c]| == |img.bands[c]| &&
           forall i :: 0 <= i < |img.bands[c]| ==> r.value.bands[c][i] == Max8 - img.bands[c][i]
  {
    if img.mode == ModeRGB || img.mode == ModeL then
      var out: Image := Raster(img.mode, NegateBands(img.bands));
      Some(out)
    else
      None
  }

  /** `img.point(lambda x: x / 256)` followed by `convert("L")`: each
      16-bit sample becomes its integer quotient by 256. */
  function Downscale16(band: seq<int>): (r: seq<int>)
    requires InRange(band, Max16)
    ensures |r| == |band| && InRange(r, Max8)
    ensures forall i :: 0 <= i < |band| ==> r[i] == band[i] / 256
  {
    seq(|band|, i requires 0 <= i < |band| => band[i] / 256)
  }

  /** The 8-bit greyscale image that the 16-bit branch inverts. */
  function Greyscale8(img: Image): (r: Image)
    requires img.mode == ModeI16
    ensures r.mode == ModeL && |r.bands| == 1 && |r.bands[0]| == |img.bands[0]|
  {
    Raster(ModeL, [Downscale16(img.bands[0])])
  }

  /** The mode dispatch of `invert_image`; `toRgb` stands for PIL's
      `img.convert("RGB")`, which may fail. `None` is every failure. */
  function Invert(img: Image, toRgb: Image -> Option<Image>): (r: Option<Image>)
    ensures r.None? <==>
      !IsDirectMode(img.mode) &&
      (toRgb(img).None? || (toRgb(img).value.mode != ModeRGB && toRgb(img).value.mode != ModeL))
    ensures r.Some? ==> EightBit(r.value)
    ensures r.Some? ==> r.value.mode == ModeRGBA || r.value.mode == ModeRGB || r.value.mode == ModeL
    ensures IsDirectMode(img.mode) ==> r.Some? && |r.value.bands[0]| == |img.bands[0]|
  {
    if img.mode == ModeRGBA then
      var rgb: Image := Raster(ModeRGB, img.bands[..3]);
      var inverted := ImageOpsInvert(rgb).value;
      var out: Image := Raster(ModeRGBA, inverted.bands + [img.bands[3]]);
      Some(out)
    else if img.mode == ModeRGB || img.mode == ModeL then
      ImageOpsInvert(img)
    else if img.mode == ModeI16 then
      ImageOpsInvert(Greyscale8(img))
    else
      match toRgb(img)
      case None => None
      case Some(converted) => ImageOpsInvert(converted)
  }

  /** What the foreign library does with one file: the decoded image
      (`None` when `Image.open` or decoding raises) and whether the TIFF
      save succeeds. */
  datatype IoOutcome = IoOutcome(decoded: Option<Image>, saveSucceeds: bool)

  /** `invert_image`: the artifact written to the output path, or `None`
      where the source logs the error and returns `False`. */
  function InvertImage(io: IoOutcome, toRgb: Image -> Option<Image>): (r: Option<Image>)
    ensures r.Some? <==>
      io.decoded.Some? && io.saveSucceeds && Invert(io.decoded.value, toRgb).Some?
    ensures r.Some? ==> r == Invert(io.decoded.value, toRgb)
  {
    match io.decoded
    case None => None
    case Some(img) =>
      match Invert(img, toRgb)
      case None => None
      case Some(out) => if io.saveSucceeds then Some(out) else None
  }

  // ---------------------------------------------------------------------
  // Per-mode rules

  /** RGB and L images: every sample v becomes 255 - v, mode and shape kept. */
  lemma InvertRgbOrL(img: Image, toRgb: Image -> Option<Image>)
    requires img.mode == ModeRGB || img.mode == ModeL
    ensures Invert(img, toRgb).Some?
    ensures Invert(img, toRgb).value.mode == img.mode
    ensures |Invert(img, toRgb).value.bands| == |img.bands|
    ensures forall c, i :: 0 <= c < |img.bands| && 0 <= i < |img.bands[c]| ==>
      i < |Invert(img, toRgb).value.bands[c]| &&
      Invert(img, toRgb).value.bands[c][i] == Max8 - img.bands[c][i]
  {
  }

  /** RGBA images: the alpha band is the input's, each of R, G and B is
      negated. */
  lemma InvertRgba(img: Image, toRgb: Image -> Option<Image>)
    requires img.mode == ModeRGBA
    ensures Invert(img, toRgb).Some?
    ensures Invert(img, toRgb).value.mode == ModeRGBA
    ensures |Invert(img, toRgb).value.bands| == 4
    ensures Invert(img, toRgb).value.bands[3] == img.bands[3]
    ensures forall c, i :: 0 <= c < 3 && 0 <= i < |img.bands[c]| ==>
      i < |Invert(img, toRgb).value.bands[c]| &&
      Invert(img, toRgb).value.bands[c][i] == Max8 - img.bands[c][i]
  {
  }

  /** 16-bit greyscale: each sample x becomes 255 - x / 256, an 8-bit value,
      and the result is an 8-bit greyscale image. */
  lemma InvertI16(img: Image, toRgb: Image -> Option<Image>)
    requires img.mode == ModeI16
    ensures Invert(img, toRgb).Some?
    ensures Invert(img, toRgb).value.mode == ModeL
    ensures |Invert(img, toRgb).value.bands| == 1
    ensures |Invert(img, toRgb).value.bands[0]| == |img.bands[0]|
    ensures forall i :: 0 <= i < |img.bands[0]| ==>
      Invert(img, toRgb).value.bands[0][i] == Max8 - img.bands[0][i] / 256 &&
      0 <= Invert(img, toRgb).value.bands[0][i] <= Max8
  {
  }

  /** Every other mode is inverted as the image PIL's conversion gives; when
      the conversion fails, so does the inversion. */
  lemma InvertOther(img: Image, toRgb: Image -> Option<Image>)
    requires !IsDirectMode(img.mode)
    ensures toRgb(img).None? ==> Invert(img, toRgb).None?
    ensures toRgb(img).Some? && toRgb(img).value.mode == ModeRGB ==>
      Invert(img, toRgb) == Invert(toRgb(img).value, toRgb)
  {
  }

  // ---------------------------------------------------------------------
  // Double inversion

  lemma {:induction false} NegateBandTwice(band: seq<int>)
    requires InRange(band, Max8)
    ensures NegateBand(NegateBand(band)) == band
  {
    assert forall i :: 0 <= i < |band| ==> NegateBand(NegateBand(band))[i] == band[i];
  }

  /** Inverting twice gives back the original image for RGB, L and RGBA. */
  lemma InvertTwice(img: Image, toRgb: Image -> Option<Image>)
    requires img.mode == ModeRGB || img.mode == ModeL || img.mode == ModeRGBA
    ensures Invert(img, toRgb).Some?
    ensures Invert(Invert(img, toRgb).value, toRgb) == Some(img)
  {
    var once := Invert(img, toRgb).value;
    var twice := Invert(once, toRgb).value;
    assert |twice.bands| == |img.bands|;
    forall c | 0 <= c < |img.bands| ensures twice.bands[c] == img.bands[c] {
      if img.mode == ModeRGBA && c == 3 {
        assert twice.bands[3] == once.bands[3] == img.bands[3];
      } else {
        NegateBandTwice(img.bands[c]);
        assert once.bands[c] == NegateBand(img.bands[c]);
        assert twice.bands[c] == NegateBand(once.bands[c]);
      }
    }
    assert twice.bands == img.bands;
  }

  /** The 16-bit path is lossy: inverting its output again gives the 8-bit
      downscale of the original, not the original. */
  lemma InvertTwiceI16(img: Image, toRgb: Image -> Option<Image>)
    requires img.mode == ModeI16
    ensures Invert(img, toRgb).Some?
    ensures Invert(Invert(img, toRgb).value, toRgb) == Some(Greyscale8(img))
  {
    var grey := Greyscale8(img);
    var once := Invert(img, toRgb).value;
    var twice := Invert(once, toRgb).value;
    NegateBandTwice(grey.bands[0]);
    assert once.bands[0] == NegateBand(grey.bands[0]);
    assert twice.bands[0] == NegateBand(once.bands[0]);
    assert twice.bands == grey.bands;
  }
}
