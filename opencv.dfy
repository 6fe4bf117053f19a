/**
 * The part of OpenCV the component relies on.  `cv::Mat` is a class whose
 * header fields and byte buffer are updated in place; its contents as a value
 * are `Pixels`.  The library routines themselves (colour conversion, histogram
 * equalisation, image codecs, ellipse rasterisation, the cascade detector) are
 * parameters: function-valued fields whose types promise only the shape of
 * what they return.
 */
module OpenCv {
  import opened RowLayout

  /**
   * An 8-bit image: `rows` rows of `cols` pixels of `channels` bytes each, row
   * `i` starting at byte `i * step` of `data`.
   */
  datatype Pixels = Pixels(rows: nat, cols: nat, channels: nat, step: nat, data: seq<byte>) {
    /** The meaningful bytes of one row, `cols * channels`. */
    function RowBytes(): nat {
      cols * channels
    }

    /** One (`CV_8UC1`) or three (`CV_8UC3`) channels, and every row inside `data`. */
    predicate WellFormed() {
      (channels == 1 || channels == 3) && Fits(rows, step, RowBytes(), |data|)
    }
  }

  predicate Shaped(p: Pixels, rows: nat, cols: nat, channels: nat) {
    p.WellFormed() && p.rows == rows && p.cols == cols && p.channels == channels
  }

  /** A dense image of zero bytes. */
  function Blank(rows: nat, cols: nat, channels: nat): (p: Pixels)
    requires channels == 1 || channels == 3
    ensures Shaped(p, rows, cols, channels) && p.step == p.RowBytes()
  {
    Pixels(rows, cols, channels, cols * channels, seq(Offset(rows, cols * channels), _ => 0))
  }

  /** The `cv::cvtColor` codes the component uses. */
  datatype ColorCode = Gray2Rgb | Rgb2Gray | Bgr2Gray

  function SourceChannels(code: ColorCode): nat {
    if code == Gray2Rgb then 1 else 3
  }

  function TargetChannels(code: ColorCode): nat {
    if code == Gray2Rgb then 3 else 1
  }

  /** `cv::cvtColor`: an image of the same size with the code's channel count. */
  type ColorConverter = f: (ColorCode, Pixels) -> Pixels
    | forall code: ColorCode, p: Pixels :: p.WellFormed() && p.channels == SourceChannels(code) ==>
        Shaped(f(code, p), p.rows, p.cols, TargetChannels(code))
    witness (code: ColorCode, p: Pixels) => Blank(p.rows, p.cols, TargetChannels(code))

  /** `cv::equalizeHist`: a grey image of the same size. */
  type Equalizer = f: Pixels -> Pixels
    | forall p: Pixels :: p.WellFormed() && p.channels == 1 ==> Shaped(f(p), p.rows, p.cols, 1)
    witness (p: Pixels) => Blank(p.rows, p.cols, 1)

  /** The file extension handed to `cv::imencode`. */
  datatype ImageKind = Jpg | Png

  /** `CV_IMWRITE_JPEG_QUALITY` and `CV_IMWRITE_PNG_COMPRESSION` with their values. */
  datatype EncodeParam = JpegQuality(quality: int) | PngCompression(level: int)

  /** `cv::imencode`: any byte stream. */
  type Encoder = (ImageKind, Pixels, EncodeParam) -> seq<byte>

  /** `CV_LOAD_IMAGE_COLOR` and `CV_LOAD_IMAGE_GRAYSCALE`. */
  datatype LoadFlag = LoadColor | LoadGrayscale

  /** `cv::imdecode`: any image. */
  type Decoder = (seq<byte>, LoadFlag) -> Pixels

  datatype Point = Point(x: int, y: int)

  datatype Size = Size(width: int, height: int)

  datatype Rect = Rect(x: int, y: int, width: int, height: int)

  /** `cv::Scalar` with the three channels of an 8-bit colour image. */
  datatype Scalar = Scalar(v0: int, v1: int, v2: int)

  /** The arguments of `cv::ellipse` other than the image, the centre and the axes. */
  datatype EllipseStyle = EllipseStyle(angle: int, startAngle: int, endAngle: int, color: Scalar,
                                       thickness: int, lineType: int, shift: int)

  /** `cv::ellipse`: the image's new bytes; the header does not change. */
  type EllipseDrawer = f: (Pixels, Point, Size, EllipseStyle) -> seq<byte>
    | forall p: Pixels, center: Point, axes: Size, style: EllipseStyle :: |f(p, center, axes, style)| == |p.data|
    witness (p: Pixels, center: Point, axes: Size, style: EllipseStyle) => p.data

  /** The library routines, supplied by the caller. */
  datatype Library = Library(cvtColor: ColorConverter, equalizeHist: Equalizer,
                             imencode: Encoder, imdecode: Decoder, ellipse: EllipseDrawer)

  /** `CV_HAAR_SCALE_IMAGE`. */
  const HaarScaleImage: int := 2

  /** The arguments of `CascadeClassifier::detectMultiScale` after the image. */
  datatype DetectParams = DetectParams(scaleFactor: real, minNeighbors: int, flags: int, minSize: Size)

  /** A rectangle with non-negative sides inside the image. */
  predicate InImage(r: Rect, p: Pixels) {
    0 <= r.x && 0 <= r.y && 0 <= r.width && 0 <= r.height
    && r.x + r.width <= p.cols && r.y + r.height <= p.rows
  }

  /** `CascadeClassifier::detectMultiScale`: rectangles inside the image. */
  type Detector = f: (Pixels, DetectParams) -> seq<Rect>
    | forall p: Pixels, params: DetectParams, i: int :: 0 <= i < |f(p, params)| ==> InImage(f(p, params)[i], p)
    witness (p: Pixels, params: DetectParams) => []

  /** A loaded `cv::CascadeClassifier`. */
  datatype CascadeClassifier = CascadeClassifier(detectMultiScale: Detector)

  /** Whether `Mat::create(rows, cols, type)` keeps the buffer it has. */
  predicate KeepsBuffer(rows: nat, cols: nat, channels: nat, newRows: nat, newCols: nat, newChannels: nat) {
    rows == newRows && cols == newCols && channels == newChannels
  }

  /** `cv::Mat` of 8-bit pixels. */
  class Mat {
    var rows: nat
    var cols: nat
    var channels: nat
    var step: nat
    var data: array<byte>

    predicate Valid()
      reads this
    {
      (channels == 1 || channels == 3) && Fits(rows, step, cols * channels, data.Length)
    }

    /** The image the header and the buffer describe. */
    function Value(): (p: Pixels)
      reads this, data
      ensures Valid() ==> p.WellFormed()
    {
      Pixels(rows, cols, channels, step, data[..])
    }

    /** `cv::Mat()`: no rows, no columns, type `CV_8UC1`. */
    constructor ()
      ensures Valid() && fresh(data)
      ensures rows == 0 && cols == 0 && channels == 1 && step == 0 && data.Length == 0
    {
      rows, cols, channels, step := 0, 0, 1, 0;
      data := new byte[0];
    }

    /**
     * `Mat::create(r, c, CV_8UC<ch>)`: nothing happens when the matrix already has
     * that size and type; otherwise a new dense buffer of unspecified contents
     * replaces the old one.
     */
    method Create(r: nat, c: nat, ch: nat)
      requires Valid() && (ch == 1 || ch == 3)
      modifies this
      ensures Valid()
      ensures rows == r && cols == c && channels == ch
      ensures KeepsBuffer(old(rows), old(cols), old(channels), r, c, ch) ==> data == old(data) && step == old(step)
      ensures !KeepsBuffer(old(rows), old(cols), old(channels), r, c, ch) ==>
                fresh(data) && step == c * ch && data.Length == r * (c * ch)
    {
      if rows == r && cols == c && channels == ch {
        return;
      }
      OffsetIsProduct(r, c * ch);
      rows, cols, channels, step := r, c, ch, c * ch;
      data := new byte[r * (c * ch)];
    }

    /** `cv::ellipse` on this matrix: its bytes are redrawn in place. */
    method Ellipse(lib: Library, center: Point, axes: Size, style: EllipseStyle)
      requires Valid()
      modifies data
      ensures Valid()
      ensures data[..] == lib.ellipse(old(Value()), center, axes, style)
    {
      var drawn := lib.ellipse(Value(), center, axes, style);
      forall k | 0 <= k < data.Length {
        data[k] := drawn[k];
      }
    }
  }
}
