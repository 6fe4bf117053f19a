/**
 * The two converters between the wire image record and an OpenCV matrix:
 * `convertCvMatToImg` (encode) and `convertImgToCvMat` (decode), with the
 * format and channel rules they follow.
 */
module Converters {
  import opened Wrappers
  import opened RowLayout
  import opened CInt
  import opened Img
  import opened OpenCv

  /** `IMAGE_FORMAT`; `FmtOutOfRange` is an integer cast to the enum that names none of its values. */
  datatype ImageFormat = FmtGray | FmtRgb | FmtJpeg | FmtPng | FmtOutOfRange(code: int) {
    predicate Known() {
      !FmtOutOfRange?
    }
  }

  /** The `compression_ratio` argument when the caller gives none. */
  const DefaultCompressionRatio: int := 75

  /** Channels of the encoded picture: one for a grey target, three for every other. */
  function OutChannels(format: ImageFormat): (c: nat)
    ensures c == 1 || c == 3
    ensures c == 1 <==> format == FmtGray
  {
    if format == FmtGray then 1 else 3
  }

  /** The colour conversion encode applies before it copies or compresses, if any. */
  function Conversion(inChannels: nat, outChannels: nat): (code: Option<ColorCode>)
    ensures code.None? <==> inChannels == outChannels
    ensures (inChannels == 1 || inChannels == 3) && (outChannels == 1 || outChannels == 3) && code.Some? ==>
              SourceChannels(code.value) == inChannels && TargetChannels(code.value) == outChannels
  {
    if outChannels > inChannels then Some(Gray2Rgb)
    else if outChannels < inChannels then Some(Rgb2Gray)
    else None
  }

  /** `procImage`: the source image converted to `outChannels` channels, or the source itself. */
  function ProcImage(lib: Library, src: Pixels, outChannels: nat): (p: Pixels)
    requires src.WellFormed() && (outChannels == 1 || outChannels == 3)
    ensures Shaped(p, src.rows, src.cols, outChannels)
    ensures src.channels == outChannels ==> p == src
  {
    match Conversion(src.channels, outChannels)
    case None => src
    case Some(code) => lib.cvtColor(code, src)
  }

  /** The wire tag encode writes for a known format. */
  function WireTag(format: ImageFormat): ColorFormat
    requires format.Known()
  {
    match format
    case FmtGray => CfGray
    case FmtRgb => CfRgb
    case FmtJpeg => CfJpeg
    case FmtPng => CfPng
  }

  /**
   * The PNG compression level for a compression ratio: the ratio divided by ten
   * and truncated, with ten lowered to nine.  Ratios from 0 to 109 give the
   * levels 0 to 9 that OpenCV accepts; larger ratios are passed on unclamped.
   */
  function PngLevel(ratio: int): (level: int)
    ensures 0 <= ratio < 110 ==> 0 <= level <= 9
    ensures 0 <= ratio < 90 ==> level * 10 <= ratio < level * 10 + 10
    ensures 90 <= ratio < 110 <==> 0 <= ratio && level == 9
    ensures 110 <= ratio ==> level == ratio / 10 && level >= 11
    ensures ratio < 0 ==> level <= 0 && level * 10 - 10 < ratio <= level * 10
  {
    var level := TruncDiv(ratio, 10);
    if level == 10 then 9 else level
  }

  /** The `raw_data` of an uncompressed record: the image's rows without their padding. */
  function EncodedRows(p: Pixels): (raw: seq<byte>)
    requires p.WellFormed()
  {
    Packed(p.data, p.step, p.RowBytes(), p.rows)
  }

  /**
   * The raw encoding has `width * height * channels` bytes, and byte
   * `i * width * channels + j` is byte `j` of row `i` of the image.
   */
  lemma EncodedRowsAt(p: Pixels, i: nat, j: nat)
    requires p.WellFormed() && i < p.rows && j < p.cols * p.channels
    ensures |EncodedRows(p)| == p.cols * p.rows * p.channels
    ensures (RowProducts(p.rows, p.cols, p.channels, i, p.step);
             RowFits(i, p.rows, p.cols * p.channels, p.cols * p.channels);
             RowFits(i, p.rows, p.step, p.cols * p.channels);
             EncodedRows(p)[i * p.cols * p.channels + j] == p.data[i * p.step + j])
  {
    var len := p.cols * p.channels;
    RowProducts(p.rows, p.cols, p.channels, i, p.step);
    RowFits(i, p.rows, len, len);
    RowFits(i, p.rows, p.step, len);
    PackedRowAt(p.data, p.step, len, p.rows, i);
    assert EncodedRows(p)[Offset(i, len) + j] == Row(EncodedRows(p), len, len, i)[j];
  }

  /** The products the source writes, as row offsets. */
  lemma RowProducts(rows: nat, cols: nat, channels: nat, i: nat, step: nat)
    ensures cols * rows * channels == Offset(rows, cols * channels)
    ensures i * cols * channels == Offset(i, cols * channels)
    ensures i * step == Offset(i, step)
  {
    var len := cols * channels;
    OffsetIsProduct(rows, len);
    OffsetIsProduct(i, len);
    OffsetIsProduct(i, step);
    MulRotate(cols, rows, channels);
    MulAssoc(i, cols, channels);
  }

  lemma MulRotate(a: int, b: int, c: int)
    ensures a * b * c == b * (a * c)
  {
  }

  lemma MulAssoc(a: int, b: int, c: int)
    ensures a * b * c == a * (b * c)
  {
  }

  /** `raw_data.length(n)`: the old bytes are kept up to the new length, new bytes are zero. */
  function Resized(s: seq<byte>, n: nat): (r: seq<byte>)
    ensures |r| == n
    ensures forall k :: 0 <= k < n ==> r[k] == if k < |s| then s[k] else 0
  {
    if n <= |s| then s[..n] else s + seq(n - |s|, _ => 0)
  }

  /**
   * The `FMT_RGB` and `FMT_GRAY` cases of encode: `raw_data` is resized to
   * `width * height * channels` bytes, then the row loop copies row `i` from
   * offset `i * step` of the image to offset `i * width * channels`.
   */
  method PackRows(prev: seq<byte>, p: Pixels) returns (raw: seq<byte>)
    requires p.WellFormed()
    ensures raw == EncodedRows(p)
  {
    var len := p.cols * p.channels;
    var size := p.cols * p.rows * p.channels;
    RowProducts(p.rows, p.cols, p.channels, 0, 0);
    var base := Resized(prev, size);
    var a := new byte[size](k requires 0 <= k < size => base[k]);
    assert a[..] == base;
    CopyRowLoop(a, len, p.data, p.step, len, p.rows);
    CopyRowsDense(base, len, p.data, p.step, p.rows);
    raw := a[..];
  }

  /**
   * `convertCvMatToImg(src, dst, outFormat, compressionRatio)`: `dst` is the
   * record before the call and `out` the record after it.  Width and height are
   * written first, whatever the format; an unknown format then leaves the rest
   * of the record alone and fails.
   */
  method ConvertCvMatToImg(lib: Library, src: Mat, dst: CameraImage, outFormat: ImageFormat, compressionRatio: int)
    returns (ok: bool, out: CameraImage)
    requires src.Valid()
    ensures ok == outFormat.Known()
    ensures out.capturedTime == dst.capturedTime
    ensures out.image.width == src.cols && out.image.height == src.rows
    ensures ok ==> out.image.format == WireTag(outFormat)
    ensures !ok ==> out.image.format == dst.image.format && out.image.rawData == dst.image.rawData
    ensures outFormat == FmtRgb || outFormat == FmtGray ==>
              out.image.rawData == EncodedRows(ProcImage(lib, src.Value(), OutChannels(outFormat)))
    ensures outFormat == FmtJpeg ==>
              out.image.rawData == lib.imencode(Jpg, ProcImage(lib, src.Value(), 3), JpegQuality(compressionRatio))
    ensures outFormat == FmtPng ==>
              out.image.rawData == lib.imencode(Png, ProcImage(lib, src.Value(), 3), PngCompression(PngLevel(compressionRatio)))
  {
    var outChannels := OutChannels(outFormat);
    var procImage := ProcImage(lib, src.Value(), outChannels);
    var image := dst.image.(width := src.cols, height := src.rows);
    ok := true;
    match outFormat {
      case FmtRgb =>
        var raw := PackRows(image.rawData, procImage);
        image := image.(format := CfRgb, rawData := raw);
      case FmtJpeg =>
        var compressed := lib.imencode(Jpg, procImage, JpegQuality(compressionRatio));
        image := image.(format := CfJpeg, rawData := compressed);
      case FmtPng =>
        var compressed := lib.imencode(Png, procImage, PngCompression(PngLevel(compressionRatio)));
        image := image.(format := CfPng, rawData := compressed);
      case FmtGray =>
        var raw := PackRows(image.rawData, procImage);
        image := image.(format := CfGray, rawData := raw);
      case FmtOutOfRange(_) =>
        ok := false;
    }
    out := dst.(image := image);
  }

  /**
   * The channel count decode derives from the record: fixed by the four known
   * tags, and `length / width / height` for any other tag.
   */
  function DecodeChannels(img: ImageData): (channels: int)
    requires img.format.CfOther? ==> img.width > 0 && img.height > 0
    ensures img.format == CfGray ==> channels == 1
    ensures img.format in {CfRgb, CfJpeg, CfPng} ==> channels == 3
    ensures img.format.CfOther? ==> channels * img.width * img.height <= |img.rawData|
  {
    match img.format
    case CfGray => 1
    case CfRgb => 3
    case CfPng => 3
    case CfJpeg => 3
    case CfOther(_) => |img.rawData| / img.width / img.height
  }

  /** For an unknown tag, a buffer of `width * height * c` bytes gives back `c` channels. */
  lemma FallbackRecoversChannels(img: ImageData, c: nat)
    requires img.format.CfOther? && img.width > 0 && img.height > 0
    requires |img.rawData| == img.width * img.height * c
    ensures DecodeChannels(img) == c
  {
    var w, h := img.width, img.height;
    assert w * h * c == w * (h * c);
    DivMulCancel(w, h * c);
    DivMulCancel(h, c);
  }

  lemma DivMulCancel(a: nat, b: nat)
    requires a > 0
    ensures (a * b) / a == b
  {
    var q, r := (a * b) / a, (a * b) % a;
    assert a * b == a * q + r && 0 <= r < a;
    assert a * (b - q) == r;
    if b - q >= 1 {
      MulAtLeast(a, b - q);
    } else if b - q <= -1 {
      MulAtLeast(a, q - b);
    }
  }

  lemma MulAtLeast(a: nat, k: int)
    requires k >= 1
    ensures a * k >= a
  {
  }

  /** The channels of the matrix decode allocates: three when the count is three, one otherwise. */
  function AllocatedChannels(img: ImageData): (channels: nat)
    requires img.format.CfOther? ==> img.width > 0 && img.height > 0
    ensures channels == 1 || channels == 3
    ensures channels == 3 <==> DecodeChannels(img) == 3
  {
    if DecodeChannels(img) == 3 then 3 else 1
  }

  /** The tags whose records decode reports as decoded. */
  predicate Decodable(format: ColorFormat) {
    format == CfRgb || format == CfJpeg || format == CfPng
  }

  /**
   * What decode needs of a record to stay inside its buffers: an RGB record
   * holds `width * height * 3` bytes, and an unknown tag comes with a non-zero
   * size to divide by.
   */
  predicate Readable(img: ImageData) {
    (img.format == CfRgb ==> |img.rawData| >= img.width * img.height * 3)
    && (img.format.CfOther? ==> img.width > 0 && img.height > 0)
  }

  /** The rows of a readable RGB record lie inside its bytes. */
  lemma RgbRowsFit(img: ImageData)
    requires Readable(img) && img.format == CfRgb
    ensures Fits(img.height, img.width * 3, img.width * 3, |img.rawData|)
  {
    OffsetIsProduct(img.height, img.width * 3);
    assert img.width * img.height * 3 == img.height * (img.width * 3);
  }

  /**
   * `convertImgToCvMat(src, dst)`.  The matrix is (re)allocated before the tag
   * is checked, so it takes the record's size on every path.  Only RGB records
   * are copied in; a JPEG or PNG record is decoded into a temporary that is
   * dropped, so the matrix keeps whatever its buffer held; a grey record and
   * an unknown tag fail.
   */
  method ConvertImgToCvMat(lib: Library, src: CameraImage, dst: Mat) returns (ok: bool)
    requires dst.Valid() && Readable(src.image)
    modifies dst, dst.data
    ensures dst.Valid()
    ensures ok == Decodable(src.image.format)
    ensures dst.rows == src.image.height && dst.cols == src.image.width
    ensures dst.channels == AllocatedChannels(src.image)
    ensures KeepsBuffer(old(dst.rows), old(dst.cols), old(dst.channels), dst.rows, dst.cols, dst.channels) ==>
              dst.data == old(dst.data) && dst.step == old(dst.step)
    ensures !KeepsBuffer(old(dst.rows), old(dst.cols), old(dst.channels), dst.rows, dst.cols, dst.channels) ==>
              fresh(dst.data) && dst.step == dst.cols * dst.channels
    ensures src.image.format == CfRgb ==>
              (RgbRowsFit(src.image);
               RowsAgree(dst.data[..], dst.step, src.image.rawData, dst.cols * 3, dst.cols * 3, dst.rows))
    ensures src.image.format == CfRgb && dst.data == old(dst.data) ==>
              (RgbRowsFit(src.image);
               dst.data[..] == CopyRows(old(dst.data[..]), dst.step, src.image.rawData, dst.cols * 3, dst.cols * 3, dst.rows))
    ensures src.image.format != CfRgb && dst.data == old(dst.data) ==> dst.data[..] == old(dst.data[..])
  {
    var width := src.image.width;
    var height := src.image.height;
    var channels := DecodeChannels(src.image);
    if channels == 3 {
      dst.Create(height, width, 3);
    } else {
      dst.Create(height, width, 1);
    }
    ghost var created := dst.data[..];
    match src.image.format
    case CfRgb =>
      RgbRowsFit(src.image);
      CopyRowLoop(dst.data, dst.step, src.image.rawData, width * 3, width * 3, height);
      CopyRowsRows(created, dst.step, src.image.rawData, width * 3, width * 3, height);
      ok := true;
    case CfJpeg =>
      // The channel count is three here, so the grey-scale branch of the source cannot run.
      var decodedImage := lib.imdecode(src.image.rawData, LoadColor);
      ok := true;
    case CfPng =>
      var decodedImage := lib.imdecode(src.image.rawData, LoadColor);
      ok := true;
    case CfGray =>
      ok := false;
    case CfOther(_) =>
      ok := false;
  }
}
