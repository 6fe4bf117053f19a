# ImageFaceDetection: a Dafny model of the image bridge and the processing cycle

`ImageFaceDetection` is an OpenRTM component. It reads camera frames from a data port as
`Img::CameraImage` records, finds faces with an OpenCV Haar cascade, rings each face with an
ellipse, and writes the annotated frame to an output port. This project models the core of
`src/ImageFaceDetection.cpp`:

- **encode** (`convertCvMatToImg`) turns a `cv::Mat` into a wire record. It picks one or three
  output channels from the target `IMAGE_FORMAT` and converts the colour if the channel counts
  differ. It writes width and height, then dispatches on the format:
  - RGB and GRAY targets get the image rows packed densely into `raw_data`, with the row
    padding dropped;
  - JPEG and PNG targets get the output of `imencode`, with the JPEG quality or the PNG
    compression level derived from the compression ratio;
  - any other format fails.
- **decode** (`convertImgToCvMat`) turns a wire record into a `cv::Mat`. It derives a channel
  count from the tag, with a `length / width / height` fallback for unknown tags. It
  (re)allocates the matrix, then copies RGB rows into the strided buffer.
- **the cycle** (`onExecute`): when a new record has arrived it is decoded. Only if decode
  succeeds does the cycle go on: it takes an equalised grey copy, detects faces on it, draws
  one ellipse per face on the colour frame, encodes the frame as RGB, timestamps it and
  publishes it. `onActivated` is modelled as the outcome of the two cascade loads.

Layout of the model:

| module (file) | contents |
|---|---|
| `RowLayout` (`row_layout.dfy`) | Row-major byte buffers with a row step. `Offset` is the row offset (`i * step`, see `OffsetIsProduct`). `Overwrite` models `memcpy`. `CopyRows` is the row loop both converters run, and `Packed` is its dense result. The file also holds the lemmas about what the loop copies and leaves alone, and the round trips. |
| `CInt` (`c_int.dfy`) | `TruncDiv`: C's truncating conversion of a quotient to `int`. |
| `Img` (`img.dfy`) | The wire record: `ColorFormat`, `ImageData`, `CameraImage`. |
| `OpenCv` (`opencv.dfy`) | `Pixels` is the value of a matrix. `Mat` is a class whose header and `array` buffer are updated in place: `Create` models `Mat::create`, and `Ellipse` models drawing. The OpenCV routines are function-valued parameters (`Library`, `CascadeClassifier`). |
| `Converters` (`converters.dfy`) | `ImageFormat`, the channel and PNG-level rules, encode and decode. |
| `FaceDetection` (`face_detection.dfy`) | `OnActivated`, the face marker geometry, and the component class with `OnExecute`. |
| `Wrappers` (`wrappers.dfy`) | `Option`. |

Encode takes the old record and returns the new one. The C++ function writes into a record
passed by reference, and nothing else aliases that record. Decode and the cycle work on `Mat`
objects and change them in place.

### Behaviour of the code worth knowing

- **GRAY records are never decoded.** The second switch of decode (lines 124-157) has no
  `CF_GRAY` case. A GRAY record reallocates the matrix with one channel, and then decode
  returns false, so such a frame is never marked or published (`OnExecute` ensures
  `written == (isNew && Decodable(format))`, and `Decodable(CfGray)` is false). A GRAY encode
  followed by a decode therefore does not round-trip. The RGB round trip does
  (`PackThenUnpack`, `DenseRoundTrip`, `NoFacesNoMarks`).
- **JPEG and PNG records are not decoded into the matrix.** The decoded colour image is a
  temporary that is never copied into the matrix (lines 144-148), yet decode returns true. The
  frame that gets marked and published is whatever the matrix held after `create`:
  - when the size and the channel count are both unchanged, the buffer is kept, and the frame
    is whatever bytes the matrix held before this cycle (`OnExecute` states this one-step fact).
    Usually these are the last published frame with its ellipses already drawn, so markers build
    up from cycle to cycle. If a failing record resized the matrix since then, they are the
    uninitialised bytes of the buffer that record's `create` installed. For example, an unknown
    tag of 50×50 with 7500 bytes gets 3 channels from the fallback, and a 50×50 JPEG after it
    then carries that buffer. A failed decode that keeps the buffer leaves its bytes alone
    (`OnExecute` states this too);
  - when either changed, `create` installs a fresh buffer with unspecified contents. A GRAY
    record of the same size, or an unknown tag whose fallback count is not 3, changes the
    channel count to one in between, so the next JPEG or PNG frame gets a fresh buffer.
- **An unknown encode format still writes width and height.** Encode writes them (lines 35-36)
  before it fails in the `default` branch. Format and `raw_data` are left untouched.

## Model

| member | source | states |
|---|---|---|
| `RowLayout.OffsetIsProduct` | src/ImageFaceDetection.cpp:43-44 | The row offset used throughout the model is exactly the product `i * step` the source computes. |
| `RowLayout.RowFits` | src/ImageFaceDetection.cpp:42-46 | Row `i < n`, with its padding, lies between offset `i * step` and `(i + 1) * step`, inside the `n` rows. |
| `RowLayout.Overwrite` | src/ImageFaceDetection.cpp:43-45 | `memcpy`: the written range holds the source bytes, and the bytes before and after it are unchanged. The length is unchanged. |
| `RowLayout.OverwriteAt` | src/ImageFaceDetection.cpp:43-45 | Byte by byte: inside the written range the result is the copied byte, outside it the old byte. |
| `RowLayout.MemCopy` | src/ImageFaceDetection.cpp:43-45 | Copying into an array leaves it equal to `Overwrite` of its old contents. |
| `RowLayout.CopyRows` | src/ImageFaceDetection.cpp:42-46 | The row loop never changes the buffer's length. |
| `RowLayout.CopyRowsStep` | src/ImageFaceDetection.cpp:42-46 | One more turn of the row loop is one more `memcpy` of row `n - 1` at offset `(n - 1) * step`. |
| `RowLayout.CopyRowLoop` | src/ImageFaceDetection.cpp:127-131 | The `for` loop of `memcpy` calls (decode's and both of encode's) leaves the buffer equal to `CopyRows` of its old contents. |
| `RowLayout.CopyRowsByteAt` | src/ImageFaceDetection.cpp:127-131 | Byte `t` of copied row `i` is byte `t` of source row `i`. |
| `RowLayout.CopyRowsRowAt` | src/ImageFaceDetection.cpp:127-131 | Every copied row equals the corresponding source row. |
| `RowLayout.CopyRowsRows` | src/ImageFaceDetection.cpp:127-131 | All `n` rows of the destination agree with the source rows. |
| `RowLayout.CopyRowsOutside` | src/ImageFaceDetection.cpp:127-131 | A byte in no copied row keeps its old value. |
| `RowLayout.GapOutsideRows` | src/ImageFaceDetection.cpp:127-131 | The padding bytes after a row belong to no row. |
| `RowLayout.TailOutsideRows` | src/ImageFaceDetection.cpp:127-131 | The bytes after the last row belong to no row. |
| `RowLayout.CopyRowsGapAt` | src/ImageFaceDetection.cpp:127-131 | The padding after row `i` of the destination is not touched. |
| `RowLayout.CopyRowsKeepsPadding` | src/ImageFaceDetection.cpp:127-131 | The padding after every row of the destination is not touched. |
| `RowLayout.CopyRowsTail` | src/ImageFaceDetection.cpp:127-131 | The bytes after the last destination row are not touched. |
| `RowLayout.Packed` | src/ImageFaceDetection.cpp:39-47 | The rows of an image concatenated without their padding: exactly `n * len` bytes. |
| `RowLayout.PackedRowAt` | src/ImageFaceDetection.cpp:39-47 | Row `i` of the packed bytes is row `i` of the image. |
| `RowLayout.PackedRows` | src/ImageFaceDetection.cpp:39-47 | Every row of the packed bytes agrees with the image's row. |
| `RowLayout.CopiedByteDense` | src/ImageFaceDetection.cpp:39-47 | Inside the rows, the loop's result in a dense buffer is the packed byte. |
| `RowLayout.CopyRowsDense` | src/ImageFaceDetection.cpp:39-47 | Running the row loop into a dense buffer gives the packed rows, followed by the untouched tail. |
| `RowLayout.PackedDense` | src/ImageFaceDetection.cpp:39-47 | Packing an already dense buffer gives back its first `n` rows unchanged. |
| `RowLayout.PackedReadsOnlyRows` | src/ImageFaceDetection.cpp:39-47 | The packed bytes depend on the rows only. Padding is never copied. |
| `RowLayout.OffsetMono` | src/ImageFaceDetection.cpp:42-46 | Row offsets grow with the row index. |
| `RowLayout.FitsFewer` | src/ImageFaceDetection.cpp:42-46 | If `n` rows fit in a buffer, any fewer rows fit too. |
| `RowLayout.PackThenUnpack` | src/ImageFaceDetection.cpp:125-131 | RGB encode then RGB decode: copying packed rows into a buffer of any step reproduces every row of the image. |
| `RowLayout.UnpackThenPack` | src/ImageFaceDetection.cpp:125-131 | RGB decode then RGB encode gives back the first `width * height * 3` bytes of `raw_data`. |
| `RowLayout.DenseRoundTrip` | src/ImageFaceDetection.cpp:125-131 | For a dense buffer the raw round trip is exact, whatever the buffer held before. |
| `CInt.TruncDiv` | src/ImageFaceDetection.cpp:69 | `(int)((double)n / d)` is the quotient truncated towards zero. `q * d` lies at most `d` below a non-negative `n`, and at most `d` above a negative `n`. |
| `OpenCv.Mat.Value` | src/ImageFaceDetection.cpp:118-122 | A valid matrix describes a well-formed image. |
| `OpenCv.Mat.Create` | src/ImageFaceDetection.cpp:118-122 | `Mat::create` sets the size and the type. It keeps the buffer and the step when these are unchanged. Otherwise it installs a fresh dense buffer of `rows * cols * channels` bytes. |
| `OpenCv.Mat.Ellipse` | src/ImageFaceDetection.cpp:301 | `cv::ellipse` redraws the matrix's bytes in place with what the drawing routine returns. The header does not change. |
| `Converters.OutChannels` | src/ImageFaceDetection.cpp:24 | The output has one channel exactly when the target is `FMT_GRAY`, and three otherwise. |
| `Converters.Conversion` | src/ImageFaceDetection.cpp:27-33 | A conversion is chosen exactly when the channel counts differ. It is the one that maps the input count to the output count. |
| `Converters.ProcImage` | src/ImageFaceDetection.cpp:26-33 | `procImage` has the source's size and the output channel count. It is the source itself when no conversion is needed. |
| `Converters.PngLevel` | src/ImageFaceDetection.cpp:69-71 | The level for a ratio is its truncated tenth with 10 lowered to 9:<br>- ratios 0..109 give 0..9;<br>- 0..9 give 0, and 90..109 give 9;<br>- 110 and above give `ratio / 10`, which is at least 11 and unclamped;<br>- negative ratios truncate towards zero. |
| `Converters.EncodedRowsAt` | src/ImageFaceDetection.cpp:39-47 | The raw encoding has `width * height * channels` bytes. Byte `i * width * channels + j` is byte `i * step + j` of the image, so the padding is not copied. |
| `Converters.RowProducts` | src/ImageFaceDetection.cpp:41-44 | The products `width * height * channels`, `i * width * channels` and `i * step` written in the source are the row offsets of the model. |
| `Converters.Resized` | src/ImageFaceDetection.cpp:41 | `raw_data.length(n)` has length `n` and keeps the old bytes below `n`. |
| `Converters.PackRows` | src/ImageFaceDetection.cpp:39-47 | The `FMT_RGB` and `FMT_GRAY` branches produce exactly the packed rows of `procImage`, whatever `raw_data` held before. |
| `Converters.ConvertCvMatToImg` | src/ImageFaceDetection.cpp:19-95 | Encode:<br>- succeeds exactly for the four known formats;<br>- always writes width and height;<br>- writes the format's tag (`WireTag`: `CF_GRAY`, `CF_RGB`, `CF_JPEG` or `CF_PNG`, lines 40, 50, 65 and 82);<br>- writes the packed rows for RGB and GRAY, and `imencode` output with quality `ratio` (JPEG) or level `PngLevel(ratio)` (PNG);<br>- on failure leaves format and data untouched;<br>- never touches the capture time. |
| `Converters.DecodeChannels` | src/ImageFaceDetection.cpp:105-116 | The channel count is 1 for `CF_GRAY` and 3 for `CF_RGB`, `CF_JPEG` and `CF_PNG`. For other tags it never exceeds what `raw_data` can hold. |
| `Converters.FallbackRecoversChannels` | src/ImageFaceDetection.cpp:115 | For an unknown tag, `width * height * c` bytes give back `c` channels. |
| `Converters.AllocatedChannels` | src/ImageFaceDetection.cpp:118-122 | The matrix is allocated with three channels exactly when the count is three, and one otherwise. |
| `Converters.RgbRowsFit` | src/ImageFaceDetection.cpp:127-131 | The rows decode reads from a readable RGB record lie inside `raw_data`. |
| `Converters.ConvertImgToCvMat` | src/ImageFaceDetection.cpp:97-159 | Decode:<br>- returns true exactly for `CF_RGB`, `CF_JPEG` and `CF_PNG`;<br>- always reallocates to `height x width` with the allocated channel count, keeping the buffer as `create` does;<br>- for RGB, makes every row agree with `raw_data`, and when the buffer is kept the result is exactly the row loop over the old bytes;<br>- for every other tag leaves a kept buffer's bytes unchanged. |
| `FaceDetection.OnActivated` | src/ImageFaceDetection.cpp:259-270 | Activation succeeds exactly when both cascades load. |
| `FaceDetection.MarkerGeometry` | src/ImageFaceDetection.cpp:300-301 | `FaceCenter` and `FaceAxes` are the `cv::Point` and `cv::Size` of lines 300-301, with each half truncated towards zero. For a rectangle with non-negative values, the ellipse is centred at `(x + w/2, y + h/2)` with semi-axes `(w/2, h/2)`, and lies within the rectangle. |
| `FaceDetection.MarkerOfSquareFace` | src/ImageFaceDetection.cpp:299-302 | The face `{20, 20, 40, 40}` gets an ellipse centred at (40, 40) with semi-axes (20, 20). |
| `FaceDetection.DrawFaces` | src/ImageFaceDetection.cpp:299-302 | Drawing the markers keeps the size, the type, the step and the length of the frame, and its well-formedness. |
| `FaceDetection.NoFacesNoMarks` | src/ImageFaceDetection.cpp:299-303 | When no face is found, an RGB record that was decoded row by row (into a matrix of any step) and encoded again with no marker drawn gives back its first `width * height * 3` bytes. |
| `FaceDetection.ImageFaceDetection.DrawMarkers` | src/ImageFaceDetection.cpp:299-302 | The marker loop leaves the frame equal to `DrawFaces` of the frame before it. |
| `FaceDetection.ImageFaceDetection.MarkAndPublish` | src/ImageFaceDetection.cpp:287-307 | After a successful decode:<br>- the grey copy is `equalizeHist(cvtColor(BGR2GRAY))` of the frame;<br>- the frame carries one marker per detected face;<br>- the output record is the marked frame's packed rows, tagged RGB and stamped with the current time. |
| `FaceDetection.ImageFaceDetection.OnExecute` | src/ImageFaceDetection.cpp:281-328 | A record is written exactly when a new frame arrived and decode succeeded. Without a new frame nothing changes.<br>A new frame:<br>- is always stored;<br>- always gives the matrix the record's size and the channel count decode allocates;<br>- keeps the buffer and the step exactly when the size and the channel count are unchanged, and otherwise gets a fresh dense buffer.<br>A failed decode leaves the output and the grey copy alone, and leaves the bytes of a kept buffer unchanged.<br>A published JPEG/PNG frame whose buffer was kept carries the bytes the matrix held before this cycle. |

## Left out

- The OpenCV routines are parameters whose types promise only the shape of their result. These are `cvtColor`, `equalizeHist`, `imencode`, `imdecode`, `detectMultiScale` and `ellipse`. The model therefore says nothing about pixel values, so it cannot state that a grey image promoted to RGB has R = G = B. For the same reason it cannot state that detection is deterministic beyond being a function.
- The detector's floating-point scale factor is kept as a `real` argument. Cascade evaluation itself lies outside the model.
- Images are `CV_8UC1` or `CV_8UC3` only. A source matrix with another channel count, such as `CV_8UC4`, is not modelled.
- Integer widths are unbounded. Overflow of `width * height * channels` and of the row offsets in C `int` is not modelled. Width and height are natural numbers, so negative sizes are not modelled.
- `ConvertImgToCvMat`: does not state the buffer's bytes after `Mat::create` allocates a fresh one, because OpenCV leaves them uninitialised. For RGB only the copied rows are stated in that case.
- `ConvertImgToCvMat`: requires `Readable`, because the source reads out of bounds or divides by zero otherwise. A readable record is an RGB record with at least `width * height * 3` bytes, or an unknown tag with non-zero width and height.
- The grey-scale `imdecode` branch of decode (lines 149-152) cannot run, because the channel count is always 3 for JPEG and PNG. The decoded colour image is computed and dropped, as in the source.
- `procImage = srcImage` shares the matrix buffer in C++. The model uses the image value. Encode never writes through it, so the two agree.
- `m_grayImage` is kept as an image value, not a `Mat`, because only its value reaches the detector.
- Loading the cascades (file I/O) is reduced to two booleans in `OnActivated`. The loaded face cascade is a constructor argument of the component. The eye cascade is loaded but used only in dead code.
- RTC plumbing is left out: port objects, `isNew`/`read`/`write`, `setTimestamp` (the current time is a parameter), `onInitialize`, the configuration, the module specification and the factory.
- `onDeactivated` and the other lifecycle hooks only return `RTC_OK` or are commented out.
- The commented-out eye detection and `imshow` block (lines 310-323) is dead code.
- The position output port is never written.
- The camera's intrinsic and extrinsic parameters in the record are never read or written by the converters.
- The `double` arithmetic of the PNG level and of the marker geometry is modelled as exact truncation. For 32-bit operands the `double` quotient never rounds across an integer.
