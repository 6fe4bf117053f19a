/**
 * The face detection component: on activation it loads two cascades, and on
 * every cycle it decodes a new input frame, finds faces on an equalised grey
 * copy, rings every face with an ellipse on the colour frame, and publishes
 * the frame re-encoded as RGB with a fresh timestamp.
 */
module FaceDetection {
  import opened RowLayout
  import opened CInt
  import opened Img
  import opened OpenCv
  import opened Converters

  datatype ReturnCode = RtcOk | RtcError

  /**
   * `onActivated`: the face cascade is loaded first, then the eye cascade; the
   * component is active only when both loads succeed.
   */
  function OnActivated(faceCascadeLoads: bool, eyeCascadeLoads: bool): (rc: ReturnCode)
    ensures rc == RtcOk <==> faceCascadeLoads && eyeCascadeLoads
  {
    if !faceCascadeLoads then RtcError
    else if !eyeCascadeLoads then RtcError
    else RtcOk
  }

  /** Scale factor 1.1, two neighbours, `CV_HAAR_SCALE_IMAGE`, faces of at least 30 by 30 pixels. */
  const FaceDetectParams: DetectParams := DetectParams(1.1, 2, HaarScaleImage, Size(30, 30))

  /** A full magenta ellipse, four pixels thick, drawn with 8-connected lines. */
  const FaceMarker: EllipseStyle := EllipseStyle(0, 0, 360, Scalar(255, 0, 255), 4, 8, 0)

  /** `cv::Point(x + width * 0.5, y + height * 0.5)`: each coordinate truncated towards zero. */
  function FaceCenter(face: Rect): Point {
    Point(TruncDiv(2 * face.x + face.width, 2), TruncDiv(2 * face.y + face.height, 2))
  }

  /** `cv::Size(width * 0.5, height * 0.5)`: each half truncated towards zero. */
  function FaceAxes(face: Rect): Size {
    Size(TruncDiv(face.width, 2), TruncDiv(face.height, 2))
  }

  /**
   * For a rectangle with non-negative coordinates and sides, the marker is
   * centred at `(x + width/2, y + height/2)` with semi-axes `(width/2, height/2)`
   * in integer halving, and stays inside the rectangle.
   */
  lemma MarkerGeometry(face: Rect)
    requires 0 <= face.x && 0 <= face.y && 0 <= face.width && 0 <= face.height
    ensures FaceCenter(face) == Point(face.x + face.width / 2, face.y + face.height / 2)
    ensures FaceAxes(face) == Size(face.width / 2, face.height / 2)
    ensures face.x <= FaceCenter(face).x - FaceAxes(face).width
    ensures FaceCenter(face).x + FaceAxes(face).width <= face.x + face.width
    ensures face.y <= FaceCenter(face).y - FaceAxes(face).height
    ensures FaceCenter(face).y + FaceAxes(face).height <= face.y + face.height
  {
  }

  /** A 40 by 40 face at (20, 20) is ringed by an ellipse centred at (40, 40) with semi-axes 20. */
  lemma MarkerOfSquareFace()
    ensures FaceCenter(Rect(20, 20, 40, 40)) == Point(40, 40)
    ensures FaceAxes(Rect(20, 20, 40, 40)) == Size(20, 20)
  {
  }

  /** The frame after the marker loop has drawn one ellipse per face, in order. */
  function DrawFaces(lib: Library, p: Pixels, faces: seq<Rect>): (q: Pixels)
    ensures q.rows == p.rows && q.cols == p.cols && q.channels == p.channels && q.step == p.step
    ensures |q.data| == |p.data|
    ensures p.WellFormed() ==> q.WellFormed()
    decreases |faces|
  {
    if faces == [] then p
    else
      var before := DrawFaces(lib, p, faces[..|faces| - 1]);
      var face := faces[|faces| - 1];
      before.(data := lib.ellipse(before, FaceCenter(face), FaceAxes(face), FaceMarker))
  }

  /**
   * Without faces the published bytes are the received ones: an RGB frame
   * decoded row by row and encoded again with no marker drawn gives back the
   * first `width * height * 3` bytes of the record, whatever the step of the
   * matrix it passed through.
   */
  lemma NoFacesNoMarks(lib: Library, img: ImageData, decoded: Pixels)
    requires img.format == CfRgb && Readable(img)
    requires Shaped(decoded, img.height, img.width, 3)
    requires (RgbRowsFit(img);
              RowsAgree(decoded.data, decoded.step, img.rawData, img.width * 3, img.width * 3, img.height))
    ensures EncodedRows(DrawFaces(lib, decoded, [])) == img.rawData[..img.width * img.height * 3]
  {
    var len := img.width * 3;
    RgbRowsFit(img);
    assert DrawFaces(lib, decoded, []) == decoded;
    PackedReadsOnlyRows(decoded.data, decoded.step, img.rawData, len, len, img.height);
    PackedDense(img.rawData, len, img.height);
    RowProducts(img.height, img.width, 3, 0, decoded.step);
  }

  /** `ImageFaceDetection`: the state the cycle keeps between calls. */
  class ImageFaceDetection {
    /** `m_in.data`: the last record read from the input port. */
    var inData: CameraImage
    /** `m_out.data`: the record written to the output port. */
    var outData: CameraImage
    /** `m_srcImage`: the decoded colour frame, kept from cycle to cycle. */
    const srcImage: Mat
    /** `m_grayImage`: the equalised grey copy the detector runs on. */
    var grayImage: Pixels
    /** `m_FaceCascade`, as loaded by `onActivated`. */
    const faceCascade: CascadeClassifier

    ghost predicate Valid()
      reads this, srcImage
    {
      srcImage.Valid()
    }

    constructor (cascade: CascadeClassifier, initialIn: CameraImage, initialOut: CameraImage)
      ensures Valid() && fresh(srcImage) && fresh(srcImage.data)
      ensures faceCascade == cascade && inData == initialIn && outData == initialOut
      ensures srcImage.rows == 0 && srcImage.cols == 0 && grayImage == Blank(0, 0, 1)
    {
      inData := initialIn;
      outData := initialOut;
      srcImage := new Mat();
      grayImage := Blank(0, 0, 1);
      faceCascade := cascade;
    }

    /** The marker loop of `onExecute`: one ellipse per face on the colour frame. */
    method DrawMarkers(lib: Library, faces: seq<Rect>)
      requires Valid()
      modifies srcImage.data
      ensures Valid()
      ensures srcImage.Value() == DrawFaces(lib, old(srcImage.Value()), faces)
    {
      ghost var frame := srcImage.Value();
      for i := 0 to |faces|
        invariant srcImage.Valid()
        invariant srcImage.Value() == DrawFaces(lib, frame, faces[..i])
      {
        srcImage.Ellipse(lib, FaceCenter(faces[i]), FaceAxes(faces[i]), FaceMarker);
        assert faces[..i + 1][..i] == faces[..i];
      }
      assert faces[..|faces|] == faces;
    }

    /**
     * The body of `onExecute` after a successful decode: detect faces on an
     * equalised grey copy of the frame, mark them on the frame, and encode the
     * frame as RGB into the output record, stamped with `now`.
     */
    method MarkAndPublish(lib: Library, now: Time)
      requires Valid() && srcImage.channels == 3
      modifies this, srcImage.data
      ensures Valid() && inData == old(inData)
      ensures grayImage == lib.equalizeHist(lib.cvtColor(Bgr2Gray, old(srcImage.Value())))
      ensures srcImage.Value() == DrawFaces(lib, old(srcImage.Value()), faceCascade.detectMultiScale(grayImage, FaceDetectParams))
      ensures outData == CameraImage(now, ImageData(srcImage.cols, srcImage.rows, CfRgb, EncodedRows(srcImage.Value())))
    {
      grayImage := lib.cvtColor(Bgr2Gray, srcImage.Value());
      grayImage := lib.equalizeHist(grayImage);
      var faces := faceCascade.detectMultiScale(grayImage, FaceDetectParams);
      DrawMarkers(lib, faces);
      var _, out := ConvertCvMatToImg(lib, srcImage, outData, FmtRgb, DefaultCompressionRatio);
      outData := out.(capturedTime := now);
    }

    /**
     * `onExecute`, given whether the input port has a new record, that record,
     * and the time `setTimestamp` reads.  `decoded` is the frame as decode
     * left it, before any marker was drawn.
     */
    method OnExecute(lib: Library, isNew: bool, received: CameraImage, now: Time)
      returns (written: bool, ghost decoded: Pixels)
      requires Valid()
      requires isNew ==> Readable(received.image)
      modifies this, srcImage, srcImage.data
      ensures Valid()
      ensures written == (isNew && Decodable(received.image.format))
      ensures !isNew ==> inData == old(inData) && outData == old(outData) && grayImage == old(grayImage)
      ensures !isNew ==> srcImage.data == old(srcImage.data) && srcImage.Value() == old(srcImage.Value())
      ensures isNew ==> inData == received
      ensures isNew ==> srcImage.rows == received.image.height && srcImage.cols == received.image.width
      ensures isNew ==> srcImage.channels == AllocatedChannels(received.image)
      ensures isNew && KeepsBuffer(old(srcImage.rows), old(srcImage.cols), old(srcImage.channels),
                                   srcImage.rows, srcImage.cols, srcImage.channels) ==>
                srcImage.data == old(srcImage.data) && srcImage.step == old(srcImage.step)
      ensures isNew && !KeepsBuffer(old(srcImage.rows), old(srcImage.cols), old(srcImage.channels),
                                    srcImage.rows, srcImage.cols, srcImage.channels) ==>
                fresh(srcImage.data) && srcImage.step == srcImage.cols * srcImage.channels
      ensures isNew && !written ==> outData == old(outData) && grayImage == old(grayImage)
      ensures isNew && !written && srcImage.data == old(srcImage.data) ==> srcImage.data[..] == old(srcImage.data[..])
      ensures written ==> Shaped(decoded, received.image.height, received.image.width, 3)
      ensures written && received.image.format == CfRgb ==>
                (RgbRowsFit(received.image);
                 RowsAgree(decoded.data, decoded.step, received.image.rawData, decoded.cols * 3, decoded.cols * 3, decoded.rows))
      ensures written && received.image.format != CfRgb && srcImage.data == old(srcImage.data) ==>
                decoded.data == old(srcImage.data[..])
      ensures written ==> grayImage == lib.equalizeHist(lib.cvtColor(Bgr2Gray, decoded))
      ensures written ==> srcImage.Value() == DrawFaces(lib, decoded, faceCascade.detectMultiScale(grayImage, FaceDetectParams))
      ensures written ==> outData == CameraImage(now, ImageData(received.image.width, received.image.height, CfRgb,
                                                                EncodedRows(srcImage.Value())))
    {
      decoded := srcImage.Value();
      if !isNew {
        written := false;
        return;
      }
      inData := received;
      var ok := ConvertImgToCvMat(lib, inData, srcImage);
      decoded := srcImage.Value();
      if !ok {
        written := false;
        return;
      }
      MarkAndPublish(lib, now);
      written := true;
    }
  }
}
