/**
 * The wire image record of the component's data ports (`Img::CameraImage`),
 * as the two converters read and write it.  The camera's intrinsic and
 * extrinsic parameters, which the converters never touch, are not modelled.
 */
module Img {
  import opened RowLayout

  /** `Img::ColorFormat`; `CfOther` stands for any tag outside the four the converters know. */
  datatype ColorFormat = CfGray | CfRgb | CfJpeg | CfPng | CfOther(tag: int)

  /** `RTC::Time`. */
  datatype Time = Time(sec: nat, nsec: nat)

  /** `Img::ImageData`: the size of the picture, its format and its bytes. */
  datatype ImageData = ImageData(width: nat, height: nat, format: ColorFormat, rawData: seq<byte>)

  /** `Img::CameraImage`: an image and the time it was captured. */
  datatype CameraImage = CameraImage(capturedTime: Time, image: ImageData)
}
