/**
 * MediaDetHelper: the bridge to the external DirectShow MediaDet decoder.
 * The decoder itself is not modelled: a media file is the list of streams
 * the decoder reports, and sampling a frame is an opaque loader function.
 */
module MediaDetHelper {
  import opened Wrappers
  import opened Bytes

  /** The major type of a media stream, as StreamMediaType.majortype reports it. */
  datatype MajorType = Video | Audio | OtherType(guid: nat)

  /** What the decoder reports about one stream of the file. */
  datatype StreamInfo = StreamInfo(
    majorType: MajorType,
    width: int,           // BmiHeader.Width of the stream's VideoInfoHeader
    height: int,          // BmiHeader.Height
    frameBufferSize: int, // the byte count GetBitmapBits reports for a null buffer
    streamLengthSec: real)

  /** A media file as the decoder sees it. */
  datatype MediaFile = MediaFile(streams: seq<StreamInfo>)

  /** A MediaDet object bound to a file name and a current stream. */
  datatype DecoderHandle = MediaDet(filename: string, currentStream: int)

  /** The metadata the probing OpenVideoFile overload hands back through its out parameters. */
  datatype StreamMetadata = StreamMetadata(
    width: int, height: int, bufferSize: int, videoStreamIndex: int, videoStreamLengthSec: real)

  /** The exception raised when no stream of the file is a video stream (InvalidDataException). */
  datatype ProbeError = VideoStreamNotFound(file: string)

  /** The image formats of System.Drawing.Imaging.ImageFormat that the tool offers. */
  datatype ImageFormat = Bmp | Emf | Exif | Gif | Icon | Jpeg | Png | Tiff | Wmf

  /** The arguments LoadFrame receives besides the decoder and the position. */
  datatype LoadOptions = LoadOptions(
    bufferSize: int, width: int, height: int, rotateY: bool, format: ImageFormat, grayScale: bool)

  /**
   * The outcome of one LoadFrame call: the bytes of the memory stream the
   * image was saved into (MemoryStream.GetBuffer: the encoded image followed
   * by the stream's unused, zeroed capacity), a null array, or an exception.
   * LoadFrame itself never returns null; Main still tests for it, so the
   * null case is kept for the consume loop.
   */
  datatype FrameResult = Frame(data: seq<byte>) | NullFrame | Thrown(reason: string)

  /** The opaque decode + rotate + grayscale + encode pipeline behind LoadFrame. */
  type FrameLoader = (DecoderHandle, real, LoadOptions) -> FrameResult

  /** The index of the first stream whose major type is video, if any. */
  function FirstVideoStream(streams: seq<StreamInfo>): (r: Option<nat>)
    ensures r.Some? ==> r.value < |streams| && streams[r.value].majorType == Video
    ensures r.Some? ==> forall j :: 0 <= j < r.value ==> streams[j].majorType != Video
    ensures r.None? ==> forall j :: 0 <= j < |streams| ==> streams[j].majorType != Video
  {
    if |streams| == 0 then None
    else if streams[0].majorType == Video then Some(0)
    else match FirstVideoStream(streams[1..])
         case None => None
         case Some(k) => Some(k + 1)
  }

  /**
   * OpenVideoStream: scans the streams in ascending index order and stops at
   * the first video stream. On failure the loop variable has run to the
   * stream count.
   */
  method OpenVideoStream(file: MediaFile) returns (found: bool, streamNumber: int)
    ensures found <==> FirstVideoStream(file.streams).Some?
    ensures found ==> streamNumber == FirstVideoStream(file.streams).value
    ensures !found ==> streamNumber == |file.streams|
  {
    var streamsNumber := |file.streams|;
    streamNumber := 0;
    while streamNumber < streamsNumber
      invariant 0 <= streamNumber <= streamsNumber
      invariant forall j :: 0 <= j < streamNumber ==> file.streams[j].majorType != Video
    {
      if file.streams[streamNumber].majorType == Video {
        FirstVideoStreamIsFirst(file.streams, streamNumber);
        return true, streamNumber;
      }
      streamNumber := streamNumber + 1;
    }
    FirstVideoStreamIsFirst(file.streams, -1);
    return false, streamNumber;
  }

  /** FirstVideoStream is determined by its contract: the earliest video stream, or none. */
  lemma {:induction false} FirstVideoStreamIsFirst(streams: seq<StreamInfo>, k: int)
    requires forall j :: 0 <= j < |streams| && (k < 0 || j < k) ==> streams[j].majorType != Video
    requires 0 <= k ==> k < |streams| && streams[k].majorType == Video
    ensures k < 0 ==> FirstVideoStream(streams) == None
    ensures 0 <= k ==> FirstVideoStream(streams) == Some(k)
  {
  }

  /**
   * The probing OpenVideoFile overload: selects the first video stream and
   * reports its dimensions, its length and the frame buffer size, or fails
   * with InvalidDataException when the file has no video stream.
   */
  method OpenVideoFile(fileName: string, file: MediaFile) returns (r: Result<StreamMetadata, ProbeError>)
    ensures r.Failure? <==> forall j :: 0 <= j < |file.streams| ==> file.streams[j].majorType != Video
    ensures r.Failure? ==> r.error == VideoStreamNotFound(fileName)
    ensures r.Success? ==>
      var k := r.value.videoStreamIndex;
      && 0 <= k < |file.streams|
      && file.streams[k].majorType == Video
      && (forall j :: 0 <= j < k ==> file.streams[j].majorType != Video)
      && r.value == StreamMetadata(file.streams[k].width, file.streams[k].height,
                                   file.streams[k].frameBufferSize, k, file.streams[k].streamLengthSec)
  {
    var found, videoStreamIndex := OpenVideoStream(file);
    if !found {
      return Failure(VideoStreamNotFound(fileName));
    }
    var stream := file.streams[videoStreamIndex];
    r := Success(StreamMetadata(stream.width, stream.height, stream.frameBufferSize,
                                videoStreamIndex, stream.streamLengthSec));
  }

  /** The other OpenVideoFile overload: a MediaDet bound to the file and the given stream. */
  function OpenDecoder(fileName: string, videoStreamIndex: int): (h: DecoderHandle)
    ensures h.filename == fileName && h.currentStream == videoStreamIndex
  {
    MediaDet(fileName, videoStreamIndex)
  }
}
