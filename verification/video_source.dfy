/**
 * VideoFileSource: the pull-iteration state machine over a video file.
 * It owns a decoder handle, opened lazily by Reset, and a cursor that
 * Reset rewinds and GetNextFrame advances.
 */
module VideoSource {
  import opened Wrappers
  import opened VideoCache
  import opened MediaDetHelper

  /**
   * The sampling window PrepareSourceServerCache builds for a file and the
   * configured start, end and step: none when the file has no video stream.
   */
  function SourceCache(media: MediaFile, timeStart: Ticks, timeEnd: Ticks, timeStep: Ticks): (w: Option<ServerCache>)
    requires timeStep != 0
    ensures w.None? <==> FirstVideoStream(media.streams).None?
    ensures w.Some? ==>
      var k := FirstVideoStream(media.streams).value;
      var s := media.streams[k];
      w.value == NewServerCache(s.width, s.height, s.frameBufferSize, k, s.streamLengthSec, timeStart, timeEnd, timeStep)
    ensures w.Some? ==> w.value.videoStreamIndex == FirstVideoStream(media.streams).value
    ensures w.Some? ==> w.value.GetStreamPosition(0) == Seconds(timeStart)
    ensures w.Some? ==> w.value.shiftSec == Seconds(timeStep)
  {
    match FirstVideoStream(media.streams)
    case None => None
    case Some(k) =>
      var s := media.streams[k];
      Some(NewServerCache(s.width, s.height, s.frameBufferSize, k, s.streamLengthSec, timeStart, timeEnd, timeStep))
  }

  /** The arguments GetNextFrame hands to LoadFrame besides the decoder and the position. */
  function LoadOptionsFor(c: ServerCache, rotateY: bool, format: ImageFormat, grayScale: bool): (o: LoadOptions)
    ensures o.bufferSize == c.bufferSize && o.width == c.width && o.height == c.height
    ensures o.rotateY == rotateY && o.format == format && o.grayScale == grayScale
  {
    LoadOptions(c.bufferSize, c.width, c.height, rotateY, format, grayScale)
  }

  class VideoFileSource {
    const name: string
    const format: ImageFormat
    const file: string
    const timeStart: Ticks
    const timeEnd: Ticks
    const timeStep: Ticks
    const rotateY: bool
    const grayScale: bool

    /** The cache handed over by SetSourceServerCache; None while it is still null. */
    var cache: Option<ServerCache>
    /** The MediaDet used for sampling; None while it is still null. */
    var mediaDet: Option<DecoderHandle>
    /** The index of the next frame to sample (_currentFrameId). */
    var currentFrameId: int
    /** How many times a decoder handle has been opened. */
    ghost var decoderOpens: nat

    ghost predicate Valid()
      reads this
    {
      && currentFrameId >= 0
      && decoderOpens == (if mediaDet.Some? then 1 else 0)
    }

    constructor (name: string, format: ImageFormat, file: string,
                 timeStart: Ticks, timeEnd: Ticks, timeStep: Ticks, rotateY: bool, grayScale: bool)
      ensures Valid()
      ensures this.name == name && this.format == format && this.file == file
      ensures this.timeStart == timeStart && this.timeEnd == timeEnd && this.timeStep == timeStep
      ensures this.rotateY == rotateY && this.grayScale == grayScale
      ensures cache == None && mediaDet == None && currentFrameId == 0
    {
      this.name, this.format, this.file := name, format, file;
      this.timeStart, this.timeEnd, this.timeStep := timeStart, timeEnd, timeStep;
      this.rotateY, this.grayScale := rotateY, grayScale;
      cache, mediaDet, currentFrameId := None, None, 0;
      decoderOpens := 0;
    }

    /**
     * PrepareSourceServerCache: probes the file for its first video stream
     * and builds the sampling window from it and the configured times.
     */
    method PrepareSourceServerCache(media: MediaFile) returns (r: Result<ServerCache, ProbeError>)
      requires timeStep != 0
      ensures r.Failure? <==> FirstVideoStream(media.streams).None?
      ensures r.Failure? ==> r.error == VideoStreamNotFound(file)
      ensures r.Success? ==> SourceCache(media, timeStart, timeEnd, timeStep) == Some(r.value)
      ensures r.Success? ==>
        var s := media.streams[FirstVideoStream(media.streams).value];
        r.value == NewServerCache(s.width, s.height, s.frameBufferSize, FirstVideoStream(media.streams).value,
                                  s.streamLengthSec, timeStart, timeEnd, timeStep)
      ensures r.Success? ==>
        var k := FirstVideoStream(media.streams).value;
        var s := media.streams[k];
        && r.value.videoStreamIndex == k
        && r.value.width == s.width && r.value.height == s.height
        && r.value.bufferSize == s.frameBufferSize
        && r.value.videoStreamLengthSec == s.streamLengthSec
        && r.value.GetStreamPosition(0) == Seconds(timeStart)
        && r.value.shiftSec == Seconds(timeStep)
        && r.value.WindowEndsAt(EffectiveEnd(Seconds(timeEnd), s.streamLengthSec))
    {
      var probed := OpenVideoFile(file, media);
      match probed {
        case Failure(e) =>
          FirstVideoStreamIsFirst(media.streams, -1);
          r := Failure(e);
        case Success(m) =>
          FirstVideoStreamIsFirst(media.streams, m.videoStreamIndex);
          r := Success(NewServerCache(m.width, m.height, m.bufferSize, m.videoStreamIndex,
                                      m.videoStreamLengthSec, timeStart, timeEnd, timeStep));
      }
    }

    method SetSourceServerCache(c: ServerCache)
      modifies this`cache
      ensures cache == Some(c)
    {
      cache := Some(c);
    }

    /** IsSourceEnded: the cursor has reached the frame count of the window. */
    predicate IsSourceEnded()
      reads this
      requires cache.Some?
      ensures currentFrameId >= 0 && cache.value.framesInInterval <= 0 ==> IsSourceEnded()
      ensures IsSourceEnded() && currentFrameId < 0 ==> cache.value.framesInInterval < 0
    {
      currentFrameId >= cache.value.framesInInterval
    }

    /** The load options of this source and its cache. */
    function Options(): (o: LoadOptions)
      reads this
      requires cache.Some?
    {
      LoadOptionsFor(cache.value, rotateY, format, grayScale)
    }

    /**
     * Reset: opens the decoder handle if it is still null; then, when the
     * source has not ended, leaves the cursor alone and reports true, and
     * when it has ended, rewinds the cursor to 0 and reports whether the
     * window holds any frame.
     */
    method Reset() returns (ready: bool)
      requires Valid() && cache.Some?
      modifies this`mediaDet, this`currentFrameId, this`decoderOpens
      ensures Valid()
      ensures old(mediaDet).Some? ==> mediaDet == old(mediaDet)
      ensures old(mediaDet).None? ==> mediaDet == Some(OpenDecoder(file, cache.value.videoStreamIndex))
      ensures decoderOpens == 1
      ensures !old(IsSourceEnded()) ==> ready && currentFrameId == old(currentFrameId)
      ensures old(IsSourceEnded()) ==> currentFrameId == 0 && ready == (cache.value.framesInInterval > 0)
      ensures ready <==> !IsSourceEnded()
    {
      if mediaDet.None? {
        mediaDet := Some(OpenDecoder(file, cache.value.videoStreamIndex));
        decoderOpens := decoderOpens + 1;
      }
      if !IsSourceEnded() {
        return true;
      }
      currentFrameId := 0;
      return !IsSourceEnded();
    }

    /**
     * GetNextFrame: samples the frame at the cursor's position without
     * checking for the end of the window, then advances the cursor by one.
     * A null decoder, or an exception from LoadFrame, leaves the cursor where it was.
     */
    method GetNextFrame(loadFrame: FrameLoader) returns (r: FrameResult)
      requires Valid() && cache.Some?
      modifies this`currentFrameId
      ensures Valid()
      ensures old(mediaDet).None? ==> r.Thrown?
      ensures old(mediaDet).Some? ==>
        r == loadFrame(mediaDet.value, cache.value.GetStreamPosition(old(currentFrameId)), Options())
      ensures r.Thrown? ==> currentFrameId == old(currentFrameId)
      ensures !r.Thrown? ==> currentFrameId == old(currentFrameId) + 1
    {
      if mediaDet.None? {
        return Thrown("NullReferenceException");
      }
      r := loadFrame(mediaDet.value, cache.value.GetStreamPosition(currentFrameId), Options());
      if r.Thrown? {
        return;
      }
      currentFrameId := currentFrameId + 1;
    }
  }
}
