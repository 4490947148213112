/**
 * Main: the settings decided from the command line, then the consume loop
 * that pulls frames out of a VideoFileSource and writes each one to its
 * own numbered file. The files written are returned in the order they are
 * written; the folder they go to is Settings.outputFolder.
 */
module Program {
  import opened Wrappers
  import opened Bytes
  import opened VideoCache
  import opened MediaDetHelper
  import opened VideoSource
  import opened OutputNames
  import opened CommandLine

  /** One File.WriteAllBytes call: a file name inside the output folder and its contents. */
  datatype WrittenFile = WrittenFile(name: string, contents: seq<byte>)

  /** How the process ends: with Environment.ExitCode, or killed by an exception nothing catches. */
  datatype Exit = ExitCode(code: int) | Unhandled(reason: Abort)

  /** The sampling window for these settings and this file, if it has a video stream. */
  function WindowFor(settings: Settings, media: MediaFile): (w: Option<ServerCache>)
    requires settings.timeStep != 0
  {
    SourceCache(media, settings.timeStart, settings.timeEnd, settings.timeStep)
  }

  /** What the loader returns for frame j of the window: the frame at position GetStreamPosition(j). */
  function Sample(settings: Settings, loadFrame: FrameLoader, c: ServerCache, j: int): (r: FrameResult)
  {
    loadFrame(OpenDecoder(settings.file, c.videoStreamIndex), c.GetStreamPosition(j),
              LoadOptionsFor(c, settings.rotateY, settings.format, settings.grayscale))
  }

  /**
   * The processing part of Main: the source is created and prepared, then
   * frames are pulled until the source ends or a frame comes back null.
   * Frame j of the window is written to the file numbered j + 1. An
   * exception (no video stream, a throwing loader) sets the exit code to -1.
   */
  method ExtractFrames(settings: Settings, media: MediaFile, loadFrame: FrameLoader)
    returns (written: seq<WrittenFile>, exitCode: int)
    requires settings.timeStep != 0
    ensures exitCode == 0 || exitCode == -1
    ensures WindowFor(settings, media).None? ==> written == [] && exitCode == -1
    ensures WindowFor(settings, media).Some? ==>
      var c := WindowFor(settings, media).value;
      && (|written| == 0 || |written| <= c.framesInInterval)
      && WrittenInOrder(settings, loadFrame, c, written)
      && (exitCode == 0 <==>
            |written| >= c.framesInInterval || Sample(settings, loadFrame, c, |written|).NullFrame?)
      && (exitCode == -1 ==> Sample(settings, loadFrame, c, |written|).Thrown?)
      && (c.framesInInterval <= 0 ==> written == [] && exitCode == 0)
  {
    var src := new VideoFileSource("Converter", settings.format, settings.file, settings.timeStart,
                                   settings.timeEnd, settings.timeStep, settings.rotateY, settings.grayscale);
    var prepared := src.PrepareSourceServerCache(media);
    if prepared.Failure? {
      return [], -1;
    }
    var c := prepared.value;
    src.SetSourceServerCache(c);
    var _ := src.Reset();
    assert WindowFor(settings, media) == Some(c);
    written, exitCode := ConsumeFrames(src, settings, loadFrame, c);
  }

  /**
   * The while loop of Main: pull frames until the source ends or a frame
   * comes back null, writing each non-null frame under the next number.
   * A throwing loader ends the loop with exit code -1.
   */
  method ConsumeFrames(src: VideoFileSource, settings: Settings, loadFrame: FrameLoader, c: ServerCache)
    returns (written: seq<WrittenFile>, exitCode: int)
    requires src.Valid() && src.cache == Some(c) && src.currentFrameId == 0
    requires src.mediaDet == Some(OpenDecoder(settings.file, c.videoStreamIndex))
    requires src.format == settings.format && src.rotateY == settings.rotateY && src.grayScale == settings.grayscale
    modifies src`currentFrameId
    ensures exitCode == 0 || exitCode == -1
    ensures |written| == 0 || |written| <= c.framesInInterval
    ensures WrittenInOrder(settings, loadFrame, c, written)
    ensures exitCode == 0 <==>
      |written| >= c.framesInInterval || Sample(settings, loadFrame, c, |written|).NullFrame?
    ensures exitCode == -1 ==> Sample(settings, loadFrame, c, |written|).Thrown?
  {
    written, exitCode := [], 0;
    var frameNo := 0;
    while !src.IsSourceEnded()
      invariant src.Valid() && src.cache == Some(c) && src.mediaDet == Some(OpenDecoder(settings.file, c.videoStreamIndex))
      invariant frameNo == src.currentFrameId == |written|
      invariant frameNo == 0 || frameNo <= c.framesInInterval
      invariant WrittenInOrder(settings, loadFrame, c, written)
      decreases c.framesInInterval - src.currentFrameId
    {
      ghost var sample := Sample(settings, loadFrame, c, frameNo);
      var data := src.GetNextFrame(loadFrame);
      assert data == sample;
      match data {
        case Frame(bytes) =>
          WrittenInOrderExtend(settings, loadFrame, c, written);
          frameNo := frameNo + 1;
          written := written + [WrittenFile(FrameFileName(frameNo, settings.extension), bytes)];
        case NullFrame =>
          break;
        case Thrown(_) =>
          return written, -1;
      }
    }
  }

  /** File j of `written` is frame j of the window, named with the number j + 1. */
  ghost predicate WrittenInOrder(settings: Settings, loadFrame: FrameLoader, c: ServerCache, written: seq<WrittenFile>)
  {
    forall j :: 0 <= j < |written| ==>
      Sample(settings, loadFrame, c, j).Frame? &&
      written[j] == WrittenFile(FrameFileName(j + 1, settings.extension), Sample(settings, loadFrame, c, j).data)
  }

  /** A non-null next frame, written under the next number, keeps the files in order. */
  lemma WrittenInOrderExtend(settings: Settings, loadFrame: FrameLoader, c: ServerCache, written: seq<WrittenFile>)
    requires WrittenInOrder(settings, loadFrame, c, written)
    requires Sample(settings, loadFrame, c, |written|).Frame?
    ensures WrittenInOrder(settings, loadFrame, c, written +
      [WrittenFile(FrameFileName(|written| + 1, settings.extension), Sample(settings, loadFrame, c, |written|).data)])
  {
  }

  /**
   * Main as a whole. Without a usable command line nothing is extracted:
   * the help or an error is shown and the exit code stays 0, except when
   * the argument dictionary cannot be built, which nothing catches.
   */
  method Run(args: seq<string>, host: Host, media: MediaFile, loadFrame: FrameLoader)
    returns (written: seq<WrittenFile>, exit: Exit)
    requires forall s :: ParseSettings(args, host) == Success(s) ==> s.timeStep != 0
    ensures ParseSettings(args, host).Failure? ==> written == []
    ensures ParseSettings(args, host).Failure? && ParseSettings(args, host).error.BadArguments? ==>
      exit == Unhandled(ParseSettings(args, host).error)
    ensures ParseSettings(args, host).Failure? && !ParseSettings(args, host).error.BadArguments? ==>
      exit == ExitCode(0)
    ensures ParseSettings(args, host).Success? ==> exit.ExitCode?
    ensures ParseSettings(args, host).Success? && WindowFor(ParseSettings(args, host).value, media).None? ==>
      written == [] && exit == ExitCode(-1)
    ensures ParseSettings(args, host).Success? && WindowFor(ParseSettings(args, host).value, media).Some? ==>
      var s := ParseSettings(args, host).value;
      var c := WindowFor(s, media).value;
      && (|written| == 0 || |written| <= c.framesInInterval)
      && WrittenInOrder(s, loadFrame, c, written)
      && (exit == ExitCode(0) <==> |written| >= c.framesInInterval || Sample(s, loadFrame, c, |written|).NullFrame?)
      && (exit == ExitCode(-1) <==> !(exit == ExitCode(0)))
      && (exit == ExitCode(-1) ==> Sample(s, loadFrame, c, |written|).Thrown?)
    ensures forall j :: 0 <= j < |written| ==>
      ParseSettings(args, host).Success? &&
      written[j].name == FrameFileName(j + 1, ParseSettings(args, host).value.extension)
  {
    var parsed := ParseSettings(args, host);
    if parsed.Failure? {
      if parsed.error.BadArguments? {
        return [], Unhandled(parsed.error);
      }
      return [], ExitCode(0);
    }
    var code;
    written, code := ExtractFrames(parsed.value, media, loadFrame);
    exit := ExitCode(code);
  }
}
