# SplitWmvToBmps in Dafny

SplitWmvToBmps is a command-line tool that cuts a WMV or AVI video into
numbered image files. It takes one frame every `-step` between `-start`
and `-end` and can rotate the frames, turn them gray and encode them in
one of nine image formats. This project models the tool's core and
proves properties of it:

- **The sampling window** (`video_cache.dfy`, module `VideoCache`). This
  is `VideoFileSourceServerCache`. It turns the start, end and step, plus
  the length of the video stream, into a frame count, and it turns a
  frame number into a timestamp.
- **The frame source** (`video_source.dfy`, class
  `VideoSource.VideoFileSource`). This is the pull iteration:
  - a cursor that `Reset` rewinds and `GetNextFrame` advances;
  - a decoder handle that `Reset` opens lazily;
  - `IsSourceEnded`, which holds exactly when the cursor has reached the
    window's frame count (it is a predicate on the state, so this holds
    in every state).
- **The decoder bridge** (`media_det_helper.dfy`, module
  `MediaDetHelper`).
  - The search for the first video stream of a file is modelled.
  - The DirectShow decoder is not. A file is the list of stream
    descriptions the decoder reports.
  - Loading a frame is an opaque function from a decoder handle, a
    position in seconds and the load options to a frame result: a byte
    array, null, or an exception. The byte array is what
    `MemoryStream.GetBuffer()` returns: the encoded image followed by the
    stream's unused capacity.
- **The grayscale conversion** (`image_helper.dfy`, module `ImageHelper`).
  - The 256×256×256 lookup table is built by a triple loop.
  - `MakeGrayscale2` writes each pixel's gray value into all three
    channels of a new, stride-aligned buffer.
  - The table formula keeps the code's coefficients,
    0.3·R + 0.59·B + 0.11·B, evaluated in exact arithmetic rather than
    in `double`. Green is never read.
- **The command line** (`arguments.dfy`, `command_line.dfy`,
  `output_names.dfy`, `program.dfy`). This covers:
  - splitting each `key=value` argument into a dictionary;
  - the `-input` checks (present, an existing file, ends with `wmv` or
    `avi`);
  - resolving `-format` into a format and a file extension;
  - the optional switches and their defaults;
  - the `-output` check;
  - the consume loop of `Main`, which writes frame *j* of the window to
    the file named `{j+1:D6}.{extension}`.

Times enter as .NET `TimeSpan` ticks (100 ns each) and are turned into
exact `real` seconds. Everything the .NET library, the file system or the
decoder answers is a function parameter (`CommandLine.Host`,
`MediaDetHelper.FrameLoader`) or a value (`MediaDetHelper.MediaFile`).

## Model

| member | source | states |
|---|---|---|
| VideoCache.Seconds | SplitWmvToBmps/VideoFileSource.cs:36-38 | A tick count becomes the exact number of seconds: seconds × 10^7 equals the ticks. |
| VideoCache.EffectiveEnd | SplitWmvToBmps/VideoFileSource.cs:40 | The end used is the requested end, or the stream length when the end exceeds it. It is never above either, and it is one of the two. |
| VideoCache.FramesInInterval | SplitWmvToBmps/VideoFileSource.cs:41 | The count is the floor of (end − start) / step: n ≤ quotient < n + 1. It is not clamped at zero. |
| VideoCache.NewServerCache | SplitWmvToBmps/VideoFileSource.cs:18-42 | The cache keeps the stream's width, height, buffer size, index and length. Frame 0 is at the start time. The step is the step time. The frame count is FramesInInterval of the window that ends at the effective end. |
| VideoCache.ServerCache.GetStreamPosition | SplitWmvToBmps/VideoFileSource.cs:71-74 | With a positive step, a frame number is sampled at or after the start iff it is not negative, and strictly after the start iff it is positive. |
| VideoCache.ConsecutivePositions | SplitWmvToBmps/VideoFileSource.cs:71-74 | GetStreamPosition(0) is the start. Positions i and i + 1 differ by exactly one step. |
| VideoCache.PositionsInsideWindow | SplitWmvToBmps/VideoFileSource.cs:36-74 | With a positive step, every counted frame is sampled at or after the start, and at least one step before the effective end. |
| VideoCache.WindowIsMaximal | SplitWmvToBmps/VideoFileSource.cs:36-74 | With a positive step, one frame more than the count would pass the effective end. |
| VideoCache.EmptyWindow | SplitWmvToBmps/VideoFileSource.cs:41 | With a positive step: the count is ≤ 0 iff less than one step separates start and end; it is negative iff the start lies past the end. |
| VideoCache.ScenarioWithinStream | SplitWmvToBmps/VideoFileSource.cs:36-41 | Start 0 s, end 10 s, step 0.5 s, stream 20 s: 20 frames, the last at 9.5 s. |
| VideoCache.ScenarioStartAfterEnd | SplitWmvToBmps/VideoFileSource.cs:40-41 | Start 5 s, end 3 s, step 1 s: the count is negative, for any stream length. |
| VideoCache.ScenarioClampedByStream | SplitWmvToBmps/VideoFileSource.cs:40-41 | End 100 s on a 10 s stream with step 1 s: the stream length clamps the count to 10. |
| MediaDetHelper.FirstVideoStream | SplitWmvToBmps/VideoFileSource.cs:313-323 | The result is the smallest index whose major type is video, with no video stream before it; or none, when no stream is video. |
| MediaDetHelper.OpenVideoStream | SplitWmvToBmps/VideoFileSource.cs:301-327 | The ascending loop reports true iff a video stream exists. On success the index is the first video stream. On failure the loop variable equals the stream count. |
| MediaDetHelper.FirstVideoStreamIsFirst | SplitWmvToBmps/VideoFileSource.cs:313-323 | An index that is video, with no video stream before it, is FirstVideoStream; with no video stream at all, FirstVideoStream is none. |
| MediaDetHelper.OpenVideoFile | SplitWmvToBmps/VideoFileSource.cs:213-246 | It fails with "video stream not found" for the file iff no stream is video. Otherwise it returns the first video stream's index, width, height, buffer size and length. |
| MediaDetHelper.OpenDecoder | SplitWmvToBmps/VideoFileSource.cs:202-211 | The handle is bound to the given file name and stream index. |
| VideoSource.SourceCache | SplitWmvToBmps/VideoFileSource.cs:117-130 | The window exists iff the file has a video stream. It is NewServerCache of the first video stream's width, height, buffer size, index and length and of the configured start, end and step. |
| VideoSource.LoadOptionsFor | SplitWmvToBmps/VideoFileSource.cs:168-176 | LoadFrame gets the cache's buffer size, width and height and the source's rotate, format and grayscale settings. |
| VideoSource.VideoFileSource.constructor | SplitWmvToBmps/VideoFileSource.cs:94-111 | The settings are stored. The cache and the decoder are null and the cursor is 0. |
| VideoSource.VideoFileSource.PrepareSourceServerCache | SplitWmvToBmps/VideoFileSource.cs:117-130 | It fails, naming the file, iff the file has no video stream. Otherwise the cache is built from the first video stream and the configured start, end and step: it is the window SourceCache describes. |
| VideoSource.VideoFileSource.SetSourceServerCache | SplitWmvToBmps/VideoFileSource.cs:134-138 | The source keeps the given cache; nothing else changes. |
| VideoSource.VideoFileSource.IsSourceEnded | SplitWmvToBmps/VideoFileSource.cs:141-144 | A window with count ≤ 0 is ended at every cursor ≥ 0; an ended source with a negative cursor has a negative count. |
| VideoSource.VideoFileSource.Reset | SplitWmvToBmps/VideoFileSource.cs:146-161 | The decoder is opened only if still null, so it is opened once over any number of Resets. If the source had not ended: the cursor is kept and the result is true. If it had ended: the cursor becomes 0 and the result is count > 0. In both cases the result is "not ended". |
| VideoSource.VideoFileSource.GetNextFrame | SplitWmvToBmps/VideoFileSource.cs:164-181 | It samples the loader at GetStreamPosition(old cursor), with no end check. A null decoder throws. A throwing call leaves the cursor alone; any other result advances it by exactly 1. |
| ImageHelper.TableEntry | SplitWmvToBmps/ImageHelper.cs:25 | In exact arithmetic, the entry is the truncation of 0.3·r + 0.59·b + 0.11·b, which equals (3r + 7b) div 10. It always fits in a byte. |
| ImageHelper.GreenIgnored | SplitWmvToBmps/ImageHelper.cs:25 | The green index never changes an entry. |
| ImageHelper.GrayIsFixedPoint | SplitWmvToBmps/ImageHelper.cs:25 | In exact arithmetic 0.3v + 0.59v + 0.11v = v, so a gray pixel (v, v, v) maps to v. |
| ImageHelper.FullRedEntry | SplitWmvToBmps/ImageHelper.cs:25 | table[255, g, 0] = 76 for every g. |
| ImageHelper.AlignedStride | SplitWmvToBmps/ImageHelper.cs:62 | A new 24-bit bitmap's stride is a multiple of 4 in [3w, 3w + 4). |
| ImageHelper.Grayscale | SplitWmvToBmps/ImageHelper.cs:77-98 | The converted buffer has height × stride bytes. |
| ImageHelper.GrayByteAt | SplitWmvToBmps/ImageHelper.cs:80-96 | Channel k of pixel x in row y of the output is table[R, G, B]. R, G and B are read at offsets +2, +1 and +0 of y·srcStride + 3x. |
| ImageHelper.PaddingByteAt | SplitWmvToBmps/ImageHelper.cs:85-97 | A row's bytes past its 3·width pixel bytes keep the new bitmap's zero. |
| ImageHelper.GrayscalePixel | SplitWmvToBmps/ImageHelper.cs:91-96 | The three bytes at y·newStride + 3x are equal, and equal to the table entry of the source pixel. |
| ImageHelper.GrayscalePadding | SplitWmvToBmps/ImageHelper.cs:85-97 | Every padding byte of a row is zero. |
| ImageHelper.GrayscaleIdempotentAt | SplitWmvToBmps/ImageHelper.cs:91-96 | With the exact-arithmetic table, each byte of a converted buffer survives a second conversion. |
| ImageHelper.GrayscaleIdempotent | SplitWmvToBmps/ImageHelper.cs:57-106 | With the exact-arithmetic table, converting a converted buffer again changes nothing. |
| ImageHelper.ImageHelper.constructor | SplitWmvToBmps/ImageHelper.cs:11-14 | The static constructor leaves a complete table. |
| ImageHelper.ImageHelper.OptimizeCalculations | SplitWmvToBmps/ImageHelper.cs:16-29 | After the triple loop every index in [0,255]³ holds its entry of the formula. |
| ImageHelper.ImageHelper.MakeGrayscale2 | SplitWmvToBmps/ImageHelper.cs:57-106 | The result has the original's width and height and an aligned stride. Its buffer is freshly allocated, and its bytes are exactly the conversion of the original's bytes. The original is not modified: the method modifies only the buffer it allocates. |
| ImageHelper.ImageHelper.ConvertRow | SplitWmvToBmps/ImageHelper.cs:85-97 | The x loop fills row y's pixel bytes with their gray values. Every byte after them is still zero. |
| Arguments.IndexOf | SplitWmvToBmps/Program.cs:82 | The result is the position of the first occurrence of the character, or the length when there is none. |
| Arguments.Split | SplitWmvToBmps/Program.cs:82 | Splitting always yields at least one piece. |
| Arguments.SplitJoin | SplitWmvToBmps/Program.cs:82 | Joining the pieces with the separator gives the argument back, and no piece holds the separator. |
| Arguments.Key | SplitWmvToBmps/Program.cs:83 | The key (item[0]) is the text before the first '='. |
| Arguments.ParseArgument | SplitWmvToBmps/Program.cs:82-83 | It fails with an index error iff the argument has no '='. The value (item[1]) is the text between the first and the second '='. Neither key nor value holds '='. |
| Arguments.ParseArguments | SplitWmvToBmps/Program.cs:81-83 | An index error names an argument without '='. A duplicate-key error names a key two arguments share. On success the keys are exactly the arguments' keys. |
| Arguments.ParseArgumentsSucceeds | SplitWmvToBmps/Program.cs:81-83 | The dictionary is built iff every argument holds '=' and no two arguments share a key. |
| Arguments.ParseArgumentsValues | SplitWmvToBmps/Program.cs:81-83 | A built dictionary maps each argument's key to that argument's value. |
| CommandLine.LowerChar | SplitWmvToBmps/Program.cs:118 | An upper-case ASCII letter moves to its lower-case letter. Every other character is kept. |
| CommandLine.ToLowerInvariant | SplitWmvToBmps/Program.cs:118 | The result has the same length and holds no upper-case letter. Each character is lowered. |
| CommandLine.LowercaseFixed | SplitWmvToBmps/Program.cs:118 | Lowering a lower-case string leaves it unchanged. |
| CommandLine.ToLowerIdempotent | SplitWmvToBmps/Program.cs:118 | Lowering twice is lowering once. |
| CommandLine.FormatKey | SplitWmvToBmps/Program.cs:26-38 | Every format has a lower-case key in the dictionary that maps back to it. |
| CommandLine.ImageFormatsInjective | SplitWmvToBmps/Program.cs:26-38 | Every dictionary key is lower case and is the key of its own format, so no two keys share a format. |
| CommandLine.EndsWith | SplitWmvToBmps/Program.cs:102-103 | A path ends with a suffix iff it is no shorter and its prefix before the suffix's length, followed by the suffix, is the path. |
| CommandLine.EndsWithMeansSuffix | SplitWmvToBmps/Program.cs:102-103 | A path ends with a suffix iff it is some string followed by that suffix. |
| CommandLine.AcceptedInput | SplitWmvToBmps/Program.cs:102-103 | An accepted input has at least three characters and its last three are "wmv" or "avi". |
| CommandLine.AcceptedInputExamples | SplitWmvToBmps/Program.cs:102-107 | "clip.wmv", "clip.avi" and "clipwmv" are accepted; "clip.WMV" and "clip.mp4" are not. The check is case-sensitive and needs no dot. |
| CommandLine.ResolveFormat | SplitWmvToBmps/Program.cs:111-130 | With no -format the result is Bmp with extension "bmp". Otherwise it succeeds iff the lowered value is a key, and the extension is that key. The format is the key's format. A failure names the -format value. |
| CommandLine.ResolveFormatIgnoresCase | SplitWmvToBmps/Program.cs:118-123 | Values equal up to case resolve alike, and the extension is lower case. |
| CommandLine.ResolveFormatExamples | SplitWmvToBmps/Program.cs:111-130 | No -format gives (Bmp, "bmp"). "JPG" gives (Jpeg, "jpg"). "jpeg" aborts. |
| CommandLine.OptionalSetting | SplitWmvToBmps/Program.cs:133-230 | An absent switch gives its default. A present one succeeds iff its value parses, and gives that value. A failure names the switch and its value. |
| CommandLine.SettingsFrom | SplitWmvToBmps/Program.cs:87-257 | Settings are produced iff every check passes: -input present, resolving to an existing file ending in wmv or avi; -format resolving; every present switch parsing; -output present and prepared. Each failure names its check: a missing -input; an input not found or not a video file, naming the resolved path; the -format value ResolveFormat rejects; a switch and its unparsable value; a missing -output; an -output value that could not be prepared. On success every field is the resolved or parsed value or its default, and the output folder is the resolved -output. |
| CommandLine.SettingsFromCheckOrder | SplitWmvToBmps/Program.cs:87-257 | When several checks fail, the first in Main's order decides the abort: a rejected -format wins once the input is accepted; a bad switch implies the input and -format passed and every switch before it parsed; an -output abort implies every earlier check passed. |
| CommandLine.ParseSettings | SplitWmvToBmps/Program.cs:74-257 | No arguments shows the help. Arguments that cannot form a dictionary raise. Otherwise the result is SettingsFrom of the dictionary. |
| CommandLine.KeyValue | SplitWmvToBmps/Program.cs:82-83 | "key=value", with no '=' inside key or value, splits into exactly that key and value. |
| CommandLine.InputOutputArguments | SplitWmvToBmps/Program.cs:81-83 | "-input=i" and "-output=o" build the dictionary {-input: i, -output: o}. |
| CommandLine.DefaultSettings | SplitWmvToBmps/Program.cs:133-230 | With only -input and -output given, the settings are Bmp/"bmp", no rotation, no grayscale, start 0, end TimeSpan.MaxValue and step 40 ms. |
| OutputNames.Decimal | SplitWmvToBmps/Program.cs:275 | The decimal spelling is all digits, has no leading zero and reads back as the number. |
| OutputNames.LeadingZerosValue | SplitWmvToBmps/Program.cs:275 | Padding zeros in front do not change a decimal's value. |
| OutputNames.FormatD6 | SplitWmvToBmps/Program.cs:275 | "D6" gives max(6, digit count) digits that read back as the number. A leading zero appears only as padding. |
| OutputNames.FrameFileName | SplitWmvToBmps/Program.cs:275 | The name of frame n's file: FormatD6(n), a dot, the extension. Its meaning is stated by FrameFileNameParts and FrameFileNamesDistinct. |
| OutputNames.FrameFileNameParts | SplitWmvToBmps/Program.cs:275 | A frame file name is at least six digits spelling the frame number, then the first '.', then the extension. |
| OutputNames.FrameFileNamesDistinct | SplitWmvToBmps/Program.cs:275 | Different frame numbers never get the same file name. |
| OutputNames.FrameFileNameExamples | SplitWmvToBmps/Program.cs:275 | Frame 1 as bmp is "000001.bmp"; 42 as jpg is "000042.jpg"; 1234567 as png is "1234567.png". |
| Program.WindowFor | SplitWmvToBmps/Program.cs:262-263 | The window of the source Main creates: SourceCache of the file with the settings' start, end and step. |
| Program.Sample | SplitWmvToBmps/Program.cs:271 | Frame j of the window: the loader called with the decoder Reset opens on the file's video stream, position GetStreamPosition(j), and the LoadOptionsFor of the settings. ConsumeFrames proves each GetNextFrame call returns it. |
| Program.ExtractFrames | SplitWmvToBmps/Program.cs:259-293 | A file without a video stream writes nothing and exits with -1. Otherwise: file j holds the bytes of window frame j and is named FrameFileName(j + 1, extension), so numbering starts at 1 and counts the non-null frames. At most max(0, count) files are written. The exit code is 0 iff the loop stopped because the source ended or a frame came back null, and -1 when the loader threw. A window with count ≤ 0 writes nothing and exits with 0. |
| Program.ConsumeFrames | SplitWmvToBmps/Program.cs:268-286 | Starting at cursor 0, file j holds window frame j, named with number j + 1. At most max(0, count) files are written. The loop ends with 0 iff the source ended or the next frame was null, and with -1 when the loader threw. |
| Program.WrittenInOrderExtend | SplitWmvToBmps/Program.cs:272-280 | Writing a non-null next frame under the next number keeps file j = frame j for every j. |
| Arguments.KeysOfLast | SplitWmvToBmps/Program.cs:83 | The keys of a list of arguments are the keys of all but the last, plus the last one's key. |
| Program.Run | SplitWmvToBmps/Program.cs:68-295 | A command line that fails its checks writes nothing. It exits with 0, except that an argument list that cannot form a dictionary ends in an unhandled exception. With usable settings but no video stream nothing is written and the exit code is -1. Otherwise file j holds window frame j under FrameFileName(j + 1, extension), at most max(0, count) files are written, the exit code is 0 iff the source ended or the next frame was null, and -1 only when the loader threw. |

## Left out

- Floating point. The window, the positions and the table formula are
  computed in exact reals. The code computes in `double`, which rounds.
  For the table, `(byte)(.3 * r + .59 * b + .11 * b)` in `double` is one
  less than the exact (3r + 7b) div 10 at 1,397 of the 65,536 (r, b)
  pairs: those where 3r + 7b is a multiple of 10 and the `double` sum
  lands just below the integer (r = 0, b = 90 gives 62, not 63). In the
  frame count, a quotient close to an integer can be floored differently.
- ImageHelper.TableEntry: states the exact-arithmetic entry
  (3r + 7b) div 10, which the code's `double` evaluation misses by one at
  the 1,397 pairs above.
- ImageHelper.GrayIsFixedPoint, ImageHelper.GrayscaleIdempotentAt,
  ImageHelper.GrayscaleIdempotent: hold for the exact-arithmetic table
  only. In `double`, 67 gray levels v have table[v, v, v] = v − 1 (v = 1
  gives 0, v = 4 gives 3), so the code's `MakeGrayscale2` is not
  idempotent on such pixels.
- FramesInInterval, NewServerCache, PrepareSourceServerCache,
  SourceCache, WindowFor, ExtractFrames, Run: a zero step is excluded by a precondition. In the code,
  a zero step divides a double by zero and then casts it to `int`, and
  that result is not well defined. The `(int)` cast of a count beyond the
  32-bit range is not modelled either: counts are unbounded.
- The -step default is 40 ms as the code sets it. The help text's
  "0:00:00:00.0040" is not the modelled value.
- Negative counts. A window whose start lies past its end has a
  *negative* count, not zero (VideoCache.ScenarioStartAfterEnd). Nothing
  is extracted either way: IsSourceEnded already holds at cursor 0
  (Program.ExtractFrames).
- The DirectShow `MediaDet` COM object is abstracted:
  - its stream enumeration, its media types and the VideoInfoHeader
    marshalling;
  - the buffer `AllocHGlobal`/`FreeHGlobal` in `LoadFrame`.

  A file is the list of streams the decoder reports, and `LoadFrame` is
  an opaque loader function.
- MediaDetHelper.FrameResult: `LoadFrame` returns `MemoryStream.GetBuffer()`
  (VideoFileSource.cs:277, 286), which is never null. Its bytes are the
  encoded image followed by the stream's unused capacity, zero bytes, so
  a written file can end in zero padding after the image. The model's
  loader returns an arbitrary byte sequence, and its `NullFrame` outcome
  over-approximates the code: only the `data == null` test of `Main`
  (Program.cs:272, 282-285) gives it meaning.
- GDI+ is abstracted:
  - `RotateFlip`, `Save` (image encoding) and the `Bitmap` over the
    decoder's buffer are inside that loader;
  - `LockBits`/`UnlockBits` are left out.

  A bitmap is a byte array with width, height and stride. A new 24-bit
  bitmap is taken to have the 4-byte-aligned stride and zero-filled
  memory, so the row padding that `MakeGrayscale2` never writes reads as
  zero.
- The `lock` in `GetNextFrame` only matters under concurrency; the model
  is single-threaded.
- The .NET parsers are parameters of `CommandLine.Host`. These are
  `bool.Parse`, `TimeSpan.Parse`, `RelativePathDiscovery.ResolveRelativePath`,
  `File.Exists`, and the `Directory.Exists`/`CreateDirectory` step on the
  output folder. `FileInfo.FullName`, applied when the source is created,
  is taken as the identity on the already resolved input path.
- CommandLine.LowerChar, CommandLine.ToLowerInvariant: lower ASCII
  letters only. The invariant culture also maps other letters: U+0130 'İ'
  lowers to 'i', so .NET accepts `-format=GİF` as gif, and the model
  rejects it.
- CommandLine.EndsWith compares characters one by one. .NET's
  culture-sensitive `EndsWith` also skips ignorable characters.
- Logging, the help text, the version banner, `File.Delete` of an
  existing output file and `Console.Beep` are not modelled. Neither is
  the output folder as a path prefix of each file: Program.ExtractFrames
  returns file names and contents in write order.
- Program.ExtractFrames, Program.ConsumeFrames, Program.Run: the file
  system calls of the loop (`File.Exists`, `File.Delete`,
  `File.WriteAllBytes`) are taken to succeed. In the code an I/O
  exception from any of them is caught like a loader exception and sets
  the exit code to -1; the model's -1 comes only from a missing video
  stream or a throwing loader.
- `ImageHelper.MakeGrayscale` is not modelled: it is only a file-reading
  and file-writing wrapper around `MakeGrayscale2`.
- `BaseSource`, `SourceSettings`, `VideoFileSettings` and the empty
  `Dispose` methods are property bags and no-ops. VideoFileSettings.Create
  is inlined into Program.ExtractFrames.
- The separate btgs tool is not part of this model.
