/**
 * The decisions Main takes before any frame is extracted: the argument
 * dictionary, the input file check, the output format and its extension,
 * the optional switches with their defaults, and the output directory.
 * Everything the .NET library or the file system answers is a parameter.
 */
module CommandLine {
  import opened Wrappers
  import opened VideoCache
  import opened MediaDetHelper
  import opened Arguments

  /** A character that is not an upper-case ASCII letter. */
  predicate NotAsciiUpper(c: char)
  {
    !('A' <= c <= 'Z')
  }

  /** A string with no upper-case ASCII letter in it. */
  predicate NoAsciiUpper(s: string)
  {
    forall i :: 0 <= i < |s| ==> NotAsciiUpper(s[i])
  }

  /** Char.ToLowerInvariant on ASCII letters; every other character is kept. */
  function LowerChar(c: char): (d: char)
    ensures NotAsciiUpper(d)
    ensures NotAsciiUpper(c) ==> d == c
    ensures !NotAsciiUpper(c) ==> d as int == c as int + ('a' as int - 'A' as int)
  {
    if 'A' <= c <= 'Z' then (c as int - 'A' as int + 'a' as int) as char else c
  }

  /** String.ToLowerInvariant: every character lowered, length kept. */
  function ToLowerInvariant(s: string): (t: string)
    ensures |t| == |s|
    ensures NoAsciiUpper(t)
    ensures forall i :: 0 <= i < |s| ==> t[i] == LowerChar(s[i])
  {
    seq(|s|, i requires 0 <= i < |s| => LowerChar(s[i]))
  }

  /** Lowering a lower-case string changes nothing; in particular lowering twice is lowering once. */
  lemma LowercaseFixed(s: string)
    requires NoAsciiUpper(s)
    ensures ToLowerInvariant(s) == s
  {
  }

  lemma ToLowerIdempotent(s: string)
    ensures ToLowerInvariant(ToLowerInvariant(s)) == ToLowerInvariant(s)
  {
    LowercaseFixed(ToLowerInvariant(s));
  }

  /** The format dictionary built by Init: lower-case keys, each naming one ImageFormat. */
  const ImageFormats: map<string, ImageFormat> := map[
    "bmp" := Bmp,
    "emf" := Emf,
    "exif" := Exif,
    "gif" := Gif,
    "ico" := Icon,
    "jpg" := Jpeg,
    "png" := Png,
    "tiff" := Tiff,
    "wmf" := Wmf]

  /** The dictionary key of each format: the inverse of the format dictionary. */
  function FormatKey(f: ImageFormat): (k: string)
    ensures k in ImageFormats && ImageFormats[k] == f
    ensures NoAsciiUpper(k)
  {
    match f
    case Bmp => "bmp"
    case Emf => "emf"
    case Exif => "exif"
    case Gif => "gif"
    case Icon => "ico"
    case Jpeg => "jpg"
    case Png => "png"
    case Tiff => "tiff"
    case Wmf => "wmf"
  }

  /** Every key of the format dictionary is the key of its own format: no two keys name the same format. */
  lemma ImageFormatsInjective(k: string)
    requires k in ImageFormats
    ensures FormatKey(ImageFormats[k]) == k
    ensures NoAsciiUpper(k)
  {
    assert k in {"bmp", "emf", "exif", "gif", "ico", "jpg", "png", "tiff", "wmf"};
  }

  /** Why Main stops before creating a source, or how it fails on the way. */
  datatype Abort =
    | ShowHelp                          // no arguments at all: only the help text
    | BadArguments(error: ArgError)     // the argument dictionary could not be built (unhandled)
    | MissingInput                      // no -input
    | InputNotFound(file: string)       // the resolved input path is not an existing file
    | NotVideoFile(file: string)        // the input path does not end with "wmv" or "avi"
    | BadFormat(value: string)          // the lowered -format value is not a known key
    | BadSetting(key: string, value: string) // -rotate, -start, -end, -step or -gray did not parse
    | MissingOutput                     // no -output
    | BadOutput(value: string)          // the output directory could not be resolved or created

  /** String.EndsWith, compared character by character. */
  predicate EndsWith(s: string, suffix: string)
    ensures EndsWith(s, suffix) <==> |suffix| <= |s| && s[..|s| - |suffix|] + suffix == s
  {
    |suffix| <= |s| && s[|s| - |suffix|..] == suffix
  }

  /** A string ends with a suffix exactly when it is some prefix followed by that suffix. */
  lemma EndsWithMeansSuffix(s: string, suffix: string)
    ensures EndsWith(s, suffix) <==> exists p :: p + suffix == s
  {
    if EndsWith(s, suffix) {
      assert s[..|s| - |suffix|] + suffix == s;
    }
    if exists p :: p + suffix == s {
      var p :| p + suffix == s;
      assert s[|p|..] == suffix;
    }
  }

  /** Only files whose path ends with "wmv" or "avi" are taken: case-sensitive, and no dot is required. */
  predicate AcceptedInput(file: string)
    ensures AcceptedInput(file) ==> |file| >= 3 && (file[|file| - 3..] == "wmv" || file[|file| - 3..] == "avi")
  {
    EndsWith(file, "wmv") || EndsWith(file, "avi")
  }

  lemma AcceptedInputExamples()
    ensures AcceptedInput("clip.wmv") && AcceptedInput("clip.avi")
    ensures AcceptedInput("clipwmv")
    ensures !AcceptedInput("clip.WMV")
    ensures !AcceptedInput("clip.mp4")
  {
    assert "clip." + "wmv" == "clip.wmv";
    assert "clip." + "avi" == "clip.avi";
    assert "clip" + "wmv" == "clipwmv";
  }

  /**
   * The -format switch: absent, the format is Bmp with extension "bmp";
   * present, its lowered value must be a key of the dictionary, which then
   * gives both the format and the extension.
   */
  function ResolveFormat(arguments: map<string, string>): (r: Result<(ImageFormat, string), Abort>)
    ensures "-format" !in arguments ==> r == Success((Bmp, "bmp"))
    ensures "-format" in arguments ==>
      (r.Success? <==> ToLowerInvariant(arguments["-format"]) in ImageFormats)
    ensures "-format" in arguments && r.Success? ==> r.value.1 == ToLowerInvariant(arguments["-format"])
    ensures r.Success? ==> r.value.1 in ImageFormats && ImageFormats[r.value.1] == r.value.0
    ensures r.Failure? ==> "-format" in arguments && r.error == BadFormat(arguments["-format"])
  {
    if "-format" !in arguments then Success((Bmp, "bmp"))
    else
      var keyLowercase := ToLowerInvariant(arguments["-format"]);
      if keyLowercase in ImageFormats then Success((ImageFormats[keyLowercase], keyLowercase))
      else Failure(BadFormat(arguments["-format"]))
  }

  /** The format key is matched whatever the case of its letters, and the extension is always lower case. */
  lemma ResolveFormatIgnoresCase(a: map<string, string>, b: map<string, string>)
    requires "-format" in a && "-format" in b
    requires ToLowerInvariant(a["-format"]) == ToLowerInvariant(b["-format"])
    ensures ResolveFormat(a).Success? <==> ResolveFormat(b).Success?
    ensures ResolveFormat(a).Success? ==> ResolveFormat(a).value == ResolveFormat(b).value
    ensures ResolveFormat(a).Success? ==> NoAsciiUpper(ResolveFormat(a).value.1)
  {
  }

  lemma ResolveFormatExamples()
    ensures ResolveFormat(map[]) == Success((Bmp, "bmp"))
    ensures ResolveFormat(map["-format" := "JPG"]) == Success((Jpeg, "jpg"))
    ensures ResolveFormat(map["-format" := "jpeg"]) == Failure(BadFormat("jpeg"))
  {
    assert ToLowerInvariant("JPG") == "jpg";
    assert ToLowerInvariant("jpeg") == "jpeg";
  }

  /** What the .NET library and the file system answer during argument checking. */
  datatype Host = Host(
    resolvePath: string -> string,        // RelativePathDiscovery.ResolveRelativePath against the current directory
    fileExists: string -> bool,           // File.Exists
    prepareOutput: string -> bool,        // resolving the -output value and creating the directory succeed
    parseBool: string -> Option<bool>,    // bool.Parse, None when it throws
    parseTimeSpan: string -> Option<Ticks>) // TimeSpan.Parse with the invariant culture, None when it throws

  /** The VideoFileSettings Main fills in, plus the extension and the output folder it keeps aside. */
  datatype Settings = Settings(
    file: string,
    format: ImageFormat,
    extension: string,
    rotateY: bool,
    timeStart: Ticks,
    timeEnd: Ticks,
    timeStep: Ticks,
    grayscale: bool,
    outputFolder: string)

  /** TimeSpan.MaxValue, in ticks. */
  const MaxTimeSpan: Ticks := 9_223_372_036_854_775_807

  /** new TimeSpan(0, 0, 0, 0, 40): 40 milliseconds, in ticks. */
  const DefaultStep: Ticks := 40 * 10_000

  /** An optional switch read with `parse`: `absent` when the key is missing, an abort when the value does not parse. */
  function OptionalSetting<T>(arguments: map<string, string>, key: string, absent: T, parse: string -> Option<T>): (r: Result<T, Abort>)
    ensures key !in arguments ==> r == Success(absent)
    ensures key in arguments ==> (r.Success? <==> parse(arguments[key]).Some?)
    ensures key in arguments && r.Success? ==> parse(arguments[key]) == Some(r.value)
    ensures r.Failure? ==> key in arguments && r.error == BadSetting(key, arguments[key])
  {
    if key !in arguments then Success(absent)
    else match parse(arguments[key])
      case None => Failure(BadSetting(key, arguments[key]))
      case Some(v) => Success(v)
  }

  /** The value a switch takes: its parsed value when given, its default otherwise. */
  ghost predicate SettingIs<T>(arguments: map<string, string>, key: string, absent: T, parse: string -> Option<T>, v: T)
  {
    if key in arguments then parse(arguments[key]) == Some(v) else v == absent
  }

  /** A switch that is absent, or whose value parses. */
  ghost predicate Parses<T>(arguments: map<string, string>, key: string, parse: string -> Option<T>)
  {
    key in arguments ==> parse(arguments[key]).Some?
  }

  /** The -input checks of Main pass: present, an existing file, a WMV or AVI name. */
  ghost predicate InputAccepted(arguments: map<string, string>, host: Host)
  {
    && "-input" in arguments
    && host.fileExists(host.resolvePath(arguments["-input"]))
    && AcceptedInput(host.resolvePath(arguments["-input"]))
  }

  /** Every check of Main passes on this dictionary. */
  ghost predicate Usable(arguments: map<string, string>, host: Host)
  {
    && InputAccepted(arguments, host)
    && ResolveFormat(arguments).Success?
    && Parses(arguments, "-rotate", host.parseBool)
    && Parses(arguments, "-start", host.parseTimeSpan)
    && Parses(arguments, "-end", host.parseTimeSpan)
    && Parses(arguments, "-step", host.parseTimeSpan)
    && Parses(arguments, "-gray", host.parseBool)
    && "-output" in arguments
    && host.prepareOutput(arguments["-output"])
  }

  /**
   * The checks of Main after the dictionary is built, in their order:
   * -input, its existence and extension, -format, -rotate, -start, -end,
   * -step, -gray, -output. The first check that fails aborts.
   */
  function SettingsFrom(arguments: map<string, string>, host: Host): (r: Result<Settings, Abort>)
    ensures r.Success? <==> Usable(arguments, host)
    ensures "-input" !in arguments ==> r == Failure(MissingInput)
    ensures "-input" in arguments && !host.fileExists(host.resolvePath(arguments["-input"])) ==>
      r == Failure(InputNotFound(host.resolvePath(arguments["-input"])))
    ensures var file := if "-input" in arguments then host.resolvePath(arguments["-input"]) else "";
      "-input" in arguments && host.fileExists(file) && !AcceptedInput(file) ==> r == Failure(NotVideoFile(file))
    ensures r.Failure? ==> !r.error.ShowHelp? && !r.error.BadArguments?
    ensures r.Failure? && r.error.BadFormat? ==> ResolveFormat(arguments) == Failure(r.error)
    ensures r.Failure? && r.error.BadSetting? ==>
      && r.error.key in arguments && r.error.value == arguments[r.error.key]
      && ((r.error.key == "-rotate" || r.error.key == "-gray") ==> host.parseBool(r.error.value).None?)
      && ((r.error.key == "-start" || r.error.key == "-end" || r.error.key == "-step") ==>
            host.parseTimeSpan(r.error.value).None?)
      && (r.error.key == "-rotate" || r.error.key == "-gray" ||
          r.error.key == "-start" || r.error.key == "-end" || r.error.key == "-step")
    ensures r.Failure? && r.error.MissingOutput? ==> "-output" !in arguments
    ensures r.Failure? && r.error.BadOutput? ==>
      "-output" in arguments && !host.prepareOutput(arguments["-output"]) && r.error.value == arguments["-output"]
    ensures "-output" !in arguments ==> r.Failure?
    ensures r.Success? ==>
      && r.value.file == host.resolvePath(arguments["-input"])
      && host.fileExists(r.value.file)
      && AcceptedInput(r.value.file)
      && ResolveFormat(arguments) == Success((r.value.format, r.value.extension))
      && SettingIs(arguments, "-rotate", false, host.parseBool, r.value.rotateY)
      && SettingIs(arguments, "-start", 0, host.parseTimeSpan, r.value.timeStart)
      && SettingIs(arguments, "-end", MaxTimeSpan, host.parseTimeSpan, r.value.timeEnd)
      && SettingIs(arguments, "-step", DefaultStep, host.parseTimeSpan, r.value.timeStep)
      && SettingIs(arguments, "-gray", false, host.parseBool, r.value.grayscale)
      && host.prepareOutput(arguments["-output"])
      && r.value.outputFolder == host.resolvePath(arguments["-output"])
  {
    if "-input" !in arguments then Failure(MissingInput)
    else
      var file := host.resolvePath(arguments["-input"]);
      if !host.fileExists(file) then Failure(InputNotFound(file))
      else if !AcceptedInput(file) then Failure(NotVideoFile(file))
      else
        var format :- ResolveFormat(arguments);
        var rotateY :- OptionalSetting(arguments, "-rotate", false, host.parseBool);
        var timeStart :- OptionalSetting(arguments, "-start", 0, host.parseTimeSpan);
        var timeEnd :- OptionalSetting(arguments, "-end", MaxTimeSpan, host.parseTimeSpan);
        var timeStep :- OptionalSetting(arguments, "-step", DefaultStep, host.parseTimeSpan);
        var grayscale :- OptionalSetting(arguments, "-gray", false, host.parseBool);
        if "-output" !in arguments then Failure(MissingOutput)
        else if !host.prepareOutput(arguments["-output"]) then Failure(BadOutput(arguments["-output"]))
        else Success(Settings(file, format.0, format.1, rotateY, timeStart, timeEnd, timeStep, grayscale,
                              host.resolvePath(arguments["-output"])))
  }
  /**
   * When several checks fail, the first in Main's order decides the abort:
   * the input, then -format, then -rotate, -start, -end, -step and -gray,
   * then -output.
   */
  lemma SettingsFromCheckOrder(arguments: map<string, string>, host: Host)
    ensures InputAccepted(arguments, host) && ResolveFormat(arguments).Failure? ==>
      SettingsFrom(arguments, host) == Failure(ResolveFormat(arguments).error)
    ensures var r := SettingsFrom(arguments, host);
      r.Failure? && r.error.BadSetting? ==>
        && InputAccepted(arguments, host) && ResolveFormat(arguments).Success?
        && (r.error.key != "-rotate" ==> Parses(arguments, "-rotate", host.parseBool))
        && (r.error.key != "-rotate" && r.error.key != "-start" ==> Parses(arguments, "-start", host.parseTimeSpan))
        && (r.error.key == "-step" || r.error.key == "-gray" ==> Parses(arguments, "-end", host.parseTimeSpan))
        && (r.error.key == "-gray" ==> Parses(arguments, "-step", host.parseTimeSpan))
    ensures var r := SettingsFrom(arguments, host);
      r.Failure? && (r.error.MissingOutput? || r.error.BadOutput?) ==>
        && InputAccepted(arguments, host) && ResolveFormat(arguments).Success?
        && Parses(arguments, "-rotate", host.parseBool) && Parses(arguments, "-start", host.parseTimeSpan)
        && Parses(arguments, "-end", host.parseTimeSpan) && Parses(arguments, "-step", host.parseTimeSpan)
        && Parses(arguments, "-gray", host.parseBool)
  {
  }


  /** Main up to the creation of the source: no arguments shows the help, then the dictionary, then the checks. */
  function ParseSettings(args: seq<string>, host: Host): (r: Result<Settings, Abort>)
    ensures |args| == 0 ==> r == Failure(ShowHelp)
    ensures |args| > 0 && !WellFormedArguments(args) ==> r.Failure? && r.error.BadArguments?
    ensures |args| > 0 && WellFormedArguments(args) ==> r == SettingsFrom(ParseArguments(args).value, host)
  {
    ParseArgumentsSucceeds(args);
    if |args| == 0 then Failure(ShowHelp)
    else match ParseArguments(args)
      case Failure(e) => Failure(BadArguments(e))
      case Success(arguments) => SettingsFrom(arguments, host)
  }

  /** Two arguments "-input=..." and "-output=..." build the dictionary holding just those two keys. */
  lemma {:induction false} InputOutputArguments(input: string, output: string)
    requires '=' !in input && '=' !in output
    ensures ParseArguments(["-input=" + input, "-output=" + output]) == Success(map["-input" := input, "-output" := output])
  {
    var args := ["-input=" + input, "-output=" + output];
    KeyValue("-input", input);
    KeyValue("-output", output);
    assert "-input" + "=" + input == args[0];
    assert "-output" + "=" + output == args[1];
    var first := args[..1];
    assert first[..0] == [] && first[0] == args[0];
    assert ParseArguments(first[..0]) == Success(map[]);
    assert ParseArgument(first[0]) == Success(("-input", input));
    assert ParseArguments(first) == Success(map[][("-input") := input]);
    assert args[..|args| - 1] == first && args[|args| - 1] == args[1];
    assert "-output" != "-input" by {
      assert |"-output"| != |"-input"|;
    }
  }

  /**
   * With -input and -output given and usable and no other switch, every
   * other setting takes its default: Bmp into ".bmp" files, no rotation,
   * no grayscale, from time 0 to TimeSpan.MaxValue in steps of 40 ms.
   */
  lemma DefaultSettings(arguments: map<string, string>, host: Host)
    requires "-input" in arguments && "-output" in arguments
    requires "-format" !in arguments && "-rotate" !in arguments && "-gray" !in arguments
    requires "-start" !in arguments && "-end" !in arguments && "-step" !in arguments
    requires host.fileExists(host.resolvePath(arguments["-input"])) && AcceptedInput(host.resolvePath(arguments["-input"]))
    requires host.prepareOutput(arguments["-output"])
    ensures SettingsFrom(arguments, host)
         == Success(Settings(host.resolvePath(arguments["-input"]), Bmp, "bmp", false, 0, MaxTimeSpan, DefaultStep, false,
                             host.resolvePath(arguments["-output"])))
  {
  }

  /** An argument "key=value" with no '=' in the key or the value gives exactly that key and value. */
  lemma KeyValue(key: string, value: string)
    requires '=' !in key && '=' !in value
    ensures Key(key + "=" + value) == key
    ensures ParseArgument(key + "=" + value) == Success((key, value))
  {
    var arg := key + "=" + value;
    assert arg[..|key|] == key;
    assert arg[|key|] == '=';
    assert arg[|key| + 1..] == value;
    assert value[..IndexOf(value, '=')] == value;
  }
}
