/**
 * The decision logic of the video-to-GIF runner: where the ffmpeg binary is
 * looked for, how quality becomes a frame rate and a width, the argument
 * string, the handling of the lines ffmpeg writes to standard error, and the
 * outcome of a run. The process itself is outside the model: its standard
 * error lines and its exit code are inputs, and the file system is a
 * `fileExists` predicate.
 */
module FFmpegConverter {
  import opened Text

  const ExecutableName: string := "ffmpeg.exe"
  const FallbackCommand: string := "ffmpeg"
  const ProgressMarker: string := "time="
  const NotFoundMessage: string := "FFmpeg not found. Please install FFmpeg and add it to your system PATH."

  // ---------------------------------------------------------------------------
  // Locating the binary

  /** The directories named by the PATH variable, in order; none when it is unset. */
  function PathDirectories(pathVariable: Option<string>): seq<string>
  {
    match pathVariable
    case None => []
    case Some(value) => Split(value, ';')
  }

  /**
   * The directories are the pieces of PATH between the ';' separators: none holds
   * a separator, and joining them back with ';' gives PATH itself.
   */
  lemma PathDirectoriesAreThePieces(pathVariable: Option<string>)
    ensures pathVariable.None? ==> PathDirectories(pathVariable) == []
    ensures pathVariable.Some? ==>
      |PathDirectories(pathVariable)| >= 1 && Join(PathDirectories(pathVariable), ';') == pathVariable.value
    ensures forall i :: 0 <= i < |PathDirectories(pathVariable)| ==> ';' !in PathDirectories(pathVariable)[i]
  {
    if pathVariable.Some? {
      JoinSplit(pathVariable.value, ';');
    }
  }

  /** The full path of the executable in each PATH directory, after trimming the directory. */
  function Candidates(directories: seq<string>, combine: (string, string) -> string): (r: seq<string>)
    ensures |r| == |directories|
    ensures forall i :: 0 <= i < |directories| ==> r[i] == combine(Trim(directories[i]), ExecutableName)
  {
    seq(|directories|, i requires 0 <= i < |directories| => combine(Trim(directories[i]), ExecutableName))
  }

  /** The index of the first candidate that exists. */
  function FirstExisting(candidates: seq<string>, fileExists: string -> bool): (r: Option<nat>)
    ensures r.Some? ==> r.value < |candidates| && fileExists(candidates[r.value])
    ensures r.Some? ==> forall j :: 0 <= j < r.value ==> !fileExists(candidates[j])
    ensures r.None? ==> forall j :: 0 <= j < |candidates| ==> !fileExists(candidates[j])
  {
    if candidates == [] then None
    else if fileExists(candidates[0]) then Some(0)
    else match FirstExisting(candidates[1..], fileExists)
      case None => None
      case Some(k) => Some(k + 1)
  }

  /** Where the binary is taken from: beside the application, else on PATH, else the bare command name. */
  function LocateFFmpeg(baseDirectory: string, pathVariable: Option<string>, fileExists: string -> bool,
                        combine: (string, string) -> string): string
  {
    var localPath := combine(baseDirectory, ExecutableName);
    var candidates := Candidates(PathDirectories(pathVariable), combine);
    if fileExists(localPath) then localPath
    else match FirstExisting(candidates, fileExists)
      case Some(k) => candidates[k]
      case None => FallbackCommand
  }

  /** The search with its early returns, as the constructor runs it. */
  method FindFFmpeg(baseDirectory: string, pathVariable: Option<string>, fileExists: string -> bool,
                    combine: (string, string) -> string) returns (path: string)
    ensures path == LocateFFmpeg(baseDirectory, pathVariable, fileExists, combine)
  {
    var localPath := combine(baseDirectory, ExecutableName);
    if fileExists(localPath) {
      return localPath;
    }
    var paths := PathDirectories(pathVariable);
    ghost var candidates := Candidates(paths, combine);
    for i := 0 to |paths|
      invariant forall j :: 0 <= j < i ==> !fileExists(candidates[j])
    {
      var ffmpegExe := combine(Trim(paths[i]), ExecutableName);
      assert ffmpegExe == candidates[i];
      if fileExists(ffmpegExe) {
        LocateFromCandidates(baseDirectory, pathVariable, fileExists, combine, i);
        return ffmpegExe;
      }
    }
    LocateFromCandidates(baseDirectory, pathVariable, fileExists, combine, |paths|);
    return FallbackCommand;
  }

  /**
   * Past the local check, the search's result is fixed by the first candidate
   * that exists, or is the fallback when there is none.
   */
  lemma LocateFromCandidates(baseDirectory: string, pathVariable: Option<string>, fileExists: string -> bool,
                             combine: (string, string) -> string, k: nat)
    requires !fileExists(combine(baseDirectory, ExecutableName))
    requires k <= |PathDirectories(pathVariable)|
    requires forall j :: 0 <= j < k ==> !fileExists(Candidates(PathDirectories(pathVariable), combine)[j])
    requires k < |PathDirectories(pathVariable)| ==> fileExists(Candidates(PathDirectories(pathVariable), combine)[k])
    ensures LocateFFmpeg(baseDirectory, pathVariable, fileExists, combine) ==
      if k < |PathDirectories(pathVariable)| then Candidates(PathDirectories(pathVariable), combine)[k] else FallbackCommand
  {
    FirstExistingIsFirst(Candidates(PathDirectories(pathVariable), combine), fileExists, k);
  }

  /** `FirstExisting` is determined by which candidates exist. */
  lemma FirstExistingIsFirst(candidates: seq<string>, fileExists: string -> bool, k: nat)
    requires k <= |candidates|
    requires forall j :: 0 <= j < k ==> !fileExists(candidates[j])
    requires k < |candidates| ==> fileExists(candidates[k])
    ensures FirstExisting(candidates, fileExists) == if k < |candidates| then Some(k) else None
  {
  }

  /** The binary beside the application wins over everything on PATH. */
  lemma LocalBinaryWins(baseDirectory: string, pathVariable: Option<string>,
                        fileExists: string -> bool, combine: (string, string) -> string)
    requires fileExists(combine(baseDirectory, ExecutableName))
    ensures LocateFFmpeg(baseDirectory, pathVariable, fileExists, combine) == combine(baseDirectory, ExecutableName)
  {
  }

  /** Otherwise the first PATH directory, in PATH order, that holds the binary wins. */
  lemma FirstPathEntryWins(baseDirectory: string, pathVariable: Option<string>,
                           fileExists: string -> bool, combine: (string, string) -> string, k: nat)
    requires !fileExists(combine(baseDirectory, ExecutableName))
    requires k < |PathDirectories(pathVariable)|
    requires fileExists(combine(Trim(PathDirectories(pathVariable)[k]), ExecutableName))
    requires forall j :: 0 <= j < k ==> !fileExists(combine(Trim(PathDirectories(pathVariable)[j]), ExecutableName))
    ensures LocateFFmpeg(baseDirectory, pathVariable, fileExists, combine)
      == combine(Trim(PathDirectories(pathVariable)[k]), ExecutableName)
  {
    FirstExistingIsFirst(Candidates(PathDirectories(pathVariable), combine), fileExists, k);
  }

  /** The bare command name is used only when no candidate exists. */
  lemma FallbackWhenNoneExists(baseDirectory: string, pathVariable: Option<string>,
                               fileExists: string -> bool, combine: (string, string) -> string)
    requires !fileExists(combine(baseDirectory, ExecutableName))
    requires forall j :: 0 <= j < |PathDirectories(pathVariable)| ==>
      !fileExists(combine(Trim(PathDirectories(pathVariable)[j]), ExecutableName))
    ensures LocateFFmpeg(baseDirectory, pathVariable, fileExists, combine) == FallbackCommand
  {
    var dirs := PathDirectories(pathVariable);
    FirstExistingIsFirst(Candidates(dirs, combine), fileExists, |dirs|);
  }

  /** Any path the search picks, other than the bare command name, exists. */
  lemma LocatedBinaryExists(baseDirectory: string, pathVariable: Option<string>,
                            fileExists: string -> bool, combine: (string, string) -> string)
    ensures var path := LocateFFmpeg(baseDirectory, pathVariable, fileExists, combine);
      path == FallbackCommand || fileExists(path)
  {
  }

  /** With PATH unset the search goes straight from the local binary to the fallback. */
  lemma UnsetPathFallsBack(baseDirectory: string, fileExists: string -> bool, combine: (string, string) -> string)
    requires !fileExists(combine(baseDirectory, ExecutableName))
    ensures LocateFFmpeg(baseDirectory, None, fileExists, combine) == FallbackCommand
  {
  }

  // ---------------------------------------------------------------------------
  // Building the invocation

  /** Frames per second for a quality setting: three tiers split at 70 and 40. */
  function Fps(quality: int): nat
  {
    if quality > 70 then 15 else if quality > 40 then 10 else 5
  }

  /** Output width in pixels for a quality setting, on the same tiers. */
  function Scale(quality: int): nat
  {
    if quality > 70 then 480 else if quality > 40 then 360 else 240
  }

  /** The three tiers, with 70 and 40 themselves in the lower tier. */
  lemma QualityTiers(quality: int)
    ensures quality > 70 ==> Fps(quality) == 15 && Scale(quality) == 480
    ensures 40 < quality <= 70 ==> Fps(quality) == 10 && Scale(quality) == 360
    ensures quality <= 40 ==> Fps(quality) == 5 && Scale(quality) == 240
    ensures Fps(70) == 10 && Scale(70) == 360 && Fps(40) == 5 && Scale(40) == 240
  {
  }

  /** More quality never means fewer frames or a narrower picture. */
  lemma TiersAreMonotone(low: int, high: int)
    requires low <= high
    ensures Fps(low) <= Fps(high) && Scale(low) <= Scale(high)
  {
  }

  /** The video filter: frame rate, then a Lanczos scale to the tier's width keeping the aspect ratio. */
  function FilterChain(quality: int): string
  {
    "fps=" + DecimalString(Fps(quality)) + ",scale=" + DecimalString(Scale(quality)) + ":-1:flags=lanczos"
  }

  /** The command line passed to ffmpeg. */
  function Arguments(inputPath: string, outputPath: string, quality: int): string
  {
    "-i \"" + inputPath + "\" -vf \"" + FilterChain(quality) + "\" -c:v gif \"" + outputPath + "\" -y"
  }

  /**
   * Where each part sits in the command line: the input path right after `-i "`,
   * the filter after `" -vf "`, the output path just before the closing quote,
   * and the overwrite flag `-y` last.
   */
  lemma ArgumentsLayout(inputPath: string, outputPath: string, quality: int)
    ensures var args := Arguments(inputPath, outputPath, quality);
      var filterAt := 4 + |inputPath| + 7;
      var filter := FilterChain(quality);
      && |args| == filterAt + |filter| + 12 + |outputPath| + 4
      && args[..4] == "-i \""
      && args[4..4 + |inputPath|] == inputPath
      && args[4 + |inputPath|..filterAt] == "\" -vf \""
      && args[filterAt..filterAt + |filter|] == filter
      && args[filterAt + |filter|..filterAt + |filter| + 12] == "\" -c:v gif \""
      && args[|args| - 4 - |outputPath|..|args| - 4] == outputPath
      && args[|args| - 4..] == "\" -y"
  {
    var args := Arguments(inputPath, outputPath, quality);
    var filter := FilterChain(quality);
    var p1 := "-i \"" + inputPath;
    var p2 := p1 + "\" -vf \"";
    var p3 := p2 + filter;
    var p4 := p3 + "\" -c:v gif \"";
    var p5 := p4 + outputPath;
    assert args == p5 + "\" -y";
    assert args[..|p5|] == p5;
    assert p5[..|p4|] == p4;
    assert p4[..|p3|] == p3;
    assert p3[..|p2|] == p2;
    assert p2[..|p1|] == p1;
  }

  /** The numbers in the filter read back as the tier's frame rate and width. */
  lemma FilterChainNumbers(quality: int)
    ensures DecimalValue(DecimalString(Fps(quality))) == Fps(quality)
    ensures DecimalValue(DecimalString(Scale(quality))) == Scale(quality)
  {
    DecimalRoundTrip(Fps(quality));
    DecimalRoundTrip(Scale(quality));
  }

  /** The filter text of the top tier. */
  lemma HighQualityFilter(quality: int)
    requires quality > 70
    ensures FilterChain(quality) == "fps=" + "15" + ",scale=" + "480" + ":-1:flags=lanczos"
  {
    assert DecimalString(15) == "15";
    assert DecimalString(48) == "48";
    assert DecimalString(480) == "480";
  }

  /** The filter text of the middle tier. */
  lemma MediumQualityFilter(quality: int)
    requires 40 < quality <= 70
    ensures FilterChain(quality) == "fps=" + "10" + ",scale=" + "360" + ":-1:flags=lanczos"
  {
    assert DecimalString(10) == "10";
    assert DecimalString(36) == "36";
    assert DecimalString(360) == "360";
  }

  /** The filter text of the bottom tier. */
  lemma LowQualityFilter(quality: int)
    requires quality <= 40
    ensures FilterChain(quality) == "fps=" + "5" + ",scale=" + "240" + ":-1:flags=lanczos"
  {
    assert DecimalString(5) == "5";
    assert DecimalString(24) == "24";
    assert DecimalString(240) == "240";
  }

  // ---------------------------------------------------------------------------
  // Standard error handling

  /**
   * The progress stub: 50 when the marker's first occurrence is past the start of
   * the line, -1 otherwise. The search for the marker is the ordinal `IndexOf`
   * (see `Text.IndexOf` for how it relates to the culture-sensitive one).
   */
  function ExtractProgress(ffmpegOutput: string): (percent: int)
    ensures percent == 50 || percent == -1
    ensures percent == 50 <==> Contains(ffmpegOutput, ProgressMarker) && !OccursAt(ffmpegOutput, ProgressMarker, 0)
  {
    IndexOfFindsContains(ffmpegOutput, ProgressMarker);
    match IndexOf(ffmpegOutput, ProgressMarker)
    case Some(timeIndex) => if timeIndex > 0 then 50 else -1
    case None => -1
  }

  /** A line as the event delivers it: None when the data is null. */
  predicate IsNonEmpty(data: Option<string>)
  {
    data.Some? && data.value != []
  }

  /** What the handler appends to the captured diagnostics for one event. */
  function CapturedText(data: Option<string>): string
  {
    if IsNonEmpty(data) then data.value + "\n" else ""
  }

  /** What the handler reports for one event, if anything. */
  function ReportFor(progressAttached: bool, data: Option<string>): seq<int>
  {
    if IsNonEmpty(data) && progressAttached && Contains(data.value, ProgressMarker)
       && ExtractProgress(data.value) >= 0
    then [ExtractProgress(data.value)]
    else []
  }

  /** The diagnostics captured from a sequence of events. */
  function CapturedOutput(lines: seq<Option<string>>): string
  {
    if lines == [] then "" else CapturedOutput(lines[..|lines| - 1]) + CapturedText(lines[|lines| - 1])
  }

  /** The values reported to the progress sink for a sequence of events, in order. */
  function ProgressReports(progressAttached: bool, lines: seq<Option<string>>): seq<int>
  {
    if lines == [] then []
    else ProgressReports(progressAttached, lines[..|lines| - 1]) + ReportFor(progressAttached, lines[|lines| - 1])
  }

  /** The body of the `ErrorDataReceived` handler for one event. */
  method HandleErrorData(data: Option<string>, progressAttached: bool, errorOutput: string, reported: seq<int>)
    returns (errorOutput': string, reported': seq<int>)
    ensures errorOutput' == errorOutput + CapturedText(data)
    ensures reported' == reported + ReportFor(progressAttached, data)
  {
    errorOutput', reported' := errorOutput, reported;
    if data.Some? && data.value != [] {
      errorOutput' := errorOutput' + data.value + "\n";
      if progressAttached && Contains(data.value, ProgressMarker) {
        var percent := ExtractProgress(data.value);
        if percent >= 0 {
          reported' := reported' + [percent];
        }
      }
    }
  }

  /** The handler applied to every line of the stream, one after the other. */
  method DrainErrorStream(lines: seq<Option<string>>, progressAttached: bool) returns (errorOutput: string, reported: seq<int>)
    ensures errorOutput == CapturedOutput(lines)
    ensures reported == ProgressReports(progressAttached, lines)
  {
    errorOutput, reported := "", [];
    for i := 0 to |lines|
      invariant errorOutput == CapturedOutput(lines[..i])
      invariant reported == ProgressReports(progressAttached, lines[..i])
    {
      assert lines[..i + 1][..i] == lines[..i];
      errorOutput, reported := HandleErrorData(lines[i], progressAttached, errorOutput, reported);
    }
    assert lines[..|lines|] == lines;
  }

  /**
   * An event leads to a report exactly when a sink is attached and the line
   * contains the marker but does not start with it (its first occurrence is past
   * index 0); empty and null lines are ignored entirely.
   */
  lemma ReportRule(progressAttached: bool, data: Option<string>)
    ensures |ReportFor(progressAttached, data)| <= 1
    ensures ReportFor(progressAttached, data) != [] <==>
      progressAttached && data.Some? && Contains(data.value, ProgressMarker) && !OccursAt(data.value, ProgressMarker, 0)
    ensures ReportFor(progressAttached, data) != [] ==> ReportFor(progressAttached, data) == [50]
    ensures !IsNonEmpty(data) ==> CapturedText(data) == "" && ReportFor(progressAttached, data) == []
  {
    if data.Some? && data.value == [] {
      assert !Contains(data.value, ProgressMarker);
    }
  }

  /** Capturing distributes over the split of a stream into two parts, so arrival order is kept. */
  lemma {:induction false} CapturedOutputAppend(a: seq<Option<string>>, b: seq<Option<string>>)
    ensures CapturedOutput(a + b) == CapturedOutput(a) + CapturedOutput(b)
    decreases |b|
  {
    if b == [] {
      assert a + b == a;
    } else {
      var b' := b[..|b| - 1];
      assert (a + b)[..|a + b| - 1] == a + b';
      assert (a + b)[|a + b| - 1] == b[|b| - 1];
      CapturedOutputAppend(a, b');
      assert CapturedOutput(a + b) == CapturedOutput(a + b') + CapturedText(b[|b| - 1]);
    }
  }

  /** Reporting distributes over the split of a stream, so reports follow line order. */
  lemma {:induction false} ProgressReportsAppend(progressAttached: bool, a: seq<Option<string>>, b: seq<Option<string>>)
    ensures ProgressReports(progressAttached, a + b) == ProgressReports(progressAttached, a) + ProgressReports(progressAttached, b)
    decreases |b|
  {
    if b == [] {
      assert a + b == a;
    } else {
      var b' := b[..|b| - 1];
      assert (a + b)[..|a + b| - 1] == a + b';
      assert (a + b)[|a + b| - 1] == b[|b| - 1];
      ProgressReportsAppend(progressAttached, a, b');
    }
  }

  /**
   * A stream of null or empty lines captures nothing (what a non-empty line adds
   * is `CapturedOutputOfLine`, in order by `CapturedOutputAppend`); every reported
   * value is 50 (so within 0..100), there is at most one per line, and none at
   * all without a sink.
   */
  lemma {:induction false} StreamSummary(progressAttached: bool, lines: seq<Option<string>>)
    ensures (forall i :: 0 <= i < |lines| ==> !IsNonEmpty(lines[i])) ==> CapturedOutput(lines) == ""
    ensures forall v :: v in ProgressReports(progressAttached, lines) ==> v == 50 && 0 <= v <= 100
    ensures |ProgressReports(progressAttached, lines)| <= |lines|
    ensures !progressAttached ==> ProgressReports(progressAttached, lines) == []
  {
    if lines != [] {
      var init := lines[..|lines| - 1];
      StreamSummary(progressAttached, init);
      ReportRule(progressAttached, lines[|lines| - 1]);
      assert forall i :: 0 <= i < |init| ==> init[i] == lines[i];
    }
  }

  /** One non-empty line adds exactly that line and a line feed to the diagnostics. */
  lemma CapturedOutputOfLine(before: seq<Option<string>>, line: string)
    requires line != []
    ensures CapturedOutput(before + [Some(line)]) == CapturedOutput(before) + line + "\n"
  {
    assert (before + [Some(line)])[..|before|] == before;
  }

  // ---------------------------------------------------------------------------
  // Running a conversion

  /** What ffmpeg is started with. */
  datatype Invocation = Invocation(fileName: string, arguments: string)

  /** The result of `ConvertVideoToGif`: the not-found exception, or a finished run. */
  datatype ConversionOutcome =
    | NotFound(message: string)
    | Finished(invocation: Invocation, errorOutput: string, reported: seq<int>, succeeded: bool)

  /** The converter; the binary's location is fixed when it is constructed. */
  class FFmpegConverter {
    const ffmpegPath: string

    constructor (baseDirectory: string, pathVariable: Option<string>, fileExists: string -> bool,
                 combine: (string, string) -> string)
      ensures ffmpegPath == LocateFFmpeg(baseDirectory, pathVariable, fileExists, combine)
    {
      var path := FindFFmpeg(baseDirectory, pathVariable, fileExists, combine);
      ffmpegPath := path;
    }

    /**
     * Converts a video to an animated GIF. `fileExists` is the file system at
     * the time of the call; `stderrLines` and `exitCode` are what the ffmpeg
     * process writes and returns.
     */
    method ConvertVideoToGif(inputPath: string, outputPath: string, quality: int, progressAttached: bool,
                             fileExists: string -> bool, stderrLines: seq<Option<string>>, exitCode: int)
      returns (outcome: ConversionOutcome)
      ensures outcome.NotFound? <==> !fileExists(ffmpegPath)
      ensures outcome.NotFound? ==> outcome.message == NotFoundMessage
      ensures outcome.Finished? ==>
        && outcome.invocation == Invocation(ffmpegPath, Arguments(inputPath, outputPath, quality))
        && outcome.errorOutput == CapturedOutput(stderrLines)
        && outcome.reported == ProgressReports(progressAttached, stderrLines)
        && (outcome.succeeded <==> exitCode == 0)
    {
      if !fileExists(ffmpegPath) {
        return NotFound(NotFoundMessage);
      }
      var arguments := Arguments(inputPath, outputPath, quality);
      var invocation := Invocation(ffmpegPath, arguments);
      var errorOutput, reported := DrainErrorStream(stderrLines, progressAttached);
      return Finished(invocation, errorOutput, reported, exitCode == 0);
    }
  }
}
