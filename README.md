# FileConverter core, modelled in Dafny

FileConverter is a desktop tool. Drop a file on it and it does four things:

- it classifies the file by its extension;
- it offers a list of target formats for that kind of file;
- it can turn a video into an animated GIF by running ffmpeg;
- it searches for the ffmpeg binary when it starts.

This project models three services under the window: the classifier, the recommendation engine and the decision logic of the ffmpeg runner. It proves what each one promises.

- `text.dfy` (module `Text`): the .NET string operations the services use, written out over `seq<char>`. These are `ToLowerInvariant`, `OrdinalIgnoreCase` equality, `IndexOf`, `Contains`, `TrimStart`, `Trim`, `Split` and decimal rendering of an `int`. Each comes with the facts the other modules need.
- `models.dfy` (module `Models`): `FileCategory` and `DetectedFileType` are datatypes. `ConversionOptions` is a class whose two lists the service fills in place.
- `file_type_detector.dfy` (module `FileTypeDetector`): the five extension tables and the first-match search. The search is pure, like the source: a function over static tables.
- `conversion_service.dfy` (module `ConversionService`):
  - the catalog is held in a `const` field of the `ConversionService` class, set by its constructor;
  - `GetConversionOptions` copies the two catalog lists entry by entry in `for` loops, skipping the current format;
  - `AddContextSuggestions` then updates the options object in place;
  - `GetConversionOptions` is proved against the specification functions `RecommendedFrom` and `AllFormatsFrom`, and `AddContextSuggestions` against `WithContextSuggestion`.
- `ffmpeg_converter.dfy` (module `FFmpegConverter`):
  - the quality tiers and the argument string;
  - the progress stub;
  - the standard-error handler, applied line by line in a loop;
  - the search loop for the binary, whose result the constructor of the `FFmpegConverter` class stores once;
  - the outcome rule of `ConvertVideoToGif`.
- `detected_requests.dfy` (module `DetectedRequests`): how the window joins the two services. It passes the detected category and format straight to `GetConversionOptions` (`MainWindow.xaml.cs:187`), and the lemma there states what every such request returns.

What the model takes as inputs:

- **The file system.** The classifier gets a `fileExists` flag and the extension string. The ffmpeg runner gets a `fileExists: string -> bool` predicate and a `combine` function standing for `Path.Combine`.
- **The environment.** The base directory and the `PATH` variable (`None` when unset) are parameters.
- **The ffmpeg process.** The lines it writes to standard error (`None` for a null `Data`) and its exit code are parameters.

### The context suggestion

The context suggestion never moves an anchor format that is already in the recommended list:

- it inserts the category's anchor in front only when the anchor is missing from the list;
- every catalog recommended list already contains its anchor (`ConversionService.cs:18-54`);
- so for a lower-case current format the anchor is never inserted (`LowerCaseFormatNeverInsertsAnchor`), and the list keeps catalog order;
- the window always passes the detected format, which is lower case (`DetectedFormatsNeverInsertAnchor`).

The filter ignores case and the anchor check does not. So a current format of `"WEBP"` for an image gets `"webp"` put back in front (`UpperCaseAnchorIsReinserted`).

When no ffmpeg binary is found, `FindFFmpeg` falls back to the bare name `"ffmpeg"`. `ConvertVideoToGif` then checks that name with the same file-exists test, so the run proceeds only if a file of that name exists relative to the working directory. The model keeps this as written: the outcome is `NotFound` exactly when `fileExists(ffmpegPath)` is false.

## Model

| member | source | states |
|---|---|---|
| Models.CategoryName | Services/FileTypeDetector.cs:78 | a category's rendered name is non-empty, and it is "Unknown" exactly for Unknown |
| Models.ConversionOptions.constructor | Models/ConversionOptions.cs:7-8 | a new options object has two empty lists |
| Text.LowerChar | Services/FileTypeDetector.cs:67 | an upper-case ASCII letter goes to its lower-case letter (32 code points on), every other character is kept, and the result is never an upper-case letter |
| Text.Lower | Services/FileTypeDetector.cs:67 | lower-casing keeps the length and maps every character through ASCII case folding |
| Text.LowerIsLowerCase | Services/FileTypeDetector.cs:67 | the result of lower-casing has no upper-case letter, and lower-casing leaves a string unchanged exactly when it has none |
| Text.EqualsIgnoreCase | Services/ConversionService.cs:93 | case-insensitive equality: the two strings are equal after ASCII lower-casing (its properties are stated by EqualsIgnoreCaseOfLowerCase) |
| Text.EqualsIgnoreCaseOfLowerCase | Services/ConversionService.cs:93 | for two lower-case strings, case-insensitive equality is plain equality |
| Text.TrimStart | Services/FileTypeDetector.cs:76 | the result is a suffix of the input; everything dropped is the character; the result does not start with it |
| Text.IndexOf | Services/FFmpegConverter.cs:69 | the result is the first index where the pattern occurs, or None when it occurs nowhere |
| Text.Contains | Services/FFmpegConverter.cs:47 | the pattern occurs at some index of the string (IndexOfFindsContains ties it to IndexOf) |
| Text.IndexOfFindsContains | Services/FFmpegConverter.cs:47 | IndexOf finds an occurrence exactly when Contains holds |
| Text.TrimLeft | Services/FFmpegConverter.cs:88 | drops the leading white space; what that means is stated by TrimLeftDropsLeadingWhiteSpace |
| Text.TrimRight | Services/FFmpegConverter.cs:88 | drops the trailing white space; what that means is stated by TrimRightDropsTrailingWhiteSpace |
| Text.TrimLeftDropsLeadingWhiteSpace | Services/FFmpegConverter.cs:88 | the result is a suffix of the input that is empty or does not start with white space, and every character dropped is white space |
| Text.TrimRightDropsTrailingWhiteSpace | Services/FFmpegConverter.cs:88 | the result is a prefix of the input that is empty or does not end with white space, and every character dropped is white space |
| Text.Trim | Services/FFmpegConverter.cs:88 | drops the white space at both ends; stated by TrimKeepsMiddle and TrimmedHasNoOuterWhiteSpace |
| Text.TrimKeepsMiddle | Services/FFmpegConverter.cs:88 | the trimmed string is the slice of the input between its leading and its trailing white space, and everything outside that slice is white space |
| Text.TrimmedHasNoOuterWhiteSpace | Services/FFmpegConverter.cs:88 | the trimmed string is empty, or neither starts nor ends with white space |
| Text.Split | Services/FFmpegConverter.cs:85 | splitting gives at least one piece, and no piece holds the separator |
| Text.JoinSplit | Services/FFmpegConverter.cs:85 | joining the pieces with the separator gives back the original string |
| Text.DecimalString | Services/FFmpegConverter.cs:27 | the rendering of a number is a non-empty run of decimal digits that starts with '0' only for zero |
| Text.DecimalRoundTrip | Services/FFmpegConverter.cs:27 | reading the rendered digits back gives the number |
| FileTypeDetector.Lookup | Services/FileTypeDetector.cs:15-57 | a category has an entry exactly when it is a key of the map, and then it gets that key's icon and extension list |
| FileTypeDetector.ExtensionsOf | Services/FileTypeDetector.cs:15-57 | the extension list of a category's map entry, empty for a category without one (stated through Lookup and UnknownIsNotConfigured) |
| FileTypeDetector.CreateUnknownFileType | Services/FileTypeDetector.cs:86-95 | the Unknown value: category Unknown, format "unknown", the question-mark icon, description "Unknown file type" |
| FileTypeDetector.FirstMatch | Services/FileTypeDetector.cs:69-81 | the search returns the first entry, in enumeration order, whose list holds the extension, or None when no list does |
| FileTypeDetector.DetectFileType | Services/FileTypeDetector.cs:60-84 | a missing file is Unknown. A known result comes from an existing file, and "." + format is the lower-cased extension and is in the category's list. The format is non-empty with no leading '.', and the icon and "<category> file" description are the category's. The category is Unknown exactly when the format is "unknown" |
| FileTypeDetector.TablesWellFormed | Services/FileTypeDetector.cs:22-54 | every listed extension is '.' followed by a name that does not start with '.' and is not "unknown" |
| FileTypeDetector.ImageTableDisjointFromEarlier | Services/FileTypeDetector.cs:22-30 | the image and document lists share no extension |
| FileTypeDetector.VideoTableDisjointFromEarlier | Services/FileTypeDetector.cs:22-38 | the video list shares no extension with the document or image list |
| FileTypeDetector.AudioTableDisjointFromDocumentsAndImages | Services/FileTypeDetector.cs:22-46 | the audio list shares no extension with the document or image list |
| FileTypeDetector.AudioTableDisjointFromVideo | Services/FileTypeDetector.cs:38-46 | the audio and video lists share no extension |
| FileTypeDetector.ArchiveTableDisjointFromDocumentsAndImages | Services/FileTypeDetector.cs:22-54 | the archive list shares no extension with the document or image list |
| FileTypeDetector.ArchiveTableDisjointFromMedia | Services/FileTypeDetector.cs:38-54 | the archive list shares no extension with the video or audio list |
| FileTypeDetector.TableEntriesAreWellFormed | Services/FileTypeDetector.cs:15-57 | every entry of the map is for a category other than Unknown, and its extensions are well formed |
| FileTypeDetector.ExtensionTablesDisjoint | Services/FileTypeDetector.cs:15-57 | no extension is in two entries of the map |
| FileTypeDetector.UnknownIsNotConfigured | Services/FileTypeDetector.cs:15-57 | Unknown is not a key of the map, and ".unknown" is in no list |
| FileTypeDetector.DetectMissingFile | Services/FileTypeDetector.cs:62-65 | a missing file gives the Unknown value, whatever its extension |
| FileTypeDetector.DetectListedExtension | Services/FileTypeDetector.cs:67-80 | an existing file whose lower-cased extension is listed under a category gets that category, the extension without its '.', the category's icon and "<category> file", whatever the enumeration order |
| FileTypeDetector.DetectUnlistedExtension | Services/FileTypeDetector.cs:83 | an existing file whose lower-cased extension is in no list gives the Unknown value |
| FileTypeDetector.EmptyExtensionIsUnknown | Services/FileTypeDetector.cs:83 | an existing file with no extension gives the Unknown value |
| FileTypeDetector.DetectIgnoresCase | Services/FileTypeDetector.cs:67 | two extensions that differ only in ASCII letter case are classified identically |
| FileTypeDetector.DetectedFormatIsLowerCase | Services/FileTypeDetector.cs:67-95 | the detected format never holds an upper-case letter, for a listed extension and for the Unknown value alike |
| FileTypeDetector.LowerCaseTail | Services/FileTypeDetector.cs:76 | the name left after the '.' of a lower-case extension is lower case |
| ConversionService.Anchor | Services/ConversionService.cs:112-143 | exactly Image, Video, Document and Audio have an anchor format, and each anchor is a non-empty lower-case name |
| ConversionService.InsertsAnchor | Services/ConversionService.cs:112-143 | the insertion condition: the category has an anchor, the current format is not literally it, and the list does not hold it (stated through WithContextSuggestion and RecommendedIsFilteredPlusAnchor) |
| ConversionService.WithContextSuggestion | Services/ConversionService.cs:112-143 | the list gains at most one entry, in front, and keeps the rest; the anchor is in the result whenever the current format is not literally it; an anchorless category or the anchor itself as current format leaves the list unchanged |
| ConversionService.RecommendedFrom | Services/ConversionService.cs:77-110 | the recommended list a request returns; stated by RecommendedIsFilteredPlusAnchor and OptionsAreDistinctAndBounded |
| ConversionService.AllFormatsFrom | Services/ConversionService.cs:77-110 | the full list a request returns; stated by AllFormatsExcludeCurrent and OptionsAreDistinctAndBounded |
| ConversionService.Without | Services/ConversionService.cs:91-105 | filtering never lengthens a list |
| ConversionService.ConversionService.constructor | Services/ConversionService.cs:10-74 | the service's catalog is the five-category catalog |
| ConversionService.ConversionService.GetConversionOptions | Services/ConversionService.cs:77-110 | returns a fresh options object whose two lists are the catalog lists filtered of the current format, with the context suggestion applied; a category without an entry gets two empty lists |
| ConversionService.ConversionService.AddContextSuggestions | Services/ConversionService.cs:112-144 | puts the category's anchor in front exactly when the current format is not literally the anchor and the list lacks it. It leaves the full list alone |
| ConversionService.WithoutExtend | Services/ConversionService.cs:91-105 | one more loop step appends the entry when it differs from the current format, and appends nothing otherwise |
| ConversionService.WithoutMembers | Services/ConversionService.cs:91-105 | an entry survives filtering exactly when it is listed and differs from the current format up to case |
| ConversionService.WithoutAppend | Services/ConversionService.cs:91-105 | filtering distributes over concatenation, so catalog order is kept |
| ConversionService.WithoutNoMatch | Services/ConversionService.cs:91-105 | a list with nothing equal to the current format is returned unchanged |
| ConversionService.WithoutDistinct | Services/ConversionService.cs:91-105 | filtering keeps a duplicate-free list duplicate-free |
| ConversionService.CatalogListsDistinct | Services/ConversionService.cs:18-71 | none of the ten catalog lists holds a duplicate |
| ConversionService.CatalogIsWellFormed | Services/ConversionService.cs:18-54 | each category's lists are duplicate-free, and its anchor is a lower-case entry of its recommended list |
| ConversionService.UnknownHasNoOptions | Services/ConversionService.cs:79-86 | only Unknown lacks a catalog entry, and it gets two empty lists |
| ConversionService.AllFormatsExcludeCurrent | Services/ConversionService.cs:99-105 | the full list is the catalog's list minus the current format up to case, both ways: nothing equal to it remains and everything else does |
| ConversionService.RecommendedIsFilteredPlusAnchor | Services/ConversionService.cs:91-143 | the recommended list is the filtered catalog list, with the anchor in front exactly when the insertion condition holds; Archive never gets one |
| ConversionService.LowerCaseFormatNeverInsertsAnchor | Services/ConversionService.cs:117-140 | for a current format without upper-case letters the anchor is never inserted, so the list is filtered catalog order |
| ConversionService.LowerCaseFormatIsNeverRecommended | Services/ConversionService.cs:91-140 | for such a format neither list holds the current format in any case |
| ConversionService.UpperCaseAnchorIsReinserted | Services/ConversionService.cs:91-119 | for an image with current format "WEBP" the filter removes "webp" and the case-sensitive check puts it back in front: ["webp", "jpg", "png"] |
| ConversionService.JpegImageExample | Services/ConversionService.cs:91-119 | for an image in "jpg" the recommended list is ["png", "webp"] |
| ConversionService.WebpImageExample | Services/ConversionService.cs:91-119 | for an image in "webp" the recommended list is ["jpg", "png"] |
| ConversionService.OptionsAreDistinctAndBounded | Services/ConversionService.cs:18-119 | both lists are duplicate-free; the full list is no longer than the catalog's, the recommended one at most one longer |
| FFmpegConverter.PathDirectories | Services/FFmpegConverter.cs:85 | the PATH directories in order, none when PATH is unset; stated by PathDirectoriesAreThePieces |
| FFmpegConverter.PathDirectoriesAreThePieces | Services/FFmpegConverter.cs:85 | an unset PATH gives no directory; a set one gives at least one piece, no piece holds ';', and joining the pieces with ';' gives PATH back |
| FFmpegConverter.Candidates | Services/FFmpegConverter.cs:85-88 | one candidate per PATH directory: the trimmed directory combined with "ffmpeg.exe" |
| FFmpegConverter.FirstExisting | Services/FFmpegConverter.cs:86-91 | the index of the first candidate that exists, or None when none does |
| FFmpegConverter.LocateFFmpeg | Services/FFmpegConverter.cs:79-94 | the search order: the local binary, else the first existing PATH candidate, else the bare name; stated by LocalBinaryWins, FirstPathEntryWins, FallbackWhenNoneExists and LocatedBinaryExists |
| FFmpegConverter.LocateFromCandidates | Services/FFmpegConverter.cs:85-93 | if the local binary is missing, the first k candidates are missing and candidate k exists, then the search result is candidate k; with all candidates missing it is the bare name |
| FFmpegConverter.FindFFmpeg | Services/FFmpegConverter.cs:79-94 | the loop with its early returns gives the location of the search order LocateFFmpeg |
| FFmpegConverter.FirstExistingIsFirst | Services/FFmpegConverter.cs:86-91 | the first existing candidate is fixed by which candidates exist |
| FFmpegConverter.LocalBinaryWins | Services/FFmpegConverter.cs:81-83 | "ffmpeg.exe" beside the application wins when it exists |
| FFmpegConverter.FirstPathEntryWins | Services/FFmpegConverter.cs:85-91 | otherwise the first PATH entry, split on ';' and trimmed, whose "ffmpeg.exe" exists wins |
| FFmpegConverter.FallbackWhenNoneExists | Services/FFmpegConverter.cs:93 | the bare name "ffmpeg" is used when no candidate exists |
| FFmpegConverter.LocatedBinaryExists | Services/FFmpegConverter.cs:79-94 | any result other than the bare name exists |
| FFmpegConverter.UnsetPathFallsBack | Services/FFmpegConverter.cs:85-93 | with PATH unset and no local binary the bare name is used |
| FFmpegConverter.Fps | Services/FFmpegConverter.cs:24 | the frame rate of a quality value; its tiers are stated by QualityTiers and TiersAreMonotone |
| FFmpegConverter.Scale | Services/FFmpegConverter.cs:25 | the picture width of a quality value; its tiers are stated by QualityTiers and TiersAreMonotone |
| FFmpegConverter.QualityTiers | Services/FFmpegConverter.cs:24-25 | above 70: 15 fps and 480 px; above 40 up to 70: 10 and 360; otherwise 5 and 240; 70 and 40 fall in the lower tier |
| FFmpegConverter.TiersAreMonotone | Services/FFmpegConverter.cs:24-25 | a higher quality never gives a lower frame rate or a narrower picture |
| FFmpegConverter.FilterChain | Services/FFmpegConverter.cs:27 | the video filter of a quality value; stated by FilterChainNumbers and the three tier filters |
| FFmpegConverter.Arguments | Services/FFmpegConverter.cs:27 | the ffmpeg command line; stated by ArgumentsLayout |
| FFmpegConverter.ArgumentsLayout | Services/FFmpegConverter.cs:27 | the command line is `-i "`, the input path, `" -vf "`, the filter, `" -c:v gif "`, the output path and `" -y`, at the offsets given, so it always ends with the overwrite flag |
| FFmpegConverter.FilterChainNumbers | Services/FFmpegConverter.cs:24-27 | the numbers written into the filter read back as the tier's frame rate and width |
| FFmpegConverter.HighQualityFilter | Services/FFmpegConverter.cs:24-27 | above 70 the filter is fps=15 and scale=480 with the Lanczos flags |
| FFmpegConverter.MediumQualityFilter | Services/FFmpegConverter.cs:24-27 | from 41 to 70 the filter is fps=10 and scale=360 |
| FFmpegConverter.LowQualityFilter | Services/FFmpegConverter.cs:24-27 | up to 40 the filter is fps=5 and scale=240 |
| FFmpegConverter.ExtractProgress | Services/FFmpegConverter.cs:65-77 | the result is 50 or -1, and 50 exactly when "time=" occurs and its first occurrence is not at the start of the line |
| FFmpegConverter.CapturedText | Services/FFmpegConverter.cs:44-46 | what one line adds to the captured output; stated by CapturedOutputOfLine |
| FFmpegConverter.ReportFor | Services/FFmpegConverter.cs:47-53 | the reports one line causes; stated by ReportRule |
| FFmpegConverter.CapturedOutput | Services/FFmpegConverter.cs:41-46 | the captured output of a stream; stated by CapturedOutputAppend and StreamSummary |
| FFmpegConverter.ProgressReports | Services/FFmpegConverter.cs:47-53 | the reports of a stream; stated by ProgressReportsAppend and StreamSummary |
| FFmpegConverter.HandleErrorData | Services/FFmpegConverter.cs:42-56 | one event appends its line and a line feed when non-empty, and adds the report the rule calls for |
| FFmpegConverter.DrainErrorStream | Services/FFmpegConverter.cs:41-56 | handling the lines in arrival order gives the captured output and the report sequence of the whole stream |
| FFmpegConverter.ReportRule | Services/FFmpegConverter.cs:44-53 | a line gives at most one report, and gives one exactly when a sink is attached and the line contains "time=" but does not start with it (its first occurrence is past index 0); that report is 50; null and empty lines change nothing |
| FFmpegConverter.CapturedOutputAppend | Services/FFmpegConverter.cs:41-46 | the captured output of a stream is that of its first part followed by that of the rest, so arrival order is kept |
| FFmpegConverter.ProgressReportsAppend | Services/FFmpegConverter.cs:47-53 | likewise the reports of a stream are those of its first part followed by those of the rest |
| FFmpegConverter.StreamSummary | Services/FFmpegConverter.cs:41-53 | a stream of null or empty lines captures nothing; every report is 50, within 0..100; there are at most as many reports as lines, and none without a sink |
| FFmpegConverter.CapturedOutputOfLine | Services/FFmpegConverter.cs:44-46 | a non-empty line adds exactly itself and "\n" to the captured output |
| DetectedRequests.DetectedFormatsNeverInsertAnchor | MainWindow.xaml.cs:187 | for every request the window makes from a detection, the recommended list is the catalog list filtered of the format, in catalog order with no anchor inserted, and neither holds the format in any case |
| FFmpegConverter.FFmpegConverter.constructor | Services/FFmpegConverter.cs:10-15 | the binary's location is the search result, fixed once |
| FFmpegConverter.FFmpegConverter.ConvertVideoToGif | Services/FFmpegConverter.cs:17-63 | the not-found error is raised, with its message and before any invocation, exactly when the binary's path does not exist. Otherwise ffmpeg runs at that path with the tier's arguments; the captured output and reports are those of the stream; success means exit code 0 |

## Left out

- The window (`MainWindow.xaml.cs`): click and drag-and-drop handlers, the dialogs, the simulated conversion and the file-size formatting. It is user interface, not part of the core.
- Starting and awaiting processes (`Process.Start`, `BeginErrorReadLine`, `WaitForExitAsync`). The stream of standard-error lines and the exit code are inputs to `ConvertVideoToGif` instead. `ProcessStartInfo`'s redirection and window flags are not modelled; the invocation records only the file name and the arguments. An existing file that `Process.Start` cannot launch (`FFmpegConverter.cs:58`) throws an exception out of `ConvertVideoToGif` in the source; the model has no such error path, and every existing path gives a finished run.
- `IsFFmpegAvailable` (`FFmpegConverter.cs:96-118`): it does nothing but start `ffmpeg -version` and test the exit code, which is process I/O.
- The threads on which `ErrorDataReceived` events arrive and the unsynchronised `errorOutput +=`. The model is the sequential handling of the lines in arrival order.
- `File.Exists`, `Path.Combine`, `Environment.GetEnvironmentVariable`, `AppDomain.CurrentDomain.BaseDirectory`, `FileInfo.Exists` and `FileInfo.Extension`. They are parameters, not re-implementations. A null `FileInfo` and a missing file are one `fileExists = false` case.
- `FileCategory`'s declaring file is not part of this model. Its six values and their names, as string interpolation renders them, are taken as they are used.
- The icons are opaque constants: the same code points as the source's emoji. The default icon of a `DetectedFileType` (`DetectedFileType.cs:7`) is not modelled, because every value the core builds sets its icon.
- Text.Lower, Text.LowerChar: model `ToLowerInvariant` as ASCII case folding only; `LowerChar` is its per-character step. Every table and catalog entry is ASCII; a non-ASCII letter in an extension is left as it is. `ToLowerInvariant` also maps a few non-ASCII letters to ASCII ones: KELVIN SIGN U+212A becomes 'k', so ".M\u212AV" is a Video in the source and Unknown in the model.
- Text.EqualsIgnoreCase: models `OrdinalIgnoreCase` equality as ASCII case folding only. It compares catalog entries, which are all ASCII, with the current format; the window passes only detected formats, which are table entries or "unknown" and so ASCII as well.
- Text.IndexOf: models `IndexOf(string)` as an ordinal search, while .NET's is culture-sensitive. The two agree on a line without ignorable characters or combining marks next to the match; ffmpeg's progress lines are ASCII.
- FFmpegConverter.ExtractProgress: its search for "time=" is the ordinal Text.IndexOf, for the same reason. On a line such as "a time=\u0301" the two can differ.
- The progress value is the source's stub (50 or -1). The model has no real time parsing because the source has none, and no cancellation, process killing or output cleanup for the same reason.
- The order in which the category dictionary is enumerated is taken to be insertion order. `DetectListedExtension` shows the result does not depend on it, because the lists are disjoint.
