/**
 * The classifier: maps a file's extension to a category, the bare format name,
 * the category's icon and a description. Only the extension and the file's
 * existence are consulted; the file's contents never are.
 */
module FileTypeDetector {
  import opened Text
  import opened Models

  /** Static configuration of one category: its icon and its extensions. */
  datatype CategoryInfo = CategoryInfo(icon: string, extensions: seq<string>)

  const DocumentInfo: CategoryInfo := CategoryInfo("\U{1F4C4}",
    [".pdf", ".doc", ".docx", ".txt", ".rtf", ".odt", ".xls", ".xlsx", ".ppt", ".pptx", ".csv"])
  const ImageInfo: CategoryInfo := CategoryInfo("\U{1F5BC}\U{FE0F}",
    [".jpg", ".jpeg", ".png", ".gif", ".bmp", ".webp", ".svg", ".ico", ".tiff", ".tif", ".heic"])
  const VideoInfo: CategoryInfo := CategoryInfo("\U{1F3AC}",
    [".mp4", ".avi", ".mkv", ".mov", ".wmv", ".flv", ".webm", ".m4v", ".mpg", ".mpeg"])
  const AudioInfo: CategoryInfo := CategoryInfo("\U{1F3B5}",
    [".mp3", ".wav", ".flac", ".aac", ".ogg", ".wma", ".m4a", ".opus", ".alac"])
  const ArchiveInfo: CategoryInfo := CategoryInfo("\U{1F4E6}",
    [".zip", ".rar", ".7z", ".tar", ".gz", ".bz2", ".xz", ".iso"])

  /**
   * The category map, in the order its entries were added, which is the order
   * in which the dictionary enumerates them.
   */
  const CategoryMap: seq<(FileCategory, CategoryInfo)> := [
    (Document, DocumentInfo), (Image, ImageInfo), (Video, VideoInfo),
    (Audio, AudioInfo), (Archive, ArchiveInfo)
  ]

  const UnknownIcon: string := "\U{2753}"

  /** `categoryMap[c]`, or None when `c` is not a key of the map. */
  function Lookup(c: FileCategory): (r: Option<CategoryInfo>)
    ensures r.Some? <==> exists i :: 0 <= i < |CategoryMap| && CategoryMap[i].0 == c
    ensures forall i :: 0 <= i < |CategoryMap| && CategoryMap[i].0 == c ==> r == Some(CategoryMap[i].1)
  {
    if c == Unknown then None
    else Some(CategoryMap[match c
      case Document => 0 case Image => 1 case Video => 2 case Audio => 3 case _ => 4].1)
  }

  /** The extensions listed for `c`; none for a category that is not a key. */
  function ExtensionsOf(c: FileCategory): seq<string>
  {
    match Lookup(c)
    case None => []
    case Some(info) => info.extensions
  }

  /** The value returned when the file is missing or its extension is not listed. */
  function CreateUnknownFileType(): (r: DetectedFileType)
    ensures r.category == Unknown && r.format == "unknown"
    ensures r.icon == UnknownIcon && r.description == "Unknown file type"
  {
    DetectedFileType(Unknown, "unknown", UnknownIcon, "Unknown file type")
  }

  /**
   * The `foreach` over the category map with its early return: the first entry,
   * from index `from` on, whose extension list contains `ext`.
   */
  function FirstMatch(ext: string, from: nat := 0): (r: Option<nat>)
    requires from <= |CategoryMap|
    decreases |CategoryMap| - from
    ensures r.Some? ==> from <= r.value < |CategoryMap| && ext in CategoryMap[r.value].1.extensions
    ensures r.Some? ==> forall j :: from <= j < r.value ==> ext !in CategoryMap[j].1.extensions
    ensures r.None? ==> forall j :: from <= j < |CategoryMap| ==> ext !in CategoryMap[j].1.extensions
  {
    if from == |CategoryMap| then None
    else if ext in CategoryMap[from].1.extensions then Some(from)
    else FirstMatch(ext, from + 1)
  }

  /**
   * Classifies a file from whether it exists and from its extension (with its
   * leading '.', as the file system reports it).
   */
  function DetectFileType(fileExists: bool, extension: string): (r: DetectedFileType)
    ensures !fileExists ==> r == CreateUnknownFileType()
    ensures r.category != Unknown ==>
      && fileExists
      && "." + r.format in ExtensionsOf(r.category)
      && Lower(extension) == "." + r.format
      && r.format != [] && r.format[0] != '.'
      && Lookup(r.category).Some? && r.icon == Lookup(r.category).value.icon
      && r.description == CategoryName(r.category) + " file"
    ensures r.category == Unknown <==> r.format == "unknown"
  {
    if !fileExists then CreateUnknownFileType()
    else
      var ext := Lower(extension);
      match FirstMatch(ext)
      case None => CreateUnknownFileType()
      case Some(i) =>
        var (category, info) := CategoryMap[i];
        TableEntriesAreWellFormed(i, ext);
        assert "." + ext[1..] == ext;
        assert ExtensionsOf(category) == info.extensions;
        DetectedFileType(category, TrimStart(ext, '.'), info.icon, CategoryName(category) + " file")
  }

  /** An extension is '.' followed by a name that neither starts with '.' nor is "unknown". */
  predicate WellFormedExtension(ext: string)
  {
    |ext| >= 2 && ext[0] == '.' && ext[1] != '.' && ext[1..] != "unknown"
  }

  /** All extensions of one list are well formed. */
  predicate AllWellFormed(exts: seq<string>)
  {
    forall i :: 0 <= i < |exts| ==> WellFormedExtension(exts[i])
  }

  /** No extension is in both lists. */
  predicate Disjoint(xs: seq<string>, ys: seq<string>)
  {
    forall i, j :: 0 <= i < |xs| && 0 <= j < |ys| ==> xs[i] != ys[j]
  }

  lemma TablesWellFormed()
    ensures AllWellFormed(DocumentInfo.extensions) && AllWellFormed(ImageInfo.extensions)
    ensures AllWellFormed(VideoInfo.extensions) && AllWellFormed(AudioInfo.extensions)
    ensures AllWellFormed(ArchiveInfo.extensions)
  {
  }

  lemma ImageTableDisjointFromEarlier()
    ensures Disjoint(DocumentInfo.extensions, ImageInfo.extensions)
  {
    var xs, ys := DocumentInfo.extensions, ImageInfo.extensions;
    forall i, j | 0 <= i < |xs| && 0 <= j < |ys| ensures xs[i] != ys[j] {
      assert xs[i][1] in "pdtroxc" && ys[j][1] in "jpgbwsith";
    }
  }

  lemma VideoTableDisjointFromEarlier()
    ensures Disjoint(DocumentInfo.extensions, VideoInfo.extensions)
    ensures Disjoint(ImageInfo.extensions, VideoInfo.extensions)
  {
  }

  lemma AudioTableDisjointFromDocumentsAndImages()
    ensures Disjoint(DocumentInfo.extensions, AudioInfo.extensions)
    ensures Disjoint(ImageInfo.extensions, AudioInfo.extensions)
  {
  }

  lemma AudioTableDisjointFromVideo()
    ensures Disjoint(VideoInfo.extensions, AudioInfo.extensions)
  {
  }

  lemma ArchiveTableDisjointFromDocumentsAndImages()
    ensures Disjoint(DocumentInfo.extensions, ArchiveInfo.extensions)
    ensures Disjoint(ImageInfo.extensions, ArchiveInfo.extensions)
  {
  }

  lemma ArchiveTableDisjointFromMedia()
    ensures Disjoint(VideoInfo.extensions, ArchiveInfo.extensions)
    ensures Disjoint(AudioInfo.extensions, ArchiveInfo.extensions)
  {
  }

  /** Every listed extension is well formed, and Unknown is not a key. */
  lemma TableEntriesAreWellFormed(i: nat, ext: string)
    requires i < |CategoryMap| && ext in CategoryMap[i].1.extensions
    ensures CategoryMap[i].0 != Unknown
    ensures WellFormedExtension(ext)
    ensures TrimStart(ext, '.') == ext[1..]
    ensures Lookup(CategoryMap[i].0) == Some(CategoryMap[i].1)
  {
    TablesWellFormed();
    assert AllWellFormed(CategoryMap[i].1.extensions);
    assert TrimStart(ext[1..], '.') == ext[1..];
  }

  /** The five extension lists have no extension in common. */
  lemma ExtensionTablesDisjoint(i: nat, j: nat, ext: string)
    requires i < j < |CategoryMap|
    ensures !(ext in CategoryMap[i].1.extensions && ext in CategoryMap[j].1.extensions)
  {
    ImageTableDisjointFromEarlier();
    VideoTableDisjointFromEarlier();
    AudioTableDisjointFromDocumentsAndImages();
    AudioTableDisjointFromVideo();
    ArchiveTableDisjointFromDocumentsAndImages();
    ArchiveTableDisjointFromMedia();
    assert Disjoint(CategoryMap[i].1.extensions, CategoryMap[j].1.extensions);
  }

  /** Unknown has no entry, and no listed extension names it. */
  lemma UnknownIsNotConfigured()
    ensures Lookup(Unknown).None? && ExtensionsOf(Unknown) == []
    ensures forall c :: ".unknown" !in ExtensionsOf(c)
  {
  }

  /** A missing file (or no file at all) is Unknown whatever its extension. */
  lemma DetectMissingFile(extension: string)
    ensures DetectFileType(false, extension) == DetectedFileType(Unknown, "unknown", UnknownIcon, "Unknown file type")
  {
  }

  /**
   * An existing file whose lower-cased extension is listed for `c` is classified
   * as `c`, whichever position `c` has in the enumeration order.
   */
  lemma DetectListedExtension(extension: string, c: FileCategory)
    requires Lower(extension) in ExtensionsOf(c)
    ensures DetectFileType(true, extension) ==
      DetectedFileType(c, Lower(extension)[1..], Lookup(c).value.icon, CategoryName(c) + " file")
  {
    var ext := Lower(extension);
    var k :| 0 <= k < |CategoryMap| && CategoryMap[k].0 == c;
    assert ext in CategoryMap[k].1.extensions;
    var i := FirstMatch(ext).value;
    if i < k {
      ExtensionTablesDisjoint(i, k, ext);
    }
    assert i == k;
    TableEntriesAreWellFormed(k, ext);
  }

  /** An existing file whose extension is listed nowhere, the empty one included, is Unknown. */
  lemma DetectUnlistedExtension(extension: string)
    requires forall c :: Lower(extension) !in ExtensionsOf(c)
    ensures DetectFileType(true, extension) == CreateUnknownFileType()
  {
    var ext := Lower(extension);
    if FirstMatch(ext).Some? {
      var i := FirstMatch(ext).value;
      TableEntriesAreWellFormed(i, ext);
      assert ext in ExtensionsOf(CategoryMap[i].0);
    }
  }

  lemma EmptyExtensionIsUnknown()
    ensures DetectFileType(true, "") == CreateUnknownFileType()
  {
    if FirstMatch("").Some? {
      TableEntriesAreWellFormed(FirstMatch("").value, "");
    }
  }

  /** Two extensions that differ only in ASCII letter case are classified alike. */
  lemma DetectIgnoresCase(fileExists: bool, a: string, b: string)
    requires |a| == |b|
    requires forall i :: 0 <= i < |a| ==> LowerChar(a[i]) == LowerChar(b[i])
    ensures DetectFileType(fileExists, a) == DetectFileType(fileExists, b)
  {
    assert Lower(a) == Lower(b);
  }

  /** The detected format never has an upper-case letter, known or not. */
  lemma DetectedFormatIsLowerCase(fileExists: bool, extension: string)
    ensures IsLowerCase(DetectFileType(fileExists, extension).format)
  {
    var r := DetectFileType(fileExists, extension);
    if r.category == Unknown {
      assert r.format == "unknown";
    } else {
      LowerIsLowerCase(extension);
      LowerCaseTail(Lower(extension), r.format);
    }
  }

  /** Dropping the leading '.' of a lower-case extension leaves a lower-case name. */
  lemma LowerCaseTail(extension: string, name: string)
    requires IsLowerCase(extension) && extension == "." + name
    ensures IsLowerCase(name)
  {
    forall i | 0 <= i < |name| ensures !('A' <= name[i] <= 'Z') {
      assert name[i] == extension[i + 1];
    }
  }
}
