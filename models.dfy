/**
 * The value types shared by the classifier, the recommendation engine and the
 * window: the closed set of file categories, the result of a classification and
 * the per-request list of target formats.
 */
module Models {

  /** The coarse kind of a file. */
  datatype FileCategory = Document | Image | Video | Audio | Archive | Unknown

  /** The name of a category as enum-to-string conversion renders it. */
  function CategoryName(c: FileCategory): (name: string)
    ensures name != []
    ensures c == Unknown <==> name == "Unknown"
  {
    match c
    case Document => "Document"
    case Image => "Image"
    case Video => "Video"
    case Audio => "Audio"
    case Archive => "Archive"
    case Unknown => "Unknown"
  }

  /** What the classifier reports about one file; built fresh for every call. */
  datatype DetectedFileType = DetectedFileType(
    category: FileCategory,
    format: string,
    icon: string,
    description: string)

  /**
   * The caller-visible result of a recommendation request: two ordered lists of
   * format names that the service fills with `Add` and `Insert`.
   */
  class ConversionOptions {
    var recommended: seq<string>
    var allFormats: seq<string>

    /** Both lists start out empty. */
    constructor ()
      ensures recommended == [] && allFormats == []
    {
      recommended := [];
      allFormats := [];
    }
  }
}
