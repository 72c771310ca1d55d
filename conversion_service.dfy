/**
 * The recommendation engine: for a category and the file's current format it
 * lists the target formats, a short recommended list and the full list, both in
 * catalog order with the current format left out, and may put the category's
 * preferred ("anchor") format at the head of the recommended list.
 */
module ConversionService {
  import opened Text
  import opened Models

  /** The static catalog entry of one category. */
  datatype CategoryConversions = CategoryConversions(recommended: seq<string>, allFormats: seq<string>)

  const DocumentRecommended: seq<string> := ["pdf", "docx", "txt"]
  const DocumentAllFormats: seq<string> :=
    ["pdf", "docx", "doc", "txt", "rtf", "odt", "html", "md", "epub", "xps", "oxps"]
  const ImageRecommended: seq<string> := ["jpg", "png", "webp"]
  const ImageAllFormats: seq<string> :=
    ["jpg", "jpeg", "png", "gif", "bmp", "webp", "svg", "ico", "tiff", "pdf", "heic"]
  const VideoRecommended: seq<string> := ["mp4", "webm", "avi"]
  const VideoAllFormats: seq<string> :=
    ["mp4", "avi", "mkv", "mov", "wmv", "flv", "webm", "m4v", "mpg", "mpeg", "gif"]
  const AudioRecommended: seq<string> := ["mp3", "wav", "flac"]
  const AudioAllFormats: seq<string> :=
    ["mp3", "wav", "flac", "aac", "ogg", "wma", "m4a", "opus", "alac"]
  const ArchiveRecommended: seq<string> := ["zip", "7z", "tar"]
  const ArchiveAllFormats: seq<string> :=
    ["zip", "rar", "7z", "tar", "gz", "bz2", "xz", "tar.gz", "tar.bz2"]

  /** The conversion catalog that the service's constructor builds. */
  const Catalog: map<FileCategory, CategoryConversions> := map[
    Document := CategoryConversions(DocumentRecommended, DocumentAllFormats),
    Image := CategoryConversions(ImageRecommended, ImageAllFormats),
    Video := CategoryConversions(VideoRecommended, VideoAllFormats),
    Audio := CategoryConversions(AudioRecommended, AudioAllFormats),
    Archive := CategoryConversions(ArchiveRecommended, ArchiveAllFormats)]

  /** The entries of `formats` that are not `current` up to ASCII case, in their order. */
  function Without(formats: seq<string>, current: string): (r: seq<string>)
    ensures |r| <= |formats|
  {
    if formats == [] then []
    else
      var last := formats[|formats| - 1];
      Without(formats[..|formats| - 1], current) + (if EqualsIgnoreCase(last, current) then [] else [last])
  }

  /** The format that `AddContextSuggestions` promotes for each category, if any. */
  function Anchor(category: FileCategory): (anchor: Option<string>)
    ensures anchor.Some? <==> category in {Image, Video, Document, Audio}
    ensures anchor.Some? ==> anchor.value != [] && IsLowerCase(anchor.value)
  {
    match category
    case Image => Some("webp")
    case Video => Some("mp4")
    case Document => Some("pdf")
    case Audio => Some("mp3")
    case _ => None
  }

  /**
   * Whether the anchor is put in front: the category has one, the current format
   * is not literally the anchor, and the list does not already hold it (both
   * comparisons are case-sensitive).
   */
  predicate InsertsAnchor(category: FileCategory, currentFormat: string, recommended: seq<string>)
  {
    Anchor(category).Some? && currentFormat != Anchor(category).value
    && Anchor(category).value !in recommended
  }

  /** The recommended list after the context suggestion. */
  function WithContextSuggestion(category: FileCategory, currentFormat: string, recommended: seq<string>): (r: seq<string>)
    ensures |recommended| <= |r| <= |recommended| + 1 && r[|r| - |recommended|..] == recommended
    ensures Anchor(category).Some? && currentFormat != Anchor(category).value ==> Anchor(category).value in r
    ensures Anchor(category).None? || currentFormat == Anchor(category).value ==> r == recommended
  {
    if InsertsAnchor(category, currentFormat, recommended) then [Anchor(category).value] + recommended
    else recommended
  }

  /** The recommended list that a request against `catalog` returns. */
  function RecommendedFrom(catalog: map<FileCategory, CategoryConversions>, category: FileCategory, currentFormat: string): seq<string>
  {
    if category !in catalog then []
    else WithContextSuggestion(category, currentFormat, Without(catalog[category].recommended, currentFormat))
  }

  /** The full list that a request against `catalog` returns. */
  function AllFormatsFrom(catalog: map<FileCategory, CategoryConversions>, category: FileCategory, currentFormat: string): seq<string>
  {
    if category !in catalog then [] else Without(catalog[category].allFormats, currentFormat)
  }

  /** The service; its catalog is set once, by the constructor, and never written again. */
  class ConversionService {
    const conversionMap: map<FileCategory, CategoryConversions>

    constructor ()
      ensures conversionMap == Catalog
    {
      conversionMap := Catalog;
    }

    /**
     * Builds a fresh options object: both catalog lists copied entry by entry with
     * the current format skipped, then the context suggestion applied.
     */
    method GetConversionOptions(category: FileCategory, currentFormat: string) returns (options: ConversionOptions)
      ensures fresh(options)
      ensures options.recommended == RecommendedFrom(conversionMap, category, currentFormat)
      ensures options.allFormats == AllFormatsFrom(conversionMap, category, currentFormat)
    {
      if category !in conversionMap {
        options := new ConversionOptions();
        return;
      }
      var conversions := conversionMap[category];
      options := new ConversionOptions();

      for i := 0 to |conversions.recommended|
        invariant options.recommended == Without(conversions.recommended[..i], currentFormat)
        invariant options.allFormats == []
      {
        var format := conversions.recommended[i];
        WithoutExtend(conversions.recommended, i, currentFormat);
        if !EqualsIgnoreCase(format, currentFormat) {
          options.recommended := options.recommended + [format];
        }
      }
      assert conversions.recommended[..|conversions.recommended|] == conversions.recommended;

      for i := 0 to |conversions.allFormats|
        invariant options.allFormats == Without(conversions.allFormats[..i], currentFormat)
        invariant options.recommended == Without(conversions.recommended, currentFormat)
      {
        var format := conversions.allFormats[i];
        WithoutExtend(conversions.allFormats, i, currentFormat);
        if !EqualsIgnoreCase(format, currentFormat) {
          options.allFormats := options.allFormats + [format];
        }
      }
      assert conversions.allFormats[..|conversions.allFormats|] == conversions.allFormats;

      AddContextSuggestions(category, currentFormat, options);
    }

    /** Inserts the category's anchor at the head of the recommended list when it is missing. */
    method AddContextSuggestions(category: FileCategory, currentFormat: string, options: ConversionOptions)
      modifies options
      ensures options.recommended == WithContextSuggestion(category, currentFormat, old(options.recommended))
      ensures options.allFormats == old(options.allFormats)
    {
      match category {
        case Image =>
          if currentFormat != "webp" && "webp" !in options.recommended {
            options.recommended := ["webp"] + options.recommended;
          }
        case Video =>
          if currentFormat != "mp4" && "mp4" !in options.recommended {
            options.recommended := ["mp4"] + options.recommended;
          }
        case Document =>
          if currentFormat != "pdf" && "pdf" !in options.recommended {
            options.recommended := ["pdf"] + options.recommended;
          }
        case Audio =>
          if currentFormat != "mp3" && "mp3" !in options.recommended {
            options.recommended := ["mp3"] + options.recommended;
          }
        case _ =>
      }
    }
  }

  /** One more step of the copying loop: the prefix grows by one entry, kept or skipped. */
  lemma WithoutExtend(formats: seq<string>, i: nat, current: string)
    requires i < |formats|
    ensures Without(formats[..i + 1], current) ==
      Without(formats[..i], current) + (if EqualsIgnoreCase(formats[i], current) then [] else [formats[i]])
    ensures i + 1 == |formats| ==> formats[..i + 1] == formats
  {
    assert formats[..i + 1][..i] == formats[..i];
  }

  /** No two entries of `s` are equal. */
  predicate Distinct(s: seq<string>)
  {
    forall i, j :: 0 <= i < j < |s| ==> s[i] != s[j]
  }

  /** An entry survives filtering exactly when it is in the list and is not the current format up to case. */
  lemma {:induction false} WithoutMembers(formats: seq<string>, current: string)
    ensures forall f :: f in Without(formats, current) <==> f in formats && !EqualsIgnoreCase(f, current)
  {
    if formats != [] {
      var init := formats[..|formats| - 1];
      WithoutMembers(init, current);
      assert formats == init + [formats[|formats| - 1]];
    }
  }

  /** Filtering distributes over concatenation, so catalog order is kept. */
  lemma {:induction false} WithoutAppend(a: seq<string>, b: seq<string>, current: string)
    ensures Without(a + b, current) == Without(a, current) + Without(b, current)
    decreases |b|
  {
    if b == [] {
      assert a + b == a;
    } else {
      var b', last := b[..|b| - 1], b[|b| - 1];
      var tail := if EqualsIgnoreCase(last, current) then [] else [last];
      assert (a + b)[..|a + b| - 1] == a + b';
      assert (a + b)[|a + b| - 1] == last;
      WithoutAppend(a, b', current);
      calc {
        Without(a + b, current);
        Without(a + b', current) + tail;
        Without(a, current) + Without(b', current) + tail;
        Without(a, current) + (Without(b', current) + tail);
        Without(a, current) + Without(b, current);
      }
    }
  }

  /** A list that holds nothing equal to `current` is returned unchanged. */
  lemma {:induction false} WithoutNoMatch(formats: seq<string>, current: string)
    requires forall i :: 0 <= i < |formats| ==> !EqualsIgnoreCase(formats[i], current)
    ensures Without(formats, current) == formats
  {
    if formats != [] {
      WithoutNoMatch(formats[..|formats| - 1], current);
    }
  }

  /** Filtering keeps a list free of duplicates. */
  lemma {:induction false} WithoutDistinct(formats: seq<string>, current: string)
    requires Distinct(formats)
    ensures Distinct(Without(formats, current))
  {
    if formats != [] {
      var init, last := formats[..|formats| - 1], formats[|formats| - 1];
      WithoutDistinct(init, current);
      WithoutMembers(init, current);
      assert last !in init;
    }
  }

  lemma CatalogListsDistinct()
    ensures Distinct(DocumentRecommended) && Distinct(DocumentAllFormats)
    ensures Distinct(ImageRecommended) && Distinct(ImageAllFormats)
    ensures Distinct(VideoRecommended) && Distinct(VideoAllFormats)
    ensures Distinct(AudioRecommended) && Distinct(AudioAllFormats)
    ensures Distinct(ArchiveRecommended) && Distinct(ArchiveAllFormats)
  {
  }

  /** Every catalog list is duplicate-free, and each anchor is a lower-case entry of its recommended list. */
  lemma CatalogIsWellFormed(category: FileCategory)
    requires category in Catalog
    ensures Distinct(Catalog[category].recommended) && Distinct(Catalog[category].allFormats)
    ensures Anchor(category).Some? ==> Anchor(category).value in Catalog[category].recommended
    ensures Anchor(category).Some? ==> IsLowerCase(Anchor(category).value)
  {
    CatalogListsDistinct();
  }

  /** Only Unknown has no catalog entry, and it gets two empty lists. */
  lemma UnknownHasNoOptions(currentFormat: string)
    ensures forall c :: c !in Catalog <==> c == Unknown
    ensures RecommendedFrom(Catalog, Unknown, currentFormat) == [] && AllFormatsFrom(Catalog, Unknown, currentFormat) == []
  {
  }

  /**
   * The full list is the catalog's list with every entry equal to the current
   * format up to case removed; it never holds the current format in any case.
   */
  lemma AllFormatsExcludeCurrent(category: FileCategory, currentFormat: string)
    requires category in Catalog
    ensures AllFormatsFrom(Catalog, category, currentFormat) == Without(Catalog[category].allFormats, currentFormat)
    ensures forall f :: f in AllFormatsFrom(Catalog, category, currentFormat) ==> !EqualsIgnoreCase(f, currentFormat)
    ensures forall f :: f in Catalog[category].allFormats && !EqualsIgnoreCase(f, currentFormat) ==>
      f in AllFormatsFrom(Catalog, category, currentFormat)
  {
    WithoutMembers(Catalog[category].allFormats, currentFormat);
  }

  /**
   * The recommended list is the filtered catalog list, with the anchor in front
   * exactly when `InsertsAnchor` holds; Archive never gets one.
   */
  lemma RecommendedIsFilteredPlusAnchor(category: FileCategory, currentFormat: string)
    requires category in Catalog
    ensures var filtered := Without(Catalog[category].recommended, currentFormat);
      && (InsertsAnchor(category, currentFormat, filtered) ==>
            RecommendedFrom(Catalog, category, currentFormat) == [Anchor(category).value] + filtered)
      && (!InsertsAnchor(category, currentFormat, filtered) ==>
            RecommendedFrom(Catalog, category, currentFormat) == filtered)
    ensures category == Archive ==>
      RecommendedFrom(Catalog, category, currentFormat) == Without(ArchiveRecommended, currentFormat)
  {
  }

  /**
   * For a current format without upper-case letters the anchor is never
   * inserted: the catalog already recommends it, and filtering removes it only
   * when it is the current format itself.
   */
  lemma LowerCaseFormatNeverInsertsAnchor(category: FileCategory, currentFormat: string)
    requires category in Catalog && IsLowerCase(currentFormat)
    ensures !InsertsAnchor(category, currentFormat, Without(Catalog[category].recommended, currentFormat))
    ensures RecommendedFrom(Catalog, category, currentFormat) == Without(Catalog[category].recommended, currentFormat)
  {
    CatalogIsWellFormed(category);
    if Anchor(category).Some? && currentFormat != Anchor(category).value {
      EqualsIgnoreCaseOfLowerCase(Anchor(category).value, currentFormat);
      WithoutMembers(Catalog[category].recommended, currentFormat);
    }
  }

  /** Hence, for such a format, neither list recommends the current format as a target of itself. */
  lemma LowerCaseFormatIsNeverRecommended(category: FileCategory, currentFormat: string)
    requires IsLowerCase(currentFormat)
    ensures forall f :: f in RecommendedFrom(Catalog, category, currentFormat) ==> !EqualsIgnoreCase(f, currentFormat)
    ensures forall f :: f in AllFormatsFrom(Catalog, category, currentFormat) ==> !EqualsIgnoreCase(f, currentFormat)
  {
    if category in Catalog {
      LowerCaseFormatNeverInsertsAnchor(category, currentFormat);
      WithoutMembers(Catalog[category].recommended, currentFormat);
      WithoutMembers(Catalog[category].allFormats, currentFormat);
    }
  }

  /**
   * With upper-case letters the case-insensitive filter removes the anchor and the
   * case-sensitive check puts it back in front.
   */
  lemma UpperCaseAnchorIsReinserted()
    ensures EqualsIgnoreCase("webp", "WEBP")
    ensures RecommendedFrom(Catalog, Image, "WEBP") == ["webp", "jpg", "png"]
  {
    assert Lower("WEBP") == "webp";
    assert Lower("webp") == "webp";
    assert Without(["jpg"], "WEBP") == ["jpg"] by {
      assert Lower("jpg") == "jpg";
      assert Without([], "WEBP") == [];
    }
    assert ["jpg", "png"][..1] == ["jpg"];
    assert Without(["jpg", "png"], "WEBP") == ["jpg", "png"] by {
      assert Lower("png") == "png";
    }
    assert ImageRecommended[..2] == ["jpg", "png"];
  }

  /** A JPEG image: "jpg" is filtered out and "webp", already listed, is not moved. */
  lemma JpegImageExample()
    ensures RecommendedFrom(Catalog, Image, "jpg") == ["png", "webp"]
  {
    var rec := ImageRecommended;
    assert Catalog[Image].recommended == rec;
    assert Lower("jpg") == "jpg" && Lower("png") == "png" && Lower("webp") == "webp";
    assert rec[..1] == ["jpg"] && rec[..2] == ["jpg", "png"] && rec[..2][..1] == ["jpg"];
    assert Without(rec[..1], "jpg") == [];
    assert Without(rec[..2], "jpg") == ["png"];
  }

  /** A WebP image: the anchor is the current format, so nothing is inserted. */
  lemma WebpImageExample()
    ensures RecommendedFrom(Catalog, Image, "webp") == ["jpg", "png"]
  {
    var rec := ImageRecommended;
    assert Catalog[Image].recommended == rec;
    assert Lower("jpg") == "jpg" && Lower("png") == "png" && Lower("webp") == "webp";
    assert rec[..1] == ["jpg"] && rec[..2] == ["jpg", "png"] && rec[..2][..1] == ["jpg"];
    assert Without(rec[..1], "webp") == ["jpg"];
    assert Without(rec[..2], "webp") == ["jpg", "png"];
  }

  /** Both lists are duplicate-free, and neither grows beyond its catalog list (plus the anchor). */
  lemma OptionsAreDistinctAndBounded(category: FileCategory, currentFormat: string)
    ensures Distinct(RecommendedFrom(Catalog, category, currentFormat))
    ensures Distinct(AllFormatsFrom(Catalog, category, currentFormat))
    ensures category in Catalog ==>
      && |AllFormatsFrom(Catalog, category, currentFormat)| <= |Catalog[category].allFormats|
      && |RecommendedFrom(Catalog, category, currentFormat)| <= |Catalog[category].recommended| + 1
  {
    if category in Catalog {
      var conversions := Catalog[category];
      CatalogIsWellFormed(category);
      WithoutDistinct(conversions.recommended, currentFormat);
      WithoutDistinct(conversions.allFormats, currentFormat);
      var filtered := Without(conversions.recommended, currentFormat);
      if InsertsAnchor(category, currentFormat, filtered) {
        var r := RecommendedFrom(Catalog, category, currentFormat);
        assert r == [Anchor(category).value] + filtered;
        forall i, j | 0 <= i < j < |r| ensures r[i] != r[j] {
          if i == 0 {
            assert r[j] == filtered[j - 1];
          }
        }
      }
    }
  }
}
