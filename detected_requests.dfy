/**
 * How the window joins the two services: it classifies the dropped file and asks
 * the recommendation engine for options with the detected category and format.
 */
module DetectedRequests {
  import opened Text
  import opened FileTypeDetector
  import ConversionService

  /**
   * The window asks for options with the category and format the classifier
   * detected. That format is always lower case, so for such a request the anchor
   * is never inserted and neither list holds the current format in any case.
   */
  lemma DetectedFormatsNeverInsertAnchor(fileExists: bool, extension: string)
    ensures var detected := DetectFileType(fileExists, extension);
      && (detected.category in ConversionService.Catalog ==>
            ConversionService.RecommendedFrom(ConversionService.Catalog, detected.category, detected.format)
              == ConversionService.Without(ConversionService.Catalog[detected.category].recommended, detected.format))
      && (forall f :: f in ConversionService.RecommendedFrom(ConversionService.Catalog, detected.category, detected.format) ==>
            !EqualsIgnoreCase(f, detected.format))
      && (forall f :: f in ConversionService.AllFormatsFrom(ConversionService.Catalog, detected.category, detected.format) ==>
            !EqualsIgnoreCase(f, detected.format))
  {
    var detected := DetectFileType(fileExists, extension);
    DetectedFormatIsLowerCase(fileExists, extension);
    if detected.category in ConversionService.Catalog {
      ConversionService.LowerCaseFormatNeverInsertsAnchor(detected.category, detected.format);
    }
    ConversionService.LowerCaseFormatIsNeverRecommended(detected.category, detected.format);
  }
}
