/**
 * The older standalone mapper (src/image_extraction.py): the same page loop as
 * `ExamExtractor.map_images_to_questions`, but with the filter's thresholds as
 * keyword defaults, fixed aspect bounds 0.25 and 4.0, the image filter inlined
 * in the image loop, and no early skip of pages without headers.
 *
 * Its counting loop and its header loop are the same code as
 * `count_image_occurrences` and `map_questions` and share their models.
 */
module LegacyImageExtraction {
  import opened Wrappers
  import opened Strings
  import opened ImageExtractor
  import opened ExamExtractor

  /** The keyword parameters of `_img_passes_filters`. */
  datatype Limits = Limits(minWidth: int, minHeight: int, minSizeBytes: int, maxRepetitions: int, minUniqueColors: int)

  /** The keyword defaults, which `map_images_to_questions` never overrides. */
  const DefaultLimits := Limits(300, 300, 10240, 1, 50)

  /** The aspect bounds `_img_passes_filters` fixes in its body. */
  const MaxAspect: real := 4.0
  const MinAspect: real := 0.25

  /** The configuration of the current filter that has the same thresholds. */
  function AsConfig(l: Limits): FilterConfig {
    FilterConfig(l.minWidth, l.minHeight, l.minSizeBytes, l.maxRepetitions, l.minUniqueColors, MaxAspect, MinAspect)
  }

  /**
   * `_img_passes_filters`: the same checks in the same order as
   * `passes_filters`, with the aspect bounds fixed. `image_counts[xref]` raises
   * for a missing xref and `width / height` for a zero height.
   */
  function LegacyPassesFilters(l: Limits, img: DecodedImage, byteLength: nat, xref: nat, counts: map<nat, nat>)
    : (r: Result<bool, FilterError>)
    ensures r == PassesFilters(AsConfig(l), img, byteLength, xref, counts)
  {
    if xref !in counts then Err(MissingCount)
    else if counts[xref] > l.maxRepetitions then Ok(false)
    else if byteLength < l.minSizeBytes then Ok(false)
    else if img.width < l.minWidth || img.height < l.minHeight then Ok(false)
    else if img.height == 0 then Err(ZeroHeight)
    else
      var aspect := (img.width as real) / (img.height as real);
      if aspect > MaxAspect || aspect < MinAspect then Ok(false)
      else if 0 < img.uniqueColors <= MaxListedColors && img.uniqueColors < l.minUniqueColors then Ok(false)
      else Ok(!(img.mode == "P" && img.hasTransparencyInfo))
  }

  /** The keyword defaults are exactly the defaults of the current filter configuration. */
  lemma DefaultLimitsAreDefaultConfig()
    ensures AsConfig(DefaultLimits) == DefaultFilterConfig
  {
  }

  /**
   * With its defaults the older filter never raises for a counted image, and
   * it keeps an image exactly when the image breaks none of the current
   * filter's default rules.
   */
  lemma LegacyFilterDecides(img: DecodedImage, byteLength: nat, xref: nat, counts: map<nat, nat>)
    requires xref in counts
    ensures LegacyPassesFilters(DefaultLimits, img, byteLength, xref, counts)
            == Ok(Rejections(DefaultFilterConfig, img, byteLength, counts[xref]) == {})
  {
    DefaultLimitsAreDefaultConfig();
    PassesFiltersTotal(DefaultFilterConfig, img, byteLength, xref, counts);
  }

  /** With no headers on the page, no image is placed and the map is unchanged. */
  lemma {:induction false} NoHeadersPlaceNothing(d: Dict, images: seq<PageImage>, ctx: ImageContext)
    ensures AssignImages(d, [], images, ctx) == d
    decreases |images|
  {
    if images != [] {
      NoHeadersPlaceNothing(d, images[..|images| - 1], ctx);
    }
  }

  /**
   * Skipping the images of a page without headers, as the current mapper
   * does, gives the same map as running the image loop over them anyway.
   */
  lemma PageStepWithoutSkip(d: Dict, page: Page, ctx: ImageContext)
    ensures Registered(RegisterNames(d, PageHeaders(page.blocks)), SortByY(PageHeaders(page.blocks)))
    ensures PageStep(d, page, ctx)
            == AssignImages(RegisterNames(d, PageHeaders(page.blocks)), SortByY(PageHeaders(page.blocks)), page.images, ctx)
  {
    SortedHeadersRegistered(d, PageHeaders(page.blocks));
    if SortByY(PageHeaders(page.blocks)) == [] {
      NoHeadersPlaceNothing(RegisterNames(d, PageHeaders(page.blocks)), page.images, ctx);
    }
  }

  /**
   * The `try` block of the image loop: open the bytes (an image that does not
   * decode raises and is skipped), run the filter with its defaults (a
   * filter that raises is caught and the image skipped too) and name the file.
   */
  method LegacyImageFile(q: string, xref: nat, counts: map<nat, nat>, data: ImageData) returns (file: Option<string>)
    ensures file == ExtractAndFilterImage(DefaultFilterConfig, xref, counts, q, data)
  {
    DefaultLimitsAreDefaultConfig();
    if data.decoded.None? {
      return None;
    }
    var passes := LegacyPassesFilters(DefaultLimits, data.decoded.value, data.byteLength, xref, counts);
    if passes == Ok(true) {
      file := Some(ImageFileName(q, xref, data.ext));
    } else {
      file := None;
    }
  }

  /**
   * The image loop of one page, with no early exit for a page without
   * headers: the band search, then the kept file appended unless present.
   */
  method LegacyPageImages(questionMap: QuestionMap, questions: seq<Header>, images: seq<PageImage>,
                          counts: map<nat, nat>, imageData: nat -> ImageData)
    requires questionMap.Valid() && Registered(questionMap.Contents(), questions)
    modifies questionMap
    ensures questionMap.Valid()
    ensures questionMap.Contents()
            == AssignImages(old(questionMap.Contents()), questions, images, ImageContext(DefaultFilterConfig, counts, imageData))
  {
    ghost var ctx := ImageContext(DefaultFilterConfig, counts, imageData);
    ghost var start := questionMap.Contents();
    var i := 0;
    while i < |images|
      invariant 0 <= i <= |images|
      invariant questionMap.Valid()
      invariant questionMap.Contents() == AssignImages(start, questions, images[..i], ctx)
      invariant Registered(questionMap.Contents(), questions)
    {
      assert images[..i + 1][..i] == images[..i];
      var img := images[i];
      i := i + 1;
      if img.rectTops == [] {
        continue;
      }
      var imgY := img.rectTops[0];
      var current := FindQuestion(questions, imgY);
      if current.None? {
        continue;
      }
      var q := current.value;
      var file := LegacyImageFile(q, img.xref, counts, imageData(img.xref));
      assert q in questionMap.lists by {
        var k := BandOf(questions, imgY).value;
        assert questions[k] in questions;
      }
      if file.Some? && file.value !in questionMap.lists[q] {
        questionMap.Append(q, file.value);
      }
    }
    assert images[..i] == images;
  }

  /**
   * `map_images_to_questions` of the older module: it computes the same map as
   * the current mapper run with the default filter configuration.
   */
  method LegacyMapImagesToQuestions(pages: seq<Page>, imageData: nat -> ImageData) returns (questionMap: QuestionMap)
    ensures fresh(questionMap) && questionMap.Valid()
    ensures questionMap.Contents() == ImageMap(pages, imageData, DefaultFilterConfig)
  {
    questionMap := new QuestionMap();
    var counts := CountImageOccurrences(PageXrefs(pages));
    ghost var ctx := ImageContext(DefaultFilterConfig, counts, imageData);
    var p := 0;
    while p < |pages|
      invariant 0 <= p <= |pages|
      invariant questionMap.Valid()
      invariant questionMap.Contents() == MapPages(pages[..p], ctx)
    {
      assert pages[..p + 1][..p] == pages[..p];
      var page := pages[p];
      p := p + 1;
      ghost var pre := questionMap.Contents();
      var questions := MapQuestions(questionMap, page.blocks);
      PageStepWithoutSkip(pre, page, ctx);
      LegacyPageImages(questionMap, questions, page.images, counts, imageData);
    }
    assert pages[..p] == pages;
  }
}
