/**
 * `PDFImageExtractor` (src/extractors/image_extractor.py): counting how often
 * each image xref is placed in a document, the quality filter that decides
 * whether an image is kept, and the file name a kept image is saved under.
 *
 * PyMuPDF and PIL are not modelled: a page contributes the xrefs of its image
 * list, and a decoded image is the handful of values the filter reads from it.
 */
module ImageExtractor {
  import opened Wrappers
  import opened Strings

  /** `ImageFilterConfig` (src/config.py). */
  datatype FilterConfig = FilterConfig(
    minWidth: int,
    minHeight: int,
    minSizeBytes: int,
    maxRepetitions: int,
    minUniqueColors: int,
    maxAspectRatio: real,
    minAspectRatio: real)

  /** The defaults of `ImageFilterConfig`. */
  const DefaultFilterConfig := FilterConfig(300, 300, 10240, 1, 50, 4.0, 0.25)

  /** `getcolors(maxcolors=10000)` returns None for images with more colours. */
  const MaxListedColors := 10000

  /**
   * What the filter reads from a PIL image: its size, the number of distinct
   * colours of its RGB conversion, its mode and whether `info` has a
   * "transparency" entry.
   */
  datatype DecodedImage = DecodedImage(
    width: nat,
    height: nat,
    uniqueColors: nat,
    mode: string,
    hasTransparencyInfo: bool)

  /**
   * What `doc.extract_image(xref)` yields: the byte length and extension of the
   * raw image, and the decoded image, absent when `Image.open` fails.
   */
  datatype ImageData = ImageData(byteLength: nat, ext: string, decoded: Option<DecodedImage>)

  /** The exceptions `passes_filters` can raise: `KeyError` and `ZeroDivisionError`. */
  datatype FilterError = MissingCount | ZeroHeight

  /** The reasons an image is rejected for. */
  datatype Rejection = Repeated | TooFewBytes | TooSmall | BadAspect | TooFewColors | PaletteTransparency

  /** The aspect ratio `width / height` as a true quotient. */
  function AspectRatio(img: DecodedImage): real
    requires img.height > 0
  {
    (img.width as real) / (img.height as real)
  }

  /** The colour list exists (at most 10000 colours) and is non-empty but short. */
  predicate FewColors(cfg: FilterConfig, img: DecodedImage) {
    0 < img.uniqueColors <= MaxListedColors && img.uniqueColors < cfg.minUniqueColors
  }

  /**
   * Every rule the image breaks, independently of the order the checks run in.
   * The aspect rule is only defined for a positive height.
   */
  function Rejections(cfg: FilterConfig, img: DecodedImage, byteLength: nat, count: int): set<Rejection> {
    (if count > cfg.maxRepetitions then {Repeated} else {})
    + (if byteLength < cfg.minSizeBytes then {TooFewBytes} else {})
    + (if img.width < cfg.minWidth || img.height < cfg.minHeight then {TooSmall} else {})
    + (if img.height > 0 && (AspectRatio(img) > cfg.maxAspectRatio || AspectRatio(img) < cfg.minAspectRatio)
       then {BadAspect} else {})
    + (if FewColors(cfg, img) then {TooFewColors} else {})
    + (if img.mode == "P" && img.hasTransparencyInfo then {PaletteTransparency} else {})
  }

  /**
   * `passes_filters`: the checks in the source's order, each returning False as
   * soon as it rejects. A missing count raises before anything else; a zero
   * height raises at the division, which only the size check can pre-empt.
   * When no exception is raised the image passes exactly when it breaks no rule.
   */
  function PassesFilters(cfg: FilterConfig, img: DecodedImage, byteLength: nat, xref: nat, counts: map<nat, nat>)
    : (r: Result<bool, FilterError>)
    ensures xref !in counts ==> r == Err(MissingCount)
    ensures r == Err(ZeroHeight) <==>
      && xref in counts && counts[xref] <= cfg.maxRepetitions && byteLength >= cfg.minSizeBytes
      && img.width >= cfg.minWidth && img.height >= cfg.minHeight && img.height == 0
    ensures r.Ok? ==> xref in counts && (r.value <==> Rejections(cfg, img, byteLength, counts[xref]) == {})
  {
    if xref !in counts then Err(MissingCount)
    else if counts[xref] > cfg.maxRepetitions then
      assert Repeated in Rejections(cfg, img, byteLength, counts[xref]);
      Ok(false)
    else if byteLength < cfg.minSizeBytes then
      assert TooFewBytes in Rejections(cfg, img, byteLength, counts[xref]);
      Ok(false)
    else if img.width < cfg.minWidth || img.height < cfg.minHeight then
      assert TooSmall in Rejections(cfg, img, byteLength, counts[xref]);
      Ok(false)
    else if img.height == 0 then Err(ZeroHeight)
    else if AspectRatio(img) > cfg.maxAspectRatio || AspectRatio(img) < cfg.minAspectRatio then
      assert BadAspect in Rejections(cfg, img, byteLength, counts[xref]);
      Ok(false)
    else if FewColors(cfg, img) then
      assert TooFewColors in Rejections(cfg, img, byteLength, counts[xref]);
      Ok(false)
    else
      Ok(!(img.mode == "P" && img.hasTransparencyInfo))
  }

  /** With a positive minimum height, the filter never raises for a counted image. */
  lemma PassesFiltersTotal(cfg: FilterConfig, img: DecodedImage, byteLength: nat, xref: nat, counts: map<nat, nat>)
    requires cfg.minHeight > 0 && xref in counts
    ensures PassesFilters(cfg, img, byteLength, xref, counts).Ok?
  {
  }

  /** Both aspect-ratio bounds let an image through when it sits exactly on them. */
  lemma AspectBoundsInclusive(cfg: FilterConfig, img: DecodedImage)
    requires img.height > 0
    requires AspectRatio(img) == cfg.maxAspectRatio || AspectRatio(img) == cfg.minAspectRatio
    requires cfg.minAspectRatio <= cfg.maxAspectRatio
    ensures BadAspect !in Rejections(cfg, img, 0, 0)
  {
  }

  /** An image with more than 10000 colours is never rejected for its colours. */
  lemma ManyColorsSkipColorCheck(cfg: FilterConfig, img: DecodedImage)
    requires img.uniqueColors > MaxListedColors
    ensures TooFewColors !in Rejections(cfg, img, 0, 0)
  {
  }

  /** `f"{current_question}_img{xref}.{ext}"`. */
  function ImageFileName(question: string, xref: nat, ext: string): string {
    question + "_img" + NatToString(xref) + "." + ext
  }

  /**
   * `extract_and_filter_image`: the file name exactly when the image decodes
   * and passes the filter; None when it is rejected or when decoding or the
   * filter raises (the exception is caught and printed).
   */
  function ExtractAndFilterImage(cfg: FilterConfig, xref: nat, counts: map<nat, nat>, question: string, data: ImageData)
    : (r: Option<string>)
    ensures r.Some? <==> data.decoded.Some? && PassesFilters(cfg, data.decoded.value, data.byteLength, xref, counts) == Ok(true)
    ensures r.Some? ==> r.value == ImageFileName(question, xref, data.ext)
  {
    match data.decoded
    case None => None
    case Some(img) =>
      match PassesFilters(cfg, img, data.byteLength, xref, counts)
      case Ok(true) => Some(ImageFileName(question, xref, data.ext))
      case _ => None
  }

  /**
   * For question names without an underscore the file name determines the
   * question, the xref and the extension.
   */
  lemma ImageFileNameInjective(q1: string, x1: nat, e1: string, q2: string, x2: nat, e2: string)
    requires '_' !in q1 && '_' !in q2
    requires ImageFileName(q1, x1, e1) == ImageFileName(q2, x2, e2)
    ensures q1 == q2 && x1 == x2 && e1 == e2
  {
    var d1, d2 := NatToString(x1), NatToString(x2);
    assert ImageFileName(q1, x1, e1) == q1 + ['_'] + ("img" + d1 + "." + e1);
    assert ImageFileName(q2, x2, e2) == q2 + ['_'] + ("img" + d2 + "." + e2);
    SplitAtFirst(q1, "img" + d1 + "." + e1, q2, "img" + d2 + "." + e2, '_');
    assert d1 + "." + e1 == ("img" + d1 + "." + e1)[3..];
    assert d2 + "." + e2 == ("img" + d2 + "." + e2)[3..];
    assert '.' !in d1 && '.' !in d2 by {
      assert forall k :: 0 <= k < |d1| ==> IsDigit(d1[k]);
      assert forall k :: 0 <= k < |d2| ==> IsDigit(d2[k]);
    }
    assert d1 + "." + e1 == d1 + ['.'] + e1;
    assert d2 + "." + e2 == d2 + ['.'] + e2;
    SplitAtFirst(d1, e1, d2, e2, '.');
    NatToStringInjective(x1, x2);
  }

  /** Index of the first `c` in `s`, or `|s|`. */
  function IndexOf(s: string, c: char): (i: nat)
    ensures i <= |s|
  {
    if s == [] || s[0] == c then 0 else 1 + IndexOf(s[1..], c)
  }

  lemma {:induction false} IndexOfAfterPrefix(a: string, c: char, rest: string)
    requires c !in a
    ensures IndexOf(a + [c] + rest, c) == |a|
  {
    if a != [] {
      assert (a + [c] + rest)[1..] == a[1..] + [c] + rest;
      IndexOfAfterPrefix(a[1..], c, rest);
    }
  }

  /** Two strings cut at their first `c` agree on both sides of the cut. */
  lemma SplitAtFirst(a: string, x: string, b: string, y: string, c: char)
    requires c !in a && c !in b
    requires a + [c] + x == b + [c] + y
    ensures a == b && x == y
  {
    IndexOfAfterPrefix(a, c, x);
    IndexOfAfterPrefix(b, c, y);
    var s := a + [c] + x;
    assert a == s[..|a|] && b == s[..|b|];
    assert x == s[|a| + 1..] && y == s[|b| + 1..];
  }

  /** The xrefs of all page image lists, page by page. */
  function AllXrefs(pageXrefs: seq<seq<nat>>): seq<nat>
    decreases |pageXrefs|
  {
    if pageXrefs == [] then []
    else AllXrefs(pageXrefs[..|pageXrefs| - 1]) + pageXrefs[|pageXrefs| - 1]
  }

  /** The counting dictionary after visiting `xrefs` in order. */
  function Tally(xrefs: seq<nat>): map<nat, nat>
    decreases |xrefs|
  {
    if xrefs == [] then map[]
    else
      var counts := Tally(xrefs[..|xrefs| - 1]);
      var x := xrefs[|xrefs| - 1];
      counts[x := if x in counts then counts[x] + 1 else 1]
  }

  /** The tally holds exactly the xrefs seen, each with its number of occurrences. */
  lemma {:induction false} TallyCounts(xrefs: seq<nat>)
    ensures forall x :: x in Tally(xrefs) <==> x in multiset(xrefs)
    ensures forall x :: x in Tally(xrefs) ==> Tally(xrefs)[x] == multiset(xrefs)[x]
    decreases |xrefs|
  {
    if xrefs != [] {
      var init := xrefs[..|xrefs| - 1];
      TallyCounts(init);
      assert xrefs == init + [xrefs[|xrefs| - 1]];
    }
  }

  /**
   * `count_image_occurrences`: maps every xref that appears in some page's
   * image list, and only those, to the number of entries carrying it.
   */
  method CountImageOccurrences(pageXrefs: seq<seq<nat>>) returns (counts: map<nat, nat>)
    ensures counts == Tally(AllXrefs(pageXrefs))
    ensures forall x :: x in counts <==> x in multiset(AllXrefs(pageXrefs))
    ensures forall x :: x in counts ==> counts[x] == multiset(AllXrefs(pageXrefs))[x]
  {
    counts := map[];
    var p := 0;
    while p < |pageXrefs|
      invariant 0 <= p <= |pageXrefs|
      invariant counts == Tally(AllXrefs(pageXrefs[..p]))
    {
      var images := pageXrefs[p];
      ghost var before := AllXrefs(pageXrefs[..p]);
      var i := 0;
      assert before + images[..i] == before;
      while i < |images|
        invariant 0 <= i <= |images|
        invariant counts == Tally(before + images[..i])
      {
        var xref := images[i];
        var seen := if xref in counts then counts[xref] else 0;
        counts := counts[xref := seen + 1];
        assert before + images[..i + 1] == (before + images[..i]) + [xref];
        i := i + 1;
      }
      assert images[..i] == images;
      assert pageXrefs[..p + 1][..p] == pageXrefs[..p];
      p := p + 1;
    }
    assert pageXrefs[..p] == pageXrefs;
    TallyCounts(AllXrefs(pageXrefs));
  }
}
