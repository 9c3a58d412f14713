/**
 * `PDFTextExtractor` (src/extractors/text_extractor.py): clamping a requested
 * page range to the document and concatenating the text of the selected pages,
 * each behind a one-based page marker.
 *
 * Opening the PDF is not modelled: a document is its existence flag, its path
 * suffix and the text PyMuPDF's `page.get_text()` returns for each page.
 */
module TextExtractor {
  import opened Wrappers
  import opened Strings

  /** What `extract_text` sees of the file at `pdf_path`. */
  datatype PdfFile = PdfFile(present: bool, suffix: string, pageTexts: seq<string>)

  /** `FileNotFoundError` and `ValueError` of `extract_text`. */
  datatype ExtractError = FileNotFound | NotPdf

  /** Page `p` lies in the requested range (either bound may be absent). */
  predicate Requested(startPage: Option<int>, endPage: Option<int>, p: int) {
    (startPage.None? || startPage.value <= p) && (endPage.None? || p < endPage.value)
  }

  /**
   * `normalize_page_range`: the half-open range `[start, end)` of pages that are
   * both requested and in the document, or `(0, 0)` when there are none.
   */
  function NormalizePageRange(startPage: Option<int>, endPage: Option<int>, total: nat): (r: (int, int))
    ensures 0 <= r.0 <= r.1 <= total
    ensures r.0 == r.1 ==> r == (0, 0)
    ensures forall p :: r.0 <= p < r.1 <==> 0 <= p < total && Requested(startPage, endPage, p)
  {
    var start := if startPage.None? || startPage.value < 0 then 0 else startPage.value;
    var end := if endPage.None? || endPage.value > total then total else endPage.value;
    if start >= end then (0, 0) else (start, end)
  }

  /** The bounds' own rules: an absent or negative start is 0, an absent or too large end is `total`. */
  lemma NormalizePageRangeDefaults(startPage: Option<int>, endPage: Option<int>, total: nat)
    requires total > 0
    requires startPage.None? || startPage.value < 0
    requires endPage.None? || endPage.value > total
    ensures NormalizePageRange(startPage, endPage, total) == (0, total)
  {
  }

  /** The block `extract_text` emits for 0-based page `n`. */
  function PageBlock(n: nat, pageText: string): string {
    "\n\n --- Page " + NatToString(n + 1) + " --- \n\n" + pageText
  }

  /** The blocks of pages `start` to `end - 1`, in page order. */
  function PageBlocks(pageTexts: seq<string>, start: nat, end: nat): string
    requires start <= end <= |pageTexts|
    decreases end
  {
    if start == end then [] else PageBlocks(pageTexts, start, end - 1) + PageBlock(end - 1, pageTexts[end - 1])
  }

  /** A file `extract_text` reads without raising: it exists and ends in ".pdf" in any case. */
  predicate Readable(pdf: PdfFile) {
    pdf.present && LowerAsciiString(pdf.suffix) == ".pdf"
  }

  /** The blocks of the requested pages that are in the document. */
  function RangeBlocks(pdf: PdfFile, startPage: Option<int>, endPage: Option<int>): string {
    var (s, e) := NormalizePageRange(startPage, endPage, |pdf.pageTexts|);
    PageBlocks(pdf.pageTexts, s, e)
  }

  /** What `extract_text` returns or raises, for the functions that read a file. */
  function ReadText(pdf: PdfFile, startPage: Option<int>, endPage: Option<int>): Result<string, ExtractError> {
    if !pdf.present then Err(FileNotFound)
    else if !Readable(pdf) then Err(NotPdf)
    else Ok(RangeBlocks(pdf, startPage, endPage))
  }

  /** Without a range every page is read. */
  lemma RangeBlocksAll(pdf: PdfFile)
    ensures RangeBlocks(pdf, None, None) == PageBlocks(pdf.pageTexts, 0, |pdf.pageTexts|)
  {
  }

  /**
   * `extract_text`: the missing-file check comes first, then the suffix check
   * (Python's `lower()` equals ".pdf" exactly when the ASCII lower-casing does);
   * otherwise the text accumulated over the normalised page range, which is
   * empty for a degenerate range.
   */
  method ExtractText(pdf: PdfFile, startPage: Option<int>, endPage: Option<int>)
    returns (r: Result<string, ExtractError>)
    ensures !pdf.present ==> r == Err(FileNotFound)
    ensures pdf.present && LowerAsciiString(pdf.suffix) != ".pdf" ==> r == Err(NotPdf)
    ensures pdf.present && LowerAsciiString(pdf.suffix) == ".pdf" ==>
      var (s, e) := NormalizePageRange(startPage, endPage, |pdf.pageTexts|);
      r == Ok(PageBlocks(pdf.pageTexts, s, e))
    ensures r == ReadText(pdf, startPage, endPage)
  {
    if !pdf.present {
      return Err(FileNotFound);
    }
    if LowerAsciiString(pdf.suffix) != ".pdf" {
      return Err(NotPdf);
    }
    var text := "";
    var (start, end) := NormalizePageRange(startPage, endPage, |pdf.pageTexts|);
    if start >= end {
      return Ok("");
    }
    var pageNum := start;
    while pageNum < end
      invariant start <= pageNum <= end
      invariant text == PageBlocks(pdf.pageTexts, start, pageNum)
    {
      text := text + PageBlock(pageNum, pdf.pageTexts[pageNum]);
      pageNum := pageNum + 1;
    }
    return Ok(text);
  }

  /**
   * The page text is a concatenation of exactly `end - start` blocks, the i-th
   * carrying marker number `start + i + 1` and the text of page `start + i`.
   */
  lemma {:induction false} PageBlocksAreBlocks(pageTexts: seq<string>, start: nat, end: nat)
    requires start <= end <= |pageTexts|
    ensures PageBlocks(pageTexts, start, end)
            == Concat(seq(end - start, i requires 0 <= i < end - start => PageBlock(start + i, pageTexts[start + i])))
    decreases end
  {
    var blocks := seq(end - start, i requires 0 <= i < end - start => PageBlock(start + i, pageTexts[start + i]));
    if start < end {
      PageBlocksAreBlocks(pageTexts, start, end - 1);
      var shorter := seq(end - 1 - start, i requires 0 <= i < end - 1 - start => PageBlock(start + i, pageTexts[start + i]));
      assert blocks == shorter + [PageBlock(end - 1, pageTexts[end - 1])];
      ConcatAppend(shorter, [PageBlock(end - 1, pageTexts[end - 1])]);
    } else {
      assert blocks == [];
    }
  }

  /** Distinct pages carry distinct markers. */
  lemma PageMarkersDistinct(m: nat, n: nat, a: string, b: string)
    requires m != n
    ensures PageBlock(m, a)[..|PageBlock(m, a)| - |a|] != PageBlock(n, b)[..|PageBlock(n, b)| - |b|]
  {
    var pm := "\n\n --- Page " + NatToString(m + 1) + " --- \n\n";
    var pn := "\n\n --- Page " + NatToString(n + 1) + " --- \n\n";
    assert PageBlock(m, a)[..|PageBlock(m, a)| - |a|] == pm;
    assert PageBlock(n, b)[..|PageBlock(n, b)| - |b|] == pn;
    if pm == pn {
      var k := |"\n\n --- Page "|;
      assert |NatToString(m + 1)| == |NatToString(n + 1)|;
      assert pm[k..k + |NatToString(m + 1)|] == NatToString(m + 1);
      assert pn[k..k + |NatToString(n + 1)|] == NatToString(n + 1);
      NatToStringInjective(m + 1, n + 1);
    }
  }
}
